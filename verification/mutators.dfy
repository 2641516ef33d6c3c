/** The record mutators of fru.c (`fru_mrec_update_mac`, `_bootdevice`,
    `_passwd_line`, `_test_ok`, `_power_policy`). Each stores the new value in
    the document's cache and points the first record of its type at it; all
    but the MAC update append a record when none of that type exists. An
    appended record is flagged last, and the record that was last before it
    keeps its flag: the encoder recomputes every end flag anyway. */
module Mutators {
  import opened FruTypes
  import opened Multirecords
  import opened Document

  /** Index of the first record of type `t` at or after `from`. */
  function FindFrom(ms: seq<Multirecord>, t: Byte, from: nat): (r: Option<nat>)
    requires from <= |ms|
    ensures r.Some? ==> from <= r.value < |ms| && ms[r.value].recType == t
    ensures r.Some? ==> forall j :: from <= j < r.value ==> ms[j].recType != t
    ensures r.None? ==> forall j :: from <= j < |ms| ==> ms[j].recType != t
    decreases |ms| - from
  {
    if from == |ms| then None
    else if ms[from].recType == t then Some(from)
    else FindFrom(ms, t, from + 1)
  }

  /** The loop `for (i = 0; i < mrec_count; i++) if (mrec[i].type == t)`:
      the first record of type `t`, if any. */
  function FindType(ms: seq<Multirecord>, t: Byte): (r: Option<nat>)
    ensures r.Some? ==> r.value < |ms| && ms[r.value].recType == t
    ensures r.Some? ==> forall j :: 0 <= j < r.value ==> ms[j].recType != t
    ensures r.None? <==> forall j :: 0 <= j < |ms| ==> ms[j].recType != t
  {
    FindFrom(ms, t, 0)
  }

  /** Appending writes `mrec[mrec_count]` without a bound check, so the C
      needs a free slot whenever no record of the type exists yet. */
  predicate CanUpsert(ms: seq<Multirecord>, t: Byte) {
    FindType(ms, t).Some? || |ms| < N_MULTIREC
  }

  datatype Upserted = Upserted(mrecs: seq<Multirecord>, ret: int)

  /** The shared body of the appending mutators: give the first record of
      type `t` the new data and length (0), or append `{t, format 2, end}`
      with them (-1). */
  function Upsert(ms: seq<Multirecord>, t: Byte, data: seq<Byte>, len: nat): (u: Upserted)
    requires CanUpsert(ms, t)
    ensures u.ret == 0 <==> exists j :: 0 <= j < |ms| && ms[j].recType == t
    ensures u.ret == 0 || u.ret == -1
    ensures u.ret == 0 ==> |u.mrecs| == |ms|
    ensures u.ret == -1 ==> |u.mrecs| == |ms| + 1 && u.mrecs[..|ms|] == ms
    ensures |u.mrecs| <= N_MULTIREC || |u.mrecs| == |ms|
  {
    match FindType(ms, t)
    case Some(i) => Upserted(ms[i := ms[i].(data := data, length := len)], 0)
    case None => Upserted(ms + [Multirecord(t, MR_FORMAT, true, len, data)], -1)
  }

  /** What an upsert changes: the first record of type `t` in the input
      (or a new last one) carries the data and length; every other record,
      and every other field of the updated one, including the stored end
      flags, stays as it was. */
  lemma UpsertEffect(ms: seq<Multirecord>, t: Byte, data: seq<Byte>, len: nat)
    requires CanUpsert(ms, t)
    ensures var u := Upsert(ms, t, data, len);
            && FindType(u.mrecs, t).Some?
            && var i := FindType(u.mrecs, t).value;
            && u.mrecs[i].recType == t && u.mrecs[i].data == data && u.mrecs[i].length == len
            && (u.ret == -1 ==> i == |ms| && u.mrecs[i].format == MR_FORMAT && u.mrecs[i].end)
            && (u.ret == 0 ==> i < |ms| && FindType(ms, t) == Some(i)
                               && u.mrecs[i] == ms[i].(data := data, length := len))
            && forall j :: 0 <= j < |ms| && j != i ==> u.mrecs[j] == ms[j]
  {
    var u := Upsert(ms, t, data, len);
    match FindType(ms, t)
    case Some(i) =>
      assert FindType(u.mrecs, t) == Some(i) by {
        FindTypeIsFirst(u.mrecs, t, i);
      }
    case None =>
      FindTypeIsFirst(u.mrecs, t, |ms|);
  }

  /** `FindType` is pinned down by its properties. */
  lemma FindTypeIsFirst(ms: seq<Multirecord>, t: Byte, i: nat)
    requires i < |ms| && ms[i].recType == t
    requires forall j :: 0 <= j < i ==> ms[j].recType != t
    ensures FindType(ms, t) == Some(i)
  {
  }

  /** `u` differs from `ms` only at the first record of type `t`: either
      that record, updated in place with its type, format and end flag kept,
      or one record appended with format 2 and flagged last. */
  predicate OnlyFirstOfType(ms: seq<Multirecord>, u: seq<Multirecord>, t: Byte) {
    && FindType(u, t).Some?
    && var i := FindType(u, t).value;
    && i <= |ms| && |u| == (if i == |ms| then |ms| + 1 else |ms|)
    && (i < |ms| ==> FindType(ms, t) == Some(i) && u[i].format == ms[i].format && u[i].end == ms[i].end)
    && (i == |ms| ==> u[i].format == MR_FORMAT && u[i].end)
    && forall j :: 0 <= j < |ms| && j != i ==> u[j] == ms[j]
  }

  /** The first record of type `t` sends exactly `bytes`: its length is
      theirs and its data starts with them. */
  predicate Sends(ms: seq<Multirecord>, t: Byte, bytes: seq<Byte>) {
    && FindType(ms, t).Some?
    && var m := ms[FindType(ms, t).value];
    && m.length == |bytes| && m.length <= |m.data| && m.data[..m.length] == bytes
  }

  /** The frame of an upsert in the terms of `OnlyFirstOfType`. */
  lemma UpsertOnlyFirst(ms: seq<Multirecord>, t: Byte, data: seq<Byte>, len: nat)
    requires CanUpsert(ms, t)
    ensures OnlyFirstOfType(ms, Upsert(ms, t, data, len).mrecs, t)
  {
    UpsertEffect(ms, t, data, len);
  }

  /** Repeating an upsert with the same arguments changes nothing more. */
  lemma UpsertIdempotent(ms: seq<Multirecord>, t: Byte, data: seq<Byte>, len: nat)
    requires CanUpsert(ms, t)
    ensures var once := Upsert(ms, t, data, len).mrecs;
            CanUpsert(once, t) && Upsert(once, t, data, len) == Upserted(once, 0)
  {
    UpsertEffect(ms, t, data, len);
    var once := Upsert(ms, t, data, len).mrecs;
    var i := FindType(once, t).value;
    assert once[i := once[i].(data := data, length := len)] == once;
  }

  /** An upsert keeps the record count within the eight slots, and keeps the
      records encodable when the new payload is. */
  lemma UpsertKeepsShape(ms: seq<Multirecord>, t: Byte, data: seq<Byte>, len: nat)
    requires CanUpsert(ms, t) && |ms| <= N_MULTIREC
    requires AllEncodable(ms) && len < 256 && len <= |data|
    ensures |Upsert(ms, t, data, len).mrecs| <= N_MULTIREC
    ensures AllEncodable(Upsert(ms, t, data, len).mrecs)
  {
    UpsertEffect(ms, t, data, len);
  }

  /** The bytes of a C string: everything before the first NUL (`strlen`). */
  function CString(s: seq<Byte>): (c: seq<Byte>)
    ensures |c| <= |s| && c == s[..|c|] && NoNul(c)
    ensures |c| < |s| ==> s[|c|] == 0
  {
    if s == [] || s[0] == 0 then [] else [s[0]] + CString(s[1..])
  }

  /** A string mutator's buffer and length: the string truncated to the
      buffer's capacity, zero-filled (`memset` then `memcpy` of the length). */
  datatype Stored = Stored(buf: seq<Byte>, len: nat)

  function StoreString(s: seq<Byte>, cap: nat): (r: Stored)
    ensures r.len == Min(|CString(s)|, cap) && |r.buf| == cap
    ensures r.buf[..r.len] == CString(s)[..r.len]
    ensures forall i :: r.len <= i < cap ==> r.buf[i] == 0
  {
    var str := CString(s);
    var len := Min(|str|, cap);
    Stored(PadTo(str, cap), len)
  }

  /** Result of a mutator: the new document and the C return value. */
  datatype Updated = Updated(fru: Fru, ret: int)

  function Apply(f: Fru, u: Upserted, c: Cache): Updated {
    Updated(f.(mrecs := u.mrecs, cache := c), u.ret)
  }

  /** `fru_mrec_update_mac`: the cached MAC is replaced whatever happens; the
      first MAC record then carries it with its length untouched (0), or,
      with no MAC record, nothing else changes (-1). */
  function UpdateMac(f: Fru, mac: seq<Byte>): (r: Updated)
    requires |mac| == MAC_LEN
    ensures r.fru.cache == f.cache.(mac := mac)
    ensures r.ret == 0 <==> exists j :: 0 <= j < |f.mrecs| && f.mrecs[j].recType == MR_MAC_REC
    ensures r.ret == -1 ==> r.fru.mrecs == f.mrecs
    ensures |r.fru.mrecs| == |f.mrecs|
    ensures r.fru.(mrecs := f.mrecs, cache := f.cache) == f
  {
    var c := f.cache.(mac := mac);
    match FindType(f.mrecs, MR_MAC_REC)
    case Some(i) => Apply(f, Upserted(f.mrecs[i := f.mrecs[i].(data := mac)], 0), c)
    case None => Apply(f, Upserted(f.mrecs, -1), c)
  }

  /** The MAC update touches only the first MAC record's payload. */
  lemma UpdateMacEffect(f: Fru, mac: seq<Byte>)
    requires |mac| == MAC_LEN
    requires FindType(f.mrecs, MR_MAC_REC).Some?
    ensures var i := FindType(f.mrecs, MR_MAC_REC).value;
            var ms := UpdateMac(f, mac).fru.mrecs;
            && ms[i] == f.mrecs[i].(data := mac)
            && forall j :: 0 <= j < |ms| && j != i ==> ms[j] == f.mrecs[j]
  {
  }

  /** `fru_mrec_update_bootdevice`: the string (at most 32 bytes, no
      terminator needed) goes to the cached buffer and to the boot device
      record. */
  function UpdateBootdevice(f: Fru, s: seq<Byte>): (r: Updated)
    requires CanUpsert(f.mrecs, MR_SATADEV_REC)
    ensures r.fru.cache == f.cache.(bootdevice := StoreString(s, FRU_STR_MAX).buf)
    ensures r.ret == 0 <==> exists j :: 0 <= j < |f.mrecs| && f.mrecs[j].recType == MR_SATADEV_REC
    ensures r.ret == -1 ==> |r.fru.mrecs| == |f.mrecs| + 1 && r.fru.mrecs[..|f.mrecs|] == f.mrecs
    ensures OnlyFirstOfType(f.mrecs, r.fru.mrecs, MR_SATADEV_REC)
    ensures Sends(r.fru.mrecs, MR_SATADEV_REC, CString(s)[..Min(|CString(s)|, FRU_STR_MAX)])
    ensures r.fru.(mrecs := f.mrecs, cache := f.cache) == f
  {
    var st := StoreString(s, FRU_STR_MAX);
    UpsertOnlyFirst(f.mrecs, MR_SATADEV_REC, st.buf, st.len);
    StringUpdateReadBack(f.mrecs, MR_SATADEV_REC, s, FRU_STR_MAX);
    Apply(f, Upsert(f.mrecs, MR_SATADEV_REC, st.buf, st.len), f.cache.(bootdevice := st.buf))
  }

  /** `fru_mrec_update_passwd_line`: as the boot device, with the password
      buffer's capacity. */
  function UpdatePasswdLine(f: Fru, s: seq<Byte>): (r: Updated)
    requires CanUpsert(f.mrecs, MR_PASSWD_REC)
    ensures r.fru.cache == f.cache.(passwdLine := StoreString(s, FRU_PWD_MAX).buf)
    ensures r.ret == 0 <==> exists j :: 0 <= j < |f.mrecs| && f.mrecs[j].recType == MR_PASSWD_REC
    ensures r.ret == -1 ==> |r.fru.mrecs| == |f.mrecs| + 1 && r.fru.mrecs[..|f.mrecs|] == f.mrecs
    ensures OnlyFirstOfType(f.mrecs, r.fru.mrecs, MR_PASSWD_REC)
    ensures Sends(r.fru.mrecs, MR_PASSWD_REC, CString(s)[..Min(|CString(s)|, FRU_PWD_MAX)])
    ensures r.fru.(mrecs := f.mrecs, cache := f.cache) == f
  {
    var st := StoreString(s, FRU_PWD_MAX);
    UpsertOnlyFirst(f.mrecs, MR_PASSWD_REC, st.buf, st.len);
    StringUpdateReadBack(f.mrecs, MR_PASSWD_REC, s, FRU_PWD_MAX);
    Apply(f, Upsert(f.mrecs, MR_PASSWD_REC, st.buf, st.len), f.cache.(passwdLine := st.buf))
  }

  /** `fru_mrec_update_test_ok`: a one-byte record holding the value. */
  function UpdateTestOk(f: Fru, v: Byte): (r: Updated)
    requires CanUpsert(f.mrecs, MR_TESTOK_REC)
    ensures r.fru.cache == f.cache.(testOk := v)
    ensures r.ret == 0 <==> exists j :: 0 <= j < |f.mrecs| && f.mrecs[j].recType == MR_TESTOK_REC
    ensures r.ret == -1 ==> |r.fru.mrecs| == |f.mrecs| + 1 && r.fru.mrecs[..|f.mrecs|] == f.mrecs
    ensures OnlyFirstOfType(f.mrecs, r.fru.mrecs, MR_TESTOK_REC)
    ensures Sends(r.fru.mrecs, MR_TESTOK_REC, [v])
    ensures r.fru.(mrecs := f.mrecs, cache := f.cache) == f
  {
    UpsertOnlyFirst(f.mrecs, MR_TESTOK_REC, [v], 1);
    ByteUpdateReadBack(f.mrecs, MR_TESTOK_REC, v);
    Apply(f, Upsert(f.mrecs, MR_TESTOK_REC, [v], 1), f.cache.(testOk := v))
  }

  /** `fru_mrec_update_power_policy`: a one-byte record holding the policy
      (the low byte of the enum value, which is what the record sends). */
  function UpdatePowerPolicy(f: Fru, pp: Byte): (r: Updated)
    requires CanUpsert(f.mrecs, MR_POWER_POLICY_REC)
    ensures r.fru.cache == f.cache.(powerPolicy := pp)
    ensures r.ret == 0 <==> exists j :: 0 <= j < |f.mrecs| && f.mrecs[j].recType == MR_POWER_POLICY_REC
    ensures r.ret == -1 ==> |r.fru.mrecs| == |f.mrecs| + 1 && r.fru.mrecs[..|f.mrecs|] == f.mrecs
    ensures OnlyFirstOfType(f.mrecs, r.fru.mrecs, MR_POWER_POLICY_REC)
    ensures Sends(r.fru.mrecs, MR_POWER_POLICY_REC, [pp])
    ensures r.fru.(mrecs := f.mrecs, cache := f.cache) == f
  {
    UpsertOnlyFirst(f.mrecs, MR_POWER_POLICY_REC, [pp], 1);
    ByteUpdateReadBack(f.mrecs, MR_POWER_POLICY_REC, pp);
    Apply(f, Upsert(f.mrecs, MR_POWER_POLICY_REC, [pp], 1), f.cache.(powerPolicy := pp))
  }

  /** After a string mutator the record of its type sends exactly the C
      string truncated to capacity. */
  lemma StringUpdateReadBack(ms: seq<Multirecord>, t: Byte, s: seq<Byte>, cap: nat)
    requires CanUpsert(ms, t)
    ensures var st := StoreString(s, cap);
            Sends(Upsert(ms, t, st.buf, st.len).mrecs, t, CString(s)[..Min(|CString(s)|, cap)])
  {
    var st := StoreString(s, cap);
    UpsertEffect(ms, t, st.buf, st.len);
  }

  /** After a byte mutator the record of its type sends exactly that byte. */
  lemma ByteUpdateReadBack(ms: seq<Multirecord>, t: Byte, v: Byte)
    requires CanUpsert(ms, t)
    ensures Sends(Upsert(ms, t, [v], 1).mrecs, t, [v])
  {
    UpsertEffect(ms, t, [v], 1);
  }
}
