/** The logic of `fru_open_parse` and `fru_update_mrec_eeprom` with the
    EEPROM transport taken out: decoding a whole image and copying record
    payloads into the cache, and splicing a re-encoded multirecord area into
    an image. */
module Image {
  import opened FruTypes
  import opened Multirecords
  import opened Document
  import opened Mutators

  /** The cache field a record feeds, decided by the `if`/`else if` chain of
      the extraction loop: the first test that matches the type wins. */
  datatype Field = MacField | BootField | PasswdField | TestOkField | PowerField | NoField

  function Kind(t: Byte): Field {
    if t == MR_MAC_REC then MacField
    else if t == MR_SATADEV_REC then BootField
    else if t == MR_PASSWD_REC then PasswdField
    else if t == MR_TESTOK_REC then TestOkField
    else if t == MR_POWER_POLICY_REC then PowerField
    else NoField
  }

  /** The first byte of a payload; zero for an empty one. */
  function FirstByte(data: seq<Byte>): Byte {
    if data == [] then 0 else data[0]
  }

  /** How many bytes a string field takes from a record: its length capped
      at the field's capacity (and at the bytes the record holds). */
  function CopyLen(m: Multirecord, cap: nat): (n: nat)
    ensures n <= m.length && n <= |m.data| && n <= cap
    ensures n == cap || n == m.length || n == |m.data|
  {
    Min(Min(m.length, |m.data|), cap)
  }

  /** One pass of the extraction loop: copy the record's payload into the
      field its type selects. The MAC takes six bytes, a string field the
      record's length capped at its capacity after zeroing it, a byte field
      the first byte; a payload shorter than the copy is zero-filled. */
  function Extract(c: Cache, m: Multirecord): (r: Cache)
    ensures CacheShaped(c) ==> CacheShaped(r)
    ensures Kind(m.recType) == MacField ==>
              && r == c.(mac := r.mac) && |r.mac| == MAC_LEN
              && (|m.data| >= MAC_LEN ==> r.mac == m.data[..MAC_LEN])
    ensures Kind(m.recType) == BootField ==>
              var n := CopyLen(m, FRU_STR_MAX);
              && r == c.(bootdevice := r.bootdevice) && |r.bootdevice| == FRU_STR_MAX
              && r.bootdevice[..n] == m.data[..n]
              && forall i :: n <= i < FRU_STR_MAX ==> r.bootdevice[i] == 0
    ensures Kind(m.recType) == PasswdField ==>
              var n := CopyLen(m, FRU_PWD_MAX);
              && r == c.(passwdLine := r.passwdLine) && |r.passwdLine| == FRU_PWD_MAX
              && r.passwdLine[..n] == m.data[..n]
              && forall i :: n <= i < FRU_PWD_MAX ==> r.passwdLine[i] == 0
    ensures Kind(m.recType) == TestOkField ==>
              r == c.(testOk := r.testOk) && (m.data != [] ==> r.testOk == m.data[0])
    ensures Kind(m.recType) == PowerField ==>
              r == c.(powerPolicy := r.powerPolicy) && (m.data != [] ==> r.powerPolicy == m.data[0])
    ensures Kind(m.recType) == NoField ==> r == c
  {
    match Kind(m.recType)
    case MacField => c.(mac := PadTo(m.data, MAC_LEN))
    case BootField => c.(bootdevice := PadTo(m.data[..CopyLen(m, FRU_STR_MAX)], FRU_STR_MAX))
    case PasswdField => c.(passwdLine := PadTo(m.data[..CopyLen(m, FRU_PWD_MAX)], FRU_PWD_MAX))
    case TestOkField => c.(testOk := FirstByte(m.data))
    case PowerField => c.(powerPolicy := FirstByte(m.data))
    case NoField => c
  }

  /** The extraction loop over `mrec[0 .. mrec_count)`, in order: the cache
      after the last record is the cache after the others, updated by it. */
  function ExtractAll(c: Cache, ms: seq<Multirecord>): (r: Cache)
    ensures CacheShaped(c) ==> CacheShaped(r)
    decreases |ms|
  {
    if ms == [] then c else Extract(ExtractAll(c, ms[..|ms| - 1]), ms[|ms| - 1])
  }

  /** A field's value, bytes as one-byte sequences. */
  function Get(c: Cache, k: Field): seq<Byte> {
    match k
    case MacField => c.mac
    case BootField => c.bootdevice
    case PasswdField => c.passwdLine
    case TestOkField => [c.testOk]
    case PowerField => [c.powerPolicy]
    case NoField => []
  }

  /** What a record of field `k` leaves in that field. */
  function Value(m: Multirecord, k: Field): seq<Byte> {
    Get(Extract(EmptyCache, m), k)
  }

  /** A record only writes the field its type selects. */
  lemma ExtractTouchesOneField(c: Cache, m: Multirecord, k: Field)
    requires k != Kind(m.recType)
    ensures Get(Extract(c, m), k) == Get(c, k)
  {
  }

  /** A record overwrites its field completely, whatever was there. */
  lemma ExtractOverwrites(c: Cache, m: Multirecord)
    ensures Get(Extract(c, m), Kind(m.recType)) == Value(m, Kind(m.recType))
  {
  }

  /** A field no record selects keeps its previous value. */
  lemma {:induction false} NoMatchKeeps(c: Cache, ms: seq<Multirecord>, k: Field)
    requires forall j :: 0 <= j < |ms| ==> Kind(ms[j].recType) != k
    ensures Get(ExtractAll(c, ms), k) == Get(c, k)
    decreases |ms|
  {
    if ms != [] {
      var n := |ms| - 1;
      NoMatchKeeps(c, ms[..n], k);
      ExtractTouchesOneField(ExtractAll(c, ms[..n]), ms[n], k);
    }
  }

  /** Last match wins: a field ends up holding the value of the last record
      that selects it, whatever earlier records of its kind held. */
  lemma {:induction false} LastMatchWins(c: Cache, ms: seq<Multirecord>, k: Field, i: nat)
    requires i < |ms| && Kind(ms[i].recType) == k
    requires forall j :: i < j < |ms| ==> Kind(ms[j].recType) != k
    ensures Get(ExtractAll(c, ms), k) == Value(ms[i], k)
    decreases |ms|
  {
    var n := |ms| - 1;
    var before := ExtractAll(c, ms[..n]);
    if i == n {
      ExtractOverwrites(before, ms[n]);
    } else {
      LastMatchWins(c, ms[..n], k, i);
      ExtractTouchesOneField(before, ms[n], k);
    }
  }

  /** The pure part of `fru_open_parse`: decode the image and fill the cache
      from the records. Any decoder failure is reported by the C as -2. */
  function OpenParse(image: seq<Byte>): (r: Result<Fru, FruError>)
    ensures r.Err? <==> ParseFru(image).Err?
    ensures r.Ok? ==> CacheShaped(r.value.cache)
    ensures r.Ok? ==> r.value.(cache := EmptyCache) == ParseFru(image).value
  {
    match ParseFru(image)
    case Err(e) => Err(e)
    case Ok(f) => Ok(f.(cache := ExtractAll(f.cache, f.mrecs)))
  }

  /** The pure part of `fru_update_mrec_eeprom`: the output buffer gets the
      image's bytes before the multirecord area, then the encoded records;
      the rest keeps what the output buffer held before (`prior`). `None`
      (-1) when the records do not fit before the end of the EEPROM. */
  function UpdateMrecImage(image: seq<Byte>, prior: seq<Byte>, f: Fru): (r: Option<seq<Byte>>)
    requires |image| == FRU_SIZE && |prior| == FRU_SIZE
    requires f.mrecAreaOffset <= FRU_SIZE && AllEncodable(f.mrecs)
    ensures r.None? <==> f.mrecs != [] && EncodedSize(f.mrecs) >= FRU_SIZE - f.mrecAreaOffset
    ensures r.Some? ==>
              var mo, n := f.mrecAreaOffset, EncodedSize(f.mrecs);
              && |r.value| == FRU_SIZE && mo + n <= FRU_SIZE
              && r.value[..mo] == image[..mo]
              && r.value[mo .. mo + n] == EncodeRecords(f.mrecs)
              && r.value[mo + n ..] == prior[mo + n ..]
  {
    var mo := f.mrecAreaOffset;
    match MkMultirecordsArea(f.mrecs, FRU_SIZE - mo)
    case None => None
    case Some(area) =>
      var out := image[..mo] + area + prior[mo + |area| ..];
      assert out[..mo] == image[..mo];
      assert out[mo .. mo + |area|] == area;
      assert out[mo + |area| ..] == prior[mo + |area| ..];
      Some(out)
  }

  /** Reading back a spliced image: the header is the one the image had, and
      from the area offset the decoder finds exactly the records written, the
      end flag on the last one only. */
  lemma SpliceRoundTrip(image: seq<Byte>, prior: seq<Byte>, f: Fru)
    requires |image| == FRU_SIZE && |prior| == FRU_SIZE
    requires HEADER_SIZE <= f.mrecAreaOffset <= FRU_SIZE && AllEncodable(f.mrecs)
    requires 0 < |f.mrecs| <= N_MULTIREC
    requires UpdateMrecImage(image, prior, f).Some?
    ensures var out := UpdateMrecImage(image, prior, f).value;
            && out[..HEADER_SIZE] == image[..HEADER_SIZE]
            && CheckHeader(out) == CheckHeader(image)
            && ParseMrecs(out[f.mrecAreaOffset..], N_MULTIREC) == Ok(Normalized(f.mrecs))
  {
    var out := UpdateMrecImage(image, prior, f).value;
    var mo, n := f.mrecAreaOffset, EncodedSize(f.mrecs);
    assert out[..HEADER_SIZE] == out[..mo][..HEADER_SIZE];
    assert out[..HEADER_SIZE] == image[..HEADER_SIZE];
    assert out[..HEADER_SIZE][..HEADER_SIZE] == image[..HEADER_SIZE][..HEADER_SIZE];
    assert out[0] == image[0];
    var tail := out[mo..];
    assert tail == EncodeRecords(f.mrecs) + out[mo + n ..];
    RecordsRoundTrip(f.mrecs, out[mo + n ..], tail, N_MULTIREC);
  }

  /** Opening a spliced image that still decodes gives the records written,
      and the cache then holds what those records carry. */
  lemma ReopenSeesUpdate(image: seq<Byte>, prior: seq<Byte>, f: Fru, k: Field, i: nat)
    requires |image| == FRU_SIZE && |prior| == FRU_SIZE
    requires HEADER_SIZE <= f.mrecAreaOffset <= FRU_SIZE && AllEncodable(f.mrecs)
    requires 0 < |f.mrecs| <= N_MULTIREC
    requires UpdateMrecImage(image, prior, f).Some?
    requires f.mrecAreaOffset == AreaOffset(image[5])
    requires OpenParse(UpdateMrecImage(image, prior, f).value).Ok?
    requires i < |f.mrecs| && Kind(f.mrecs[i].recType) == k
    requires forall j :: i < j < |f.mrecs| ==> Kind(f.mrecs[j].recType) != k
    ensures var g := OpenParse(UpdateMrecImage(image, prior, f).value).value;
            && g.mrecs == Normalized(f.mrecs)
            && Get(g.cache, k) == Value(Normalized(f.mrecs)[i], k)
  {
    var out := UpdateMrecImage(image, prior, f).value;
    SpliceRoundTrip(image, prior, f);
    assert out[5] == image[5] by {
      assert out[5] == out[..HEADER_SIZE][5] && image[5] == image[..HEADER_SIZE][5];
    }
    var g := OpenParseFields(out);
    var ns := Normalized(f.mrecs);
    assert g.mrecs == ns;
    NormalizedKeepsTypes(f.mrecs);
    LastMatchWins(EmptyCache, ns, k, i);
  }

  /** What an opened image holds: the records decoded from the area offset
      its header gives, and the cache those records fill. */
  lemma OpenParseFields(image: seq<Byte>) returns (g: Fru)
    requires OpenParse(image).Ok?
    ensures g == OpenParse(image).value
    ensures g.mrecAreaOffset == AreaOffset(image[5]) <= |image|
    ensures ParseMrecs(image[g.mrecAreaOffset..], N_MULTIREC) == Ok(g.mrecs)
    ensures g.cache == ExtractAll(EmptyCache, g.mrecs)
  {
    g := OpenParse(image).value;
    ParseFruContents(image);
  }

  /** The record a decoder sees for `m` once encoded. */
  function Decoded(m: Multirecord, end: bool): Multirecord
    requires Encodable(m)
  {
    Multirecord(m.recType, MR_FORMAT, end, m.length, Payload(m))
  }

  /** Set, then read back: the boot device record a mutator leaves gives the
      cached field, once encoded and decoded, exactly the buffer the mutator
      stored there. */
  lemma BootdeviceReadBack(f: Fru, s: seq<Byte>, end: bool)
    requires CanUpsert(f.mrecs, MR_SATADEV_REC) && Kind(MR_SATADEV_REC) == BootField
    ensures var g := UpdateBootdevice(f, s).fru;
            var m := g.mrecs[FindType(g.mrecs, MR_SATADEV_REC).value];
            && Encodable(m)
            && Value(Decoded(m, end), BootField) == StoreString(s, FRU_STR_MAX).buf
            && g.cache.bootdevice == StoreString(s, FRU_STR_MAX).buf
  {
    var st := StoreString(s, FRU_STR_MAX);
    var g := UpdateBootdevice(f, s).fru;
    UpsertEffect(f.mrecs, MR_SATADEV_REC, st.buf, st.len);
    var m := g.mrecs[FindType(g.mrecs, MR_SATADEV_REC).value];
    assert m.data == st.buf && m.length == st.len;
    var v := Value(Decoded(m, end), BootField);
    assert v == st.buf;
  }

  /** Set, then read back, for the test-ok byte. */
  lemma TestOkReadBack(f: Fru, v: Byte, end: bool)
    requires CanUpsert(f.mrecs, MR_TESTOK_REC) && Kind(MR_TESTOK_REC) == TestOkField
    ensures var g := UpdateTestOk(f, v).fru;
            var m := g.mrecs[FindType(g.mrecs, MR_TESTOK_REC).value];
            && Encodable(m)
            && Value(Decoded(m, end), TestOkField) == [v] == [g.cache.testOk]
  {
    UpsertEffect(f.mrecs, MR_TESTOK_REC, [v], 1);
  }

  /** The `i`-th normalised record is the decoder's view of the `i`-th
      record, flagged last when it is the last one. */
  lemma {:induction false} NormalizedAt(ms: seq<Multirecord>, i: nat)
    requires AllEncodable(ms) && i < |ms|
    ensures Normalized(ms)[i] == Decoded(ms[i], i == |ms| - 1)
    decreases i
  {
    if i > 0 {
      NormalizedAt(ms[1..], i - 1);
      assert Normalized(ms)[i] == Normalized(ms[1..])[i - 1];
      assert ms[1..][i - 1] == ms[i];
    }
  }

  /** The whole round: update the boot device, write the records into the
      image, open it again; when no later record feeds the boot device field,
      the reopened cache holds the buffer the mutator stored. */
  lemma ReopenSeesBootdevice(image: seq<Byte>, prior: seq<Byte>, f: Fru, s: seq<Byte>)
    requires CanUpsert(f.mrecs, MR_SATADEV_REC) && Kind(MR_SATADEV_REC) == BootField
    requires var g := UpdateBootdevice(f, s).fru;
             && |image| == FRU_SIZE && |prior| == FRU_SIZE
             && HEADER_SIZE <= g.mrecAreaOffset == AreaOffset(image[5]) <= FRU_SIZE
             && AllEncodable(g.mrecs) && |g.mrecs| <= N_MULTIREC
             && UpdateMrecImage(image, prior, g).Some?
             && OpenParse(UpdateMrecImage(image, prior, g).value).Ok?
             && forall j :: FindType(g.mrecs, MR_SATADEV_REC).value < j < |g.mrecs|
                  ==> Kind(g.mrecs[j].recType) != BootField
    ensures var g := UpdateBootdevice(f, s).fru;
            var h := OpenParse(UpdateMrecImage(image, prior, g).value).value;
            h.mrecs == Normalized(g.mrecs) && h.cache.bootdevice == StoreString(s, FRU_STR_MAX).buf
  {
    var g := UpdateBootdevice(f, s).fru;
    var i := FindType(g.mrecs, MR_SATADEV_REC).value;
    ReopenSeesUpdate(image, prior, g, BootField, i);
    NormalizedAt(g.mrecs, i);
    BootdeviceReadBack(f, s, i == |g.mrecs| - 1);
  }

  /** Normalising keeps every record's type. */
  lemma {:induction false} NormalizedKeepsTypes(ms: seq<Multirecord>)
    requires AllEncodable(ms)
    ensures forall j :: 0 <= j < |ms| ==> Normalized(ms)[j].recType == ms[j].recType
    decreases |ms|
  {
    if ms != [] {
      NormalizedKeepsTypes(ms[1..]);
      var ns := Normalized(ms);
      assert ns == [Normalized(ms)[0]] + Normalized(ms[1..]);
      forall j | 0 <= j < |ms| ensures ns[j].recType == ms[j].recType {
        if j > 0 {
          assert ns[j] == Normalized(ms[1..])[j - 1];
          assert ms[j] == ms[1..][j - 1];
        }
      }
    }
  }
}
