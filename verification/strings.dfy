/** The field codec (fru.c `read_fru_str`): length-prefixed strings copied into
    fixed 32-byte buffers. The whole prefix byte is the length; the stored copy
    is capped at 31 bytes, the cursor advances by the uncapped length. */
module FruStrings {
  import opened FruTypes

  /** A `FRU_STR(name, FRU_STR_MAX)` pair: the stored length and the buffer. */
  datatype FruStr = FruStr(len: nat, val: seq<Byte>)

  /** Largest length a string buffer stores (one byte is left for the NUL). */
  const STR_CAP: nat := FRU_STR_MAX - 1

  /** What `read_fru_str` can leave behind: a capped length and a zero-filled
      buffer holding exactly that many bytes. */
  predicate Valid(s: FruStr) {
    && s.len <= STR_CAP
    && |s.val| == FRU_STR_MAX
    && forall i :: s.len <= i < FRU_STR_MAX ==> s.val[i] == 0
  }

  /** The meaningful bytes of a stored string. */
  function Text(s: FruStr): seq<Byte>
    requires Valid(s)
  {
    s.val[..s.len]
  }

  /** The stored form of a short text. */
  function FromText(t: seq<Byte>): (s: FruStr)
    requires |t| <= STR_CAP
    ensures Valid(s) && Text(s) == t
  {
    FruStr(|t|, t + Zeros(FRU_STR_MAX - |t|))
  }

  datatype StrRead = StrRead(str: FruStr, next: nat)

  /** The bytes `read_fru_str` touches at `offt` lie inside `buf`. */
  predicate StrInBounds(buf: seq<Byte>, offt: nat) {
    offt < |buf| && offt + 1 + Min(buf[offt], STR_CAP) <= |buf|
  }

  /** `read_fru_str(buf, str, &len, offt)`; `None` where the C would read
      outside the buffer. */
  function ReadFruStr(buf: seq<Byte>, offt: nat): (r: Option<StrRead>)
    ensures r.Some? <==> StrInBounds(buf, offt)
    ensures r.Some? ==> r.value.next == offt + 1 + buf[offt]
  {
    if !StrInBounds(buf, offt) then None
    else
      var len := Min(buf[offt], STR_CAP);
      var s := FromText(buf[offt + 1 .. offt + 1 + len]);
      Some(StrRead(s, offt + 1 + buf[offt]))
  }

  /** What a successful read stores: the length capped at 31, exactly that
      many bytes following the length byte, zeros after them; the cursor moves
      past the uncapped length. */
  lemma ReadFruStrStores(buf: seq<Byte>, offt: nat)
    requires StrInBounds(buf, offt)
    ensures var r := ReadFruStr(buf, offt).value;
            && Valid(r.str)
            && r.str.len == Min(buf[offt], STR_CAP)
            && Text(r.str) == buf[offt + 1 .. offt + 1 + r.str.len]
            && r.next == offt + 1 + buf[offt]
  {
  }

  datatype StrsRead = StrsRead(strs: seq<FruStr>, next: nat)


  /** `n` consecutive `read_fru_str` calls, each starting where the previous
      one left the cursor. */
  function ReadStrs(buf: seq<Byte>, offt: nat, n: nat): (r: Option<StrsRead>)
    ensures r.Some? ==> |r.value.strs| == n
    decreases n
  {
    if n == 0 then Some(StrsRead([], offt))
    else match ReadFruStr(buf, offt)
      case None => None
      case Some(first) =>
        match ReadStrs(buf, first.next, n - 1)
        case None => None
        case Some(rest) => Some(StrsRead([first.str] + rest.strs, rest.next))
  }

  /** Encoding direction: the length byte, then the raw bytes. */
  function EncodeStr(t: seq<Byte>): (e: seq<Byte>)
    requires |t| < 256
    ensures |e| == 1 + |t|
  {
    [|t|] + t
  }

  /** Texts the fixed buffers hold without truncation. */
  predicate ShortTexts(ts: seq<seq<Byte>>) {
    forall i :: 0 <= i < |ts| ==> |ts[i]| <= STR_CAP
  }

  function EncodeStrs(ts: seq<seq<Byte>>): (e: seq<Byte>)
    requires ShortTexts(ts)
  {
    if ts == [] then [] else EncodeStr(ts[0]) + EncodeStrs(ts[1..])
  }

  function FromTexts(ts: seq<seq<Byte>>): (ss: seq<FruStr>)
    requires ShortTexts(ts)
    ensures |ss| == |ts|
  {
    if ts == [] then [] else [FromText(ts[0])] + FromTexts(ts[1..])
  }

  lemma {:induction false} FromTextsIndex(ts: seq<seq<Byte>>)
    requires ShortTexts(ts)
    ensures forall i :: 0 <= i < |ts| ==> FromTexts(ts)[i] == FromText(ts[i])
  {
    if ts != [] {
      FromTextsIndex(ts[1..]);
    }
  }

  /** Reading a written string gives back its text, and the cursor lands right
      after it. */
  lemma StrRoundTrip(buf: seq<Byte>, offt: nat, t: seq<Byte>)
    requires |t| <= STR_CAP
    requires offt + 1 + |t| <= |buf| && buf[offt .. offt + 1 + |t|] == EncodeStr(t)
    ensures ReadFruStr(buf, offt) == Some(StrRead(FromText(t), offt + 1 + |t|))
  {
    assert buf[offt] == buf[offt .. offt + 1 + |t|][0];
    assert buf[offt + 1 .. offt + 1 + |t|] == buf[offt .. offt + 1 + |t|][1..];
  }

  /** Reading back a run of written strings recovers every text in order. */
  lemma {:induction false} StrsRoundTrip(buf: seq<Byte>, offt: nat, ts: seq<seq<Byte>>)
    requires ShortTexts(ts)
    requires offt + |EncodeStrs(ts)| <= |buf|
    requires buf[offt .. offt + |EncodeStrs(ts)|] == EncodeStrs(ts)
    ensures ReadStrs(buf, offt, |ts|) == Some(StrsRead(FromTexts(ts), offt + |EncodeStrs(ts)|))
    decreases |ts|
  {
    if ts == [] {
      assert EncodeStrs(ts) == [] && FromTexts(ts) == [];
    } else {
      var e0, er := EncodeStr(ts[0]), EncodeStrs(ts[1..]);
      var mid := offt + |e0|;
      assert EncodeStrs(ts) == e0 + er;
      SliceSplit(buf, offt, e0, er);
      StrRoundTrip(buf, offt, ts[0]);
      StrsRoundTrip(buf, mid, ts[1..]);
      ReadStrsStep(buf, offt, |ts|);
      assert FromTexts(ts) == [FromText(ts[0])] + FromTexts(ts[1..]);
    }
  }

  /** A slice holding `a + b` splits into a slice holding `a` and one holding `b`. */
  lemma SliceSplit(buf: seq<Byte>, offt: nat, a: seq<Byte>, b: seq<Byte>)
    requires offt + |a| + |b| <= |buf| && buf[offt .. offt + |a| + |b|] == a + b
    ensures buf[offt .. offt + |a|] == a
    ensures buf[offt + |a| .. offt + |a| + |b|] == b
  {
    assert buf[offt .. offt + |a|] == (a + b)[..|a|];
    assert buf[offt + |a| .. offt + |a| + |b|] == (a + b)[|a|..];
  }

  /** One step of `ReadStrs`, stated on its parts. */
  lemma ReadStrsStep(buf: seq<Byte>, offt: nat, n: nat)
    requires n > 0 && ReadFruStr(buf, offt).Some?
    requires ReadStrs(buf, ReadFruStr(buf, offt).value.next, n - 1).Some?
    ensures ReadStrs(buf, offt, n)
         == Some(StrsRead([ReadFruStr(buf, offt).value.str]
                          + ReadStrs(buf, ReadFruStr(buf, offt).value.next, n - 1).value.strs,
                          ReadStrs(buf, ReadFruStr(buf, offt).value.next, n - 1).value.next))
  {
  }

  /** Whatever the length bytes say, `n` strings read from `offt` stay inside
      any buffer reaching 256 bytes per string beyond it. */
  lemma {:induction false} StrsStayInside(buf: seq<Byte>, offt: nat, n: nat)
    requires n > 0
    requires offt + 256 * n <= |buf|
    ensures ReadStrs(buf, offt, n).Some?
    decreases n
  {
    var first := ReadFruStr(buf, offt);
    assert first.Some?;
    if n > 1 {
      StrsStayInside(buf, first.value.next, n - 1);
    }
  }
}
