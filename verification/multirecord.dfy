/** The multirecord codec: one record (fru.c `fru_mk_multirecord`,
    `fru_parse_multirecord`), the bounded record sequence read by `parse_fru`,
    and the whole area written by `fru_mk_multirecords_area`.

    A record is a 5-byte header — type, format/end byte, payload length,
    payload checksum, header checksum — followed by the payload. */
module Multirecords {
  import opened FruTypes
  import opened Checksum

  /** `struct multirec` with an owned payload. `length` is kept apart from
      `data`: the encoder sends the first `length` bytes of `data`. */
  datatype Multirecord = Multirecord(recType: Byte, format: Byte, end: bool, length: nat, data: seq<Byte>)

  const MR_HEADER_SIZE: nat := 5

  /** The encoder can take the record: the length fits the `uint8_t`
      parameter it is passed through, and that many bytes of data exist. */
  predicate Encodable(m: Multirecord) {
    m.length < 256 && m.length <= |m.data|
  }

  predicate AllEncodable(ms: seq<Multirecord>) {
    forall i :: 0 <= i < |ms| ==> Encodable(ms[i])
  }

  /** The bytes the encoder sends for a record. */
  function Payload(m: Multirecord): seq<Byte>
    requires m.length <= |m.data|
  {
    m.data[..m.length]
  }

  /** Failures of `fru_parse_multirecord`; `Code` is the C return value. */
  datatype MrecError = ShortHeader | HeaderChecksum | UnknownFormat | ShortData | DataChecksum {
    function Code(): int {
      match this
      case ShortHeader => -4
      case HeaderChecksum => -1
      case UnknownFormat => -2
      case ShortData => -5
      case DataChecksum => -3
    }
  }

  /** Header byte 1 as the encoder writes it: format 2, plus bit 7 when last. */
  function FormatByte(end: bool): Byte {
    MR_FORMAT + (if end then MR_END_BIT else 0)
  }

  /** Low three bits of header byte 1 (`buf[1] & 0x7`). */
  function FormatBits(b: Byte): Byte {
    b % 8
  }

  /** Bit 7 of header byte 1 (`buf[1] & 0x80`). */
  function EndBit(b: Byte): bool {
    b >= MR_END_BIT
  }

  /** The bytes `fru_mk_multirecord` writes for one record: the header
      (type, format/end byte, length, payload checksum, header checksum) and
      the payload. */
  function EncodeRecord(t: Byte, end: bool, payload: seq<Byte>): (b: seq<Byte>)
    requires |payload| < 256
    ensures |b| == MR_HEADER_SIZE + |payload|
    ensures b[0] == t && b[1] == FormatByte(end) && b[2] == |payload|
    ensures b[MR_HEADER_SIZE..] == payload
  {
    var hdr := [t, FormatByte(end), |payload|, Negate(Sum(payload) % 256)];
    hdr + [Negate(Sum(hdr) % 256)] + payload
  }

  /** `fru_mk_multirecord`: `None` (-1) when the buffer has no byte to spare
      beyond the record, the record's bytes otherwise. */
  function MkMultirecord(bufSize: nat, t: Byte, end: bool, payload: seq<Byte>): (r: Option<seq<Byte>>)
    requires |payload| < 256
    ensures r.None? <==> bufSize <= MR_HEADER_SIZE + |payload|
    ensures r.Some? ==> r.value == EncodeRecord(t, end, payload)
  {
    if bufSize <= MR_HEADER_SIZE + |payload| then None
    else Some(EncodeRecord(t, end, payload))
  }

  /** Both checksum bytes of an encoded record close their regions: the
      payload plus byte 3, and the 5-byte header. */
  lemma EncodeRecordChecksums(t: Byte, end: bool, payload: seq<Byte>)
    requires |payload| < 256
    ensures (Sum(payload) + EncodeRecord(t, end, payload)[3]) % 256 == 0
    ensures CalcCs(EncodeRecord(t, end, payload), 5) == 0
  {
    PayloadChecksumByte(t, end, payload);
    HeaderChecksumByte(t, end, payload);
  }

  lemma {:induction false} PayloadChecksumByte(t: Byte, end: bool, payload: seq<Byte>)
    requires |payload| < 256
    ensures (Sum(payload) + EncodeRecord(t, end, payload)[3]) % 256 == 0
  {
    var c := EncodeRecord(t, end, payload)[3];
    NegateCloses(Sum(payload), c);
  }

  lemma HeaderChecksumByte(t: Byte, end: bool, payload: seq<Byte>)
    requires |payload| < 256
    ensures CalcCs(EncodeRecord(t, end, payload), 5) == 0
  {
    var b := EncodeRecord(t, end, payload);
    var hdr := [t, FormatByte(end), |payload|, Negate(Sum(payload) % 256)];
    var h5 := hdr + [Negate(Sum(hdr) % 256)];
    assert b[..5] == h5;
    NegatedChecksumCloses(hdr);
  }

  datatype Parsed = Parsed(rec: Multirecord, size: nat)

  /** `fru_parse_multirecord`: the checks in the order the code makes them;
      on success the record and the number of bytes it occupies. */
  function ParseMultirecord(buf: seq<Byte>): (r: Result<Parsed, MrecError>)
    ensures r.Ok? ==> var m := r.value.rec;
            && r.value.size == MR_HEADER_SIZE + m.length <= |buf|
            && m.recType == buf[0] && m.format == MR_FORMAT && m.end == EndBit(buf[1])
            && m.length == buf[2] && m.data == buf[MR_HEADER_SIZE .. r.value.size]
  {
    if |buf| < MR_HEADER_SIZE then Err(ShortHeader)
    else if CalcCs(buf, 5) != 0 then Err(HeaderChecksum)
    else if FormatBits(buf[1]) != MR_FORMAT then Err(UnknownFormat)
    else if |buf| - MR_HEADER_SIZE < buf[2] then Err(ShortData)
    else if (CalcCs(buf[MR_HEADER_SIZE..], buf[2]) + buf[3]) % 256 != 0 then Err(DataChecksum)
    else
      var size := MR_HEADER_SIZE + buf[2];
      assert buf[MR_HEADER_SIZE..][..buf[2]] == buf[MR_HEADER_SIZE .. size];
      Ok(Parsed(Multirecord(buf[0], FormatBits(buf[1]), EndBit(buf[1]), buf[2], buf[MR_HEADER_SIZE .. size]), size))
  }

  /** The decoder's checks, in order: each error is reported exactly when
      the earlier checks pass and its own fails, and a record is decoded
      exactly when all five pass; its payload then closes the data sum. */
  lemma ParseMultirecordChecks(buf: seq<Byte>)
    ensures var r := ParseMultirecord(buf);
            && (r == Err(ShortHeader) <==> |buf| < MR_HEADER_SIZE)
            && (r == Err(HeaderChecksum) <==> |buf| >= MR_HEADER_SIZE && CalcCs(buf, 5) != 0)
            && (r == Err(UnknownFormat)
                <==> |buf| >= MR_HEADER_SIZE && CalcCs(buf, 5) == 0 && FormatBits(buf[1]) != MR_FORMAT)
            && (r == Err(ShortData)
                <==> && |buf| >= MR_HEADER_SIZE && CalcCs(buf, 5) == 0 && FormatBits(buf[1]) == MR_FORMAT
                     && |buf| < MR_HEADER_SIZE + buf[2])
            && (r == Err(DataChecksum)
                <==> && |buf| >= MR_HEADER_SIZE && CalcCs(buf, 5) == 0 && FormatBits(buf[1]) == MR_FORMAT
                     && |buf| >= MR_HEADER_SIZE + buf[2]
                     && (CalcCs(buf[MR_HEADER_SIZE..], buf[2]) + buf[3]) % 256 != 0)
            && (r.Ok?
                <==> && |buf| >= MR_HEADER_SIZE && CalcCs(buf, 5) == 0 && FormatBits(buf[1]) == MR_FORMAT
                     && |buf| >= MR_HEADER_SIZE + buf[2]
                     && (CalcCs(buf[MR_HEADER_SIZE..], buf[2]) + buf[3]) % 256 == 0)
            && (r.Ok? ==> (Sum(r.value.rec.data) + buf[3]) % 256 == 0)
  {
    if ParseMultirecord(buf).Ok? {
      var data := ParseMultirecord(buf).value.rec.data;
      assert buf[MR_HEADER_SIZE..][..buf[2]] == data;
      AddModLeft(Sum(data), buf[3]);
    }
  }

  /** Decoding an encoded record gives back its type, end flag and payload,
      whatever bytes follow it. */
  lemma RecordRoundTrip(t: Byte, end: bool, payload: seq<Byte>, rest: seq<Byte>)
    requires |payload| < 256
    ensures ParseMultirecord(EncodeRecord(t, end, payload) + rest)
            == Ok(Parsed(Multirecord(t, MR_FORMAT, end, |payload|, payload), MR_HEADER_SIZE + |payload|))
  {
    var b := EncodeRecord(t, end, payload);
    var buf := b + rest;
    EncodeRecordChecksums(t, end, payload);
    assert buf[..5] == b[..5];
    assert buf[MR_HEADER_SIZE..][..|payload|] == payload;
    assert buf[MR_HEADER_SIZE .. MR_HEADER_SIZE + |payload|] == payload;
  }

  /** The converse: re-encoding a decoded record reproduces its bytes exactly
      when byte 1 holds nothing besides the format and end bits (other bits
      are ignored by the decoder and not written by the encoder). */
  lemma RecordReencode(buf: seq<Byte>)
    requires ParseMultirecord(buf).Ok?
    ensures var p := ParseMultirecord(buf).value;
            EncodeRecord(p.rec.recType, p.rec.end, p.rec.data) == buf[..p.size]
            <==> buf[1] == FormatByte(p.rec.end)
  {
    var p := ParseMultirecord(buf).value;
    var d := p.rec.data;
    var b := EncodeRecord(p.rec.recType, p.rec.end, d);
    var orig := buf[..p.size];
    if buf[1] == FormatByte(p.rec.end) {
      ParseMultirecordChecks(buf);
      PayloadChecksumByte(p.rec.recType, p.rec.end, d);
      HeaderChecksumByte(p.rec.recType, p.rec.end, d);
      ClosingByteUnique(Sum(d), b[3], buf[3]);
      assert orig[..5] == buf[..5];
      assert b[..4] == orig[..4];
      HeaderChecksumDetermined(b, orig);
      SplitAtHeader(b, orig);
    } else {
      assert b[1] != orig[1];
    }
  }

  /** Only one byte brings a given sum back to zero modulo 256. */
  lemma ClosingByteUnique(n: nat, x: Byte, y: Byte)
    requires (n + x) % 256 == 0 && (n + y) % 256 == 0
    ensures x == y
  {
    var q, r := (n + x) / 256, (n + y) / 256;
    assert n + x == 256 * q && n + y == 256 * r;
    assert x - y == 256 * (q - r);
  }

  /** Records equal byte by byte on the header and the payload are equal. */
  lemma SplitAtHeader(x: seq<Byte>, y: seq<Byte>)
    requires |x| == |y| >= 5 && x[4] == y[4] && x[..4] == y[..4] && x[5..] == y[5..]
    ensures x == y
  {
    assert x == x[..4] + [x[4]] + x[5..];
    assert y == y[..4] + [y[4]] + y[5..];
  }

  /** Two headers that agree on bytes 0..3 and both checksum to zero agree on
      byte 4 as well. */
  lemma HeaderChecksumDetermined(x: seq<Byte>, y: seq<Byte>)
    requires |x| >= 5 && |y| >= 5 && x[..4] == y[..4]
    requires CalcCs(x, 5) == 0 && CalcCs(y, 5) == 0
    ensures x[4] == y[4]
  {
    assert x[..5] == x[..4] + [x[4]] && y[..5] == y[..4] + [y[4]];
    SumAppend(x[..4], [x[4]]);
    SumAppend(y[..4], [y[4]]);
    assert [x[4]][..0] == [] && [y[4]][..0] == [];
  }

  // ---------------------------------------------------------------------------
  // The record sequence

  /** The `parse_fru` loop over the multirecord area: decode records one
      after another, stop after the first one flagged as last or after
      `budget` records, abort on the first failure. */
  function ParseMrecs(buf: seq<Byte>, budget: nat): (r: Result<seq<Multirecord>, MrecError>)
    ensures r.Ok? ==> |r.value| <= budget
    decreases budget
  {
    if budget == 0 then Ok([])
    else match ParseMultirecord(buf)
      case Err(e) => Err(e)
      case Ok(p) =>
        if p.rec.end then Ok([p.rec])
        else match ParseMrecs(buf[p.size..], budget - 1)
          case Err(e) => Err(e)
          case Ok(rest) => Ok([p.rec] + rest)
  }

  /** The shape of a decoded sequence: at least one record when any may be
      read; only the last can be flagged as last, and it is unless the
      budget ran out; every record has format 2 and exactly its payload. */
  predicate WellTerminated(rs: seq<Multirecord>, budget: nat) {
    && (budget > 0 ==> |rs| > 0)
    && (forall i :: 0 <= i < |rs| - 1 ==> !rs[i].end)
    && (0 < |rs| < budget ==> rs[|rs| - 1].end)
    && (forall i :: 0 <= i < |rs| ==> rs[i].format == MR_FORMAT && rs[i].length == |rs[i].data|)
  }

  lemma {:induction false} ParseMrecsShape(buf: seq<Byte>, budget: nat)
    requires ParseMrecs(buf, budget).Ok?
    ensures WellTerminated(ParseMrecs(buf, budget).value, budget)
    decreases budget
  {
    if budget > 0 {
      var p := ParseMultirecord(buf).value;
      if !p.rec.end {
        ParseMrecsShape(buf[p.size..], budget - 1);
        var rest := ParseMrecs(buf[p.size..], budget - 1).value;
        var rs := ParseMrecs(buf, budget).value;
        assert rs == [p.rec] + rest;
        assert forall i :: 1 <= i < |rs| ==> rs[i] == rest[i - 1];
      }
    }
  }

  // ---------------------------------------------------------------------------
  // The area encoder

  /** Bytes the records take once encoded. */
  function EncodedSize(ms: seq<Multirecord>): nat {
    if ms == [] then 0 else MR_HEADER_SIZE + ms[0].length + EncodedSize(ms[1..])
  }

  /** The records back to back, in order, with the end bit on the last one
      only, whatever the stored flags say. */
  function EncodeRecords(ms: seq<Multirecord>): (e: seq<Byte>)
    requires AllEncodable(ms)
    ensures |e| == EncodedSize(ms)
    decreases |ms|
  {
    if ms == [] then []
    else EncodeRecord(ms[0].recType, |ms| == 1, Payload(ms[0])) + EncodeRecords(ms[1..])
  }

  /** `fru_mk_multirecords_area`: the encoded records, or `None` (-1) as soon
      as one record leaves no spare byte in what remains of the buffer. */
  function MkMultirecordsArea(ms: seq<Multirecord>, bufLen: nat): (r: Option<seq<Byte>>)
    requires AllEncodable(ms)
    ensures r.Some? <==> ms == [] || EncodedSize(ms) < bufLen
    ensures r.Some? ==> r.value == EncodeRecords(ms)
    decreases |ms|
  {
    if ms == [] then Some([])
    else match MkMultirecord(bufLen, ms[0].recType, |ms| == 1, Payload(ms[0]))
      case None => None
      case Some(b) =>
        match MkMultirecordsArea(ms[1..], bufLen - |b|)
        case None => None
        case Some(tail) => Some(b + tail)
  }

  /** The records a decoder sees for `ms` once encoded: format 2, the
      encoder's end flag, the payload actually sent. */
  function Normalized(ms: seq<Multirecord>): (ns: seq<Multirecord>)
    requires AllEncodable(ms)
    ensures |ns| == |ms|
  {
    if ms == [] then []
    else [Multirecord(ms[0].recType, MR_FORMAT, |ms| == 1, ms[0].length, Payload(ms[0]))]
         + Normalized(ms[1..])
  }

  /** Decoding encoded records from their start, whatever follows them, gives
      back the records in order with the end flag on the last one only. */
  lemma RecordsRoundTrip(ms: seq<Multirecord>, rest: seq<Byte>, buf: seq<Byte>, budget: nat)
    requires AllEncodable(ms) && 0 < |ms| <= budget
    requires buf == EncodeRecords(ms) + rest
    ensures ParseMrecs(buf, budget) == Ok(Normalized(ms))
  {
    EncodedChain(ms, rest, buf);
    ChainDecodes(buf, Normalized(ms), budget);
  }

  /** `ns` lie back to back at the start of `buf`: each decodes where the
      previous one ends, and only the last is flagged as last. */
  predicate Chain(buf: seq<Byte>, ns: seq<Multirecord>)
    decreases |ns|
  {
    || ns == []
    || (&& ParseMultirecord(buf).Ok?
        && ParseMultirecord(buf).value.rec == ns[0]
        && ns[0].end == (|ns| == 1)
        && Chain(buf[ParseMultirecord(buf).value.size..], ns[1..]))
  }

  /** The decoder reads a chain of at most `budget` records in full. */
  lemma {:induction false} ChainDecodes(buf: seq<Byte>, ns: seq<Multirecord>, budget: nat)
    requires Chain(buf, ns) && 0 < |ns| <= budget
    ensures ParseMrecs(buf, budget) == Ok(ns)
    decreases |ns|
  {
    var p := ParseMultirecord(buf).value;
    if |ns| == 1 {
      ParseMrecsLast(buf, budget, p);
      assert ns == [p.rec];
    } else {
      var after, tail := buf[p.size..], ns[1..];
      ChainDecodes(after, tail, budget - 1);
      ParseMrecsCons(buf, budget, p, tail);
      assert ns == [p.rec] + tail;
    }
  }

  /** `ns` lie back to back at the start of `buf` and none is flagged as
      last: records the loop reads and goes past. */
  predicate Unflagged(buf: seq<Byte>, ns: seq<Multirecord>)
    decreases |ns|
  {
    || ns == []
    || (&& ParseMultirecord(buf).Ok?
        && ParseMultirecord(buf).value.rec == ns[0]
        && !ns[0].end
        && Unflagged(buf[ParseMultirecord(buf).value.size..], ns[1..]))
  }

  /** What follows an unflagged run of records. */
  function After(buf: seq<Byte>, ns: seq<Multirecord>): seq<Byte>
    requires Unflagged(buf, ns)
    decreases |ns|
  {
    if ns == [] then buf else After(buf[ParseMultirecord(buf).value.size..], ns[1..])
  }

  /** A record that fails to decode within the budget fails the whole loop
      with its own error (`return -7` in `parse_fru`), whatever good records
      come before it. */
  lemma {:induction false} FailureAborts(buf: seq<Byte>, ns: seq<Multirecord>, budget: nat, e: MrecError)
    requires Unflagged(buf, ns) && |ns| < budget
    requires ParseMultirecord(After(buf, ns)) == Err(e)
    ensures ParseMrecs(buf, budget) == Err(e)
    decreases |ns|
  {
    if ns != [] {
      var p := ParseMultirecord(buf).value;
      var after, tail := buf[p.size..], ns[1..];
      FailureAborts(after, tail, budget - 1, e);
    }
  }

  /** When the budget runs out on records none of which is flagged last, the
      loop succeeds with all of them: eight records and no end flag is not an
      error. */
  lemma {:induction false} BudgetStops(buf: seq<Byte>, ns: seq<Multirecord>)
    requires Unflagged(buf, ns)
    ensures ParseMrecs(buf, |ns|) == Ok(ns)
    decreases |ns|
  {
    if ns != [] {
      var p := ParseMultirecord(buf).value;
      var after, tail := buf[p.size..], ns[1..];
      BudgetStops(after, tail);
      ParseMrecsCons(buf, |ns|, p, tail);
      assert ns == [p.rec] + tail;
    }
  }

  /** Encoded records form a chain of their normalised forms. */
  lemma {:induction false} EncodedChain(ms: seq<Multirecord>, rest: seq<Byte>, buf: seq<Byte>)
    requires AllEncodable(ms)
    requires buf == EncodeRecords(ms) + rest
    ensures Chain(buf, Normalized(ms))
    decreases |ms|
  {
    if ms != [] {
      var p := RecordsHead(ms, rest, buf);
      var after, tail := buf[p.size..], ms[1..];
      EncodedChain(tail, rest, after);
      var ns := Normalized(ms);
      assert ns[0] == p.rec && ns[1..] == Normalized(tail);
    }
  }

  /** The first of the encoded records decodes to the first normalised
      record, and the remaining records start right after it. */
  lemma RecordsHead(ms: seq<Multirecord>, rest: seq<Byte>, buf: seq<Byte>) returns (p: Parsed)
    requires AllEncodable(ms) && 0 < |ms|
    requires buf == EncodeRecords(ms) + rest
    ensures ParseMultirecord(buf) == Ok(p)
    ensures p.rec.end == (|ms| == 1)
    ensures Normalized(ms) == [p.rec] + Normalized(ms[1..])
    ensures p.size <= |buf| && buf[p.size..] == EncodeRecords(ms[1..]) + rest
  {
    var m := ms[0];
    var b := EncodeRecord(m.recType, |ms| == 1, Payload(m));
    var tail := EncodeRecords(ms[1..]) + rest;
    assert buf == b + tail;
    RecordRoundTrip(m.recType, |ms| == 1, Payload(m), tail);
    p := ParseMultirecord(buf).value;
    assert buf[p.size..] == tail;
  }

  /** The area the encoder accepts decodes back to its records. */
  lemma AreaRoundTrip(ms: seq<Multirecord>, bufLen: nat, rest: seq<Byte>, budget: nat)
    requires AllEncodable(ms) && 0 < |ms| <= budget
    requires MkMultirecordsArea(ms, bufLen).Some?
    ensures ParseMrecs(MkMultirecordsArea(ms, bufLen).value + rest, budget) == Ok(Normalized(ms))
  {
    RecordsRoundTrip(ms, rest, MkMultirecordsArea(ms, bufLen).value + rest, budget);
  }

  /** A record flagged as last ends the sequence. */
  lemma ParseMrecsLast(buf: seq<Byte>, budget: nat, p: Parsed)
    requires budget > 0 && ParseMultirecord(buf) == Ok(p) && p.rec.end
    ensures ParseMrecs(buf, budget) == Ok([p.rec])
  {
  }

  /** One step of `ParseMrecs` past a record that is not the last. */
  lemma ParseMrecsCons(buf: seq<Byte>, budget: nat, p: Parsed, t: seq<Multirecord>)
    requires budget > 0 && ParseMultirecord(buf) == Ok(p) && !p.rec.end
    requires ParseMrecs(buf[p.size..], budget - 1) == Ok(t)
    ensures ParseMrecs(buf, budget) == Ok([p.rec] + t)
  {
  }

  /** Records that agree on everything the encoder sends. */
  predicate SameWireContent(ms: seq<Multirecord>, ns: seq<Multirecord>)
    requires AllEncodable(ms) && AllEncodable(ns)
  {
    && |ms| == |ns|
    && forall i :: 0 <= i < |ms| ==>
         ms[i].recType == ns[i].recType && ms[i].length == ns[i].length && Payload(ms[i]) == Payload(ns[i])
  }

  /** The stored end and format fields play no part in the encoding. */
  lemma {:induction false} AreaIgnoresStoredFlags(ms: seq<Multirecord>, ns: seq<Multirecord>, bufLen: nat)
    requires AllEncodable(ms) && AllEncodable(ns) && SameWireContent(ms, ns)
    ensures MkMultirecordsArea(ms, bufLen) == MkMultirecordsArea(ns, bufLen)
    decreases |ms|
  {
    if ms != [] {
      var b := MkMultirecord(bufLen, ms[0].recType, |ms| == 1, Payload(ms[0]));
      if b.Some? {
        assert SameWireContent(ms[1..], ns[1..]) by {
          forall i | 0 <= i < |ms| - 1
            ensures ms[1..][i].recType == ns[1..][i].recType
          {
            assert ms[1..][i] == ms[i + 1] && ns[1..][i] == ns[i + 1];
          }
        }
        AreaIgnoresStoredFlags(ms[1..], ns[1..], bufLen - |b.value|);
      }
    }
  }
}
