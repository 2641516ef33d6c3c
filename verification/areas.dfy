/** The board and product area parsers (fru.c `parse_board_area`,
    `parse_product_area`), and an encoder for each used as their partner.

    Layout read by the code: byte 0 is the area version, byte 1 the area size
    in 8-byte units, and the whole declared size must sum to zero. Board
    strings start at offset 5 and product strings at offset 3. The board
    manufacturing date is bytes 3..5, so its last byte is also the length byte
    of the first board string. */
module Areas {
  import opened FruTypes
  import opened Checksum
  import opened FruStrings

  datatype BoardInfo = BoardInfo(
    mfgDate: seq<Byte>,
    mfgName: FruStr,
    productName: FruStr,
    serialNumber: FruStr,
    partNumber: FruStr,
    fruId: FruStr)

  datatype ProductInfo = ProductInfo(
    productMfg: FruStr,
    productName: FruStr,
    partModelNumber: FruStr,
    productVersion: FruStr,
    serialNumber: FruStr,
    fruId: FruStr)

  /** Failures of an area parser. `Overrun` stands for a read outside the
      buffer, which the C does not check and which has no return code. */
  datatype AreaError = VersionMismatch | SizeMismatch | ChecksumInvalid | Overrun {
    function Code(): int
      requires !Overrun?
    {
      match this
      case VersionMismatch => -1
      case SizeMismatch => -2
      case ChecksumInvalid => -3
    }
  }

  const BOARD_STR_OFFSET: nat := 5
  const BOARD_STR_COUNT: nat := 5
  const PRODUCT_STR_OFFSET: nat := 3
  const PRODUCT_STR_COUNT: nat := 6

  /** Declared area size in bytes: byte 1 counts 8-byte units. */
  function DeclaredSize(a: seq<Byte>): nat
    requires |a| >= 2
  {
    a[1] as int * 8
  }

  /** The header checks both parsers make, in the order the code makes them.
      The checksum runs over the declared size truncated to a byte, as
      `calc_cs` receives it. */
  function CheckArea(a: seq<Byte>, version: Byte): Option<AreaError>
  {
    if |a| < 1 then Some(Overrun)
    else if a[0] != version then Some(VersionMismatch)
    else if |a| < 2 then Some(Overrun)
    else if DeclaredSize(a) > |a| then Some(SizeMismatch)
    else if CalcCs(a, Trunc8(DeclaredSize(a))) != 0 then Some(ChecksumInvalid)
    else None
  }

  function ParseBoardArea(a: seq<Byte>): (r: Result<BoardInfo, AreaError>)
    ensures r == Err(VersionMismatch) <==> |a| >= 1 && a[0] != BOARD_AREA_VERSION
    ensures r == Err(SizeMismatch)
            <==> |a| >= 2 && a[0] == BOARD_AREA_VERSION && DeclaredSize(a) > |a|
    ensures r == Err(ChecksumInvalid)
            <==> && |a| >= 2 && a[0] == BOARD_AREA_VERSION && DeclaredSize(a) <= |a|
                 && CalcCs(a, Trunc8(DeclaredSize(a))) != 0
    ensures r.Ok? ==> |a| > BOARD_STR_OFFSET && r.value.mfgDate == a[3..6]
    ensures r.Ok? <==> && CheckArea(a, BOARD_AREA_VERSION) == None && |a| > BOARD_STR_OFFSET
                       && ReadStrs(a, BOARD_STR_OFFSET, BOARD_STR_COUNT).Some?
    ensures r.Ok? ==> var b := r.value;
              [b.mfgName, b.productName, b.serialNumber, b.partNumber, b.fruId]
              == ReadStrs(a, BOARD_STR_OFFSET, BOARD_STR_COUNT).value.strs
  {
    match CheckArea(a, BOARD_AREA_VERSION)
    case Some(e) => Err(e)
    case None =>
      if |a| <= BOARD_STR_OFFSET then Err(Overrun)
      else match ReadStrs(a, BOARD_STR_OFFSET, BOARD_STR_COUNT)
        case None => Err(Overrun)
        case Some(rd) =>
          Ok(BoardInfo(a[3..6], rd.strs[0], rd.strs[1], rd.strs[2], rd.strs[3], rd.strs[4]))
  }

  function ParseProductArea(a: seq<Byte>): (r: Result<ProductInfo, AreaError>)
    ensures r == Err(VersionMismatch) <==> |a| >= 1 && a[0] != PRODUCT_AREA_VERSION
    ensures r == Err(SizeMismatch)
            <==> |a| >= 2 && a[0] == PRODUCT_AREA_VERSION && DeclaredSize(a) > |a|
    ensures r == Err(ChecksumInvalid)
            <==> && |a| >= 2 && a[0] == PRODUCT_AREA_VERSION && DeclaredSize(a) <= |a|
                 && CalcCs(a, Trunc8(DeclaredSize(a))) != 0
    ensures r.Ok? <==> && CheckArea(a, PRODUCT_AREA_VERSION) == None
                       && ReadStrs(a, PRODUCT_STR_OFFSET, PRODUCT_STR_COUNT).Some?
    ensures r.Ok? ==> var p := r.value;
              [p.productMfg, p.productName, p.partModelNumber, p.productVersion, p.serialNumber, p.fruId]
              == ReadStrs(a, PRODUCT_STR_OFFSET, PRODUCT_STR_COUNT).value.strs
  {
    match CheckArea(a, PRODUCT_AREA_VERSION)
    case Some(e) => Err(e)
    case None =>
      match ReadStrs(a, PRODUCT_STR_OFFSET, PRODUCT_STR_COUNT)
      case None => Err(Overrun)
      case Some(rd) =>
        Ok(ProductInfo(rd.strs[0], rd.strs[1], rd.strs[2], rd.strs[3], rd.strs[4], rd.strs[5]))
  }

  /** The last date byte the board parser stores is the raw length byte of
      the manufacturer name that follows it. */
  lemma BoardDateOverlapsName(a: seq<Byte>)
    requires ParseBoardArea(a).Ok?
    ensures var b := ParseBoardArea(a).value;
            && b.mfgDate[2] == a[BOARD_STR_OFFSET]
            && b.mfgName.len == Min(b.mfgDate[2], STR_CAP)
  {
    ReadFruStrStores(a, BOARD_STR_OFFSET);
  }

  /** An area declaring 32 units (256 bytes) has its checksum computed over
      zero bytes, so any contents pass the checksum test. */
  lemma ChecksumSkippedAt32Units(a: seq<Byte>, version: Byte)
    requires |a| >= 256 && a[0] == version && a[1] == 32
    ensures CheckArea(a, version) == None
  {
    assert a[..0] == [];
  }

  /** With at least 256 bytes per string past the first string offset, the
      parsers never read outside the area buffer. */
  lemma AreasStayInside(a: seq<Byte>)
    requires |a| >= BOARD_STR_OFFSET + 256 * BOARD_STR_COUNT
    requires |a| >= PRODUCT_STR_OFFSET + 256 * PRODUCT_STR_COUNT
    ensures ParseBoardArea(a) != Err(Overrun)
    ensures ParseProductArea(a) != Err(Overrun)
  {
    StrsStayInside(a, BOARD_STR_OFFSET, BOARD_STR_COUNT);
    StrsStayInside(a, PRODUCT_STR_OFFSET, PRODUCT_STR_COUNT);
  }

  // ---------------------------------------------------------------------------
  // Encoding direction

  /** Largest area the encoder produces: below 32 units, so that the byte-sized
      checksum length covers the whole area. */
  const MAX_ENCODED_AREA: nat := 248

  lemma {:induction false} EncodeStrsLength(ts: seq<seq<Byte>>)
    requires ShortTexts(ts)
    ensures |EncodeStrs(ts)| <= FRU_STR_MAX * |ts|
  {
    if ts != [] {
      EncodeStrsLength(ts[1..]);
    }
  }

  /** The number of 8-byte units an area of `n` bytes is rounded up to. */
  function UnitsFor(n: nat): (u: Byte)
    requires n <= MAX_ENCODED_AREA
    ensures n <= u * 8 < n + 8 && u * 8 <= MAX_ENCODED_AREA
  {
    (n + 7) / 8
  }

  /** An area image: version, size in units, the fixed fields, the strings,
      zero padding and the checksum byte. */
  function EncodeArea(version: Byte, fixed: seq<Byte>, ts: seq<seq<Byte>>): (a: seq<Byte>)
    requires ShortTexts(ts)
    requires 3 + |fixed| + |EncodeStrs(ts)| <= MAX_ENCODED_AREA
    ensures |a| <= MAX_ENCODED_AREA && |a| % 8 == 0
    ensures |a| >= 2 && a[0] == version && DeclaredSize(a) == |a|
    ensures SumsToZero(a)
    ensures |a| >= 3 + |fixed| + |EncodeStrs(ts)|
    ensures a[2 .. 2 + |fixed|] == fixed
    ensures a[2 + |fixed| .. 2 + |fixed| + |EncodeStrs(ts)|] == EncodeStrs(ts)
  {
    var strs := EncodeStrs(ts);
    var units := UnitsFor(3 + |fixed| + |strs|);
    var body := [version, units] + fixed + strs;
    var padded := body + Zeros(units * 8 - 1 - |body|);
    NegatedChecksumCloses(padded);
    assert padded[2 .. 2 + |fixed|] == fixed;
    assert padded[2 + |fixed| .. 2 + |fixed| + |strs|] == strs;
    padded + [Negate(Sum(padded) % 256)]
  }

  function EncodeBoardArea(lang: Byte, date0: Byte, date1: Byte, ts: seq<seq<Byte>>): seq<Byte>
    requires |ts| == BOARD_STR_COUNT && ShortTexts(ts)
  {
    EncodeStrsLength(ts);
    EncodeArea(BOARD_AREA_VERSION, [lang, date0, date1], ts)
  }

  function EncodeProductArea(lang: Byte, ts: seq<seq<Byte>>): seq<Byte>
    requires |ts| == PRODUCT_STR_COUNT && ShortTexts(ts)
  {
    EncodeStrsLength(ts);
    EncodeArea(PRODUCT_AREA_VERSION, [lang], ts)
  }

  /** A well-formed area passes the header checks, whatever follows it. */
  lemma EncodedAreaChecks(area: seq<Byte>, rest: seq<Byte>, version: Byte)
    requires |area| >= 2 && area[0] == version && DeclaredSize(area) == |area|
    requires |area| < 256 && SumsToZero(area)
    ensures CheckArea(area + rest, version) == None
  {
    assert (area + rest)[..|area|] == area;
  }

  /** Decoding an encoded board area recovers the five strings; the third
      date byte reads back as the length of the first string. */
  lemma BoardRoundTrip(lang: Byte, date0: Byte, date1: Byte, ts: seq<seq<Byte>>, rest: seq<Byte>)
    requires |ts| == BOARD_STR_COUNT && ShortTexts(ts)
    ensures ParseBoardArea(EncodeBoardArea(lang, date0, date1, ts) + rest)
            == Ok(BoardInfo([date0, date1, |ts[0]|],
                            FromText(ts[0]), FromText(ts[1]), FromText(ts[2]),
                            FromText(ts[3]), FromText(ts[4])))
  {
    var area := EncodeBoardArea(lang, date0, date1, ts);
    var a := area + rest;
    EncodeStrsLength(ts);
    AreaStringsAt(BOARD_AREA_VERSION, [lang, date0, date1], ts, rest);
    BoardDateBytes(lang, date0, date1, ts, rest);
    FromTextsIndex(ts);
  }

  /** In an encoded board area the three bytes read as the manufacturing
      date are the two date bytes written and the first string's length byte. */
  lemma BoardDateBytes(lang: Byte, date0: Byte, date1: Byte, ts: seq<seq<Byte>>, rest: seq<Byte>)
    requires |ts| == BOARD_STR_COUNT && ShortTexts(ts)
    ensures var a := EncodeBoardArea(lang, date0, date1, ts) + rest;
            |a| > BOARD_STR_OFFSET && a[3..6] == [date0, date1, |ts[0]|]
  {
    EncodeStrsLength(ts);
    var area := EncodeArea(BOARD_AREA_VERSION, [lang, date0, date1], ts);
    var a := area + rest;
    var strs := EncodeStrs(ts);
    assert strs == EncodeStr(ts[0]) + EncodeStrs(ts[1..]);
    assert area[5] == area[5 .. 5 + |strs|][0] == strs[0];
    assert area[3..5] == area[2..5][1..] == [date0, date1];
    assert a[3..6] == area[3..6] == area[3..5] + [area[5]];
  }

  /** In an encoded area the strings read back as the texts, and the header
      checks pass. */
  lemma AreaStringsAt(version: Byte, fixed: seq<Byte>, ts: seq<seq<Byte>>, rest: seq<Byte>)
    requires ShortTexts(ts)
    requires 3 + |fixed| + |EncodeStrs(ts)| <= MAX_ENCODED_AREA
    ensures var a := EncodeArea(version, fixed, ts) + rest;
            && CheckArea(a, version) == None
            && |a| >= 2 + |fixed| + |EncodeStrs(ts)|
            && a[2 .. 2 + |fixed|] == fixed
            && a[2 + |fixed| .. 2 + |fixed| + |EncodeStrs(ts)|] == EncodeStrs(ts)
            && ReadStrs(a, 2 + |fixed|, |ts|)
               == Some(StrsRead(FromTexts(ts), 2 + |fixed| + |EncodeStrs(ts)|))
  {
    var area := EncodeArea(version, fixed, ts);
    var a := area + rest;
    var strs := EncodeStrs(ts);
    EncodedAreaChecks(area, rest, version);
    SliceOfPrefix(area, rest, 2, 2 + |fixed|);
    SliceOfPrefix(area, rest, 2 + |fixed|, 2 + |fixed| + |strs|);
    StrsRoundTrip(a, 2 + |fixed|, ts);
  }

  /** Bytes inside the first part of a concatenation are read from it. */
  lemma SliceOfPrefix(area: seq<Byte>, rest: seq<Byte>, i: nat, j: nat)
    requires i <= j <= |area|
    ensures (area + rest)[i..j] == area[i..j]
  {
  }

  /** Decoding an encoded product area recovers the six strings. */
  lemma ProductRoundTrip(lang: Byte, ts: seq<seq<Byte>>, rest: seq<Byte>)
    requires |ts| == PRODUCT_STR_COUNT && ShortTexts(ts)
    ensures ParseProductArea(EncodeProductArea(lang, ts) + rest)
            == Ok(ProductInfo(FromText(ts[0]), FromText(ts[1]), FromText(ts[2]),
                              FromText(ts[3]), FromText(ts[4]), FromText(ts[5])))
  {
    var area := EncodeProductArea(lang, ts);
    var a := area + rest;
    EncodeStrsLength(ts);
    AreaStringsAt(PRODUCT_AREA_VERSION, [lang], ts, rest);
    FromTextsIndex(ts);
  }
}
