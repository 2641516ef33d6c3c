/** The whole FRU document (fru.h `struct fru`) and its decoder (fru.c
    `parse_fru`): the 8-byte common header, the board and product areas it
    points at, and up to `N_MULTIREC` multirecords. */
module Document {
  import opened FruTypes
  import opened Checksum
  import opened Areas
  import opened Multirecords

  /** The fields of `struct fru` that hold a copy of a record's payload: the
      values the mutators write and the extraction after a parse fills. */
  datatype Cache = Cache(
    mac: seq<Byte>,
    bootdevice: seq<Byte>,
    passwdLine: seq<Byte>,
    testOk: Byte,
    powerPolicy: Byte)

  const MAC_LEN: nat := 6

  /** The cache of a zero-initialised `struct fru`. */
  const EmptyCache: Cache := Cache(Zeros(MAC_LEN), Zeros(FRU_STR_MAX), Zeros(FRU_PWD_MAX), 0, 0)

  /** Buffers of the sizes `struct fru` declares. */
  predicate CacheShaped(c: Cache) {
    |c.mac| == MAC_LEN && |c.bootdevice| == FRU_STR_MAX && |c.passwdLine| == FRU_PWD_MAX
  }

  /** `struct fru`: area offsets in bytes, the two decoded areas, the records
      (`mrec[0 .. mrec_count)`) and the cached payload copies. */
  datatype Fru = Fru(
    boardAreaOffset: nat,
    productAreaOffset: nat,
    mrecAreaOffset: nat,
    board: BoardInfo,
    product: ProductInfo,
    mrecs: seq<Multirecord>,
    cache: Cache)

  /** Failures of `parse_fru`; `Code` is the C return value. `OutOfRange` stands
      for a read outside the buffer, which the C does not check. */
  datatype FruError =
    | TooShort
    | EmptyDevice
    | BadVersion
    | BadHeaderChecksum
    | BadBoardArea(area: AreaError)
    | BadProductArea(area: AreaError)
    | BadMultirecord(rec: MrecError)
    | OutOfRange
  {
    function Code(): int
      requires !OutOfRange?
    {
      match this
      case TooShort => -1
      case EmptyDevice => -2
      case BadVersion => -3
      case BadHeaderChecksum => -4
      case BadBoardArea(_) => -5
      case BadProductArea(_) => -6
      case BadMultirecord(_) => -7
    }
  }

  const HEADER_SIZE: nat := 8
  /** Byte 0 of an erased EEPROM. */
  const ERASED: Byte := 0xFF

  /** An area offset: a header byte counting 8-byte units. */
  function AreaOffset(unit: Byte): nat {
    unit as int * 8
  }

  /** The header checks of `parse_fru`, in the order the code makes them. */
  function CheckHeader(buf: seq<Byte>): Option<FruError> {
    if |buf| < HEADER_SIZE then Some(TooShort)
    else if buf[0] == ERASED then Some(EmptyDevice)
    else if buf[0] != FRU_VERSION then Some(BadVersion)
    else if CalcCs(buf, HEADER_SIZE) != 0 then Some(BadHeaderChecksum)
    else None
  }

  /** `parse_fru`: the header checks, the board area at `buf[3]*8`, the
      product area at `buf[4]*8`, then records from `buf[5]*8` until one is
      flagged last or eight were read. The cache is left as zero-initialised
      storage leaves it. */
  function ParseFru(buf: seq<Byte>): (r: Result<Fru, FruError>)
    ensures r == Err(TooShort) <==> |buf| < HEADER_SIZE
    ensures r == Err(EmptyDevice) <==> |buf| >= HEADER_SIZE && buf[0] == ERASED
    ensures r == Err(BadVersion)
            <==> |buf| >= HEADER_SIZE && buf[0] != ERASED && buf[0] != FRU_VERSION
    ensures r == Err(BadHeaderChecksum)
            <==> |buf| >= HEADER_SIZE && buf[0] == FRU_VERSION && CalcCs(buf, HEADER_SIZE) != 0
    ensures r.Ok? ==>
              && CheckHeader(buf) == None
              && r.value.boardAreaOffset == AreaOffset(buf[3])
              && r.value.productAreaOffset == AreaOffset(buf[4])
              && r.value.mrecAreaOffset == AreaOffset(buf[5]) <= |buf|
              && |r.value.mrecs| <= N_MULTIREC
              && r.value.cache == EmptyCache
    ensures r == Err(OutOfRange) ==>
              var bo, po := AreaOffset(buf[3]), AreaOffset(buf[4]);
              || bo > |buf| || ParseBoardArea(buf[bo..]) == Err(Overrun)
              || po > |buf| || ParseProductArea(buf[po..]) == Err(Overrun)
              || AreaOffset(buf[5]) > |buf|
  {
    match CheckHeader(buf)
    case Some(e) => Err(e)
    case None =>
      var bo, po, mo := AreaOffset(buf[3]), AreaOffset(buf[4]), AreaOffset(buf[5]);
      if bo > |buf| then Err(OutOfRange)
      else match ParseBoardArea(buf[bo..])
      case Err(Overrun) => Err(OutOfRange)
      case Err(e) => Err(BadBoardArea(e))
      case Ok(board) =>
        if po > |buf| then Err(OutOfRange)
        else match ParseProductArea(buf[po..])
        case Err(Overrun) => Err(OutOfRange)
        case Err(e) => Err(BadProductArea(e))
        case Ok(product) =>
          if mo > |buf| then Err(OutOfRange)
          else match ParseMrecs(buf[mo..], N_MULTIREC)
          case Err(e) => Err(BadMultirecord(e))
          case Ok(ms) => Ok(Fru(bo, po, mo, board, product, ms, EmptyCache))
  }

  /** Once the header passes, each later failure is reported with the code of
      the part that failed, and only then: -5 board, -6 product, -7 any
      record; the decode succeeds (`return 0`) exactly when all three parts
      decode. */
  lemma ParseFruAreaErrors(buf: seq<Byte>)
    requires CheckHeader(buf) == None
    ensures var bo, po, mo := AreaOffset(buf[3]), AreaOffset(buf[4]), AreaOffset(buf[5]);
            && (bo <= |buf| && ParseBoardArea(buf[bo..]).Err? && ParseBoardArea(buf[bo..]) != Err(Overrun)
                ==> ParseFru(buf) == Err(BadBoardArea(ParseBoardArea(buf[bo..]).error)))
            && (bo <= |buf| && ParseBoardArea(buf[bo..]).Ok?
                && po <= |buf| && ParseProductArea(buf[po..]).Err? && ParseProductArea(buf[po..]) != Err(Overrun)
                ==> ParseFru(buf) == Err(BadProductArea(ParseProductArea(buf[po..]).error)))
            && (bo <= |buf| && ParseBoardArea(buf[bo..]).Ok?
                && po <= |buf| && ParseProductArea(buf[po..]).Ok?
                && mo <= |buf| && ParseMrecs(buf[mo..], N_MULTIREC).Err?
                ==> ParseFru(buf) == Err(BadMultirecord(ParseMrecs(buf[mo..], N_MULTIREC).error)))
            && (ParseFru(buf).Err? && ParseFru(buf).error.BadBoardArea?
                ==> bo <= |buf| && ParseBoardArea(buf[bo..]) == Err(ParseFru(buf).error.area))
            && (ParseFru(buf).Err? && ParseFru(buf).error.BadProductArea?
                ==> && bo <= |buf| && ParseBoardArea(buf[bo..]).Ok?
                    && po <= |buf| && ParseProductArea(buf[po..]) == Err(ParseFru(buf).error.area))
            && (ParseFru(buf).Err? && ParseFru(buf).error.BadMultirecord?
                ==> && bo <= |buf| && ParseBoardArea(buf[bo..]).Ok?
                    && po <= |buf| && ParseProductArea(buf[po..]).Ok?
                    && mo <= |buf| && ParseMrecs(buf[mo..], N_MULTIREC) == Err(ParseFru(buf).error.rec))
            && (ParseFru(buf).Ok?
                <==> && bo <= |buf| && ParseBoardArea(buf[bo..]).Ok?
                     && po <= |buf| && ParseProductArea(buf[po..]).Ok?
                     && mo <= |buf| && ParseMrecs(buf[mo..], N_MULTIREC).Ok?)
  {
  }

  /** A successful decode holds the areas read at the header's offsets and a
      well-terminated record sequence: only the last record can carry the
      end flag, and it does unless eight records were read. */
  lemma ParseFruContents(buf: seq<Byte>)
    requires ParseFru(buf).Ok?
    ensures var f := ParseFru(buf).value;
            && Ok(f.board) == ParseBoardArea(buf[f.boardAreaOffset..])
            && Ok(f.product) == ParseProductArea(buf[f.productAreaOffset..])
            && Ok(f.mrecs) == ParseMrecs(buf[f.mrecAreaOffset..], N_MULTIREC)
            && WellTerminated(f.mrecs, N_MULTIREC)
            && AllEncodable(f.mrecs)
  {
    var f := ParseFru(buf).value;
    ParseMrecsShape(buf[f.mrecAreaOffset..], N_MULTIREC);
    ParsedRecordsEncodable(buf[f.mrecAreaOffset..], N_MULTIREC);
  }

  /** Records that came out of the decoder can be handed to the encoder. */
  lemma {:induction false} ParsedRecordsEncodable(buf: seq<Byte>, budget: nat)
    requires ParseMrecs(buf, budget).Ok?
    ensures AllEncodable(ParseMrecs(buf, budget).value)
    decreases budget
  {
    if budget > 0 {
      var p := ParseMultirecord(buf).value;
      if !p.rec.end {
        ParsedRecordsEncodable(buf[p.size..], budget - 1);
        var rest := ParseMrecs(buf[p.size..], budget - 1).value;
        assert ParseMrecs(buf, budget).value == [p.rec] + rest;
      }
    }
  }

  /** On a full EEPROM image every offset lies inside the buffer and every
      area has room for its strings, so the decoder never reads outside it:
      the unchecked reads of the C are harmless at the size it is used with. */
  lemma FullImageNeverOverruns(buf: seq<Byte>)
    requires |buf| == FRU_SIZE
    ensures ParseFru(buf) != Err(OutOfRange)
  {
    var bo, po := AreaOffset(buf[3]), AreaOffset(buf[4]);
    AreasStayInside(buf[bo..]);
    AreasStayInside(buf[po..]);
  }
}
