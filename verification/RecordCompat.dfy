/** The record structs whose shape changed between DBN versions and their
    upgrades. Numbers are the values of their C++ integer types; character
    arrays are byte strings of the array's length. Reserved bytes are left out. */
module RecordCompat {
  import opened Bytes
  import opened Constants
  import opened Metadatas

  const RTYPE_INSTRUMENT_DEF: byte := 0x13
  const RTYPE_ERROR: byte := 0x15
  const RTYPE_SYMBOL_MAPPING: byte := 0x16
  const RTYPE_SYSTEM: byte := 0x17
  const RTYPE_STATISTICS: byte := 0x18

  const SIZE_DEF_V1: nat := 360
  const SIZE_DEF_V2: nat := 400
  const SIZE_DEF_V3: nat := 520
  const SIZE_STAT_V1: nat := 64
  const SIZE_STAT_V3: nat := 80
  const SIZE_ERROR_V1: nat := 80
  const SIZE_ERROR_V2: nat := 320
  const SIZE_MAPPING_V1: nat := 80
  const SIZE_MAPPING_V2: nat := 176
  const SIZE_SYSTEM_V1: nat := 80
  const SIZE_SYSTEM_V2: nat := 320

  const SIDE_NONE: int := 78
  const UNSET: byte := 255

  datatype Header = Header(length: byte, rtype: byte, publisherId: u16, instrumentId: u32, tsEvent: u64)

  // ----- the structs -----

  datatype DefV1 = DefV1(
    hd: Header, tsRecv: int, minPriceIncrement: int, displayFactor: int, expiration: int, activation: int,
    highLimitPrice: int, lowLimitPrice: int, maxPriceVariation: int, tradingReferencePrice: int,
    unitOfMeasureQty: int, minPriceIncrementAmount: int, priceRatio: int, instAttribValue: int,
    underlyingId: int, rawInstrumentId: int, marketDepthImplied: int, marketDepth: int, marketSegmentId: int,
    maxTradeVol: int, minLotSize: int, minLotSizeBlock: int, minLotSizeRoundLot: int, minTradeVol: int,
    contractMultiplier: int, decayQuantity: int, originalContractSize: int, tradingReferenceDate: int,
    applId: int, maturityYear: int, decayStartDate: int, channelId: int, currency: bytes,
    settlCurrency: bytes, secsubtype: bytes, rawSymbol: bytes, group: bytes, exchange: bytes, asset: bytes,
    cfi: bytes, securityType: bytes, unitOfMeasure: bytes, underlying: bytes, strikePriceCurrency: bytes,
    instrumentClass: int, strikePrice: int, matchAlgorithm: int, mdSecurityTradingStatus: int,
    mainFraction: int, priceDisplayFormat: int, settlPriceType: int, subFraction: int, underlyingProduct: int,
    securityUpdateAction: int, maturityMonth: int, maturityDay: int, maturityWeek: int,
    userDefinedInstrument: int, contractMultiplierUnit: int, flowScheduleType: int, tickRule: int)
  {
    predicate Arrays() {
      && |currency| == 4 && |settlCurrency| == 4 && |secsubtype| == 6 && |rawSymbol| == 22
      && |group| == 21 && |exchange| == 5 && |asset| == 7 && |cfi| == 7
      && |securityType| == 7 && |unitOfMeasure| == 31 && |underlying| == 21 && |strikePriceCurrency| == 4
    }

    function ToV2(): DefV2 {
      DefV2(
        Upgraded(hd, SIZE_DEF_V2, RTYPE_INSTRUMENT_DEF), tsRecv, minPriceIncrement, displayFactor,
        expiration, activation, highLimitPrice, lowLimitPrice, maxPriceVariation, tradingReferencePrice,
        unitOfMeasureQty, minPriceIncrementAmount, priceRatio, strikePrice, instAttribValue, underlyingId,
        rawInstrumentId, marketDepthImplied, marketDepth, marketSegmentId, maxTradeVol, minLotSize,
        minLotSizeBlock, minLotSizeRoundLot, minTradeVol, contractMultiplier, decayQuantity,
        originalContractSize, tradingReferenceDate, applId, maturityYear, decayStartDate, channelId,
        Fit(currency, 4), Fit(settlCurrency, 4), Fit(secsubtype, 6), Fit(rawSymbol, 71), Fit(group, 21),
        Fit(exchange, 5), Fit(asset, 7), Fit(cfi, 7), Fit(securityType, 7), Fit(unitOfMeasure, 31),
        Fit(underlying, 21), Fit(strikePriceCurrency, 4), instrumentClass, matchAlgorithm,
        mdSecurityTradingStatus, mainFraction, priceDisplayFormat, settlPriceType, subFraction,
        underlyingProduct, securityUpdateAction, maturityMonth, maturityDay, maturityWeek,
        userDefinedInstrument, contractMultiplierUnit, flowScheduleType, tickRule)
    }

    function ToV3(): DefV3 {
      DefV3(
        Upgraded(hd, SIZE_DEF_V3, RTYPE_INSTRUMENT_DEF), tsRecv, minPriceIncrement, displayFactor,
        expiration, activation, highLimitPrice, lowLimitPrice, maxPriceVariation, unitOfMeasureQty,
        minPriceIncrementAmount, priceRatio, strikePrice, rawInstrumentId, UNDEF_PRICE, UNDEF_PRICE,
        instAttribValue, underlyingId, marketDepthImplied, marketDepth, marketSegmentId, maxTradeVol,
        minLotSize, minLotSizeBlock, minLotSizeRoundLot, minTradeVol, contractMultiplier, decayQuantity,
        originalContractSize, 0, 0, 0, 0, 0, 0, applId, maturityYear, decayStartDate, channelId, 0, 0,
        currency, settlCurrency, secsubtype, Fit(rawSymbol, 71), Fit(group, 21), Fit(exchange, 5),
        Fit(asset, 11), Fit(cfi, 7), Fit(securityType, 7), Fit(unitOfMeasure, 31), Fit(underlying, 21),
        Fit(strikePriceCurrency, 4), Zeros(71), instrumentClass, matchAlgorithm, mainFraction,
        priceDisplayFormat, subFraction, underlyingProduct, securityUpdateAction, maturityMonth,
        maturityDay, maturityWeek, userDefinedInstrument, contractMultiplierUnit, flowScheduleType,
        tickRule, 0, SIDE_NONE)
    }
  }

  datatype DefV2 = DefV2(
    hd: Header, tsRecv: int, minPriceIncrement: int, displayFactor: int, expiration: int, activation: int,
    highLimitPrice: int, lowLimitPrice: int, maxPriceVariation: int, tradingReferencePrice: int,
    unitOfMeasureQty: int, minPriceIncrementAmount: int, priceRatio: int, strikePrice: int,
    instAttribValue: int, underlyingId: int, rawInstrumentId: int, marketDepthImplied: int, marketDepth: int,
    marketSegmentId: int, maxTradeVol: int, minLotSize: int, minLotSizeBlock: int, minLotSizeRoundLot: int,
    minTradeVol: int, contractMultiplier: int, decayQuantity: int, originalContractSize: int,
    tradingReferenceDate: int, applId: int, maturityYear: int, decayStartDate: int, channelId: int,
    currency: bytes, settlCurrency: bytes, secsubtype: bytes, rawSymbol: bytes, group: bytes, exchange: bytes,
    asset: bytes, cfi: bytes, securityType: bytes, unitOfMeasure: bytes, underlying: bytes,
    strikePriceCurrency: bytes, instrumentClass: int, matchAlgorithm: int, mdSecurityTradingStatus: int,
    mainFraction: int, priceDisplayFormat: int, settlPriceType: int, subFraction: int, underlyingProduct: int,
    securityUpdateAction: int, maturityMonth: int, maturityDay: int, maturityWeek: int,
    userDefinedInstrument: int, contractMultiplierUnit: int, flowScheduleType: int, tickRule: int)
  {
    predicate Arrays() {
      && |currency| == 4 && |settlCurrency| == 4 && |secsubtype| == 6 && |rawSymbol| == 71
      && |group| == 21 && |exchange| == 5 && |asset| == 7 && |cfi| == 7
      && |securityType| == 7 && |unitOfMeasure| == 31 && |underlying| == 21 && |strikePriceCurrency| == 4
    }

    function ToV3(): DefV3 {
      DefV3(
        Upgraded(hd, SIZE_DEF_V3, RTYPE_INSTRUMENT_DEF), tsRecv, minPriceIncrement, displayFactor,
        expiration, activation, highLimitPrice, lowLimitPrice, maxPriceVariation, unitOfMeasureQty,
        minPriceIncrementAmount, priceRatio, strikePrice, rawInstrumentId, UNDEF_PRICE, UNDEF_PRICE,
        instAttribValue, underlyingId, marketDepthImplied, marketDepth, marketSegmentId, maxTradeVol,
        minLotSize, minLotSizeBlock, minLotSizeRoundLot, minTradeVol, contractMultiplier, decayQuantity,
        originalContractSize, 0, 0, 0, 0, 0, 0, applId, maturityYear, decayStartDate, channelId, 0, 0,
        currency, settlCurrency, secsubtype, Fit(rawSymbol, 71), Fit(group, 21), Fit(exchange, 5),
        Fit(asset, 11), Fit(cfi, 7), Fit(securityType, 7), Fit(unitOfMeasure, 31), Fit(underlying, 21),
        Fit(strikePriceCurrency, 4), Zeros(71), instrumentClass, matchAlgorithm, mainFraction,
        priceDisplayFormat, subFraction, underlyingProduct, securityUpdateAction, maturityMonth,
        maturityDay, maturityWeek, userDefinedInstrument, contractMultiplierUnit, flowScheduleType,
        tickRule, 0, SIDE_NONE)
    }
  }

  datatype DefV3 = DefV3(
    hd: Header, tsRecv: int, minPriceIncrement: int, displayFactor: int, expiration: int, activation: int,
    highLimitPrice: int, lowLimitPrice: int, maxPriceVariation: int, unitOfMeasureQty: int,
    minPriceIncrementAmount: int, priceRatio: int, strikePrice: int, rawInstrumentId: int, legPrice: int,
    legDelta: int, instAttribValue: int, underlyingId: int, marketDepthImplied: int, marketDepth: int,
    marketSegmentId: int, maxTradeVol: int, minLotSize: int, minLotSizeBlock: int, minLotSizeRoundLot: int,
    minTradeVol: int, contractMultiplier: int, decayQuantity: int, originalContractSize: int,
    legInstrumentId: int, legRatioPriceNumerator: int, legRatioPriceDenominator: int,
    legRatioQtyNumerator: int, legRatioQtyDenominator: int, legUnderlyingId: int, applId: int,
    maturityYear: int, decayStartDate: int, channelId: int, legCount: int, legIndex: int, currency: bytes,
    settlCurrency: bytes, secsubtype: bytes, rawSymbol: bytes, group: bytes, exchange: bytes, asset: bytes,
    cfi: bytes, securityType: bytes, unitOfMeasure: bytes, underlying: bytes, strikePriceCurrency: bytes,
    legRawSymbol: bytes, instrumentClass: int, matchAlgorithm: int, mainFraction: int,
    priceDisplayFormat: int, subFraction: int, underlyingProduct: int, securityUpdateAction: int,
    maturityMonth: int, maturityDay: int, maturityWeek: int, userDefinedInstrument: int,
    contractMultiplierUnit: int, flowScheduleType: int, tickRule: int, legInstrumentClass: int, legSide: int)
  {
    predicate Arrays() {
      && |currency| == 4 && |settlCurrency| == 4 && |secsubtype| == 6 && |rawSymbol| == 71
      && |group| == 21 && |exchange| == 5 && |asset| == 11 && |cfi| == 7
      && |securityType| == 7 && |unitOfMeasure| == 31 && |underlying| == 21 && |strikePriceCurrency| == 4
      && |legRawSymbol| == 71
    }
  }

  datatype StatV1 = StatV1(
    hd: Header, tsRecv: int, tsRef: int, price: int, quantity: int, sequence: int, tsInDelta: int,
    statType: int, channelId: int, updateAction: int, statFlags: int)

  datatype StatV3 = StatV3(
    hd: Header, tsRecv: int, tsRef: int, price: int, quantity: int, sequence: int, tsInDelta: int,
    statType: int, channelId: int, updateAction: int, statFlags: int)

  datatype ErrorV1 = ErrorV1(hd: Header, err: bytes)

  datatype ErrorV2 = ErrorV2(hd: Header, err: bytes, code: byte, isLast: byte)

  datatype MappingV1 = MappingV1(hd: Header, stypeInSymbol: bytes, stypeOutSymbol: bytes, startTs: int, endTs: int)

  datatype MappingV2 = MappingV2(
    hd: Header, stypeIn: byte, stypeInSymbol: bytes, stypeOut: byte, stypeOutSymbol: bytes, startTs: int,
    endTs: int)

  datatype SystemV1 = SystemV1(hd: Header, msg: bytes)

  datatype SystemV2 = SystemV2(hd: Header, msg: bytes, code: byte)

  /** `std::copy` of an array into a longer zero-initialized one. */
  function Fit(s: bytes, width: nat): (r: bytes)
    ensures |r| == width
  {
    if |s| <= width then s + Zeros(width - |s|) else s[..width]
  }

  function Upgraded(hd: Header, size: nat, rtype: byte): Header
    requires size < 256 * 4
  {
    Header(size / 4, rtype, hd.publisherId, hd.instrumentId, hd.tsEvent)
  }

  // ----- the smaller upgrades -----

  predicate StartsWith(s: bytes, prefix: bytes) {
    prefix <= s
  }

  predicate EndsWith(s: bytes, suffix: bytes) {
    |suffix| <= |s| && s[|s| - |suffix|..] == suffix
  }

  const API_KEY_DEACTIVATED := Ascii("User or API key deactivated")
  const CONNECTION_LIMIT := Ascii("User has reached their open connection limit")
  const SYMBOL_RESOLUTION := Ascii("Failed to resolve symbol")
  const INTERNAL_ERROR := Ascii("Internal error")
  const SLOW_CLIENT := Ascii("Slow client detected for ")

  /** The error code read off a version 1 message text. */
  function ErrorCode(text: bytes): byte {
    if text == API_KEY_DEACTIVATED then 2
    else if text == CONNECTION_LIMIT then 3
    else if StartsWith(text, SYMBOL_RESOLUTION) then 4
    else if text == INTERNAL_ERROR then 6
    else if StartsWith(text, SLOW_CLIENT) then 7
    else UNSET
  }

  const HEARTBEAT := Ascii("Heartbeat")
  const END_OF_INTERVAL := Ascii("End of interval for ")
  const SUB_ACK_START := Ascii("Subscription request ")
  const SUB_ACK_END := Ascii(" succeeded")
  const SLOW_READER := Ascii("Warning: slow reading")
  const FINISHED_START := Ascii("Finished ")
  const FINISHED_END := Ascii(" replay")

  /** The system code read off a version 1 message text. */
  function SystemCode(text: bytes): byte {
    if StartsWith(text, HEARTBEAT) then 0
    else if StartsWith(text, END_OF_INTERVAL) then 4
    else if StartsWith(text, SUB_ACK_START) && EndsWith(text, SUB_ACK_END) then 1
    else if StartsWith(text, SLOW_READER) then 2
    else if StartsWith(text, FINISHED_START) && EndsWith(text, FINISHED_END) then 3
    else UNSET
  }

  function ErrorV1ToV2(e: ErrorV1): ErrorV2 {
    ErrorV2(Upgraded(e.hd, SIZE_ERROR_V2, RTYPE_ERROR), Fit(e.err, 302),
            if FindNul(e.err) < |e.err| then ErrorCode(CutNul(e.err)) else UNSET, 255)
  }

  function SystemV1ToV2(s: SystemV1): SystemV2 {
    SystemV2(Upgraded(s.hd, SIZE_SYSTEM_V2, RTYPE_SYSTEM), Fit(s.msg, 303),
             if FindNul(s.msg) < |s.msg| then SystemCode(CutNul(s.msg)) else UNSET)
  }

  function MappingV1ToV2(m: MappingV1): MappingV2 {
    MappingV2(Upgraded(m.hd, SIZE_MAPPING_V2, RTYPE_SYMBOL_MAPPING),
              255, Fit(m.stypeInSymbol, 71), 255, Fit(m.stypeOutSymbol, 71), m.startTs, m.endTs)
  }

  function StatV1ToV3(s: StatV1): StatV3 {
    StatV3(Upgraded(s.hd, SIZE_STAT_V3, RTYPE_STATISTICS), s.tsRecv, s.tsRef, s.price,
           if s.quantity == UNDEF_STAT_QUANTITY_V1 then UNDEF_STAT_QUANTITY else s.quantity,
           s.sequence, s.tsInDelta, s.statType, s.channelId, s.updateAction, s.statFlags)
  }

  // ----- records as they travel -----

  datatype Body =
    | IsDefV1(defV1: DefV1) | IsDefV2(defV2: DefV2) | IsDefV3(defV3: DefV3)
    | IsStatV1(statV1: StatV1) | IsStatV3(statV3: StatV3)
    | IsErrorV1(errorV1: ErrorV1) | IsErrorV2(errorV2: ErrorV2)
    | IsMappingV1(mappingV1: MappingV1) | IsMappingV2(mappingV2: MappingV2)
    | IsSystemV1(systemV1: SystemV1) | IsSystemV2(systemV2: SystemV2)
    | IsOther(hd: Header, payload: bytes)

  /** A record, and behind it the gateway's send timestamp if the stream has one. */
  datatype Rec = Rec(body: Body, tsOut: Option<u64>)

  function HeaderOf(b: Body): Header {
    match b
    case IsDefV1(d) => d.hd
    case IsDefV2(d) => d.hd
    case IsDefV3(d) => d.hd
    case IsStatV1(s) => s.hd
    case IsStatV3(s) => s.hd
    case IsErrorV1(e) => e.hd
    case IsErrorV2(e) => e.hd
    case IsMappingV1(m) => m.hd
    case IsMappingV2(m) => m.hd
    case IsSystemV1(s) => s.hd
    case IsSystemV2(s) => s.hd
    case IsOther(hd, _) => hd
  }

  /** `sizeof` the struct, from the static assertions beside the structs. */
  function StructSize(b: Body): nat {
    match b
    case IsDefV1(_) => SIZE_DEF_V1
    case IsDefV2(_) => SIZE_DEF_V2
    case IsDefV3(_) => SIZE_DEF_V3
    case IsStatV1(_) => SIZE_STAT_V1
    case IsStatV3(_) => SIZE_STAT_V3
    case IsErrorV1(_) => SIZE_ERROR_V1
    case IsErrorV2(_) => SIZE_ERROR_V2
    case IsMappingV1(_) => SIZE_MAPPING_V1
    case IsMappingV2(_) => SIZE_MAPPING_V2
    case IsSystemV1(_) => SIZE_SYSTEM_V1
    case IsSystemV2(_) => SIZE_SYSTEM_V2
    case IsOther(_, payload) => 16 + |payload|
  }

  function WireSize(r: Rec): nat {
    StructSize(r.body) + if r.tsOut.Some? then 8 else 0
  }

  /** The bytes `RecordHeader::Size` reports. */
  function DeclaredSize(r: Rec): nat {
    HeaderOf(r.body).length * 4
  }

  /** The shape the rtype has in a DBN version. */
  predicate ShapeOk(version: u8, b: Body) {
    match b
    case IsDefV1(d) => version == 1 && d.hd.rtype == RTYPE_INSTRUMENT_DEF && d.Arrays()
    case IsDefV2(d) => version == 2 && d.hd.rtype == RTYPE_INSTRUMENT_DEF && d.Arrays()
    case IsDefV3(d) => version == 3 && d.hd.rtype == RTYPE_INSTRUMENT_DEF && d.Arrays()
    case IsStatV1(s) => version < 3 && s.hd.rtype == RTYPE_STATISTICS
                        && -0x8000_0000 <= s.quantity <= UNDEF_STAT_QUANTITY_V1
    case IsStatV3(s) => version == 3 && s.hd.rtype == RTYPE_STATISTICS
    case IsErrorV1(e) => version == 1 && e.hd.rtype == RTYPE_ERROR && |e.err| == 64
    case IsErrorV2(e) => version > 1 && e.hd.rtype == RTYPE_ERROR && |e.err| == 302
    case IsMappingV1(m) => version == 1 && m.hd.rtype == RTYPE_SYMBOL_MAPPING
                           && |m.stypeInSymbol| == 22 && |m.stypeOutSymbol| == 22
    case IsMappingV2(m) => version > 1 && m.hd.rtype == RTYPE_SYMBOL_MAPPING
                           && |m.stypeInSymbol| == 71 && |m.stypeOutSymbol| == 71
    case IsSystemV1(s) => version == 1 && s.hd.rtype == RTYPE_SYSTEM && |s.msg| == 64
    case IsSystemV2(s) => version > 1 && s.hd.rtype == RTYPE_SYSTEM && |s.msg| == 303
    case IsOther(hd, _) =>
      hd.rtype !in {RTYPE_INSTRUMENT_DEF, RTYPE_ERROR, RTYPE_SYMBOL_MAPPING, RTYPE_SYSTEM, RTYPE_STATISTICS}
  }

  /** A record of a stream of that version whose header states its true size. */
  predicate Conforms(version: u8, tsOut: bool, r: Rec) {
    1 <= version <= 3 && ShapeOk(version, r.body) && r.tsOut.Some? == tsOut && DeclaredSize(r) == WireSize(r)
  }

  function WithLength(b: Body, length: byte): Body {
    match b
    case IsDefV2(d) => IsDefV2(d.(hd := d.hd.(length := length)))
    case IsDefV3(d) => IsDefV3(d.(hd := d.hd.(length := length)))
    case IsStatV3(s) => IsStatV3(s.(hd := s.hd.(length := length)))
    case IsErrorV2(e) => IsErrorV2(e.(hd := e.hd.(length := length)))
    case IsMappingV2(m) => IsMappingV2(m.(hd := m.hd.(length := length)))
    case IsSystemV2(s) => IsSystemV2(s.(hd := s.hd.(length := length)))
    case _ => b
  }

  /** The upgraded struct with its timestamp put back behind it; the wrapper
      then restates the length. */
  function Rewrap(upgraded: Body, tsOut: Option<u64>): Rec
    requires StructSize(upgraded) <= SIZE_DEF_V3
  {
    if tsOut.Some? then Rec(WithLength(upgraded, (StructSize(upgraded) + 8) / 4), tsOut)
    else Rec(upgraded, None)
  }

  function DecodeRecordCompat(version: u8, policy: UpgradePolicy, r: Rec): Rec {
    if version == 1 && policy == UpgradeToV2 then
      match r.body
      case IsDefV1(d) => Rewrap(IsDefV2(d.ToV2()), r.tsOut)
      case IsMappingV1(m) => Rewrap(IsMappingV2(MappingV1ToV2(m)), r.tsOut)
      case IsErrorV1(e) => Rewrap(IsErrorV2(ErrorV1ToV2(e)), r.tsOut)
      case IsSystemV1(s) => Rewrap(IsSystemV2(SystemV1ToV2(s)), r.tsOut)
      case _ => r
    else if version == 1 && policy == UpgradeToV3 then
      match r.body
      case IsDefV1(d) => Rewrap(IsDefV3(d.ToV3()), r.tsOut)
      case IsStatV1(s) => Rewrap(IsStatV3(StatV1ToV3(s)), r.tsOut)
      case IsMappingV1(m) => Rewrap(IsMappingV2(MappingV1ToV2(m)), r.tsOut)
      case IsErrorV1(e) => Rewrap(IsErrorV2(ErrorV1ToV2(e)), r.tsOut)
      case IsSystemV1(s) => Rewrap(IsSystemV2(SystemV1ToV2(s)), r.tsOut)
      case _ => r
    else if version == 2 && policy == UpgradeToV3 then
      match r.body
      case IsDefV2(d) => Rewrap(IsDefV3(d.ToV3()), r.tsOut)
      case IsStatV1(s) => Rewrap(IsStatV3(StatV1ToV3(s)), r.tsOut)
      case _ => r
    else r
  }

  /** The version the records of an upgraded stream have. */
  function TargetVersion(version: u8, policy: UpgradePolicy): u8 {
    if policy == UpgradeToV2 && version < 2 then 2
    else if policy == UpgradeToV3 && version < 3 then 3
    else version
  }

  // ----- the two paths to version 3 meet -----

  lemma FitTwice(s: bytes, w2: nat, w3: nat)
    requires |s| <= w2 <= w3
    ensures Fit(Fit(s, w2), w3) == Fit(s, w3)
  {
    assert Zeros(w2 - |s|) + Zeros(w3 - w2) == Zeros(w3 - |s|);
    assert (s + Zeros(w2 - |s|)) + Zeros(w3 - w2) == s + (Zeros(w2 - |s|) + Zeros(w3 - w2));
  }

  lemma FitExact(s: bytes)
    ensures Fit(s, |s|) == s
  {
    assert s + Zeros(0) == s;
  }

  lemma DefPathsMeet(d: DefV1)
    requires d.Arrays()
    ensures d.ToV2().ToV3() == d.ToV3()
  {
    hide Fit;
    FitExact(d.currency);
    FitExact(d.settlCurrency);
    FitExact(d.secsubtype);
    FitTwice(d.rawSymbol, 71, 71);
    FitTwice(d.group, 21, 21);
    FitTwice(d.exchange, 5, 5);
    FitTwice(d.asset, 7, 11);
    FitTwice(d.cfi, 7, 7);
    FitTwice(d.securityType, 7, 7);
    FitTwice(d.unitOfMeasure, 31, 31);
    FitTwice(d.underlying, 21, 21);
    FitTwice(d.strikePriceCurrency, 4, 4);
  }

  lemma DefUpgradeIgnoresLength(d: DefV2, length: byte)
    ensures d.(hd := d.hd.(length := length)).ToV3() == d.ToV3()
  {
  }

  /** Upgrading a version 1 record to version 2 and that to version 3 gives what
      upgrading it to version 3 directly gives, timestamp and length included. */
  lemma UpgradePathsMeet(tsOut: bool, r: Rec)
    requires Conforms(1, tsOut, r)
    ensures DecodeRecordCompat(2, UpgradeToV3, DecodeRecordCompat(1, UpgradeToV2, r)) ==
            DecodeRecordCompat(1, UpgradeToV3, r)
  {
    if r.body.IsDefV1? {
      var d := r.body.defV1;
      DefPathsMeet(d);
      DefUpgradeIgnoresLength(d.ToV2(), (SIZE_DEF_V2 + 8) / 4);
    }
  }

  /** The upgraded record has the shape of the target version, states its true
      size, keeps its timestamp and, if it changed, fits the compatibility
      buffer. When no upgrade is needed nothing changes. */
  predicate UpgradedWell(version: u8, policy: UpgradePolicy, tsOut: bool, r: Rec) {
    var u := DecodeRecordCompat(version, policy, r);
    && Conforms(TargetVersion(version, policy), tsOut, u)
    && (u != r ==> WireSize(u) <= 528)
    && u.tsOut == r.tsOut
    && (!NeedsUpgrade(policy, version) ==> u == r)
  }

  /** An upgraded stream is a stream of the target version. */
  lemma UpgradeConforms(version: u8, policy: UpgradePolicy, tsOut: bool, r: Rec)
    requires Conforms(version, tsOut, r)
    ensures UpgradedWell(version, policy, tsOut, r)
  {
    hide *;
    if r.body.IsDefV1? || r.body.IsDefV2? {
      DefinitionConforms(version, policy, tsOut, r);
    } else if r.body.IsErrorV1? || r.body.IsSystemV1? || r.body.IsMappingV1? {
      MessageConforms(version, policy, tsOut, r);
    } else if r.body.IsStatV1? {
      StatisticsConform(version, policy, tsOut, r);
    } else {
      OthersConform(version, policy, tsOut, r);
    }
  }

  lemma DefinitionConforms(version: u8, policy: UpgradePolicy, tsOut: bool, r: Rec)
    requires Conforms(version, tsOut, r) && (r.body.IsDefV1? || r.body.IsDefV2?)
    ensures UpgradedWell(version, policy, tsOut, r)
  {
    hide Fit, DefV1.ToV2, DefV1.ToV3, DefV2.ToV3, DefV1.Arrays, DefV2.Arrays, DefV3.Arrays;
    if r.body.IsDefV1? {
      DefV1Conforms(r.body.defV1);
    } else {
      DefV2Conforms(r.body.defV2);
    }
  }

  lemma MessageConforms(version: u8, policy: UpgradePolicy, tsOut: bool, r: Rec)
    requires Conforms(version, tsOut, r) && (r.body.IsErrorV1? || r.body.IsSystemV1? || r.body.IsMappingV1?)
    ensures UpgradedWell(version, policy, tsOut, r)
  {
    hide Fit, ErrorCode, SystemCode;
  }

  lemma StatisticsConform(version: u8, policy: UpgradePolicy, tsOut: bool, r: Rec)
    requires Conforms(version, tsOut, r) && r.body.IsStatV1?
    ensures UpgradedWell(version, policy, tsOut, r)
  {
  }

  lemma OthersConform(version: u8, policy: UpgradePolicy, tsOut: bool, r: Rec)
    requires Conforms(version, tsOut, r)
    requires !(r.body.IsDefV1? || r.body.IsDefV2? || r.body.IsErrorV1? || r.body.IsSystemV1? || r.body.IsMappingV1?)
    requires !r.body.IsStatV1?
    ensures UpgradedWell(version, policy, tsOut, r)
  {
    hide DefV3.Arrays;
  }

  lemma DefV1Conforms(d: DefV1)
    requires d.Arrays()
    ensures d.ToV2().Arrays() && d.ToV2().hd == Upgraded(d.hd, SIZE_DEF_V2, RTYPE_INSTRUMENT_DEF)
    ensures d.ToV3().Arrays() && d.ToV3().hd == Upgraded(d.hd, SIZE_DEF_V3, RTYPE_INSTRUMENT_DEF)
    ensures forall k: byte :: d.ToV2().(hd := d.ToV2().hd.(length := k)).Arrays()
    ensures forall k: byte :: d.ToV3().(hd := d.ToV3().hd.(length := k)).Arrays()
  {
    hide Fit;
  }

  lemma DefV2Conforms(d: DefV2)
    requires d.Arrays()
    ensures d.ToV3().Arrays() && d.ToV3().hd == Upgraded(d.hd, SIZE_DEF_V3, RTYPE_INSTRUMENT_DEF)
    ensures forall k: byte :: d.ToV3().(hd := d.ToV3().hd.(length := k)).Arrays()
  {
    hide Fit;
  }

  // ----- what the text tests decide -----

  lemma Letter(s: string, k: nat)
    requires k < |s| && (s[k] as int) < 256
    ensures |Ascii(s)| == |s| && Ascii(s)[k] == s[k] as int
  {
  }

  lemma StartsAt(text: bytes, prefix: bytes, k: nat)
    requires k < |prefix|
    ensures StartsWith(text, prefix) ==> k < |text| && text[k] == prefix[k]
  {
  }

  /** Where the texts of the error messages differ. */
  lemma ErrorLetters()
    ensures |API_KEY_DEACTIVATED| > 5 && API_KEY_DEACTIVATED[0] == 85 && API_KEY_DEACTIVATED[5] == 111
    ensures |CONNECTION_LIMIT| > 5 && CONNECTION_LIMIT[0] == 85 && CONNECTION_LIMIT[5] == 104
    ensures |SYMBOL_RESOLUTION| > 0 && SYMBOL_RESOLUTION[0] == 70
    ensures |INTERNAL_ERROR| > 0 && INTERNAL_ERROR[0] == 73
    ensures |SLOW_CLIENT| > 0 && SLOW_CLIENT[0] == 83
  {
    hide Ascii;
    Letter("User or API key deactivated", 0);
    Letter("User or API key deactivated", 5);
    Letter("User has reached their open connection limit", 0);
    Letter("User has reached their open connection limit", 5);
    Letter("Failed to resolve symbol", 0);
    Letter("Internal error", 0);
    Letter("Slow client detected for ", 0);
  }

  /** The tests for an error code exclude one another, so each code means one
      thing whatever the order of the tests. */
  lemma ErrorCodeMeaning(text: bytes)
    ensures ErrorCode(text) == 2 <==> text == API_KEY_DEACTIVATED
    ensures ErrorCode(text) == 3 <==> text == CONNECTION_LIMIT
    ensures ErrorCode(text) == 4 <==> StartsWith(text, SYMBOL_RESOLUTION)
    ensures ErrorCode(text) == 6 <==> text == INTERNAL_ERROR
    ensures ErrorCode(text) == 7 <==> StartsWith(text, SLOW_CLIENT)
  {
    ErrorLetters();
    StartsAt(text, SYMBOL_RESOLUTION, 0);
    StartsAt(text, SLOW_CLIENT, 0);
    hide Ascii, StartsWith, API_KEY_DEACTIVATED, CONNECTION_LIMIT, SYMBOL_RESOLUTION, INTERNAL_ERROR, SLOW_CLIENT;
  }

  /** The first letters of the texts of the system messages. */
  lemma SystemLetters()
    ensures |HEARTBEAT| > 0 && HEARTBEAT[0] == 72
    ensures |END_OF_INTERVAL| > 0 && END_OF_INTERVAL[0] == 69
    ensures |SUB_ACK_START| > 0 && SUB_ACK_START[0] == 83
    ensures |SLOW_READER| > 0 && SLOW_READER[0] == 87
    ensures |FINISHED_START| > 0 && FINISHED_START[0] == 70
  {
    hide Ascii;
    Letter("Heartbeat", 0);
    Letter("End of interval for ", 0);
    Letter("Subscription request ", 0);
    Letter("Warning: slow reading", 0);
    Letter("Finished ", 0);
  }

  lemma SystemCodeMeaning(text: bytes)
    ensures SystemCode(text) == 0 <==> StartsWith(text, HEARTBEAT)
    ensures SystemCode(text) == 1 <==> StartsWith(text, SUB_ACK_START) && EndsWith(text, SUB_ACK_END)
    ensures SystemCode(text) == 2 <==> StartsWith(text, SLOW_READER)
    ensures SystemCode(text) == 3 <==> StartsWith(text, FINISHED_START) && EndsWith(text, FINISHED_END)
    ensures SystemCode(text) == 4 <==> StartsWith(text, END_OF_INTERVAL)
  {
    SystemLetters();
    StartsAt(text, HEARTBEAT, 0);
    StartsAt(text, END_OF_INTERVAL, 0);
    StartsAt(text, SUB_ACK_START, 0);
    StartsAt(text, SLOW_READER, 0);
    StartsAt(text, FINISHED_START, 0);
    hide Ascii, StartsWith, EndsWith, HEARTBEAT, END_OF_INTERVAL, SUB_ACK_START, SUB_ACK_END, SLOW_READER,
      FINISHED_START, FINISHED_END;
  }

  /** Widening an array keeps the C string in it, and an undefined quantity is
      undefined exactly when it was. */
  lemma UpgradeKeepsMeaning(s: bytes, width: nat, stat: StatV1)
    requires |s| <= width
    requires -0x8000_0000 <= stat.quantity <= UNDEF_STAT_QUANTITY_V1
    ensures CutNul(Fit(s, width)) == CutNul(s)
    ensures StatV1ToV3(stat).quantity == UNDEF_STAT_QUANTITY <==> stat.quantity == UNDEF_STAT_QUANTITY_V1
  {
    var n := FindNul(s);
    assert Fit(s, width)[..n] == s[..n];
    FindNulIs(Fit(s, width), n);
  }
}
