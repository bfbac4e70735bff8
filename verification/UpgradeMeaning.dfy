/** What an upgrade keeps of a record: every field that both versions have, by its
    name. Texts are kept as C strings, because the arrays that hold them grow. */
module UpgradeMeaning {
  import opened Bytes
  import opened Metadatas
  import opened RecordCompat

  predicate HeaderKept(a: RecordCompat.Header, b: RecordCompat.Header) {
    b.rtype == a.rtype && b.publisherId == a.publisherId && b.instrumentId == a.instrumentId && b.tsEvent == a.tsEvent
  }

  predicate TextKept(a: bytes, b: bytes) {
    CutNul(b) == CutNul(a)
  }

  predicate Def12Kept(a: DefV1, b: DefV2) {
    && HeaderKept(a.hd, b.hd)
    && b.tsRecv == a.tsRecv && b.minPriceIncrement == a.minPriceIncrement && b.displayFactor == a.displayFactor
    && b.expiration == a.expiration && b.activation == a.activation && b.highLimitPrice == a.highLimitPrice
    && b.lowLimitPrice == a.lowLimitPrice && b.maxPriceVariation == a.maxPriceVariation
    && b.tradingReferencePrice == a.tradingReferencePrice && b.unitOfMeasureQty == a.unitOfMeasureQty
    && b.minPriceIncrementAmount == a.minPriceIncrementAmount && b.priceRatio == a.priceRatio
    && b.strikePrice == a.strikePrice && b.instAttribValue == a.instAttribValue
    && b.underlyingId == a.underlyingId && b.rawInstrumentId == a.rawInstrumentId
    && b.marketDepthImplied == a.marketDepthImplied && b.marketDepth == a.marketDepth
    && b.marketSegmentId == a.marketSegmentId && b.maxTradeVol == a.maxTradeVol && b.minLotSize == a.minLotSize
    && b.minLotSizeBlock == a.minLotSizeBlock && b.minLotSizeRoundLot == a.minLotSizeRoundLot
    && b.minTradeVol == a.minTradeVol && b.contractMultiplier == a.contractMultiplier
    && b.decayQuantity == a.decayQuantity && b.originalContractSize == a.originalContractSize
    && b.tradingReferenceDate == a.tradingReferenceDate && b.applId == a.applId
    && b.maturityYear == a.maturityYear && b.decayStartDate == a.decayStartDate && b.channelId == a.channelId
    && b.instrumentClass == a.instrumentClass && b.matchAlgorithm == a.matchAlgorithm
    && b.mdSecurityTradingStatus == a.mdSecurityTradingStatus && b.mainFraction == a.mainFraction
    && b.priceDisplayFormat == a.priceDisplayFormat && b.settlPriceType == a.settlPriceType
    && b.subFraction == a.subFraction && b.underlyingProduct == a.underlyingProduct
    && b.securityUpdateAction == a.securityUpdateAction && b.maturityMonth == a.maturityMonth
    && b.maturityDay == a.maturityDay && b.maturityWeek == a.maturityWeek
    && b.userDefinedInstrument == a.userDefinedInstrument
    && b.contractMultiplierUnit == a.contractMultiplierUnit && b.flowScheduleType == a.flowScheduleType
    && b.tickRule == a.tickRule
    && TextKept(a.currency, b.currency) && TextKept(a.settlCurrency, b.settlCurrency)
    && TextKept(a.secsubtype, b.secsubtype) && TextKept(a.rawSymbol, b.rawSymbol) && TextKept(a.group, b.group)
    && TextKept(a.exchange, b.exchange) && TextKept(a.asset, b.asset) && TextKept(a.cfi, b.cfi)
    && TextKept(a.securityType, b.securityType) && TextKept(a.unitOfMeasure, b.unitOfMeasure)
    && TextKept(a.underlying, b.underlying) && TextKept(a.strikePriceCurrency, b.strikePriceCurrency)
  }

  predicate Def13Kept(a: DefV1, b: DefV3) {
    && HeaderKept(a.hd, b.hd)
    && b.tsRecv == a.tsRecv && b.minPriceIncrement == a.minPriceIncrement && b.displayFactor == a.displayFactor
    && b.expiration == a.expiration && b.activation == a.activation && b.highLimitPrice == a.highLimitPrice
    && b.lowLimitPrice == a.lowLimitPrice && b.maxPriceVariation == a.maxPriceVariation
    && b.unitOfMeasureQty == a.unitOfMeasureQty && b.minPriceIncrementAmount == a.minPriceIncrementAmount
    && b.priceRatio == a.priceRatio && b.strikePrice == a.strikePrice && b.rawInstrumentId == a.rawInstrumentId
    && b.instAttribValue == a.instAttribValue && b.underlyingId == a.underlyingId
    && b.marketDepthImplied == a.marketDepthImplied && b.marketDepth == a.marketDepth
    && b.marketSegmentId == a.marketSegmentId && b.maxTradeVol == a.maxTradeVol && b.minLotSize == a.minLotSize
    && b.minLotSizeBlock == a.minLotSizeBlock && b.minLotSizeRoundLot == a.minLotSizeRoundLot
    && b.minTradeVol == a.minTradeVol && b.contractMultiplier == a.contractMultiplier
    && b.decayQuantity == a.decayQuantity && b.originalContractSize == a.originalContractSize
    && b.applId == a.applId && b.maturityYear == a.maturityYear && b.decayStartDate == a.decayStartDate
    && b.channelId == a.channelId && b.instrumentClass == a.instrumentClass
    && b.matchAlgorithm == a.matchAlgorithm && b.mainFraction == a.mainFraction
    && b.priceDisplayFormat == a.priceDisplayFormat && b.subFraction == a.subFraction
    && b.underlyingProduct == a.underlyingProduct && b.securityUpdateAction == a.securityUpdateAction
    && b.maturityMonth == a.maturityMonth && b.maturityDay == a.maturityDay && b.maturityWeek == a.maturityWeek
    && b.userDefinedInstrument == a.userDefinedInstrument
    && b.contractMultiplierUnit == a.contractMultiplierUnit && b.flowScheduleType == a.flowScheduleType
    && b.tickRule == a.tickRule
    && TextKept(a.currency, b.currency) && TextKept(a.settlCurrency, b.settlCurrency)
    && TextKept(a.secsubtype, b.secsubtype) && TextKept(a.rawSymbol, b.rawSymbol) && TextKept(a.group, b.group)
    && TextKept(a.exchange, b.exchange) && TextKept(a.asset, b.asset) && TextKept(a.cfi, b.cfi)
    && TextKept(a.securityType, b.securityType) && TextKept(a.unitOfMeasure, b.unitOfMeasure)
    && TextKept(a.underlying, b.underlying) && TextKept(a.strikePriceCurrency, b.strikePriceCurrency)
  }

  predicate Def23Kept(a: DefV2, b: DefV3) {
    && HeaderKept(a.hd, b.hd)
    && b.tsRecv == a.tsRecv && b.minPriceIncrement == a.minPriceIncrement && b.displayFactor == a.displayFactor
    && b.expiration == a.expiration && b.activation == a.activation && b.highLimitPrice == a.highLimitPrice
    && b.lowLimitPrice == a.lowLimitPrice && b.maxPriceVariation == a.maxPriceVariation
    && b.unitOfMeasureQty == a.unitOfMeasureQty && b.minPriceIncrementAmount == a.minPriceIncrementAmount
    && b.priceRatio == a.priceRatio && b.strikePrice == a.strikePrice && b.rawInstrumentId == a.rawInstrumentId
    && b.instAttribValue == a.instAttribValue && b.underlyingId == a.underlyingId
    && b.marketDepthImplied == a.marketDepthImplied && b.marketDepth == a.marketDepth
    && b.marketSegmentId == a.marketSegmentId && b.maxTradeVol == a.maxTradeVol && b.minLotSize == a.minLotSize
    && b.minLotSizeBlock == a.minLotSizeBlock && b.minLotSizeRoundLot == a.minLotSizeRoundLot
    && b.minTradeVol == a.minTradeVol && b.contractMultiplier == a.contractMultiplier
    && b.decayQuantity == a.decayQuantity && b.originalContractSize == a.originalContractSize
    && b.applId == a.applId && b.maturityYear == a.maturityYear && b.decayStartDate == a.decayStartDate
    && b.channelId == a.channelId && b.instrumentClass == a.instrumentClass
    && b.matchAlgorithm == a.matchAlgorithm && b.mainFraction == a.mainFraction
    && b.priceDisplayFormat == a.priceDisplayFormat && b.subFraction == a.subFraction
    && b.underlyingProduct == a.underlyingProduct && b.securityUpdateAction == a.securityUpdateAction
    && b.maturityMonth == a.maturityMonth && b.maturityDay == a.maturityDay && b.maturityWeek == a.maturityWeek
    && b.userDefinedInstrument == a.userDefinedInstrument
    && b.contractMultiplierUnit == a.contractMultiplierUnit && b.flowScheduleType == a.flowScheduleType
    && b.tickRule == a.tickRule
    && TextKept(a.currency, b.currency) && TextKept(a.settlCurrency, b.settlCurrency)
    && TextKept(a.secsubtype, b.secsubtype) && TextKept(a.rawSymbol, b.rawSymbol) && TextKept(a.group, b.group)
    && TextKept(a.exchange, b.exchange) && TextKept(a.asset, b.asset) && TextKept(a.cfi, b.cfi)
    && TextKept(a.securityType, b.securityType) && TextKept(a.unitOfMeasure, b.unitOfMeasure)
    && TextKept(a.underlying, b.underlying) && TextKept(a.strikePriceCurrency, b.strikePriceCurrency)
  }

  /** A definition from before version 3 has no legs. */
  predicate NoLegs(d: DefV3) {
    && d.legCount == 0 && d.legIndex == 0 && d.legInstrumentId == 0 && d.legUnderlyingId == 0
    && d.legPrice == 0x7FFF_FFFF_FFFF_FFFF && d.legDelta == 0x7FFF_FFFF_FFFF_FFFF
    && d.legRatioPriceNumerator == 0 && d.legRatioPriceDenominator == 0
    && d.legRatioQtyNumerator == 0 && d.legRatioQtyDenominator == 0
    && CutNul(d.legRawSymbol) == [] && d.legInstrumentClass == 0 && d.legSide == 'N' as int
  }

  /** An undefined quantity stays undefined, in 64 bits. */
  predicate StatKept(a: StatV1, b: StatV3) {
    && HeaderKept(a.hd, b.hd)
    && b.tsRecv == a.tsRecv && b.tsRef == a.tsRef && b.price == a.price && b.sequence == a.sequence
    && b.tsInDelta == a.tsInDelta && b.statType == a.statType && b.channelId == a.channelId
    && b.updateAction == a.updateAction && b.statFlags == a.statFlags
    && b.quantity == (if a.quantity == 0x7FFF_FFFF then 0x7FFF_FFFF_FFFF_FFFF else a.quantity)
  }

  predicate MappingKept(a: MappingV1, b: MappingV2) {
    && HeaderKept(a.hd, b.hd)
    && b.startTs == a.startTs && b.endTs == a.endTs
    && TextKept(a.stypeInSymbol, b.stypeInSymbol) && TextKept(a.stypeOutSymbol, b.stypeOutSymbol)
    && b.stypeIn == 255 && b.stypeOut == 255
  }

  predicate ErrorKept(a: ErrorV1, b: ErrorV2) {
    && HeaderKept(a.hd, b.hd)
    && TextKept(a.err, b.err)
    && b.isLast == 255 && ErrorCodeIs(a.err, b.code)
  }

  predicate SystemKept(a: SystemV1, b: SystemV2) {
    && HeaderKept(a.hd, b.hd)
    && TextKept(a.msg, b.msg)
    && SystemCodeIs(a.msg, b.code)
  }

  /** The code of an upgraded error is the one its text calls for, if the text is
      terminated at all; the texts exclude one another. */
  predicate ErrorCodeIs(err: bytes, code: byte) {
    if 0 !in err then code == 255
    else
      var text := CutNul(err);
      && (code == 2 <==> text == Ascii("User or API key deactivated"))
      && (code == 3 <==> text == Ascii("User has reached their open connection limit"))
      && (code == 4 <==> Ascii("Failed to resolve symbol") <= text)
      && (code == 6 <==> text == Ascii("Internal error"))
      && (code == 7 <==> Ascii("Slow client detected for ") <= text)
      && code in {2, 3, 4, 6, 7, 255}
  }

  predicate SystemCodeIs(msg: bytes, code: byte) {
    if 0 !in msg then code == 255
    else
      var text := CutNul(msg);
      && (code == 0 <==> Ascii("Heartbeat") <= text)
      && (code == 1 <==> Ascii("Subscription request ") <= text && EndsWith(text, Ascii(" succeeded")))
      && (code == 2 <==> Ascii("Warning: slow reading") <= text)
      && (code == 3 <==> Ascii("Finished ") <= text && EndsWith(text, Ascii(" replay")))
      && (code == 4 <==> Ascii("End of interval for ") <= text)
      && code in {0, 1, 2, 3, 4, 255}
  }

  /** The upgraded record and the record it was made from. */
  predicate Kept(b: Body, u: Body) {
    match b
    case IsDefV1(a) =>
      if u.IsDefV2? then Def12Kept(a, u.defV2)
      else if u.IsDefV3? then Def13Kept(a, u.defV3) && NoLegs(u.defV3)
      else u == b
    case IsDefV2(a) => if u.IsDefV3? then Def23Kept(a, u.defV3) && NoLegs(u.defV3) else u == b
    case IsStatV1(a) => if u.IsStatV3? then StatKept(a, u.statV3) else u == b
    case IsMappingV1(a) => if u.IsMappingV2? then MappingKept(a, u.mappingV2) else u == b
    case IsErrorV1(a) => if u.IsErrorV2? then ErrorKept(a, u.errorV2) else u == b
    case IsSystemV1(a) => if u.IsSystemV2? then SystemKept(a, u.systemV2) else u == b
    case _ => u == b
  }

  lemma FitKeepsText(s: bytes, width: nat)
    requires |s| <= width
    ensures TextKept(s, Fit(s, width))
  {
    var n := FindNul(s);
    assert Fit(s, width)[..n] == s[..n];
    FindNulIs(Fit(s, width), n);
  }

  lemma NulIsFound(s: bytes)
    ensures FindNul(s) < |s| <==> 0 in s
  {
    var n := FindNul(s);
    if n < |s| {
      assert s[n] == 0;
    } else {
      assert s[..n] == s;
    }
  }

  lemma ErrorCodeHere(e: ErrorV1)
    ensures ErrorCodeIs(e.err, ErrorV1ToV2(e).code)
  {
    NulIsFound(e.err);
    ErrorCodeMeaning(CutNul(e.err));
    hide Ascii, CutNul, FindNul, Fit;
  }

  lemma SystemCodeHere(s: SystemV1)
    ensures SystemCodeIs(s.msg, SystemV1ToV2(s).code)
  {
    NulIsFound(s.msg);
    SystemCodeMeaning(CutNul(s.msg));
    hide Ascii, CutNul, FindNul, Fit, EndsWith;
  }

  lemma Def12Keeps(d: DefV1, length: byte)
    requires d.Arrays() && d.hd.rtype == RTYPE_INSTRUMENT_DEF
    ensures Def12Kept(d, d.ToV2())
    ensures Def12Kept(d, d.ToV2().(hd := d.ToV2().hd.(length := length)))
  {
    DefTextsFit(d);
    hide Fit, TextKept;
  }

  lemma DefTextsFit(d: DefV1)
    requires d.Arrays()
    ensures TextKept(d.currency, Fit(d.currency, 4)) && TextKept(d.settlCurrency, Fit(d.settlCurrency, 4))
    ensures TextKept(d.secsubtype, Fit(d.secsubtype, 6)) && TextKept(d.rawSymbol, Fit(d.rawSymbol, 71))
    ensures TextKept(d.group, Fit(d.group, 21)) && TextKept(d.exchange, Fit(d.exchange, 5))
    ensures TextKept(d.asset, Fit(d.asset, 7)) && TextKept(d.asset, Fit(d.asset, 11))
    ensures TextKept(d.cfi, Fit(d.cfi, 7)) && TextKept(d.securityType, Fit(d.securityType, 7))
    ensures TextKept(d.unitOfMeasure, Fit(d.unitOfMeasure, 31)) && TextKept(d.underlying, Fit(d.underlying, 21))
    ensures TextKept(d.strikePriceCurrency, Fit(d.strikePriceCurrency, 4))
    ensures TextKept(d.currency, d.currency) && TextKept(d.settlCurrency, d.settlCurrency)
    ensures TextKept(d.secsubtype, d.secsubtype)
  {
    FitKeepsText(d.currency, 4);
    FitKeepsText(d.settlCurrency, 4);
    FitKeepsText(d.secsubtype, 6);
    FitKeepsText(d.rawSymbol, 71);
    FitKeepsText(d.group, 21);
    FitKeepsText(d.exchange, 5);
    FitKeepsText(d.asset, 7);
    FitKeepsText(d.asset, 11);
    FitKeepsText(d.cfi, 7);
    FitKeepsText(d.securityType, 7);
    FitKeepsText(d.unitOfMeasure, 31);
    FitKeepsText(d.underlying, 21);
    FitKeepsText(d.strikePriceCurrency, 4);
    hide Fit, CutNul;
  }

  lemma NoText(width: nat)
    ensures CutNul(Zeros(width)) == []
  {
    FindNulIs(Zeros(width), 0);
  }

  lemma Def13Keeps(d: DefV1, length: byte)
    requires d.Arrays() && d.hd.rtype == RTYPE_INSTRUMENT_DEF
    ensures Def13Kept(d, d.ToV3()) && NoLegs(d.ToV3())
    ensures var u := d.ToV3().(hd := d.ToV3().hd.(length := length)); Def13Kept(d, u) && NoLegs(u)
  {
    DefTextsFit(d);
    NoText(71);
    hide Fit, TextKept, CutNul, Zeros;
  }

  lemma Def23Keeps(d: DefV2, length: byte)
    requires d.Arrays() && d.hd.rtype == RTYPE_INSTRUMENT_DEF
    ensures Def23Kept(d, d.ToV3()) && NoLegs(d.ToV3())
    ensures var u := d.ToV3().(hd := d.ToV3().hd.(length := length)); Def23Kept(d, u) && NoLegs(u)
  {
    DefV2TextsFit(d);
    NoText(71);
    hide Fit, TextKept, CutNul, Zeros;
  }

  lemma DefV2TextsFit(d: DefV2)
    requires d.Arrays()
    ensures TextKept(d.rawSymbol, Fit(d.rawSymbol, 71)) && TextKept(d.rawSymbol, d.rawSymbol)
    ensures TextKept(d.group, Fit(d.group, 21)) && TextKept(d.group, d.group)
    ensures TextKept(d.exchange, Fit(d.exchange, 5)) && TextKept(d.exchange, d.exchange)
    ensures TextKept(d.asset, Fit(d.asset, 11))
    ensures TextKept(d.cfi, Fit(d.cfi, 7)) && TextKept(d.cfi, d.cfi)
    ensures TextKept(d.securityType, Fit(d.securityType, 7)) && TextKept(d.securityType, d.securityType)
    ensures TextKept(d.unitOfMeasure, Fit(d.unitOfMeasure, 31)) && TextKept(d.unitOfMeasure, d.unitOfMeasure)
    ensures TextKept(d.underlying, Fit(d.underlying, 21)) && TextKept(d.underlying, d.underlying)
    ensures TextKept(d.strikePriceCurrency, Fit(d.strikePriceCurrency, 4))
    ensures TextKept(d.strikePriceCurrency, d.strikePriceCurrency)
    ensures TextKept(d.currency, d.currency) && TextKept(d.settlCurrency, d.settlCurrency)
    ensures TextKept(d.secsubtype, d.secsubtype)
  {
    FitKeepsText(d.rawSymbol, 71);
    FitKeepsText(d.group, 21);
    FitKeepsText(d.exchange, 5);
    FitKeepsText(d.asset, 11);
    FitKeepsText(d.cfi, 7);
    FitKeepsText(d.securityType, 7);
    FitKeepsText(d.unitOfMeasure, 31);
    FitKeepsText(d.underlying, 21);
    FitKeepsText(d.strikePriceCurrency, 4);
    hide Fit, CutNul;
  }

  /** Every upgrade keeps the record: its header's publisher, instrument and event
      time, each timestamp, price and number under its own name, each text, and
      the send timestamp behind it. */
  lemma UpgradeKeepsRecord(version: u8, policy: UpgradePolicy, tsOut: bool, r: Rec)
    requires Conforms(version, tsOut, r)
    ensures Kept(r.body, DecodeRecordCompat(version, policy, r).body)
    ensures DecodeRecordCompat(version, policy, r).tsOut == r.tsOut
  {
    hide *;
    match r.body
    case IsDefV1(_) => DefinitionKept(version, policy, tsOut, r);
    case IsDefV2(_) => DefinitionKept(version, policy, tsOut, r);
    case IsErrorV1(_) => ErrorRecordKept(version, policy, tsOut, r);
    case IsSystemV1(_) => SystemRecordKept(version, policy, tsOut, r);
    case IsMappingV1(_) => MappingRecordKept(version, policy, tsOut, r);
    case _ => OtherKept(version, policy, tsOut, r);
  }

  lemma DefinitionKept(version: u8, policy: UpgradePolicy, tsOut: bool, r: Rec)
    requires Conforms(version, tsOut, r) && (r.body.IsDefV1? || r.body.IsDefV2?)
    ensures Kept(r.body, DecodeRecordCompat(version, policy, r).body)
    ensures DecodeRecordCompat(version, policy, r).tsOut == r.tsOut
  {
    hide DefV1.ToV2, DefV1.ToV3, DefV2.ToV3, DefV1.Arrays, DefV2.Arrays, DefV3.Arrays, Def12Kept, Def13Kept,
      Def23Kept, NoLegs;
    if r.body.IsDefV1? {
      Def12Keeps(r.body.defV1, (SIZE_DEF_V2 + 8) / 4);
      Def13Keeps(r.body.defV1, (SIZE_DEF_V3 + 8) / 4);
    } else {
      Def23Keeps(r.body.defV2, (SIZE_DEF_V3 + 8) / 4);
    }
  }

  lemma ErrorRecordKept(version: u8, policy: UpgradePolicy, tsOut: bool, r: Rec)
    requires Conforms(version, tsOut, r) && r.body.IsErrorV1?
    ensures Kept(r.body, DecodeRecordCompat(version, policy, r).body)
    ensures DecodeRecordCompat(version, policy, r).tsOut == r.tsOut
  {
    FitKeepsText(r.body.errorV1.err, 302);
    ErrorCodeHere(r.body.errorV1);
    hide Fit, TextKept, CutNul, FindNul, ErrorCodeIs, ErrorCode;
  }

  lemma SystemRecordKept(version: u8, policy: UpgradePolicy, tsOut: bool, r: Rec)
    requires Conforms(version, tsOut, r) && r.body.IsSystemV1?
    ensures Kept(r.body, DecodeRecordCompat(version, policy, r).body)
    ensures DecodeRecordCompat(version, policy, r).tsOut == r.tsOut
  {
    FitKeepsText(r.body.systemV1.msg, 303);
    SystemCodeHere(r.body.systemV1);
    hide Fit, TextKept, CutNul, FindNul, SystemCodeIs, SystemCode;
  }

  lemma MappingRecordKept(version: u8, policy: UpgradePolicy, tsOut: bool, r: Rec)
    requires Conforms(version, tsOut, r) && r.body.IsMappingV1?
    ensures Kept(r.body, DecodeRecordCompat(version, policy, r).body)
    ensures DecodeRecordCompat(version, policy, r).tsOut == r.tsOut
  {
    FitKeepsText(r.body.mappingV1.stypeInSymbol, 71);
    FitKeepsText(r.body.mappingV1.stypeOutSymbol, 71);
    hide Fit, TextKept, CutNul, FindNul;
  }

  lemma OtherKept(version: u8, policy: UpgradePolicy, tsOut: bool, r: Rec)
    requires Conforms(version, tsOut, r)
    requires !(r.body.IsDefV1? || r.body.IsDefV2? || r.body.IsErrorV1? || r.body.IsSystemV1? || r.body.IsMappingV1?)
    ensures Kept(r.body, DecodeRecordCompat(version, policy, r).body)
    ensures DecodeRecordCompat(version, policy, r).tsOut == r.tsOut
  {
    hide DefV3.Arrays;
  }

  /** The record types by number and the sizes of their structs. */
  predicate Sized(b: Body, size: nat) {
    var rtype := HeaderOf(b).rtype;
    match b
    case IsDefV1(_) => rtype == 0x13 && size == 360
    case IsDefV2(_) => rtype == 0x13 && size == 400
    case IsDefV3(_) => rtype == 0x13 && size == 520
    case IsErrorV1(_) => rtype == 0x15 && size == 80
    case IsErrorV2(_) => rtype == 0x15 && size == 320
    case IsMappingV1(_) => rtype == 0x16 && size == 80
    case IsMappingV2(_) => rtype == 0x16 && size == 176
    case IsSystemV1(_) => rtype == 0x17 && size == 80
    case IsSystemV2(_) => rtype == 0x17 && size == 320
    case IsStatV1(_) => rtype == 0x18 && size == 64
    case IsStatV3(_) => rtype == 0x18 && size == 80
    case IsOther(_, payload) => size == 16 + |payload|
  }

  /** Upgraded or not, a record's header counts its struct and the send timestamp
      behind it in 4-byte words. */
  lemma UpgradeCountsSize(version: u8, policy: UpgradePolicy, tsOut: bool, r: Rec)
    requires Conforms(version, tsOut, r)
    ensures var u := DecodeRecordCompat(version, policy, r);
            var counted := 4 * HeaderOf(u.body).length as int - (if tsOut then 8 else 0);
            counted >= 0 && Sized(u.body, counted)
  {
    UpgradeConforms(version, policy, tsOut, r);
    ConformingSize(TargetVersion(version, policy), tsOut, DecodeRecordCompat(version, policy, r));
    hide *;
  }

  lemma ConformingSize(version: u8, tsOut: bool, r: Rec)
    requires Conforms(version, tsOut, r)
    ensures var counted := 4 * HeaderOf(r.body).length as int - (if tsOut then 8 else 0);
            counted >= 0 && Sized(r.body, counted)
  {
    hide DefV1.Arrays, DefV2.Arrays, DefV3.Arrays;
  }

  /** The metadata of an upgraded stream say what its records are: the version
      they were brought to, and with it the symbol width of that version. */
  lemma MetadataMatchRecords(m: Metadata, policy: UpgradePolicy)
    ensures var u := Upgrade(m, policy);
            && u.version == TargetVersion(m.version, policy)
            && u.version == (match policy
                             case AsIs => m.version
                             case UpgradeToV2 => Max(2, m.version)
                             case UpgradeToV3 => Max(3, m.version))
            && u == m.(version := u.version, symbolCstrLen := if u.version == m.version then m.symbolCstrLen else 71)
            && (u == m <==> !NeedsUpgrade(policy, m.version))
  {
  }
}
