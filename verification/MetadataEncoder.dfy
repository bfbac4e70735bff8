/** Writing DBN metadata: the bytes as a function of the metadata, the writer
    that emits them step by step, and the length it declares up front. */
module MetadataEncoding {
  import opened Bytes
  import opened Constants
  import opened Metadatas

  // ----- the encoding as a function -----

  function CStr(width: nat, s: bytes): (b: bytes)
    requires |s| < width
    ensures |b| == width
  {
    s + Zeros(width - |s|)
  }

  predicate AllShorter(width: nat, xs: seq<bytes>) {
    forall x <- xs :: |x| < width
  }

  predicate MappingFits(width: nat, m: Mapping) {
    |m.rawSymbol| < width && forall iv <- m.intervals :: |iv.symbol| < width
  }

  /** The metadata `EncodeMetadata` accepts. */
  predicate Encodable(m: Metadata) {
    && m.version <= DBN_VERSION
    && |m.dataset| < DATASET_CSTR_LEN
    && AllShorter(m.symbolCstrLen, m.symbols)
    && AllShorter(m.symbolCstrLen, m.partial)
    && AllShorter(m.symbolCstrLen, m.notFound)
    && forall x <- m.mappings :: MappingFits(m.symbolCstrLen, x)
  }

  function CStrs(width: nat, xs: seq<bytes>): bytes
    requires AllShorter(width, xs)
  {
    if xs == [] then [] else CStr(width, xs[0]) + CStrs(width, xs[1..])
  }

  function RepeatedCStr(width: nat, xs: seq<bytes>): bytes
    requires AllShorter(width, xs)
  {
    Le(|xs|, 4) + CStrs(width, xs)
  }

  function IntervalBytes(width: nat, iv: Interval): (b: bytes)
    requires |iv.symbol| < width
    ensures |b| == 8 + width
  {
    Le(EncodeDate(iv.startDate), 4) + (Le(EncodeDate(iv.endDate), 4) + CStr(width, iv.symbol))
  }

  function IntervalsBytes(width: nat, ivs: seq<Interval>): bytes
    requires forall iv <- ivs :: |iv.symbol| < width
  {
    if ivs == [] then [] else IntervalBytes(width, ivs[0]) + IntervalsBytes(width, ivs[1..])
  }

  function MappingBytes(width: nat, m: Mapping): bytes
    requires MappingFits(width, m)
  {
    CStr(width, m.rawSymbol) + (Le(|m.intervals|, 4) + IntervalsBytes(width, m.intervals))
  }

  function MappingsBytes(width: nat, ms: seq<Mapping>): bytes
    requires forall m <- ms :: MappingFits(width, m)
  {
    if ms == [] then [] else MappingBytes(width, ms[0]) + MappingsBytes(width, ms[1..])
  }

  function WireVersion(m: Metadata): u8 {
    if m.version == 0 then 1 else m.version
  }

  function NumericFields(m: Metadata): (b: bytes)
    ensures |b| == 26
  {
    Le(if m.schema.Some? then m.schema.value else NULL_SCHEMA, 2) + (Le(m.start, 8) + (Le(m.end, 8) + Le(m.limit, 8)))
  }

  function TypeFields(m: Metadata): (b: bytes)
    ensures |b| == if WireVersion(m) == 1 then 11 else 5
  {
    (if WireVersion(m) == 1 then Le(NULL_RECORD_COUNT, 8) else [])
    + ([if m.stypeIn.Some? then m.stypeIn.value else NULL_STYPE, m.stypeOut, if m.tsOut then 1 else 0]
       + (if WireVersion(m) > 1 then Le(m.symbolCstrLen, 2) else []))
  }

  /** The reserved bytes and the empty schema definition. */
  function ReservedLength(m: Metadata): nat {
    (if WireVersion(m) == 1 then METADATA_RESERVED_LEN_V1 else METADATA_RESERVED_LEN) + 4
  }

  function FixedFields(m: Metadata): (b: bytes)
    requires |m.dataset| < DATASET_CSTR_LEN
    ensures |b| == 104
  {
    CStr(DATASET_CSTR_LEN, m.dataset) + (NumericFields(m) + (TypeFields(m) + Zeros(ReservedLength(m))))
  }

  function VariableFields(m: Metadata): bytes
    requires Encodable(m)
  {
    RepeatedCStr(m.symbolCstrLen, m.symbols)
    + (RepeatedCStr(m.symbolCstrLen, m.partial)
       + (RepeatedCStr(m.symbolCstrLen, m.notFound)
          + (Le(|m.mappings|, 4) + MappingsBytes(m.symbolCstrLen, m.mappings))))
  }

  function MappingsLength(width: nat, ms: seq<Mapping>): nat {
    if ms == [] then 0
    else width + 4 + |ms[0].intervals| * (8 + width) + MappingsLength(width, ms[1..])
  }

  /** The frame length before truncation to 32 bits. */
  function NeededLength(m: Metadata): nat {
    FIXED_METADATA_LEN + 4 * 5
    + (|m.symbols| + |m.partial| + |m.notFound|) * m.symbolCstrLen
    + MappingsLength(m.symbolCstrLen, m.mappings)
  }

  /** The declared frame length and the padding at its end. */
  function CalcLength(m: Metadata): (u32, u32) {
    var needed := NeededLength(m) % 0x1_0000_0000;
    var rem := needed % 8;
    if m.version < 3 || rem == 0 then (needed, 0)
    else ((needed + (8 - rem)) % 0x1_0000_0000, 8 - rem)
  }

  function Body(m: Metadata): bytes
    requires Encodable(m)
  {
    FixedFields(m) + (VariableFields(m) + Zeros(CalcLength(m).1))
  }

  function Prelude(m: Metadata): (p: bytes)
    ensures |p| == 8
  {
    DBN_PREFIX + [WireVersion(m)] + Le(CalcLength(m).0, 4)
  }

  function Encode(m: Metadata): bytes
    requires Encodable(m)
  {
    Prelude(m) + Body(m)
  }

  // ----- the declared length is the length written -----

  lemma {:induction false} CStrsLength(width: nat, xs: seq<bytes>)
    requires AllShorter(width, xs)
    ensures |CStrs(width, xs)| == |xs| * width
  {
    if xs == [] {
    } else {
      CStrsLength(width, xs[1..]);
      MulPred(|xs|, width);
    }
  }

  lemma {:induction false} IntervalsLength(width: nat, ivs: seq<Interval>)
    requires forall iv <- ivs :: |iv.symbol| < width
    ensures |IntervalsBytes(width, ivs)| == |ivs| * (8 + width)
  {
    if ivs == [] {
    } else {
      IntervalsLength(width, ivs[1..]);
      MulPred(|ivs|, 8 + width);
    }
  }

  lemma {:induction false} MappingsBytesLength(width: nat, ms: seq<Mapping>)
    requires forall m <- ms :: MappingFits(width, m)
    ensures |MappingsBytes(width, ms)| == MappingsLength(width, ms)
  {
    if ms == [] {
    } else {
      assert MappingFits(width, ms[0]);
      IntervalsLength(width, ms[0].intervals);
      MappingsBytesLength(width, ms[1..]);
    }
  }

  lemma VariableFieldsLength(m: Metadata)
    requires Encodable(m)
    ensures 104 + |VariableFields(m)| == NeededLength(m)
  {
    hide CStrs, MappingsBytes, MappingsLength, Le;
    var w := m.symbolCstrLen;
    CStrsLength(w, m.symbols);
    CStrsLength(w, m.partial);
    CStrsLength(w, m.notFound);
    MappingsBytesLength(w, m.mappings);
    assert (|m.symbols| + |m.partial| + |m.notFound|) * w == |m.symbols| * w + |m.partial| * w + |m.notFound| * w;
  }

  /** The writer emits exactly the prelude and the declared length, unless the
      frame is too long for a 32-bit length. In version 3 the frame is padded by
      less than 8 bytes to a multiple of 8. */
  lemma DeclaredLengthExact(m: Metadata)
    requires Encodable(m)
    ensures |Encode(m)| == 8 + CalcLength(m).0 <==> NeededLength(m) + CalcLength(m).1 < 0x1_0000_0000
    ensures CalcLength(m).1 < 8
    ensures m.version == 3 ==> |Encode(m)| % 8 == 0 && CalcLength(m).0 % 8 == 0
    ensures m.version < 3 ==> CalcLength(m).1 == 0
  {
    EncodedLength(m);
    PaddedLength(m);
    TruncationIsExact(NeededLength(m) + CalcLength(m).1, |Encode(m)|);
  }

  lemma TruncationIsExact(total: nat, written: nat)
    requires written == 8 + total
    ensures written == 8 + total % 0x1_0000_0000 <==> total < 0x1_0000_0000
    ensures total % 8 == 0 ==> written % 8 == 0
  {
  }

  lemma EncodedLength(m: Metadata)
    requires Encodable(m)
    ensures |Encode(m)| == 8 + NeededLength(m) + CalcLength(m).1
  {
    VariableFieldsLength(m);
    var fixedPart, variable, padding := FixedFields(m), VariableFields(m), Zeros(CalcLength(m).1);
    assert Encode(m) == Prelude(m) + (fixedPart + (variable + padding));
  }

  lemma PaddedLength(m: Metadata)
    ensures var needed := NeededLength(m); var (length, pad) := CalcLength(m);
            && length == (needed + pad) % 0x1_0000_0000 && pad < 8
            && (m.version >= 3 ==> (needed + pad) % 8 == 0 && length % 8 == 0)
            && (m.version < 3 ==> pad == 0)
  {
    PadTo8(NeededLength(m));
  }

  lemma PadTo8(needed: nat)
    ensures var low := needed % 0x1_0000_0000; var rem := low % 8;
            && rem == needed % 8
            && (rem != 0 ==> (needed + (8 - rem)) % 8 == 0)
            && (rem != 0 ==> (low + (8 - rem)) % 0x1_0000_0000 == (needed + (8 - rem)) % 0x1_0000_0000)
            && (rem != 0 ==> (low + (8 - rem)) % 0x1_0000_0000 % 8 == 0)
  {
    var high := needed / 0x1_0000_0000;
    var low := needed % 0x1_0000_0000;
    var rem, eighth := low % 8, low / 8;
    assert needed == high * 0x1_0000_0000 + low;
    assert low == 8 * eighth + rem;
    assert needed == 8 * (high * 0x2000_0000 + eighth) + rem;
    RemainderIs(needed, 8, high * 0x2000_0000 + eighth, rem);
    var up := 8 * (eighth + 1);
    assert up <= 0x1_0000_0000;
    RemainderIs(8 * (high * 0x2000_0000 + eighth + 1), 8, high * 0x2000_0000 + eighth + 1, 0);
    if up < 0x1_0000_0000 {
      RemainderIs(high * 0x1_0000_0000 + up, 0x1_0000_0000, high, up);
      RemainderIs(up, 8, eighth + 1, 0);
    } else {
      RemainderIs((high + 1) * 0x1_0000_0000, 0x1_0000_0000, high + 1, 0);
    }
  }

  lemma RemainderIs(n: int, unit: int, q: int, r: int)
    requires unit == 8 || unit == 0x1_0000_0000
    requires n == q * unit + r && 0 <= r < unit
    ensures n % unit == r
  {
  }

  // ----- the writer -----

  /** An `IWritable`: something that takes bytes in order. */
  class Sink {
    var contents: bytes

    constructor ()
      ensures contents == []
    {
      contents := [];
    }

    method WriteAll(data: bytes)
      modifies this
      ensures contents == old(contents) + data
    {
      contents := contents + data;
    }
  }

  datatype EncodeStatus = Encoded | VersionTooNew | StringTooLong

  method EncodeFixedLenCStr(width: nat, s: bytes, output: Sink) returns (ok: bool)
    modifies output
    ensures ok <==> |s| < width
    ensures output.contents == old(output.contents) + if ok then CStr(width, s) else []
  {
    if |s| >= width {
      return false;
    }
    output.WriteAll(s);
    output.WriteAll(Zeros(width - |s|));
    return true;
  }

  lemma NoCStrs(width: nat)
    ensures CStrs(width, []) == []
  {
  }

  lemma NoIntervals(width: nat)
    ensures IntervalsBytes(width, []) == []
  {
  }

  lemma NoMappings(width: nat)
    ensures MappingsBytes(width, []) == []
  {
  }

  lemma CStrsSnoc(width: nat, xs: seq<bytes>, x: bytes)
    requires AllShorter(width, xs) && |x| < width
    ensures AllShorter(width, xs + [x])
    ensures CStrs(width, xs + [x]) == CStrs(width, xs) + CStr(width, x)
  {
    if xs == [] {
      assert CStrs(width, [x]) == CStr(width, x) + CStrs(width, []);
    } else {
      assert (xs + [x])[1..] == xs[1..] + [x];
      CStrsSnoc(width, xs[1..], x);
    }
  }

  method EncodeRepeatedSymbolCStr(width: nat, xs: seq<bytes>, output: Sink) returns (ok: bool)
    modifies output
    ensures ok <==> AllShorter(width, xs)
    ensures ok ==> output.contents == old(output.contents) + RepeatedCStr(width, xs)
    ensures old(output.contents) <= output.contents
  {
    output.WriteAll(Le(|xs|, 4));
    ok := EncodeCStrList(width, xs, output);
  }

  method EncodeCStrList(width: nat, xs: seq<bytes>, output: Sink) returns (ok: bool)
    modifies output
    ensures ok <==> AllShorter(width, xs)
    ensures ok ==> output.contents == old(output.contents) + CStrs(width, xs)
    ensures old(output.contents) <= output.contents
  {
    hide CStrs, CStr;
    NoCStrs(width);
    var i := 0;
    while i < |xs|
      invariant 0 <= i <= |xs|
      invariant AllShorter(width, xs[..i])
      invariant output.contents == old(output.contents) + CStrs(width, xs[..i])
    {
      ok := EncodeFixedLenCStr(width, xs[i], output);
      if !ok {
        return false;
      }
      CStrsSnoc(width, xs[..i], xs[i]);
      assert xs[..i] + [xs[i]] == xs[..i + 1];
      i := i + 1;
    }
    assert xs[..i] == xs;
    return true;
  }

  lemma IntervalsSnoc(width: nat, ivs: seq<Interval>, iv: Interval)
    requires (forall x <- ivs :: |x.symbol| < width) && |iv.symbol| < width
    ensures IntervalsBytes(width, ivs + [iv]) == IntervalsBytes(width, ivs) + IntervalBytes(width, iv)
  {
    if ivs == [] {
      assert IntervalsBytes(width, [iv]) == IntervalBytes(width, iv) + IntervalsBytes(width, []);
    } else {
      assert (ivs + [iv])[1..] == ivs[1..] + [iv];
      IntervalsSnoc(width, ivs[1..], iv);
    }
  }

  lemma MappingsSnoc(width: nat, ms: seq<Mapping>, m: Mapping)
    requires (forall x <- ms :: MappingFits(width, x)) && MappingFits(width, m)
    ensures MappingsBytes(width, ms + [m]) == MappingsBytes(width, ms) + MappingBytes(width, m)
  {
    if ms == [] {
      assert MappingsBytes(width, [m]) == MappingBytes(width, m) + MappingsBytes(width, []);
    } else {
      assert (ms + [m])[1..] == ms[1..] + [m];
      MappingsSnoc(width, ms[1..], m);
    }
  }

  method EncodeInterval(width: nat, iv: Interval, output: Sink) returns (ok: bool)
    modifies output
    ensures ok <==> |iv.symbol| < width
    ensures ok ==> output.contents == old(output.contents) + IntervalBytes(width, iv)
    ensures old(output.contents) <= output.contents
  {
    output.WriteAll(Le(EncodeDate(iv.startDate), 4));
    output.WriteAll(Le(EncodeDate(iv.endDate), 4));
    ok := EncodeFixedLenCStr(width, iv.symbol, output);
    if ok {
      Append3(old(output.contents), Le(EncodeDate(iv.startDate), 4), Le(EncodeDate(iv.endDate), 4),
          CStr(width, iv.symbol));
    }
  }

  method EncodeIntervals(width: nat, ivs: seq<Interval>, output: Sink) returns (ok: bool)
    modifies output
    ensures ok <==> forall iv <- ivs :: |iv.symbol| < width
    ensures ok ==> output.contents == old(output.contents) + IntervalsBytes(width, ivs)
    ensures old(output.contents) <= output.contents
  {
    hide IntervalsBytes, IntervalBytes;
    NoIntervals(width);
    var i := 0;
    while i < |ivs|
      invariant 0 <= i <= |ivs|
      invariant forall iv <- ivs[..i] :: |iv.symbol| < width
      invariant output.contents == old(output.contents) + IntervalsBytes(width, ivs[..i])
    {
      ok := EncodeInterval(width, ivs[i], output);
      if !ok {
        return false;
      }
      IntervalsSnoc(width, ivs[..i], ivs[i]);
      assert ivs[..i] + [ivs[i]] == ivs[..i + 1];
      i := i + 1;
    }
    assert ivs[..i] == ivs;
    return true;
  }

  method EncodeSymbolMapping(width: nat, m: Mapping, output: Sink) returns (ok: bool)
    modifies output
    ensures ok <==> MappingFits(width, m)
    ensures ok ==> output.contents == old(output.contents) + MappingBytes(width, m)
    ensures old(output.contents) <= output.contents
  {
    ok := EncodeFixedLenCStr(width, m.rawSymbol, output);
    if !ok {
      return false;
    }
    output.WriteAll(Le(|m.intervals|, 4));
    ok := EncodeIntervals(width, m.intervals, output);
    if ok {
      Append3(old(output.contents), CStr(width, m.rawSymbol), Le(|m.intervals|, 4), IntervalsBytes(width, m.intervals));
    }
  }

  method EncodeSymbolMappings(width: nat, ms: seq<Mapping>, output: Sink) returns (ok: bool)
    modifies output
    ensures ok <==> forall m <- ms :: MappingFits(width, m)
    ensures ok ==> output.contents == old(output.contents) + (Le(|ms|, 4) + MappingsBytes(width, ms))
    ensures old(output.contents) <= output.contents
  {
    output.WriteAll(Le(|ms|, 4));
    ok := EncodeMappingList(width, ms, output);
  }

  method EncodeMappingList(width: nat, ms: seq<Mapping>, output: Sink) returns (ok: bool)
    modifies output
    ensures ok <==> forall m <- ms :: MappingFits(width, m)
    ensures ok ==> output.contents == old(output.contents) + MappingsBytes(width, ms)
    ensures old(output.contents) <= output.contents
  {
    hide MappingsBytes, MappingBytes;
    NoMappings(width);
    var i := 0;
    while i < |ms|
      invariant 0 <= i <= |ms|
      invariant forall m <- ms[..i] :: MappingFits(width, m)
      invariant output.contents == old(output.contents) + MappingsBytes(width, ms[..i])
    {
      ok := EncodeSymbolMapping(width, ms[i], output);
      if !ok {
        return false;
      }
      MappingsSnoc(width, ms[..i], ms[i]);
      assert ms[..i] + [ms[i]] == ms[..i + 1];
      i := i + 1;
    }
    assert ms[..i] == ms;
    return true;
  }

  method EncodeNumericFields(m: Metadata, output: Sink)
    modifies output
    ensures output.contents == old(output.contents) + NumericFields(m)
  {
    output.WriteAll(Le(if m.schema.Some? then m.schema.value else NULL_SCHEMA, 2));
    output.WriteAll(Le(m.start, 8));
    output.WriteAll(Le(m.end, 8));
    output.WriteAll(Le(m.limit, 8));
    Append4(old(output.contents), Le(if m.schema.Some? then m.schema.value else NULL_SCHEMA, 2), Le(m.start, 8),
        Le(m.end, 8), Le(m.limit, 8));
  }

  method EncodeTypeFields(m: Metadata, output: Sink)
    modifies output
    ensures output.contents == old(output.contents) + TypeFields(m)
  {
    var version := WireVersion(m);
    if version == 1 {
      output.WriteAll(Le(NULL_RECORD_COUNT, 8));
    }
    output.WriteAll([if m.stypeIn.Some? then m.stypeIn.value else NULL_STYPE]);
    output.WriteAll([m.stypeOut]);
    output.WriteAll([if m.tsOut then 1 else 0]);
    if version > 1 {
      output.WriteAll(Le(m.symbolCstrLen, 2));
    }
  }

  method EncodeFixedFields(m: Metadata, output: Sink) returns (ok: bool)
    modifies output
    ensures ok <==> |m.dataset| < DATASET_CSTR_LEN
    ensures output.contents == old(output.contents) + if ok then FixedFields(m) else []
  {
    ok := EncodeFixedLenCStr(DATASET_CSTR_LEN, m.dataset, output);
    if !ok {
      return false;
    }
    EncodeNumericFields(m, output);
    EncodeTypeFields(m, output);
    output.WriteAll(Zeros(ReservedLength(m)));
    Append4(old(output.contents), CStr(DATASET_CSTR_LEN, m.dataset), NumericFields(m), TypeFields(m),
        Zeros(ReservedLength(m)));
    return true;
  }

  method EncodeVariableFields(m: Metadata, output: Sink) returns (ok: bool)
    requires m.version <= DBN_VERSION && |m.dataset| < DATASET_CSTR_LEN
    modifies output
    ensures ok <==> Encodable(m)
    ensures ok ==> output.contents == old(output.contents) + VariableFields(m)
    ensures old(output.contents) <= output.contents
  {
    ok := EncodeRepeatedSymbolCStr(m.symbolCstrLen, m.symbols, output);
    if !ok {
      return false;
    }
    ok := EncodeRepeatedSymbolCStr(m.symbolCstrLen, m.partial, output);
    if !ok {
      return false;
    }
    ok := EncodeRepeatedSymbolCStr(m.symbolCstrLen, m.notFound, output);
    if !ok {
      return false;
    }
    ok := EncodeSymbolMappings(m.symbolCstrLen, m.mappings, output);
    if ok {
      Append4(old(output.contents), RepeatedCStr(m.symbolCstrLen, m.symbols), RepeatedCStr(m.symbolCstrLen, m.partial),
              RepeatedCStr(m.symbolCstrLen, m.notFound),
              Le(|m.mappings|, 4) + MappingsBytes(m.symbolCstrLen, m.mappings));
    }
  }

  method EncodePrelude(m: Metadata, output: Sink) returns (endPadding: u32)
    modifies output
    ensures endPadding == CalcLength(m).1
    ensures output.contents == old(output.contents) + Prelude(m)
  {
    output.WriteAll(DBN_PREFIX);
    output.WriteAll([WireVersion(m)]);
    var (length, padding) := CalcLength(m);
    output.WriteAll(Le(length, 4));
    return padding;
  }

  /** Writes the frame, or stops at the first string that does not fit. */
  method EncodeMetadata(m: Metadata, output: Sink) returns (status: EncodeStatus)
    modifies output
    ensures status.Encoded? <==> Encodable(m)
    ensures status.VersionTooNew? <==> m.version > DBN_VERSION
    ensures status.Encoded? ==> output.contents == old(output.contents) + Encode(m)
    ensures status.VersionTooNew? ==> output.contents == old(output.contents)
    ensures old(output.contents) <= output.contents
  {
    if m.version > DBN_VERSION {
      return VersionTooNew;
    }
    var endPadding := EncodePrelude(m, output);
    var ok := EncodeFixedFields(m, output);
    if !ok {
      return StringTooLong;
    }
    ok := EncodeVariableFields(m, output);
    if !ok {
      return StringTooLong;
    }
    if endPadding > 0 {
      output.WriteAll(Zeros(endPadding));
    }
    Append4(old(output.contents), Prelude(m), FixedFields(m), VariableFields(m), Zeros(endPadding));
    return Encoded;
  }
}
