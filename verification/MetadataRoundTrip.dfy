/** What the decoder makes of an encoded frame, for every metadata the encoder
    accepts, and exactly which metadata come back unchanged. */
module MetadataRoundTrip {
  import opened Bytes
  import opened Constants
  import opened Metadatas
  import opened MetadataEncoding
  import opened MetadataDecoding

  // ----- the metadata that comes back -----

  function NormalizeInterval(iv: Interval): Interval {
    Interval(DecodeDate(EncodeDate(iv.startDate)), DecodeDate(EncodeDate(iv.endDate)), CutNul(iv.symbol))
  }

  function NormalizeIntervals(ivs: seq<Interval>): (r: seq<Interval>)
    ensures |r| == |ivs|
  {
    if ivs == [] then [] else [NormalizeInterval(ivs[0])] + NormalizeIntervals(ivs[1..])
  }

  function NormalizeMapping(m: Mapping): Mapping {
    Mapping(CutNul(m.rawSymbol), NormalizeIntervals(m.intervals))
  }

  function NormalizeMappings(ms: seq<Mapping>): (r: seq<Mapping>)
    ensures |r| == |ms|
  {
    if ms == [] then [] else [NormalizeMapping(ms[0])] + NormalizeMappings(ms[1..])
  }

  function NormalizeFixed(m: Metadata): Metadata {
    Metadata(WireVersion(m), CutNul(m.dataset),
             if m.schema == Some(NULL_SCHEMA) then None else m.schema,
             m.start, m.end, m.limit,
             if m.stypeIn == Some(NULL_STYPE) then None else m.stypeIn,
             m.stypeOut, m.tsOut, m.symbolCstrLen, [], [], [], [])
  }

  function Normalize(m: Metadata): Metadata {
    NormalizeFixed(m).(symbols := CutAll(m.symbols), partial := CutAll(m.partial),
                       notFound := CutAll(m.notFound), mappings := NormalizeMappings(m.mappings))
  }

  predicate WidthFits(m: Metadata) {
    if WireVersion(m) == 1 then m.symbolCstrLen == SYMBOL_CSTR_LEN_V1 else m.symbolCstrLen < 0x1_0000
  }

  predicate CountsFit(m: Metadata) {
    && |m.symbols| < 0x1_0000_0000 && |m.partial| < 0x1_0000_0000 && |m.notFound| < 0x1_0000_0000
    && |m.mappings| < 0x1_0000_0000
    && forall x <- m.mappings :: |x.intervals| < 0x1_0000_0000
  }

  // ----- each encoder is undone by its parser, whatever follows -----

  lemma LeBack(n: nat, width: nat, rest: bytes)
    requires n < Pow256(width)
    ensures var s := Le(n, width) + rest;
            |s| >= width && FromLe(s[..width]) == n && s[width..] == rest
  {
    FromLeOfLe(n, width);
    var s := Le(n, width) + rest;
    assert s[..width] == Le(n, width) && s[width..] == rest;
  }

  lemma U32Back(n: u32, rest: bytes)
    ensures var s := Le(n, 4) + rest;
            |s| >= 4 && FromLe(s[..4]) == n && s[4..] == rest && U32At(s, 0) == n
  {
    Pow256Values();
    LeBack(n, 4, rest);
    var s := Le(n, 4) + rest;
    assert s[0..4] == s[..4];
  }

  lemma CStrBack(width: nat, str: bytes, rest: bytes)
    requires |str| < width
    ensures var s := CStr(width, str) + rest;
            |s| >= width && ParseCStr(width, s) == Ok(Parsed(CutNul(str), rest))
  {
    var s := CStr(width, str) + rest;
    var field := s[..width];
    assert field == str + Zeros(width - |str|);
    assert s[width..] == rest;
    var n := FindNul(str);
    assert field[..n] == str[..n];
    FindNulIs(field, n);
  }

  lemma {:induction false} CStrsBack(width: nat, xs: seq<bytes>, rest: bytes)
    requires AllShorter(width, xs)
    ensures var s := CStrs(width, xs) + rest;
            |s| >= |xs| * width && ParseCStrs(width, |xs|, s) == Ok(Parsed(CutAll(xs), rest))
  {
    CStrsLength(width, xs);
    if xs == [] {
      assert [] + rest == rest;
    } else {
      var tail := CStrs(width, xs[1..]) + rest;
      var s := CStrs(width, xs) + rest;
      Regroup(CStr(width, xs[0]), CStrs(width, xs[1..]), rest);
      CStrBack(width, xs[0], tail);
      CStrsNext(width, |xs|, s);
      hide ParseCStrs, CStrs, ParseCStr, CStr;
      CStrsBack(width, xs[1..], rest);
      assert s[width..] == tail;
    }
  }

  lemma RepeatedBack(width: nat, xs: seq<bytes>, rest: bytes)
    requires AllShorter(width, xs) && |xs| < 0x1_0000_0000
    ensures ParseRepeated(width, RepeatedCStr(width, xs) + rest) == Ok(Parsed(CutAll(xs), rest))
  {
    hide CStrs, ParseCStrs, Le, FromLe, CutAll, AllShorter;
    var tail := CStrs(width, xs) + rest;
    assert RepeatedCStr(width, xs) == Le(|xs|, 4) + CStrs(width, xs);
    Regroup(Le(|xs|, 4), CStrs(width, xs), rest);
    U32Back(|xs|, tail);
    CStrsBack(width, xs, rest);
  }

  lemma IntervalBack(width: nat, iv: Interval, rest: bytes)
    requires |iv.symbol| < width
    ensures ParseInterval(width, IntervalBytes(width, iv) + rest) == Ok(Parsed(NormalizeInterval(iv), rest))
  {
    var s := IntervalBytes(width, iv) + rest;
    var a, b, c := Le(EncodeDate(iv.startDate), 4), Le(EncodeDate(iv.endDate), 4), CStr(width, iv.symbol);
    assert s == a + (b + (c + rest));
    U32Back(EncodeDate(iv.startDate), b + (c + rest));
    U32Back(EncodeDate(iv.endDate), c + rest);
    assert s[4..8] == (b + (c + rest))[0..4];
    assert s[8..] == c + rest;
    CStrBack(width, iv.symbol, rest);
  }

  lemma {:induction false} IntervalsBack(width: nat, ivs: seq<Interval>, rest: bytes)
    requires forall iv <- ivs :: |iv.symbol| < width
    ensures var s := IntervalsBytes(width, ivs) + rest;
            |s| >= |ivs| * (8 + width) && ParseIntervals(width, |ivs|, s) == Ok(Parsed(NormalizeIntervals(ivs), rest))
  {
    hide IntervalBytes, ParseInterval, NormalizeInterval;
    IntervalsLength(width, ivs);
    if ivs == [] {
      assert [] + rest == rest;
    } else {
      var tail := IntervalsBytes(width, ivs[1..]) + rest;
      var s := IntervalsBytes(width, ivs) + rest;
      Regroup(IntervalBytes(width, ivs[0]), IntervalsBytes(width, ivs[1..]), rest);
      IntervalBack(width, ivs[0], tail);
      IntervalsNext(width, |ivs|, s);
      hide ParseIntervals, IntervalsBytes;
      IntervalsBack(width, ivs[1..], rest);
      assert s[8 + width..] == tail;
    }
  }

  lemma IntervalsNext(width: nat, count: nat, s: bytes)
    requires 0 < count && count * (8 + width) <= |s|
    ensures 8 + width <= |s| && 0 <= (count - 1) * (8 + width) <= |s| - (8 + width)
    ensures var first := ParseInterval(width, s);
            ParseIntervals(width, count, s) ==
            if first.Err? then Err(first.error)
            else Prepend([first.value.value], ParseIntervals(width, count - 1, s[8 + width..]))
  {
    hide ParseInterval;
    DropOne(s, count, 8 + width);
  }

  lemma CStrsNext(width: nat, count: nat, s: bytes)
    requires 0 < count && count * width <= |s|
    ensures width <= |s| && 0 <= (count - 1) * width <= |s| - width
    ensures var first := ParseCStr(width, s);
            ParseCStrs(width, count, s) ==
            if first.Err? then Err(first.error)
            else Prepend([first.value.value], ParseCStrs(width, count - 1, s[width..]))
  {
    hide ParseCStr;
    DropOne(s, count, width);
  }

  lemma MappingBack(width: nat, m: Mapping, rest: bytes)
    requires MappingFits(width, m) && |m.intervals| < 0x1_0000_0000
    ensures ParseMapping(width, MappingBytes(width, m) + rest) == Ok(Parsed(NormalizeMapping(m), rest))
  {
    hide CStr, IntervalsBytes, ParseCStr, ParseIntervals;
    var ivs := IntervalsBytes(width, m.intervals) + rest;
    var tail := Le(|m.intervals|, 4) + ivs;
    assert MappingBytes(width, m) + rest == CStr(width, m.rawSymbol) + tail;
    CStrBack(width, m.rawSymbol, tail);
    U32Back(|m.intervals|, ivs);
    IntervalsBack(width, m.intervals, rest);
  }

  lemma {:induction false} MappingListBack(width: nat, ms: seq<Mapping>, rest: bytes)
    requires forall m <- ms :: MappingFits(width, m) && |m.intervals| < 0x1_0000_0000
    ensures ParseMappingList(width, |ms|, MappingsBytes(width, ms) + rest) == Ok(Parsed(NormalizeMappings(ms), rest))
  {
    hide MappingBytes, ParseMapping, NormalizeMapping;
    if ms == [] {
      assert [] + rest == rest;
    } else {
      var tail := MappingsBytes(width, ms[1..]) + rest;
      assert MappingsBytes(width, ms) + rest == MappingBytes(width, ms[0]) + tail;
      MappingBack(width, ms[0], tail);
      MappingListBack(width, ms[1..], rest);
    }
  }

  lemma MappingsBack(width: nat, ms: seq<Mapping>, rest: bytes)
    requires forall m <- ms :: MappingFits(width, m) && |m.intervals| < 0x1_0000_0000
    requires |ms| < 0x1_0000_0000
    ensures ParseMappings(width, (Le(|ms|, 4) + MappingsBytes(width, ms)) + rest) ==
              Ok(Parsed(NormalizeMappings(ms), rest))
  {
    hide MappingsBytes, ParseMappingList;
    var tail := MappingsBytes(width, ms) + rest;
    assert (Le(|ms|, 4) + MappingsBytes(width, ms)) + rest == Le(|ms|, 4) + tail;
    U32Back(|ms|, tail);
    MappingListBack(width, ms, rest);
  }

  lemma VariableBack(m: Metadata, fixedPart: Metadata, rest: bytes)
    requires Encodable(m) && CountsFit(m)
    requires fixedPart.symbolCstrLen == m.symbolCstrLen
    ensures ParseVariable(fixedPart, VariableFields(m) + rest) ==
            Ok(Parsed(fixedPart.(symbols := CutAll(m.symbols), partial := CutAll(m.partial),
                                 notFound := CutAll(m.notFound), mappings := NormalizeMappings(m.mappings)), rest))
  {
    hide RepeatedCStr, ParseRepeated, ParseMappings, MappingsBytes, Le, CutAll, NormalizeMappings, CountsFit, Encodable;
    var w := m.symbolCstrLen;
    VariablePieces(m);
    var a, b, c := RepeatedCStr(w, m.symbols), RepeatedCStr(w, m.partial), RepeatedCStr(w, m.notFound);
    var d := Le(|m.mappings|, 4) + MappingsBytes(w, m.mappings);
    assert VariableFields(m) + rest == a + (b + (c + (d + rest))) by {
      Append3(a, b, c, d + rest);
      assert VariableFields(m) == a + (b + (c + d));
      assert (a + (b + (c + d))) + rest == a + ((b + (c + d)) + rest);
      assert (b + (c + d)) + rest == b + ((c + d) + rest);
      assert (c + d) + rest == c + (d + rest);
    }
    RepeatedBack(w, m.symbols, b + (c + (d + rest)));
    RepeatedBack(w, m.partial, c + (d + rest));
    RepeatedBack(w, m.notFound, d + rest);
    MappingsBack(w, m.mappings, rest);
  }

  lemma VariablePieces(m: Metadata)
    requires Encodable(m) && CountsFit(m)
    ensures AllShorter(m.symbolCstrLen, m.symbols) && |m.symbols| < 0x1_0000_0000
    ensures AllShorter(m.symbolCstrLen, m.partial) && |m.partial| < 0x1_0000_0000
    ensures AllShorter(m.symbolCstrLen, m.notFound) && |m.notFound| < 0x1_0000_0000
    ensures forall x <- m.mappings :: MappingFits(m.symbolCstrLen, x) && |x.intervals| < 0x1_0000_0000
    ensures |m.mappings| < 0x1_0000_0000
  {
  }

  // ----- the fixed fields -----

  lemma {:induction false} FromLeZeros(z: bytes)
    requires forall i :: 0 <= i < |z| ==> z[i] == 0
    ensures FromLe(z) == 0
  {
    if z == [] {
    } else {
      FromLeZeros(z[1..]);
    }
  }

  lemma NumericBack(m: Metadata, s: bytes)
    requires |s| >= 42 && s[16..42] == NumericFields(m)
    ensures U16At(s, 16) == if m.schema.Some? then m.schema.value else NULL_SCHEMA
    ensures U64At(s, 18) == m.start && U64At(s, 26) == m.end && U64At(s, 34) == m.limit
  {
    var schema: u16 := if m.schema.Some? then m.schema.value else NULL_SCHEMA;
    var a, b, c, d := Le(schema, 2), Le(m.start, 8), Le(m.end, 8), Le(m.limit, 8);
    var n := NumericFields(m);
    assert n == a + (b + (c + d));
    hide Le, NumericFields;
    Fields4(n, a, b, c, d);
    Slice(s, 16, 42, 0, 2);
    Slice(s, 16, 42, 2, 10);
    Slice(s, 16, 42, 10, 18);
    Slice(s, 16, 42, 18, 26);
    Pow256Values();
    FromLeOfLe(schema, 2);
    FromLeOfLe(m.start, 8);
    FromLeOfLe(m.end, 8);
    FromLeOfLe(m.limit, 8);
  }

  /** The bytes of the type fields, behind the record count of version 1. */
  lemma TypeBytes(m: Metadata)
    requires WireVersion(m) >= 1
    ensures var t := TypeFields(m); var q := if WireVersion(m) == 1 then 8 else 0;
            && q + 3 <= |t|
            && t[q] == (if m.stypeIn.Some? then m.stypeIn.value else NULL_STYPE)
            && t[q + 1] == m.stypeOut && t[q + 2] == (if m.tsOut then 1 else 0)
            && (WireVersion(m) > 1 ==> |t| == 5 && t[3..5] == Le(m.symbolCstrLen, 2))
  {
    hide Le;
    var ids: bytes :=
      [if m.stypeIn.Some? then m.stypeIn.value else NULL_STYPE, m.stypeOut, if m.tsOut then 1 else 0];
    if WireVersion(m) == 1 {
      assert TypeFields(m) == Le(NULL_RECORD_COUNT, 8) + (ids + []);
    } else {
      var w := Le(m.symbolCstrLen, 2);
      assert TypeFields(m) == [] + (ids + w);
      Halves(ids, w);
      assert [] + (ids + w) == ids + w;
      assert (ids + w)[3..5] == (ids + w)[3..];
    }
  }

  lemma InSlice(s: bytes, k: nat, n: nat, i: nat)
    requires k + n <= |s| && i < n
    ensures s[k..k + n][i] == s[k + i]
  {
  }

  lemma TypeBack(m: Metadata, s: bytes)
    requires |s| >= 104 && 1 <= WireVersion(m) && WidthFits(m)
    requires s[42..42 + |TypeFields(m)|] == TypeFields(m)
    ensures var v := WireVersion(m); var p := TypeOffset(v);
            && s[p] == (if m.stypeIn.Some? then m.stypeIn.value else NULL_STYPE)
            && s[p + 1] == m.stypeOut && s[p + 2] == (if m.tsOut then 1 else 0)
            && (v > 1 ==> U16At(s, p + 3) == m.symbolCstrLen)
  {
    hide TypeFields, Le, FromLe, Pow256;
    var n, q := |TypeFields(m)|, if WireVersion(m) == 1 then 8 else 0;
    TypeBytes(m);
    InSlice(s, 42, n, q);
    InSlice(s, 42, n, q + 1);
    InSlice(s, 42, n, q + 2);
    if WireVersion(m) > 1 {
      Slice(s, 42, 47, 3, 5);
      Pow256Values();
      FromLeOfLe(m.symbolCstrLen, 2);
    }
  }

  lemma FixedPieces(m: Metadata, rest: bytes)
    requires |m.dataset| < DATASET_CSTR_LEN
    ensures var s := FixedFields(m) + rest; var k := 42 + |TypeFields(m)|;
            && s == CStr(DATASET_CSTR_LEN, m.dataset) + s[16..]
            && s[16..42] == NumericFields(m)
            && s[42..k] == TypeFields(m)
            && s[k..104] == Zeros(ReservedLength(m))
            && s[104..] == rest
  {
    TypeAndReservedLength(m);
    var a, b, c, d := CStr(DATASET_CSTR_LEN, m.dataset), NumericFields(m), TypeFields(m), Zeros(ReservedLength(m));
    var s := FixedFields(m) + rest;
    FixedRegrouped(m, rest);
    hide CStr, NumericFields, TypeFields, FixedFields, WireVersion, ReservedLength, Zeros;
    Halves(a, b + (c + (d + rest)));
    Halves(b, c + (d + rest));
    DropTwice(s, 16, 26);
    Halves(c, d + rest);
    DropTwice(s, 42, |c|);
    Halves(d, rest);
    DropTwice(s, 42 + |c|, |d|);
  }

  lemma FixedRegrouped(m: Metadata, rest: bytes)
    requires |m.dataset| < DATASET_CSTR_LEN
    ensures FixedFields(m) + rest ==
              CStr(DATASET_CSTR_LEN, m.dataset)
              + (NumericFields(m) + (TypeFields(m) + (Zeros(ReservedLength(m)) + rest)))
  {
    hide CStr, NumericFields, TypeFields, Zeros, ReservedLength;
    var a, b, c, d := CStr(DATASET_CSTR_LEN, m.dataset), NumericFields(m), TypeFields(m), Zeros(ReservedLength(m));
    assert FixedFields(m) == a + (b + (c + d));
    Regroup(a, b + (c + d), rest);
    Regroup(b, c + d, rest);
    Regroup(c, d, rest);
  }

  lemma FixedBack(m: Metadata, rest: bytes)
    requires Encodable(m) && WidthFits(m)
    ensures ParseFixed(WireVersion(m), FixedFields(m) + rest) == Ok(Parsed(NormalizeFixed(m), rest))
  {
    hide FixedFields, CStr, NumericFields, TypeFields, Encodable, WidthFits;
    EncodableFixed(m);
    var s := FixedFields(m) + rest;
    FixedPieces(m, rest);
    CStrBack(DATASET_CSTR_LEN, m.dataset, s[16..]);
    NumericBack(m, s);
    TypeBack(m, s);
    WidthFitsV1(m);
    NoSchemaDefinition(m, s);
    hide U16At, U64At, U32At, TypeOffset;
  }

  lemma NoSchemaDefinition(m: Metadata, s: bytes)
    requires |s| >= 104 && WireVersion(m) >= 1
    requires s[42 + |TypeFields(m)|..104] == Zeros(ReservedLength(m))
    ensures SchemaDefinitionOffset(WireVersion(m)) == 100 && U32At(s, 100) == 0
  {
    TypeAndReservedLength(m);
    hide TypeFields, FromLe, WireVersion, ReservedLength;
    var k, n := 42 + |TypeFields(m)|, ReservedLength(m);
    Slice(s, k, 104, n - 4, n);
    var z := Zeros(n)[n - 4..n];
    assert s[100..104] == z;
    assert forall i :: 0 <= i < 4 ==> z[i] == Zeros(n)[n - 4 + i];
    FromLeZeros(z);
  }

  lemma TypeAndReservedLength(m: Metadata)
    ensures 42 + |TypeFields(m)| + ReservedLength(m) == 104 && ReservedLength(m) >= 4
    ensures WireVersion(m) >= 1 ==> SchemaDefinitionOffset(WireVersion(m)) == 100
  {
    var v := WireVersion(m);
    assert |TypeFields(m)| == if v == 1 then 11 else 5;
    assert ReservedLength(m) == if v == 1 then 51 else 57;
    assert v >= 1 ==> TypeOffset(v) == if v == 1 then 50 else 42;
  }

  lemma EncodableFixed(m: Metadata)
    requires Encodable(m)
    ensures m.version <= DBN_VERSION && |m.dataset| < DATASET_CSTR_LEN
  {
  }

  lemma WidthFitsV1(m: Metadata)
    requires WidthFits(m)
    ensures WireVersion(m) == 1 ==> m.symbolCstrLen == SYMBOL_CSTR_LEN_V1
  {
  }

  // ----- the whole frame -----

  /** Decoding an encoded frame yields the normalized metadata and leaves exactly
      the padding and whatever follows. */
  lemma FrameBack(m: Metadata, rest: bytes)
    requires Encodable(m) && WidthFits(m) && CountsFit(m)
    ensures ParseFields(WireVersion(m), Body(m) + rest) == Ok(Parsed(Normalize(m), Zeros(CalcLength(m).1) + rest))
    ensures DecodeFields(WireVersion(m), Body(m) + rest) == Ok(Normalize(m))
  {
    hide FixedFields, VariableFields, CalcLength, ParseFixed, ParseVariable, Encodable, WidthFits, CountsFit;
    var pad := Zeros(CalcLength(m).1);
    EncodableFixed(m);
    var a, b := FixedFields(m), VariableFields(m);
    assert Body(m) + rest == a + (b + (pad + rest));
    FixedBack(m, b + (pad + rest));
    VariableBack(m, NormalizeFixed(m), pad + rest);
  }

  lemma FrameHeader(m: Metadata)
    ensures DecodeVersionAndSize(Prelude(m)) ==
            if CalcLength(m).0 < FIXED_METADATA_LEN then Err(FrameTooShort)
            else Ok(Header(WireVersion(m), CalcLength(m).0))
  {
    hide CalcLength;
    var p := Prelude(m);
    var size := Le(CalcLength(m).0, 4);
    assert p == (DBN_PREFIX + [WireVersion(m)]) + size;
    assert p[..3] == DBN_PREFIX && p[3] == WireVersion(m);
    assert p[4..8] == size;
    Pow256Values();
    FromLeOfLe(CalcLength(m).0, 4);
  }

  // ----- exactly which metadata survive -----

  predicate IntervalFaithful(iv: Interval) {
    DateFits(iv.startDate) && DateFits(iv.endDate) && 0 !in iv.symbol
  }

  predicate MappingFaithful(m: Mapping) {
    0 !in m.rawSymbol && forall iv <- m.intervals :: IntervalFaithful(iv)
  }

  /** A version the decoder knows, no sentinel value, no NUL inside a string, and
      dates spelled by YYYYMMDD. */
  predicate Faithful(m: Metadata) {
    && m.version >= 1
    && 0 !in m.dataset
    && m.schema != Some(NULL_SCHEMA) && m.stypeIn != Some(NULL_STYPE)
    && (forall x <- m.symbols :: 0 !in x)
    && (forall x <- m.partial :: 0 !in x)
    && (forall x <- m.notFound :: 0 !in x)
    && (forall x <- m.mappings :: MappingFaithful(x))
  }

  lemma IntervalIdentity(iv: Interval)
    ensures NormalizeInterval(iv) == iv <==> IntervalFaithful(iv)
  {
    DateRoundTrip(iv.startDate);
    DateRoundTrip(iv.endDate);
    CutNulIdentity(iv.symbol);
  }

  lemma {:induction false} IntervalsIdentity(ivs: seq<Interval>)
    ensures NormalizeIntervals(ivs) == ivs <==> forall iv <- ivs :: IntervalFaithful(iv)
  {
    hide NormalizeInterval, IntervalFaithful;
    if ivs == [] {
    } else {
      IntervalIdentity(ivs[0]);
      IntervalsIdentity(ivs[1..]);
      assert ivs == [ivs[0]] + ivs[1..];
      assert NormalizeIntervals(ivs)[1..] == NormalizeIntervals(ivs[1..]);
    }
  }

  lemma {:induction false} MappingsIdentity(ms: seq<Mapping>)
    ensures NormalizeMappings(ms) == ms <==> forall m <- ms :: MappingFaithful(m)
  {
    if ms == [] {
    } else {
      CutNulIdentity(ms[0].rawSymbol);
      IntervalsIdentity(ms[0].intervals);
      assert NormalizeMapping(ms[0]) == ms[0] <==> MappingFaithful(ms[0]);
      MappingsIdentity(ms[1..]);
      assert ms == [ms[0]] + ms[1..];
      assert NormalizeMappings(ms)[1..] == NormalizeMappings(ms[1..]);
    }
  }

  lemma NormalizeIdentity(m: Metadata)
    ensures Normalize(m) == m <==> Faithful(m)
  {
    CutNulIdentity(m.dataset);
    CutAllIdentity(m.symbols);
    CutAllIdentity(m.partial);
    CutAllIdentity(m.notFound);
    MappingsIdentity(m.mappings);
  }

  // ----- what every decoded frame satisfies -----

  lemma DecodedMappingCount(width: nat, s: bytes)
    ensures var r := ParseMapping(width, s); r.Ok? ==> |r.value.value.intervals| < 0x1_0000_0000
  {
    Pow256Values();
    if |s| >= width + 4 {
      FromLeBound(s[width..][..4]);
    }
  }

  lemma {:induction false} DecodedMappingCounts(width: nat, count: nat, s: bytes)
    ensures var r := ParseMappingList(width, count, s);
            r.Ok? ==> forall x <- r.value.value :: |x.intervals| < 0x1_0000_0000
    decreases count
  {
    hide ParseMapping;
    if count == 0 {
    } else {
      var first := ParseMapping(width, s);
      if first.Ok? {
        DecodedMappingCount(width, s);
        DecodedMappingCounts(width, count - 1, first.value.rest);
      }
    }
  }

  lemma DecodedRepeatedCount(width: nat, s: bytes)
    ensures var r := ParseRepeated(width, s); r.Ok? ==> |r.value.value| < 0x1_0000_0000
  {
    Pow256Values();
    if |s| >= 4 {
      FromLeBound(s[..4]);
    }
  }

  lemma DecodedMappingsCount(width: nat, s: bytes)
    ensures var r := ParseMappings(width, s);
            r.Ok? ==> |r.value.value| < 0x1_0000_0000 && forall x <- r.value.value :: |x.intervals| < 0x1_0000_0000
  {
    Pow256Values();
    if |s| >= 4 {
      FromLeBound(s[..4]);
      DecodedMappingCounts(width, FromLe(s[..4]), s[4..]);
    }
  }

  lemma DecodedFrameFits(version: u8, s: bytes)
    requires |s| >= 104
    ensures var r := DecodeFields(version, s);
            r.Ok? ==> r.value.version == version && CountsFit(r.value) && (version >= 1 ==> WidthFits(r.value))
  {
    hide ParseRepeated, ParseMappings;
    var f := ParseFixed(version, s);
    if f.Ok? {
      var w := f.value.value.symbolCstrLen;
      var a := ParseRepeated(w, f.value.rest);
      DecodedRepeatedCount(w, f.value.rest);
      if a.Ok? {
        var b := ParseRepeated(w, a.value.rest);
        DecodedRepeatedCount(w, a.value.rest);
        if b.Ok? {
          DecodedRepeatedCount(w, b.value.rest);
          var c := ParseRepeated(w, b.value.rest);
          if c.Ok? {
            DecodedMappingsCount(w, c.value.rest);
          }
        }
      }
    }
  }

  /** A reader that is given the whole body gets the metadata back exactly when
      they are faithful and their counts and symbol width fit their fields. The
      readers are given as much as the declared length says: see FrameRoundTrip. */
  lemma BodyRoundTrip(m: Metadata, rest: bytes)
    requires Encodable(m)
    ensures |Body(m) + rest| >= 104
    ensures DecodeFields(WireVersion(m), Body(m) + rest) == Ok(m) <==>
            Faithful(m) && WidthFits(m) && CountsFit(m)
  {
    hide Body, DecodeFields, Normalize, Faithful, WidthFits, CountsFit;
    assert |Body(m)| >= 104 by { BodyLength(m); }
    DecodedFrameFits(WireVersion(m), Body(m) + rest);
    NormalizeIdentity(m);
    FaithfulVersion(m);
    if WidthFits(m) && CountsFit(m) {
      FrameBack(m, rest);
    }
  }

  lemma FaithfulVersion(m: Metadata)
    ensures WireVersion(m) >= 1
    ensures Faithful(m) ==> m.version == WireVersion(m)
  {
  }

  lemma BodyLength(m: Metadata)
    requires Encodable(m)
    ensures |Body(m)| >= 104
  {
  }

  /** Why a frame must not count past its own end: a version 1 frame of 104 zero
      bytes is cut off before its symbol counts, yet it decodes as soon as 16
      more zero bytes happen to lie behind it in the buffer. */
  lemma OverrunningFrameDependsOnWhatFollows()
    ensures DecodeFields(1, Zeros(104)) == Err(Truncated)
    ensures DecodeFields(1, Zeros(104 + 16)).Ok?
  {
    hide ParseVariable, ParseFixed;
    ZeroFixed(Zeros(104));
    ZeroFixed(Zeros(104 + 16));
    ZeroVariable(ParseFixed(1, Zeros(104)).value.value, Zeros(104)[104..]);
    ZeroVariable(ParseFixed(1, Zeros(104 + 16)).value.value, Zeros(104 + 16)[104..]);
  }

  predicate AllZero(s: bytes) {
    forall i :: 0 <= i < |s| ==> s[i] == 0
  }

  lemma ZeroFixed(s: bytes)
    requires |s| >= 104 && AllZero(s)
    ensures var r := ParseFixed(1, s);
            r.Ok? && r.value.rest == s[104..] && r.value.value.symbolCstrLen == SYMBOL_CSTR_LEN_V1
  {
    FromLeZeros(s[100..104]);
    assert FindNul(s[..16]) == 0;
  }

  lemma ZeroVariable(m: Metadata, v: bytes)
    requires AllZero(v) && m.symbolCstrLen == SYMBOL_CSTR_LEN_V1
    ensures |v| == 0 ==> ParseVariable(m, v) == Err(Truncated)
    ensures |v| == 16 ==> ParseVariable(m, v).Ok?
  {
    if |v| == 16 {
      NoSymbols(v);
      NoSymbols(v[4..]);
      assert v[4..][4..] == v[8..];
      NoSymbols(v[8..]);
      assert v[8..][4..] == v[12..];
      FromLeZeros(v[12..][..4]);
    }
  }

  lemma NoSymbols(v: bytes)
    requires |v| >= 4 && AllZero(v)
    ensures ParseRepeated(SYMBOL_CSTR_LEN_V1, v) == Ok(Parsed([], v[4..]))
  {
    FromLeZeros(v[..4]);
  }
}
