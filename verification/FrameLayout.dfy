/** The bytes of a metadata frame, by their offsets, and what a reader refuses. */
module FrameLayout {
  import opened Bytes
  import opened Constants
  import opened DecimalText
  import opened Metadatas
  import opened MetadataEncoding
  import opened MetadataDecoding
  import opened MetadataRoundTrip
  import opened StreamSpec

  /** The little-endian number of `width` bytes at an offset. */
  function NumberAt(s: bytes, at: nat, width: nat): nat
    requires at + width <= |s|
  {
    FromLe(s[at..at + width])
  }

  /** The first byte is the lowest. */
  lemma LowestFirst(a: byte, b: byte, c: byte, d: byte)
    ensures FromLe([a, b]) == a as int + 0x100 * b as int
    ensures FromLe([a, b, c, d]) == a as int + 0x100 * b as int + 0x1_0000 * c as int + 0x100_0000 * d as int
  {
    assert [a, b][1..] == [b] && [b][1..] == [];
    assert [a, b, c, d][1..] == [b, c, d] && [b, c, d][1..] == [c, d] && [c, d][1..] == [d] && [d][1..] == [];
    assert FromLe([d]) == d && FromLe([b]) == b;
    assert FromLe([c, d]) == c as int + 0x100 * d as int;
    assert FromLe([b, c, d]) == b as int + 0x100 * FromLe([c, d]);
  }

  /** Behind 8 bytes of header. */
  lemma Shifted(p: bytes, s: bytes, i: nat, j: nat)
    requires i <= j <= |s|
    ensures (p + s)[|p| + i..|p| + j] == s[i..j]
  {
  }

  /** The header and the fixed fields: 112 bytes, of which the last 4 are an empty
      schema definition. */
  lemma FixedLayout(m: Metadata)
    requires Encodable(m) && WidthFits(m)
    ensures var s := Encode(m); var version := if m.version == 0 then 1 else m.version;
            && |s| >= 112
            && s[0..3] == [0x44, 0x42, 0x4E] && s[3] == version
            && NumberAt(s, 4, 4) == CalcLength(m).0
            && s[8..24] == m.dataset + Zeros(16 - |m.dataset|)
            && NumberAt(s, 24, 2) == (if m.schema.Some? then m.schema.value else 0xFFFF)
            && NumberAt(s, 26, 8) == m.start && NumberAt(s, 34, 8) == m.end && NumberAt(s, 42, 8) == m.limit
            && (version == 1 ==> TypesAt(m, s, 58) && s[61..112] == Zeros(51))
            && (version > 1 ==>
                  TypesAt(m, s, 50) && NumberAt(s, 53, 2) == m.symbolCstrLen && s[55..112] == Zeros(57))
  {
    var p, b := Prelude(m), Body(m);
    var s := Encode(m);
    HeaderBytes(m);
    BodyLength(m);
    BodyBytes(m);
    hide Prelude, Body, CalcLength, FromLe, Encodable, WidthFits;
    assert s == p + b;
    hide Encode, TypesAt;
    EightBehind(p, b);
    if WireVersion(m) == 1 {
      TypesBehind(m, p, b, 50);
    } else {
      TypesBehind(m, p, b, 42);
    }
  }

  /** Offset `8 + i` of a frame is offset `i` of what its header stands before. */
  lemma EightBehind(p: bytes, b: bytes)
    requires |p| == 8 && |b| >= 104
    ensures var s := p + b;
            && s[0..3] == p[0..3] && s[3] == p[3] && s[4..8] == p[4..8]
            && s[8..24] == b[0..16] && s[24..26] == b[16..18] && s[26..34] == b[18..26]
            && s[34..42] == b[26..34] && s[42..50] == b[34..42] && s[53..55] == b[45..47]
            && s[55..112] == b[47..104] && s[61..112] == b[53..104]
  {
    var s := p + b;
    assert s[0..3] == p[0..3] && s[4..8] == p[4..8];
    Shifted(p, b, 0, 16);
    Shifted(p, b, 16, 18);
    Shifted(p, b, 18, 26);
    Shifted(p, b, 26, 34);
    Shifted(p, b, 34, 42);
    Shifted(p, b, 45, 47);
    Shifted(p, b, 47, 104);
    Shifted(p, b, 53, 104);
  }

  /** The symbology types and the send timestamp flag, an absent input type being
      the largest byte. */
  predicate TypesAt(m: Metadata, s: bytes, at: nat)
    requires at + 3 <= |s|
  {
    && s[at] == (if m.stypeIn.Some? then m.stypeIn.value else 0xFF)
    && s[at + 1] == m.stypeOut
    && s[at + 2] == (if m.tsOut then 1 else 0)
  }

  lemma TypesBehind(m: Metadata, p: bytes, b: bytes, at: nat)
    requires at + 3 <= |b| && TypesAt(m, b, at)
    ensures TypesAt(m, p + b, |p| + at)
  {
  }

  lemma HeaderBytes(m: Metadata)
    ensures var p := Prelude(m);
            && p[0..3] == [0x44, 0x42, 0x4E] && p[3] == (if m.version == 0 then 1 else m.version)
            && NumberAt(p, 4, 4) == CalcLength(m).0
  {
    hide CalcLength;
    var size := Le(CalcLength(m).0, 4);
    assert Prelude(m) == (DBN_PREFIX + [WireVersion(m)]) + size;
    assert Prelude(m)[4..8] == size;
    Pow256Values();
    FromLeOfLe(CalcLength(m).0, 4);
  }

  lemma BodyBytes(m: Metadata)
    requires Encodable(m) && WidthFits(m)
    ensures var b := Body(m); var version := if m.version == 0 then 1 else m.version;
            && |b| >= 104
            && b[0..16] == m.dataset + Zeros(16 - |m.dataset|)
            && NumberAt(b, 16, 2) == (if m.schema.Some? then m.schema.value else 0xFFFF)
            && NumberAt(b, 18, 8) == m.start && NumberAt(b, 26, 8) == m.end && NumberAt(b, 34, 8) == m.limit
            && (version == 1 ==> TypesAt(m, b, 50) && b[53..104] == Zeros(51))
            && (version > 1 ==> TypesAt(m, b, 42) && NumberAt(b, 45, 2) == m.symbolCstrLen && b[47..104] == Zeros(57))
  {
    var rest := VariableFields(m) + Zeros(CalcLength(m).1);
    var b := FixedFields(m) + rest;
    EncodableFixed(m);
    KnownVersion(m);
    FixedPieces(m, rest);
    hide VariableFields, FixedFields, CalcLength, NumericFields, TypeFields, FromLe, Encodable, WidthFits;
    NumericBack(m, b);
    TypeBack(m, b);
    ReservedLengths(m);
    hide ReservedLength, WireVersion;
    assert b[0..16] == CStr(DATASET_CSTR_LEN, m.dataset);
  }

  /** Version 1 has a record count, which says that there is none. */
  lemma OldRecordCount(m: Metadata)
    requires Encodable(m) && m.version <= 1
    ensures |Encode(m)| >= 58 && Encode(m)[50..58] == seq(8, _ => 0xFF)
  {
    var p, rest := Prelude(m), VariableFields(m) + Zeros(CalcLength(m).1);
    EncodableFixed(m);
    FixedPieces(m, rest);
    BodyLength(m);
    CountBytes(m);
    var b := FixedFields(m) + rest;
    assert Encode(m) == p + b by {
      assert Encode(m) == p + Body(m) && Body(m) == b;
    }
    hide VariableFields, FixedFields, CalcLength, TypeFields, Encodable, Prelude, Encode, Body;
    Shifted(p, b, 42, 50);
    Slice(b, 42, 53, 0, 8);
  }

  lemma CountBytes(m: Metadata)
    requires m.version <= 1
    ensures |TypeFields(m)| == 11 && TypeFields(m)[0..8] == seq(8, _ => 0xFF)
  {
    AllOnes();
    var count := Le(NULL_RECORD_COUNT, 8);
    hide Le;
    assert TypeFields(m)[0..8] == count;
  }

  lemma AllOnes()
    ensures Le(NULL_RECORD_COUNT, 8) == seq(8, _ => 0xFF)
  {
    var n := NULL_RECORD_COUNT;
    assert Le(0xFF, 1) == [0xFF] + Le(0, 0);
    assert Le(0xFFFF, 2) == [0xFF] + Le(0xFF, 1);
    assert Le(0xFF_FFFF, 3) == [0xFF] + Le(0xFFFF, 2);
    assert Le(0xFFFF_FFFF, 4) == [0xFF] + Le(0xFF_FFFF, 3);
    assert Le(0xFF_FFFF_FFFF, 5) == [0xFF] + Le(0xFFFF_FFFF, 4);
    assert Le(0xFFFF_FFFF_FFFF, 6) == [0xFF] + Le(0xFF_FFFF_FFFF, 5);
    assert Le(0xFF_FFFF_FFFF_FFFF, 7) == [0xFF] + Le(0xFFFF_FFFF_FFFF, 6);
    assert Le(n, 8) == [0xFF] + Le(0xFF_FFFF_FFFF_FFFF, 7);
  }

  lemma KnownVersion(m: Metadata)
    ensures WireVersion(m) == if m.version == 0 then 1 else m.version
  {
  }

  lemma ReservedLengths(m: Metadata)
    ensures WireVersion(m) == 1 ==> |TypeFields(m)| == 11 && ReservedLength(m) == 51 && TypeOffset(1) == 50
    ensures WireVersion(m) > 1 ==>
              |TypeFields(m)| == 5 && ReservedLength(m) == 57 && TypeOffset(WireVersion(m)) == 42
  {
  }

  /** Behind them come the lists of symbols, of partial and of unresolved symbols,
      and the mappings, each behind its number of items, and the padding. */
  lemma ListsLayout(m: Metadata)
    requires Encodable(m) && CountsFit(m)
    ensures var w := m.symbolCstrLen; var s := Encode(m);
            && |s| >= 112
            && s[112..] == (Le(|m.symbols|, 4) + CStrs(w, m.symbols))
                           + ((Le(|m.partial|, 4) + CStrs(w, m.partial))
                              + ((Le(|m.notFound|, 4) + CStrs(w, m.notFound))
                                 + ((Le(|m.mappings|, 4) + MappingsBytes(w, m.mappings)) + Zeros(CalcLength(m).1))))
  {
    hide CStrs, MappingsBytes, CalcLength, FixedFields, Le, Encodable, CountsFit;
    EncodableFixed(m);
    var w, pad := m.symbolCstrLen, Zeros(CalcLength(m).1);
    ListsRegrouped(m, pad);
    var fields := Prelude(m) + FixedFields(m);
    assert Encode(m) == fields + (VariableFields(m) + pad);
    Halves(fields, VariableFields(m) + pad);
  }

  lemma ListsRegrouped(m: Metadata, pad: bytes)
    requires Encodable(m)
    ensures var w := m.symbolCstrLen;
            VariableFields(m) + pad == (Le(|m.symbols|, 4) + CStrs(w, m.symbols))
                           + ((Le(|m.partial|, 4) + CStrs(w, m.partial))
                              + ((Le(|m.notFound|, 4) + CStrs(w, m.notFound))
                                 + ((Le(|m.mappings|, 4) + MappingsBytes(w, m.mappings)) + pad)))
  {
    hide CStrs, MappingsBytes, Le;
    var w := m.symbolCstrLen;
    var a, b := Le(|m.symbols|, 4) + CStrs(w, m.symbols), Le(|m.partial|, 4) + CStrs(w, m.partial);
    var c, d := Le(|m.notFound|, 4) + CStrs(w, m.notFound), Le(|m.mappings|, 4) + MappingsBytes(w, m.mappings);
    assert VariableFields(m) == a + (b + (c + d));
    Regroup(a, b + (c + d), pad);
    Regroup(b, c + d, pad);
    Regroup(c, d, pad);
  }

  /** Item `k` of a list of strings lies `k` widths behind its start, filled up
      with zeros. */
  lemma {:induction false} ItemAt(width: nat, xs: seq<bytes>, k: nat)
    requires AllShorter(width, xs) && k < |xs|
    ensures 0 <= k * width && k * width + width <= |CStrs(width, xs)|
    ensures CStrs(width, xs)[k * width..k * width + width] == xs[k] + Zeros(width - |xs[k]|)
  {
    var head, tail := CStr(width, xs[0]), CStrs(width, xs[1..]);
    assert CStrs(width, xs) == head + tail;
    assert xs[k] in xs;
    if k == 0 {
      hide CStrs, Zeros;
      Halves(head, tail);
    } else {
      ItemAt(width, xs[1..], k - 1);
      assert xs[k] == xs[1..][k - 1];
      hide CStrs, Zeros;
      OneMore(k, width);
      var at: nat := (k - 1) * width;
      ItemBehind(head, tail, at, width, xs[k] + Zeros(width - |xs[k]|));
    }
  }

  lemma OneMore(k: nat, width: nat)
    requires k > 0
    ensures k * width == width + (k - 1) * width
  {
  }

  lemma ItemBehind(head: bytes, tail: bytes, at: nat, width: nat, item: bytes)
    requires |head| == width && at + width <= |tail| && tail[at..at + width] == item
    ensures (head + tail)[width + at..width + at + width] == item
  {
    Shifted(head, tail, at, at + width);
  }

  // ----- dates -----

  function TwoDigits(n: nat): string
    requires n < 100
  {
    [Digit(n / 10), Digit(n % 10)]
  }

  /** A date on the wire is spelled YYYYMMDD. */
  lemma DateSpelled(d: Date)
    requires DateFits(d) && d.year > 0
    ensures Digits(EncodeDate(d)) == Digits(d.year) + (TwoDigits(d.month) + TwoDigits(d.day))
  {
    DateNumber(d);
    hide Digits, EncodeDate, TwoDigits;
    TwoMore(d.year * 100 + d.month, d.day);
    TwoMore(d.year, d.month);
    assert (Digits(d.year) + TwoDigits(d.month)) + TwoDigits(d.day)
        == Digits(d.year) + (TwoDigits(d.month) + TwoDigits(d.day));
  }

  lemma DateNumber(d: Date)
    requires DateFits(d)
    ensures EncodeDate(d) == (d.year * 100 + d.month) * 100 + d.day
  {
  }

  lemma TwoMore(n: nat, two: nat)
    requires n > 0 && two < 100
    ensures Digits(n * 100 + two) == Digits(n) + TwoDigits(two)
  {
    var all := n * 100 + two;
    assert all / 10 == n * 10 + two / 10 && all % 10 == two % 10;
    assert (n * 10 + two / 10) / 10 == n && (n * 10 + two / 10) % 10 == two / 10;
    assert Digits(all) == Digits(all / 10) + [Digit(two % 10)];
    assert Digits(all / 10) == Digits(n) + [Digit(two / 10)];
  }

  // ----- what a reader refuses -----

  /** A header is refused exactly for a wrong prefix or a length below the fixed
      fields. */
  lemma HeaderRefusedExactly(s: bytes)
    requires |s| >= 8
    ensures var r := DecodeVersionAndSize(s);
            if s[0..3] != [0x44, 0x42, 0x4E] then r == Err(MissingPrefix)
            else if NumberAt(s, 4, 4) < 100 then r == Err(FrameTooShort)
            else r.Ok? && r.value.version == s[3] && r.value.frameSize == NumberAt(s, 4, 4)
  {
    hide FromLe;
    FromLeBound(s[4..8]);
    Pow256Values();
    assert s[..3] == s[0..3];
  }

  /** Fields are refused as newer than the reader exactly from version 4 on, and
      for a schema definition exactly when its length is not 0 and nothing was
      wrong before. */
  lemma FieldsRefusedExactly(version: u8, s: bytes)
    requires |s| >= 104
    ensures DecodeFields(version, s) == Err(NewerVersion) <==> version > 3
    ensures DecodeFields(version, s) == Err(SchemaDefinition) <==>
            version <= 3 && 0 in s[0..16] && NumberAt(s, if version == 0 then 98 else 100, 4) != 0
    ensures version <= 3 && 0 !in s[0..16] ==> DecodeFields(version, s) == Err(MissingNul)
  {
    hide FromLe, ParseVariable, FixedMetadata;
    var f := ParseFixed(version, s);
    assert s[..16] == s[0..16];
    NulWithin(s[..16]);
    assert SchemaDefinitionOffset(version) == if version == 0 then 98 else 100;
    if f.Ok? {
      VariableErrors(f.value.value, f.value.rest);
    }
  }

  /** What a reader makes of the front of a stream, before it looks at the fields. */
  lemma StreamRefusedExactly(s: bytes)
    requires HeaderUsable(s)
    ensures |s| < 8 ==> MetadataOf(s) == Err(EndOfInput)
    ensures |s| >= 8 && s[0..3] != [0x44, 0x42, 0x4E] ==> MetadataOf(s) == Err(MissingPrefix)
    ensures |s| >= 8 && s[0..3] == [0x44, 0x42, 0x4E] ==>
              var size := NumberAt(s, 4, 4);
              && (size < 100 ==> MetadataOf(s) == Err(FrameTooShort))
              && (100 <= size && |s| - 8 < size ==> MetadataOf(s) == Err(EndOfInput))
              && (MetadataOf(s).Ok? ==>
                    var header := MetadataOf(s).value.0; header.version == s[3] && header.frameSize == size)
  {
    if |s| >= 8 {
      HeaderHere(s);
    }
    hide DecodeFields, HeaderOf, NumberAt;
  }

  lemma HeaderHere(s: bytes)
    requires |s| >= 8
    ensures var r, size := HeaderOf(s), NumberAt(s, 4, 4);
            if s[0..3] != [0x44, 0x42, 0x4E] then r == Err(MissingPrefix)
            else if size < 100 then r == Err(FrameTooShort)
            else r.Ok? && r.value.version == s[3] && r.value.frameSize == size
  {
    hide DecodeVersionAndSize, FromLe;
    HeaderRefusedExactly(s[..8]);
    assert s[..8][0..3] == s[0..3] && s[..8][4..8] == s[4..8];
  }

  lemma NulWithin(s: bytes)
    ensures FindNul(s) == |s| <==> 0 !in s
  {
    var n := FindNul(s);
    if n == |s| {
      assert s[..n] == s;
    } else {
      assert s[n] == 0;
    }
  }

  /** The lists behind the fixed fields are refused for no other reasons. */
  predicate BadList<T>(r: Parse<T>) {
    r.Err? ==> r.error == Truncated || r.error == MissingNul
  }

  lemma RepeatedErrors(width: nat, s: bytes)
    ensures BadList(ParseRepeated(width, s))
  {
    hide ParseCStrs;
  }

  lemma {:induction false} MappingListErrors(width: nat, count: nat, s: bytes)
    ensures BadList(ParseMappingList(width, count, s))
    decreases count
  {
    hide ParseMapping;
    if count == 0 {
    } else {
      MappingErrors(width, s);
      var first := ParseMapping(width, s);
      if first.Ok? {
        MappingListErrors(width, count - 1, first.value.rest);
      }
    }
  }

  lemma MappingErrors(width: nat, s: bytes)
    ensures BadList(ParseMapping(width, s))
  {
    hide ParseIntervals;
  }

  lemma VariableErrors(m: Metadata, s: bytes)
    ensures BadList(ParseVariable(m, s))
  {
    hide ParseRepeated, ParseMappingList;
    var w := m.symbolCstrLen;
    RepeatedErrors(w, s);
    var a := ParseRepeated(w, s);
    if a.Ok? {
      RepeatedErrors(w, a.value.rest);
      var b := ParseRepeated(w, a.value.rest);
      if b.Ok? {
        RepeatedErrors(w, b.value.rest);
        var c := ParseRepeated(w, b.value.rest);
        if c.Ok? && |c.value.rest| >= 4 {
          MappingListErrors(w, FromLe(c.value.rest[..4]), c.value.rest[4..]);
        }
      }
    }
  }
}
