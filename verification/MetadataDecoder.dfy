/** Reading DBN metadata. The parse is a function from bytes to a value and the
    bytes that follow it; the decoder walks a cursor through the buffer. */
module MetadataDecoding {
  import opened Bytes
  import opened Constants
  import opened Metadatas
  import opened MetadataEncoding

  datatype DecodeError =
    | TooSmall
    | MissingPrefix
    | FrameTooShort
    | NewerVersion
    | SchemaDefinition
    | Truncated
    | MissingNul
    | EndOfInput

  datatype Parsed<+T> = Parsed(value: T, rest: bytes)

  type Parse<+T> = Result<Parsed<T>, DecodeError>

  // ----- the parse as a function -----

  function ParseCStr(width: nat, s: bytes): (r: Parse<bytes>)
    requires width <= |s|
    ensures r.Ok? ==> r.value.rest == s[width..]
    ensures r.Err? ==> r.error == MissingNul
  {
    var str := s[..width];
    if FindNul(str) == width then Err(MissingNul) else Ok(Parsed(CutNul(str), s[width..]))
  }

  /** Puts already parsed items in front of a parsed list. */
  function Prepend<T>(done: seq<T>, r: Parse<seq<T>>): Parse<seq<T>> {
    if r.Ok? then Ok(Parsed(done + r.value.value, r.value.rest)) else r
  }

  function ParseCStrs(width: nat, count: nat, s: bytes): (r: Parse<seq<bytes>>)
    requires count * width <= |s|
    ensures r.Ok? ==> |r.value.value| == count && r.value.rest == s[count * width..]
    ensures r.Err? ==> r.error == MissingNul
    decreases count
  {
    if count == 0 then Ok(Parsed([], s))
    else
      DropOne(s, count, width);
      var first := ParseCStr(width, s);
      if first.Err? then Err(first.error)
      else Prepend([first.value.value], ParseCStrs(width, count - 1, s[width..]))
  }

  /** Dropping `count` items of a size is dropping one and then the others. */
  lemma DropOne(s: bytes, count: nat, size: nat)
    requires 0 < count && count * size <= |s|
    ensures size <= |s| && 0 <= (count - 1) * size <= |s| - size
    ensures s[size..][(count - 1) * size..] == s[count * size..]
  {
    MulPred(count, size);
    MulNonNegative(count - 1, size);
  }

  lemma MulNonNegative(n: nat, k: nat)
    ensures n * k >= 0
  {
  }

  function ParseRepeated(width: nat, s: bytes): (r: Parse<seq<bytes>>)
    ensures r.Ok? ==> |r.value.rest| <= |s|
  {
    if |s| < 4 then Err(Truncated)
    else
      var count := FromLe(s[..4]);
      MulNonNegative(count, width);
      if |s| - 4 < count * width then Err(Truncated)
      else ParseCStrs(width, count, s[4..])
  }

  function ParseInterval(width: nat, s: bytes): (r: Parse<Interval>)
    requires 8 + width <= |s|
    ensures r.Ok? ==> r.value.rest == s[8 + width..]
    ensures r.Err? ==> r.error == MissingNul
  {
    var start := DecodeDate(U32At(s, 0));
    var end := DecodeDate(U32At(s, 4));
    var symbol := ParseCStr(width, s[8..]);
    if symbol.Err? then Err(symbol.error)
    else
      assert s[8..][width..] == s[8 + width..];
      Ok(Parsed(Interval(start, end, symbol.value.value), symbol.value.rest))
  }

  function U32At(s: bytes, i: nat): u32
    requires i + 4 <= |s|
  {
    FromLeBound(s[i..i + 4]);
    Pow256Values();
    FromLe(s[i..i + 4])
  }

  function ParseIntervals(width: nat, count: nat, s: bytes): (r: Parse<seq<Interval>>)
    requires count * (8 + width) <= |s|
    ensures r.Ok? ==> |r.value.value| == count && r.value.rest == s[count * (8 + width)..]
    ensures r.Err? ==> r.error == MissingNul
    decreases count
  {
    if count == 0 then Ok(Parsed([], s))
    else
      DropOne(s, count, 8 + width);
      var first := ParseInterval(width, s);
      if first.Err? then Err(first.error)
      else Prepend([first.value.value], ParseIntervals(width, count - 1, s[8 + width..]))
  }

  /** A count and as many intervals, once the bytes of the count are there. */
  function ParseCounted(width: nat, s: bytes): (r: Parse<seq<Interval>>)
    requires |s| >= 4
    ensures r.Ok? ==> |r.value.rest| <= |s|
  {
    var count := FromLe(s[..4]);
    MulNonNegative(count, 8 + width);
    if |s| - 4 < count * (8 + width) then Err(Truncated) else ParseIntervals(width, count, s[4..])
  }

  function ParseMapping(width: nat, s: bytes): (r: Parse<Mapping>)
    ensures r.Ok? ==> |r.value.rest| <= |s|
  {
    if |s| < width + 4 then Err(Truncated)
    else
      var raw := ParseCStr(width, s);
      if raw.Err? then Err(raw.error)
      else
        var ivs := ParseCounted(width, raw.value.rest);
        if ivs.Err? then Err(ivs.error)
        else Ok(Parsed(Mapping(raw.value.value, ivs.value.value), ivs.value.rest))
  }

  function ParseMappingList(width: nat, count: nat, s: bytes): (r: Parse<seq<Mapping>>)
    ensures r.Ok? ==> |r.value.value| == count && |r.value.rest| <= |s|
    decreases count
  {
    if count == 0 then Ok(Parsed([], s))
    else
      var first := ParseMapping(width, s);
      if first.Err? then Err(first.error)
      else Prepend([first.value.value], ParseMappingList(width, count - 1, first.value.rest))
  }

  function ParseMappings(width: nat, s: bytes): (r: Parse<seq<Mapping>>)
    ensures r.Ok? ==> |r.value.rest| <= |s|
  {
    if |s| < 4 then Err(Truncated) else ParseMappingList(width, FromLe(s[..4]), s[4..])
  }

  function ParseVariable(m: Metadata, s: bytes): (r: Parse<Metadata>)
    ensures r.Ok? ==> |r.value.rest| <= |s|
  {
    var w := m.symbolCstrLen;
    var symbols := ParseRepeated(w, s);
    if symbols.Err? then Err(symbols.error)
    else
      var partial := ParseRepeated(w, symbols.value.rest);
      if partial.Err? then Err(partial.error)
      else
        var notFound := ParseRepeated(w, partial.value.rest);
        if notFound.Err? then Err(notFound.error)
        else
          var mappings := ParseMappings(w, notFound.value.rest);
          if mappings.Err? then Err(mappings.error)
          else Ok(Parsed(m.(symbols := symbols.value.value, partial := partial.value.value,
                            notFound := notFound.value.value, mappings := mappings.value.value),
                         mappings.value.rest))
  }

  /** The offset of the symbology type bytes, after the record count that only
      version 1 has. */
  function TypeOffset(version: u8): nat {
    if version == 1 then 50 else 42
  }

  function SchemaDefinitionOffset(version: u8): nat {
    TypeOffset(version) + 3
    + (if version > 1 then 2 else 0)
    + (if version == 1 then METADATA_RESERVED_LEN_V1 else METADATA_RESERVED_LEN)
  }

  function U16At(s: bytes, i: nat): u16
    requires i + 2 <= |s|
  {
    FromLeBound(s[i..i + 2]);
    Pow256Values();
    FromLe(s[i..i + 2])
  }

  function U64At(s: bytes, i: nat): u64
    requires i + 8 <= |s|
  {
    FromLeBound(s[i..i + 8]);
    Pow256Values();
    FromLe(s[i..i + 8])
  }

  function FixedMetadata(version: u8, dataset: bytes, s: bytes): Metadata
    requires |s| >= 104
  {
    var p := TypeOffset(version);
    Metadata(version, dataset,
             if U16At(s, 16) == NULL_SCHEMA then None else Some(U16At(s, 16)),
             U64At(s, 18), U64At(s, 26), U64At(s, 34),
             if s[p] == NULL_STYPE then None else Some(s[p]),
             s[p + 1],
             s[p + 2] != 0,
             if version > 1 then U16At(s, p + 3) else SYMBOL_CSTR_LEN_V1,
             [], [], [], [])
  }

  /** The fixed fields are read without a bounds check, so the buffer must hold
      them. */
  function ParseFixed(version: u8, s: bytes): (r: Parse<Metadata>)
    requires |s| >= 104
    ensures r.Ok? ==> |r.value.rest| <= |s|
    ensures r.Err? ==> r.error != Truncated
  {
    if version > DBN_VERSION then Err(NewerVersion)
    else
      var dataset := ParseCStr(DATASET_CSTR_LEN, s);
      if dataset.Err? then Err(dataset.error)
      else if U32At(s, SchemaDefinitionOffset(version)) != 0 then Err(SchemaDefinition)
      else Ok(Parsed(FixedMetadata(version, dataset.value.value, s), s[SchemaDefinitionOffset(version) + 4..]))
  }

  function ParseFields(version: u8, s: bytes): (r: Parse<Metadata>)
    requires |s| >= 104
    ensures r.Ok? ==> |r.value.rest| <= |s|
  {
    var fixedPart := ParseFixed(version, s);
    if fixedPart.Err? then fixedPart else ParseVariable(fixedPart.value.value, fixedPart.value.rest)
  }

  /** What `DecodeMetadataFields` returns: the trailing bytes are ignored. */
  function DecodeFields(version: u8, s: bytes): Result<Metadata, DecodeError>
    requires |s| >= 104
  {
    var r := ParseFields(version, s);
    if r.Ok? then Ok(r.value.value) else Err(r.error)
  }

  datatype Header = Header(version: u8, frameSize: u32)

  function DecodeVersionAndSize(s: bytes): Result<Header, DecodeError> {
    if |s| < 8 then Err(TooSmall)
    else if s[..3] != DBN_PREFIX then Err(MissingPrefix)
    else if U32At(s, 4) < FIXED_METADATA_LEN then Err(FrameTooShort)
    else Ok(Header(s[3], U32At(s, 4)))
  }

  // ----- more bytes after a complete frame change nothing -----

  function Extended<T>(r: Parse<T>, e: bytes): Parse<T> {
    if r.Ok? then Ok(Parsed(r.value.value, r.value.rest + e)) else r
  }

  /** The first bytes of a string do not depend on what follows it. */
  lemma Front(s: bytes, n: nat, e: bytes)
    requires n <= |s|
    ensures (s + e)[..n] == s[..n] && (s + e)[n..] == s[n..] + e
  {
  }

  lemma CStrExtend(width: nat, s: bytes, e: bytes)
    requires width <= |s|
    ensures ParseCStr(width, s + e) == Extended(ParseCStr(width, s), e)
  {
    Front(s, width, e);
  }

  lemma {:induction false} CStrsExtend(width: nat, count: nat, s: bytes, e: bytes)
    requires count * width <= |s|
    ensures ParseCStrs(width, count, s + e) == Extended(ParseCStrs(width, count, s), e)
    decreases count
  {
    hide ParseCStr;
    if count == 0 {
    } else {
      DropOne(s, count, width);
      Front(s, width, e);
      CStrExtend(width, s, e);
      CStrsExtend(width, count - 1, s[width..], e);
    }
  }

  lemma RepeatedExtend(width: nat, s: bytes, e: bytes)
    requires ParseRepeated(width, s) != Err(Truncated)
    ensures ParseRepeated(width, s + e) == Extended(ParseRepeated(width, s), e)
  {
    hide ParseCStrs, FromLe;
    Front(s, 4, e);
    CStrsExtend(width, FromLe(s[..4]), s[4..], e);
  }

  lemma IntervalExtend(width: nat, s: bytes, e: bytes)
    requires 8 + width <= |s|
    ensures ParseInterval(width, s + e) == Extended(ParseInterval(width, s), e)
  {
    hide ParseCStr, FromLe, DecodeDate;
    assert (s + e)[0..4] == s[0..4] && (s + e)[4..8] == s[4..8];
    Front(s, 8, e);
    CStrExtend(width, s[8..], e);
  }

  lemma {:induction false} IntervalsExtend(width: nat, count: nat, s: bytes, e: bytes)
    requires count * (8 + width) <= |s|
    ensures ParseIntervals(width, count, s + e) == Extended(ParseIntervals(width, count, s), e)
    decreases count
  {
    hide ParseInterval;
    if count == 0 {
    } else {
      DropOne(s, count, 8 + width);
      IntervalExtend(width, s, e);
      Front(s, 8 + width, e);
      IntervalsExtend(width, count - 1, s[8 + width..], e);
    }
  }

  lemma CountedExtend(width: nat, s: bytes, e: bytes)
    requires |s| >= 4 && ParseCounted(width, s) != Err(Truncated)
    ensures ParseCounted(width, s + e) == Extended(ParseCounted(width, s), e)
  {
    hide ParseIntervals, FromLe;
    Front(s, 4, e);
    IntervalsExtend(width, FromLe(s[..4]), s[4..], e);
  }

  lemma MappingExtend(width: nat, s: bytes, e: bytes)
    requires ParseMapping(width, s) != Err(Truncated)
    ensures ParseMapping(width, s + e) == Extended(ParseMapping(width, s), e)
  {
    hide ParseCStr, ParseCounted;
    CStrExtend(width, s, e);
    var raw := ParseCStr(width, s);
    if raw.Ok? {
      CountedExtend(width, raw.value.rest, e);
    }
  }

  lemma {:induction false} MappingListExtend(width: nat, count: nat, s: bytes, e: bytes)
    requires ParseMappingList(width, count, s) != Err(Truncated)
    ensures ParseMappingList(width, count, s + e) == Extended(ParseMappingList(width, count, s), e)
    decreases count
  {
    hide ParseMapping;
    if count == 0 {
    } else {
      MappingExtend(width, s, e);
      var first := ParseMapping(width, s);
      if first.Ok? {
        MappingListExtend(width, count - 1, first.value.rest, e);
      }
    }
  }

  lemma MappingsExtend(width: nat, s: bytes, e: bytes)
    requires ParseMappings(width, s) != Err(Truncated)
    ensures ParseMappings(width, s + e) == Extended(ParseMappings(width, s), e)
  {
    hide ParseMappingList, FromLe;
    Front(s, 4, e);
    MappingListExtend(width, FromLe(s[..4]), s[4..], e);
  }

  lemma VariableExtend(m: Metadata, s: bytes, e: bytes)
    requires ParseVariable(m, s) != Err(Truncated)
    ensures ParseVariable(m, s + e) == Extended(ParseVariable(m, s), e)
  {
    hide ParseRepeated, ParseMappings;
    var w := m.symbolCstrLen;
    RepeatedExtend(w, s, e);
    var a := ParseRepeated(w, s);
    if a.Ok? {
      RepeatedExtend(w, a.value.rest, e);
      var b := ParseRepeated(w, a.value.rest);
      if b.Ok? {
        RepeatedExtend(w, b.value.rest, e);
        var c := ParseRepeated(w, b.value.rest);
        if c.Ok? {
          MappingsExtend(w, c.value.rest, e);
        }
      }
    }
  }

  lemma FixedExtend(version: u8, s: bytes, e: bytes)
    requires |s| >= 104
    ensures ParseFixed(version, s + e) == Extended(ParseFixed(version, s), e)
  {
    var t := s + e;
    var q := SchemaDefinitionOffset(version);
    var p := TypeOffset(version);
    assert t[..16] == s[..16];
    assert t[16..18] == s[16..18];
    assert t[18..26] == s[18..26] && t[26..34] == s[26..34] && t[34..42] == s[34..42];
    assert t[p + 3..p + 5] == s[p + 3..p + 5];
    assert t[q..q + 4] == s[q..q + 4];
    assert t[q + 4..] == s[q + 4..] + e;
  }

  /** A frame that parses, or fails, within its declared length does the same
      when the buffer holds more bytes behind it. */
  lemma ExtensionStable(version: u8, s: bytes, e: bytes)
    requires |s| >= 104
    requires ParseFields(version, s) != Err(Truncated)
    ensures ParseFields(version, s + e) == Extended(ParseFields(version, s), e)
    ensures DecodeFields(version, s + e) == DecodeFields(version, s)
  {
    hide ParseFixed, ParseVariable;
    FixedExtend(version, s, e);
    var f := ParseFixed(version, s);
    if f.Ok? {
      VariableExtend(f.value.value, f.value.rest, e);
    }
  }

  // ----- enough bytes after a truncated frame change something -----

  /** How many bytes must follow before no count reaches past the end. */
  lemma RepeatedReach(width: nat, s: bytes) returns (e: bytes)
    ensures ParseRepeated(width, s + e) != Err(Truncated)
  {
    var head := if |s| < 4 then Zeros(4 - |s|) else [];
    var count := FromLe((s + head)[..4]);
    MulNonNegative(count, width);
    e := head + Zeros(count * width);
    assert (s + e)[..4] == (s + head)[..4];
  }

  lemma CountedReach(width: nat, s: bytes) returns (e: bytes)
    requires |s| >= 4
    ensures ParseCounted(width, s + e) != Err(Truncated)
  {
    var count := FromLe(s[..4]);
    MulNonNegative(count, 8 + width);
    e := Zeros(count * (8 + width));
    Front(s, 4, e);
  }

  lemma MappingReach(width: nat, s: bytes) returns (e: bytes)
    ensures ParseMapping(width, s + e) != Err(Truncated)
  {
    hide ParseCStr, ParseCounted;
    var head := if |s| < width + 4 then Zeros(width + 4 - |s|) else [];
    var t := s + head;
    var raw := ParseCStr(width, t);
    e := head;
    if raw.Ok? {
      var more := CountedReach(width, raw.value.rest);
      CStrExtend(width, t, more);
      Regroup(s, head, more);
      e := head + more;
    }
  }

  lemma {:induction false} MappingListReach(width: nat, count: nat, s: bytes) returns (e: bytes)
    ensures ParseMappingList(width, count, s + e) != Err(Truncated)
    decreases count
  {
    hide ParseMapping;
    if count == 0 {
      e := [];
    } else {
      e := MappingReach(width, s);
      var first := ParseMapping(width, s + e);
      if first.Ok? {
        var more := MappingListReach(width, count - 1, first.value.rest);
        MappingExtend(width, s + e, more);
        Regroup(s, e, more);
        e := e + more;
      }
    }
  }

  lemma MappingsReach(width: nat, s: bytes) returns (e: bytes)
    ensures ParseMappings(width, s + e) != Err(Truncated)
  {
    hide ParseMappingList, FromLe;
    var head := if |s| < 4 then Zeros(4 - |s|) else [];
    var t := s + head;
    var more := MappingListReach(width, FromLe(t[..4]), t[4..]);
    Front(t, 4, more);
    Regroup(s, head, more);
    e := head + more;
  }

  /** Extends a string so that its next list is complete, if it has one. */
  lemma NextRepeated(width: nat, s: bytes) returns (e: bytes, r: Parse<seq<bytes>>)
    ensures r == ParseRepeated(width, s + e) != Err(Truncated)
    ensures forall more :: ParseRepeated(width, s + (e + more)) == Extended(r, more)
  {
    hide ParseRepeated;
    e := RepeatedReach(width, s);
    r := ParseRepeated(width, s + e);
    forall more ensures ParseRepeated(width, s + (e + more)) == Extended(r, more) {
      RepeatedExtend(width, s + e, more);
      Regroup(s, e, more);
    }
  }

  lemma VariableReach(m: Metadata, s: bytes) returns (e: bytes)
    ensures ParseVariable(m, s + e) != Err(Truncated)
  {
    hide ParseRepeated, ParseMappings;
    var w := m.symbolCstrLen;
    var e1, a := NextRepeated(w, s);
    e := e1;
    if a.Err? { return; }
    var e2, b := NextRepeated(w, a.value.rest);
    e := e1 + e2;
    if b.Err? { return; }
    var e3, c := NextRepeated(w, b.value.rest);
    e := e1 + (e2 + e3);
    if c.Err? { return; }
    var e4 := MappingsReach(w, c.value.rest);
    e := e1 + (e2 + (e3 + e4));
  }

  /** The fields of a frame do not depend on what follows it exactly when the
      frame does not count past its own end. */
  lemma IndependentExactly(version: u8, s: bytes)
    requires |s| >= 104
    ensures (forall e :: DecodeFields(version, s + e) == DecodeFields(version, s)) <==>
            ParseFields(version, s) != Err(Truncated)
  {
    hide ParseFields;
    if ParseFields(version, s) != Err(Truncated) {
      forall e ensures DecodeFields(version, s + e) == DecodeFields(version, s) {
        ExtensionStable(version, s, e);
      }
    } else {
      var e := FieldsReach(version, s);
      assert DecodeFields(version, s + e) != DecodeFields(version, s);
    }
  }

  lemma FieldsReach(version: u8, s: bytes) returns (e: bytes)
    requires |s| >= 104
    ensures ParseFields(version, s + e) != Err(Truncated)
  {
    hide ParseFixed, ParseVariable;
    var f := ParseFixed(version, s);
    e := [];
    if f.Ok? {
      e := VariableReach(f.value.value, f.value.rest);
    }
    FixedExtend(version, s, e);
  }
}
