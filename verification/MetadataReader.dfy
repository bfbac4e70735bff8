/** The metadata decoder as the source runs it: a cursor that moves through the
    buffer, with the bounds checks where the source has them. Each step is tied
    to the parse of the bytes under the cursor, and the cursor never passes the
    end of the buffer. */
module MetadataReading {
  import opened Bytes
  import opened Constants
  import opened Metadatas
  import opened MetadataEncoding
  import opened MetadataDecoding

  /** The step's result and cursor are what the parse gives and leaves. */
  ghost predicate Agrees<T>(r: Result<T, DecodeError>, buf: bytes, pos: nat, parse: Parse<T>)
    requires pos <= |buf|
  {
    if r.Ok? then parse == Ok(Parsed(r.value, buf[pos..])) else parse == Err(r.error)
  }

  method DecodeSymbol(width: nat, buf: bytes, start: nat) returns (r: Result<bytes, DecodeError>, pos: nat)
    requires start + width <= |buf|
    ensures pos == start + width
    ensures Agrees(r, buf, pos, ParseCStr(width, buf[start..]))
  {
    pos := start + width;
    var strLen := 0;
    while strLen < width && buf[start + strLen] != 0
      invariant 0 <= strLen <= width
      invariant 0 !in buf[start..start + strLen]
    {
      strLen := strLen + 1;
    }
    ghost var str := buf[start..][..width];
    assert str == buf[start..start + width];
    assert str[..strLen] == buf[start..start + strLen];
    FindNulIs(str, strLen);
    if strLen == width {
      return Err(MissingNul), pos;
    }
    assert CutNul(str) == buf[start..start + strLen];
    return Ok(buf[start..start + strLen]), pos;
  }

  lemma CStrsDone(width: nat, s: bytes, done: seq<bytes>)
    ensures Prepend(done, ParseCStrs(width, 0, s)) == Ok(Parsed(done, s))
  {
    assert done + [] == done;
  }

  /** One turn of the symbol loop. */
  lemma CStrsStep(width: nat, count: nat, buf: bytes, pos: nat, done: seq<bytes>)
    requires pos <= |buf| && 0 < count && count * width <= |buf| - pos
    ensures pos + width <= |buf| && 0 <= (count - 1) * width <= |buf| - (pos + width)
    ensures var first := ParseCStr(width, buf[pos..]);
            Prepend(done, ParseCStrs(width, count, buf[pos..])) ==
            if first.Ok? then Prepend(done + [first.value.value], ParseCStrs(width, count - 1, buf[pos + width..]))
            else Err(first.error)
  {
    DropOne(buf[pos..], count, width);
    var first := ParseCStr(width, buf[pos..]);
    assert buf[pos..][width..] == buf[pos + width..];
    if first.Ok? {
      PrependTwice(done, [first.value.value], ParseCStrs(width, count - 1, buf[pos + width..]));
    }
  }

  method DecodeSymbols(width: nat, count: nat, buf: bytes, start: nat)
    returns (r: Result<seq<bytes>, DecodeError>, pos: nat)
    requires start <= |buf| && count * width <= |buf| - start
    ensures start <= pos <= |buf|
    ensures Agrees(r, buf, pos, ParseCStrs(width, count, buf[start..]))
  {
    hide ParseCStrs, Prepend;
    pos := start;
    var res := [];
    PrependNothing(ParseCStrs(width, count, buf[start..]));
    var left: nat := count;
    while left > 0
      invariant left <= count
      invariant start <= pos <= |buf| && 0 <= left * width <= |buf| - pos
      invariant ParseCStrs(width, count, buf[start..]) == Prepend(res, ParseCStrs(width, left, buf[pos..]))
    {
      CStrsStep(width, left, buf, pos, res);
      var symbol;
      symbol, pos := DecodeSymbol(width, buf, pos);
      if symbol.Err? {
        return Err(symbol.error), pos;
      }
      res := res + [symbol.value];
      left := left - 1;
    }
    CStrsDone(width, buf[pos..], res);
    return Ok(res), pos;
  }

  method DecodeRepeatedSymbol(width: nat, buf: bytes, start: nat) returns (r: Result<seq<bytes>, DecodeError>, pos: nat)
    requires start <= |buf|
    ensures start <= pos <= |buf|
    ensures Agrees(r, buf, pos, ParseRepeated(width, buf[start..]))
  {
    pos := start;
    if pos + 4 > |buf| {
      return Err(Truncated), pos;
    }
    assert buf[start..][..4] == buf[start..start + 4];
    var count := FromLe(buf[pos..pos + 4]);
    pos := pos + 4;
    assert buf[start..][4..] == buf[pos..];
    if pos + count * width > |buf| {
      return Err(Truncated), pos;
    }
    r, pos := DecodeSymbols(width, count, buf, pos);
  }

  lemma PrependTwice<T>(a: seq<T>, b: seq<T>, r: Parse<seq<T>>)
    ensures Prepend(a, Prepend(b, r)) == Prepend(a + b, r)
  {
    if r.Ok? {
      assert a + (b + r.value.value) == (a + b) + r.value.value;
    }
  }

  lemma PrependNothing<T>(r: Parse<seq<T>>)
    ensures Prepend([], r) == r
  {
    if r.Ok? {
      assert [] + r.value.value == r.value.value;
    }
  }

  method DecodeInterval(width: nat, buf: bytes, start: nat) returns (r: Result<Interval, DecodeError>, pos: nat)
    requires start + (8 + width) <= |buf|
    ensures pos == start + (8 + width)
    ensures Agrees(r, buf, pos, ParseInterval(width, buf[start..]))
  {
    ghost var s := buf[start..];
    assert s[0..4] == buf[start..start + 4] && s[4..8] == buf[start + 4..start + 8];
    pos := start;
    var rawStartDate := U32At(buf, pos);
    pos := pos + 4;
    var rawEndDate := U32At(buf, pos);
    pos := pos + 4;
    assert s[8..] == buf[pos..];
    var symbol;
    symbol, pos := DecodeSymbol(width, buf, pos);
    if symbol.Err? {
      return Err(symbol.error), pos;
    }
    return Ok(Interval(DecodeDate(rawStartDate), DecodeDate(rawEndDate), symbol.value)), pos;
  }

  lemma IntervalsDone(width: nat, s: bytes, done: seq<Interval>)
    ensures Prepend(done, ParseIntervals(width, 0, s)) == Ok(Parsed(done, s))
  {
    assert done + [] == done;
  }

  lemma IntervalsStep(width: nat, count: nat, buf: bytes, pos: nat, done: seq<Interval>)
    requires pos <= |buf| && 0 < count && count * (8 + width) <= |buf| - pos
    ensures pos + (8 + width) <= |buf| && 0 <= (count - 1) * (8 + width) <= |buf| - (pos + (8 + width))
    ensures var first := ParseInterval(width, buf[pos..]);
            Prepend(done, ParseIntervals(width, count, buf[pos..])) ==
            if first.Ok? then
              Prepend(done + [first.value.value], ParseIntervals(width, count - 1, buf[pos + (8 + width)..]))
            else Err(first.error)
  {
    DropOne(buf[pos..], count, 8 + width);
    var first := ParseInterval(width, buf[pos..]);
    assert buf[pos..][8 + width..] == buf[pos + (8 + width)..];
    if first.Ok? {
      PrependTwice(done, [first.value.value], ParseIntervals(width, count - 1, buf[pos + (8 + width)..]));
    }
  }

  method DecodeIntervals(width: nat, count: nat, buf: bytes, start: nat)
    returns (r: Result<seq<Interval>, DecodeError>, pos: nat)
    requires start <= |buf| && count * (8 + width) <= |buf| - start
    ensures start <= pos <= |buf|
    ensures Agrees(r, buf, pos, ParseIntervals(width, count, buf[start..]))
  {
    hide ParseIntervals, ParseInterval, Prepend;
    pos := start;
    var res := [];
    PrependNothing(ParseIntervals(width, count, buf[start..]));
    var left: nat := count;
    while left > 0
      invariant left <= count
      invariant start <= pos <= |buf| && 0 <= left * (8 + width) <= |buf| - pos
      invariant ParseIntervals(width, count, buf[start..]) == Prepend(res, ParseIntervals(width, left, buf[pos..]))
    {
      IntervalsStep(width, left, buf, pos, res);
      var interval;
      interval, pos := DecodeInterval(width, buf, pos);
      if interval.Err? {
        return Err(interval.error), pos;
      }
      res := res + [interval.value];
      left := left - 1;
    }
    IntervalsDone(width, buf[pos..], res);
    return Ok(res), pos;
  }

  method DecodeSymbolMapping(width: nat, buf: bytes, start: nat) returns (r: Result<Mapping, DecodeError>, pos: nat)
    requires start <= |buf|
    ensures start <= pos <= |buf|
    ensures Agrees(r, buf, pos, ParseMapping(width, buf[start..]))
  {
    pos := start;
    if pos + width + 4 > |buf| {
      return Err(Truncated), pos;
    }
    var rawSymbol;
    rawSymbol, pos := DecodeSymbol(width, buf, pos);
    if rawSymbol.Err? {
      return Err(rawSymbol.error), pos;
    }
    assert buf[pos..][..4] == buf[pos..pos + 4];
    var count := FromLe(buf[pos..pos + 4]);
    assert buf[pos..][4..] == buf[pos + 4..];
    pos := pos + 4;
    if pos + count * (8 + width) > |buf| {
      return Err(Truncated), pos;
    }
    var intervals;
    intervals, pos := DecodeIntervals(width, count, buf, pos);
    if intervals.Err? {
      return Err(intervals.error), pos;
    }
    return Ok(Mapping(rawSymbol.value, intervals.value)), pos;
  }

  lemma MappingListDone(width: nat, s: bytes, done: seq<Mapping>)
    ensures Prepend(done, ParseMappingList(width, 0, s)) == Ok(Parsed(done, s))
  {
    assert done + [] == done;
  }

  lemma MappingListStep(width: nat, count: nat, s: bytes, done: seq<Mapping>)
    requires 0 < count
    ensures var first := ParseMapping(width, s);
            Prepend(done, ParseMappingList(width, count, s)) ==
            if first.Ok? then Prepend(done + [first.value.value], ParseMappingList(width, count - 1, first.value.rest))
            else Err(first.error)
  {
    var first := ParseMapping(width, s);
    if first.Ok? {
      PrependTwice(done, [first.value.value], ParseMappingList(width, count - 1, first.value.rest));
    }
  }

  method DecodeMappingList(width: nat, count: nat, buf: bytes, start: nat)
    returns (r: Result<seq<Mapping>, DecodeError>, pos: nat)
    requires start <= |buf|
    ensures start <= pos <= |buf|
    ensures Agrees(r, buf, pos, ParseMappingList(width, count, buf[start..]))
  {
    hide ParseMappingList, ParseMapping, Prepend;
    pos := start;
    var res := [];
    PrependNothing(ParseMappingList(width, count, buf[start..]));
    var left: nat := count;
    while left > 0
      invariant left <= count
      invariant start <= pos <= |buf|
      invariant ParseMappingList(width, count, buf[start..]) == Prepend(res, ParseMappingList(width, left, buf[pos..]))
    {
      MappingListStep(width, left, buf[pos..], res);
      var mapping;
      mapping, pos := DecodeSymbolMapping(width, buf, pos);
      if mapping.Err? {
        return Err(mapping.error), pos;
      }
      res := res + [mapping.value];
      left := left - 1;
    }
    MappingListDone(width, buf[pos..], res);
    return Ok(res), pos;
  }

  method DecodeSymbolMappings(width: nat, buf: bytes, start: nat)
    returns (r: Result<seq<Mapping>, DecodeError>, pos: nat)
    requires start <= |buf|
    ensures start <= pos <= |buf|
    ensures Agrees(r, buf, pos, ParseMappings(width, buf[start..]))
  {
    pos := start;
    if pos + 4 > |buf| {
      return Err(Truncated), pos;
    }
    assert buf[start..][..4] == buf[start..start + 4];
    var count := FromLe(buf[pos..pos + 4]);
    pos := pos + 4;
    assert buf[start..][4..] == buf[pos..];
    r, pos := DecodeMappingList(width, count, buf, pos);
  }

  method DecodeFixedFields(version: u8, buf: bytes) returns (r: Result<Metadata, DecodeError>, pos: nat)
    requires |buf| >= 104
    ensures pos <= |buf|
    ensures Agrees(r, buf, pos, ParseFixed(version, buf))
  {
    pos := 0;
    if version > DBN_VERSION {
      return Err(NewerVersion), pos;
    }
    assert buf[0..] == buf;
    var dataset;
    dataset, pos := DecodeSymbol(DATASET_CSTR_LEN, buf, pos);
    if dataset.Err? {
      return Err(dataset.error), pos;
    }
    var rawSchema := U16At(buf, pos);
    pos := pos + 2;
    var start := U64At(buf, pos);
    pos := pos + 8;
    var end := U64At(buf, pos);
    pos := pos + 8;
    var limit := U64At(buf, pos);
    pos := pos + 8;
    if version == 1 {
      // the deprecated record count
      pos := pos + 8;
    }
    var rawStypeIn := buf[pos];
    pos := pos + 1;
    var stypeOut := buf[pos];
    pos := pos + 1;
    var tsOut := buf[pos] != 0;
    pos := pos + 1;
    var symbolCstrLen := SYMBOL_CSTR_LEN_V1;
    if version > 1 {
      symbolCstrLen := U16At(buf, pos);
      pos := pos + 2;
    }
    pos := pos + if version == 1 then METADATA_RESERVED_LEN_V1 else METADATA_RESERVED_LEN;
    var schemaDefinitionLength := U32At(buf, pos);
    pos := pos + 4;
    if schemaDefinitionLength != 0 {
      return Err(SchemaDefinition), pos;
    }
    return Ok(Metadata(version, dataset.value,
                       if rawSchema == NULL_SCHEMA then None else Some(rawSchema),
                       start, end, limit,
                       if rawStypeIn == NULL_STYPE then None else Some(rawStypeIn),
                       stypeOut, tsOut, symbolCstrLen, [], [], [], [])), pos;
  }

  /** Decodes the fields of a frame from the start of `buf`, which may run on
      past the frame. */
  method DecodeMetadataFields(version: u8, buf: bytes) returns (r: Result<Metadata, DecodeError>)
    requires |buf| >= 104
    ensures r == DecodeFields(version, buf)
  {
    var res, pos := DecodeFixedFields(version, buf);
    if res.Err? {
      return Err(res.error);
    }
    var m := res.value;
    var symbols, partial, notFound, mappings;
    symbols, pos := DecodeRepeatedSymbol(m.symbolCstrLen, buf, pos);
    if symbols.Err? {
      return Err(symbols.error);
    }
    partial, pos := DecodeRepeatedSymbol(m.symbolCstrLen, buf, pos);
    if partial.Err? {
      return Err(partial.error);
    }
    notFound, pos := DecodeRepeatedSymbol(m.symbolCstrLen, buf, pos);
    if notFound.Err? {
      return Err(notFound.error);
    }
    mappings, pos := DecodeSymbolMappings(m.symbolCstrLen, buf, pos);
    if mappings.Err? {
      return Err(mappings.error);
    }
    return Ok(m.(symbols := symbols.value, partial := partial.value,
                 notFound := notFound.value, mappings := mappings.value));
  }
}
