/** What the time-series index says, in terms of the metadata alone. */
module IndexMeaning {
  import opened Bytes
  import opened Metadatas
  import opened Calendar
  import opened DecimalText
  import opened SymbolMaps

  /** Interval `j` of mapping `i` covers the date and gives the instrument this
      name: if instrument IDs were queried, the raw symbol is the ID and the
      interval's symbol is the name, otherwise the other way round. */
  predicate NamedBy(m: Metadata, i: nat, j: nat, d: Civil, iid: u32, name: bytes) {
    i < |m.mappings| && j < |m.mappings[i].intervals| &&
    var raw, iv := m.mappings[i].rawSymbol, m.mappings[i].intervals[j];
    && iv.symbol != []
    && DayNumber(ToCivil(iv.startDate)) <= DayNumber(d) < DayNumber(ToCivil(iv.endDate))
    && if m.stypeIn == Some(0) then ParseId(raw) == Ok(iid) && name == iv.symbol
       else ParseId(iv.symbol) == Ok(iid) && name == raw
  }

  /** No earlier interval names the instrument, under any name. */
  ghost predicate FirstNamed(m: Metadata, i: nat, j: nat, d: Civil, iid: u32) {
    forall a: nat, b: nat, name: bytes :: a < i || (a == i && b < j) ==> !NamedBy(m, a, b, d, iid, name)
  }

  /** Metadata can be indexed exactly when one of their symbologies is the
      instrument ID. */
  lemma IndexableExactly(m: Metadata)
    ensures IsInverse(m) == (if m.stypeIn == Some(0) then Ok(true)
                             else if m.stypeIn.Some? && m.stypeOut == 0 then Ok(false)
                             else Err(NoInstrumentId))
  {
  }

  // ----- one mapping -----

  function NameAt(inverse: bool, raw: bytes, rawId: u32, iv: Interval, d: Civil, iid: u32): Option<bytes> {
    if DayNumber(ToCivil(iv.startDate)) <= DayNumber(d) < DayNumber(ToCivil(iv.endDate)) then
      FoundAt(inverse, raw, rawId, Some(iv), iid)
    else None
  }

  lemma {:induction false} FirstInMapping(inverse: bool, raw: bytes, rawId: u32, ivs: seq<Interval>, d: Civil, iid: u32)
    returns (j: nat)
    requires IntervalEntries(inverse, raw, rawId, ivs).Ok?
    ensures j <= |ivs|
    ensures forall b :: 0 <= b < j ==> NameAt(inverse, raw, rawId, ivs[b], d, iid) == None
    ensures var found := Search(IntervalEntries(inverse, raw, rawId, ivs).value, d, iid);
            if j < |ivs| then found.Some? && NameAt(inverse, raw, rawId, ivs[j], d, iid) == found else found == None
  {
    hide DayNumber, FoundAt;
    if ivs == [] {
      j := 0;
    } else {
      SearchFirst(inverse, raw, rawId, ivs, d, iid);
      hide IntervalEntries, Search;
      if NameAt(inverse, raw, rawId, ivs[0], d, iid).Some? {
        j := 0;
      } else {
        var k := FirstInMapping(inverse, raw, rawId, ivs[1..], d, iid);
        j := k + 1;
        assert forall b :: 1 <= b < |ivs| ==> ivs[b] == ivs[1..][b - 1];
      }
    }
  }

  // ----- all mappings -----

  lemma {:induction false} FirstMapping(inverse: bool, ms: seq<Mapping>, d: Civil, iid: u32) returns (i: nat)
    requires AllEntries(inverse, ms).Ok?
    ensures i <= |ms|
    ensures forall a :: 0 <= a < |ms| ==> MappingEntries(inverse, ms[a]).Ok?
    ensures forall a :: 0 <= a < i ==> Indexed(inverse, ms[a], d, iid) == None
    ensures var found := Search(AllEntries(inverse, ms).value, d, iid);
            if i < |ms| then found.Some? && Indexed(inverse, ms[i], d, iid) == found else found == None
  {
    hide MappingEntries, Search;
    if ms == [] {
      i := 0;
      NoMappings(inverse, d, iid);
    } else {
      MappingStep(inverse, ms);
      SearchAppend(MappingEntries(inverse, ms[0]).value, AllEntries(inverse, ms[1..]).value, d, iid);
      hide AllEntries;
      var k := FirstMapping(inverse, ms[1..], d, iid);
      assert forall a :: 1 <= a < |ms| ==> ms[a] == ms[1..][a - 1];
      i := if Indexed(inverse, ms[0], d, iid).Some? then 0 else k + 1;
    }
  }

  lemma NamedByIs(m: Metadata, i: nat, j: nat, d: Civil, iid: u32, name: bytes)
    requires IsInverse(m).Ok? && i < |m.mappings| && j < |m.mappings[i].intervals|
    requires RawId(IsInverse(m).value, m.mappings[i].rawSymbol).Ok?
    ensures var raw := m.mappings[i].rawSymbol; var inverse := IsInverse(m).value;
            NamedBy(m, i, j, d, iid, name) <==>
            NameAt(inverse, raw, RawId(inverse, raw).value, m.mappings[i].intervals[j], d, iid) == Some(name)
  {
    hide DayNumber, ParseId;
  }

  /** The index has a name for an instrument at a date exactly when some interval
      gives it one, and then it is the name the first such interval gives. */
  lemma IndexMeans(m: Metadata, d: Civil, iid: u32)
    requires IsInverse(m).Ok? && AllEntries(IsInverse(m).value, m.mappings).Ok?
    ensures var found := Search(AllEntries(IsInverse(m).value, m.mappings).value, d, iid);
            if found.Some? then
              exists i: nat, j: nat :: NamedBy(m, i, j, d, iid, found.value) && FirstNamed(m, i, j, d, iid)
            else
              forall i: nat, j: nat, name: bytes :: !NamedBy(m, i, j, d, iid, name)
  {
    hide DayNumber, ParseId, Search, AllEntries, IntervalEntries, NamedBy, NameAt, IsInverse;
    var inverse := IsInverse(m).value;
    var i := FirstMapping(inverse, m.mappings, d, iid);
    forall a: nat, b: nat, name: bytes | a < i && b < |m.mappings[a].intervals|
      ensures !NamedBy(m, a, b, d, iid, name)
    {
      UnnamedMapping(m, a, d, iid);
    }
    OutOfBounds(m, d, iid);
    if i < |m.mappings| {
      var raw := m.mappings[i].rawSymbol;
      var j := FirstInMapping(inverse, raw, RawId(inverse, raw).value, m.mappings[i].intervals, d, iid);
      var found := Search(AllEntries(inverse, m.mappings).value, d, iid);
      NamedByIs(m, i, j, d, iid, found.value);
      forall b: nat, name: bytes | b < j
        ensures !NamedBy(m, i, b, d, iid, name)
      {
        NamedByIs(m, i, b, d, iid, name);
      }
      assert FirstNamed(m, i, j, d, iid);
    }
  }

  lemma UnnamedMapping(m: Metadata, i: nat, d: Civil, iid: u32)
    requires IsInverse(m).Ok? && i < |m.mappings| && MappingEntries(IsInverse(m).value, m.mappings[i]).Ok?
    requires Indexed(IsInverse(m).value, m.mappings[i], d, iid) == None
    ensures forall j: nat, name: bytes | j < |m.mappings[i].intervals| :: !NamedBy(m, i, j, d, iid, name)
  {
    hide DayNumber, ParseId, Search, IntervalEntries, NamedBy, NameAt, IsInverse;
    var inverse, raw := IsInverse(m).value, m.mappings[i].rawSymbol;
    var k := FirstInMapping(inverse, raw, RawId(inverse, raw).value, m.mappings[i].intervals, d, iid);
    forall j: nat, name: bytes | j < |m.mappings[i].intervals|
      ensures !NamedBy(m, i, j, d, iid, name)
    {
      NamedByIs(m, i, j, d, iid, name);
    }
  }

  lemma OutOfBounds(m: Metadata, d: Civil, iid: u32)
    ensures forall i: nat, j: nat, name: bytes :: NamedBy(m, i, j, d, iid, name) ==>
              i < |m.mappings| && j < |m.mappings[i].intervals|
  {
    hide DayNumber, ParseId;
  }

  // ----- what the time-series index refuses -----

  /** An interval with a symbol is refused for a symbol that is no number where it
      should be one, or for an end before its start. */
  predicate IntervalRefused(inverse: bool, iv: Interval, e: MapError) {
    iv.symbol != [] && match e
      case BadNumber => !inverse && ParseId(iv.symbol).Err?
      case EndBeforeStart => Before(ToCivil(iv.endDate), ToCivil(iv.startDate))
      case _ => false
  }

  predicate MappingRefused(inverse: bool, m: Mapping, e: MapError) {
    || (e == BadNumber && inverse && ParseId(m.rawSymbol).Err?)
    || exists iv <- m.intervals :: IntervalRefused(inverse, iv, e)
  }

  lemma FirstOrRest<T>(xs: seq<T>)
    requires xs != []
    ensures xs[0] in xs && (forall x <- xs[1..] :: x in xs) && forall x <- xs :: x == xs[0] || x in xs[1..]
  {
    assert xs == [xs[0]] + xs[1..];
  }

  lemma {:induction false} IntervalsRefusedExactly(inverse: bool, raw: bytes, rawId: u32, ivs: seq<Interval>)
    ensures match IntervalEntries(inverse, raw, rawId, ivs)
            case Ok(_) => forall iv <- ivs, e: MapError :: !IntervalRefused(inverse, iv, e)
            case Err(e) => exists iv <- ivs :: IntervalRefused(inverse, iv, e)
  {
    hide Before, Stoul;
    if ivs == [] {
    } else {
      IntervalsRefusedExactly(inverse, raw, rawId, ivs[1..]);
      IntervalStep(inverse, raw, rawId, ivs);
      hide IntervalEntries;
      FirstOrRest(ivs);
      if IntervalEntries(inverse, raw, rawId, ivs).Err? {
        var e := IntervalEntries(inverse, raw, rawId, ivs).error;
        assert IntervalRefused(inverse, ivs[0], e) || IntervalEntries(inverse, raw, rawId, ivs[1..]) == Err(e);
      }
    }
  }

  lemma MappingRefusedExactly(inverse: bool, m: Mapping)
    ensures match MappingEntries(inverse, m)
            case Ok(_) => forall e: MapError :: !MappingRefused(inverse, m, e)
            case Err(e) => MappingRefused(inverse, m, e)
  {
    hide IntervalEntries, IntervalRefused, Stoul;
    if RawId(inverse, m.rawSymbol).Ok? {
      IntervalsRefusedExactly(inverse, m.rawSymbol, RawId(inverse, m.rawSymbol).value, m.intervals);
    }
  }

  /** The index is built exactly when no mapping is refused, and otherwise the
      error is one that a mapping is refused for. */
  lemma {:induction false} IndexRefusedExactly(inverse: bool, ms: seq<Mapping>)
    ensures match AllEntries(inverse, ms)
            case Ok(_) => forall m <- ms, e: MapError :: !MappingRefused(inverse, m, e)
            case Err(e) => exists m <- ms :: MappingRefused(inverse, m, e)
  {
    hide MappingEntries, MappingRefused;
    if ms == [] {
    } else {
      MappingRefusedExactly(inverse, ms[0]);
      IndexRefusedExactly(inverse, ms[1..]);
      FirstOrRest(ms);
    }
  }

  // ----- the point-in-time index -----

  /** Interval `j` of mapping `i` is the first of the mapping to cover the date. */
  predicate FirstToCover(m: Metadata, i: nat, j: nat, d: Civil) {
    i < |m.mappings| && j < |m.mappings[i].intervals| &&
    var ivs := m.mappings[i].intervals;
    && !Before(d, ToCivil(ivs[j].startDate)) && Before(d, ToCivil(ivs[j].endDate))
    && forall b :: 0 <= b < j ==> !IntervalCovers(ivs[b], d)
  }

  /** It has a symbol, and with it the mapping gives the instrument this name. */
  predicate ShownBy(m: Metadata, i: nat, j: nat, d: Civil, iid: u32, name: bytes) {
    FirstToCover(m, i, j, d) &&
    var raw, iv := m.mappings[i].rawSymbol, m.mappings[i].intervals[j];
    && iv.symbol != []
    && if m.stypeIn == Some(0) then ParseId(raw) == Ok(iid) && name == iv.symbol
       else ParseId(iv.symbol) == Ok(iid) && name == raw
  }

  lemma {:induction false} FirstCoveringAt(ivs: seq<Interval>, d: Civil) returns (j: nat)
    ensures j <= |ivs| && forall b :: 0 <= b < j ==> !IntervalCovers(ivs[b], d)
    ensures if j < |ivs| then IntervalCovers(ivs[j], d) && FirstCovering(ivs, d) == Some(ivs[j])
            else FirstCovering(ivs, d) == None
  {
    hide IntervalCovers;
    if ivs == [] || IntervalCovers(ivs[0], d) {
      j := 0;
    } else {
      var k := FirstCoveringAt(ivs[1..], d);
      j := k + 1;
      assert forall b :: 1 <= b < |ivs| ==> ivs[b] == ivs[1..][b - 1];
    }
  }

  /** The one pair, if it is for this instrument. */
  function NameIn(p: Option<Pair>, iid: u32): Option<bytes> {
    if p.Some? && p.value.iid == iid then Some(p.value.symbol) else None
  }

  lemma {:induction false} FirstShowing(inverse: bool, ms: seq<Mapping>, d: Civil, iid: u32) returns (i: nat)
    requires PairsAt(inverse, ms, d).Ok?
    ensures i <= |ms| && forall a :: 0 <= a < |ms| ==> PairAt(inverse, ms[a], d).Ok?
    ensures forall a :: 0 <= a < i ==> NameIn(PairAt(inverse, ms[a], d).value, iid) == None
    ensures var found := Lookup(PairsAt(inverse, ms, d).value, iid);
            if i < |ms| then found.Some? && NameIn(PairAt(inverse, ms[i], d).value, iid) == found else found == None
  {
    hide PairAt;
    if ms == [] {
      i := 0;
    } else {
      var k := FirstShowing(inverse, ms[1..], d, iid);
      assert forall a :: 1 <= a < |ms| ==> ms[a] == ms[1..][a - 1];
      var p, rest := PairAt(inverse, ms[0], d).value, PairsAt(inverse, ms[1..], d).value;
      FirstPair(p, rest, iid);
      hide PairsAt, Lookup;
      i := if NameIn(p, iid).Some? then 0 else k + 1;
    }
  }

  lemma FirstPair(p: Option<Pair>, rest: seq<Pair>, iid: u32)
    ensures Lookup((if p.Some? then [p.value] else []) + rest, iid) == OrElse(NameIn(p, iid), Lookup(rest, iid))
  {
    if p.Some? {
      assert ([p.value] + rest)[1..] == rest;
    } else {
      assert [] + rest == rest;
    }
  }

  /** What a mapping contributes at a date is what its first covering interval
      shows. */
  lemma PairMeans(m: Metadata, i: nat, d: Civil, iid: u32) returns (k: nat)
    requires IsInverse(m).Ok? && i < |m.mappings| && PairAt(IsInverse(m).value, m.mappings[i], d).Ok?
    ensures var found := NameIn(PairAt(IsInverse(m).value, m.mappings[i], d).value, iid);
            if found.Some? then ShownBy(m, i, k, d, iid, found.value)
            else forall j: nat, name: bytes :: !ShownBy(m, i, j, d, iid, name)
  {
    hide ParseId, Before;
    k := FirstCoveringAt(m.mappings[i].intervals, d);
    hide FirstCovering;
  }

  /** The point-in-time index has a name for an instrument exactly when the first
      interval of some mapping that covers the date shows one, and then it is the
      name that the first such mapping shows. */
  lemma SliceMeans(m: Metadata, d: Civil, iid: u32)
    requires IsInverse(m).Ok? && PairsAt(IsInverse(m).value, m.mappings, d).Ok?
    ensures var found := Lookup(PairsAt(IsInverse(m).value, m.mappings, d).value, iid);
            if found.Some? then
              exists i: nat, j: nat :: ShownBy(m, i, j, d, iid, found.value) && NoneShownBefore(m, i, d, iid)
            else
              forall i: nat, j: nat, name: bytes :: !ShownBy(m, i, j, d, iid, name)
  {
    hide ShownBy, PairAt, PairsAt, Lookup, IsInverse;
    var i := FirstShowing(IsInverse(m).value, m.mappings, d, iid);
    forall a: nat, j: nat, name: bytes | a < i
      ensures !ShownBy(m, a, j, d, iid, name)
    {
      var _ := PairMeans(m, a, d, iid);
    }
    if i < |m.mappings| {
      var k := PairMeans(m, i, d, iid);
      assert NoneShownBefore(m, i, d, iid);
    } else {
      NothingBeyond(m, d, iid);
    }
  }

  ghost predicate NoneShownBefore(m: Metadata, i: nat, d: Civil, iid: u32) {
    forall a: nat, b: nat, name: bytes :: a < i ==> !ShownBy(m, a, b, d, iid, name)
  }

  lemma NothingBeyond(m: Metadata, d: Civil, iid: u32)
    ensures forall i: nat, j: nat, name: bytes :: i >= |m.mappings| ==> !ShownBy(m, i, j, d, iid, name)
  {
    hide ParseId, Before;
  }

  /** A mapping is refused at a date exactly when the text that should be its
      instrument ID is no number; only the interval that is shown is looked at. */
  predicate SliceRefused(inverse: bool, m: Mapping, d: Civil) {
    var shown := FirstCovering(m.intervals, d);
    shown.Some? && shown.value.symbol != [] && ParseId(if inverse then m.rawSymbol else shown.value.symbol).Err?
  }

  lemma {:induction false} SliceRefusedExactly(inverse: bool, ms: seq<Mapping>, d: Civil)
    ensures PairsAt(inverse, ms, d).Ok? <==> forall m <- ms :: !SliceRefused(inverse, m, d)
    ensures PairsAt(inverse, ms, d).Err? ==> PairsAt(inverse, ms, d).error == BadNumber
  {
    hide FirstCovering, Stoul;
    if ms == [] {
    } else {
      SliceRefusedExactly(inverse, ms[1..], d);
      FirstOrRest(ms);
    }
  }
}
