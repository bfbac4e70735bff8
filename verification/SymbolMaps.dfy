/** The two indexes built from metadata mappings: by date and instrument ID, and
    by instrument ID at one date. */
module SymbolMaps {
  import opened Bytes
  import opened Metadatas
  import opened Calendar
  import opened DecimalText

  const STYPE_INSTRUMENT_ID: u8 := 0
  const NANOS_PER_DAY: nat := 86_400_000_000_000

  datatype MapError = NoInstrumentId | BadNumber | EndBeforeStart | OutsideRange

  /** Are the raw symbols the instrument IDs? */
  function IsInverse(m: Metadata): Result<bool, MapError> {
    if m.stypeIn == Some(STYPE_INSTRUMENT_ID) then Ok(true)
    else if m.stypeIn.Some? && m.stypeOut == STYPE_INSTRUMENT_ID then Ok(false)
    else Err(NoInstrumentId)
  }

  /** `std::stoul`, and the cast to 32 bits. */
  function ParseId(s: bytes): Result<u32, MapError> {
    var n := Stoul(s);
    if n.None? then Err(BadNumber) else Ok(n.value % 0x1_0000_0000)
  }

  /** An instrument ID is read from its decimal text, after any blanks and a plus
      sign, with anything that is not a digit behind it. */
  lemma ParseIdReads(iid: u32, blanks: bytes, sign: bytes, rest: bytes)
    requires AllBlank(blanks) && (sign == [] || sign == [43]) && Ends(rest)
    ensures ParseId(blanks + (sign + (Ascii(Digits(iid)) + rest))) == Ok(iid)
  {
    hide Stoul, Digits, Ascii;
    StoulReads(iid, blanks, sign, rest);
  }

  lemma ParsePlainId(iid: u32)
    ensures ParseId(Ascii(Digits(iid))) == Ok(iid)
  {
    hide ParseId, Digits, Ascii;
    ParseIdReads(iid, [], [], []);
    var text := Ascii(Digits(iid));
    assert [] + ([] + (text + [])) == text;
  }

  /** A text without a digit where the number should start is refused. */
  lemma ParseIdRefuses(blanks: bytes, sign: bytes, rest: bytes)
    requires AllBlank(blanks) && (sign == [] || sign == [43] || sign == [45]) && Ends(rest)
    requires sign == [] && rest != [] ==> !IsBlank(rest[0]) && rest[0] != 43 && rest[0] != 45
    ensures ParseId(blanks + (sign + rest)) == Err(BadNumber)
  {
    hide Stoul;
    StoulRefuses(blanks, sign, rest);
  }

  // ----- what both indexes mean: a linear search over intervals -----

  datatype Entry = Entry(iid: u32, startDate: Civil, endDate: Civil, symbol: bytes)

  predicate Covers(e: Entry, d: Civil) {
    DayNumber(e.startDate) <= DayNumber(d) < DayNumber(e.endDate)
  }

  /** The symbol of the first entry for the instrument that covers the date. */
  function Search(entries: seq<Entry>, d: Civil, iid: u32): Option<bytes> {
    if entries == [] then None
    else if entries[0].iid == iid && Covers(entries[0], d) then Some(entries[0].symbol)
    else Search(entries[1..], d, iid)
  }

  function OrElse<T>(a: Option<T>, b: Option<T>): Option<T> {
    if a.Some? then a else b
  }

  lemma {:induction false} SearchAppend(a: seq<Entry>, b: seq<Entry>, d: Civil, iid: u32)
    ensures Search(a + b, d, iid) == OrElse(Search(a, d, iid), Search(b, d, iid))
  {
    if a == [] {
      assert a + b == b;
    } else {
      assert (a + b)[1..] == a[1..] + b;
      SearchAppend(a[1..], b, d, iid);
    }
  }

  /** The entries of a mapping: intervals without a symbol are skipped, and an
      interval that ends before it starts is an error. */
  function IntervalEntries(inverse: bool, raw: bytes, rawId: u32, ivs: seq<Interval>): Result<seq<Entry>, MapError> {
    if ivs == [] then Ok([])
    else if ivs[0].symbol == [] then IntervalEntries(inverse, raw, rawId, ivs[1..])
    else
      var id := if inverse then Ok(rawId) else ParseId(ivs[0].symbol);
      if id.Err? then Err(id.error)
      else
        var start, end := ToCivil(ivs[0].startDate), ToCivil(ivs[0].endDate);
        if Before(end, start) then Err(EndBeforeStart)
        else
          After([Entry(id.value, start, end, if inverse then ivs[0].symbol else raw)],
                  IntervalEntries(inverse, raw, rawId, ivs[1..]))
  }

  function RawId(inverse: bool, raw: bytes): Result<u32, MapError> {
    if inverse then ParseId(raw) else Ok(0)
  }

  function MappingEntries(inverse: bool, m: Mapping): Result<seq<Entry>, MapError> {
    var rawId := RawId(inverse, m.rawSymbol);
    if rawId.Err? then Err(rawId.error) else IntervalEntries(inverse, m.rawSymbol, rawId.value, m.intervals)
  }

  function AllEntries(inverse: bool, ms: seq<Mapping>): Result<seq<Entry>, MapError> {
    if ms == [] then Ok([])
    else
      var first := MappingEntries(inverse, ms[0]);
      if first.Err? then first else After(first.value, AllEntries(inverse, ms[1..]))
  }

  predicate ValidInterval(iv: Interval) {
    ValidCivil(ToCivil(iv.startDate)) && ValidCivil(ToCivil(iv.endDate))
  }

  predicate ValidMapping(m: Mapping) {
    forall iv <- m.intervals :: ValidInterval(iv)
  }

  predicate ValidMappings(ms: seq<Mapping>) {
    forall m <- ms :: ValidMapping(m)
  }

  /** The months are months; the days may be days that the month does not have. */
  predicate DatedEntry(e: Entry) {
    HasDayNumber(e.startDate) && HasDayNumber(e.endDate)
  }

  predicate DatedInterval(iv: Interval) {
    HasDayNumber(ToCivil(iv.startDate)) && HasDayNumber(ToCivil(iv.endDate))
  }

  predicate DatedMapping(m: Mapping) {
    forall iv <- m.intervals :: DatedInterval(iv)
  }

  predicate DatedMappings(ms: seq<Mapping>) {
    forall m <- ms :: DatedMapping(m)
  }

  // ----- the time-series index -----

  type Key = (Civil, u32)

  /** The index holds, for valid dates and nothing else, what the search finds. */
  ghost predicate Indexes(index: map<Key, bytes>, entries: seq<Entry>) {
    && (forall d: Civil, iid: u32 :: (d, iid) in index <==> ValidCivil(d) && Search(entries, d, iid).Some?)
    && (forall d: Civil, iid: u32 :: (d, iid) in index ==> Some(index[(d, iid)]) == Search(entries, d, iid))
  }

  class TsSymbolMap {
    var index: map<Key, bytes>

    constructor ()
      ensures index == map[]
    {
      index := map[];
    }

    /** Walks the serial days of an interval and keeps the first symbol for each
        date. */
    method Insert(e: Entry) returns (error: Option<MapError>)
      requires DatedEntry(e)
      modifies this
      ensures error.Some? <==> Before(e.endDate, e.startDate)
      ensures error.Some? ==> index == old(index) && error.value == EndBeforeStart
      ensures forall k :: k in old(index) ==> k in index && index[k] == old(index)[k]
      ensures error.None? ==> forall d: Civil, iid: u32 ::
                (d, iid) in index <==> (d, iid) in old(index) || (iid == e.iid && ValidCivil(d) && Covers(e, d))
      ensures error.None? ==> forall k :: k in index && k !in old(index) ==> index[k] == e.symbol
    {
      hide DayNumber, ValidCivil, Before, FromDay;
      if Before(e.endDate, e.startDate) {
        return Some(EndBeforeStart);
      }
      if e.startDate == e.endDate {
        return None;
      }
      var first, last := DayNumber(e.startDate), DayNumber(e.endDate);
      var day := first;
      while day < last
        invariant first <= day && (day <= last || day == first)
        invariant forall k :: k in old(index) ==> k in index && index[k] == old(index)[k]
        invariant forall d: Civil, iid: u32 ::
                    (d, iid) in index <==>
                    (d, iid) in old(index) || (iid == e.iid && ValidCivil(d) && first <= DayNumber(d) < day)
        invariant forall k :: k in index && k !in old(index) ==> index[k] == e.symbol
      {
        var key := (FromDay(day), e.iid);
        OnlyDate(day);
        if key !in index {
          index := index[key := e.symbol];
        }
        day := day + 1;
      }
      return None;
    }

    /** Insertion extends the search by one entry. */
    method Add(e: Entry, ghost entries: seq<Entry>) returns (error: Option<MapError>)
      requires DatedEntry(e) && Indexes(index, entries)
      modifies this
      ensures error.Some? <==> Before(e.endDate, e.startDate)
      ensures error.Some? ==> error.value == EndBeforeStart
      ensures error.None? ==> Indexes(index, entries + [e])
    {
      hide DayNumber, ValidCivil, Before, Covers, Search;
      error := Insert(e);
      forall d: Civil, iid: u32
        ensures Search(entries + [e], d, iid) ==
                  OrElse(Search(entries, d, iid), if e.iid == iid && Covers(e, d) then Some(e.symbol) else None)
      {
        SearchSnoc(entries, e, d, iid);
      }
    }

    method AddIntervals(inverse: bool, raw: bytes, rawId: u32, ivs: seq<Interval>, ghost before: seq<Entry>)
      returns (error: Option<MapError>)
      requires Indexes(index, before) && forall iv <- ivs :: DatedInterval(iv)
      modifies this
      ensures match IntervalEntries(inverse, raw, rawId, ivs)
              case Err(e) => error == Some(e)
              case Ok(es) => error == None && Indexes(index, before + es)
    {
      hide Indexes, IntervalEntries, ParseId, Before, ValidCivil;
      ghost var done: seq<Entry> := [];
      AfterNothing(IntervalEntries(inverse, raw, rawId, ivs));
      assert before + [] == before;
      var i := 0;
      assert ivs[0..] == ivs;
      while i < |ivs|
        invariant 0 <= i <= |ivs|
        invariant Indexes(index, before + done)
        invariant IntervalEntries(inverse, raw, rawId, ivs) ==
                  After(done, IntervalEntries(inverse, raw, rawId, ivs[i..]))
      {
        var iv := ivs[i];
        assert DatedInterval(iv);
        IntervalStep(inverse, raw, rawId, ivs[i..]);
        assert ivs[i..][1..] == ivs[i + 1..];
        if iv.symbol != [] {
          var id := if inverse then Ok(rawId) else ParseId(iv.symbol);
          if id.Err? {
            return Some(id.error);
          }
          var e := Entry(id.value, ToCivil(iv.startDate), ToCivil(iv.endDate), if inverse then iv.symbol else raw);
          error := Add(e, before + done);
          if error.Some? {
            return;
          }
          AfterTwice(done, [e], IntervalEntries(inverse, raw, rawId, ivs[i + 1..]));
          assert (before + done) + [e] == before + (done + [e]);
          done := done + [e];
        }
        i := i + 1;
      }
      IntervalsDone(inverse, raw, rawId, done);
      assert ivs[i..] == [];
      return None;
    }

    /** The constructor's loop over the mappings. */
    method Load(m: Metadata) returns (error: Option<MapError>)
      requires index == map[] && DatedMappings(m.mappings)
      modifies this
      ensures IsInverse(m).Err? ==> error == Some(IsInverse(m).error)
      ensures IsInverse(m).Ok? ==>
                match AllEntries(IsInverse(m).value, m.mappings)
                case Err(e) => error == Some(e)
                case Ok(es) => error == None && Indexes(index, es)
    {
      hide AllEntries, MappingEntries, DatedMapping, Indexes, IntervalEntries;
      var inverse := IsInverse(m);
      if inverse.Err? {
        return Some(inverse.error);
      }
      var ms := m.mappings;
      ghost var done: seq<Entry> := [];
      AfterNothing(AllEntries(inverse.value, ms));
      EmptyIndexes();
      assert ms[0..] == ms;
      var i := 0;
      while i < |ms|
        invariant 0 <= i <= |ms|
        invariant Indexes(index, done)
        invariant AllEntries(inverse.value, ms) == After(done, AllEntries(inverse.value, ms[i..]))
      {
        MappingStep(inverse.value, ms[i..]);
        assert ms[i..][1..] == ms[i + 1..];
        assert DatedMapping(ms[i]);
        var rawId := RawId(inverse.value, ms[i].rawSymbol);
        if rawId.Err? {
          BadRawId(inverse.value, ms[i]);
          return Some(rawId.error);
        }
        MappingIntervals(inverse.value, ms[i], rawId.value);
        error := AddIntervals(inverse.value, ms[i].rawSymbol, rawId.value, ms[i].intervals, done);
        if error.Some? {
          return;
        }
        ghost var es := MappingEntries(inverse.value, ms[i]).value;
        AfterTwice(done, es, AllEntries(inverse.value, ms[i + 1..]));
        done := done + es;
        i := i + 1;
      }
      assert ms[i..] == [];
      AllDone(inverse.value, done);
      return None;
    }

    /** `Find` by date and instrument ID. */
    function Find(d: Civil, iid: u32): Option<bytes>
      reads this
    {
      if (d, iid) in index then Some(index[(d, iid)]) else None
    }
  }

  /** Exactly one valid date has a given day number. */
  lemma OnlyDate(day: int)
    ensures ValidCivil(FromDay(day)) && DayNumber(FromDay(day)) == day
    ensures forall d: Civil :: ValidCivil(d) && DayNumber(d) == day ==> d == FromDay(day)
  {
    hide DayNumber, ValidCivil, FromDay;
    FromDayInverse(day);
    forall d: Civil | ValidCivil(d) && DayNumber(d) == day
      ensures d == FromDay(day)
    {
      DayRoundTrip(d);
    }
  }

  lemma SearchSnoc(entries: seq<Entry>, e: Entry, d: Civil, iid: u32)
    ensures Search(entries + [e], d, iid) ==
            OrElse(Search(entries, d, iid), if e.iid == iid && Covers(e, d) then Some(e.symbol) else None)
  {
    SearchAppend(entries, [e], d, iid);
  }

  lemma IntervalStep(inverse: bool, raw: bytes, rawId: u32, ivs: seq<Interval>)
    requires ivs != []
    ensures IntervalEntries(inverse, raw, rawId, ivs) ==
            if ivs[0].symbol == [] then IntervalEntries(inverse, raw, rawId, ivs[1..])
            else
              var id := if inverse then Ok(rawId) else ParseId(ivs[0].symbol);
              if id.Err? then Err(id.error)
              else
                var start, end := ToCivil(ivs[0].startDate), ToCivil(ivs[0].endDate);
                if Before(end, start) then Err(EndBeforeStart)
                else After([Entry(id.value, start, end, if inverse then ivs[0].symbol else raw)],
                             IntervalEntries(inverse, raw, rawId, ivs[1..]))
  {
  }

  lemma IntervalsDone(inverse: bool, raw: bytes, rawId: u32, done: seq<Entry>)
    ensures After(done, IntervalEntries(inverse, raw, rawId, [])) == Ok(done)
  {
    assert done + [] == done;
  }

  lemma MappingStep(inverse: bool, ms: seq<Mapping>)
    requires ms != []
    ensures AllEntries(inverse, ms) ==
            var first := MappingEntries(inverse, ms[0]);
            if first.Err? then first else After(first.value, AllEntries(inverse, ms[1..]))
  {
  }

  lemma MappingIntervals(inverse: bool, m: Mapping, rawId: u32)
    requires RawId(inverse, m.rawSymbol) == Ok(rawId)
    ensures MappingEntries(inverse, m) == IntervalEntries(inverse, m.rawSymbol, rawId, m.intervals)
    ensures DatedMapping(m) ==> forall iv <- m.intervals :: DatedInterval(iv)
  {
  }

  lemma BadRawId(inverse: bool, m: Mapping)
    requires RawId(inverse, m.rawSymbol).Err?
    ensures MappingEntries(inverse, m) == Err(RawId(inverse, m.rawSymbol).error)
  {
  }

  lemma AllDone(inverse: bool, done: seq<Entry>)
    ensures After(done, AllEntries(inverse, [])) == Ok(done)
  {
    assert done + [] == done;
  }

  lemma EmptyIndexes()
    ensures Indexes(map[], [])
  {
  }

  // ----- the point-in-time index -----

  /** The first interval that covers a date, compared field by field. */
  function FirstCovering(ivs: seq<Interval>, d: Civil): Option<Interval> {
    if ivs == [] then None
    else if IntervalCovers(ivs[0], d) then Some(ivs[0])
    else FirstCovering(ivs[1..], d)
  }

  predicate IntervalCovers(iv: Interval, d: Civil) {
    !Before(d, ToCivil(iv.startDate)) && Before(d, ToCivil(iv.endDate))
  }

  datatype Pair = Pair(iid: u32, symbol: bytes)

  /** What a mapping contributes at a date: nothing, or one pair. */
  function PairAt(inverse: bool, m: Mapping, d: Civil): Result<Option<Pair>, MapError> {
    var found := FirstCovering(m.intervals, d);
    if found.None? || found.value.symbol == [] then Ok(None)
    else
      var id := if inverse then ParseId(m.rawSymbol) else ParseId(found.value.symbol);
      if id.Err? then Err(id.error)
      else Ok(Some(Pair(id.value, if inverse then found.value.symbol else m.rawSymbol)))
  }

  function PairsAt(inverse: bool, ms: seq<Mapping>, d: Civil): Result<seq<Pair>, MapError> {
    if ms == [] then Ok([])
    else
      var first := PairAt(inverse, ms[0], d);
      if first.Err? then Err(first.error)
      else
        var rest := PairsAt(inverse, ms[1..], d);
        if rest.Err? then rest
        else Ok((if first.value.Some? then [first.value.value] else []) + rest.value)
  }

  function Lookup(pairs: seq<Pair>, iid: u32): Option<bytes> {
    if pairs == [] then None
    else if pairs[0].iid == iid then Some(pairs[0].symbol)
    else Lookup(pairs[1..], iid)
  }

  lemma {:induction false} LookupSnoc(pairs: seq<Pair>, p: Pair, iid: u32)
    ensures Lookup(pairs + [p], iid) == OrElse(Lookup(pairs, iid), if p.iid == iid then Some(p.symbol) else None)
  {
    if pairs == [] {
      assert Lookup([p][1..], iid) == None;
    } else {
      assert (pairs + [p])[1..] == pairs[1..] + [p];
      LookupSnoc(pairs[1..], p, iid);
    }
  }

  /** The date lies inside the queried range. The range's end is compared as
      64-bit nanoseconds. */
  predicate InRange(m: Metadata, d: Civil) {
    DayNumber(d) >= m.start / NANOS_PER_DAY
    && (DayNumber(d) * NANOS_PER_DAY) % 0x1_0000_0000_0000_0000 < m.end
  }

  /** The instant, in nanoseconds, lies on the day. */
  predicate OnDay(t: int, day: int) {
    day * 86_400_000_000_000 <= t < (day + 1) * 86_400_000_000_000
  }

  /** A date is in a range exactly when its day and the range have an instant in
      common. */
  lemma InRangeExactly(m: Metadata, d: Civil)
    requires m.start < m.end && 0 <= DayNumber(d) && (DayNumber(d) + 1) * 86_400_000_000_000 < 0x1_0000_0000_0000_0000
    ensures InRange(m, d) <==> exists t :: OnDay(t, DayNumber(d)) && m.start <= t < m.end
  {
    hide DayNumber;
    var first := Max(DayNumber(d) * NANOS_PER_DAY, m.start);
    if InRange(m, d) {
      assert OnDay(first, DayNumber(d)) && m.start <= first < m.end;
    }
  }

  function Named(index: map<u32, bytes>, iid: u32): Option<bytes> {
    if iid in index then Some(index[iid]) else None
  }

  ghost predicate Holds(index: map<u32, bytes>, pairs: seq<Pair>) {
    forall iid: u32 :: Named(index, iid) == Lookup(pairs, iid)
  }

  method FindInterval(ivs: seq<Interval>, d: Civil) returns (found: Option<Interval>)
    ensures found == FirstCovering(ivs, d)
  {
    hide IntervalCovers;
    var i := 0;
    assert ivs[0..] == ivs;
    while i < |ivs|
      invariant 0 <= i <= |ivs|
      invariant FirstCovering(ivs, d) == FirstCovering(ivs[i..], d)
    {
      if IntervalCovers(ivs[i], d) {
        return Some(ivs[i]);
      }
      assert ivs[i..][1..] == ivs[i + 1..];
      i := i + 1;
    }
    return None;
  }

  /** A symbol mapping record as the live client sees it. */
  datatype MappingRecord = MappingRecord(iid: u32, stypeOutSymbol: bytes) | AnotherRecord

  class PitSymbolMap {
    var index: map<u32, bytes>

    constructor ()
      ensures index == map[]
    {
      index := map[];
    }

    method Load(m: Metadata, date: Date) returns (error: Option<MapError>)
      requires index == map[]
      modifies this
      ensures !InRange(m, ToCivil(date)) ==> error == Some(OutsideRange)
      ensures InRange(m, ToCivil(date)) && IsInverse(m).Err? ==> error == Some(IsInverse(m).error)
      ensures InRange(m, ToCivil(date)) && IsInverse(m).Ok? ==>
                match PairsAt(IsInverse(m).value, m.mappings, ToCivil(date))
                case Err(e) => error == Some(e)
                case Ok(pairs) => error == None && Holds(index, pairs)
    {
      hide InRange, ParseId, FirstCovering;
      var d := ToCivil(date);
      if !InRange(m, d) {
        return Some(OutsideRange);
      }
      var inverse := IsInverse(m);
      if inverse.Err? {
        return Some(inverse.error);
      }
      var ms := m.mappings;
      ghost var done: seq<Pair> := [];
      var i := 0;
      assert ms[0..] == ms;
      AfterNothing(PairsAt(inverse.value, ms, d));
      while i < |ms|
        invariant 0 <= i <= |ms|
        invariant Holds(index, done)
        invariant PairsAt(inverse.value, ms, d) == After(done, PairsAt(inverse.value, ms[i..], d))
      {
        assert ms[i..][1..] == ms[i + 1..];
        var found := FindInterval(ms[i].intervals, d);
        if found.Some? && found.value.symbol != [] {
          var id := if inverse.value then ParseId(ms[i].rawSymbol) else ParseId(found.value.symbol);
          if id.Err? {
            return Some(id.error);
          }
          var pair := Pair(id.value, if inverse.value then found.value.symbol else ms[i].rawSymbol);
          AfterTwice(done, [pair], PairsAt(inverse.value, ms[i + 1..], d));
          forall iid: u32 {
            LookupSnoc(done, pair, iid);
          }
          if pair.iid !in index {
            index := index[pair.iid := pair.symbol];
          }
          done := done + [pair];
        } else {
          AfterNothing(PairsAt(inverse.value, ms[i + 1..], d));
        }
        i := i + 1;
      }
      assert ms[i..] == [];
      assert done + [] == done;
      return None;
    }

    /** A symbol mapping overwrites what the instrument was called before. */
    method OnRecord(r: MappingRecord)
      modifies this
      ensures index == if r.MappingRecord? then old(index)[r.iid := r.stypeOutSymbol] else old(index)
    {
      if r.MappingRecord? {
        index := index[r.iid := r.stypeOutSymbol];
      }
    }

    method OnRecords(rs: seq<MappingRecord>)
      modifies this
      ensures forall iid: u32 :: Named(index, iid) == OrElse(LastName(rs, iid), Named(old(index), iid))
    {
      var i := 0;
      while i < |rs|
        invariant 0 <= i <= |rs|
        invariant forall iid: u32 :: Named(index, iid) == OrElse(LastName(rs[..i], iid), Named(old(index), iid))
      {
        assert rs[..i + 1][..i] == rs[..i];
        OnRecord(rs[i]);
        i := i + 1;
      }
      assert rs[..i] == rs;
    }

    function Find(iid: u32): Option<bytes>
      reads this
    {
      Named(index, iid)
    }
  }

  /** The name the last symbol mapping record for an instrument gives it. */
  function LastName(rs: seq<MappingRecord>, iid: u32): Option<bytes> {
    if rs == [] then None
    else
      var last := rs[|rs| - 1];
      if last.MappingRecord? && last.iid == iid then Some(last.stypeOutSymbol)
      else LastName(rs[..|rs| - 1], iid)
  }

  // ----- the two indexes of one mapping agree -----

  /** Covering by serial days is covering field by field. */
  lemma CoverageAgrees(iv: Interval, d: Civil)
    requires ValidCivil(d) && ValidInterval(iv)
    ensures IntervalCovers(iv, d) <==>
            DayNumber(ToCivil(iv.startDate)) <= DayNumber(d) < DayNumber(ToCivil(iv.endDate))
  {
    hide DayNumber, ValidCivil, Before;
    OrdersAgree(d, ToCivil(iv.startDate));
    OrdersAgree(d, ToCivil(iv.endDate));
  }

  /** What the search over a mapping's entries finds at a date. */
  function FoundAt(inverse: bool, raw: bytes, rawId: u32, found: Option<Interval>, iid: u32): Option<bytes> {
    if found.None? || found.value.symbol == [] then None
    else
      var id := if inverse then Ok(rawId) else ParseId(found.value.symbol);
      if id == Ok(iid) then Some(if inverse then found.value.symbol else raw) else None
  }

  lemma SearchFirst(inverse: bool, raw: bytes, rawId: u32, ivs: seq<Interval>, d: Civil, iid: u32)
    requires ivs != [] && IntervalEntries(inverse, raw, rawId, ivs).Ok?
    ensures IntervalEntries(inverse, raw, rawId, ivs[1..]).Ok?
    ensures var rest := Search(IntervalEntries(inverse, raw, rawId, ivs[1..]).value, d, iid);
            var s, e := DayNumber(ToCivil(ivs[0].startDate)), DayNumber(ToCivil(ivs[0].endDate));
            Search(IntervalEntries(inverse, raw, rawId, ivs).value, d, iid) ==
            OrElse(if s <= DayNumber(d) < e then FoundAt(inverse, raw, rawId, Some(ivs[0]), iid) else None, rest)
    ensures ivs[0].symbol != [] && !inverse ==> ParseId(ivs[0].symbol).Ok?
  {
    hide DayNumber, Before, ParseId;
    IntervalStep(inverse, raw, rawId, ivs);
    var rest := IntervalEntries(inverse, raw, rawId, ivs[1..]);
    if ivs[0].symbol != [] {
      var id := if inverse then Ok(rawId) else ParseId(ivs[0].symbol);
      var e := Entry(id.value, ToCivil(ivs[0].startDate), ToCivil(ivs[0].endDate),
                     if inverse then ivs[0].symbol else raw);
      SearchAppend([e], rest.value, d, iid);
      assert Search([e][1..], d, iid) == None;
    }
  }

  /** No covering interval names the instrument. */
  lemma {:induction false} NoneNamed(inverse: bool, raw: bytes, rawId: u32, ivs: seq<Interval>, d: Civil, iid: u32)
    requires ValidCivil(d) && forall iv <- ivs :: ValidInterval(iv)
    requires forall iv <- ivs :: IntervalCovers(iv, d) ==> FoundAt(inverse, raw, rawId, Some(iv), iid) == None
    requires IntervalEntries(inverse, raw, rawId, ivs).Ok?
    ensures Search(IntervalEntries(inverse, raw, rawId, ivs).value, d, iid) == None
  {
    hide DayNumber, ValidCivil, ValidInterval, IntervalCovers, FoundAt;
    if ivs == [] {
    } else {
      assert ivs[0] in ivs;
      SearchFirst(inverse, raw, rawId, ivs, d, iid);
      CoverageAgrees(ivs[0], d);
      hide IntervalEntries;
      NoneNamed(inverse, raw, rawId, ivs[1..], d, iid);
    }
  }

  /** A covering interval that names the instrument is found, if not itself then
      one before it. */
  lemma {:induction false} SomeNamed(inverse: bool, raw: bytes, rawId: u32, ivs: seq<Interval>, d: Civil, iid: u32,
                                     k: nat)
    requires ValidCivil(d) && forall iv <- ivs :: ValidInterval(iv)
    requires k < |ivs| && IntervalCovers(ivs[k], d) && FoundAt(inverse, raw, rawId, Some(ivs[k]), iid).Some?
    requires IntervalEntries(inverse, raw, rawId, ivs).Ok?
    ensures Search(IntervalEntries(inverse, raw, rawId, ivs).value, d, iid).Some?
  {
    hide DayNumber, ValidCivil, ValidInterval, IntervalCovers, FoundAt;
    assert ivs[0] in ivs;
    SearchFirst(inverse, raw, rawId, ivs, d, iid);
    CoverageAgrees(ivs[0], d);
    if k == 0 {
    } else {
      hide IntervalEntries;
      SomeNamed(inverse, raw, rawId, ivs[1..], d, iid, k - 1);
    }
  }

  /** If any interval that covers the date has a symbol, then the first that
      covers it has one too and names the same instrument. */
  predicate NothingHidden(inverse: bool, ivs: seq<Interval>, d: Civil) {
    var first := FirstCovering(ivs, d);
    forall iv <- ivs :: IntervalCovers(iv, d) && iv.symbol != [] ==>
      first.Some? && first.value.symbol != [] && (inverse || ParseId(iv.symbol) == ParseId(first.value.symbol))
  }

  lemma {:induction false} FirstCoveringIs(ivs: seq<Interval>, d: Civil)
    ensures var first := FirstCovering(ivs, d);
            if first.Some? then first.value in ivs && IntervalCovers(first.value, d)
            else forall iv <- ivs :: !IntervalCovers(iv, d)
  {
    hide IntervalCovers;
    if ivs == [] {
    } else if !IntervalCovers(ivs[0], d) {
      FirstCoveringIs(ivs[1..], d);
      assert ivs == [ivs[0]] + ivs[1..];
    }
  }

  lemma {:induction false} NothingHiddenAgrees(inverse: bool, raw: bytes, rawId: u32, ivs: seq<Interval>, d: Civil,
                                               iid: u32)
    requires ValidCivil(d) && forall iv <- ivs :: ValidInterval(iv)
    requires IntervalEntries(inverse, raw, rawId, ivs).Ok? && NothingHidden(inverse, ivs, d)
    ensures Search(IntervalEntries(inverse, raw, rawId, ivs).value, d, iid) ==
            FoundAt(inverse, raw, rawId, FirstCovering(ivs, d), iid)
  {
    hide DayNumber, ValidCivil, ValidInterval, IntervalCovers, ParseId;
    if ivs == [] {
    } else {
      assert ivs[0] in ivs;
      SearchFirst(inverse, raw, rawId, ivs, d, iid);
      CoverageAgrees(ivs[0], d);
      var rest := ivs[1..];
      hide IntervalEntries, Search;
      if !IntervalCovers(ivs[0], d) {
        NothingHiddenAgrees(inverse, raw, rawId, rest, d, iid);
      } else if FoundAt(inverse, raw, rawId, Some(ivs[0]), iid) == None {
        NoneNamed(inverse, raw, rawId, rest, d, iid);
      }
    }
  }

  /** One mapping: the search over its entries and its first covering interval
      name every instrument alike exactly when that interval hides nothing. */
  lemma MappingSliceExactly(inverse: bool, raw: bytes, rawId: u32, ivs: seq<Interval>, d: Civil)
    requires ValidCivil(d) && forall iv <- ivs :: ValidInterval(iv)
    requires IntervalEntries(inverse, raw, rawId, ivs).Ok?
    ensures (forall iid: u32 :: Search(IntervalEntries(inverse, raw, rawId, ivs).value, d, iid) ==
                                FoundAt(inverse, raw, rawId, FirstCovering(ivs, d), iid)) <==>
            NothingHidden(inverse, ivs, d)
  {
    hide ValidCivil, ValidInterval, IntervalCovers, ParseId, IntervalEntries, Search, FirstCovering;
    if NothingHidden(inverse, ivs, d) {
      forall iid: u32
        ensures Search(IntervalEntries(inverse, raw, rawId, ivs).value, d, iid) ==
                FoundAt(inverse, raw, rawId, FirstCovering(ivs, d), iid)
      {
        NothingHiddenAgrees(inverse, raw, rawId, ivs, d, iid);
      }
    } else {
      var first := FirstCovering(ivs, d);
      FirstCoveringIs(ivs, d);
      var k :| 0 <= k < |ivs| && IntervalCovers(ivs[k], d) && ivs[k].symbol != [] &&
               !(first.value.symbol != [] && (inverse || ParseId(ivs[k].symbol) == ParseId(first.value.symbol)));
      SymbolsParse(inverse, raw, rawId, ivs, k);
      var iid := if inverse then rawId else ParseId(ivs[k].symbol).value;
      SomeNamed(inverse, raw, rawId, ivs, d, iid, k);
      assert FoundAt(inverse, raw, rawId, first, iid) == None;
    }
  }

  /** Every symbol of a mapping whose entries can be built is a number where it
      has to be one. */
  lemma {:induction false} SymbolsParse(inverse: bool, raw: bytes, rawId: u32, ivs: seq<Interval>, k: nat)
    requires IntervalEntries(inverse, raw, rawId, ivs).Ok? && k < |ivs|
    ensures ivs[k].symbol != [] && !inverse ==> ParseId(ivs[k].symbol).Ok?
  {
    hide ParseId, Before;
    IntervalStep(inverse, raw, rawId, ivs);
    if k == 0 {
    } else {
      SymbolsParse(inverse, raw, rawId, ivs[1..], k - 1);
    }
  }

  /** No two intervals of a mapping cover the date. */
  predicate DisjointAt(m: Mapping, d: Civil) {
    forall i, j :: 0 <= i < j < |m.intervals| ==>
      !(IntervalCovers(m.intervals[i], d) && IntervalCovers(m.intervals[j], d))
  }

  lemma DisjointHidesNothing(inverse: bool, m: Mapping, d: Civil)
    requires DisjointAt(m, d)
    ensures NothingHidden(inverse, m.intervals, d)
  {
    hide IntervalCovers, FirstCovering;
    FirstCoveringIs(m.intervals, d);
    var first := FirstCovering(m.intervals, d);
    forall iv <- m.intervals | IntervalCovers(iv, d)
      ensures first == Some(iv)
    {
      var i :| 0 <= i < |m.intervals| && m.intervals[i] == iv;
      var j :| 0 <= j < |m.intervals| && m.intervals[j] == first.value;
      assert i < j || j < i || i == j;
    }
  }

  // ----- the two indexes of all mappings agree -----

  /** What the time-series index knows of one mapping, and what the
      point-in-time index shows of it. */
  function Indexed(inverse: bool, m: Mapping, d: Civil, iid: u32): Option<bytes>
    requires MappingEntries(inverse, m).Ok?
  {
    Search(MappingEntries(inverse, m).value, d, iid)
  }

  function Shown(inverse: bool, m: Mapping, d: Civil, iid: u32): Option<bytes>
    requires RawId(inverse, m.rawSymbol).Ok?
  {
    FoundAt(inverse, m.rawSymbol, RawId(inverse, m.rawSymbol).value, FirstCovering(m.intervals, d), iid)
  }

  /** What the point-in-time index shows of a mapping, the time-series index has. */
  lemma ShownIsIndexed(inverse: bool, m: Mapping, d: Civil, iid: u32)
    requires ValidCivil(d) && ValidMapping(m) && MappingEntries(inverse, m).Ok?
    ensures RawId(inverse, m.rawSymbol).Ok?
    ensures Shown(inverse, m, d, iid).Some? ==> Indexed(inverse, m, d, iid) == Shown(inverse, m, d, iid)
    ensures NothingHidden(inverse, m.intervals, d) ==> Indexed(inverse, m, d, iid) == Shown(inverse, m, d, iid)
    ensures PairAt(inverse, m, d).Ok?
    ensures (if PairAt(inverse, m, d).value.None? then None else Lookup([PairAt(inverse, m, d).value.value], iid))
         == Shown(inverse, m, d, iid)
  {
    var rawId := RawId(inverse, m.rawSymbol).value;
    FirstShown(inverse, m.rawSymbol, rawId, m.intervals, d, iid);
    if NothingHidden(inverse, m.intervals, d) {
      NothingHiddenAgrees(inverse, m.rawSymbol, rawId, m.intervals, d, iid);
    }
    FirstCoveringIs(m.intervals, d);
    var first := FirstCovering(m.intervals, d);
    if first.Some? {
      var k :| 0 <= k < |m.intervals| && m.intervals[k] == first.value;
      SymbolsParse(inverse, m.rawSymbol, rawId, m.intervals, k);
    }
  }

  lemma {:induction false} FirstShown(inverse: bool, raw: bytes, rawId: u32, ivs: seq<Interval>, d: Civil, iid: u32)
    requires ValidCivil(d) && forall iv <- ivs :: ValidInterval(iv)
    requires IntervalEntries(inverse, raw, rawId, ivs).Ok?
    ensures var shown := FoundAt(inverse, raw, rawId, FirstCovering(ivs, d), iid);
            shown.Some? ==> Search(IntervalEntries(inverse, raw, rawId, ivs).value, d, iid) == shown
  {
    hide DayNumber, ValidCivil, ValidInterval, IntervalCovers, ParseId;
    if ivs == [] {
    } else {
      assert ivs[0] in ivs;
      SearchFirst(inverse, raw, rawId, ivs, d, iid);
      CoverageAgrees(ivs[0], d);
      hide IntervalEntries, Search;
      if !IntervalCovers(ivs[0], d) {
        FirstShown(inverse, raw, rawId, ivs[1..], d, iid);
      }
    }
  }

  /** The first mapping with a name for the instrument shows it, or else the
      first of the later mappings to show one shows the same. */
  predicate Recovered(inverse: bool, ms: seq<Mapping>, d: Civil, iid: u32)
    requires ValidCivil(d) && ValidMappings(ms) && AllEntries(inverse, ms).Ok?
  {
    if ms == [] then true
    else
      OneMore(inverse, ms, d, iid);
      if Indexed(inverse, ms[0], d, iid).None? then Recovered(inverse, ms[1..], d, iid)
      else Shown(inverse, ms[0], d, iid).Some?
           || Lookup(PairsAt(inverse, ms[1..], d).value, iid) == Indexed(inverse, ms[0], d, iid)
  }

  /** Both indexes of a list, from those of its first mapping and of the rest. */
  lemma {:induction false} OneMore(inverse: bool, ms: seq<Mapping>, d: Civil, iid: u32)
    requires ValidCivil(d) && ValidMappings(ms) && AllEntries(inverse, ms).Ok?
    ensures PairsAt(inverse, ms, d).Ok?
    ensures ms != [] ==>
              && ValidMapping(ms[0]) && ValidMappings(ms[1..]) && AllEntries(inverse, ms[1..]).Ok?
              && MappingEntries(inverse, ms[0]).Ok? && RawId(inverse, ms[0].rawSymbol).Ok?
              && PairsAt(inverse, ms[1..], d).Ok?
              && Search(AllEntries(inverse, ms).value, d, iid) ==
                 OrElse(Indexed(inverse, ms[0], d, iid), Search(AllEntries(inverse, ms[1..]).value, d, iid))
              && Lookup(PairsAt(inverse, ms, d).value, iid) ==
                 OrElse(Shown(inverse, ms[0], d, iid), Lookup(PairsAt(inverse, ms[1..], d).value, iid))
  {
    hide ValidCivil, ValidMapping, MappingEntries, Shown, Search;
    if ms == [] {
    } else {
      assert ms[0] in ms;
      OneMore(inverse, ms[1..], d, iid);
      ShownIsIndexed(inverse, ms[0], d, iid);
      SearchAppend(MappingEntries(inverse, ms[0]).value, AllEntries(inverse, ms[1..]).value, d, iid);
      var p := PairAt(inverse, ms[0], d).value;
      var rest := PairsAt(inverse, ms[1..], d).value;
      if p.Some? {
        assert ([p.value] + rest)[1..] == rest;
        assert [p.value][1..] == [];
      } else {
        assert [] + rest == rest;
      }
    }
  }

  /** The point-in-time index can be built whenever the time-series index can,
      and it names an instrument as the slice of that index at the date does,
      exactly when nothing that a mapping hides is lost. */
  lemma {:induction false} SlicesAgreeExactly(inverse: bool, ms: seq<Mapping>, d: Civil, iid: u32)
    requires ValidCivil(d) && ValidMappings(ms) && AllEntries(inverse, ms).Ok?
    ensures PairsAt(inverse, ms, d).Ok?
    ensures Lookup(PairsAt(inverse, ms, d).value, iid) == Search(AllEntries(inverse, ms).value, d, iid) <==>
            Recovered(inverse, ms, d, iid)
  {
    hide ValidCivil, ValidMapping, MappingEntries, Shown, Indexed, AllEntries, PairsAt;
    OneMore(inverse, ms, d, iid);
    if ms == [] {
      NoMappings(inverse, d, iid);
    } else {
      ShownIsIndexed(inverse, ms[0], d, iid);
      SlicesAgreeExactly(inverse, ms[1..], d, iid);
    }
  }

  lemma NoMappings(inverse: bool, d: Civil, iid: u32)
    ensures PairsAt(inverse, [], d) == Ok([]) && AllEntries(inverse, []) == Ok([])
    ensures Lookup([], iid) == None && Search([], d, iid) == None
  {
  }

  /** In particular for all instruments when no mapping hides anything, as when
      the intervals of each mapping are disjoint. */
  lemma {:induction false} SlicesAgree(inverse: bool, ms: seq<Mapping>, d: Civil, iid: u32)
    requires ValidCivil(d) && ValidMappings(ms) && AllEntries(inverse, ms).Ok?
    requires forall m <- ms :: NothingHidden(inverse, m.intervals, d)
    ensures PairsAt(inverse, ms, d).Ok?
    ensures Lookup(PairsAt(inverse, ms, d).value, iid) == Search(AllEntries(inverse, ms).value, d, iid)
  {
    hide ValidCivil, ValidMapping, MappingEntries, Shown, Indexed, AllEntries, PairsAt, NothingHidden;
    OneMore(inverse, ms, d, iid);
    if ms == [] {
      NoMappings(inverse, d, iid);
    } else {
      assert ms[0] in ms;
      ShownIsIndexed(inverse, ms[0], d, iid);
      SlicesAgree(inverse, ms[1..], d, iid);
    }
  }

  /** How a name is hidden: when an interval without a symbol and one with a
      symbol cover the same date, the first hides the second from the
      point-in-time index only. */
  lemma OverlapBreaksAgreement()
    ensures var d := Civil(2020, 1, 1);
            var iv := Interval(Date(2020, 1, 1), Date(2020, 1, 2), []);
            var ms := [Mapping([65], [iv, iv.(symbol := [53])])];
            && ValidCivil(d) && ValidMappings(ms) && AllEntries(false, ms).Ok? && PairsAt(false, ms, d).Ok?
            && Search(AllEntries(false, ms).value, d, 5) == Some([65])
            && Lookup(PairsAt(false, ms, d).value, 5) == None
  {
    hide DayNumber;
    var iv := Interval(Date(2020, 1, 1), Date(2020, 1, 2), []);
    var named := iv.(symbol := [53]);
    var d := Civil(2020, 1, 1);
    assert ParseId([53]) == Ok(5) by {
      assert Ascii(Digits(5)) == [53];
      ParsePlainId(5);
    }
    OrdersAgree(d, Civil(2020, 1, 2));
    IntervalStep(false, [65], 0, [iv, named]);
    assert [iv, named][1..] == [named];
    IntervalStep(false, [65], 0, [named]);
    var e := Entry(5, d, Civil(2020, 1, 2), [65]);
    IntervalsDone(false, [65], 0, [e]);
    assert [named][1..] == [];
    assert ToCivil(named.startDate) == d && ToCivil(named.endDate) == e.endDate;
    assert !Before(e.endDate, d);
    assert IntervalEntries(false, [65], 0, [named]) == Ok([e]);
    assert AllEntries(false, [Mapping([65], [iv, named])]) == Ok([e]) by {
      assert [e] + [] == [e];
    }
    assert PairAt(false, Mapping([65], [iv, named]), d) == Ok(None);
  }

  /** The same, of the two objects. */
  lemma IndexesAgree(m: Metadata, date: Date, ts: TsSymbolMap, pit: PitSymbolMap, iid: u32)
    requires IsInverse(m).Ok? && ValidCivil(ToCivil(date)) && ValidMappings(m.mappings)
    requires forall x <- m.mappings :: NothingHidden(IsInverse(m).value, x.intervals, ToCivil(date))
    requires AllEntries(IsInverse(m).value, m.mappings).Ok?
    requires Indexes(ts.index, AllEntries(IsInverse(m).value, m.mappings).value)
    requires PairsAt(IsInverse(m).value, m.mappings, ToCivil(date)).Ok?
    requires Holds(pit.index, PairsAt(IsInverse(m).value, m.mappings, ToCivil(date)).value)
    ensures pit.Find(iid) == ts.Find(ToCivil(date), iid)
  {
    hide NothingHidden, ValidMappings, AllEntries, PairsAt, ValidCivil;
    SlicesAgree(IsInverse(m).value, m.mappings, ToCivil(date), iid);
  }
}
