/** The live client's subscriptions: requests cut into chunks, the ids that name
    them, and what is sent again after a reconnect. */
module Subscriptions {
  import opened Bytes
  import opened DecimalText

  const SYMBOL_MAX_CHUNK_SIZE: nat := 500
  const MAX_ID: u32 := 0xFFFF_FFFF

  // ----- joining and splitting symbol lists -----

  /** The fold of `JoinSymbolStrings`, from an accumulator on. */
  function JoinFrom(acc: string, xs: seq<string>): string
    decreases |xs|
  {
    if xs == [] then acc
    else JoinFrom(if acc == "" then xs[0] else acc + "," + xs[0], xs[1..])
  }

  function Join(xs: seq<string>): string {
    JoinFrom("", xs)
  }

  /** The inverse as the receiving side reads it: cut at every comma. */
  function Split(s: string): (r: seq<string>)
    ensures r != [] && forall x <- r :: ',' !in x
  {
    if s == "" then [""]
    else
      var rest := Split(s[1..]);
      if s[0] == ',' then [""] + rest else [[s[0]] + rest[0]] + rest[1..]
  }

  predicate CommaFree(xs: seq<string>) {
    forall x <- xs :: ',' !in x
  }

  /** With commas between all items, whatever they are. */
  function Intersperse(xs: seq<string>): string
    requires xs != []
  {
    if |xs| == 1 then xs[0] else xs[0] + "," + Intersperse(xs[1..])
  }

  lemma {:induction false} SplitItem(x: string, s: string)
    requires ',' !in x
    ensures Split(x + s) == [x + Split(s)[0]] + Split(s)[1..]
  {
    if x == "" {
      assert "" + s == s && "" + Split(s)[0] == Split(s)[0];
    } else {
      assert x[0] in x;
      assert (x + s)[0] == x[0] && (x + s)[1..] == x[1..] + s;
      SplitHead(x + s);
      hide Split;
      SplitItem(x[1..], s);
      assert [x[0]] + (x[1..] + Split(s)[0]) == x + Split(s)[0];
    }
  }

  lemma SplitHead(s: string)
    requires s != "" && s[0] != ','
    ensures Split(s) == [[s[0]] + Split(s[1..])[0]] + Split(s[1..])[1..]
  {
  }

  lemma {:induction false} SplitIntersperse(xs: seq<string>)
    requires xs != [] && CommaFree(xs)
    ensures Split(Intersperse(xs)) == xs
  {
    var x := xs[0];
    assert x in xs;
    if |xs| == 1 {
      SplitItem(x, "");
      assert x + "" == x;
    } else {
      var rest := Intersperse(xs[1..]);
      SplitIntersperse(xs[1..]);
      assert x + "," + rest == x + ("," + rest);
      assert ("," + rest)[1..] == rest;
      assert Split("," + rest) == [""] + xs[1..];
      SplitItem(x, "," + rest);
      assert x + "" == x;
    }
  }

  lemma {:induction false} JoinIsIntersperse(acc: string, xs: seq<string>)
    requires acc != ""
    ensures JoinFrom(acc, xs) == Intersperse([acc] + xs)
    decreases |xs|
  {
    if xs == [] {
    } else {
      var next := acc + "," + xs[0];
      JoinIsIntersperse(next, xs[1..]);
      IntersperseGlue(acc, xs[0], xs[1..]);
    }
  }

  lemma IntersperseGlue(a: string, b: string, xs: seq<string>)
    ensures Intersperse([a + "," + b] + xs) == Intersperse([a, b] + xs)
  {
    assert ([a, b] + xs)[1..] == [b] + xs;
    if xs == [] {
      assert [b] + xs == [b];
    } else {
      assert ([b] + xs)[1..] == xs && ([a + "," + b] + xs)[1..] == xs;
      var rest := Intersperse(xs);
      assert (a + "," + b) + "," + rest == a + "," + (b + "," + rest);
    }
  }

  lemma {:induction false} LeadingEmptyLost(xs: seq<string>)
    requires xs != [] && xs[0] == ""
    ensures |xs| > 1 ==> Join(xs) == Join(xs[1..])
  {
  }

  lemma {:induction false} SplitCount(xs: seq<string>)
    requires xs != [] && CommaFree(xs)
    ensures |Split(Join(xs))| <= |xs|
  {
    if xs[0] != "" {
      JoinIsIntersperse(xs[0], xs[1..]);
      assert [xs[0]] + xs[1..] == xs;
      SplitIntersperse(xs);
    } else if |xs| > 1 {
      LeadingEmptyLost(xs);
      SplitCount(xs[1..]);
    } else {
      assert xs[1..] == [];
      assert Join(xs) == JoinFrom("", []) == "";
    }
  }

  /** Splitting undoes joining exactly for comma-free lists that do not lose a
      leading empty symbol. */
  lemma JoinSplitExactly(xs: seq<string>)
    requires xs != []
    ensures Split(Join(xs)) == xs <==> CommaFree(xs) && (xs[0] != "" || |xs| == 1)
  {
    if CommaFree(xs) {
      if xs[0] != "" {
        JoinIsIntersperse(xs[0], xs[1..]);
        assert [xs[0]] + xs[1..] == xs;
        SplitIntersperse(xs);
      } else if |xs| == 1 {
        assert xs[1..] == [] && xs == [""];
        assert Join(xs) == JoinFrom("", []) == "";
      } else {
        LeadingEmptyLost(xs);
        SplitCount(xs[1..]);
      }
    }
  }

  // ----- one request in chunks -----

  datatype Message = Message(
    schema: int, stypeIn: int, start: Option<string>, id: u32, symbols: string, snapshot: bool, isLast: bool)

  /** The messages of a request, from the symbols still to be sent. */
  function Chunks(m: Message, symbols: seq<string>): seq<Message> {
    if symbols == [] then []
    else
      var n := Min(SYMBOL_MAX_CHUNK_SIZE, |symbols|);
      [m.(symbols := Join(symbols[..n]), isLast := |symbols| <= SYMBOL_MAX_CHUNK_SIZE)] + Chunks(m, symbols[n..])
  }

  function Received(ms: seq<Message>): seq<string> {
    if ms == [] then [] else Split(ms[0].symbols) + Received(ms[1..])
  }

  predicate Sendable(symbols: seq<string>) {
    CommaFree(symbols) && forall x <- symbols :: x != ""
  }

  /** A message of a request: 1 to 500 symbols, marked if it is the last one. */
  predicate ChunkOk(chunk: Message, last: bool) {
    && 1 <= |Split(chunk.symbols)| <= 500
    && (chunk.isLast <==> last)
  }

  /** A request loses nothing: its messages split back to the symbols, each
      carries 1 to 500 of them, and only the last one says that it is. */
  lemma {:induction false} ChunksComplete(m: Message, symbols: seq<string>)
    requires symbols != [] && Sendable(symbols)
    ensures var ms := Chunks(m, symbols);
            && ms != [] && Received(ms) == symbols
            && forall k :: 0 <= k < |ms| ==> ChunkOk(ms[k], k == |ms| - 1)
    decreases |symbols|
  {
    var n := Min(SYMBOL_MAX_CHUNK_SIZE, |symbols|);
    var first, rest := symbols[..n], symbols[n..];
    var head := m.(symbols := Join(first), isLast := |symbols| <= SYMBOL_MAX_CHUNK_SIZE);
    assert symbols == first + rest;
    ChunksStep(m, symbols);
    FirstChunk(m, symbols);
    var tail := Chunks(m, rest);
    ReceivedStep(head, tail);
    if rest == [] {
      NoChunks(m);
    } else {
      assert forall x <- rest :: x in symbols;
      ChunksComplete(m, rest);
      hide Chunks, Received, ChunkOk, Join;
      var ms := [head] + tail;
      forall k | 0 <= k < |ms|
        ensures ChunkOk(ms[k], k == |ms| - 1)
      {
        if k > 0 {
          assert ms[k] == tail[k - 1];
        }
      }
    }
  }

  /** All messages of a request say the same but for their symbols. */
  lemma {:induction false} ChunksAlike(m: Message, symbols: seq<string>)
    ensures forall c <- Chunks(m, symbols) ::
              c.schema == m.schema && c.stypeIn == m.stypeIn && c.start == m.start && c.id == m.id
              && c.snapshot == m.snapshot
    decreases |symbols|
  {
    if symbols == [] {
    } else {
      ChunksStep(m, symbols);
      ChunksAlike(m, symbols[Min(SYMBOL_MAX_CHUNK_SIZE, |symbols|)..]);
      hide Chunks;
    }
  }

  lemma ChunksStep(m: Message, symbols: seq<string>)
    requires symbols != []
    ensures var n := Min(SYMBOL_MAX_CHUNK_SIZE, |symbols|);
            Chunks(m, symbols) ==
            [m.(symbols := Join(symbols[..n]), isLast := |symbols| <= SYMBOL_MAX_CHUNK_SIZE)] + Chunks(m, symbols[n..])
  {
  }

  lemma NoChunks(m: Message)
    ensures Chunks(m, []) == [] && Received([]) == []
  {
  }

  lemma ReceivedStep(head: Message, tail: seq<Message>)
    ensures Received([head] + tail) == Split(head.symbols) + Received(tail)
  {
    assert ([head] + tail)[1..] == tail;
  }

  lemma FirstChunk(m: Message, symbols: seq<string>)
    requires symbols != [] && Sendable(symbols)
    ensures var n := Min(SYMBOL_MAX_CHUNK_SIZE, |symbols|);
            var last := |symbols| <= SYMBOL_MAX_CHUNK_SIZE;
            && Split(Join(symbols[..n])) == symbols[..n]
            && ChunkOk(m.(symbols := Join(symbols[..n]), isLast := last), last)
  {
    var n := Min(SYMBOL_MAX_CHUNK_SIZE, |symbols|);
    var first := symbols[..n];
    assert forall x <- first :: x in symbols;
    assert first[0] in first;
    hide Join, Split;
    JoinSplitExactly(first);
  }

  // ----- the client -----

  datatype Start = Snapshot | FromNanos(nanos: u64) | FromText(text: string) | NoStart

  datatype Subscription = Subscription(symbols: seq<string>, schema: int, stypeIn: int, start: Start, id: u32)

  /** Ids grow from subscription to subscription until the counter is exhausted. */
  predicate IdsGrow(subs: seq<Subscription>) {
    forall i, j :: 0 <= i < j < |subs| ==> subs[i].id < subs[j].id || subs[j].id == MAX_ID
  }

  function IdsOf(subs: seq<Subscription>): (ids: seq<u32>)
    ensures |ids| == |subs|
  {
    seq(|subs|, k requires 0 <= k < |subs| => subs[k].id)
  }

  lemma GrowsExactly(subs: seq<Subscription>, s: Subscription)
    ensures IdsGrow(subs + [s]) <==> IdsGrow(subs) && (s.id == MAX_ID || forall x <- subs :: x.id < s.id)
  {
    var all := subs + [s];
    assert all[|subs|] == s;
    assert forall k :: 0 <= k < |subs| ==> all[k] == subs[k] && subs[k] in subs;
  }

  /** The next value of the counter, which saturates. */
  function Next(counter: u32): u32 {
    if counter == MAX_ID then MAX_ID else counter + 1
  }

  function Request(schema: int, stypeIn: int, start: Start, id: u32): Message {
    Message(schema, stypeIn, StartText(start), id, "", start == Snapshot, false)
  }

  /** The message asks for this schema and symbology under this id, and for
      replay from exactly this start: none, a snapshot, the text given, or the
      number of nanoseconds in decimal. */
  predicate Asks(msg: Message, schema: int, stypeIn: int, start: Start, id: u32) {
    && msg.schema == schema && msg.stypeIn == stypeIn && msg.id == id
    && (msg.snapshot <==> start == Snapshot)
    && match start
       case NoStart => msg.start == None
       case Snapshot => msg.start == None
       case FromText(text) => msg.start == Some(text)
       case FromNanos(n) => msg.start.Some? && IsNumeral(msg.start.value) && Numeral(msg.start.value) == n
  }

  lemma RequestAsks(schema: int, stypeIn: int, start: Start, id: u32, symbols: seq<string>)
    ensures forall c <- Chunks(Request(schema, stypeIn, start, id), symbols) :: Asks(c, schema, stypeIn, start, id)
  {
    hide Chunks, Digits, Numeral, IsNumeral;
    ChunksAlike(Request(schema, stypeIn, start, id), symbols);
    if start.FromNanos? {
      NumeralOfDigits(start.nanos);
    }
  }

  /** A subscription's start when it is sent again. */
  function StartAgain(start: Start): Start {
    if start == Snapshot then Snapshot else NoStart
  }

  lemma AgainAsks(s: Subscription, id: u32)
    ensures forall c <- Chunks(Again(s, id), s.symbols) :: Asks(c, s.schema, s.stypeIn, StartAgain(s.start), id)
  {
    hide Chunks, Numeral, IsNumeral;
    ChunksAlike(Again(s, id), s.symbols);
  }

  function AllSymbols(subs: seq<Subscription>): seq<string> {
    if subs == [] then [] else subs[0].symbols + AllSymbols(subs[1..])
  }

  lemma {:induction false} ReceivedAppend(a: seq<Message>, b: seq<Message>)
    ensures Received(a + b) == Received(a) + Received(b)
  {
    hide Split;
    if a == [] {
      assert a + b == b;
    } else {
      assert (a + b)[1..] == a[1..] + b;
      ReceivedAppend(a[1..], b);
    }
  }

  /** What is sent again is every stored subscription, in order, with all of its
      symbols, under its own id and without a start time. */
  lemma {:induction false} ResentCompletely(subs: seq<Subscription>)
    requires forall s <- subs :: s.symbols != [] && Sendable(s.symbols)
    ensures Received(ResentAsStored(subs)) == AllSymbols(subs)
    ensures forall c <- ResentAsStored(subs) ::
              exists s <- subs :: Asks(c, s.schema, s.stypeIn, StartAgain(s.start), s.id)
  {
    hide Chunks, Again, Received, Asks, Sendable;
    if subs == [] {
      NoChunks(Message(0, 0, None, 0, "", false, false));
    } else {
      var first, rest := Chunks(Again(subs[0], subs[0].id), subs[0].symbols), ResentAsStored(subs[1..]);
      assert subs[0] in subs;
      AgainAsks(subs[0], subs[0].id);
      ChunksComplete(Again(subs[0], subs[0].id), subs[0].symbols);
      ResentCompletely(subs[1..]);
      ReceivedAppend(first, rest);
      forall c <- first + rest
        ensures exists s <- subs :: Asks(c, s.schema, s.stypeIn, StartAgain(s.start), s.id)
      {
        if c in first {
        } else {
          var s :| s in subs[1..] && Asks(c, s.schema, s.stypeIn, StartAgain(s.start), s.id);
          assert s in subs;
        }
      }
    }
  }

  /** What the request of a subscription says, its start being forgotten. */
  function Again(s: Subscription, id: u32): Message {
    Message(s.schema, s.stypeIn, None, id, "", s.start == Snapshot, false)
  }

  function Forget(s: Subscription): Subscription {
    if s.start.FromNanos? || s.start.FromText? then s.(start := NoStart) else s
  }

  /** What `Resubscribe` sends, from a counter value on. */
  function Resent(subs: seq<Subscription>, counter: u32): seq<Message> {
    if subs == [] then []
    else
      var id := Max(counter, subs[0].id);
      Chunks(Again(subs[0], id), subs[0].symbols) + Resent(subs[1..], id)
  }

  /** The same with each subscription under its own id. */
  function ResentAsStored(subs: seq<Subscription>): seq<Message> {
    if subs == [] then []
    else Chunks(Again(subs[0], subs[0].id), subs[0].symbols) + ResentAsStored(subs[1..])
  }

  lemma {:induction false} IdsReused(subs: seq<Subscription>, counter: u32)
    requires IdsGrow(subs)
    requires forall s <- subs :: counter <= s.id
    ensures Resent(subs, counter) == ResentAsStored(subs)
    decreases |subs|
  {
    hide Chunks, Again, IdsGrow;
    if subs == [] {
    } else {
      TailGrows(subs);
      assert subs[0] in subs;
      IdsReused(subs[1..], subs[0].id);
    }
  }

  lemma TailGrows(subs: seq<Subscription>)
    requires IdsGrow(subs) && subs != []
    ensures IdsGrow(subs[1..]) && forall s <- subs[1..] :: subs[0].id <= s.id
  {
    var rest := subs[1..];
    assert forall k :: 0 <= k < |rest| ==> rest[k] == subs[k + 1];
    forall s | s in rest
      ensures subs[0].id <= s.id
    {
      var k :| 0 <= k < |rest| && rest[k] == s;
      assert s == subs[k + 1];
    }
  }

  class Subscriber {
    var subCounter: u32
    var subscriptions: seq<Subscription>
    /** The subscription messages written to the connection. */
    var sent: seq<Message>

    /** Every stored subscription was sent once. */
    ghost predicate Stored()
      reads this
    {
      forall s <- subscriptions :: s.symbols != [] && s.id > 0
    }

    /** The ids grow, and the counter has caught up with them. */
    ghost predicate Valid()
      reads this
    {
      Stored() && IdsGrow(subscriptions) && forall s <- subscriptions :: s.id <= subCounter
    }

    constructor ()
      ensures Valid() && subscriptions == [] && sent == [] && subCounter == 0
    {
      subCounter, subscriptions, sent := 0, [], [];
    }

    method IncrementSubCounter()
      modifies this`subCounter
      ensures subCounter == Next(old(subCounter)) == Min(old(subCounter) + 1, 0xFFFF_FFFF)
    {
      if subCounter != MAX_ID {
        subCounter := subCounter + 1;
      }
    }

    /** Sends a request chunk by chunk; an empty one is refused. */
    method Send(m: Message, symbols: seq<string>) returns (ok: bool)
      modifies this`sent
      ensures ok <==> symbols != []
      ensures sent == old(sent) + Chunks(m, symbols)
    {
      hide Join;
      if symbols == [] {
        assert sent + [] == sent;
        return false;
      }
      var i := 0;
      assert symbols[0..] == symbols;
      while i < |symbols|
        invariant 0 <= i <= |symbols|
        invariant old(sent) + Chunks(m, symbols) == sent + Chunks(m, symbols[i..])
      {
        var distanceFromEnd := |symbols| - i;
        var chunkSize := Min(SYMBOL_MAX_CHUNK_SIZE, distanceFromEnd);
        var chunk := m.(symbols := Join(symbols[i..i + chunkSize]), isLast := distanceFromEnd <= SYMBOL_MAX_CHUNK_SIZE);
        assert symbols[i..][..chunkSize] == symbols[i..i + chunkSize];
        assert symbols[i..][chunkSize..] == symbols[i + chunkSize..];
        assert (sent + [chunk]) + Chunks(m, symbols[i + chunkSize..]) ==
            sent + ([chunk] + Chunks(m, symbols[i + chunkSize..]));
        sent := sent + [chunk];
        i := i + chunkSize;
      }
      assert symbols[i..] == [];
      return true;
    }

    /** The counter moves even when the request is refused; a subscription is
        stored only when its request was sent. The stored ids go on growing
        exactly when no stored id reaches the new one or the counter is
        exhausted. */
    method Subscribe(symbols: seq<string>, schema: int, stypeIn: int, start: Start) returns (ok: bool)
      requires Stored() && start != FromText("")
      modifies this
      ensures Stored() && (ok <==> symbols != [])
      ensures subCounter == Next(old(subCounter))
      ensures subscriptions == old(subscriptions) +
                if ok then [Subscription(symbols, schema, stypeIn, start, subCounter)] else []
      ensures sent == old(sent) + Chunks(Request(schema, stypeIn, start, subCounter), symbols)
      ensures forall k :: |old(sent)| <= k < |sent| ==> Asks(sent[k], schema, stypeIn, start, subCounter)
      ensures ok && old(IdsGrow(subscriptions)) ==>
                (IdsGrow(subscriptions) <==>
                 subCounter == MAX_ID || forall s <- old(subscriptions) :: s.id < subCounter)
      ensures old(Valid()) ==> Valid()
    {
      hide Chunks, IdsGrow;
      ghost var before := subscriptions;
      IncrementSubCounter();
      RequestAsks(schema, stypeIn, start, subCounter, symbols);
      hide Asks, Request;
      ok := Send(Request(schema, stypeIn, start, subCounter), symbols);
      if ok {
        var s := Subscription(symbols, schema, stypeIn, start, subCounter);
        GrowsExactly(before, s);
        subscriptions := subscriptions + [s];
      }
    }

    /** A new connection starts counting from the beginning. */
    method Reconnect()
      modifies this`subCounter
      ensures subCounter == 0
    {
      subCounter := 0;
    }

    method ResubscribeOne(i: nat)
      requires i < |subscriptions|
      modifies this
      ensures subscriptions == old(subscriptions)[i := Forget(old(subscriptions)[i])]
      ensures subCounter == Max(old(subCounter), old(subscriptions)[i].id)
      ensures sent == old(sent) + Chunks(Again(old(subscriptions)[i], subCounter), old(subscriptions)[i].symbols)
      ensures var s := old(subscriptions)[i];
              forall k :: |old(sent)| <= k < |sent| ==>
                Asks(sent[k], s.schema, s.stypeIn, StartAgain(s.start), subCounter)
    {
      hide Chunks;
      if subscriptions[i].start.FromNanos? || subscriptions[i].start.FromText? {
        subscriptions := subscriptions[i := subscriptions[i].(start := NoStart)];
      }
      var s := subscriptions[i];
      subCounter := Max(subCounter, s.id);
      AgainAsks(old(subscriptions)[i], subCounter);
      assert Again(s, subCounter) == Again(old(subscriptions)[i], subCounter);
      hide Asks, Again;
      var _ := Send(Again(s, subCounter), s.symbols);
    }

    method Resubscribe()
      requires Stored()
      modifies this
      ensures Stored()
      ensures subscriptions == ForgetAll(old(subscriptions))
      ensures sent == old(sent) + Resent(old(subscriptions), old(subCounter))
      ensures subCounter == Highest(IdsOf(old(subscriptions)), old(subCounter))
    {
      hide Chunks, Again, Forget, Resent, Highest, IdsGrow;
      ghost var subs := subscriptions;
      var i := 0;
      assert subs[0..] == subs;
      while i < |subscriptions|
        invariant 0 <= i <= |subscriptions| == |subs|
        invariant subscriptions == ForgetAll(subs[..i]) + subs[i..]
        invariant old(sent) + Resent(subs, old(subCounter)) == sent + Resent(subs[i..], subCounter)
        invariant Highest(IdsOf(subs), old(subCounter)) == Highest(IdsOf(subs[i..]), subCounter)
      {
        ResentStep(subs, i, subCounter, sent);
        assert subscriptions[i] == subs[i];
        ResubscribeOne(i);
        ForgetSnoc(subs, i);
        i := i + 1;
      }
      assert subs[i..] == [] && subs[..i] == subs;
      assert ForgetAll(subs) + [] == ForgetAll(subs);
      ResentDone(subCounter, sent);
      ForgetKeepsIds(subs);
    }

    /** A reconnect followed at once by a resubscription: ids keep growing and
        stay the stored ones, every subscription is sent again under its own id,
        and no start time survives. */
    method ReconnectAndResubscribe()
      requires Valid()
      modifies this
      ensures Valid()
      ensures sent == old(sent) + ResentAsStored(old(subscriptions))
      ensures subscriptions == ForgetAll(old(subscriptions))
      ensures forall s <- subscriptions :: s.start == Snapshot || s.start == NoStart
    {
      hide IdsGrow, Resent, ResentAsStored, Highest, Forget;
      ghost var subs := subscriptions;
      Reconnect();
      IdsReused(subs, 0);
      ForgetKeepsIds(subs);
      HighestBounds(IdsOf(subs), 0);
      Resubscribe();
      forall s | s in subscriptions
        ensures s.id <= subCounter
      {
        var k :| 0 <= k < |subs| && subscriptions[k] == s;
        assert s.id == IdsOf(subs)[k];
      }
    }
  }

  /** A request names its start, or says nothing. */
  function StartText(s: Start): Option<string> {
    match s
    case FromNanos(n) => Some(Digits(n))
    case FromText(t) => Some(t)
    case _ => None
  }

  function ForgetAll(subs: seq<Subscription>): (r: seq<Subscription>)
    ensures |r| == |subs| && forall k :: 0 <= k < |subs| ==> r[k] == Forget(subs[k])
  {
    seq(|subs|, k requires 0 <= k < |subs| => Forget(subs[k]))
  }

  lemma ResentStep(subs: seq<Subscription>, i: nat, counter: u32, sent: seq<Message>)
    requires i < |subs|
    ensures var id := Max(counter, subs[i].id);
            && sent + Resent(subs[i..], counter) ==
                (sent + Chunks(Again(subs[i], id), subs[i].symbols)) + Resent(subs[i + 1..], id)
            && Highest(IdsOf(subs[i..]), counter) == Highest(IdsOf(subs[i + 1..]), id)
  {
    hide Chunks, Again;
    var id := Max(counter, subs[i].id);
    assert subs[i..][0] == subs[i] && subs[i..][1..] == subs[i + 1..];
    assert IdsOf(subs[i..])[1..] == IdsOf(subs[i + 1..]);
    assert (sent + Chunks(Again(subs[i], id), subs[i].symbols)) + Resent(subs[i + 1..], id)
        == sent + (Chunks(Again(subs[i], id), subs[i].symbols) + Resent(subs[i + 1..], id));
  }

  lemma ResentDone(counter: u32, sent: seq<Message>)
    ensures sent + Resent([], counter) == sent && Highest(IdsOf([]), counter) == counter
  {
  }

  /** The counter after a resubscription. */
  function Highest(ids: seq<u32>, counter: u32): u32 {
    if ids == [] then counter else Highest(ids[1..], Max(counter, ids[0]))
  }

  lemma {:induction false} HighestBounds(ids: seq<u32>, counter: u32)
    ensures counter <= Highest(ids, counter)
    ensures forall k :: 0 <= k < |ids| ==> ids[k] <= Highest(ids, counter)
    ensures Highest(ids, counter) == counter || Highest(ids, counter) in ids
    decreases |ids|
  {
    if ids == [] {
    } else {
      HighestBounds(ids[1..], Max(counter, ids[0]));
      assert forall k :: 1 <= k < |ids| ==> ids[k] == ids[1..][k - 1];
    }
  }

  lemma ForgetSnoc(subs: seq<Subscription>, i: nat)
    requires i < |subs|
    ensures (ForgetAll(subs[..i]) + subs[i..])[i := Forget(subs[i])] == ForgetAll(subs[..i + 1]) + subs[i + 1..]
  {
  }

  lemma ForgetKeepsIds(subs: seq<Subscription>)
    ensures IdsGrow(subs) ==> IdsGrow(ForgetAll(subs))
    ensures forall k :: 0 <= k < |subs| ==>
              ForgetAll(subs)[k].id == subs[k].id && ForgetAll(subs)[k].symbols == subs[k].symbols
    ensures forall s <- ForgetAll(subs) :: s.start == Snapshot || s.start == NoStart
    ensures (forall s <- subs :: s.symbols != [] && s.id > 0) ==>
              forall s <- ForgetAll(subs) :: s.symbols != [] && s.id > 0
  {
    assert forall k :: 0 <= k < |subs| ==> subs[k] in subs;
  }

  // ----- whole runs -----

  datatype SessionOp =
    | OpSubscribe(symbols: seq<string>, schema: int, stypeIn: int, start: Start)
    | OpReconnect
    | OpResubscribe

  /** The part of the client's state that decides about ids. */
  datatype Ids = Ids(counter: u32, ids: seq<u32>)

  predicate Growing(ids: seq<u32>) {
    forall i, j :: 0 <= i < j < |ids| ==> ids[i] < ids[j] || ids[j] == MAX_ID
  }

  function IdStep(s: Ids, op: SessionOp): Ids {
    match op
    case OpSubscribe(symbols, _, _, _) =>
      Ids(Next(s.counter), if symbols == [] then s.ids else s.ids + [Next(s.counter)])
    case OpReconnect => Ids(0, s.ids)
    case OpResubscribe => Ids(Highest(s.ids, s.counter), s.ids)
  }

  function IdsAfter(s: Ids, ops: seq<SessionOp>): Ids {
    if ops == [] then s else IdStep(IdsAfter(s, ops[..|ops| - 1]), ops[|ops| - 1])
  }

  lemma IdsAfterNext(s: Ids, ops: seq<SessionOp>, i: nat)
    requires i < |ops|
    ensures IdsAfter(s, ops[..i + 1]) == IdStep(IdsAfter(s, ops[..i]), ops[i])
  {
    assert ops[..i + 1][..i] == ops[..i];
  }

  /** No stored id reaches the next one, or the counter is exhausted. */
  predicate NextIsNew(s: Ids) {
    Next(s.counter) == MAX_ID || forall id <- s.ids :: id < Next(s.counter)
  }

  predicate Stores(op: SessionOp) {
    op.OpSubscribe? && op.symbols != []
  }

  lemma StepGrowsExactly(s: Ids, op: SessionOp)
    ensures Growing(IdStep(s, op).ids) <==> Growing(s.ids) && (Stores(op) ==> NextIsNew(s))
  {
    if Stores(op) {
      var all := s.ids + [Next(s.counter)];
      assert all[|s.ids|] == Next(s.counter);
      assert forall k :: 0 <= k < |s.ids| ==> all[k] == s.ids[k] && s.ids[k] in s.ids;
    }
  }

  /** Over any run the stored ids grow exactly when each stored subscription
      found a new id. */
  lemma {:induction false} RunGrowsExactly(s: Ids, ops: seq<SessionOp>)
    ensures Growing(IdsAfter(s, ops).ids) <==>
            Growing(s.ids) && forall i :: 0 <= i < |ops| && Stores(ops[i]) ==> NextIsNew(IdsAfter(s, ops[..i]))
    decreases |ops|
  {
    hide Growing, NextIsNew, Stores, IdStep;
    if ops == [] {
    } else {
      var n := |ops| - 1;
      var front := ops[..n];
      RunGrowsExactly(s, front);
      StepGrowsExactly(IdsAfter(s, front), ops[n]);
      hide IdsAfter;
      assert forall i :: 0 <= i < n ==> front[i] == ops[i] && front[..i] == ops[..i];
    }
  }

  /** Each reconnect is followed at once by a resubscription. */
  predicate Paired(ops: seq<SessionOp>) {
    forall i :: 0 <= i < |ops| - 1 && ops[i].OpReconnect? ==> ops[i + 1].OpResubscribe?
  }

  predicate CaughtUp(s: Ids) {
    forall id <- s.ids :: id <= s.counter
  }

  /** In such a run the counter has caught up whenever it is used, so every id is
      new. */
  lemma {:induction false} PairedRunsGrow(s: Ids, ops: seq<SessionOp>)
    requires Growing(s.ids) && CaughtUp(s) && Paired(ops)
    ensures Growing(IdsAfter(s, ops).ids)
    ensures CaughtUp(IdsAfter(s, ops)) || ops[|ops| - 1].OpReconnect?
    decreases |ops|
  {
    hide Growing, Highest;
    if ops == [] {
    } else {
      var n := |ops| - 1;
      var front := ops[..n];
      PairedRunsGrow(s, front);
      var before := IdsAfter(s, front);
      StepGrowsExactly(before, ops[n]);
      HighestBounds(before.ids, before.counter);
      if n > 0 {
        assert front[n - 1] == ops[n - 1];
      }
    }
  }

  /** A reconnect alone starts the ids again from 1: the second of two
      subscriptions gets the id of the first. */
  lemma ReconnectAloneRepeats(op: SessionOp)
    requires Stores(op)
    ensures IdsAfter(Ids(0, []), [op, OpReconnect, op]) == Ids(1, [1, 1])
    ensures !Growing(IdsAfter(Ids(0, []), [op, OpReconnect, op]).ids)
  {
    var ops := [op, OpReconnect, op];
    var s := Ids(0, []);
    assert ops[..0] == [];
    IdsAfterNext(s, ops, 0);
    IdsAfterNext(s, ops, 1);
    IdsAfterNext(s, ops, 2);
    assert ops[..3] == ops;
    assert [1] + [1] == [1, 1];
    var ids: seq<u32> := [1, 1];
    assert !(ids[0] < ids[1] || ids[1] == MAX_ID);
  }

  ghost function IdsIn(client: Subscriber): Ids
    reads client
  {
    Ids(client.subCounter, IdsOf(client.subscriptions))
  }

  /** Any run changes counter and ids as the model says, never the symbols or the
      id of a stored subscription, and keeps the ids growing if each reconnect is
      followed at once by a resubscription. */
  method RunSession(client: Subscriber, ops: seq<SessionOp>)
    requires client.Stored() && forall op <- ops :: op.OpSubscribe? ==> op.start != FromText("")
    modifies client
    ensures client.Stored() && IdsIn(client) == IdsAfter(old(IdsIn(client)), ops)
    ensures old(client.Valid()) && Paired(ops) ==> IdsGrow(client.subscriptions)
    ensures |client.subscriptions| >= |old(client.subscriptions)|
    ensures forall k :: 0 <= k < |old(client.subscriptions)| ==>
              client.subscriptions[k].id == old(client.subscriptions)[k].id
              && client.subscriptions[k].symbols == old(client.subscriptions)[k].symbols
  {
    hide IdsGrow, Paired, IdsAfter;
    ghost var start, subs, valid := IdsIn(client), client.subscriptions, client.Valid();
    NothingDone(start);
    assert ops[..0] == [];
    var i := 0;
    while i < |ops|
      invariant 0 <= i <= |ops| && client.Stored()
      invariant IdsIn(client) == IdsAfter(start, ops[..i])
      invariant |client.subscriptions| >= |subs|
      invariant forall k :: 0 <= k < |subs| ==>
                  client.subscriptions[k].id == subs[k].id && client.subscriptions[k].symbols == subs[k].symbols
    {
      IdsAfterNext(start, ops, i);
      Perform(client, ops[i]);
      i := i + 1;
    }
    assert ops[..i] == ops;
    if valid && Paired(ops) {
      GrowthOf(subs);
      GrowthOf(client.subscriptions);
      assert CaughtUp(start);
      PairedRunsGrow(start, ops);
    }
  }

  lemma NothingDone(s: Ids)
    ensures IdsAfter(s, []) == s
  {
  }

  lemma GrowthOf(subs: seq<Subscription>)
    ensures IdsGrow(subs) <==> Growing(IdsOf(subs))
  {
    var ids := IdsOf(subs);
    assert forall k :: 0 <= k < |subs| ==> ids[k] == subs[k].id;
  }

  method Perform(client: Subscriber, op: SessionOp)
    requires client.Stored() && (op.OpSubscribe? ==> op.start != FromText(""))
    modifies client
    ensures client.Stored() && IdsIn(client) == IdStep(old(IdsIn(client)), op)
    ensures |client.subscriptions| >= |old(client.subscriptions)|
    ensures forall k :: 0 <= k < |old(client.subscriptions)| ==>
              client.subscriptions[k].id == old(client.subscriptions)[k].id
              && client.subscriptions[k].symbols == old(client.subscriptions)[k].symbols
  {
    hide IdsGrow, Highest, Chunks;
    ghost var ids, subs := IdsOf(client.subscriptions), client.subscriptions;
    match op {
      case OpSubscribe(symbols, schema, stypeIn, start) =>
        var ok := client.Subscribe(symbols, schema, stypeIn, start);
        assert IdsOf(client.subscriptions) == ids + if ok then [client.subCounter] else [];
      case OpReconnect =>
        client.Reconnect();
      case OpResubscribe =>
        client.Resubscribe();
        ForgetKeepsIds(subs);
        assert IdsOf(client.subscriptions) == ids;
    }
  }
}
