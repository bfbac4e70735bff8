/** Records on the wire: a byte string whose first byte is its length in 4-byte
    words. A stream of bytes parses into the records it holds and a tail. */
module Frames {
  import opened Bytes

  /** The size a record's first byte states. */
  function SizeOf(r: bytes): nat
    requires r != []
  {
    4 * (r[0] as int)
  }

  predicate WellFormed(r: bytes) {
    r != [] && r[0] != 0 && |r| == SizeOf(r)
  }

  predicate AllWellFormed(rs: seq<bytes>) {
    forall r <- rs :: WellFormed(r)
  }

  /** Does `s` begin with a complete record? */
  predicate Complete(s: bytes) {
    s != [] && s[0] != 0 && |s| >= SizeOf(s)
  }

  function Head(s: bytes): bytes
    requires Complete(s)
  {
    s[..SizeOf(s)]
  }

  datatype Parse = Parse(records: seq<bytes>, tail: bytes)

  function ParseRecords(s: bytes): Parse
    decreases |s|
  {
    if Complete(s) then
      var rest := ParseRecords(s[SizeOf(s)..]);
      Parse([Head(s)] + rest.records, rest.tail)
    else Parse([], s)
  }

  /** A record that claims to be empty: no reader can step over it. */
  predicate Stuck(s: bytes) {
    var tail := ParseRecords(s).tail;
    tail != [] && tail[0] == 0
  }

  lemma ParseStep(s: bytes)
    ensures Complete(s) ==>
              var rest := s[SizeOf(s)..];
              && |rest| < |s| && WellFormed(Head(s)) && s == Head(s) + rest
              && ParseRecords(s) == Parse([Head(s)] + ParseRecords(rest).records, ParseRecords(rest).tail)
    ensures !Complete(s) ==> ParseRecords(s) == Parse([], s)
  {
  }

  lemma {:induction false} ParseIsSplit(s: bytes)
    ensures var p := ParseRecords(s);
            Concat(p.records) + p.tail == s && AllWellFormed(p.records) && !Complete(p.tail)
    decreases |s|
  {
    hide Concat, ParseRecords, WellFormed, Head;
    ParseStep(s);
    if Complete(s) {
      var rest := s[SizeOf(s)..];
      ParseIsSplit(rest);
      SplitCons(Head(s), ParseRecords(rest).records, ParseRecords(rest).tail);
    } else {
      ConcatNone();
      assert [] + s == s;
    }
  }

  lemma SplitCons(r: bytes, rs: seq<bytes>, tail: bytes)
    ensures Concat([r] + rs) + tail == r + (Concat(rs) + tail)
  {
    ConcatCons(r, rs);
    assert (r + Concat(rs)) + tail == r + (Concat(rs) + tail);
  }

  lemma ConcatCons(r: bytes, rs: seq<bytes>)
    ensures Concat([r] + rs) == r + Concat(rs)
  {
    assert ([r] + rs)[1..] == rs;
  }

  lemma ConcatNone()
    ensures Concat([]) == []
  {
  }

  lemma WellFormedSnoc(rs: seq<bytes>, s: bytes)
    requires AllWellFormed(rs) && Complete(s)
    ensures AllWellFormed(rs + [Head(s)]) && s == Head(s) + s[SizeOf(s)..]
  {
    ParseStep(s);
  }

  /** A well-formed record at the front is the first to be parsed. */
  lemma ParseCons(r: bytes, s: bytes)
    requires WellFormed(r)
    ensures Complete(r + s) && Head(r + s) == r && (r + s)[SizeOf(r + s)..] == s
    ensures ParseRecords(r + s) == Parse([r] + ParseRecords(s).records, ParseRecords(s).tail)
  {
    var all := r + s;
    assert all[0] == r[0];
    assert Head(all) == r && all[SizeOf(all)..] == s;
  }

  /** Parsing starts afresh after any number of whole records. */
  lemma {:induction false} ParseAppend(rs: seq<bytes>, s: bytes)
    requires AllWellFormed(rs)
    ensures ParseRecords(Concat(rs) + s) == Parse(rs + ParseRecords(s).records, ParseRecords(s).tail)
  {
    hide ParseRecords, Concat, WellFormed;
    if rs == [] {
      ConcatNone();
      assert [] + s == s;
      assert [] + ParseRecords(s).records == ParseRecords(s).records;
    } else {
      var rest := Concat(rs[1..]) + s;
      assert rs == [rs[0]] + rs[1..];
      ConcatCons(rs[0], rs[1..]);
      assert (rs[0] + Concat(rs[1..])) + s == rs[0] + rest;
      assert rs[0] in rs;
      ParseCons(rs[0], rest);
      ParseAppend(rs[1..], s);
      assert [rs[0]] + (rs[1..] + ParseRecords(s).records) == rs + ParseRecords(s).records;
    }
  }

  /** The parse is the only way to cut a stream into whole records and a tail
      that holds none. */
  lemma ParseUnique(rs: seq<bytes>, tail: bytes)
    requires AllWellFormed(rs) && !Complete(tail)
    ensures ParseRecords(Concat(rs) + tail) == Parse(rs, tail)
  {
    ParseAppend(rs, tail);
    assert rs + [] == rs;
  }

  /** A record's first byte counts its 4-byte words, itself included. */
  lemma WordsCounted(words: byte, payload: bytes, s: bytes)
    requires words > 0 && |payload| == 4 * words as int - 1
    ensures ParseRecords([words] + payload + s) ==
              Parse([[words] + payload] + ParseRecords(s).records, ParseRecords(s).tail)
  {
    ParseCons([words] + payload, s);
  }

  /** More bytes only add records at the end. */
  lemma ParseExtend(s: bytes, e: bytes)
    ensures var p := ParseRecords(s);
            var q := ParseRecords(p.tail + e);
            ParseRecords(s + e) == Parse(p.records + q.records, q.tail)
  {
    var p := ParseRecords(s);
    ParseIsSplit(s);
    ParseAppend(p.records, p.tail + e);
    assert s + e == Concat(p.records) + (p.tail + e);
  }

  lemma StuckExtend(s: bytes, e: bytes)
    requires Stuck(s)
    ensures Stuck(s + e)
  {
    ParseExtend(s, e);
    var p := ParseRecords(s);
    assert (p.tail + e)[0] == 0;
  }

  /** A reader that has taken whole records from a stream that is not stuck does
      not see an empty record next. */
  lemma NotStuckHead(rs: seq<bytes>, s: bytes)
    requires AllWellFormed(rs) && !Stuck(Concat(rs) + s)
    ensures s != [] ==> s[0] != 0
  {
    ParseAppend(rs, s);
  }

  /** Each record spans an even number of 4-byte words. */
  predicate EvenWords(rs: seq<bytes>) {
    forall r <- rs :: r != [] ==> r[0] % 2 == 0
  }

  lemma EvenWordsSnoc(rs: seq<bytes>, r: bytes)
    ensures EvenWords(rs + [r]) <==> EvenWords(rs) && EvenWords([r])
  {
    assert r in rs + [r];
    assert forall x <- rs :: x in rs + [r];
  }

  /** A record handed out at an aligned offset leaves the next one aligned. */
  lemma NextAligned(raw: seq<bytes>, offsets: seq<nat>, readPos: nat, record: bytes)
    requires |offsets| == |raw| && (EvenWords(raw) ==> readPos % 8 == 0 && forall o <- offsets :: o % 8 == 0)
    ensures EvenWords(raw + [record]) ==>
              EvenWords([record]) && readPos % 8 == 0 && forall o <- offsets + [readPos] :: o % 8 == 0
  {
    hide EvenWords;
    EvenWordsSnoc(raw, record);
  }

  // ----- delivery to a callback that may ask to stop -----

  /** What the callback saw, in order, and whether it asked to stop. A callback
      is a function of everything it has been shown. */
  datatype Delivery = Delivery(seen: seq<bytes>, stopped: bool)

  type KeepGoing = seq<bytes> -> bool

  function Deliver(seen: seq<bytes>, todo: seq<bytes>, keepGoing: KeepGoing): Delivery
    decreases |todo|
  {
    if todo == [] then Delivery(seen, false)
    else
      var now := seen + [todo[0]];
      if keepGoing(now) then Deliver(now, todo[1..], keepGoing) else Delivery(now, true)
  }

  /** No stop has been asked for yet. */
  ghost predicate Going(seen: seq<bytes>, keepGoing: KeepGoing) {
    forall p | p <= seen && p != [] :: keepGoing(p)
  }

  lemma GoingSnoc(seen: seq<bytes>, r: bytes, keepGoing: KeepGoing)
    requires Going(seen, keepGoing) && keepGoing(seen + [r])
    ensures Going(seen + [r], keepGoing)
  {
    forall p | p <= seen + [r] && p != []
      ensures keepGoing(p)
    {
      if |p| <= |seen| {
        assert p == (seen + [r])[..|p|] == seen[..|p|];
      } else {
        assert p == seen + [r];
      }
    }
  }

  lemma {:induction false} DeliverAppend(seen: seq<bytes>, a: seq<bytes>, b: seq<bytes>, keepGoing: KeepGoing)
    ensures var d := Deliver(seen, a, keepGoing);
            Deliver(seen, a + b, keepGoing) == if d.stopped then d else Deliver(d.seen, b, keepGoing)
    decreases |a|
  {
    if a == [] {
      assert a + b == b;
    } else {
      assert (a + b)[1..] == a[1..] + b;
      DeliverAppend(seen + [a[0]], a[1..], b, keepGoing);
    }
  }

  /** Records that all met with a request to go on have all been delivered. */
  lemma {:induction false} DeliverGoing(all: seq<bytes>, k: nat, keepGoing: KeepGoing)
    requires k <= |all| && Going(all, keepGoing)
    ensures Deliver(all[..k], all[k..], keepGoing) == Delivery(all, false)
    decreases |all| - k
  {
    if k < |all| {
      assert all[..k] + [all[k..][0]] == all[..k + 1];
      assert all[..k + 1] <= all;
      assert all[k..][1..] == all[k + 1..];
      DeliverGoing(all, k + 1, keepGoing);
    } else {
      assert all[..k] == all;
    }
  }

  lemma DeliverAll(all: seq<bytes>, keepGoing: KeepGoing)
    requires Going(all, keepGoing)
    ensures Deliver([], all, keepGoing) == Delivery(all, false)
  {
    DeliverGoing(all, 0, keepGoing);
    assert all[..0] == [] && all[0..] == all;
  }

  lemma DeliverStop(all: seq<bytes>, last: bytes, rest: seq<bytes>, keepGoing: KeepGoing)
    requires Going(all, keepGoing) && !keepGoing(all + [last])
    ensures Deliver([], all + ([last] + rest), keepGoing) == Delivery(all + [last], true)
  {
    DeliverAll(all, keepGoing);
    DeliverAppend([], all, [last] + rest, keepGoing);
  }
}
