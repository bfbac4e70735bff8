/** The live client's processing thread: sessions started and restarted around a
    loop over records, with callbacks that may end it. A run is modelled up to
    any point by the finite list of what the environment does. */
module ProcessingThread {
  import opened Bytes

  datatype Verdict = GoOn | StopNow | Threw

  datatype Action = Restart | StopThread

  /** What happens at one turn of either loop. `destroyed` says that the owner
      cleared `keep_going` before the turn; the other parts answer the calls the
      turn makes. */
  datatype Turn = Turn(destroyed: bool, start: StartAnswer, read: ReadAnswer, onException: Action)

  datatype StartAnswer = StartSucceeds(metadataCallbackThrows: bool) | StartFails

  datatype ReadAnswer = HasRecord(verdict: Verdict) | WaitEnds | ReadFails

  datatype Event =
    | Started | StartThrew
    | MetadataCallback(ok: bool)
    | RecordCallback(verdict: Verdict)
    | TimedOut | ReadThrew
    | ExceptionCallback(action: Action)
    | SessionStopped
    | Notified

  predicate IsCallback(e: Event) {
    e.MetadataCallback? || e.RecordCallback? || e.ExceptionCallback?
  }

  // ----- the allowed traces -----

  datatype Phase =
    | Idle                        // between sessions
    | Opened                      // started, metadata callback due
    | Running                     // in the record loop
    | Failed(inLoop: bool)        // an exception is being handled
    | Refused(inLoop: bool)       // the exception callback asked to stop
    | Stopping                    // the record callback asked to stop
    | Closing                     // stopped inside the record loop, notification due
    | Ended(notified: bool)

  /** The next phase; none when the event may not happen. */
  function Step(hasMetadata: bool, hasException: bool, p: Phase, e: Event): Option<Phase> {
    match p
    case Idle =>
      if e == Started then Some(if hasMetadata then Opened else Running)
      else if e == StartThrew then Some(Failed(false)) else None
    case Opened =>
      if e.MetadataCallback? then Some(if e.ok then Running else Failed(false)) else None
    case Running =>
      if e == TimedOut || e == RecordCallback(GoOn) then Some(Running)
      else if e == RecordCallback(StopNow) then Some(Stopping)
      else if e == ReadThrew || e == RecordCallback(Threw) then Some(Failed(true)) else None
    case Failed(inLoop) =>
      if hasException then
        if e == ExceptionCallback(Restart) then Some(Idle)
        else if e == ExceptionCallback(StopThread) then Some(Refused(inLoop)) else None
      else if e == SessionStopped then Some(if inLoop then Closing else Ended(false)) else None
    case Refused(inLoop) =>
      if e == SessionStopped then Some(if inLoop then Closing else Ended(false)) else None
    case Stopping => if e == SessionStopped then Some(Closing) else None
    case Closing => if e == Notified then Some(Ended(true)) else None
    case Ended(_) => None
  }

  /** The phase a trace leads to, if it is allowed. */
  function PhaseOf(hasMetadata: bool, hasException: bool, trace: seq<Event>): Option<Phase> {
    if trace == [] then Some(Idle)
    else
      var before := PhaseOf(hasMetadata, hasException, trace[..|trace| - 1]);
      if before.None? then None else Step(hasMetadata, hasException, before.value, trace[|trace| - 1])
  }

  lemma PhaseSnoc(hasMetadata: bool, hasException: bool, trace: seq<Event>, e: Event)
    ensures PhaseOf(hasMetadata, hasException, trace + [e]) ==
            var before := PhaseOf(hasMetadata, hasException, trace);
            if before.None? then None else Step(hasMetadata, hasException, before.value, e)
  {
    assert (trace + [e])[..|trace|] == trace;
  }

  lemma OnlyNoticeEnds(hasMetadata: bool, hasException: bool, p: Phase, e: Event)
    requires e != Notified && Step(hasMetadata, hasException, p, e).Some?
    ensures Step(hasMetadata, hasException, p, e).value != Ended(true)
  {
  }

  // ----- what the environment's answers amount to -----

  predicate Opens(hasMetadata: bool, answer: StartAnswer) {
    answer.StartSucceeds? && !(hasMetadata && answer.metadataCallbackThrows)
  }

  function StartEvents(hasMetadata: bool, answer: StartAnswer): seq<Event> {
    if answer.StartFails? then [StartThrew]
    else [Started] + if hasMetadata then [MetadataCallback(!answer.metadataCallbackThrows)] else []
  }

  function ReadEvent(answer: ReadAnswer): Event {
    match answer
    case HasRecord(verdict) => RecordCallback(verdict)
    case WaitEnds => TimedOut
    case ReadFails => ReadThrew
  }

  function HandlerEvents(hasException: bool, action: Action): seq<Event> {
    if !hasException then [SessionStopped]
    else [ExceptionCallback(action)] + if action == Restart then [] else [SessionStopped]
  }

  /** The events of one turn of the loop that the thread is in. */
  function TurnEvents(hasMetadata: bool, hasException: bool, p: Phase, turn: Turn): seq<Event> {
    var handled := HandlerEvents(hasException, turn.onException);
    var restarted := hasException && turn.onException == Restart;
    if p == Idle then
      StartEvents(hasMetadata, turn.start) + if Opens(hasMetadata, turn.start) then [] else handled
    else if p == Running then
      var e := ReadEvent(turn.read);
      [e] + if e == RecordCallback(StopNow) then [SessionStopped, Notified]
            else if e == ReadThrew || e == RecordCallback(Threw) then handled + if restarted then [] else [Notified]
            else []
    else []
  }

  /** The trace that the turns make, one after the other. */
  function Expected(hasMetadata: bool, hasException: bool, turns: seq<Turn>): seq<Event> {
    if turns == [] then []
    else
      var before := Expected(hasMetadata, hasException, turns[..|turns| - 1]);
      var p := PhaseOf(hasMetadata, hasException, before);
      before + if p.Some? then TurnEvents(hasMetadata, hasException, p.value, turns[|turns| - 1]) else []
  }

  lemma ExpectedNext(hasMetadata: bool, hasException: bool, turns: seq<Turn>, i: nat, p: Phase)
    requires i < |turns|
    requires PhaseOf(hasMetadata, hasException, Expected(hasMetadata, hasException, turns[..i])) == Some(p)
    ensures Expected(hasMetadata, hasException, turns[..i + 1]) ==
            Expected(hasMetadata, hasException, turns[..i]) + TurnEvents(hasMetadata, hasException, p, turns[i])
  {
    hide PhaseOf, TurnEvents;
    assert turns[..i + 1][..i] == turns[..i];
  }

  /** Turns of a session that starts well and is neither stopped nor failed. */
  predicate Undisturbed(turns: seq<Turn>) {
    && turns != [] && turns[0].start == StartSucceeds(false)
    && forall k :: 1 <= k < |turns| ==> turns[k].read == HasRecord(GoOn) || turns[k].read == WaitEnds
  }

  /** What the turn of a running session makes visible. */
  function Ordinary(turn: Turn): Event {
    if turn.read == WaitEnds then TimedOut else RecordCallback(GoOn)
  }

  function Opening(hasMetadata: bool): seq<Event> {
    if hasMetadata then [Started, MetadataCallback(true)] else [Started]
  }

  /** In such a session every record that is read is shown to the callback and
      every wait without one is a timeout, in order, behind a single metadata
      callback. */
  lemma {:induction false} UndisturbedTrace(hasMetadata: bool, hasException: bool, turns: seq<Turn>)
    requires Undisturbed(turns)
    ensures var trace := Expected(hasMetadata, hasException, turns);
            var first := if hasMetadata then 2 else 1;
            && |trace| == first + |turns| - 1
            && trace[0] == Started && (hasMetadata ==> trace[1] == MetadataCallback(true))
            && forall k :: 1 <= k < |turns| ==>
                 trace[first + k - 1] == if turns[k].read == WaitEnds then TimedOut else RecordCallback(GoOn)
    ensures PhaseOf(hasMetadata, hasException, Expected(hasMetadata, hasException, turns)) == Some(Running)
    decreases |turns|
  {
    hide PhaseOf, Expected, TurnEvents, Step;
    var n := |turns| - 1;
    if n == 0 {
      OpeningTrace(hasMetadata, hasException, turns);
    } else {
      var before := turns[..n];
      UndisturbedTrace(hasMetadata, hasException, before);
      assert turns[..n + 1] == turns;
      ExpectedNext(hasMetadata, hasException, turns, n, Running);
      OrdinaryTurn(hasMetadata, hasException, turns[n]);
      PhaseSnoc(hasMetadata, hasException, Expected(hasMetadata, hasException, before), Ordinary(turns[n]));
    }
  }

  lemma OrdinaryTurn(hasMetadata: bool, hasException: bool, turn: Turn)
    requires turn.read == HasRecord(GoOn) || turn.read == WaitEnds
    ensures TurnEvents(hasMetadata, hasException, Running, turn) == [Ordinary(turn)]
    ensures Step(hasMetadata, hasException, Running, Ordinary(turn)) == Some(Running)
  {
  }

  lemma OpeningTrace(hasMetadata: bool, hasException: bool, turns: seq<Turn>)
    requires |turns| == 1 && turns[0].start == StartSucceeds(false)
    ensures Expected(hasMetadata, hasException, turns) == Opening(hasMetadata)
    ensures PhaseOf(hasMetadata, hasException, Opening(hasMetadata)) == Some(Running)
  {
    assert turns[..0] == [];
    NoTurns(hasMetadata, hasException);
    ExpectedNext(hasMetadata, hasException, turns, 0, Idle);
    assert turns[..1] == turns;
    PhaseSnoc(hasMetadata, hasException, [], Started);
    assert [] + [Started] == [Started];
    if hasMetadata {
      PhaseSnoc(hasMetadata, hasException, [Started], MetadataCallback(true));
      assert [Started] + [MetadataCallback(true)] == [Started, MetadataCallback(true)];
    }
  }

  // ----- the thread -----

  class LiveThread {
    const hasMetadata: bool
    const hasException: bool
    var keepGoing: bool
    /** Is `last_cb_ret` at Stop? */
    var lastCallbackStopped: bool
    var trace: seq<Event>

    constructor (hasMetadata: bool, hasException: bool)
      ensures this.hasMetadata == hasMetadata && this.hasException == hasException
      ensures keepGoing && !lastCallbackStopped && trace == []
    {
      this.hasMetadata, this.hasException := hasMetadata, hasException;
      keepGoing, lastCallbackStopped, trace := true, false, [];
    }

    /** The trace is allowed and the waiters were told exactly when it says so. */
    ghost predicate At(p: Phase)
      reads this
    {
      && PhaseOf(hasMetadata, hasException, trace) == Some(p)
      && (lastCallbackStopped <==> p == Ended(true))
    }

    method Emit(e: Event, ghost p: Phase)
      requires At(p) && e != Notified && Step(hasMetadata, hasException, p, e).Some? && !p.Ended?
      modifies this`trace
      ensures trace == old(trace) + [e]
      ensures At(Step(hasMetadata, hasException, p, e).value)
    {
      hide PhaseOf, Step;
      PhaseSnoc(hasMetadata, hasException, trace, e);
      OnlyNoticeEnds(hasMetadata, hasException, p, e);
      trace := trace + [e];
    }

    method NotifyOfStop()
      requires At(Closing)
      modifies this`trace, this`lastCallbackStopped
      ensures trace == old(trace) + [Notified] && At(Ended(true))
    {
      PhaseSnoc(hasMetadata, hasException, trace, Notified);
      trace := trace + [Notified];
      lastCallbackStopped := true;
    }

    method ExceptionHandler(onException: Action, ghost inLoop: bool) returns (action: Action)
      requires At(Failed(inLoop))
      modifies this`trace
      ensures trace == old(trace) + HandlerEvents(hasException, onException)
      ensures action == if hasException then onException else StopThread
      ensures At(if action == Restart then Idle else if inLoop then Closing else Ended(false))
    {
      hide PhaseOf;
      if hasException {
        Emit(ExceptionCallback(onException), Failed(inLoop));
        if onException == Restart {
          return Restart;
        }
        Emit(SessionStopped, Refused(inLoop));
      } else {
        Emit(SessionStopped, Failed(inLoop));
      }
      return StopThread;
    }

    /** Start, and the metadata callback; true when the session is running. */
    method StartSession(answer: StartAnswer) returns (ok: bool)
      requires At(Idle)
      modifies this`trace
      ensures trace == old(trace) + StartEvents(hasMetadata, answer)
      ensures ok == Opens(hasMetadata, answer)
      ensures At(if ok then Running else Failed(false))
    {
      hide PhaseOf;
      if answer.StartFails? {
        Emit(StartThrew, Idle);
        return false;
      }
      Emit(Started, Idle);
      if hasMetadata {
        Emit(MetadataCallback(!answer.metadataCallbackThrows), Opened);
        return !answer.metadataCallbackThrows;
      }
      return true;
    }

    /** One read and, if it gave a record, the record callback. */
    method ReadOne(answer: ReadAnswer) returns (verdict: Verdict)
      requires At(Running)
      modifies this`trace
      ensures trace == old(trace) + [ReadEvent(answer)]
      ensures verdict == if answer.HasRecord? then answer.verdict else if answer.WaitEnds? then GoOn else Threw
      ensures At(match verdict case GoOn => Running case StopNow => Stopping case Threw => Failed(true))
    {
      hide PhaseOf;
      match answer
      case WaitEnds =>
        Emit(TimedOut, Running);
        return GoOn;
      case ReadFails =>
        Emit(ReadThrew, Running);
        return Threw;
      case HasRecord(v) =>
        assert v == GoOn || v == StopNow || v == Threw;
        Emit(RecordCallback(v), Running);
        return v;
    }

    /** One turn of the record loop; the phase it ends in says how to go on. */
    method RecordTurn(turn: Turn) returns (ghost p: Phase, again: bool, done: bool)
      requires At(Running)
      modifies this`trace, this`lastCallbackStopped
      ensures trace == old(trace) + TurnEvents(hasMetadata, hasException, Running, turn)
      ensures At(p) && p == (if again then Idle else if done then Ended(true) else Running)
    {
      hide PhaseOf;
      var verdict := ReadOne(turn.read);
      if verdict == StopNow {
        Emit(SessionStopped, Stopping);
        NotifyOfStop();
        return Ended(true), false, true;
      }
      if verdict == Threw {
        var action := ExceptionHandler(turn.onException, true);
        if action == Restart {
          return Idle, true, false;
        }
        NotifyOfStop();
        return Ended(true), false, true;
      }
      return Running, false, false;
    }

    /** The thread has taken the turns before `i`, none of which came after the
        owner's request to end, and done what they amount to. */
    ghost predicate Taken(turns: seq<Turn>, i: nat)
      reads this
    {
      && i <= |turns| && trace == Expected(hasMetadata, hasException, turns[..i])
      && keepGoing && forall k :: 0 <= k < i ==> !turns[k].destroyed
    }

    lemma Advance(turns: seq<Turn>, i: nat, p: Phase)
      requires Taken(turns, i) && At(p) && i < |turns| && !turns[i].destroyed
      ensures Expected(hasMetadata, hasException, turns[..i + 1]) ==
              trace + TurnEvents(hasMetadata, hasException, p, turns[i])
    {
      hide PhaseOf, TurnEvents, Expected;
      ExpectedNext(hasMetadata, hasException, turns, i, p);
    }

    /** The record loop, from turn `from` on. True when the thread goes on to the
        head of the outer loop. Otherwise it has ended with a notification, or
        the owner asked it to end, or the turns are used up. */
    method RecordLoop(turns: seq<Turn>, from: nat) returns (again: bool, i: nat, ghost p: Phase)
      requires At(Running) && Taken(turns, from)
      modifies this
      ensures from <= i <= |turns| && At(p) && trace == Expected(hasMetadata, hasException, turns[..i])
      ensures p == Ended(true) || p == Idle || p == Running
      ensures again <==> p == Idle
      ensures p == Running ==> i == |turns| || turns[i].destroyed
      ensures p == Idle ==> i > from && Taken(turns, i)
      ensures forall k :: 0 <= k < i ==> !turns[k].destroyed
    {
      hide PhaseOf, TurnEvents, Expected;
      i := from;
      p := Running;
      while i < |turns|
        invariant from <= i <= |turns| && At(Running) && Taken(turns, i)
      {
        var turn := turns[i];
        keepGoing := keepGoing && !turn.destroyed;
        if !keepGoing {
          return false, i, Running;
        }
        Advance(turns, i, Running);
        var done;
        p, again, done := RecordTurn(turn);
        i := i + 1;
        if again || done {
          return again, i, p;
        }
      }
      return false, i, Running;
    }

    /** Any run, as far as the turns go: it makes the trace that the turns taken
        amount to, and that trace is allowed. The thread goes on for as long as
        there are turns and the owner does not ask it to end, unless it ends by
        itself: notified, or unnotified after a session failed to start. */
    method Run(turns: seq<Turn>) returns (used: nat, ghost p: Phase)
      requires trace == [] && !lastCallbackStopped && keepGoing
      modifies this
      ensures used <= |turns| && trace == Expected(hasMetadata, hasException, turns[..used])
      ensures At(p) && (p.Idle? || p.Running? || p.Ended?)
      ensures forall k :: 0 <= k < used ==> !turns[k].destroyed
      ensures p.Ended? || used == |turns| || turns[used].destroyed
    {
      hide TurnEvents, PhaseOf, Expected;
      used := 0;
      p := Idle;
      NoTurns(hasMetadata, hasException);
      assert turns[..0] == [];
      while used < |turns|
        invariant At(Idle) && p == Idle && Taken(turns, used)
        decreases |turns| - used
      {
        var turn := turns[used];
        keepGoing := keepGoing && !turn.destroyed;
        if !keepGoing {
          return used, Idle;
        }
        Advance(turns, used, Idle);
        var running, done;
        p, running, done := StartTurn(turn);
        used := used + 1;
        if done {
          return used, p;
        }
        if running {
          var again;
          again, used, p := RecordLoop(turns, used);
          if !again {
            return used, p;
          }
        }
      }
      return used, Idle;
    }

    /** One turn of the outer loop up to the record loop. */
    method StartTurn(turn: Turn) returns (ghost p: Phase, running: bool, done: bool)
      requires At(Idle)
      modifies this`trace
      ensures trace == old(trace) + TurnEvents(hasMetadata, hasException, Idle, turn)
      ensures At(p) && p == (if running then Running else if done then Ended(false) else Idle)
      ensures !(running && done)
    {
      hide PhaseOf, StartEvents, HandlerEvents, Opens;
      var ok := StartSession(turn.start);
      if ok {
        return Running, true, false;
      }
      var action := ExceptionHandler(turn.onException, false);
      return if action == Restart then Idle else Ended(false), false, action == StopThread;
    }
  }

  lemma NoTurns(hasMetadata: bool, hasException: bool)
    ensures Expected(hasMetadata, hasException, []) == [] && PhaseOf(hasMetadata, hasException, []) == Some(Idle)
  {
  }

  // ----- what an allowed trace means -----

  predicate InSession(e: Event) {
    e == MetadataCallback(true) || e == RecordCallback(GoOn) || e == TimedOut
  }

  lemma {:induction false} PrefixAllowed(hasMetadata: bool, hasException: bool, trace: seq<Event>, k: nat)
    requires PhaseOf(hasMetadata, hasException, trace).Some? && k <= |trace|
    ensures PhaseOf(hasMetadata, hasException, trace[..k]).Some?
    decreases |trace|
  {
    hide Step;
    if k < |trace| {
      var front := trace[..|trace| - 1];
      assert front[..k] == trace[..k];
      PrefixAllowed(hasMetadata, hasException, front, k);
    } else {
      assert trace[..k] == trace;
    }
  }

  /** A running or opened session was started, and only its own events followed. */
  lemma {:induction false} SessionStart(hasMetadata: bool, hasException: bool, trace: seq<Event>) returns (j: nat)
    requires PhaseOf(hasMetadata, hasException, trace) == Some(Running)
              || PhaseOf(hasMetadata, hasException, trace) == Some(Opened)
    ensures j < |trace| && trace[j] == Started
    ensures forall i :: j < i < |trace| ==> InSession(trace[i])
    decreases |trace|
  {
    var n := |trace| - 1;
    var front, last := trace[..n], trace[n];
    if last == Started {
      j := n;
    } else {
      assert trace == front + [last];
      j := SessionStart(hasMetadata, hasException, front);
    }
  }

  /** A record callback happens only in a session that was started successfully
      and in which nothing has failed or stopped since. */
  lemma RecordsOnlyInSession(hasMetadata: bool, hasException: bool, trace: seq<Event>, k: nat) returns (j: nat)
    requires PhaseOf(hasMetadata, hasException, trace).Some?
    requires k < |trace| && trace[k].RecordCallback?
    ensures j < k && trace[j] == Started && forall i :: j < i < k ==> InSession(trace[i])
    ensures hasMetadata ==> exists i :: j < i < k && trace[i] == MetadataCallback(true)
  {
    hide PhaseOf, Step;
    StepAt(hasMetadata, hasException, trace, k);
    OnlyRunningRecords(hasMetadata, hasException, PhaseOf(hasMetadata, hasException, trace[..k]).value, trace[k]);
    j := SessionStart(hasMetadata, hasException, trace[..k]);
    if hasMetadata {
      MetadataSeen(hasException, trace[..k], j);
    }
  }

  lemma OnlyRunningRecords(hasMetadata: bool, hasException: bool, p: Phase, e: Event)
    requires e.RecordCallback? && Step(hasMetadata, hasException, p, e).Some?
    ensures p == Running
  {
  }

  lemma {:induction false} MetadataSeen(hasException: bool, trace: seq<Event>, j: nat)
    requires PhaseOf(true, hasException, trace) == Some(Running)
    requires j < |trace| && trace[j] == Started && forall i :: j < i < |trace| ==> InSession(trace[i])
    ensures exists i :: j < i < |trace| && trace[i] == MetadataCallback(true)
    decreases |trace|
  {
    var n := |trace| - 1;
    var front := trace[..n];
    assert trace == front + [trace[n]];
    if trace[n] != MetadataCallback(true) {
      assert PhaseOf(true, hasException, front) == Some(Running);
      MetadataSeen(hasException, front, j);
      var i :| j < i < |front| && front[i] == MetadataCallback(true);
      assert trace[i] == MetadataCallback(true);
    }
  }

  lemma StepAt(hasMetadata: bool, hasException: bool, trace: seq<Event>, k: nat)
    requires PhaseOf(hasMetadata, hasException, trace).Some? && k < |trace|
    ensures var before := PhaseOf(hasMetadata, hasException, trace[..k]);
            var after := PhaseOf(hasMetadata, hasException, trace[..k + 1]);
            before.Some? && after.Some? && after == Step(hasMetadata, hasException, before.value, trace[k])
  {
    hide Step;
    PrefixAllowed(hasMetadata, hasException, trace, k);
    PrefixAllowed(hasMetadata, hasException, trace, k + 1);
    assert trace[..k + 1] == trace[..k] + [trace[k]];
    PhaseSnoc(hasMetadata, hasException, trace[..k], trace[k]);
  }

  /** After a record or exception callback has asked to stop there is no further
      callback: the session is stopped and the waiters are told, in this order,
      and that is all. */
  lemma NoCallbackAfterStop(hasMetadata: bool, hasException: bool, trace: seq<Event>, k: nat)
    requires PhaseOf(hasMetadata, hasException, trace).Some?
    requires k < |trace| && (trace[k] == RecordCallback(StopNow) || trace[k] == ExceptionCallback(StopThread))
    ensures trace[k + 1..] <= [SessionStopped, Notified]
    ensures forall i :: k < i < |trace| ==> !IsCallback(trace[i])
  {
    hide PhaseOf;
    StepAt(hasMetadata, hasException, trace, k);
    AfterStopping(hasMetadata, hasException, trace, k + 1);
    forall i | k < i < |trace|
      ensures !IsCallback(trace[i])
    {
      assert trace[i] == trace[k + 1..][i - k - 1];
      assert trace[i] == [SessionStopped, Notified][i - k - 1];
    }
  }

  lemma AfterStopping(hasMetadata: bool, hasException: bool, trace: seq<Event>, k: nat)
    requires PhaseOf(hasMetadata, hasException, trace).Some? && k <= |trace|
    requires var p := PhaseOf(hasMetadata, hasException, trace[..k]);
             p == Some(Stopping) || (p.Some? && p.value.Refused?)
    ensures trace[k..] <= [SessionStopped, Notified]
  {
    hide PhaseOf;
    if k < |trace| {
      StepAt(hasMetadata, hasException, trace, k);
    }
    if k + 1 < |trace| {
      StepAt(hasMetadata, hasException, trace, k + 1);
    }
    if k + 2 < |trace| {
      StepAt(hasMetadata, hasException, trace, k + 2);
    }
  }
}
