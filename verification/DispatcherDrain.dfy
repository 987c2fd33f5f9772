/** What an accepted Stop brings about. */
module DispatcherDrain {
  import opened Dispatcher

  /** No Start call is between its acceptance and the making of its context. */
  ghost predicate NonePending(s: Node) {
    forall i :: 0 <= i < |s.starts| ==> s.starts[i].pc != Accepted
  }

  /** No Start call is admitted. */
  ghost predicate NoEntries(events: seq<Event>) {
    forall k :: 0 <= k < |events| ==> !events[k].Enter?
  }

  /** Reports a loop will still send after its context was cancelled. */
  function Owed(l: Loop): nat {
    if l.pc == Sending then 1 else 0
  }

  /** Since `s0`, the current context has stayed cancelled, and no loop has sent
      more than it already owed then; loops started since have sent nothing. */
  ghost predicate Draining(s0: Node, s: Node) {
    && Cancelled(s.core) && s.core.status == Stopped && NonePending(s)
    && |s0.loops| <= |s.loops|
    && (forall j :: 0 <= j < |s.loops| ==>
          s.loops[j].sent + Owed(s.loops[j]) <= if j < |s0.loops| then s0.loops[j].sent + Owed(s0.loops[j]) else 0)
  }

  lemma DrainByNext(s0: Node, s: Node, e: Event, targets: nat)
    requires Draining(s0, s) && !e.Enter?
    ensures Draining(s0, Next(s, e, targets))
  {}

  lemma {:induction false} DrainRun(s0: Node, targets: nat, events: seq<Event>)
    requires Cancelled(s0.core) && s0.core.status == Stopped && NonePending(s0)
    requires NoEntries(events)
    ensures Draining(s0, ExecFrom(s0, targets, events))
  {
    hide Next;
    if events == [] {
    } else {
      var front := events[..|events| - 1];
      assert forall k :: 0 <= k < |front| ==> front[k] == events[k];
      DrainRun(s0, targets, front);
      DrainByNext(s0, ExecFrom(s0, targets, front), events[|events| - 1], targets);
    }
  }

  /** Each loop, old or new, sends at most one more report from `s0` to `s`. */
  ghost predicate AtMostOneMore(s0: Node, s: Node) {
    forall j :: 0 <= j < |s.loops| ==> s.loops[j].sent <= (if j < |s0.loops| then s0.loops[j].sent else 0) + 1
  }

  /** After an accepted Stop and as long as no Start is admitted, every loop sends
      at most one more report in every continuation, exactly when no Start was
      caught between its acceptance and the making of its context. */
  lemma StopSilencesExactly(targets: nat, before: seq<Event>)
    requires CoreStop(Exec(targets, before).core).0 == StopAccepted && targets > 0
    ensures var s0 := Next(Exec(targets, before), CallStop, targets);
            NonePending(s0) <==>
            forall after :: NoEntries(after) ==> AtMostOneMore(s0, ExecFrom(s0, targets, after))
  {
    var s0 := Next(Exec(targets, before), CallStop, targets);
    ReachableContexts(targets, before);
    if NonePending(s0) {
      forall after | NoEntries(after) ensures AtMostOneMore(s0, ExecFrom(s0, targets, after)) {
        DrainRun(s0, targets, after);
      }
    } else {
      var i :| 0 <= i < |s0.starts| && s0.starts[i].pc == Accepted;
      var after := Escapes(s0, targets, i);
    }
  }

  /** Both sides of this occur: on a second Start, a Stop can be accepted while
      that Start is between its acceptance and the making of its context. */
  lemma StopCanComeTooEarly(targets: nat) returns (before: seq<Event>)
    ensures before == [CallStart, Enter(0), Renew(0), CallStop, CallStart, Enter(1)]
    ensures CoreStop(Exec(targets, before).core).0 == StopAccepted
    ensures !NonePending(Next(Exec(targets, before), CallStop, targets))
  {
    var s := Initial();
    before := [];
    assert Exec(targets, before) == s;
    hide Exec;
    before, s := Takes(targets, before, s, CallStart);
    before, s := Takes(targets, before, s, Enter(0));
    before, s := Takes(targets, before, s, Renew(0));
    before, s := Takes(targets, before, s, CallStop);
    before, s := Takes(targets, before, s, CallStart);
    before, s := Takes(targets, before, s, Enter(1));
    assert Next(s, CallStop, targets).starts[1].pc == Accepted;
  }

  lemma SecondTargetFails(targets: nat) returns (events: seq<Event>, s: Node)
    requires targets >= 2
    ensures Exec(targets, events) == s && s.core.status == Stopped && !Cancelled(s.core)
    ensures |s.starts| == 1 && s.starts[0].pc == Done(LaunchFailed)
    ensures s.loops == [Loop(0, Looking, 0)]
  {
    s := Initial();
    events := [];
    assert Exec(targets, events) == s;
    hide Exec;
    events, s := Takes(targets, events, s, CallStart);
    events, s := Takes(targets, events, s, Enter(0));
    events, s := Takes(targets, events, s, Renew(0));
    events, s := Takes(targets, events, s, Launch(0));
    events, s := Takes(targets, events, s, LaunchFails(0));
    events, s := Takes(targets, events, s, Return(0));
  }

  /** A Start call never has more loops than targets, and fewer if it failed. */
  predicate LaunchBound(c: StartCall, targets: nat) {
    match c.pc
    case Called => c.wg <= 0
    case Accepted => c.wg <= 0
    case Launching(left) => left + c.wg <= targets
    case Waiting => true
    case Returning(outcome) => outcome == LaunchFailed ==> c.wg < targets
    case Done(outcome) => outcome == LaunchFailed ==> c.wg < targets
  }

  ghost predicate LaunchesBounded(s: Node, targets: nat) {
    forall i :: 0 <= i < |s.starts| ==> LaunchBound(s.starts[i], targets)
  }

  lemma LaunchesByNext(s: Node, e: Event, targets: nat)
    requires LaunchesBounded(s, targets)
    ensures LaunchesBounded(Next(s, e, targets), targets)
  {}

  lemma {:induction false} ReachableLaunches(targets: nat, events: seq<Event>)
    ensures LaunchesBounded(Exec(targets, events), targets)
  {
    if events == [] {
    } else {
      hide LaunchesBounded, Next;
      ReachableLaunches(targets, events[..|events| - 1]);
      LaunchesByNext(Exec(targets, events[..|events| - 1]), events[|events| - 1], targets);
    }
  }

  /** Start call `i` has returned and left loops running. */
  ghost predicate Leaks(s: Node, i: nat) {
    i < |s.starts| && s.starts[i].pc.Done? && Live(s.loops, i) > 0
  }

  /** A Start that leaves loops running has failed on a target, and it leaves fewer
      loops than there are targets. */
  lemma LeakBounded(targets: nat, events: seq<Event>, i: nat)
    requires Leaks(Exec(targets, events), i)
    ensures var s := Exec(targets, events);
            s.starts[i].pc == Done(LaunchFailed) && Live(s.loops, i) <= targets - 1
  {
    hide Exec;
    ReachableLaunches(targets, events);
    ReachableWaits(targets, events);
    OnlyFailedStartsLeak(targets, events);
    assert LaunchBound(Exec(targets, events).starts[i], targets);
  }

  /** A Start can return and leave loops running exactly when it has two targets or more. */
  lemma LeaksExactly(targets: nat)
    ensures (exists events, i :: Leaks(Exec(targets, events), i)) <==> targets >= 2
  {
    if targets >= 2 {
      var events, s := SecondTargetFails(targets);
      LiveIsCounted(s.loops, 0);
      assert Leaks(Exec(targets, events), 0);
    } else {
      forall events, i: nat | Leaks(Exec(targets, events), i) ensures false {
        LeakBounded(targets, events, i);
      }
    }
  }

  /** A Start whose second target fails returns, and the loop of its first target
      goes on: for every `n` there is a run without another Start in which that
      loop has sent `n` reports while every Stop is refused. */
  lemma {:induction false} LeakedLoopKeepsReporting(targets: nat, n: nat) returns (events: seq<Event>, s: Node)
    requires targets >= 2
    ensures Exec(targets, events) == s && |s.starts| == 1 && s.starts[0].pc == Done(LaunchFailed)
    ensures s.loops == [Loop(0, Looking, n)] && !Cancelled(s.core)
    ensures CoreStop(s.core).0 == StopRejected
  {
    hide Exec;
    if n == 0 {
      events, s := SecondTargetFails(targets);
    } else {
      events, s := LeakedLoopKeepsReporting(targets, n - 1);
      events, s := Takes(targets, events, s, Look(0));
      events, s := Takes(targets, events, s, Send(0));
      events, s := Takes(targets, events, s, Wake(0));
    }
  }

  lemma Step(s0: Node, targets: nat, events: seq<Event>, s: Node, e: Event) returns (events': seq<Event>, s': Node)
    requires ExecFrom(s0, targets, events) == s && NoEntries(events) && !e.Enter?
    ensures s' == Next(s, e, targets) && ExecFrom(s0, targets, events') == s' && NoEntries(events')
  {
    events', s' := events + [e], Next(s, e, targets);
    assert events'[..|events|] == events;
  }

  /** A Start that was accepted but had no context yet then makes a new one, and
      the loops it launches are not stopped. */
  lemma Escapes(s0: Node, targets: nat, i: nat) returns (after: seq<Event>)
    requires i < |s0.starts| && s0.starts[i].pc == Accepted && targets > 0
    requires ContextsNumbered(s0.core)
    ensures NoEntries(after) && !AtMostOneMore(s0, ExecFrom(s0, targets, after))
  {
    hide ExecFrom, NoEntries;
    var j := |s0.loops|;
    var s := s0;
    after := Nothing(s0, targets);
    after, s := Step(s0, targets, after, s, Renew(i));
    after, s := Step(s0, targets, after, s, Launch(i));
    after, s := Step(s0, targets, after, s, Look(j));
    after, s := Step(s0, targets, after, s, Send(j));
    after, s := Step(s0, targets, after, s, Wake(j));
    after, s := Step(s0, targets, after, s, Look(j));
    after, s := Step(s0, targets, after, s, Send(j));
    assert s.loops[j].sent == 2;
  }

  lemma Nothing(s0: Node, targets: nat) returns (after: seq<Event>)
    ensures ExecFrom(s0, targets, after) == s0 && NoEntries(after)
  {
    after := [];
  }

  // ---- Start returns ----

  function LoopWork(l: Loop): nat {
    match l.pc
    case Sending => 3
    case Sleeping => 2
    case Looking => 1
    case Gone => 0
  }

  function StartWork(c: StartCall): nat {
    match c.pc
    case Called => 0
    case Accepted => 0
    case Launching(left) => 3 + 2 * left
    case Waiting => 2
    case Returning(_) => 1
    case Done(_) => 0
  }

  function LoopsWork(loops: seq<Loop>): nat {
    if loops == [] then 0 else LoopsWork(loops[..|loops| - 1]) + LoopWork(loops[|loops| - 1])
  }

  function StartsWork(starts: seq<StartCall>): nat {
    if starts == [] then 0 else StartsWork(starts[..|starts| - 1]) + StartWork(starts[|starts| - 1])
  }

  /** An upper bound on the steps still to be taken. */
  function Work(s: Node): nat {
    LoopsWork(s.loops) + StartsWork(s.starts)
  }

  lemma {:induction false} LoopsWorkUpdate(loops: seq<Loop>, j: nat, l: Loop)
    requires j < |loops|
    ensures LoopsWork(loops[j := l]) == LoopsWork(loops) - LoopWork(loops[j]) + LoopWork(l)
    ensures LoopsWork(loops) >= LoopWork(loops[j])
  {
    var front := loops[..|loops| - 1];
    if j == |loops| - 1 {
      assert loops[j := l][..|loops| - 1] == front;
    } else {
      LoopsWorkUpdate(front, j, l);
      assert loops[j := l][..|loops| - 1] == front[j := l];
    }
  }

  lemma {:induction false} StartsWorkUpdate(starts: seq<StartCall>, i: nat, c: StartCall)
    requires i < |starts|
    ensures StartsWork(starts[i := c]) == StartsWork(starts) - StartWork(starts[i]) + StartWork(c)
    ensures StartsWork(starts) >= StartWork(starts[i])
  {
    var front := starts[..|starts| - 1];
    if i == |starts| - 1 {
      assert starts[i := c][..|starts| - 1] == front;
    } else {
      StartsWorkUpdate(front, i, c);
      assert starts[i := c][..|starts| - 1] == front[i := c];
    }
  }

  /** The steps of accepted Start calls and of loops, as opposed to new calls. */
  predicate Internal(e: Event) {
    !e.CallStart? && !e.Enter? && !e.CallStop? && !e.Renew?
  }

  /** Once the context is cancelled, every internal step that happens leaves less work. */
  lemma InternalStepLowers(s: Node, e: Event, targets: nat)
    requires Cancelled(s.core) && Internal(e) && Possible(s, e)
    ensures Work(Next(s, e, targets)) < Work(s)
  {
    var s' := Next(s, e, targets);
    match e {
      case Launch(i) =>
        StartsWorkUpdate(s.starts, i, s'.starts[i]);
        assert (s.loops + [Loop(i, Looking, 0)])[..|s.loops|] == s.loops;
        assert s'.starts == s.starts[i := s'.starts[i]];
      case LaunchFails(i) => StartsWorkUpdate(s.starts, i, s'.starts[i]);
      case Launched(i) => StartsWorkUpdate(s.starts, i, s'.starts[i]);
      case Join(i) => StartsWorkUpdate(s.starts, i, s'.starts[i]);
      case Return(i) => StartsWorkUpdate(s.starts, i, s'.starts[i]);
      case Look(j) =>
        LoopsWorkUpdate(s.loops, j, s'.loops[j]);
        var i := s.loops[j].owner;
        StartsWorkUpdate(s.starts, i, s'.starts[i]);
      case Send(j) => LoopsWorkUpdate(s.loops, j, s'.loops[j]);
      case Wake(j) => LoopsWorkUpdate(s.loops, j, s'.loops[j]);
    }
  }

  /** Nothing is left to do: every loop has returned and no accepted Start has yet to return. */
  ghost predicate Drained(s: Node) {
    && (forall j :: 0 <= j < |s.loops| ==> s.loops[j].pc == Gone)
    && (forall i :: 0 <= i < |s.starts| ==> s.starts[i].pc.Done? || s.starts[i].pc == Called)
    && (forall i :: 0 <= i < |s.starts| ==> s.starts[i].wg == 0)
  }

  /** While not everything is drained, some internal step can happen: in
      particular a wait group at zero is never missed. */
  lemma SomeStepPossible(s: Node) returns (e: Event)
    requires WaitsCount(s) && NonePending(s) && !Drained(s)
    ensures Internal(e) && Possible(s, e)
  {
    if j :| 0 <= j < |s.loops| && s.loops[j].pc != Gone {
      var pc := s.loops[j].pc;
      e := if pc == Looking then Look(j) else if pc == Sending then Send(j) else Wake(j);
    } else {
      AllGone(s.loops);
      var i :| 0 <= i < |s.starts| && !s.starts[i].pc.Done? && s.starts[i].pc != Called;
      var pc := s.starts[i].pc;
      e := if pc == Launching(0) then Launched(i)
           else if pc.Launching? then LaunchFails(i)
           else if pc == Waiting then Join(i)
           else Return(i);
    }
  }

  lemma {:induction false} AllGone(loops: seq<Loop>)
    requires forall j :: 0 <= j < |loops| ==> loops[j].pc == Gone
    ensures forall i: nat :: Live(loops, i) == 0
  {
    if loops == [] {
    } else {
      AllGone(loops[..|loops| - 1]);
    }
  }

  /** Only internal steps, each of which happens. */
  ghost predicate InternalRun(s: Node, targets: nat, events: seq<Event>) {
    if events == [] then true
    else
      var front := events[..|events| - 1];
      && InternalRun(s, targets, front)
      && Internal(events[|events| - 1])
      && Possible(ExecFrom(s, targets, front), events[|events| - 1])
  }

  lemma {:induction false} InternalRunBounded(s0: Node, targets: nat, events: seq<Event>)
    requires Cancelled(s0.core) && s0.core.status == Stopped && NonePending(s0)
    requires InternalRun(s0, targets, events)
    ensures NoEntries(events)
    ensures |events| + Work(ExecFrom(s0, targets, events)) <= Work(s0)
  {
    hide Next, Work, Possible;
    if events == [] {
    } else {
      var front := events[..|events| - 1];
      InternalRunBounded(s0, targets, front);
      DrainRun(s0, targets, front);
      assert events == front + [events[|events| - 1]];
      InternalStepLowers(ExecFrom(s0, targets, front), events[|events| - 1], targets);
    }
  }

  /** After an accepted Stop that caught no Start between acceptance and context,
      running the loops and the accepted Starts comes to an end within a bounded
      number of steps, whatever their order; it can end only with every loop
      returned, every wait group at zero and every accepted Start returned, and
      the status is Stopped throughout. */
  lemma StopDrains(targets: nat, before: seq<Event>, after: seq<Event>)
    requires CoreStop(Exec(targets, before).core).0 == StopAccepted
    requires NonePending(Exec(targets, before))
    requires InternalRun(Next(Exec(targets, before), CallStop, targets), targets, after)
    ensures var s0 := Next(Exec(targets, before), CallStop, targets);
            var s := ExecFrom(s0, targets, after);
            && |after| <= Work(s0)
            && s.core.status == Stopped
            && (Drained(s) || exists e :: Internal(e) && Possible(s, e))
  {
    var s0 := Next(Exec(targets, before), CallStop, targets);
    var s := ExecFrom(s0, targets, after);
    InternalRunBounded(s0, targets, after);
    DrainRun(s0, targets, after);
    ReachableWaits(targets, before);
    WaitsByNext(Exec(targets, before), CallStop, targets);
    WaitsRun(s0, targets, after);
    if !Drained(s) {
      var e := SomeStepPossible(s);
    }
  }

  lemma {:induction false} WaitsRun(s: Node, targets: nat, events: seq<Event>)
    requires WaitsCount(s)
    ensures WaitsCount(ExecFrom(s, targets, events))
  {
    hide WaitsCount, Next;
    if events == [] {
    } else {
      WaitsRun(s, targets, events[..|events| - 1]);
      WaitsByNext(ExecFrom(s, targets, events[..|events| - 1]), events[|events| - 1], targets);
    }
  }
}
