/** The report loops of a Start call: one for each target, and what each does. */
module DispatcherLoops {
  import opened Dispatcher

  /** How many loops Start call `i` has begun, gone or not. */
  function Begun(loops: seq<Loop>, i: nat): nat {
    if loops == [] then 0
    else Begun(loops[..|loops| - 1], i) + if loops[|loops| - 1].owner == i then 1 else 0
  }

  lemma {:induction false} BegunUpdate(loops: seq<Loop>, j: nat, l: Loop, i: nat)
    requires j < |loops| && l.owner == loops[j].owner
    ensures Begun(loops[j := l], i) == Begun(loops, i)
  {
    var front := loops[..|loops| - 1];
    if j == |loops| - 1 {
      assert loops[j := l][..|loops| - 1] == front;
    } else {
      BegunUpdate(front, j, l, i);
      assert loops[j := l][..|loops| - 1] == front[j := l];
    }
  }

  lemma BegunAppend(loops: seq<Loop>, l: Loop, i: nat)
    ensures Begun(loops + [l], i) == Begun(loops, i) + if l.owner == i then 1 else 0
  {
    assert (loops + [l])[..|loops|] == loops;
  }

  lemma {:induction false} BegunBeyond(loops: seq<Loop>, i: nat)
    requires forall j :: 0 <= j < |loops| ==> loops[j].owner < i
    ensures Begun(loops, i) == 0
  {
    if loops == [] {
    } else {
      BegunBeyond(loops[..|loops| - 1], i);
    }
  }

  /** The number of loops a Start call has begun at each of its stages. */
  predicate BegunFits(pc: StartPc, n: nat, targets: nat) {
    match pc
    case Called => n == 0
    case Accepted => n == 0
    case Launching(left) => n + left == targets
    case Waiting => n == targets
    case Returning(outcome) => OutcomeFits(outcome, n, targets)
    case Done(outcome) => OutcomeFits(outcome, n, targets)
  }

  predicate OutcomeFits(outcome: StartOutcome, n: nat, targets: nat) {
    match outcome
    case Refused => n == 0
    case Completed => n == targets
    case LaunchFailed => n < targets
  }

  ghost predicate LoopPerTarget(s: Node, targets: nat) {
    && (forall j :: 0 <= j < |s.loops| ==> s.loops[j].owner < |s.starts|)
    && (forall i: nat :: i < |s.starts| ==> BegunFits(s.starts[i].pc, Begun(s.loops, i), targets))
  }

  lemma LoopPerTargetByNext(s: Node, e: Event, targets: nat)
    requires LoopPerTarget(s, targets)
    ensures LoopPerTarget(Next(s, e, targets), targets)
  {
    hide Begun;
    if Possible(s, e) {
      var s' := Next(s, e, targets);
      match e {
        case CallStart => BegunBeyond(s.loops, |s.starts|);
        case Launch(i) =>
          forall k: nat ensures Begun(s'.loops, k) == Begun(s.loops, k) + if k == i then 1 else 0 {
            BegunAppend(s.loops, Loop(i, Looking, 0), k);
          }
        case Look(j) => LoopStepBegins(s, e, j, targets);
        case Send(j) => LoopStepBegins(s, e, j, targets);
        case Wake(j) => LoopStepBegins(s, e, j, targets);
        case _ =>
      }
    }
  }

  /** A step of a loop begins no loop. */
  lemma LoopStepBegins(s: Node, e: Event, j: nat, targets: nat)
    requires Possible(s, e) && (e == Look(j) || e == Send(j) || e == Wake(j))
    ensures forall k: nat :: Begun(Next(s, e, targets).loops, k) == Begun(s.loops, k)
  {
    var l := Next(s, e, targets).loops[j];
    forall k: nat ensures Begun(s.loops[j := l], k) == Begun(s.loops, k) {
      BegunUpdate(s.loops, j, l, k);
    }
  }

  /** In every interleaving a Start call begins one loop for each target: it has
      begun all but those left while it launches, exactly as many as there are
      targets when it waits or has completed, fewer when a target failed, and
      none when it was refused or has not come so far. */
  lemma {:induction false} OneLoopPerTarget(targets: nat, events: seq<Event>)
    ensures LoopPerTarget(Exec(targets, events), targets)
  {
    hide LoopPerTarget, Next;
    if events == [] {
      NoLoops(targets);
    } else {
      OneLoopPerTarget(targets, events[..|events| - 1]);
      LoopPerTargetByNext(Exec(targets, events[..|events| - 1]), events[|events| - 1], targets);
    }
  }

  lemma NoLoops(targets: nat)
    ensures LoopPerTarget(Initial(), targets)
  {}

  /** Nothing keeps a Start call from beginning the loops it has left, not even a
      Stop meanwhile: every run in which it launches can go on to one in which it
      waits with a loop for each target. */
  lemma {:induction false} LaunchesCanComplete(targets: nat, events: seq<Event>, i: nat) returns (events': seq<Event>)
    requires i < |Exec(targets, events).starts| && Exec(targets, events).starts[i].pc.Launching?
    ensures events <= events'
    ensures var s := Exec(targets, events');
            i < |s.starts| && s.starts[i].pc == Waiting && Begun(s.loops, i) == targets
    decreases Exec(targets, events).starts[i].pc.left
  {
    hide Exec, Begun;
    var s := Exec(targets, events);
    if s.starts[i].pc.left == 0 {
      events', s := Takes(targets, events, s, Launched(i));
      OneLoopPerTarget(targets, events');
    } else {
      events', s := Takes(targets, events, s, Launch(i));
      events' := LaunchesCanComplete(targets, events', i);
    }
  }

  // ---- what a loop does ----

  /** How often the event `e` has happened in a run. */
  function Happened(targets: nat, events: seq<Event>, e: Event): nat {
    if events == [] then 0
    else
      var front := events[..|events| - 1];
      Happened(targets, front, e) + if events[|events| - 1] == e && Possible(Exec(targets, front), e) then 1 else 0
  }

  /** The looks, reports and sleeps that bring a loop where it is; a loop not begun has made none. */
  predicate CycleFits(s: Node, j: nat, looks: nat, sends: nat, wakes: nat) {
    if j < |s.loops| then
      var l := s.loops[j];
      && sends == l.sent
      && looks == l.sent + (if l.pc == Sending || l.pc == Gone then 1 else 0)
      && wakes == l.sent - (if l.pc == Sleeping then 1 else 0)
    else looks == 0 && sends == 0 && wakes == 0
  }

  lemma CycleByNext(s: Node, e: Event, targets: nat, j: nat, looks: nat, sends: nat, wakes: nat)
    requires CycleFits(s, j, looks, sends, wakes)
    ensures CycleFits(Next(s, e, targets), j,
                      looks + if e == Look(j) && Possible(s, e) then 1 else 0,
                      sends + if e == Send(j) && Possible(s, e) then 1 else 0,
                      wakes + if e == Wake(j) && Possible(s, e) then 1 else 0)
  {}

  /** In every interleaving a loop has looked at the context before each of its
      reports, and slept after each of them before it looked again. */
  lemma {:induction false} LooksSendsSleeps(targets: nat, events: seq<Event>, j: nat)
    ensures CycleFits(Exec(targets, events), j, Happened(targets, events, Look(j)),
                      Happened(targets, events, Send(j)), Happened(targets, events, Wake(j)))
  {
    if events == [] {
    } else {
      hide Next, Possible, CycleFits;
      var front := events[..|events| - 1];
      LooksSendsSleeps(targets, front, j);
      CycleByNext(Exec(targets, front), events[|events| - 1], targets, j, Happened(targets, front, Look(j)),
                  Happened(targets, front, Send(j)), Happened(targets, front, Wake(j)));
    }
  }
}
