/** The node's dispatcher: the fields that Start and Stop change under the lock,
    and every interleaving of Start calls, Stop calls and report loops over them. */
module Dispatcher {
  import opened Words

  datatype Status = Running | Stopped

  /** `ctx` names the current general context (none before the first Start has
      made one), `made` counts the contexts made, `cancelled` holds those cancelled. */
  datatype Core = Core(status: Status, ctx: Option<nat>, made: nat, cancelled: set<nat>)

  datatype StopOutcome = StopRejected | StopAccepted | StopPanicked

  function CoreInitial(): Core {
    Core(Stopped, None, 0, {})
  }

  predicate Cancelled(c: Core) {
    c.ctx.Some? && c.ctx.value in c.cancelled
  }

  function CoreAccept(c: Core): Core {
    c.(status := Running)
  }

  function CoreRenew(c: Core): Core {
    c.(ctx := Some(c.made), made := c.made + 1)
  }

  function CoreFinish(c: Core): Core {
    c.(status := Stopped)
  }

  /** Stop while running cancels the current context. Before any context exists
      the cancel function is nil and calling it panics, with the lock released
      and nothing changed. */
  function CoreStop(c: Core): (StopOutcome, Core) {
    if c.status == Stopped then (StopRejected, c)
    else if c.ctx.None? then (StopPanicked, c)
    else (StopAccepted, c.(cancelled := c.cancelled + {c.ctx.value}, status := Stopped))
  }

  /** Contexts are numbered in the order they are made. */
  ghost predicate ContextsNumbered(c: Core) {
    && (c.ctx.Some? ==> c.ctx.value < c.made)
    && (forall n :: n in c.cancelled ==> n < c.made)
  }

  class DispatcherObject {
    var status: Status
    var generalCtx: Option<nat>
    var made: nat
    var cancelled: set<nat>

    function Fields(): Core
      reads this
    {
      Core(status, generalCtx, made, cancelled)
    }

    constructor ()
      ensures Fields() == CoreInitial()
    {
      status, generalCtx, made, cancelled := Stopped, None, 0, {};
    }

    /** The locked section at the beginning of Start. */
    method TryStart() returns (accepted: bool)
      modifies this`status
      ensures accepted <==> old(status) == Stopped
      ensures Fields() == if accepted then CoreAccept(old(Fields())) else old(Fields())
    {
      accepted := status != Running;
      if accepted {
        status := Running;
      }
    }

    /** Start makes a new context, outside the lock: one that was never current
        and is not cancelled, whatever the state of those before it. */
    method RenewContext()
      requires ContextsNumbered(Fields())
      modifies this`generalCtx, this`made
      ensures ContextsNumbered(Fields()) && !Cancelled(Fields()) && generalCtx != old(generalCtx)
      ensures Fields() == CoreRenew(old(Fields()))
    {
      generalCtx := Some(made);
      made := made + 1;
    }

    /** The deferred section that runs when Start returns. */
    method FinishStart()
      modifies this`status
      ensures Fields() == CoreFinish(old(Fields()))
    {
      status := Stopped;
    }

    method Stop() returns (outcome: StopOutcome)
      modifies this`status, this`cancelled
      ensures (outcome, Fields()) == CoreStop(old(Fields()))
      ensures outcome == StopAccepted ==> Cancelled(Fields()) && status == Stopped
    {
      if status == Stopped {
        return StopRejected;
      }
      if generalCtx.None? {
        return StopPanicked;
      }
      cancelled := cancelled + {generalCtx.value};
      status := Stopped;
      outcome := StopAccepted;
    }
  }

  // ---- interleavings ----

  datatype StartOutcome = Refused | Completed | LaunchFailed

  datatype StartPc =
    | Called
    | Accepted
    | Launching(left: nat)
    | Waiting
    | Returning(outcome: StartOutcome)
    | Done(outcome: StartOutcome)

  /** A Start call, with its wait group. */
  datatype StartCall = StartCall(pc: StartPc, wg: int)

  datatype LoopPc = Looking | Sending | Sleeping | Gone

  /** A report loop, the Start call whose wait group it is in, and the reports it has sent. */
  datatype Loop = Loop(owner: nat, pc: LoopPc, sent: nat)

  datatype Mark = StartMark(i: nat) | StopMark | ReturnMark(i: nat)

  datatype Node = Node(core: Core, starts: seq<StartCall>, loops: seq<Loop>, marks: seq<Mark>)

  datatype Event =
    | CallStart | Enter(i: nat) | Renew(i: nat)
    | Launch(i: nat) | LaunchFails(i: nat) | Launched(i: nat)
    | Join(i: nat) | Return(i: nat)
    | CallStop
    | Look(j: nat) | Send(j: nat) | Wake(j: nat)

  function Initial(): Node {
    Node(CoreInitial(), [], [], [])
  }

  predicate Possible(s: Node, e: Event) {
    match e
    case CallStart => true
    case Enter(i) => i < |s.starts| && s.starts[i].pc == Called
    case Renew(i) => i < |s.starts| && s.starts[i].pc == Accepted
    case Launch(i) => i < |s.starts| && s.starts[i].pc.Launching? && s.starts[i].pc.left > 0
    case LaunchFails(i) => i < |s.starts| && s.starts[i].pc.Launching? && s.starts[i].pc.left > 0
    case Launched(i) => i < |s.starts| && s.starts[i].pc == Launching(0)
    case Join(i) => i < |s.starts| && s.starts[i].pc == Waiting && s.starts[i].wg == 0
    case Return(i) => i < |s.starts| && s.starts[i].pc.Returning?
    case CallStop => true
    case Look(j) => j < |s.loops| && s.loops[j].pc == Looking && s.loops[j].owner < |s.starts|
    case Send(j) => j < |s.loops| && s.loops[j].pc == Sending
    case Wake(j) => j < |s.loops| && s.loops[j].pc == Sleeping
  }

  function SetPc(s: Node, i: nat, pc: StartPc): Node
    requires i < |s.starts|
  {
    s.(starts := s.starts[i := s.starts[i].(pc := pc)])
  }

  function AddToWait(s: Node, i: nat, n: int): Node
    requires i < |s.starts|
  {
    s.(starts := s.starts[i := s.starts[i].(wg := s.starts[i].wg + n)])
  }

  function SetLoop(s: Node, j: nat, pc: LoopPc): Node
    requires j < |s.loops|
  {
    s.(loops := s.loops[j := s.loops[j].(pc := pc)])
  }

  /** The effect of an event; one that is not possible changes nothing. */
  function Next(s: Node, e: Event, targets: nat): Node {
    if !Possible(s, e) then s
    else
      match e
      case CallStart => s.(starts := s.starts + [StartCall(Called, 0)])
      case Enter(i) =>
        if s.core.status == Running then SetPc(s, i, Done(Refused))
        else SetPc(s, i, Accepted).(core := CoreAccept(s.core), marks := s.marks + [StartMark(i)])
      case Renew(i) => SetPc(s, i, Launching(targets)).(core := CoreRenew(s.core))
      case Launch(i) =>
        AddToWait(SetPc(s, i, Launching(s.starts[i].pc.left - 1)), i, 1).(loops := s.loops + [Loop(i, Looking, 0)])
      case LaunchFails(i) => SetPc(s, i, Returning(LaunchFailed))
      case Launched(i) => SetPc(s, i, Waiting)
      case Join(i) => SetPc(s, i, Returning(Completed))
      case Return(i) =>
        SetPc(s, i, Done(s.starts[i].pc.outcome)).(core := CoreFinish(s.core), marks := s.marks + [ReturnMark(i)])
      case CallStop =>
        var (outcome, core) := CoreStop(s.core);
        if outcome == StopAccepted then s.(core := core, marks := s.marks + [StopMark]) else s
      case Look(j) =>
        if Cancelled(s.core) then AddToWait(SetLoop(s, j, Gone), s.loops[j].owner, -1) else SetLoop(s, j, Sending)
      case Send(j) => s.(loops := s.loops[j := s.loops[j].(pc := Sleeping, sent := s.loops[j].sent + 1)])
      case Wake(j) => SetLoop(s, j, Looking)
  }

  function ExecFrom(s: Node, targets: nat, events: seq<Event>): Node {
    if events == [] then s
    else Next(ExecFrom(s, targets, events[..|events| - 1]), events[|events| - 1], targets)
  }

  /** The state after any sequence of events. */
  function Exec(targets: nat, events: seq<Event>): Node {
    ExecFrom(Initial(), targets, events)
  }

  lemma ExecStep(targets: nat, events: seq<Event>, e: Event)
    ensures Exec(targets, events + [e]) == Next(Exec(targets, events), e, targets)
  {
    assert (events + [e])[..|events|] == events;
  }

  /** The dispatcher object, with its methods called as any sequence of events
      calls them, has the fields of the interleaving's state. */
  method Drive(targets: nat, events: seq<Event>) returns (d: DispatcherObject)
    ensures fresh(d) && d.Fields() == Exec(targets, events).core
  {
    hide Next;
    d := new DispatcherObject();
    var s := Initial();
    var k := 0;
    while k < |events|
      invariant 0 <= k <= |events| && fresh(d)
      invariant s == Exec(targets, events[..k])
      invariant d.Fields() == s.core
    {
      ReachableContexts(targets, events[..k]);
      ExecStep(targets, events[..k], events[k]);
      assert events[..k + 1] == events[..k] + [events[k]];
      Serve(d, s, events[k], targets);
      s := Next(s, events[k], targets);
      k := k + 1;
    }
    assert events[..k] == events;
  }

  /** What one event asks of the object. */
  method Serve(d: DispatcherObject, s: Node, e: Event, targets: nat)
    requires d.Fields() == s.core && ContextsNumbered(s.core)
    modifies d
    ensures d.Fields() == Next(s, e, targets).core
  {
    if !Possible(s, e) {
      return;
    }
    match e {
      case Enter(_) => var _ := d.TryStart();
      case Renew(_) => d.RenewContext();
      case Return(_) => d.FinishStart();
      case CallStop => var _ := d.Stop();
      case _ =>
    }
  }

  // ---- the status alternates ----

  ghost predicate Alternating(s: Node) {
    && (s.core.status == Running <==> s.marks != [] && s.marks[|s.marks| - 1].StartMark?)
    && (forall k :: 0 <= k < |s.marks| - 1 ==> !(s.marks[k].StartMark? && s.marks[k + 1].StartMark?))
  }

  /** In every interleaving the dispatcher is running exactly when the latest of
      the accepted Starts, accepted Stops and Start returns is a Start, and two
      accepted Starts always have a Stop or a return between them. */
  lemma {:induction false} StartsAlternate(targets: nat, events: seq<Event>)
    ensures Alternating(Exec(targets, events))
  {
    if events == [] {
    } else {
      StartsAlternate(targets, events[..|events| - 1]);
    }
  }

  lemma {:induction false} ReachableContexts(targets: nat, events: seq<Event>)
    ensures ContextsNumbered(Exec(targets, events).core)
  {
    if events == [] {
    } else {
      ReachableContexts(targets, events[..|events| - 1]);
    }
  }

  // ---- Stop before the first context ----

  /** Until the first context is made there has been at most one accepted Start,
      which is then still about to make it; and once there is a context, the
      first accepted Start has gone past making it. */
  ghost predicate FirstContext(s: Node) {
    if s.core.ctx.None? then
      && s.core.status == (if s.marks == [] then Stopped else Running)
      && (s.marks != [] ==> |s.marks| == 1 && s.marks[0].StartMark?)
      && (forall i: nat :: i < |s.starts| ==>
            if s.marks == [StartMark(i)] then s.starts[i].pc == Accepted
            else s.starts[i].pc == Called || s.starts[i].pc.Done?)
      && (s.marks != [] ==> s.marks[0].i < |s.starts|)
    else
      && s.marks != [] && s.marks[0].StartMark? && s.marks[0].i < |s.starts|
      && s.starts[s.marks[0].i].pc != Called && s.starts[s.marks[0].i].pc != Accepted
  }

  lemma FirstContextByNext(s: Node, e: Event, targets: nat)
    requires FirstContext(s)
    ensures FirstContext(Next(s, e, targets))
  {}

  lemma {:induction false} ReachableFirstContext(targets: nat, events: seq<Event>)
    ensures FirstContext(Exec(targets, events))
  {
    if events == [] {
    } else {
      hide FirstContext, Next;
      ReachableFirstContext(targets, events[..|events| - 1]);
      FirstContextByNext(Exec(targets, events[..|events| - 1]), events[|events| - 1], targets);
    }
  }

  /** In every interleaving, Stop calls the nil cancel function exactly when the
      first Start ever accepted has not made its context yet. */
  lemma StopPanicsExactly(targets: nat, before: seq<Event>)
    ensures var s := Exec(targets, before);
            CoreStop(s.core).0 == StopPanicked <==>
            && |s.marks| == 1 && s.marks[0].StartMark? && s.marks[0].i < |s.starts|
            && s.starts[s.marks[0].i].pc == Accepted
  {
    hide Exec;
    ReachableFirstContext(targets, before);
    var s := Exec(targets, before);
    assert |s.marks| == 1 && s.marks[0].StartMark? ==> s.marks == [StartMark(s.marks[0].i)];
  }

  /** Taking one more event at the end of a run. */
  lemma Takes(targets: nat, events: seq<Event>, s: Node, e: Event) returns (events': seq<Event>, s': Node)
    requires Exec(targets, events) == s
    ensures events' == events + [e] && s' == Next(s, e, targets) && Exec(targets, events') == s'
  {
    ExecStep(targets, events, e);
    events', s' := events + [e], Next(s, e, targets);
  }

  /** Such a state is two events away: a Start is called and admitted. */
  lemma StopPanicsAtFirstStart(targets: nat) returns (before: seq<Event>)
    ensures before == [CallStart, Enter(0)] && CoreStop(Exec(targets, before).core).0 == StopPanicked
  {
    var s := Initial();
    before := [];
    assert Exec(targets, before) == s;
    hide Exec;
    before, s := Takes(targets, before, s, CallStart);
    before, s := Takes(targets, before, s, Enter(0));
  }

  // ---- wait groups ----

  function Live(loops: seq<Loop>, i: nat): int {
    if loops == [] then 0
    else Live(loops[..|loops| - 1], i) + if loops[|loops| - 1].owner == i && loops[|loops| - 1].pc != Gone then 1 else 0
  }

  lemma {:induction false} LiveUpdate(loops: seq<Loop>, j: nat, l: Loop, i: nat)
    requires j < |loops|
    ensures Live(loops[j := l], i) == Live(loops, i)
            - (if loops[j].owner == i && loops[j].pc != Gone then 1 else 0)
            + (if l.owner == i && l.pc != Gone then 1 else 0)
  {
    var front := loops[..|loops| - 1];
    if j == |loops| - 1 {
      assert loops[j := l][..|loops| - 1] == front;
    } else {
      LiveUpdate(front, j, l, i);
      assert loops[j := l][..|loops| - 1] == front[j := l];
    }
  }

  lemma LiveAppend(loops: seq<Loop>, l: Loop, i: nat)
    ensures Live(loops + [l], i) == Live(loops, i) + if l.owner == i && l.pc != Gone then 1 else 0
  {}

  lemma {:induction false} LiveBeyond(loops: seq<Loop>, i: nat)
    requires forall j :: 0 <= j < |loops| ==> loops[j].owner < i
    ensures Live(loops, i) == 0
  {
    if loops == [] {
    } else {
      LiveBeyond(loops[..|loops| - 1], i);
    }
  }

  /** Each wait group counts the live loops started under it. */
  ghost predicate WaitsCount(s: Node) {
    && (forall j :: 0 <= j < |s.loops| ==> s.loops[j].owner < |s.starts|)
    && (forall i: nat :: i < |s.starts| ==> s.starts[i].wg == Live(s.loops, i))
  }

  lemma WaitsByNext(s: Node, e: Event, targets: nat)
    requires WaitsCount(s)
    ensures WaitsCount(Next(s, e, targets))
  {
    hide Live;
    if Possible(s, e) {
      match e {
        case CallStart => LiveBeyond(s.loops, |s.starts|);
        case Launch(i) => WaitsByLaunch(s, i, targets);
        case Look(j) => WaitsByLoop(s, e, j, targets);
        case Send(j) => WaitsByLoop(s, e, j, targets);
        case Wake(j) => WaitsByLoop(s, e, j, targets);
        case _ =>
      }
    }
  }

  lemma WaitsByLaunch(s: Node, i: nat, targets: nat)
    requires WaitsCount(s) && Possible(s, Launch(i))
    ensures WaitsCount(Next(s, Launch(i), targets))
  {
    hide Live;
    forall k: nat ensures Live(s.loops + [Loop(i, Looking, 0)], k) == Live(s.loops, k) + if k == i then 1 else 0 {
      LiveAppend(s.loops, Loop(i, Looking, 0), k);
    }
  }

  lemma WaitsByLoop(s: Node, e: Event, j: nat, targets: nat)
    requires WaitsCount(s) && Possible(s, e) && (e == Look(j) || e == Send(j) || e == Wake(j))
    ensures WaitsCount(Next(s, e, targets))
  {
    hide Live;
    var l := Next(s, e, targets).loops[j];
    forall k: nat ensures Live(s.loops[j := l], k) == Live(s.loops, k) - if l.pc == Gone && l.owner == k then 1 else 0 {
      LiveUpdate(s.loops, j, l, k);
    }
  }

  lemma {:induction false} ReachableWaits(targets: nat, events: seq<Event>)
    ensures WaitsCount(Exec(targets, events))
  {
    hide WaitsCount, Next;
    if events == [] {
      NoWaits();
    } else {
      ReachableWaits(targets, events[..|events| - 1]);
      WaitsByNext(Exec(targets, events[..|events| - 1]), events[|events| - 1], targets);
    }
  }

  lemma NoWaits()
    ensures WaitsCount(Initial())
  {}

  // ---- loops that outlive their Start ----

  lemma {:induction false} LiveIsCounted(loops: seq<Loop>, i: nat)
    ensures Live(loops, i) >= 0
    ensures forall j :: 0 <= j < |loops| && loops[j].owner == i && loops[j].pc != Gone ==> Live(loops, i) >= 1
  {
    if loops == [] {
    } else {
      LiveIsCounted(loops[..|loops| - 1], i);
      assert forall j :: 0 <= j < |loops| - 1 ==> loops[..|loops| - 1][j] == loops[j];
    }
  }

  /** The stages of a Start call in which it has no live loop. */
  predicate Loopless(pc: StartPc) {
    pc == Called || pc == Accepted || ((pc.Returning? || pc.Done?) && pc.outcome != LaunchFailed)
  }

  ghost predicate NoneOutlives(s: Node) {
    forall i :: 0 <= i < |s.starts| && Loopless(s.starts[i].pc) ==> s.starts[i].wg == 0
  }

  lemma NoneOutlivesByNext(s: Node, e: Event, targets: nat)
    requires WaitsCount(s) && NoneOutlives(s)
    ensures NoneOutlives(Next(s, e, targets))
  {
    hide Live;
    if e.Look? && Possible(s, e) {
      LiveIsCounted(s.loops, s.loops[e.j].owner);
    }
  }

  /** A Start that has returned has live loops only if it returned because a
      target could not be started. */
  lemma {:induction false} OnlyFailedStartsLeak(targets: nat, events: seq<Event>)
    ensures var s := Exec(targets, events);
            NoneOutlives(s) && forall i: nat :: i < |s.starts| && Loopless(s.starts[i].pc) ==> Live(s.loops, i) == 0
  {
    hide Next;
    ReachableWaits(targets, events);
    if events == [] {
    } else {
      var front := events[..|events| - 1];
      OnlyFailedStartsLeak(targets, front);
      ReachableWaits(targets, front);
      NoneOutlivesByNext(Exec(targets, front), events[|events| - 1], targets);
    }
  }
}
