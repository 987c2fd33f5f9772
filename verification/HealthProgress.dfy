/** What a stream has received is worked off: neither goroutine can be blocked for good. */
module HealthProgress {
  import opened Registry
  import opened HealthStream
  import opened HealthSystem

  function ListenerWork(l: Listener): nat {
    match l
    case SendingErr(_) => 7
    case SendingMsg(_) => 4
    case SendingFatal(_) => 3
    case _ => 0
  }

  function HandlerWork(h: Handler): nat {
    match h
    case Connecting => 3
    case Registered => 2
    case Spawned => 1
    case Checking(_, _) => 2
    case Resetting(_, _, _) => 1
    case Failing(_) => 1
    case _ => 0
  }

  /** An upper bound on the steps a stream can take by itself. */
  function Work(st: Stream): nat {
    ListenerWork(st.listener) + 3 * |st.msgChan| + 2 * |st.errChan| + HandlerWork(st.handler)
  }

  /** A step that needs neither a new receive result nor the timer. */
  predicate OwnStep(a: Action) {
    !a.Receive? && !a.TakeTick?
  }

  /** What an action adds at most. */
  function Brings(a: Action): nat {
    if a.Receive? then 7 else if a.TakeTick? then 1 else 0
  }

  /** Every step the stream takes by itself uses up work; a receive result brings a
      bounded amount of it, and the tick of the timer one unit. */
  lemma StepUsesWork(st: Stream, a: Action, now: Time, timeout: Time)
    requires Enabled(st, a, now)
    ensures Work(Move(st, a, now, timeout)) + (if OwnStep(a) then 1 else 0) <= Work(st) + Brings(a)
  {}

  /** The handler waits, both channels are empty and the listener has nothing to send. */
  predicate Settled(st: Stream) {
    && st.handler.Selecting? && st.msgChan == [] && st.errChan == []
    && (st.listener.Waiting? || st.listener.Gone?)
  }

  /** Until a stream is settled or has ended, it can take a step by itself. */
  lemma SomeStepEnabled(st: Stream, now: Time) returns (a: Action)
    requires !st.handler.Stuck? && !st.handler.Exited? && !Settled(st)
    ensures OwnStep(a) && Enabled(st, a, now)
  {
    var h, l := st.handler, st.listener;
    a := if h.Connecting? then DoRegister
         else if h.Registered? then Spawn
         else if h.Spawned? then StartTimer
         else if h.Checking? then DoCheck
         else if h.Resetting? then DoReset
         else if h.Failing? then DoFail
         else if st.msgChan != [] then TakeMsg
         else if st.errChan != [] then TakeErr
         else if l.SendingMsg? then PutMsg
         else PutErr;
  }

  // ---- whole runs ----

  /** Event `e` is a step of stream `i` that happens. */
  predicate StepOf(s: Balancer, e: Event, i: nat) {
    e.Act? && e.i == i && Possible(s, e)
  }

  /** How many steps stream `i` takes by itself during `events`. */
  function OwnSteps(s: Balancer, timeout: Time, events: seq<Event>, i: nat): nat {
    if events == [] then 0
    else
      var front, e := events[..|events| - 1], events[|events| - 1];
      OwnSteps(s, timeout, front, i) + if StepOf(ExecFrom(s, timeout, front), e, i) && OwnStep(e.a) then 1 else 0
  }

  /** The work that receive results and ticks bring stream `i` during `events`. */
  function Brought(s: Balancer, timeout: Time, events: seq<Event>, i: nat): nat {
    if events == [] then 0
    else
      var front, e := events[..|events| - 1], events[|events| - 1];
      Brought(s, timeout, front, i) + if StepOf(ExecFrom(s, timeout, front), e, i) then Brings(e.a) else 0
  }

  lemma WorkByNext(s: Balancer, e: Event, timeout: Time, i: nat)
    requires i < |s.streams|
    ensures var s' := Next(s, e, timeout);
            && i < |s'.streams|
            && Work(s'.streams[i]) + (if StepOf(s, e, i) && OwnStep(e.a) then 1 else 0)
               <= Work(s.streams[i]) + if StepOf(s, e, i) then Brings(e.a) else 0
  {
    hide Move, Enabled, Work;
    if StepOf(s, e, i) {
      StepUsesWork(s.streams[i], e.a, s.now, timeout);
    }
  }

  lemma {:induction false} WorkBudget(s: Balancer, timeout: Time, events: seq<Event>, i: nat)
    requires i < |s.streams|
    ensures var s' := ExecFrom(s, timeout, events);
            && i < |s'.streams|
            && OwnSteps(s, timeout, events, i) + Work(s'.streams[i]) <= Work(s.streams[i]) + Brought(s, timeout, events, i)
  {
    hide Next, Work, StepOf;
    if events == [] {
    } else {
      var front := events[..|events| - 1];
      WorkBudget(s, timeout, front, i);
      WorkByNext(ExecFrom(s, timeout, front), events[|events| - 1], timeout, i);
    }
  }

  /** In every run, whatever the other streams do and however time passes: a stream
      takes at most as many steps by itself as it has work and is brought work by
      what it receives; and unless it has ended it can take another one until it is
      settled, when all it has received has been consumed. */
  lemma ReceivedIsWorkedOff(timeout: Time, before: seq<Event>, after: seq<Event>, i: nat)
    requires i < |Exec(timeout, before).streams|
    ensures var s := Exec(timeout, before);
            var s' := ExecFrom(s, timeout, after);
            && i < |s'.streams|
            && OwnSteps(s, timeout, after, i) <= Work(s.streams[i]) + Brought(s, timeout, after, i)
            && var st := s'.streams[i];
            || st.handler.Exited?
            || (exists a :: OwnStep(a) && Enabled(st, a, s'.now))
            || (Settled(st) && st.consumed == Messages(st.received) && st.errors == Errors(st.received))
  {
    hide Exec, ExecFrom, Work, Enabled;
    var s := Exec(timeout, before);
    WorkBudget(s, timeout, after, i);
    ExecConcat(timeout, before, after);
    ReachableSound(timeout, before + after);
    var s' := ExecFrom(s, timeout, after);
    StreamGoesOn(s'.streams[i], s'.now, timeout);
  }

  lemma StreamGoesOn(st: Stream, now: Time, timeout: Time)
    requires StreamSound(st, now, timeout)
    ensures || st.handler.Exited?
            || (exists a :: OwnStep(a) && Enabled(st, a, now))
            || (Settled(st) && st.consumed == Messages(st.received) && st.errors == Errors(st.received))
  {
    if !st.handler.Exited? && !Settled(st) {
      var a := SomeStepEnabled(st, now);
    }
  }

  lemma {:induction false} ExecConcat(timeout: Time, before: seq<Event>, after: seq<Event>)
    ensures Exec(timeout, before + after) == ExecFrom(Exec(timeout, before), timeout, after)
  {
    hide Next;
    if after == [] {
      assert before + after == before;
    } else {
      var whole := before + after;
      assert whole[..|whole| - 1] == before + after[..|after| - 1];
      ExecConcat(timeout, before, after[..|after| - 1]);
    }
  }
}
