/** The balancer: any number of health streams, interleaved in any way, over one registry. */
module HealthSystem {
  import opened Words
  import opened Registry
  import opened HealthStream

  /** A registry call and the stream that made it. */
  datatype Entry = Entry(stream: nat, call: Call)

  datatype Balancer = Balancer(now: Time, streams: seq<Stream>, registry: View, log: seq<Entry>)

  /** A node connects, a stream takes a step, or time passes. */
  datatype Event = Connect(key: string) | Act(i: nat, a: Action) | Advance(d: nat)

  function Initial(): Balancer {
    Balancer(0, [], map[], [])
  }

  predicate Possible(s: Balancer, e: Event) {
    e.Act? ==> e.i < |s.streams| && Enabled(s.streams[e.i], e.a, s.now)
  }

  /** The effect of an event; one that is not possible changes nothing. */
  function Next(s: Balancer, e: Event, timeout: Time): Balancer {
    if !Possible(s, e) then s
    else
      match e
      case Connect(key) => s.(streams := s.streams + [NewStream(key)])
      case Advance(d) => s.(now := s.now + d)
      case Act(i, a) =>
        var moved := s.(streams := s.streams[i := Move(s.streams[i], a, s.now, timeout)]);
        match CallOf(s.streams[i], a, s.now)
        case None => moved
        case Some(c) => moved.(registry := Apply(s.registry, c), log := s.log + [Entry(i, c)])
  }

  function ExecFrom(s: Balancer, timeout: Time, events: seq<Event>): Balancer {
    if events == [] then s
    else Next(ExecFrom(s, timeout, events[..|events| - 1]), events[|events| - 1], timeout)
  }

  /** The state after any sequence of events: every interleaving is one. */
  function Exec(timeout: Time, events: seq<Event>): Balancer {
    ExecFrom(Initial(), timeout, events)
  }

  lemma ExecStep(timeout: Time, events: seq<Event>, e: Event)
    ensures Exec(timeout, events + [e]) == Next(Exec(timeout, events), e, timeout)
  {}

  function AllCalls(log: seq<Entry>): seq<Call> {
    if log == [] then [] else AllCalls(log[..|log| - 1]) + [log[|log| - 1].call]
  }

  function CallsBy(log: seq<Entry>, i: nat): seq<Call> {
    if log == [] then []
    else CallsBy(log[..|log| - 1], i) + if log[|log| - 1].stream == i then [log[|log| - 1].call] else []
  }

  ghost predicate StreamSound(st: Stream, now: Time, timeout: Time) {
    && MessagesConserved(st) && ErrorsConserved(st)
    && TraceShape(st) && ExitCause(st)
    && TimerSound(st, now, timeout)
    && ItemsInTurns(st) && RunsLoop(st, timeout)
  }

  ghost predicate StreamsSound(s: Balancer, timeout: Time) {
    forall i :: 0 <= i < |s.streams| ==> StreamSound(s.streams[i], s.now, timeout)
  }

  /** The registry is the replay of the log, and the log restricted to a stream is that stream's calls. */
  ghost predicate LogSound(s: Balancer) {
    && s.registry == Replay(AllCalls(s.log))
    && (forall i :: 0 <= i < |s.log| ==> s.log[i].stream < |s.streams|)
    && (forall i: nat :: i < |s.streams| ==> CallsBy(s.log, i) == s.streams[i].calls)
  }

  lemma StreamByMove(st: Stream, a: Action, now: Time, timeout: Time)
    requires Enabled(st, a, now) && StreamSound(st, now, timeout)
    ensures StreamSound(Move(st, a, now, timeout), now, timeout)
  {
    assert ItemsInTurns(Move(st, a, now, timeout)) by { ItemsByMove(st, a, now, timeout); }
    hide Move, MessagesConserved, ErrorsConserved, TraceShape, ExitCause, TimerSound, ItemsInTurns, RunsLoop;
    LoopByMove(st, a, now, timeout);
    MessagesByMove(st, a, now, timeout);
    ErrorsByMove(st, a, now, timeout);
    ShapeByMove(st, a, now, timeout);
    CauseByMove(st, a, now, timeout);
    TimerByMove(st, a, now, timeout);
  }

  lemma StreamsByNext(s: Balancer, e: Event, timeout: Time)
    requires StreamsSound(s, timeout) && s.now >= 0
    ensures StreamsSound(Next(s, e, timeout), timeout)
  {
    hide StreamSound, Move, Enabled;
    var s' := Next(s, e, timeout);
    if Possible(s, e) {
      match e {
        case Connect(key) => NewStreamSound(key, s.now, timeout);
        case Advance(d) =>
          forall i | 0 <= i < |s.streams| ensures StreamSound(s'.streams[i], s'.now, timeout) {
            SoundByWaiting(s.streams[i], s.now, s'.now, timeout);
          }
        case Act(i, a) => StreamByMove(s.streams[i], a, s.now, timeout);
      }
    }
  }

  lemma NewStreamSound(key: string, now: Time, timeout: Time)
    requires now >= 0
    ensures StreamSound(NewStream(key), now, timeout)
  {}

  lemma SoundByWaiting(st: Stream, now: Time, later: Time, timeout: Time)
    requires StreamSound(st, now, timeout) && now <= later
    ensures StreamSound(st, later, timeout)
  {}

  lemma LogStep(log: seq<Entry>, e: Entry)
    ensures AllCalls(log + [e]) == AllCalls(log) + [e.call]
    ensures Replay(AllCalls(log + [e])) == Apply(Replay(AllCalls(log)), e.call)
    ensures forall i: nat :: CallsBy(log + [e], i) == CallsBy(log, i) + if e.stream == i then [e.call] else []
  {}

  lemma MoveCalls(st: Stream, a: Action, now: Time, timeout: Time)
    requires Enabled(st, a, now)
    ensures Move(st, a, now, timeout).calls ==
            match CallOf(st, a, now) { case None => st.calls case Some(c) => st.calls + [c] }
    ensures Move(st, a, now, timeout).key == st.key
  {}

  lemma {:induction false} NoCallsBeyond(log: seq<Entry>, i: nat)
    requires forall k :: 0 <= k < |log| ==> log[k].stream != i
    ensures CallsBy(log, i) == []
  {
    if log == [] {
    } else {
      NoCallsBeyond(log[..|log| - 1], i);
    }
  }

  lemma LogByNext(s: Balancer, e: Event, timeout: Time)
    requires LogSound(s)
    ensures LogSound(Next(s, e, timeout))
  {
    hide Move, Enabled, CallOf, Apply, Replay, CallsBy, AllCalls;
    if Possible(s, e) {
      match e {
        case Connect(key) => NoCallsBeyond(s.log, |s.streams|);
        case Advance(d) =>
        case Act(i, a) =>
          MoveCalls(s.streams[i], a, s.now, timeout);
          var call := CallOf(s.streams[i], a, s.now);
          if call.Some? {
            LogStep(s.log, Entry(i, call.value));
          }
      }
    }
  }

  /** What holds in every state of every interleaving. */
  lemma {:induction false} ReachableSound(timeout: Time, events: seq<Event>)
    ensures Exec(timeout, events).now >= 0
    ensures StreamsSound(Exec(timeout, events), timeout)
    ensures LogSound(Exec(timeout, events))
  {
    hide StreamsSound, LogSound, Next;
    if events == [] {
      InitialSound(timeout);
    } else {
      var front, e := events[..|events| - 1], events[|events| - 1];
      ReachableSound(timeout, front);
      StreamsByNext(Exec(timeout, front), e, timeout);
      LogByNext(Exec(timeout, front), e, timeout);
      ClockByNext(Exec(timeout, front), e, timeout);
    }
  }

  lemma InitialSound(timeout: Time)
    ensures StreamsSound(Initial(), timeout) && LogSound(Initial())
  {}

  lemma ClockByNext(s: Balancer, e: Event, timeout: Time)
    ensures s.now <= Next(s, e, timeout).now
  {}

  // ---- consequences, stream by stream ----

  function CheckCount(calls: seq<Call>): nat {
    if calls == [] then 0 else CheckCount(calls[..|calls| - 1]) + if calls[|calls| - 1].Check? then 1 else 0
  }

  /** The checks a stream has reported never exceed its countable receive
      results, where a recoverable error counts because its nil request reads
      as status 0. */
  lemma CountedWithinReceived(timeout: Time, events: seq<Event>, i: nat)
    requires i < |Exec(timeout, events).streams|
    ensures var st := Exec(timeout, events).streams[i];
            CheckCount(st.calls) <= CountCountable(Messages(st.received))
  {
    hide Exec, ErrorsConserved, ExitCause, TimerSound, ItemsInTurns, RunsLoop;
    ReachableSound(timeout, events);
    var st := Exec(timeout, events).streams[i];
    assert StreamSound(st, Exec(timeout, events).now, timeout);
    ShapeCount(st);
    CountConcat(st.consumed, st.msgChan + HeldMessage(st.listener));
    assert st.consumed + (st.msgChan + HeldMessage(st.listener)) == Messages(st.received);
  }

  lemma ShapeCount(st: Stream)
    requires TraceShape(st)
    ensures CheckCount(st.calls) <= CountCountable(st.consumed)
  {
    if st.calls != [] {
      var failures := if FailureReported(st.handler) then 1 else 0;
      CheckCountPrefix(st.calls, |st.calls| - failures);
    }
  }

  /** Registration first, then checks only, up to position `n`: `n - 1` checks; and a failure adds none. */
  lemma {:induction false} CheckCountPrefix(calls: seq<Call>, n: nat)
    requires 1 <= n <= |calls| && n >= |calls| - 1
    requires calls[0].Register? && forall i :: 1 <= i < n ==> calls[i].Check?
    requires n < |calls| ==> calls[n].Failure?
    ensures CheckCount(calls) == n - 1
  {
    var front := calls[..|calls| - 1];
    if n < |calls| {
      CheckCountPrefix(front, n);
    } else if n > 1 {
      CheckCountPrefix(front, n - 1);
    }
  }

  /** No report of a check or a failure ever meets an unknown key. */
  lemma CallsFindTheirKey(timeout: Time, events: seq<Event>, i: nat, a: Action)
    requires Possible(Exec(timeout, events), Act(i, a))
    requires a.DoCheck? || a.DoFail?
    ensures Exec(timeout, events).streams[i].key in Exec(timeout, events).registry
  {
    hide Exec, MessagesConserved, ErrorsConserved, ExitCause, TimerSound, ItemsInTurns, RunsLoop;
    var s := Exec(timeout, events);
    var st := s.streams[i];
    ReachableSound(timeout, events);
    assert StreamSound(st, s.now, timeout);
    assert st.calls[0] == Register(st.key);
    CallsAreLogged(s.log, i, Register(st.key));
    StreakMeaning(AllCalls(s.log), st.key);
  }

  lemma {:induction false} CallsAreLogged(log: seq<Entry>, i: nat, c: Call)
    requires c in CallsBy(log, i)
    ensures c in AllCalls(log)
  {
    if log == [] {
    } else {
      var front := log[..|log| - 1];
      if c in CallsBy(front, i) {
        CallsAreLogged(front, i, c);
      }
    }
  }

  /** The streak of a key is the number of its checks, by whatever streams, since
      the later of its first registration and its latest failure. */
  lemma SystemStreak(timeout: Time, events: seq<Event>, k: string)
    ensures var s := Exec(timeout, events);
            var calls := AllCalls(s.log);
            && (k in s.registry <==> EverRegistered(calls, k))
            && (k in s.registry ==>
                  && StreakStart(calls, k).Some?
                  && IsStreakStart(calls, k, StreakStart(calls, k).value)
                  && s.registry[k].streak == Checks(calls[StreakStart(calls, k).value..], k) % TWO64
                  && (Checks(calls[StreakStart(calls, k).value..], k) < 0x1_0000_0000_0000_0000 ==>
                        s.registry[k].streak == Checks(calls[StreakStart(calls, k).value..], k)))
  {
    hide Exec, Replay, Checks, StreakStart, StreamsSound, EverRegistered, IsStreakStart, AllCalls, CallsBy;
    var calls := AllCalls(Exec(timeout, events).log);
    ReachableSound(timeout, events);
    StreakMeaning(calls, k);
    StreakStartMeans(calls, k);
  }

  /** A stream that left, or is leaving, on a timeout had counted nothing during
      the `timeout` before the tick was taken. */
  lemma TimeoutMeansSilence(timeout: Time, events: seq<Event>, i: nat, k: nat)
    requires i < |Exec(timeout, events).streams|
    requires var st := Exec(timeout, events).streams[i];
             && (st.handler == Exited(TimedOut) || st.handler == Failing(TimedOut))
             && k < |st.calls| && st.calls[k].Check?
    ensures var st := Exec(timeout, events).streams[i];
            st.calls[k].at + timeout <= st.left <= Exec(timeout, events).now
  {
    ReachableSound(timeout, events);
    assert StreamSound(Exec(timeout, events).streams[i], Exec(timeout, events).now, timeout);
  }

  /** The code's loop and the transition system agree over whole runs: in every
      interleaving, for a stream that waits or has left its loop, the loop run on
      the items it took gives exactly its calls behind the registration, its
      deadline or its reason for leaving; and those items are all it consumed. */
  lemma LoopCodeMatchesStream(timeout: Time, events: seq<Event>, i: nat)
    requires i < |Exec(timeout, events).streams|
    requires var h := Exec(timeout, events).streams[i].handler;
             h.Selecting? || (h.Exited? && h.reason != SetupFailed)
    ensures var st := Exec(timeout, events).streams[i];
            var l := TakeTurns(st.key, timeout, st.started, st.turns);
            && st.calls == [Register(st.key)] + l.calls
            && l.exit == (if st.handler.Exited? then Some(st.handler.reason) else None)
            && (st.handler.Selecting? ==> st.handler.timer == Armed(l.deadline))
            && MessagesTaken(st.turns) == st.consumed && ErrorsTaken(st.turns) == st.errors
  {
    hide Exec, TakeTurns, MessagesTaken, ErrorsTaken;
    ReachableSound(timeout, events);
    var st := Exec(timeout, events).streams[i];
    assert StreamSound(st, Exec(timeout, events).now, timeout);
  }

  // ---- what is counted ----

  /** The countable requests among the results: what the node itself reported. */
  function Reports(rs: seq<Recv>): nat {
    if rs == [] then 0
    else Reports(rs[..|rs| - 1]) + if rs[|rs| - 1].Ok? && Countable(rs[|rs| - 1].status) then 1 else 0
  }

  function RecoverableErrors(rs: seq<Recv>): nat {
    if rs == [] then 0
    else RecoverableErrors(rs[..|rs| - 1]) + if rs[|rs| - 1].Err? && !Fatal(rs[|rs| - 1]) then 1 else 0
  }

  lemma {:induction false} CountableSplits(rs: seq<Recv>)
    ensures CountCountable(Messages(rs)) == Reports(rs) + RecoverableErrors(rs)
  {
    if rs == [] {
    } else {
      var front, r := rs[..|rs| - 1], rs[|rs| - 1];
      CountableSplits(front);
      CountConcat(Messages(front), if Fatal(r) then [] else [StatusOf(r)]);
      assert CountCountable([StatusOf(r)]) == if Countable(StatusOf(r)) then 1 else 0;
    }
  }

  /** Once everything received has been worked off, the checks reported are the
      node's countable reports exactly when no recoverable error was received:
      each of those is counted as one check more. */
  lemma CountsOnlyReportsExactly(timeout: Time, events: seq<Event>, i: nat)
    requires i < |Exec(timeout, events).streams|
    requires var st := Exec(timeout, events).streams[i];
             st.msgChan == [] && HeldMessage(st.listener) == [] && !st.handler.Checking?
    ensures var st := Exec(timeout, events).streams[i];
            && CheckCount(st.calls) == Reports(st.received) + RecoverableErrors(st.received)
            && (CheckCount(st.calls) == Reports(st.received) <==> RecoverableErrors(st.received) == 0)
  {
    hide Exec, ErrorsConserved, ExitCause, TimerSound, ItemsInTurns, RunsLoop;
    ReachableSound(timeout, events);
    var st := Exec(timeout, events).streams[i];
    assert StreamSound(st, Exec(timeout, events).now, timeout);
    CountableSplits(st.received);
    assert st.consumed == Messages(st.received);
    if st.calls != [] {
      CheckCountPrefix(st.calls, |st.calls| - if FailureReported(st.handler) then 1 else 0);
    }
  }
}
