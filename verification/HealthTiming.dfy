/** Detection: with timers that fire when they run out, a silent stream ends in time. */
module HealthTiming {
  import opened Words
  import opened Registry
  import opened HealthStream
  import opened HealthSystem

  /** Time passes only up to the earliest deadline a handler is waiting for, and
      not at all while a handler is between two selects. */
  ghost predicate Urgent(s: Balancer, e: Event) {
    e.Advance? && e.d > 0 ==>
      forall i :: 0 <= i < |s.streams| ==>
        && !s.streams[i].handler.Checking?
        && !s.streams[i].handler.Resetting?
        && !s.streams[i].handler.Failing?
        && (s.streams[i].handler.Selecting? && s.streams[i].handler.timer.Armed? ==>
              s.now + e.d <= s.streams[i].handler.timer.at)
  }

  ghost predicate UrgentRun(s: Balancer, timeout: Time, events: seq<Event>) {
    if events == [] then true
    else
      && UrgentRun(s, timeout, events[..|events| - 1])
      && Urgent(ExecFrom(s, timeout, events[..|events| - 1]), events[|events| - 1])
  }

  /** Stream `i` receives nothing that would count as a check. */
  ghost predicate OffersNothing(events: seq<Event>, i: nat) {
    forall k :: 0 <= k < |events| && events[k].Act? && events[k].i == i && events[k].a.Receive? ==>
      Fatal(events[k].a.r) || !Countable(StatusOf(events[k].a.r))
  }

  predicate InLoop(h: Handler) {
    h.Selecting? || h.Checking? || h.Resetting? || h.Failing? || h.Exited?
  }

  /** Nothing countable is on its way to the handler. */
  predicate NothingPending(st: Stream) {
    && (forall k :: 0 <= k < |st.msgChan| ==> !Countable(st.msgChan[k]))
    && (st.listener.SendingMsg? ==> !Countable(st.listener.status))
    && !st.listener.SendingErr?
  }

  /** The stream has been silent since `t0`: it has ended, or its deadline is at most `t0 + timeout`. */
  ghost predicate Silent(st: Stream, now: Time, t0: Time, timeout: Time) {
    && NothingPending(st) && InLoop(st.handler)
    && (!st.handler.Exited? ==> now <= t0 + timeout)
    && (st.handler.Checking? || st.handler.Resetting? ==> now == t0 && st.handler.timer.Armed?)
    && (st.handler.Selecting? ==> st.handler.timer.Armed? && st.handler.timer.at <= t0 + timeout)
  }

  lemma SilentByMove(st: Stream, a: Action, now: Time, t0: Time, timeout: Time)
    requires Enabled(st, a, now) && Silent(st, now, t0, timeout) && 0 <= timeout
    requires a.Receive? ==> Fatal(a.r) || !Countable(StatusOf(a.r))
    ensures Silent(Move(st, a, now, timeout), now, t0, timeout)
  {}

  lemma SilentByNext(s: Balancer, e: Event, t0: Time, timeout: Time, i: nat)
    requires i < |s.streams| && Silent(s.streams[i], s.now, t0, timeout) && 0 <= timeout
    requires Urgent(s, e)
    requires e.Act? && e.i == i && e.a.Receive? ==> Fatal(e.a.r) || !Countable(StatusOf(e.a.r))
    ensures var s' := Next(s, e, timeout);
            i < |s'.streams| && Silent(s'.streams[i], s'.now, t0, timeout)
  {
    hide Move, Enabled;
    if Possible(s, e) && e.Act? && e.i == i {
      SilentByMove(s.streams[i], e.a, s.now, t0, timeout);
    }
  }

  lemma {:induction false} SilentRun(s: Balancer, timeout: Time, events: seq<Event>, i: nat)
    requires i < |s.streams| && Silent(s.streams[i], s.now, s.now, timeout) && 0 <= timeout
    requires UrgentRun(s, timeout, events) && OffersNothing(events, i)
    ensures var s' := ExecFrom(s, timeout, events);
            i < |s'.streams| && Silent(s'.streams[i], s'.now, s.now, timeout)
  {
    hide Silent, Next, Urgent;
    if events == [] {
    } else {
      var front, e := events[..|events| - 1], events[|events| - 1];
      assert forall k :: 0 <= k < |front| ==> front[k] == events[k];
      SilentRun(s, timeout, front, i);
      SilentByNext(ExecFrom(s, timeout, front), e, s.now, timeout, i);
    }
  }

  /** From any reachable state in which a stream is being multiplexed and has
      nothing countable under way: if it then offers nothing countable, it has
      ended by the time `timeout` has passed, whatever the other streams do. */
  lemma SilentStreamEnds(timeout: Time, before: seq<Event>, after: seq<Event>, i: nat)
    requires 0 <= timeout
    requires var s := Exec(timeout, before);
             && i < |s.streams|
             && InLoop(s.streams[i].handler) && NothingPending(s.streams[i])
             && UrgentRun(s, timeout, after)
    requires OffersNothing(after, i)
    ensures var s, s' := Exec(timeout, before), ExecFrom(Exec(timeout, before), timeout, after);
            i < |s'.streams| && (s'.now > s.now + timeout ==> s'.streams[i].handler.Exited?)
  {
    var s := Exec(timeout, before);
    ReachableSound(timeout, before);
    assert StreamSound(s.streams[i], s.now, timeout);
    SilentRun(s, timeout, after, i);
  }

  // ---- the deadline ----

  /** In every interleaving, urgent or not, a waiting handler that has counted no
      check has the deadline of its loop's start: messages that do not count and
      errors have not moved it. */
  lemma UncountedDeadlineIsLoopStart(timeout: Time, events: seq<Event>, i: nat)
    requires i < |Exec(timeout, events).streams|
    requires var st := Exec(timeout, events).streams[i];
             st.handler.Selecting? && CountCountable(st.consumed) == 0
    ensures var st := Exec(timeout, events).streams[i];
            st.handler.timer == Armed(st.started + timeout)
  {
    hide Exec;
    LoopCodeMatchesStream(timeout, events, i);
    var st := Exec(timeout, events).streams[i];
    NothingCountedNoReset(st.key, timeout, st.started, st.turns);
  }

  /** The last turn that counted. */
  function LastCounted(turns: seq<Turn>): (r: Option<Turn>)
    ensures r.Some? ==> r.value.Message?
  {
    if turns == [] then None
    else
      var t := turns[|turns| - 1];
      if t.Message? && Countable(t.status) then Some(t) else LastCounted(turns[..|turns| - 1])
  }

  lemma {:induction false} LoopAfterTurns(key: string, timeout: Time, started: Time, turns: seq<Turn>)
    requires TakeTurns(key, timeout, started, turns).exit.None?
    ensures var l := TakeTurns(key, timeout, started, turns);
            match LastCounted(turns)
            case None => l == Loop(started + timeout, [], None)
            case Some(t) =>
              && l.deadline == t.resetAt + timeout
              && l.calls != [] && l.calls[|l.calls| - 1] == Check(key, t.checkedAt)
  {
    if turns == [] {
    } else {
      LoopAfterTurns(key, timeout, started, turns[..|turns| - 1]);
    }
  }

  lemma DeadlineIsBase(st: Stream, now: Time, timeout: Time)
    requires StreamSound(st, now, timeout) && st.handler.Selecting?
    ensures st.handler.timer == Armed(st.base + timeout) && st.base <= now
    ensures forall k :: 0 <= k < |st.calls| && st.calls[k].Check? ==> st.calls[k].at <= st.base
  {}

  /** In every run, a waiting handler's deadline is the timer reset of the last
      message it counted, or else its loop's start, plus the timeout. Its latest
      check came no later than that reset, so the deadline is the latest check
      plus the timeout exactly when no time passed between the two. */
  lemma DeadlineIsLastReset(timeout: Time, events: seq<Event>, i: nat)
    requires i < |Exec(timeout, events).streams| && Exec(timeout, events).streams[i].handler.Selecting?
    ensures var st := Exec(timeout, events).streams[i];
            var n := |st.calls|;
            match LastCounted(st.turns)
            case None => st.handler.timer == Armed(st.started + timeout) && st.calls == [Register(st.key)]
            case Some(t) =>
              && st.handler.timer == Armed(t.resetAt + timeout)
              && n > 0 && st.calls[n - 1] == Check(st.key, t.checkedAt)
              && t.checkedAt <= t.resetAt <= Exec(timeout, events).now
              && (st.handler.timer == Armed(st.calls[n - 1].at + timeout) <==> t.checkedAt == t.resetAt)
  {
    hide Exec, TakeTurns, LastCounted;
    ReachableSound(timeout, events);
    LoopCodeMatchesStream(timeout, events, i);
    var st := Exec(timeout, events).streams[i];
    LoopAfterTurns(st.key, timeout, st.started, st.turns);
    DeadlineIsBase(st, Exec(timeout, events).now, timeout);
  }

  /** No time passes between a check and the timer reset of stream `i`; what other
      streams do, and whether timers fire on time, is left open. */
  ghost predicate PromptRun(timeout: Time, events: seq<Event>, i: nat) {
    if events == [] then true
    else
      var front, e := events[..|events| - 1], events[|events| - 1];
      var s := Exec(timeout, front);
      && PromptRun(timeout, front, i)
      && (i < |s.streams| && s.streams[i].handler.Resetting? ==> !e.Advance? || e.d == 0)
  }

  lemma {:induction false} UrgentRunsArePrompt(timeout: Time, events: seq<Event>, i: nat)
    requires UrgentRun(Initial(), timeout, events)
    ensures PromptRun(timeout, events, i)
  {
    hide Next;
    if events == [] {
    } else {
      UrgentRunsArePrompt(timeout, events[..|events| - 1], i);
    }
  }

  /** Every timer reset of the stream came at the instant of its check. */
  ghost predicate ResetsAtOnce(st: Stream, now: Time) {
    && (st.handler.Resetting? ==> st.handler.checkedAt == now)
    && forall k :: 0 <= k < |st.turns| && st.turns[k].Message? ==> st.turns[k].checkedAt == st.turns[k].resetAt
  }

  lemma ResetsAtOnceByMove(st: Stream, a: Action, now: Time, timeout: Time)
    requires Enabled(st, a, now) && ResetsAtOnce(st, now)
    ensures ResetsAtOnce(Move(st, a, now, timeout), now)
  {}

  lemma {:induction false} PromptRunResetsAtOnce(timeout: Time, events: seq<Event>, i: nat)
    requires PromptRun(timeout, events, i) && i < |Exec(timeout, events).streams|
    ensures ResetsAtOnce(Exec(timeout, events).streams[i], Exec(timeout, events).now)
  {
    hide Move, Enabled;
    if events == [] {
    } else {
      var front, e := events[..|events| - 1], events[|events| - 1];
      var s := Exec(timeout, front);
      if i < |s.streams| {
        PromptRunResetsAtOnce(timeout, front, i);
        if e.Act? && e.i == i && Possible(s, e) {
          ResetsAtOnceByMove(s.streams[i], e.a, s.now, timeout);
        }
      }
    }
  }

  lemma {:induction false} LastCountedIsTurn(turns: seq<Turn>)
    requires LastCounted(turns).Some?
    ensures exists k :: 0 <= k < |turns| && turns[k] == LastCounted(turns).value
  {
    var t := turns[|turns| - 1];
    if t.Message? && Countable(t.status) {
    } else {
      LastCountedIsTurn(turns[..|turns| - 1]);
    }
  }

  /** In every run in which no time passes between a check of the stream and its
      timer reset, a waiting handler's deadline is its latest counted check, or
      else its loop's start, plus the timeout. */
  lemma DeadlineIsLatestCheck(timeout: Time, events: seq<Event>, i: nat)
    requires PromptRun(timeout, events, i)
    requires i < |Exec(timeout, events).streams| && Exec(timeout, events).streams[i].handler.Selecting?
    ensures var st := Exec(timeout, events).streams[i];
            var n := |st.calls|;
            if CountCountable(st.consumed) == 0 then st.handler.timer == Armed(st.started + timeout)
            else n > 0 && st.calls[n - 1].Check? && st.handler.timer == Armed(st.calls[n - 1].at + timeout)
  {
    hide Exec, LastCounted, PromptRun;
    var st := Exec(timeout, events).streams[i];
    if CountCountable(st.consumed) == 0 {
      UncountedDeadlineIsLoopStart(timeout, events, i);
    } else {
      DeadlineIsLastReset(timeout, events, i);
      PromptRunResetsAtOnce(timeout, events, i);
      ReachableSound(timeout, events);
      assert StreamSound(st, Exec(timeout, events).now, timeout);
      LastCountedIsTurn(st.turns);
    }
  }
}
