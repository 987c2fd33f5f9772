/** A stream that its node has closed: receiving then gives io.EOF over and over,
    which is a recoverable error. */
module ClosedStream {
  import opened Registry
  import opened HealthStream
  import opened HealthSystem
  import opened HealthTiming

  /** `status.Code` of an error that carries no gRPC status, such as io.EOF. */
  const UNKNOWN: nat := 2

  /** An urgent run, in which timers fire when they run out, that ends at `now`
      with the single stream `st`. */
  ghost predicate Shows(timeout: Time, events: seq<Event>, st: Stream, now: Time) {
    var s := Exec(timeout, events);
    UrgentRun(Initial(), timeout, events) && |s.streams| == 1 && s.streams[0] == st && s.now == now
  }

  lemma UrgentStep(timeout: Time, events: seq<Event>, e: Event)
    requires UrgentRun(Initial(), timeout, events) && Urgent(Exec(timeout, events), e)
    ensures UrgentRun(Initial(), timeout, events + [e])
  {
    assert (events + [e])[..|events|] == events;
  }

  lemma Acts(timeout: Time, events: seq<Event>, st: Stream, now: Time, a: Action) returns (events': seq<Event>, st': Stream)
    requires Shows(timeout, events, st, now) && Enabled(st, a, now)
    ensures st' == Move(st, a, now, timeout) && Shows(timeout, events', st', now)
  {
    hide Move, Enabled, Exec, UrgentRun;
    events' := events + [Act(0, a)];
    st' := Move(st, a, now, timeout);
    ExecStep(timeout, events, Act(0, a));
    UrgentStep(timeout, events, Act(0, a));
  }

  /** Time passes up to the deadline of the waiting handler. */
  lemma Waits(timeout: Time, events: seq<Event>, st: Stream, now: Time, d: nat) returns (events': seq<Event>)
    requires Shows(timeout, events, st, now)
    requires st.handler.Selecting? && st.handler.timer.Armed? && now + d <= st.handler.timer.at
    ensures Shows(timeout, events', st, now + d)
  {
    hide Exec, UrgentRun;
    events' := events + [Advance(d)];
    ExecStep(timeout, events, Advance(d));
    UrgentStep(timeout, events, Advance(d));
  }

  /** The handler waits until `at`, nothing is under way, `n` results were received,
      none of them a report, and `n` checks were made. */
  ghost predicate Idle(st: Stream, n: nat, at: Time) {
    && st.handler == Selecting(Armed(at))
    && st.listener == Waiting && st.msgChan == [] && st.errChan == []
    && |st.received| == n && Reports(st.received) == 0 && CheckCount(st.calls) == n
  }

  lemma Arrives(timeout: Time, key: string) returns (events: seq<Event>, st: Stream)
    ensures Shows(timeout, events, st, 0) && st == NewStream(key)
  {
    events, st := [] + [Connect(key)], NewStream(key);
    ExecStep(timeout, [], Connect(key));
    UrgentStep(timeout, [], Connect(key));
  }

  lemma Starts(timeout: Time, key: string) returns (events: seq<Event>, st: Stream)
    ensures Shows(timeout, events, st, 0) && Idle(st, 0, timeout)
  {
    hide Shows, Idle;
    events, st := Arrives(timeout, key);
    events, st := Acts(timeout, events, st, 0, DoRegister);
    events, st := Acts(timeout, events, st, 0, Spawn);
    events, st := Acts(timeout, events, st, 0, StartTimer);
    NothingYet(st, timeout);
  }

  lemma NothingYet(st: Stream, at: Time)
    requires st.handler == Selecting(Armed(at))
    requires st.listener == Waiting && st.msgChan == [] && st.errChan == []
    requires st.received == [] && st.calls == [] + [Register(st.key)]
    ensures Idle(st, 0, at)
  {}

  /** One receive result io.EOF is worked off and counted. */
  lemma Round(timeout: Time, events: seq<Event>, st: Stream, now: Time, n: nat, at: Time) returns (events': seq<Event>, st': Stream)
    requires Shows(timeout, events, st, now) && Idle(st, n, at)
    ensures Shows(timeout, events', st', now) && Idle(st', n + 1, now + timeout)
  {
    hide Shows;
    events', st' := Acts(timeout, events, st, now, Receive(Err(UNKNOWN)));
    assert st'.received[..n] == st.received;
    events', st' := Acts(timeout, events', st', now, PutErr);
    events', st' := Acts(timeout, events', st', now, TakeErr);
    events', st' := Acts(timeout, events', st', now, PutMsg);
    events', st' := Acts(timeout, events', st', now, TakeMsg);
    events', st' := Acts(timeout, events', st', now, DoCheck);
    assert st'.calls[..|st.calls|] == st.calls;
    events', st' := Acts(timeout, events', st', now, DoReset);
  }

  /** Health is not evidence of life, even when every timer fires on time: for
      every `n`, and every `d` up to the timeout, there is an urgent run in which
      the node has sent no report for `n * d` and yet its stream is still served,
      has counted `n` checks, and has its deadline a full timeout ahead. */
  lemma {:induction false} ClosedStreamStaysHealthy(timeout: Time, key: string, n: nat, d: nat) returns (events: seq<Event>, st: Stream)
    requires d <= timeout
    ensures Shows(timeout, events, st, n * d) && Idle(st, n, n * d + timeout)
  {
    hide Shows;
    if n == 0 {
      events, st := Starts(timeout, key);
    } else {
      events, st := ClosedStreamStaysHealthy(timeout, key, n - 1, d);
      events := Waits(timeout, events, st, (n - 1) * d, d);
      assert (n - 1) * d + d == n * d;
      events, st := Round(timeout, events, st, n * d, n - 1, (n - 1) * d + timeout);
    }
  }
}
