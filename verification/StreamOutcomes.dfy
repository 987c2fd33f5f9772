/** What a health stream makes of what it receives, in every run, with the gRPC
    codes (1 Canceled, 14 Unavailable) and statuses (1 not serving, 2 shutting
    down) written out. */
module StreamOutcomes {
  import opened Words
  import opened Registry
  import opened HealthStream
  import opened HealthSystem
  import ClosedStream

  /** The receive results that reach the message channel: all but errors 1 and 14. */
  function Kept(rs: seq<Recv>): seq<Recv> {
    if rs == [] then []
    else Kept(rs[..|rs| - 1]) + if rs[|rs| - 1] == Err(1) || rs[|rs| - 1] == Err(14) then [] else [rs[|rs| - 1]]
  }

  /** The status of a request; any error comes with a nil request, which reads as 0. */
  function Reads(r: Recv): uint32 {
    if r.Ok? then r.status else 0
  }

  lemma {:induction false} MessagesAreKept(rs: seq<Recv>)
    ensures |Messages(rs)| == |Kept(rs)|
    ensures forall k :: 0 <= k < |Kept(rs)| ==> Messages(rs)[k] == Reads(Kept(rs)[k])
  {
    if rs == [] {
    } else {
      MessagesAreKept(rs[..|rs| - 1]);
    }
  }

  /** In every run the handler has consumed, in order, the requests received, with
      a request of status 0 for every error but 1 and 14; and it is at most two
      messages and two errors behind: one in each channel, one in the listener's hand. */
  lemma ConsumedAreReceived(timeout: Time, events: seq<Event>, i: nat)
    requires i < |Exec(timeout, events).streams|
    ensures var st := Exec(timeout, events).streams[i];
            && |st.consumed| <= |Kept(st.received)| <= |st.consumed| + 2
            && (forall k :: 0 <= k < |st.consumed| ==> st.consumed[k] == Reads(Kept(st.received)[k]))
            && |st.errors| <= |Errors(st.received)| <= |st.errors| + 2
            && st.errors == Errors(st.received)[..|st.errors|]
  {
    hide Exec, TraceShape, ExitCause, TimerSound, ItemsInTurns, RunsLoop, Kept;
    ReachableSound(timeout, events);
    var st := Exec(timeout, events).streams[i];
    assert StreamSound(st, Exec(timeout, events).now, timeout);
    MessagesAreKept(st.received);
    assert st.consumed == Messages(st.received)[..|st.consumed|];
  }

  /** The statuses other than not serving and shutting down. */
  function Served(statuses: seq<uint32>): nat {
    if statuses == [] then 0
    else Served(statuses[..|statuses| - 1]) + if statuses[|statuses| - 1] == 1 || statuses[|statuses| - 1] == 2 then 0 else 1
  }

  lemma {:induction false} ServedIsCountable(statuses: seq<uint32>)
    ensures CountCountable(statuses) == Served(statuses)
  {
    if statuses == [] {
    } else {
      ServedIsCountable(statuses[..|statuses| - 1]);
    }
  }

  /** In every run the checks reported are the messages consumed with a status
      other than 1 and 2, but for one whose check is due next. */
  lemma ChecksAreServed(timeout: Time, events: seq<Event>, i: nat)
    requires i < |Exec(timeout, events).streams|
    ensures var st := Exec(timeout, events).streams[i];
            CheckCount(st.calls) + (if st.handler.Checking? then 1 else 0) == Served(st.consumed)
  {
    hide Exec, MessagesConserved, ErrorsConserved, ExitCause, TimerSound, ItemsInTurns, RunsLoop;
    ReachableSound(timeout, events);
    var st := Exec(timeout, events).streams[i];
    assert StreamSound(st, Exec(timeout, events).now, timeout);
    ServedIsCountable(st.consumed);
    if st.calls != [] {
      CheckCountPrefix(st.calls, |st.calls| - if FailureReported(st.handler) then 1 else 0);
    }
  }

  /** The handler has left, or is leaving, because of the error `code`. */
  predicate EndedBy(h: Handler, code: nat) {
    h == Failing(StreamError(code)) || h == Exited(StreamError(code))
  }

  /** In every run: an error ends the stream exactly when it is the last one
      consumed and has code 1 or 14, and none before it has; a message ends the
      stream exactly when it is the last one consumed and has status 2, and none
      before it has; and the last call is the failure exactly after an error or a
      timeout, never after a shutdown. */
  lemma OutcomeExactly(timeout: Time, events: seq<Event>, i: nat)
    requires i < |Exec(timeout, events).streams|
    ensures var st := Exec(timeout, events).streams[i];
            var n, m, c := |st.errors|, |st.consumed|, |st.calls|;
            && (forall code :: EndedBy(st.handler, code) <==> n > 0 && st.errors[n - 1] == code && (code == 1 || code == 14))
            && (forall k :: 0 <= k < n - 1 ==> st.errors[k] != 1 && st.errors[k] != 14)
            && (st.handler == Exited(Shutdown) <==> m > 0 && st.consumed[m - 1] == 2)
            && (forall k :: 0 <= k < m - 1 ==> st.consumed[k] != 2)
            && (c > 0 && st.calls[c - 1] == Failure(st.key) <==>
                st.handler == Exited(TimedOut) || (st.handler.Exited? && st.handler.reason.StreamError?))
  {
    hide Exec, MessagesConserved, ErrorsConserved, TimerSound, ItemsInTurns, RunsLoop, CountCountable;
    ReachableSound(timeout, events);
    var st := Exec(timeout, events).streams[i];
    assert StreamSound(st, Exec(timeout, events).now, timeout);
  }

  // ---- the two goroutines ----

  predicate ByListener(a: Action) {
    a.Receive? || a.PutErr? || a.PutMsg?
  }

  /** Listener and handler do not get in each other's way: where each can take a
      step and the handler's does not end the stream, neither step takes away the
      other, and their order makes no difference. */
  lemma StepsCommute(st: Stream, a: Action, b: Action, now: Time, timeout: Time)
    requires ByListener(a) && !ByListener(b) && Enabled(st, a, now) && Enabled(st, b, now)
    requires !Move(st, b, now, timeout).handler.Exited?
    ensures var afterA, afterB := Move(st, a, now, timeout), Move(st, b, now, timeout);
            && Enabled(afterA, b, now) && Enabled(afterB, a, now)
            && Move(afterA, b, now, timeout) == Move(afterB, a, now, timeout)
  {}

  /** The race in the select is real, even when timers fire on time: there is a run
      in which a report, error 14 and the tick are ready at once, and any of the
      three can be taken. */
  lemma SelectRace(timeout: Time, key: string) returns (events: seq<Event>, st: Stream)
    requires 0 <= timeout
    ensures ClosedStream.Shows(timeout, events, st, timeout)
    ensures st.msgChan == [0] && st.errChan == [14]
    ensures Enabled(st, TakeMsg, timeout) && Enabled(st, TakeErr, timeout) && Enabled(st, TakeTick, timeout)
  {
    hide ClosedStream.Shows;
    events, st := ClosedStream.Arrives(timeout, key);
    events, st := ClosedStream.Acts(timeout, events, st, 0, DoRegister);
    events, st := ClosedStream.Acts(timeout, events, st, 0, Spawn);
    events, st := ClosedStream.Acts(timeout, events, st, 0, Receive(Ok(0)));
    events, st := ClosedStream.Acts(timeout, events, st, 0, PutMsg);
    events, st := ClosedStream.Acts(timeout, events, st, 0, Receive(Err(14)));
    events, st := ClosedStream.Acts(timeout, events, st, 0, PutErr);
    events, st := ClosedStream.Acts(timeout, events, st, 0, StartTimer);
    events := ClosedStream.Waits(timeout, events, st, 0, timeout);
  }
}
