/** End to end: a node that reports on time is never timed out, and the margin that
    guarantees this is exact. */
module NoFalseTimeout {
  import opened Words
  import opened Registry
  import opened HealthStream
  import opened HealthSystem

  const HEALTH_CHECK_INTERVAL_DIVISOR: int := 2

  /** Integer division as Go does it, truncating toward zero. */
  function TruncatedDiv(a: int, b: int): int
    requires b > 0
  {
    if a >= 0 then a / b else -((-a) / b)
  }

  /** The reporting period a node derives from the balancer's timeout. */
  function Period(timeout: Time): Time {
    TruncatedDiv(timeout, HEALTH_CHECK_INTERVAL_DIVISOR)
  }

  /** The period is half the timeout, rounded toward zero. */
  lemma PeriodIsHalf(timeout: Time)
    ensures 0 <= timeout ==> 2 * Period(timeout) <= timeout < 2 * Period(timeout) + 2
    ensures timeout <= 0 ==> 2 * Period(timeout) - 2 < timeout <= 2 * Period(timeout)
  {}

  /** The balancer's timeout, how much longer than the period a node's loop may
      take, within how long a report is delivered and processed, the node's key,
      and whatever happened on the balancer before the node connected. */
  datatype Setting = Setting(timeout: Time, slack: nat, delay: nat, key: string, before: seq<Event>)

  /** The balancer together with the times at which the node has sent reports. */
  datatype Link = Link(events: seq<Event>, sends: seq<Time>)

  datatype Step = Balance(e: Event) | SendReport

  function State(p: Setting, c: Link): Balancer {
    Exec(p.timeout, c.events)
  }

  /** The index of the node's stream. */
  function Watched(p: Setting): nat {
    |Exec(p.timeout, p.before).streams|
  }

  function Begin(p: Setting): Link {
    Link(p.before + [Connect(p.key)], [])
  }

  /** Reports whose processing is complete: consumed, and not between the message and the timer reset. */
  function Processed(st: Stream): int {
    |st.consumed| - if st.handler.Checking? || st.handler.Resetting? then 1 else 0
  }

  /** The node's loop sleeps for the period before it sends again. */
  predicate MaySend(p: Setting, sends: seq<Time>, now: Time) {
    sends == [] || sends[|sends| - 1] + Period(p.timeout) <= now
  }

  /** At time `t` the next report is not overdue: the loop takes at most the slack besides the period. */
  predicate NotOverdue(p: Setting, sends: seq<Time>, t: Time) {
    sends != [] ==> t <= sends[|sends| - 1] + Period(p.timeout) + p.slack
  }

  /** The three timing assumptions at time `t`: the node's next report is not
      overdue, the oldest report not yet processed is not older than the delay,
      and the first report is sent early enough to arrive within the delay before
      the first deadline. */
  predicate Punctual(p: Setting, st: Stream, sends: seq<Time>, t: Time) {
    && NotOverdue(p, sends, t)
    && (0 <= Processed(st) < |sends| ==> t <= sends[Processed(st)] + p.delay)
    && (st.handler.Selecting? && sends == [] ==> t + p.delay < st.base + p.timeout)
  }

  /** Which steps the setting admits. The node's stream receives just the reports
      sent, in full; no other stream uses its key; all other streams are free. */
  predicate Admitted(p: Setting, c: Link, step: Step) {
    var s := State(p, c);
    Watched(p) < |s.streams| &&
    var st := s.streams[Watched(p)];
    match step
    case SendReport => MaySend(p, c.sends, s.now)
    case Balance(e) =>
      match e
      case Connect(k) => k != p.key
      case Advance(d) => Punctual(p, st, c.sends, s.now + d)
      case Act(i, a) => i == Watched(p) && a.Receive? ==> a.r == Ok(SERVING) && |st.received| < |c.sends|
  }

  function Take(p: Setting, c: Link, step: Step): Link {
    if !Admitted(p, c, step) then c
    else
      match step
      case SendReport => c.(sends := c.sends + [State(p, c).now])
      case Balance(e) => c.(events := c.events + [e])
  }

  function Play(p: Setting, steps: seq<Step>): Link {
    if steps == [] then Begin(p) else Take(p, Play(p, steps[..|steps| - 1]), steps[|steps| - 1])
  }

  /** The node's report loop: before each pass it looks at the context, which is
      found cancelled from pass `cancelledAt` on; a pass sends a report, takes
      some time of its own and then sleeps for the period. */
  method ReportHealthLoop(timeout: Time, start: Time, overheads: seq<nat>, cancelledAt: nat) returns (sends: seq<Time>)
    ensures |sends| == if cancelledAt < |overheads| then cancelledAt else |overheads|
    ensures sends != [] ==> sends[0] == start
    ensures forall k :: 0 <= k < |sends| - 1 ==> sends[k + 1] == sends[k] + Period(timeout) + overheads[k]
    ensures 0 <= timeout ==> forall k :: 0 <= k < |sends| - 1 ==> sends[k + 1] == sends[k] + timeout / 2 + overheads[k]
  {
    sends := [];
    var now := start;
    var pass := 0;
    while pass < |overheads|
      invariant 0 <= pass <= |overheads|
      invariant |sends| == pass <= cancelledAt
      invariant now == if pass == 0 then start else sends[pass - 1] + Period(timeout) + overheads[pass - 1]
      invariant sends != [] ==> sends[0] == start
      invariant forall k :: 0 <= k < |sends| - 1 ==> sends[k + 1] == sends[k] + Period(timeout) + overheads[k]
    {
      if cancelledAt <= pass {
        return;
      }
      sends := sends + [now];
      now := now + overheads[pass] + Period(timeout);
      pass := pass + 1;
    }
  }

  /** A loop whose passes take at most the slack besides the period sends when it
      may and is never overdue up to then. */
  lemma LoopKeepsTime(p: Setting, overheads: seq<nat>, sends: seq<Time>, k: nat, t: Time)
    requires |sends| <= |overheads| && forall j :: 0 <= j < |overheads| ==> overheads[j] <= p.slack
    requires forall j :: 0 <= j < |sends| - 1 ==> sends[j + 1] == sends[j] + Period(p.timeout) + overheads[j]
    requires k < |sends| && t <= sends[k]
    ensures MaySend(p, sends[..k], sends[k]) && NotOverdue(p, sends[..k], t)
    ensures Spaced(p, sends)
  {
    if k > 0 {
      assert sends[k - 1 + 1] == sends[k - 1] + Period(p.timeout) + overheads[k - 1];
    }
  }

  // ---- the invariant ----

  /** Reports are at least the period and at most period plus slack apart. */
  ghost predicate Spaced(p: Setting, sends: seq<Time>) {
    forall k :: 0 <= k < |sends| - 1 ==> sends[k] + Period(p.timeout) <= sends[k + 1] <= sends[k] + Period(p.timeout) + p.slack
  }

  ghost predicate AllServing(rs: seq<Recv>) {
    forall k :: 0 <= k < |rs| ==> rs[k] == Ok(SERVING)
  }

  predicate NeverFails(h: Handler) {
    !h.Failing? && !h.Stuck? && (h.Exited? ==> h.reason == SetupFailed)
  }

  ghost predicate SendsInv(p: Setting, sends: seq<Time>, now: Time) {
    && Spaced(p, sends)
    && (forall k :: 0 <= k < |sends| ==> sends[k] <= now)
    && (sends != [] ==> now <= sends[|sends| - 1] + Period(p.timeout) + p.slack)
  }

  ghost predicate Content(st: Stream, sends: seq<Time>) {
    && AllServing(st.received) && |st.received| <= |sends|
    && NeverFails(st.handler)
    && 0 <= Processed(st) <= |st.consumed| <= |st.received|
  }

  ghost predicate Timing(p: Setting, st: Stream, sends: seq<Time>, now: Time)
    requires Content(st, sends)
  {
    && (Processed(st) < |sends| ==> now <= sends[Processed(st)] + p.delay)
    && (Processed(st) > 0 ==> sends[Processed(st) - 1] <= st.base)
    && (st.handler.Selecting? && Processed(st) == 0 ==>
          (if sends == [] then now else sends[0]) + p.delay < st.base + p.timeout)
  }

  ghost predicate StreamInv(p: Setting, st: Stream, sends: seq<Time>, now: Time) {
    StreamSound(st, now, p.timeout) && Content(st, sends) && Timing(p, st, sends, now)
  }

  /** The margin: the slack of the node's loop and the delay together are less
      than what half the timeout leaves of it. */
  predicate Margin(p: Setting) {
    p.slack + p.delay < p.timeout - p.timeout / 2
  }

  /** With the margin, the deadline is always in the future. */
  lemma DeadlineAhead(p: Setting, st: Stream, sends: seq<Time>, now: Time)
    requires Margin(p) && SendsInv(p, sends, now) && Content(st, sends) && Timing(p, st, sends, now)
    requires st.handler.Selecting?
    ensures now < st.base + p.timeout
  {}

  lemma {:induction false} ServingMessages(rs: seq<Recv>)
    requires AllServing(rs)
    ensures |Messages(rs)| == |rs| && (forall k :: 0 <= k < |rs| ==> Messages(rs)[k] == SERVING)
    ensures Errors(rs) == []
  {
    if rs == [] {
    } else {
      ServingMessages(rs[..|rs| - 1]);
    }
  }

  /** What conservation gives for a stream that received only serving reports. */
  lemma ServingStream(st: Stream)
    requires MessagesConserved(st) && ErrorsConserved(st) && AllServing(st.received)
    ensures |st.consumed| + |st.msgChan| + |HeldMessage(st.listener)| == |st.received|
    ensures st.errChan == [] && HeldError(st.listener) == []
    ensures forall k :: 0 <= k < |st.msgChan| ==> st.msgChan[k] == SERVING
  {
    hide Messages, Errors;
    ServingMessages(st.received);
    var all := st.consumed + st.msgChan + HeldMessage(st.listener);
    forall k | 0 <= k < |st.msgChan| ensures st.msgChan[k] == SERVING {
      assert st.msgChan[k] == all[|st.consumed| + k];
    }
  }

  lemma SoundServingStream(st: Stream, now: Time, timeout: Time)
    requires StreamSound(st, now, timeout) && AllServing(st.received)
    ensures |st.consumed| + |st.msgChan| + |HeldMessage(st.listener)| == |st.received|
    ensures st.errChan == [] && HeldError(st.listener) == []
    ensures forall k :: 0 <= k < |st.msgChan| ==> st.msgChan[k] == SERVING
    ensures st.handler.Selecting? || st.handler.Checking? || st.handler.Resetting? ==>
            st.handler.timer == Armed(st.base + timeout)
  {
    hide MessagesConserved, ErrorsConserved, TraceShape, ExitCause, ItemsInTurns, RunsLoop, HeldMessage, HeldError;
    ServingStream(st);
  }

  lemma StreamInvByMove(p: Setting, st: Stream, sends: seq<Time>, now: Time, a: Action)
    requires Margin(p) && SendsInv(p, sends, now) && StreamInv(p, st, sends, now)
    requires Enabled(st, a, now)
    requires a.Receive? ==> a.r == Ok(SERVING) && |st.received| < |sends|
    ensures StreamInv(p, Move(st, a, now, p.timeout), sends, now)
  {
    hide StreamSound, Move, Enabled;
    StreamByMove(st, a, now, p.timeout);
    SoundServingStream(st, now, p.timeout);
    if st.handler.Selecting? {
      DeadlineAhead(p, st, sends, now);
    }
    ContentByMove(p.timeout, st, sends, now, a);
    TimingByMove(p, st, sends, now, a);
  }

  /** A stream that received only serving reports goes on as long as its deadline is ahead. */
  lemma ContentByMove(timeout: Time, st: Stream, sends: seq<Time>, now: Time, a: Action)
    requires Content(st, sends) && Enabled(st, a, now)
    requires st.handler.Selecting? ==> now < st.base + timeout
    requires a.Receive? ==> a.r == Ok(SERVING) && |st.received| < |sends|
    requires |st.consumed| + |st.msgChan| + |HeldMessage(st.listener)| == |st.received|
    requires st.errChan == [] && HeldError(st.listener) == []
    requires forall k :: 0 <= k < |st.msgChan| ==> st.msgChan[k] == SERVING
    requires st.handler.Selecting? || st.handler.Checking? || st.handler.Resetting? ==>
               st.handler.timer == Armed(st.base + timeout)
    ensures Content(Move(st, a, now, timeout), sends)
  {}

  lemma TimingByMove(p: Setting, st: Stream, sends: seq<Time>, now: Time, a: Action)
    requires Margin(p) && SendsInv(p, sends, now) && Content(st, sends) && Timing(p, st, sends, now)
    requires Enabled(st, a, now) && Content(Move(st, a, now, p.timeout), sends)
    requires forall k :: 0 <= k < |st.msgChan| ==> st.msgChan[k] == SERVING
    ensures Timing(p, Move(st, a, now, p.timeout), sends, now)
  {
    PeriodIsHalf(p.timeout);
    hide Period;
  }

  // ---- the registry's view of the node ----

  /** The registry knows `key` once one of `calls` is made, and its streak counts the checks among them. */
  ghost predicate StreakCounts(v: View, calls: seq<Call>, key: string) {
    && (key in v <==> calls != [])
    && (key in v ==> v[key].streak == CheckCount(calls) % TWO64)
  }

  lemma OwnCall(v: View, calls: seq<Call>, key: string, c: Call)
    requires StreakCounts(v, calls, key) && c.key == key
    requires if calls == [] then c.Register? else c.Check?
    ensures StreakCounts(Apply(v, c), calls + [c], key)
  {}

  lemma OtherCall(v: View, calls: seq<Call>, key: string, c: Call)
    requires StreakCounts(v, calls, key) && c.key != key
    ensures StreakCounts(Apply(v, c), calls, key)
  {}

  /** Only stream `w` uses `key`, and the registry's streak for it counts that stream's checks. */
  ghost predicate StreakInv(s: Balancer, w: nat, key: string) {
    && w < |s.streams|
    && (forall j :: 0 <= j < |s.streams| ==> (s.streams[j].key == key <==> j == w))
    && StreakCounts(s.registry, s.streams[w].calls, key)
  }

  lemma StreakByAct(s: Balancer, i: nat, a: Action, timeout: Time, w: nat, key: string)
    requires StreakInv(s, w, key) && Possible(s, Act(i, a))
    requires TraceShape(s.streams[w]) && !s.streams[w].handler.Failing?
    ensures StreakInv(Next(s, Act(i, a), timeout), w, key)
  {
    hide Move, StreakCounts, Apply;
    var st := s.streams[i];
    MoveCalls(st, a, s.now, timeout);
    var call := CallOf(st, a, s.now);
    if call.Some? {
      if i == w {
        OwnCall(s.registry, st.calls, key, call.value);
      } else {
        OtherCall(s.registry, s.streams[w].calls, key, call.value);
      }
    }
  }

  lemma StreakByNext(s: Balancer, e: Event, timeout: Time, w: nat, key: string)
    requires StreakInv(s, w, key) && e != Connect(key)
    requires TraceShape(s.streams[w]) && !s.streams[w].handler.Failing?
    ensures StreakInv(Next(s, e, timeout), w, key)
  {
    if Possible(s, e) && e.Act? {
      StreakByAct(s, e.i, e.a, timeout, w, key);
    }
  }

  lemma {:induction false} KeyUnused(timeout: Time, events: seq<Event>, key: string)
    requires Connect(key) !in events
    ensures var s := Exec(timeout, events);
            key !in s.registry && forall j :: 0 <= j < |s.streams| ==> s.streams[j].key != key
  {
    if events == [] {
    } else {
      var front, e := events[..|events| - 1], events[|events| - 1];
      KeyUnused(timeout, front, key);
      var s := Exec(timeout, front);
      if Possible(s, e) && e.Act? {
        MoveCalls(s.streams[e.i], e.a, s.now, timeout);
      }
    }
  }

  // ---- whole runs ----

  ghost predicate LinkInv(p: Setting, c: Link) {
    var s := State(p, c);
    && StreakInv(s, Watched(p), p.key)
    && SendsInv(p, c.sends, s.now)
    && StreamInv(p, s.streams[Watched(p)], c.sends, s.now)
  }

  lemma BeginInv(p: Setting)
    requires Connect(p.key) !in p.before
    ensures LinkInv(p, Begin(p))
  {
    hide Exec, StreamSound, StreamInv, StreamsSound, LogSound;
    KeyUnused(p.timeout, p.before, p.key);
    ExecStep(p.timeout, p.before, Connect(p.key));
    ReachableSound(p.timeout, p.before);
    NewStreamInv(p, Exec(p.timeout, p.before).now);
  }

  lemma NewStreamInv(p: Setting, now: Time)
    requires now >= 0
    ensures StreamInv(p, NewStream(p.key), [], now)
  {
    hide StreamSound;
    NewStreamSound(p.key, now, p.timeout);
  }

  lemma SendKeeps(p: Setting, c: Link)
    requires Margin(p) && LinkInv(p, c) && Admitted(p, c, SendReport)
    ensures LinkInv(p, Take(p, c, SendReport))
  {
    PeriodIsHalf(p.timeout);
    hide StreamSound, Exec, Period, StreakInv;
  }

  lemma AdvanceKeeps(p: Setting, c: Link, d: nat)
    requires Margin(p) && LinkInv(p, c) && Admitted(p, c, Balance(Advance(d)))
    ensures LinkInv(p, Take(p, c, Balance(Advance(d))))
  {
    hide StreamSound, Exec;
    var s := State(p, c);
    ExecStep(p.timeout, c.events, Advance(d));
    SoundByWaiting(s.streams[Watched(p)], s.now, s.now + d, p.timeout);
  }

  lemma EventKeeps(p: Setting, c: Link, e: Event)
    requires Margin(p) && LinkInv(p, c) && Admitted(p, c, Balance(e)) && !e.Advance?
    ensures LinkInv(p, Take(p, c, Balance(e)))
  {
    hide Exec, Move, Enabled, SendsInv, Content, Timing, MessagesConserved, ErrorsConserved, TraceShape, TimerSound, ExitCause, Apply;
    var s, w := State(p, c), Watched(p);
    ExecStep(p.timeout, c.events, e);
    assert !s.streams[w].handler.Failing? by { FailingExcluded(s.streams[w], c.sends); }
    StreakByNext(s, e, p.timeout, w, p.key);
    if Possible(s, e) && e.Act? && e.i == w {
      StreamInvByMove(p, s.streams[w], c.sends, s.now, e.a);
    }
  }

  lemma FailingExcluded(st: Stream, sends: seq<Time>)
    requires Content(st, sends)
    ensures !st.handler.Failing?
  {}

  lemma {:induction false} PlayInv(p: Setting, steps: seq<Step>)
    requires Margin(p) && Connect(p.key) !in p.before
    ensures LinkInv(p, Play(p, steps))
  {
    hide LinkInv, Take, Admitted;
    if steps == [] {
      BeginInv(p);
    } else {
      var front, step := steps[..|steps| - 1], steps[|steps| - 1];
      PlayInv(p, front);
      TakeKeeps(p, Play(p, front), step);
    }
  }

  lemma TakeKeeps(p: Setting, c: Link, step: Step)
    requires Margin(p) && LinkInv(p, c)
    ensures LinkInv(p, Take(p, c, step))
  {
    hide LinkInv, Exec;
    if Admitted(p, c, step) {
      match step {
        case SendReport => SendKeeps(p, c);
        case Balance(e) =>
          if e.Advance? {
            AdvanceKeeps(p, c, e.d);
          } else {
            EventKeeps(p, c, e);
          }
      }
    }
  }

  /** In no run that meets the timing assumptions, however long and whatever the
      other streams do, does the node's stream fail or is the timeout branch even
      enabled; the node's reports, all of status 0, are half the timeout to half
      the timeout plus slack apart; and its streak is the number of its reports
      counted, which are all its consumed ones but for one whose check is due next. */
  lemma NeverTimedOut(p: Setting, steps: seq<Step>)
    requires Margin(p) && Connect(p.key) !in p.before
    ensures var s := State(p, Play(p, steps));
            && Watched(p) < |s.streams|
            && var st := s.streams[Watched(p)];
            && NeverFails(st.handler)
            && !Enabled(st, TakeTick, s.now)
            && (p.key in s.registry <==> st.calls != [])
            && (p.key in s.registry ==>
                  s.registry[p.key].streak == (|st.consumed| - if st.handler.Checking? then 1 else 0) % TWO64)
            && (forall k :: 0 <= k < |st.received| ==> st.received[k] == Ok(0))
    ensures var sends := Play(p, steps).sends;
            forall k :: 0 <= k < |sends| - 1 ==> p.timeout / 2 <= sends[k + 1] - sends[k] <= p.timeout / 2 + p.slack
  {
    hide Exec, StreamSound;
    var c := Play(p, steps);
    PlayInv(p, steps);
    StreamNeverTimedOut(p, State(p, c).streams[Watched(p)], c.sends, State(p, c).now);
  }

  lemma StreamNeverTimedOut(p: Setting, st: Stream, sends: seq<Time>, now: Time)
    requires Margin(p) && SendsInv(p, sends, now) && StreamInv(p, st, sends, now)
    ensures !Enabled(st, TakeTick, now)
    ensures st.calls != [] ==> CheckCount(st.calls) == |st.consumed| - if st.handler.Checking? then 1 else 0
  {
    hide SendsInv, Timing, ErrorsConserved, ExitCause, ItemsInTurns, RunsLoop, CountCountable;
    if st.handler.Selecting? {
      DeadlineAhead(p, st, sends, now);
    }
    ServingCount(st);
  }

  lemma ServingCount(st: Stream)
    requires MessagesConserved(st) && TraceShape(st) && AllServing(st.received)
    ensures st.calls != [] && !FailureReported(st.handler) ==>
            CheckCount(st.calls) == |st.consumed| - if st.handler.Checking? then 1 else 0
  {
    ServingMessages(st.received);
    assert st.consumed == Messages(st.received)[..|st.consumed|];
    AllCountable(st.consumed);
    if st.calls != [] && !FailureReported(st.handler) {
      CheckCountPrefix(st.calls, |st.calls|);
    }
  }

  lemma {:induction false} AllCountable(statuses: seq<uint32>)
    requires forall k :: 0 <= k < |statuses| ==> statuses[k] == SERVING
    ensures CountCountable(statuses) == |statuses|
  {
    if statuses == [] {
    } else {
      AllCountable(statuses[..|statuses| - 1]);
    }
  }
}
