/** The margin of NoFalseTimeout is exact, and punctual runs go on for as long as wanted. */
module MarginExact {
  import opened Registry
  import opened HealthStream
  import opened HealthSystem
  import opened NoFalseTimeout

  /** What a run shows of the node's stream. */
  datatype Sight = Sight(st: Stream, sends: seq<Time>, now: Time)

  ghost predicate Shows(p: Setting, steps: seq<Step>, o: Sight) {
    var c := Play(p, steps);
    var s := State(p, c);
    Watched(p) < |s.streams| && o == Sight(s.streams[Watched(p)], c.sends, s.now)
  }

  lemma PlayStep(p: Setting, steps: seq<Step>, step: Step)
    ensures Play(p, steps + [step]) == Take(p, Play(p, steps), step)
  {}

  /** The node's stream takes an action. */
  lemma Acts(p: Setting, steps: seq<Step>, o: Sight, a: Action) returns (steps': seq<Step>, o': Sight)
    requires Shows(p, steps, o) && Enabled(o.st, a, o.now)
    requires a.Receive? ==> a.r == Ok(SERVING) && |o.st.received| < |o.sends|
    ensures o' == o.(st := Move(o.st, a, o.now, p.timeout)) && Shows(p, steps', o')
  {
    hide Move, Enabled, Exec;
    var step := Balance(Act(Watched(p), a));
    steps' := steps + [step];
    o' := o.(st := Move(o.st, a, o.now, p.timeout));
    PlayStep(p, steps, step);
    ExecStep(p.timeout, Play(p, steps).events, step.e);
  }

  lemma Waits(p: Setting, steps: seq<Step>, o: Sight, d: nat) returns (steps': seq<Step>, o': Sight)
    requires Shows(p, steps, o) && Punctual(p, o.st, o.sends, o.now + d)
    ensures o' == o.(now := o.now + d) && Shows(p, steps', o')
  {
    hide Exec;
    var step := Balance(Advance(d));
    steps' := steps + [step];
    o' := o.(now := o.now + d);
    PlayStep(p, steps, step);
    ExecStep(p.timeout, Play(p, steps).events, step.e);
  }

  lemma Sends(p: Setting, steps: seq<Step>, o: Sight) returns (steps': seq<Step>, o': Sight)
    requires Shows(p, steps, o)
    requires MaySend(p, o.sends, o.now)
    ensures o' == o.(sends := o.sends + [o.now]) && Shows(p, steps', o')
  {
    hide Exec;
    steps' := steps + [SendReport];
    o' := o.(sends := o.sends + [o.now]);
    PlayStep(p, steps, SendReport);
  }

  lemma Connects(p: Setting) returns (steps: seq<Step>, o: Sight)
    ensures Shows(p, steps, o) && o.sends == [] && o.st == NewStream(p.key)
    ensures o.now == Exec(p.timeout, p.before).now
  {
    steps := [];
    ExecStep(p.timeout, p.before, Connect(p.key));
    o := Sight(NewStream(p.key), [], Exec(p.timeout, p.before).now);
  }

  /** The stream is registered and its timer runs. */
  lemma Starts(p: Setting) returns (steps: seq<Step>, o: Sight)
    ensures Shows(p, steps, o) && o.sends == [] && o.now == Exec(p.timeout, p.before).now
    ensures o.st == NewStream(p.key).(handler := Selecting(Armed(o.now + p.timeout)), started := o.now, base := o.now, calls := [Register(p.key)])
  {
    hide Shows, Exec;
    steps, o := Connects(p);
    steps, o := Acts(p, steps, o, DoRegister);
    steps, o := Acts(p, steps, o, Spawn);
    steps, o := Acts(p, steps, o, StartTimer);
  }

  /** The handler waits with nothing under way after `n` reports processed. */
  ghost predicate Rested(p: Setting, st: Stream, n: nat) {
    && st.handler == Selecting(Armed(st.base + p.timeout))
    && st.listener == Waiting && st.msgChan == [] && st.errChan == []
    && |st.consumed| == |st.received| == n
  }

  /** A report is sent and processed at once. */
  lemma ReportsAtOnce(p: Setting, steps: seq<Step>, o: Sight, n: nat) returns (steps': seq<Step>, o': Sight)
    requires Shows(p, steps, o) && MaySend(p, o.sends, o.now) && Rested(p, o.st, n) && |o.sends| == n
    ensures Shows(p, steps', o') && o'.sends == o.sends + [o.now] && o'.now == o.now
    ensures Rested(p, o'.st, n + 1) && o'.st.base == o.now
  {
    hide Shows;
    steps', o' := Sends(p, steps, o);
    steps', o' := Acts(p, steps', o', Receive(Ok(SERVING)));
    steps', o' := Acts(p, steps', o', PutMsg);
    steps', o' := Acts(p, steps', o', TakeMsg);
    steps', o' := Acts(p, steps', o', DoCheck);
    steps', o' := Acts(p, steps', o', DoReset);
  }

  /** Punctual runs make progress: for every `n` there is one in which `n` reports
      have been processed and `n` periods have passed since the connection. */
  lemma {:induction false} PunctualRunsGoOn(p: Setting, n: nat) returns (steps: seq<Step>, o: Sight)
    requires 0 < p.timeout
    ensures Shows(p, steps, o) && Rested(p, o.st, n) && |o.sends| == n && MaySend(p, o.sends, o.now)
    ensures o.now == Exec(p.timeout, p.before).now + n * Period(p.timeout)
  {
    hide Shows, Exec;
    if n == 0 {
      steps, o := Starts(p);
    } else {
      steps, o := PunctualRunsGoOn(p, n - 1);
      steps, o := ReportsAtOnce(p, steps, o, n - 1);
      steps, o := Waits(p, steps, o, Period(p.timeout));
      assert (n - 1) * Period(p.timeout) + Period(p.timeout) == n * Period(p.timeout);
    }
  }

  /** After a report processed at once, the deadline can be reached. */
  lemma ReachesDeadline(p: Setting) returns (steps: seq<Step>, o: Sight)
    requires !Margin(p) && 0 < p.timeout && 0 < Period(p.timeout) + p.slack
    ensures Shows(p, steps, o) && Enabled(o.st, TakeTick, o.now)
  {
    hide Shows;
    steps, o := Starts(p);
    steps, o := ReportsAtOnce(p, steps, o, 0);
    var first := o.now;
    var gap := Period(p.timeout) + p.slack;
    if p.timeout <= gap {
      steps, o := Waits(p, steps, o, p.timeout);
    } else {
      steps, o := Waits(p, steps, o, gap);
      steps, o := Sends(p, steps, o);
      if p.timeout <= gap + gap {
        steps, o := Waits(p, steps, o, p.timeout - gap);
      } else {
        steps, o := Waits(p, steps, o, gap);
        steps, o := Sends(p, steps, o);
        steps, o := Waits(p, steps, o, p.timeout - gap - gap);
      }
    }
    assert o.now == first + p.timeout;
  }

  // ---- a timeout of one nanosecond ----

  /** With a timeout of 1 the period is 0; a node whose loop takes no time at all
      then never lets time pass between its reports. */
  predicate Timeless(p: Setting) {
    p.timeout == 1 && p.slack == 0
  }

  /** Every report was sent now, and a waiting handler's timer was started now. */
  ghost predicate Frozen(p: Setting, st: Stream, sends: seq<Time>, now: Time) {
    && StreamSound(st, now, p.timeout) && Content(st, sends)
    && (forall k :: 0 <= k < |sends| ==> sends[k] == now)
    && (st.handler.Selecting? ==> st.base == now)
  }

  lemma FrozenByMove(p: Setting, st: Stream, sends: seq<Time>, now: Time, a: Action)
    requires Timeless(p) && Frozen(p, st, sends, now) && Enabled(st, a, now)
    requires a.Receive? ==> a.r == Ok(SERVING) && |st.received| < |sends|
    ensures Frozen(p, Move(st, a, now, p.timeout), sends, now)
  {
    hide StreamSound;
    StreamByMove(st, a, now, p.timeout);
    SoundServingStream(st, now, p.timeout);
    ContentByMove(p.timeout, st, sends, now, a);
  }

  ghost predicate FrozenLink(p: Setting, c: Link) {
    var s := State(p, c);
    Watched(p) < |s.streams| && Frozen(p, s.streams[Watched(p)], c.sends, s.now)
  }

  lemma FrozenByTake(p: Setting, c: Link, step: Step)
    requires Timeless(p) && !Margin(p) && FrozenLink(p, c)
    ensures FrozenLink(p, Take(p, c, step))
  {
    hide Exec, StreamSound, Move, Enabled;
    if Admitted(p, c, step) && step.Balance? {
      var s, w := State(p, c), Watched(p);
      ExecStep(p.timeout, c.events, step.e);
      match step.e {
        case Advance(d) => SoundByWaiting(s.streams[w], s.now, s.now + d, p.timeout);
        case Act(i, a) =>
          if Possible(s, step.e) && i == w {
            FrozenByMove(p, s.streams[w], c.sends, s.now, a);
          }
        case Connect(_) =>
      }
    }
  }

  lemma {:induction false} FrozenRun(p: Setting, steps: seq<Step>)
    requires Timeless(p) && !Margin(p) && Connect(p.key) !in p.before
    ensures FrozenLink(p, Play(p, steps))
  {
    if steps == [] {
      BeginInv(p);
    } else {
      hide FrozenLink, Take;
      FrozenRun(p, steps[..|steps| - 1]);
      FrozenByTake(p, Play(p, steps[..|steps| - 1]), steps[|steps| - 1]);
    }
  }

  /** Punctual runs never fail the node exactly when slack and delay stay below
      what half the timeout leaves of it, or the timeout is 1 ns, its half is 0,
      and the loop takes no time. */
  lemma MarginIsExact(p: Setting)
    requires Connect(p.key) !in p.before
    ensures p.slack + p.delay < p.timeout - p.timeout / 2 || (p.timeout == 1 && p.slack == 0) <==>
            forall steps, o :: Shows(p, steps, o) ==> NeverFails(o.st.handler)
  {
    if Margin(p) || Timeless(p) {
      forall steps, o | Shows(p, steps, o) ensures NeverFails(o.st.handler) {
        if Margin(p) {
          NeverTimedOut(p, steps);
        } else {
          FrozenRun(p, steps);
        }
      }
    } else {
      var steps, o;
      if 0 < p.timeout {
        steps, o := ReachesDeadline(p);
      } else {
        steps, o := Starts(p);
      }
      steps, o := Acts(p, steps, o, TakeTick);
      assert Shows(p, steps, o) && !NeverFails(o.st.handler);
    }
  }
}
