/** One health stream on the balancer: the listener that receives, the two
    one-slot channels, and the handler that registers the node and multiplexes
    messages, errors and the timer. Every step either party can take by itself
    is a separate action, so an interleaving is a sequence of actions. */
module HealthStream {
  import opened Words
  import opened Registry

  const SERVING: uint32 := 0
  const NOT_SERVING: uint32 := 1
  const SHUTTING_DOWN: uint32 := 2

  const CANCELED: nat := 1
  const UNAVAILABLE: nat := 14

  const CHANNEL_BUFFER_SIZE: nat := 1

  /** What `stream.Recv` gives: a request, or an error with its gRPC code and a nil request. */
  datatype Recv = Ok(status: uint32) | Err(code: nat)

  predicate Unrecoverable(code: nat) {
    code == CANCELED || code == UNAVAILABLE
  }

  predicate Fatal(r: Recv) {
    r.Err? && Unrecoverable(r.code)
  }

  /** `GetStatus` of the request; a nil request reads as status 0. */
  function StatusOf(r: Recv): uint32 {
    match r
    case Ok(status) => status
    case Err(_) => 0
  }

  /** Every status but these two counts as a health check. */
  predicate Countable(status: uint32) {
    status != NOT_SERVING && status != SHUTTING_DOWN
  }

  datatype Listener = Waiting | SendingFatal(code: nat) | SendingErr(code: nat) | SendingMsg(status: uint32) | Gone

  /** Since Go 1.23 `Stop` reports false only for a timer whose tick has been received. */
  datatype Timer = Armed(at: Time) | Spent

  datatype Reason = SetupFailed | Shutdown | StreamError(code: nat) | TimedOut

  datatype Handler =
    | Connecting
    | Registered
    | Spawned
    | Selecting(timer: Timer)
    | Checking(timer: Timer, status: uint32)
    | Resetting(timer: Timer, status: uint32, checkedAt: Time)
    | Failing(reason: Reason)
    | Stuck
    | Exited(reason: Reason)

  /** What one pass of the multiplexing loop took from its `select`: a message,
      with the times of the check and the timer reset it led to (if it counts),
      an error, or the tick of the timer. */
  datatype Turn = Message(status: uint32, checkedAt: Time, resetAt: Time) | Error(code: nat) | Expiry(at: Time)

  /** `received`, `consumed`, `errors`, `calls` and `turns` are histories, the last
      of the passes completed; `started` is when the loop began, `base` when the
      timer was last started and `left` when the loop was left for good. */
  datatype Stream = Stream(
    key: string,
    listener: Listener,
    msgChan: seq<uint32>,
    errChan: seq<nat>,
    handler: Handler,
    received: seq<Recv>,
    consumed: seq<uint32>,
    errors: seq<nat>,
    calls: seq<Call>,
    turns: seq<Turn>,
    started: Time,
    base: Time,
    left: Time)

  function NewStream(key: string): Stream {
    Stream(key, Waiting, [], [], Connecting, [], [], [], [], [], 0, 0, 0)
  }

  datatype Action =
    | FailSetup | DoRegister | Spawn | StartTimer
    | Receive(r: Recv) | PutErr | PutMsg
    | TakeMsg | TakeErr | TakeTick
    | DoCheck | DoReset | DoFail

  predicate ListenerRuns(h: Handler) {
    !h.Connecting? && !h.Registered? && !h.Exited?
  }

  predicate Enabled(st: Stream, a: Action, now: Time) {
    match a
    case FailSetup => st.handler.Connecting?
    case DoRegister => st.handler.Connecting?
    case Spawn => st.handler.Registered?
    case StartTimer => st.handler.Spawned?
    case Receive(_) => ListenerRuns(st.handler) && st.listener.Waiting?
    case PutErr => ListenerRuns(st.handler) && |st.errChan| < CHANNEL_BUFFER_SIZE
                   && (st.listener.SendingErr? || st.listener.SendingFatal?)
    case PutMsg => ListenerRuns(st.handler) && |st.msgChan| < CHANNEL_BUFFER_SIZE && st.listener.SendingMsg?
    case TakeMsg => st.handler.Selecting? && st.msgChan != []
    case TakeErr => st.handler.Selecting? && st.errChan != []
    case TakeTick => st.handler.Selecting? && st.handler.timer.Armed? && st.handler.timer.at <= now
    case DoCheck => st.handler.Checking?
    case DoReset => st.handler.Resetting?
    case DoFail => st.handler.Failing?
  }

  /** The registry call that an enabled action makes. */
  function CallOf(st: Stream, a: Action, now: Time): Option<Call> {
    match a
    case DoRegister => Some(Register(st.key))
    case DoCheck => Some(Check(st.key, now))
    case DoFail => Some(Failure(st.key))
    case _ => None
  }

  function Move(st: Stream, a: Action, now: Time, timeout: Time): Stream
    requires Enabled(st, a, now)
  {
    match a
    case FailSetup => st.(handler := Exited(SetupFailed))
    case DoRegister => st.(handler := Registered, calls := st.calls + [Register(st.key)])
    case Spawn => st.(handler := Spawned)
    case StartTimer => st.(handler := Selecting(Armed(now + timeout)), started := now, base := now)
    case Receive(r) =>
      st.(received := st.received + [r],
          listener := if Fatal(r) then SendingFatal(r.code)
                      else if r.Err? then SendingErr(r.code)
                      else SendingMsg(r.status))
    case PutErr =>
      st.(errChan := st.errChan + [st.listener.code],
          listener := if st.listener.SendingFatal? then Gone else SendingMsg(0))
    case PutMsg => st.(msgChan := st.msgChan + [st.listener.status], listener := Waiting)
    case TakeMsg =>
      var status := st.msgChan[0];
      var taken := st.(msgChan := st.msgChan[1..], consumed := st.consumed + [status]);
      if Countable(status) then taken.(handler := Checking(st.handler.timer, status))
      else
        var passed := taken.(turns := st.turns + [Message(status, now, now)]);
        if status == NOT_SERVING then passed else passed.(handler := Exited(Shutdown), left := now)
    case TakeErr =>
      var code := st.errChan[0];
      var taken := st.(errChan := st.errChan[1..], errors := st.errors + [code]);
      if Unrecoverable(code) then taken.(handler := Failing(StreamError(code)), left := now)
      else taken.(turns := st.turns + [Error(code)])
    case TakeTick => st.(handler := Failing(TimedOut), left := now)
    case DoCheck =>
      st.(handler := Resetting(st.handler.timer, st.handler.status, now), calls := st.calls + [Check(st.key, now)])
    case DoReset =>
      if st.handler.timer.Armed? then
        st.(handler := Selecting(Armed(now + timeout)), base := now,
            turns := st.turns + [Message(st.handler.status, st.handler.checkedAt, now)])
      else st.(handler := Stuck)
    case DoFail =>
      st.(handler := Exited(st.handler.reason), calls := st.calls + [Failure(st.key)],
          turns := st.turns + [LastTurn(st.handler.reason, st.left)])
  }

  /** The pass that ended the loop with a failure. */
  function LastTurn(reason: Reason, left: Time): Turn {
    match reason
    case StreamError(code) => Error(code)
    case _ => Expiry(left)
  }

  // ---- conservation ----

  /** The messages that the receive results put on the message channel, in order. */
  function Messages(rs: seq<Recv>): seq<uint32> {
    if rs == [] then []
    else Messages(rs[..|rs| - 1]) + if Fatal(rs[|rs| - 1]) then [] else [StatusOf(rs[|rs| - 1])]
  }

  /** The codes that the receive results put on the error channel, in order. */
  function Errors(rs: seq<Recv>): seq<nat> {
    if rs == [] then []
    else Errors(rs[..|rs| - 1]) + if rs[|rs| - 1].Err? then [rs[|rs| - 1].code] else []
  }

  function HeldMessage(l: Listener): seq<uint32> {
    match l
    case SendingMsg(status) => [status]
    case SendingErr(_) => [0]
    case _ => []
  }

  function HeldError(l: Listener): seq<nat> {
    match l
    case SendingErr(code) => [code]
    case SendingFatal(code) => [code]
    case _ => []
  }

  /** Nothing is lost, repeated or reordered on the way to the handler: what it
      consumed, then the at most one message buffered, then the one the listener
      may hold, is what the receive results put on the message channel. */
  ghost predicate MessagesConserved(st: Stream) {
    && |st.msgChan| <= CHANNEL_BUFFER_SIZE
    && st.consumed + st.msgChan + HeldMessage(st.listener) == Messages(st.received)
  }

  /** The same for the error channel. */
  ghost predicate ErrorsConserved(st: Stream) {
    && |st.errChan| <= CHANNEL_BUFFER_SIZE
    && st.errors + st.errChan + HeldError(st.listener) == Errors(st.received)
  }

  lemma MessagesByMove(st: Stream, a: Action, now: Time, timeout: Time)
    requires Enabled(st, a, now) && MessagesConserved(st)
    ensures MessagesConserved(Move(st, a, now, timeout))
  {
    hide Messages;
    var st' := Move(st, a, now, timeout);
    if a.Receive? {
      MessagesStep(st.received, a.r);
    } else if a.TakeMsg? {
      assert st.consumed + st.msgChan == st'.consumed + st'.msgChan;
    }
  }

  lemma MessagesStep(rs: seq<Recv>, r: Recv)
    ensures Messages(rs + [r]) == Messages(rs) + if Fatal(r) then [] else [StatusOf(r)]
    ensures Errors(rs + [r]) == Errors(rs) + if r.Err? then [r.code] else []
  {
    assert (rs + [r])[..|rs|] == rs;
  }

  lemma ErrorsByMove(st: Stream, a: Action, now: Time, timeout: Time)
    requires Enabled(st, a, now) && ErrorsConserved(st)
    ensures ErrorsConserved(Move(st, a, now, timeout))
  {
    hide Errors;
    var st' := Move(st, a, now, timeout);
    if a.Receive? {
      MessagesStep(st.received, a.r);
    } else if a.TakeErr? {
      assert st.errors + st.errChan == st'.errors + st'.errChan;
    }
  }

  function CountCountable(statuses: seq<uint32>): nat {
    if statuses == [] then 0
    else CountCountable(statuses[..|statuses| - 1]) + if Countable(statuses[|statuses| - 1]) then 1 else 0
  }

  lemma {:induction false} CountConcat(a: seq<uint32>, b: seq<uint32>)
    ensures CountCountable(a + b) == CountCountable(a) + CountCountable(b)
  {
    if b == [] {
      assert a + b == a;
    } else {
      var whole := a + b;
      assert whole[..|whole| - 1] == a + b[..|b| - 1];
      CountConcat(a, b[..|b| - 1]);
    }
  }

  // ---- the shape of the registry calls, and the timer ----

  predicate FailureReported(h: Handler) {
    h.Exited? && (h.reason.TimedOut? || h.reason.StreamError?)
  }

  /** Before registration there is no call; afterwards there is the registration,
      then one check for each countable message consumed (but for the one whose
      check is due next), then a failure exactly if the handler has left because
      of a timeout or an unrecoverable error. */
  ghost predicate TraceShape(st: Stream) {
    var n := |st.calls|;
    var failures := if FailureReported(st.handler) then 1 else 0;
    var due := if st.handler.Checking? then 1 else 0;
    if st.handler.Connecting? || st.handler == Exited(SetupFailed) then
      st.calls == [] && st.consumed == []
    else
      && n - 1 - failures + due == CountCountable(st.consumed)
      && n >= 1 + failures
      && st.calls[0] == Register(st.key)
      && (forall i :: 1 <= i < n - failures ==> st.calls[i].Check? && st.calls[i].key == st.key)
      && (failures == 1 ==> st.calls[n - 1] == Failure(st.key))
  }

  /** The handler leaves on a shutting-down message exactly when it consumes one,
      and on an unrecoverable error exactly when it consumes one; either is the
      last item it consumes from its channel. */
  ghost predicate ExitCause(st: Stream) {
    ShutdownCause(st) && ErrorCause(st)
  }

  ghost predicate ShutdownCause(st: Stream) {
    && (st.handler == Exited(Shutdown) <==> st.consumed != [] && st.consumed[|st.consumed| - 1] == SHUTTING_DOWN)
    && (forall k :: 0 <= k < |st.consumed| - 1 ==> st.consumed[k] != SHUTTING_DOWN)
    && (st.handler.Failing? ==> st.handler.reason.TimedOut? || st.handler.reason.StreamError?)
    && (st.handler.Connecting? || st.handler == Exited(SetupFailed) ==> st.consumed == [])
  }

  ghost predicate ErrorCause(st: Stream) {
    && (forall code :: st.handler == Failing(StreamError(code)) || st.handler == Exited(StreamError(code)) ==>
          Unrecoverable(code) && st.errors != [] && st.errors[|st.errors| - 1] == code)
    && (st.errors != [] && Unrecoverable(st.errors[|st.errors| - 1]) ==>
          (st.handler.Failing? || st.handler.Exited?) && st.handler.reason.StreamError?)
    && (forall k :: 0 <= k < |st.errors| - 1 ==> !Unrecoverable(st.errors[k]))
    && (st.handler.Connecting? ==> st.errors == [])
  }

  lemma ShapeByMove(st: Stream, a: Action, now: Time, timeout: Time)
    requires Enabled(st, a, now) && TraceShape(st) && ExitCause(st)
    ensures TraceShape(Move(st, a, now, timeout))
  {
    hide CountCountable, ErrorCause;
    CountStep(st.consumed, if st.msgChan != [] then st.msgChan[0] else SERVING);
  }

  lemma CountStep(statuses: seq<uint32>, status: uint32)
    ensures CountCountable(statuses + [status]) == CountCountable(statuses) + if Countable(status) then 1 else 0
    ensures CountCountable([]) == 0
  {
    assert (statuses + [status])[..|statuses|] == statuses;
  }

  lemma ShutdownCauseByMove(st: Stream, a: Action, now: Time, timeout: Time)
    requires Enabled(st, a, now) && ShutdownCause(st)
    ensures ShutdownCause(Move(st, a, now, timeout))
  {}

  lemma ErrorCauseByMove(st: Stream, a: Action, now: Time, timeout: Time)
    requires Enabled(st, a, now) && ErrorCause(st)
    ensures ErrorCause(Move(st, a, now, timeout))
  {}

  lemma CauseByMove(st: Stream, a: Action, now: Time, timeout: Time)
    requires Enabled(st, a, now) && ExitCause(st)
    ensures ExitCause(Move(st, a, now, timeout))
  {
    hide Move, Enabled, ShutdownCause, ErrorCause;
    ShutdownCauseByMove(st, a, now, timeout);
    ErrorCauseByMove(st, a, now, timeout);
  }

  /** The timer runs out `timeout` after it was last started, it is never spent
      while the handler still waits on it, and no check is later than the last
      start unless the timer is about to be restarted. A loop left by a timeout
      was left at least `timeout` after the last start. */
  ghost predicate TimerSound(st: Stream, now: Time, timeout: Time) {
    && !st.handler.Stuck?
    && st.base <= now
    && (st.handler.Selecting? || st.handler.Checking? || st.handler.Resetting? ==>
          st.handler.timer == Armed(st.base + timeout))
    && (forall i :: 0 <= i < |st.calls| && st.calls[i].Check? ==>
          st.calls[i].at <= if st.handler.Resetting? then now else st.base)
    && ((st.handler.Failing? || st.handler.Exited?) && st.handler.reason.TimedOut? ==>
          st.base + timeout <= st.left <= now)
  }

  lemma TimerByMove(st: Stream, a: Action, now: Time, timeout: Time)
    requires Enabled(st, a, now) && TimerSound(st, now, timeout)
    ensures TimerSound(Move(st, a, now, timeout), now, timeout)
  {}

  // ---- the multiplexing loop as code ----

  /** The loop between two selects: the deadline, the calls made, and why it was left. */
  datatype Loop = Loop(deadline: Time, calls: seq<Call>, exit: Option<Reason>)

  /** One pass of the loop. An expiry before the deadline cannot be selected. */
  function TakeTurn(l: Loop, key: string, timeout: Time, t: Turn): Loop {
    if l.exit.Some? then l
    else
      match t
      case Message(status, checkedAt, resetAt) =>
        if status == NOT_SERVING then l
        else if status == SHUTTING_DOWN then l.(exit := Some(Shutdown))
        else l.(deadline := resetAt + timeout, calls := l.calls + [Check(key, checkedAt)])
      case Error(code) =>
        if Unrecoverable(code) then l.(calls := l.calls + [Failure(key)], exit := Some(StreamError(code))) else l
      case Expiry(at) =>
        if l.deadline <= at then l.(calls := l.calls + [Failure(key)], exit := Some(TimedOut)) else l
  }

  function TakeTurns(key: string, timeout: Time, start: Time, turns: seq<Turn>): Loop {
    if turns == [] then Loop(start + timeout, [], None)
    else TakeTurn(TakeTurns(key, timeout, start, turns[..|turns| - 1]), key, timeout, turns[|turns| - 1])
  }

  function ApplyAll(v: View, calls: seq<Call>): View {
    if calls == [] then v else Apply(ApplyAll(v, calls[..|calls| - 1]), calls[|calls| - 1])
  }

  method MultiplexHealthStatus(registry: NodeRegistry, nodeKey: string, timeout: Time, start: Time, turns: seq<Turn>)
    returns (exit: Option<Reason>)
    requires registry.Valid()
    modifies registry.Records()
    ensures registry.Valid() && registry.Records() == old(registry.Records())
    ensures exit == TakeTurns(nodeKey, timeout, start, turns).exit
    ensures registry.Contents() == ApplyAll(old(registry.Contents()), TakeTurns(nodeKey, timeout, start, turns).calls)
  {
    var deadline := start + timeout;
    exit := None;
    ghost var loop := TakeTurns(nodeKey, timeout, start, []);
    var i := 0;
    while i < |turns|
      invariant 0 <= i <= |turns|
      invariant registry.Valid() && registry.Records() == old(registry.Records())
      invariant loop == TakeTurns(nodeKey, timeout, start, turns[..i])
      invariant exit == loop.exit && deadline == loop.deadline
      invariant registry.Contents() == ApplyAll(old(registry.Contents()), loop.calls)
    {
      assert turns[..i + 1][..i] == turns[..i];
      ghost var before := loop;
      loop := TakeTurn(loop, nodeKey, timeout, turns[i]);
      assert loop.calls != before.calls ==> loop.calls[..|loop.calls| - 1] == before.calls;
      if exit.None? {
        match turns[i] {
          case Message(status, checkedAt, resetAt) =>
            if status == NOT_SERVING {
            } else if status == SHUTTING_DOWN {
              exit := Some(Shutdown);
            } else {
              registry.ReportNewHealthCheck(nodeKey, checkedAt);
              deadline := resetAt + timeout;
            }
          case Error(code) =>
            if Unrecoverable(code) {
              registry.ReportNodeFailure(nodeKey);
              exit := Some(StreamError(code));
            }
          case Expiry(at) =>
            if deadline <= at {
              registry.ReportNodeFailure(nodeKey);
              exit := Some(TimedOut);
            }
        }
      }
      i := i + 1;
    }
    assert turns[..i] == turns;
  }

  // ---- the stream machine runs this loop ----

  /** The statuses of the messages among the turns. */
  function MessagesTaken(turns: seq<Turn>): seq<uint32> {
    if turns == [] then []
    else MessagesTaken(turns[..|turns| - 1]) + if turns[|turns| - 1].Message? then [turns[|turns| - 1].status] else []
  }

  /** The codes of the errors among the turns. */
  function ErrorsTaken(turns: seq<Turn>): seq<nat> {
    if turns == [] then []
    else ErrorsTaken(turns[..|turns| - 1]) + if turns[|turns| - 1].Error? then [turns[|turns| - 1].code] else []
  }

  predicate Began(h: Handler) {
    !h.Connecting? && !h.Registered? && !h.Spawned? && h != Exited(SetupFailed)
  }

  /** The message the handler has taken and is still working on. */
  function MessageInHand(h: Handler): seq<uint32> {
    if h.Checking? || h.Resetting? then [h.status] else []
  }

  /** The error the handler has taken and is still working on. */
  function ErrorInHand(h: Handler): seq<nat> {
    if h.Failing? && h.reason.StreamError? then [h.reason.code] else []
  }

  /** A stream's calls: the registration, then the loop's. */
  function AfterRegistration(key: string, calls: seq<Call>): seq<Call> {
    [Register(key)] + calls
  }

  lemma AfterRegistrationStep(key: string, calls: seq<Call>, c: Call)
    ensures AfterRegistration(key, []) == [Register(key)]
    ensures AfterRegistration(key, calls + [c]) == AfterRegistration(key, calls) + [c]
  {}

  /** The turns hold, in order, what the handler consumed, but for what it has in hand. */
  ghost predicate ItemsInTurns(st: Stream) {
    && MessagesTaken(st.turns) + MessageInHand(st.handler) == st.consumed
    && ErrorsTaken(st.turns) + ErrorInHand(st.handler) == st.errors
  }

  /** The handler has done what the loop does with the turns it has completed: the
      same calls behind the registration, the same deadline while it goes on, and
      the same reason when it has left. */
  ghost predicate RunsLoop(st: Stream, timeout: Time) {
    var l := TakeTurns(st.key, timeout, st.started, st.turns);
    var h := st.handler;
    && (h.Connecting? || h == Exited(SetupFailed) ==> st.calls == [])
    && (h.Registered? || h.Spawned? ==> st.calls == [Register(st.key)])
    && (!Began(h) ==> st.turns == [])
    && (Began(h) ==> st.calls == if h.Resetting? then AfterRegistration(st.key, l.calls) + [Check(st.key, h.checkedAt)]
                                 else AfterRegistration(st.key, l.calls))
    && (Began(h) ==> l.exit == if h.Exited? then Some(h.reason) else None)
    && (h.Selecting? || h.Checking? || h.Resetting? ==> h.timer == Armed(l.deadline))
    && (h.Checking? || h.Resetting? ==> Countable(h.status))
    && (h.Failing? ==> match h.reason {
          case StreamError(code) => Unrecoverable(code)
          case TimedOut => l.deadline <= st.left
          case _ => false
        })
    && !h.Stuck?
  }

  lemma TurnsStep(key: string, timeout: Time, started: Time, turns: seq<Turn>, t: Turn)
    ensures TakeTurns(key, timeout, started, turns + [t]) == TakeTurn(TakeTurns(key, timeout, started, turns), key, timeout, t)
  {
    assert (turns + [t])[..|turns|] == turns;
  }

  lemma ItemsStep(turns: seq<Turn>, t: Turn)
    ensures MessagesTaken(turns + [t]) == MessagesTaken(turns) + if t.Message? then [t.status] else []
    ensures ErrorsTaken(turns + [t]) == ErrorsTaken(turns) + if t.Error? then [t.code] else []
  {
    assert (turns + [t])[..|turns|] == turns;
  }

  lemma NoTurns(key: string, timeout: Time, started: Time)
    ensures TakeTurns(key, timeout, started, []) == Loop(started + timeout, [], None)
  {}

  lemma ItemsByMove(st: Stream, a: Action, now: Time, timeout: Time)
    requires Enabled(st, a, now) && ItemsInTurns(st)
    requires st.handler.Failing? ==> st.handler.reason.TimedOut? || st.handler.reason.StreamError?
    requires st.handler.Resetting? ==> st.handler.timer.Armed?
    ensures ItemsInTurns(Move(st, a, now, timeout))
  {
    hide MessagesTaken, ErrorsTaken;
    var st' := Move(st, a, now, timeout);
    if st'.turns != st.turns {
      ItemsStep(st.turns, st'.turns[|st.turns|]);
    }
  }

  lemma LoopByMove(st: Stream, a: Action, now: Time, timeout: Time)
    requires Enabled(st, a, now) && RunsLoop(st, timeout)
    ensures RunsLoop(Move(st, a, now, timeout), timeout)
  {
    if a.TakeMsg? || a.TakeErr? || a.TakeTick? {
      hide RunsLoop, Move, Enabled;
      LoopByTake(st, a, now, timeout);
    } else if a.DoCheck? || a.DoReset? || a.DoFail? {
      hide RunsLoop, Move, Enabled;
      LoopByDo(st, a, now, timeout);
    } else {
      hide TakeTurns;
      AfterRegistrationStep(st.key, [], Failure(st.key));
      NoTurns(st.key, timeout, now);
    }
  }

  lemma LoopByTake(st: Stream, a: Action, now: Time, timeout: Time)
    requires Enabled(st, a, now) && RunsLoop(st, timeout)
    requires a.TakeMsg? || a.TakeErr? || a.TakeTick?
    ensures RunsLoop(Move(st, a, now, timeout), timeout)
  {
    hide TakeTurns, AfterRegistration;
    var st' := Move(st, a, now, timeout);
    if st'.turns != st.turns {
      TurnsStep(st.key, timeout, st.started, st.turns, st'.turns[|st.turns|]);
    }
  }

  lemma LoopByDo(st: Stream, a: Action, now: Time, timeout: Time)
    requires Enabled(st, a, now) && RunsLoop(st, timeout)
    requires a.DoCheck? || a.DoReset? || a.DoFail?
    ensures RunsLoop(Move(st, a, now, timeout), timeout)
  {
    hide TakeTurns, AfterRegistration;
    var st' := Move(st, a, now, timeout);
    if st'.turns != st.turns {
      TurnsStep(st.key, timeout, st.started, st.turns, st'.turns[|st.turns|]);
    }
    AfterRegistrationStep(st.key, TakeTurns(st.key, timeout, st.started, st.turns).calls, st'.calls[|st'.calls| - 1]);
  }

  /** With no countable message among its turns, the loop's deadline is that of its start. */
  lemma {:induction false} NothingCountedNoReset(key: string, timeout: Time, started: Time, turns: seq<Turn>)
    requires CountCountable(MessagesTaken(turns)) == 0
    ensures TakeTurns(key, timeout, started, turns).deadline == started + timeout
  {
    if turns == [] {
    } else {
      var front, t := turns[..|turns| - 1], turns[|turns| - 1];
      CountConcat(MessagesTaken(front), if t.Message? then [t.status] else []);
      assert t.Message? ==> CountCountable([t.status]) == if Countable(t.status) then 1 else 0;
      NothingCountedNoReset(key, timeout, started, front);
    }
  }

  // ---- the listener as code ----

  datatype Send = OnErr(code: nat) | OnMsg(status: uint32)

  function MessagesSent(sends: seq<Send>): seq<uint32> {
    if sends == [] then []
    else MessagesSent(sends[..|sends| - 1]) + if sends[|sends| - 1].OnMsg? then [sends[|sends| - 1].status] else []
  }

  function ErrorsSent(sends: seq<Send>): seq<nat> {
    if sends == [] then []
    else ErrorsSent(sends[..|sends| - 1]) + if sends[|sends| - 1].OnErr? then [sends[|sends| - 1].code] else []
  }

  lemma SentStep(sends: seq<Send>, s: Send)
    ensures MessagesSent(sends + [s]) == MessagesSent(sends) + if s.OnMsg? then [s.status] else []
    ensures ErrorsSent(sends + [s]) == ErrorsSent(sends) + if s.OnErr? then [s.code] else []
  {}

  /** What the listener sends for one receive result. */
  function SendsFor(r: Recv): seq<Send> {
    match r
    case Ok(status) => [OnMsg(status)]
    case Err(code) => if code == 1 || code == 14 then [OnErr(code)] else [OnErr(code), OnMsg(0)]
  }

  function Sends(rs: seq<Recv>): seq<Send> {
    if rs == [] then [] else Sends(rs[..|rs| - 1]) + SendsFor(rs[|rs| - 1])
  }

  /** The sends for the results before position `i` come first, then those for result `i`. */
  lemma {:induction false} SendsInOrder(rs: seq<Recv>, i: nat)
    requires i < |rs|
    ensures Sends(rs[..i]) + SendsFor(rs[i]) <= Sends(rs)
  {
    if i == |rs| - 1 {
    } else {
      var front := rs[..|rs| - 1];
      SendsInOrder(front, i);
      assert front[..i] == rs[..i];
    }
  }

  /** A recoverable error's code is sent immediately before its nil request, which
      reads as status 0, and behind everything sent for earlier results. */
  lemma ErrorJustBeforeNil(rs: seq<Recv>, i: nat)
    requires i < |rs| && rs[i].Err? && rs[i].code != 1 && rs[i].code != 14
    ensures var k := |Sends(rs[..i])|;
            && k + 1 < |Sends(rs)| && Sends(rs)[..k] == Sends(rs[..i])
            && Sends(rs)[k] == OnErr(rs[i].code) && Sends(rs)[k + 1] == OnMsg(0)
  {
    SendsInOrder(rs, i);
    var k, head := |Sends(rs[..i])|, Sends(rs[..i]) + SendsFor(rs[i]);
    assert head[k] == OnErr(rs[i].code) && head[k + 1] == OnMsg(0) && head[..k] == Sends(rs[..i]);
  }

  /** What is sent puts on each channel what the results put there. */
  lemma {:induction false} SendsFillChannels(rs: seq<Recv>)
    ensures MessagesSent(Sends(rs)) == Messages(rs) && ErrorsSent(Sends(rs)) == Errors(rs)
  {
    hide MessagesSent, ErrorsSent, SendsFor;
    if rs == [] {
      NothingSent();
    } else {
      SendsFillChannels(rs[..|rs| - 1]);
      SentForOne(Sends(rs[..|rs| - 1]), rs[|rs| - 1]);
    }
  }

  lemma NothingSent()
    ensures MessagesSent([]) == [] && ErrorsSent([]) == []
  {}

  lemma SentForOne(sends: seq<Send>, r: Recv)
    ensures MessagesSent(sends + SendsFor(r)) == MessagesSent(sends) + if Fatal(r) then [] else [StatusOf(r)]
    ensures ErrorsSent(sends + SendsFor(r)) == ErrorsSent(sends) + if r.Err? then [r.code] else []
  {
    hide MessagesSent, ErrorsSent;
    if r.Err? {
      SentStep(sends, OnErr(r.code));
      SentStep(sends + [OnErr(r.code)], OnMsg(0));
      assert sends + [OnErr(r.code)] + [OnMsg(0)] == sends + [OnErr(r.code), OnMsg(0)];
    } else {
      SentStep(sends, OnMsg(r.status));
    }
  }

  /** The listener's sends over the results it is given: it stops right after the
      first error with code 1 or 14, it has sent in order what the results it has
      read call for, and so put on each channel what these put there. */
  method ListenerReportHealthStatus(results: seq<Recv>) returns (sends: seq<Send>, read: nat)
    ensures read <= |results|
    ensures forall i :: 0 <= i < read - 1 ==> results[i] != Err(1) && results[i] != Err(14)
    ensures read == |results| || (read > 0 && (results[read - 1] == Err(1) || results[read - 1] == Err(14)))
    ensures sends == Sends(results[..read])
    ensures MessagesSent(sends) == Messages(results[..read])
    ensures ErrorsSent(sends) == Errors(results[..read])
  {
    hide MessagesSent, ErrorsSent, Messages, Errors;
    sends := [];
    read := 0;
    while read < |results|
      invariant 0 <= read <= |results|
      invariant forall i :: 0 <= i < read ==> !Fatal(results[i])
      invariant sends == Sends(results[..read])
    {
      var r := results[read];
      ghost var before := sends;
      assert results[..read + 1][..read] == results[..read];
      read := read + 1;
      if Fatal(r) {
        sends := sends + [OnErr(r.code)];
        SendsFillChannels(results[..read]);
        return;
      }
      if r.Err? {
        sends := sends + [OnErr(r.code)];
      }
      sends := sends + [OnMsg(StatusOf(r))];
      assert sends == before + SendsFor(r);
    }
    SendsFillChannels(results[..read]);
  }
}
