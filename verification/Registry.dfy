/** The node registry: a shared map of per-node records that streams update under one lock. */
module Registry {
  import opened Words

  type Time = int

  /** The record of a node: its streak of health checks and the time of the latest one, if any. */
  datatype NodeInfo = NodeInfo(streak: uint64, last: Option<Time>)

  type View = map<string, NodeInfo>

  datatype Call =
    | Register(key: string)
    | Check(key: string, at: Time)
    | Failure(key: string)

  /** The effect of one call. A check or a failure of an unknown key changes nothing. */
  function Apply(v: View, c: Call): View {
    match c
    case Register(k) => if k in v then v else v[k := NodeInfo(0, None)]
    case Check(k, at) => if k in v then v[k := NodeInfo((v[k].streak + 1) % TWO64, Some(at))] else v
    case Failure(k) => if k in v then v[k := v[k].(streak := 0)] else v
  }

  function Replay(calls: seq<Call>): View {
    if calls == [] then map[] else Apply(Replay(calls[..|calls| - 1]), calls[|calls| - 1])
  }

  // ---- the meaning of the streak ----

  /** Position just after the later of the first registration and the latest
      failure of `k`; `None` while `k` has not been registered. */
  function StreakStart(calls: seq<Call>, k: string): (r: Option<nat>)
    ensures r.Some? ==> r.value <= |calls|
  {
    if calls == [] then None
    else
      var before := StreakStart(calls[..|calls| - 1], k);
      var c := calls[|calls| - 1];
      if c.key != k then before
      else if c.Register? && before.None? then Some(|calls|)
      else if c.Failure? && before.Some? then Some(|calls|)
      else before
  }

  /** How many of `calls` are checks of `k`. */
  function Checks(calls: seq<Call>, k: string): nat {
    if calls == [] then 0
    else Checks(calls[..|calls| - 1], k) + if calls[|calls| - 1].Check? && calls[|calls| - 1].key == k then 1 else 0
  }

  ghost predicate EverRegistered(calls: seq<Call>, k: string) {
    exists i :: 0 <= i < |calls| && calls[i] == Register(k)
  }

  /** `n` is just after the first registration of `k` or a failure of `k`
      behind it, and no failure of `k` lies at `n` or later. */
  ghost predicate IsStreakStart(calls: seq<Call>, k: string, n: nat) {
    && 0 < n <= |calls|
    && EverRegistered(calls[..n], k)
    && (calls[n - 1] == Failure(k) || (calls[n - 1] == Register(k) && !EverRegistered(calls[..n - 1], k)))
    && (forall i :: n <= i < |calls| ==> calls[i] != Failure(k))
  }

  lemma EverRegisteredStep(calls: seq<Call>, k: string)
    requires calls != []
    ensures EverRegistered(calls, k) <==> EverRegistered(calls[..|calls| - 1], k) || calls[|calls| - 1] == Register(k)
  {}

  /** `StreakStart` finds the position it is meant to find, exactly for registered keys. */
  lemma {:induction false} StreakStartMeans(calls: seq<Call>, k: string)
    ensures StreakStart(calls, k).Some? <==> EverRegistered(calls, k)
    ensures StreakStart(calls, k).Some? ==> IsStreakStart(calls, k, StreakStart(calls, k).value)
  {
    if calls == [] {
    } else {
      var front, c := calls[..|calls| - 1], calls[|calls| - 1];
      StreakStartMeans(front, k);
      EverRegisteredStep(calls, k);
      assert calls[..|calls|] == calls;
      var r := StreakStart(calls, k);
      if r.Some? && r.value < |calls| {
        var n := r.value;
        assert calls[..n] == front[..n] && calls[..n - 1] == front[..n - 1];
      }
    }
  }

  /** After any calls, from any number of streams: a key is present exactly when
      it was registered, and its streak is the number of its checks since the
      later of its first registration and its latest failure, modulo the word. */
  lemma {:induction false} StreakMeaning(calls: seq<Call>, k: string)
    ensures k in Replay(calls) <==> EverRegistered(calls, k)
    ensures StreakStart(calls, k).Some? <==> EverRegistered(calls, k)
    ensures k in Replay(calls) ==>
            Replay(calls)[k].streak == Checks(calls[StreakStart(calls, k).value..], k) % TWO64
  {
    StreakStartMeans(calls, k);
    if calls == [] {
    } else {
      hide EverRegistered, IsStreakStart, Checks;
      var front := calls[..|calls| - 1];
      StreakMeaning(front, k);
      EverRegisteredStep(calls, k);
      if k in Replay(calls) {
        ChecksStep(calls, k, StreakStart(calls, k).value);
        StreakStep(Replay(front), calls[|calls| - 1], k,
                   if StreakStart(front, k).Some? then Checks(front[StreakStart(front, k).value..], k) else 0);
      }
    }
  }

  /** Below 2^64 checks the streak is their number. */
  lemma StreakIsCount(calls: seq<Call>, k: string)
    requires k in Replay(calls)
    ensures StreakStart(calls, k).Some?
    ensures Checks(calls[StreakStart(calls, k).value..], k) < 0x1_0000_0000_0000_0000 ==>
            Replay(calls)[k].streak == Checks(calls[StreakStart(calls, k).value..], k)
  {
    hide Replay, Checks, StreakStart;
    StreakMeaning(calls, k);
  }

  /** One call of a key whose streak stands at `n` modulo the word. */
  lemma StreakStep(v: View, c: Call, k: string, n: nat)
    requires k in v ==> v[k].streak == n % TWO64
    requires k in Apply(v, c)
    ensures Apply(v, c)[k].streak ==
            if k !in v || c == Failure(k) then 0 else (n + if c.Check? && c.key == k then 1 else 0) % TWO64
  {
    Wrap(n);
  }

  lemma ChecksStep(calls: seq<Call>, k: string, n: nat)
    requires n <= |calls|
    ensures n == |calls| ==> Checks(calls[n..], k) == 0
    ensures n < |calls| ==>
            Checks(calls[n..], k) ==
            Checks(calls[..|calls| - 1][n..], k) + if calls[|calls| - 1].Check? && calls[|calls| - 1].key == k then 1 else 0
  {
    var tail := calls[n..];
    if n < |calls| {
      assert tail[..|tail| - 1] == calls[..|calls| - 1][n..];
    }
  }

  lemma Wrap(n: nat)
    ensures (n % TWO64 + 1) % TWO64 == (n + 1) % TWO64
  {}

  /** Position `i` holds the latest check of `k` that found the key registered. */
  ghost predicate IsLatestCheck(calls: seq<Call>, k: string, i: nat) {
    && i < |calls| && calls[i].Check? && calls[i].key == k && EverRegistered(calls[..i], k)
    && forall j :: i < j < |calls| ==> !(calls[j].Check? && calls[j].key == k)
  }

  /** The recorded time is that of the latest check since registration, if there was one. */
  lemma {:induction false} LastCheckMeaning(calls: seq<Call>, k: string)
    ensures k in Replay(calls) && Replay(calls)[k].last.Some? ==>
            exists i: nat :: IsLatestCheck(calls, k, i) && calls[i].at == Replay(calls)[k].last.value
    ensures k in Replay(calls) && Replay(calls)[k].last.None? ==>
            forall i: nat :: !IsLatestCheck(calls, k, i)
  {
    if calls == [] {
    } else {
      var front, c := calls[..|calls| - 1], calls[|calls| - 1];
      LastCheckMeaning(front, k);
      StreakMeaning(front, k);
      StreakMeaning(calls, k);
      if k in Replay(calls) {
        LatestCheckStep(calls, k);
      }
    }
  }

  /** A check of a registered key is the latest one; any other call leaves the latest one where it was. */
  lemma LatestCheckStep(calls: seq<Call>, k: string)
    requires calls != []
    ensures var front, c := calls[..|calls| - 1], calls[|calls| - 1];
            if c.Check? && c.key == k && EverRegistered(front, k) then
              forall i: nat :: IsLatestCheck(calls, k, i) <==> i == |calls| - 1
            else if c.Check? && c.key == k then
              forall i: nat :: !IsLatestCheck(calls, k, i)
            else
              forall i: nat :: IsLatestCheck(calls, k, i) <==> IsLatestCheck(front, k, i)
  {
    var front, c := calls[..|calls| - 1], calls[|calls| - 1];
    assert forall i: nat :: i < |calls| ==> calls[..i] == front[..i];
  }

  /** No call ever removes a key, and re-registering one changes nothing. */
  lemma KeysKept(v: View, c: Call)
    ensures v.Keys <= Apply(v, c).Keys
    ensures c.Register? && c.key in v ==> Apply(v, c) == v
    ensures forall k :: k in v && k != c.key ==> Apply(v, c)[k] == v[k]
  {}

  // ---- the object ----

  class Node {
    var continuousHealthChecks: uint64
    var lastHealthCheck: Option<Time>

    constructor ()
      ensures continuousHealthChecks == 0 && lastHealthCheck == None
    {
      continuousHealthChecks := 0;
      lastHealthCheck := None;
    }
  }

  class NodeRegistry {
    var registry: map<string, Node>

    /** Distinct keys have distinct records. */
    ghost predicate Valid()
      reads this
    {
      forall k, l :: k in registry && l in registry && registry[k] == registry[l] ==> k == l
    }

    ghost function Records(): set<Node>
      reads this
    {
      set k | k in registry :: registry[k]
    }

    ghost function Contents(): View
      reads this, Records()
    {
      map k | k in registry :: NodeInfo(registry[k].continuousHealthChecks, registry[k].lastHealthCheck)
    }

    constructor ()
      ensures Valid() && Contents() == map[] && Records() == {}
    {
      registry := map[];
    }

    method RegisterNode(nodeKey: string)
      requires Valid()
      modifies this
      ensures Valid() && fresh(Records() - old(Records()))
      ensures Contents() == Apply(old(Contents()), Register(nodeKey))
    {
      if nodeKey !in registry {
        var node := new Node();
        registry := registry[nodeKey := node];
      }
    }

    method ReportNewHealthCheck(nodeKey: string, now: Time)
      requires Valid()
      modifies Records()
      ensures Valid() && Records() == old(Records())
      ensures Contents() == Apply(old(Contents()), Check(nodeKey, now))
    {
      if nodeKey !in registry {
        return;
      }
      var nodeInfo := registry[nodeKey];
      nodeInfo.lastHealthCheck := Some(now);
      nodeInfo.continuousHealthChecks := (nodeInfo.continuousHealthChecks + 1) % TWO64;
    }

    method ReportNodeFailure(nodeKey: string)
      requires Valid()
      modifies Records()
      ensures Valid() && Records() == old(Records())
      ensures Contents() == Apply(old(Contents()), Failure(nodeKey))
    {
      if nodeKey !in registry {
        return;
      }
      var nodeInfo := registry[nodeKey];
      nodeInfo.continuousHealthChecks := 0;
    }
  }
}
