/** What holds of a ring after every sequence of additions and removals. */
module RingHistory {
  import opened Words
  import opened Sorting
  import opened Labels
  import opened Ring

  datatype Op = Add(node: AddrKey) | Remove(node: AddrKey)

  ghost function Apply(p: Params, s: RingState, op: Op): RingState {
    match op
    case Add(x) => Added(p, s, x)
    case Remove(x) => Removed(p, s, x)
  }

  /** The state a fresh ring is in after the operations `ops`, oldest first. */
  ghost function Run(p: Params, ops: seq<Op>): RingState {
    if ops == [] then Fresh() else Apply(p, Run(p, ops[..|ops| - 1]), ops[|ops| - 1])
  }

  ghost predicate HasRemoval(ops: seq<Op>) {
    exists i :: 0 <= i < |ops| && ops[i].Remove?
  }

  /** The ring object, driven by any sequence of calls, is in the state that `Run` gives. */
  method Drive(hasher: string -> uint32, numVirtualNodes: int, ops: seq<Op>) returns (ring: HashRing)
    ensures fresh(ring) && ring.Valid()
    ensures ring.Configuration() == Params(hasher, numVirtualNodes)
    ensures ring.State() == Run(Params(hasher, numVirtualNodes), ops)
  {
    hide Added, Removed;
    ring := new HashRing(hasher, numVirtualNodes);
    var i := 0;
    while i < |ops|
      invariant 0 <= i <= |ops|
      invariant fresh(ring) && ring.Valid()
      invariant ring.Configuration() == Params(hasher, numVirtualNodes)
      invariant ring.State() == Run(Params(hasher, numVirtualNodes), ops[..i])
    {
      assert ops[..i + 1][..i] == ops[..i];
      match ops[i] {
        case Add(x) => ring.AddNode(x);
        case Remove(x) => ring.RemoveNode(x);
      }
      i := i + 1;
    }
    assert ops[..i] == ops;
  }

  // ---- the index agrees with the map ----

  /** Every owned hash is one of its owner's own virtual hashes. */
  ghost predicate OwnersAtHome(p: Params, nodes: map<uint32, AddrKey>) {
    forall h :: h in nodes ==> h in VirtualHashes(p, nodes[h])
  }

  /** The slice is ascending and lists the map's keys; a ring that never had a
      removal also lists the placeholder 0. */
  ghost predicate IndexAgrees(s: RingState, removed: bool) {
    && Sorted(s.entries)
    && Elements(s.entries) == if removed then s.nodes.Keys else s.nodes.Keys + {0}
  }

  lemma {:induction false} ReachableAgrees(p: Params, ops: seq<Op>)
    ensures IndexAgrees(Run(p, ops), HasRemoval(ops))
    ensures OwnersAtHome(p, Run(p, ops).nodes)
  {
    if ops == [] {
      assert Elements(Placeholders()) == {0} by {
        assert Placeholders()[0] == 0;
      }
    } else {
      var front, last := ops[..|ops| - 1], ops[|ops| - 1];
      ReachableAgrees(p, front);
      HasRemovalStep(ops);
      var s := Run(p, front);
      match last {
        case Add(x) => AddAgrees(p, s, x, HasRemoval(front));
        case Remove(x) =>
          var t := Removed(p, s, x);
          RemovedExactly(p, s, x, t);
          assert Sorted(t.entries);
      }
    }
  }

  lemma HasRemovalStep(ops: seq<Op>)
    requires ops != []
    ensures HasRemoval(ops) <==> HasRemoval(ops[..|ops| - 1]) || ops[|ops| - 1].Remove?
  {}

  lemma AddedElements(p: Params, s: RingState, x: AddrKey)
    ensures Elements(Added(p, s, x).entries) == Elements(s.entries) + Elements(VirtualHashes(p, x))
    ensures Added(p, s, x).nodes.Keys == s.nodes.Keys + Elements(VirtualHashes(p, x))
  {
    var hs := VirtualHashes(p, x);
    SortKeepsElements(s.entries + hs);
    assert Elements(s.entries + hs) == Elements(s.entries) + Elements(hs);
    assert Claim(s.nodes, hs, x).Keys == s.nodes.Keys + Elements(hs);
  }

  lemma AddAgrees(p: Params, s: RingState, x: AddrKey, removed: bool)
    requires IndexAgrees(s, removed) && OwnersAtHome(p, s.nodes)
    ensures IndexAgrees(Added(p, s, x), removed)
    ensures OwnersAtHome(p, Added(p, s, x).nodes)
  {
    AddedElements(p, s, x);
    ClaimExactly(s.nodes, VirtualHashes(p, x), x, Added(p, s, x).nodes);
  }

  /** A lookup panics exactly on a ring that has had a removal and owns nothing. */
  lemma PanicsExactlyWhenEmptied(p: Params, ops: seq<Op>, request: string)
    ensures Route(p, Run(p, ops), request).None? <==> HasRemoval(ops) && Run(p, ops).nodes == map[]
  {
    ReachableAgrees(p, ops);
    var s := Run(p, ops);
    EmptyElements(s.entries);
    assert s.nodes == map[] <==> s.nodes.Keys == {};
  }

  /** A request meets a placeholder, and so the zero address, exactly when the
      ring has had no removal, 0 is nobody's hash, and the request's hash is 0 or
      above every owned hash: the placeholder takes the whole wrap-around arc. */
  lemma PlaceholderServesExactly(p: Params, ops: seq<Op>, h: uint32)
    ensures var s := Run(p, ops);
            Target(s, h).Some? && Target(s, h).value !in s.nodes <==>
            !HasRemoval(ops) && 0 !in s.nodes && (h == 0 || forall k :: k in s.nodes ==> k < h)
  {
    hide Run;
    var s := Run(p, ops);
    ReachableAgrees(p, ops);
    EmptyElements(s.entries);
    if s.entries != [] {
      var e := Clockwise(s.entries, h);
      assert forall k :: k in s.nodes ==> k in Elements(s.entries);
      assert !HasRemoval(ops) ==> 0 in Elements(s.entries);
    }
  }

  /** A new ring answers every request with the zero address. */
  lemma NewRingServesNobody(p: Params, request: string)
    ensures Route(p, Run(p, []), request) == Some("0:0")
  {
    hide AddrToString, Placeholders, Clockwise;
    PlaceholderServesExactly(p, [], p.hasher(request));
    ZeroAddressText();
  }

  lemma ZeroAddressText()
    ensures AddrToString(AddrKey(0, 0, 0)) == "0:0"
  {
    assert Decimal(0) == "0";
  }

  /** Removing any node from a new ring leaves one that panics on every request. */
  lemma RemovalEmptiesNewRing(p: Params, x: AddrKey, request: string)
    ensures Route(p, Run(p, [Remove(x)]), request) == None
  {
    var ops := [Remove(x)];
    assert ops[..0] == [] && ops[0].Remove?;
    assert Run(p, ops).nodes == map[];
    PanicsExactlyWhenEmptied(p, ops, request);
  }

  // ---- what is on a ring ----

  /** `h` is the hash of the text "ip:port-i" of node `x`. */
  ghost predicate IsReplicaHash(p: Params, x: AddrKey, i: nat, h: uint32) {
    exists t, m :: IsLabel(t, m, x.ip, x.port, i) && h == p.hasher(t)
  }

  lemma ReplicaHashExactly(p: Params, x: AddrKey, i: nat, h: uint32)
    ensures IsReplicaHash(p, x, i, h) <==> h == VirtualHash(p, x, i)
  {
    hide IsLabel, Label;
    LabelExactly(x, i, Label(x, i));
    if IsReplicaHash(p, x, i, h) {
      var t, m :| IsLabel(t, m, x.ip, x.port, i) && h == p.hasher(t);
      LabelExactly(x, i, t);
    }
  }

  lemma ReplicasExactly(p: Params, x: AddrKey, h: uint32)
    ensures h in VirtualHashes(p, x) <==> exists i: nat :: i < p.numVirtualNodes && IsReplicaHash(p, x, i, h)
  {
    hide IsReplicaHash, VirtualHash;
    var hs := VirtualHashes(p, x);
    if h in hs {
      var i :| 0 <= i < |hs| && hs[i] == h;
      ReplicaHashExactly(p, x, i, h);
    }
    if i: nat :| i < p.numVirtualNodes && IsReplicaHash(p, x, i, h) {
      ReplicaHashExactly(p, x, i, h);
      assert hs[i] == h;
    }
  }

  lemma NodeAlone(p: Params, x: AddrKey)
    ensures var nodes := Run(p, [Add(x)]).nodes;
            nodes.Keys == Elements(VirtualHashes(p, x)) && forall h :: h in nodes ==> nodes[h] == x
  {
    hide VirtualHashes;
    var hs, nodes := VirtualHashes(p, x), Run(p, [Add(x)]).nodes;
    assert [Add(x)][..0] == [];
    ClaimExactly(map[], hs, x, nodes);
  }

  /** A node alone on a ring owns exactly the hashes of the texts "ip:port-i" for
      the indices below the number of virtual nodes; it owns that many hashes
      exactly when no two of these collide. */
  lemma NodeOwnsItsReplicas(p: Params, x: AddrKey)
    ensures var nodes := Run(p, [Add(x)]).nodes;
            && (forall h :: h in nodes <==> exists i: nat :: i < p.numVirtualNodes && IsReplicaHash(p, x, i, h))
            && (forall h :: h in nodes ==> nodes[h] == x)
            && (0 <= p.numVirtualNodes ==>
                  (|nodes| == p.numVirtualNodes <==>
                   forall i, j :: 0 <= i < j < p.numVirtualNodes ==> VirtualHash(p, x, i) != VirtualHash(p, x, j)))
  {
    hide IsReplicaHash, VirtualHash, Run;
    var hs, nodes := VirtualHashes(p, x), Run(p, [Add(x)]).nodes;
    NodeAlone(p, x);
    forall h ensures h in nodes <==> exists i: nat :: i < p.numVirtualNodes && IsReplicaHash(p, x, i, h) {
      ReplicasExactly(p, x, h);
      assert h in nodes <==> h in nodes.Keys;
    }
    assert |nodes| == |nodes.Keys|;
    DistinctSize(hs);
    assert forall i :: 0 <= i < |hs| ==> hs[i] == VirtualHash(p, x, i);
  }

  lemma {:induction false} DistinctSize(s: seq<uint32>)
    ensures |Elements(s)| <= |s|
    ensures |Elements(s)| == |s| <==> forall i, j :: 0 <= i < j < |s| ==> s[i] != s[j]
  {
    if s == [] {
      assert Elements(s) == {};
    } else {
      var front, x := s[..|s| - 1], s[|s| - 1];
      DistinctSize(front);
      assert s == front + [x];
      assert Elements(s) == Elements(front) + {x};
      if x in front {
        assert Elements(s) == Elements(front);
      }
    }
  }

  lemma AddedLength(p: Params, s: RingState, x: AddrKey)
    ensures |Added(p, s, x).entries| == |s.entries| + |VirtualHashes(p, x)|
  {
    hide VirtualHashes, Claim;
    var all := s.entries + VirtualHashes(p, x);
    assert |Sort(all)| == |multiset(Sort(all))| == |multiset(all)| == |all|;
  }

  lemma FreshLength()
    ensures |Fresh().entries| == 8192
  {}

  /** The slice is never cleared by additions: it starts with 8192 entries and
      every addition appends one for each virtual node, repeated or not. */
  lemma {:induction false} AdditionsGrowTheSlice(p: Params, ops: seq<Op>)
    requires !HasRemoval(ops) && 0 <= p.numVirtualNodes
    ensures |Run(p, ops).entries| == 8192 + |ops| * p.numVirtualNodes
  {
    hide Added, Removed, Fresh, HasRemoval, VirtualHashes;
    if ops == [] {
      FreshLength();
    } else {
      var front := ops[..|ops| - 1];
      HasRemovalStep(ops);
      AdditionsGrowTheSlice(p, front);
      AddedLength(p, Run(p, front), ops[|ops| - 1].node);
      assert (|front| + 1) * p.numVirtualNodes == |front| * p.numVirtualNodes + p.numVirtualNodes;
    }
  }

  // ---- minimal disruption ----

  /** Adding `x` moves a request only to `x`: it moves when its new clockwise
      entry is one of `x`'s hashes and stays where it was otherwise. This holds
      of every state: with collisions, with placeholders, and on an empty slice. */
  lemma AddDisruptsOnlyTowards(p: Params, s: RingState, x: AddrKey, request: string)
    ensures var t := Added(p, s, x);
            var e := Target(t, p.hasher(request));
            Route(p, t, request) ==
            if e.Some? && e.value in VirtualHashes(p, x) then Some(AddrToString(x)) else Route(p, s, request)
  {
    var t := Added(p, s, x);
    var hs := VirtualHashes(p, x);
    AddedElements(p, s, x);
    ClaimExactly(s.nodes, hs, x, t.nodes);
    EmptyElements(s.entries);
    EmptyElements(t.entries);
    if t.entries != [] {
      var e := Clockwise(t.entries, p.hasher(request));
      if e !in hs {
        assert e in Elements(s.entries);
        ClockwiseUnique(Elements(s.entries), p.hasher(request), e, Clockwise(s.entries, p.hasher(request)));
      }
    }
  }

  lemma RemoveKeepsEntry(p: Params, s: RingState, x: AddrKey, h: uint32)
    requires s.entries != [] && s.nodes.Keys <= Elements(s.entries)
    ensures var e := Clockwise(s.entries, h);
            var t := Removed(p, s, x);
            && (Target(t, h) == Some(e) <==> e in s.nodes && e !in VirtualHashes(p, x))
            && (Target(t, h) == Some(e) ==> Owner(t, e) == Owner(s, e))
  {
    var t := Removed(p, s, x);
    var e := Clockwise(s.entries, h);
    RemovedExactly(p, s, x, t);
    assert forall k :: k in t.entries <==> k in Elements(t.entries);
    if e in s.nodes && e !in VirtualHashes(p, x) {
      assert e in t.entries;
      ClockwiseUnique(Elements(t.entries), h, e, Clockwise(t.entries, h));
    }
  }

  /** In every reachable ring that can serve, removing `x` keeps the clockwise
      entry of a request exactly when that entry is owned (and not a placeholder)
      and is not one of `x`'s hashes; the request's address is then unchanged. */
  lemma RemoveKeepsExactly(p: Params, ops: seq<Op>, x: AddrKey, request: string)
    requires Run(p, ops).entries != []
    ensures var s, t := Run(p, ops), Run(p, ops + [Remove(x)]);
            var e := Clockwise(s.entries, p.hasher(request));
            && (Target(t, p.hasher(request)) == Some(e) <==> e in s.nodes && e !in VirtualHashes(p, x))
            && (Target(t, p.hasher(request)) == Some(e) ==> Route(p, t, request) == Route(p, s, request))
  {
    hide VirtualHashes, Removed;
    var all := ops + [Remove(x)];
    assert all[..|all| - 1] == ops;
    ReachableAgrees(p, ops);
    RemoveKeepsEntry(p, Run(p, ops), x, p.hasher(request));
  }

  /** In every reachable ring, removing `x` leaves no request routed to `x`'s
      address, even for owners that differ from `x` only in padding. */
  lemma RemovedNodeUnreachable(p: Params, ops: seq<Op>, x: AddrKey, request: string)
    ensures Route(p, Run(p, ops + [Remove(x)]), request) != Some(AddrToString(x))
  {
    var all := ops + [Remove(x)];
    assert all[..|all| - 1] == ops;
    var s, t := Run(p, ops), Run(p, all);
    ReachableAgrees(p, ops);
    RemovedExactly(p, s, x, t);
    if t.entries != [] {
      var e := Clockwise(t.entries, p.hasher(request));
      assert e in t.nodes;
      if AddrToString(Owner(t, e)) == AddrToString(x) {
        SameTextSameHashes(p, s.nodes[e], x);
      }
    }
  }

  lemma SameTextSameHashes(p: Params, x: AddrKey, y: AddrKey)
    requires AddrToString(x) == AddrToString(y)
    ensures VirtualHashes(p, x) == VirtualHashes(p, y)
  {}

  /** Adding and then removing `x` restores the map exactly when none of `x`'s
      hashes was owned before. The slice is then strictly ascending with one
      entry per key, and on a ring whose slice listed its keys every request,
      including one on an empty ring, is routed as before. */
  lemma AddThenRemoveUndoes(p: Params, s: RingState, x: AddrKey)
    ensures var t := Removed(p, Added(p, s, x), x);
            && (t.nodes == s.nodes <==> forall h :: h in VirtualHashes(p, x) ==> h !in s.nodes)
            && StrictlySorted(t.entries) && |t.entries| == |t.nodes|
            && (t.nodes == s.nodes && Elements(s.entries) == s.nodes.Keys ==>
                  forall request :: Route(p, t, request) == Route(p, s, request))
  {
    hide VirtualHashes;
    var t := Removed(p, Added(p, s, x), x);
    ClaimThenDrop(s.nodes, VirtualHashes(p, x), x);
    assert |t.nodes| == |t.nodes.Keys|;
    if t.nodes == s.nodes && Elements(s.entries) == s.nodes.Keys {
      forall request ensures Route(p, t, request) == Route(p, s, request) {
        SameIndexSameRoute(p, t, s, request);
      }
    }
  }

  /** With a collision an entry is lost: where every label has the same hash, `x`
      loses its only entry to `y`, and removing `y` then leaves nothing. */
  lemma CollisionLosesAnEntry(h: uint32, x: AddrKey, y: AddrKey)
    ensures var p := Params(_ => h, 1);
            var s := Run(p, [Add(x)]);
            && s.nodes == map[h := x]
            && Removed(p, Added(p, s, y), y).nodes == map[]
  {
    var p := Params(_ => h, 1);
    assert VirtualHashes(p, x) == [h] && VirtualHashes(p, y) == [h];
    assert [Add(x)][..0] == [];
    ClaimExactly(map[], [h], x, map[h := x]);
    ClaimExactly(map[h := x], [h], y, map[h := y]);
    DropExactly(map[h := y], [h], map[]);
  }

  lemma ClaimThenDrop(nodes: map<uint32, AddrKey>, hs: seq<uint32>, x: AddrKey)
    ensures Claim(nodes, hs, x) - Elements(hs) == nodes <==> forall h :: h in hs ==> h !in nodes
  {}

  lemma SameIndexSameRoute(p: Params, s: RingState, t: RingState, request: string)
    requires s.nodes == t.nodes && Elements(s.entries) == Elements(t.entries)
    ensures Route(p, s, request) == Route(p, t, request)
  {}

  // ---- routing depends only on the live set ----

  /** The nodes whose last operation is an addition. */
  ghost function Live(ops: seq<Op>): set<AddrKey> {
    if ops == [] then {}
    else
      var before := Live(ops[..|ops| - 1]);
      match ops[|ops| - 1]
      case Add(x) => before + {x}
      case Remove(x) => before - {x}
  }

  ghost predicate Mentions(ops: seq<Op>, universe: set<AddrKey>) {
    forall i :: 0 <= i < |ops| ==> ops[i].node in universe
  }

  /** No hash is a virtual hash of two different nodes of `xs`. */
  ghost predicate CollisionFree(p: Params, xs: set<AddrKey>) {
    forall x, y, h :: x in xs && y in xs && h in VirtualHashes(p, x) && h in VirtualHashes(p, y) ==> x == y
  }

  /** The map sends each virtual hash of each live node to that node, and holds nothing else. */
  ghost predicate OwnsExactly(p: Params, nodes: map<uint32, AddrKey>, live: set<AddrKey>) {
    && (forall h :: h in nodes ==> nodes[h] in live && h in VirtualHashes(p, nodes[h]))
    && (forall x, h :: x in live && h in VirtualHashes(p, x) ==> h in nodes && nodes[h] == x)
  }

  lemma OwnsExactlyUnique(p: Params, a: map<uint32, AddrKey>, b: map<uint32, AddrKey>, live: set<AddrKey>)
    requires OwnsExactly(p, a, live) && OwnsExactly(p, b, live)
    ensures a == b
  {
    hide OwnsExactly;
    OwnershipGrows(p, a, b, live, live);
    OwnershipGrows(p, b, a, live, live);
  }

  lemma {:induction false} LiveSetLaw(p: Params, ops: seq<Op>, universe: set<AddrKey>)
    requires Mentions(ops, universe) && CollisionFree(p, universe)
    ensures Live(ops) <= universe
    ensures OwnsExactly(p, Run(p, ops).nodes, Live(ops))
  {
    if ops == [] {
    } else {
      var front, last := ops[..|ops| - 1], ops[|ops| - 1];
      assert Mentions(front, universe) by {
        assert forall i :: 0 <= i < |front| ==> front[i] == ops[i];
      }
      LiveSetLaw(p, front, universe);
      assert last.node in universe;
      match last {
        case Add(x) => LiveAfterAdd(p, Run(p, front), x, Live(front), universe);
        case Remove(x) => LiveAfterRemove(p, Run(p, front), x, Live(front), universe);
      }
    }
  }

  lemma LiveAfterAdd(p: Params, s: RingState, x: AddrKey, live: set<AddrKey>, universe: set<AddrKey>)
    requires live <= universe && x in universe && CollisionFree(p, universe)
    requires OwnsExactly(p, s.nodes, live)
    ensures OwnsExactly(p, Added(p, s, x).nodes, live + {x})
  {
    hide VirtualHashes;
    ClaimExactly(s.nodes, VirtualHashes(p, x), x, Added(p, s, x).nodes);
  }

  lemma LiveAfterRemove(p: Params, s: RingState, x: AddrKey, live: set<AddrKey>, universe: set<AddrKey>)
    requires live <= universe && x in universe && CollisionFree(p, universe)
    requires OwnsExactly(p, s.nodes, live)
    ensures OwnsExactly(p, Removed(p, s, x).nodes, live - {x})
  {
    hide VirtualHashes;
    var left := s.nodes - Elements(VirtualHashes(p, x));
    DropExactly(s.nodes, VirtualHashes(p, x), left);
    LiveAfterDrop(p, s.nodes, left, x, live, universe);
  }

  lemma LiveAfterDrop(p: Params, nodes: map<uint32, AddrKey>, left: map<uint32, AddrKey>, x: AddrKey, live: set<AddrKey>, universe: set<AddrKey>)
    requires live <= universe && x in universe && CollisionFree(p, universe)
    requires OwnsExactly(p, nodes, live) && DroppedFrom(nodes, VirtualHashes(p, x), left)
    ensures OwnsExactly(p, left, live - {x})
  {
    hide VirtualHashes;
  }

  /** Two histories over collision-free nodes that leave the same nodes alive
      route every request alike, once both, or neither, have had a removal. */
  lemma RoutingDependsOnLiveSet(p: Params, ops1: seq<Op>, ops2: seq<Op>, universe: set<AddrKey>, request: string)
    requires Mentions(ops1, universe) && Mentions(ops2, universe) && CollisionFree(p, universe)
    requires Live(ops1) == Live(ops2)
    requires HasRemoval(ops1) <==> HasRemoval(ops2)
    ensures Run(p, ops1).nodes == Run(p, ops2).nodes
    ensures Route(p, Run(p, ops1), request) == Route(p, Run(p, ops2), request)
  {
    LiveSetLaw(p, ops1, universe);
    LiveSetLaw(p, ops2, universe);
    OwnsExactlyUnique(p, Run(p, ops1).nodes, Run(p, ops2).nodes, Live(ops1));
    ReachableAgrees(p, ops1);
    ReachableAgrees(p, ops2);
    SameIndexSameRoute(p, Run(p, ops1), Run(p, ops2), request);
  }

  /** Minimal disruption over whole histories: when one history leaves more nodes
      alive than another, a request is routed alike by both or goes, in the larger
      ring, to one of the nodes that the smaller one lacks. */
  lemma GrowthDisruptsOnlyTowardsNewcomers(p: Params, small: seq<Op>, large: seq<Op>, universe: set<AddrKey>, request: string)
    requires Mentions(small, universe) && Mentions(large, universe) && CollisionFree(p, universe)
    requires Live(small) <= Live(large)
    requires HasRemoval(small) <==> HasRemoval(large)
    ensures var s, t := Run(p, small), Run(p, large);
            var e := Target(t, p.hasher(request));
            || Route(p, t, request) == Route(p, s, request)
            || (e.Some? && e.value in t.nodes && t.nodes[e.value] in Live(large) - Live(small))
  {
    hide Run, VirtualHashes;
    LiveSetLaw(p, small, universe);
    LiveSetLaw(p, large, universe);
    ReachableAgrees(p, small);
    ReachableAgrees(p, large);
    var s, t := Run(p, small), Run(p, large);
    OwnershipGrows(p, s.nodes, t.nodes, Live(small), Live(large));
    EmptyElements(s.entries);
    EmptyElements(t.entries);
    if t.entries != [] {
      var h := p.hasher(request);
      var e := Clockwise(t.entries, h);
      if !(e in t.nodes && t.nodes[e] in Live(large) - Live(small)) {
        assert e in Elements(s.entries);
        ClockwiseUnique(Elements(s.entries), h, e, Clockwise(s.entries, h));
      }
    }
  }

  lemma OwnershipGrows(p: Params, a: map<uint32, AddrKey>, b: map<uint32, AddrKey>, live: set<AddrKey>, more: set<AddrKey>)
    requires OwnsExactly(p, a, live) && OwnsExactly(p, b, more) && live <= more
    ensures forall h :: h in a ==> h in b && b[h] == a[h]
    ensures forall h :: h in b && b[h] in live ==> h in a
  {
    hide VirtualHashes;
  }

  // ---- the order of additions ----

  function AddAll(p: Params, s: RingState, xs: seq<AddrKey>): RingState {
    if xs == [] then s else Added(p, AddAll(p, s, xs[..|xs| - 1]), xs[|xs| - 1])
  }

  function Adds(xs: seq<AddrKey>): (ops: seq<Op>)
    ensures |ops| == |xs|
  {
    seq(|xs|, i requires 0 <= i < |xs| => Add(xs[i]))
  }

  /** `AddAll` is the history that ends with these additions. */
  lemma {:induction false} AddAllIsHistory(p: Params, ops: seq<Op>, xs: seq<AddrKey>)
    ensures Run(p, ops + Adds(xs)) == AddAll(p, Run(p, ops), xs)
  {
    hide Added, Removed, Fresh;
    if xs == [] {
      assert ops + Adds(xs) == ops;
    } else {
      var front, whole := xs[..|xs| - 1], ops + Adds(xs);
      AddAllIsHistory(p, ops, front);
      assert whole[..|whole| - 1] == ops + Adds(front);
    }
  }

  function AllHashes(p: Params, xs: seq<AddrKey>): multiset<uint32> {
    if xs == [] then multiset{}
    else AllHashes(p, xs[..|xs| - 1]) + multiset(VirtualHashes(p, xs[|xs| - 1]))
  }

  lemma {:induction false} AddAllEntries(p: Params, s: RingState, xs: seq<AddrKey>)
    ensures multiset(AddAll(p, s, xs).entries) == multiset(s.entries) + AllHashes(p, xs)
    ensures xs != [] ==> Sorted(AddAll(p, s, xs).entries)
  {
    if xs == [] {
    } else {
      AddAllEntries(p, s, xs[..|xs| - 1]);
    }
  }

  lemma {:induction false} AllHashesWithout(p: Params, xs: seq<AddrKey>, k: nat)
    requires k < |xs|
    ensures AllHashes(p, xs) == AllHashes(p, xs[..k] + xs[k + 1..]) + multiset(VirtualHashes(p, xs[k]))
  {
    hide VirtualHashes;
    var front := xs[..|xs| - 1];
    var rest := xs[..k] + xs[k + 1..];
    if k == |xs| - 1 {
      assert rest == front;
    } else {
      AllHashesWithout(p, front, k);
      assert rest[..|rest| - 1] == front[..k] + front[k + 1..];
      assert rest[|rest| - 1] == xs[|xs| - 1];
    }
  }

  lemma {:induction false} AllHashesOfPermutation(p: Params, xs: seq<AddrKey>, ys: seq<AddrKey>)
    requires multiset(xs) == multiset(ys)
    ensures AllHashes(p, xs) == AllHashes(p, ys)
  {
    hide VirtualHashes;
    assert |xs| == |multiset(xs)| == |multiset(ys)| == |ys|;
    if xs == [] {
    } else {
      var front, x := xs[..|xs| - 1], xs[|xs| - 1];
      assert xs == front + [x];
      assert x in multiset(ys);
      var k :| 0 <= k < |ys| && ys[k] == x;
      assert ys == ys[..k] + [x] + ys[k + 1..];
      assert multiset(ys[..k] + ys[k + 1..]) == multiset(ys) - multiset{x};
      assert multiset(front) == multiset(xs) - multiset{x};
      AllHashesWithout(p, ys, k);
      AllHashesOfPermutation(p, front, ys[..k] + ys[k + 1..]);
    }
  }

  /** Additions of the same nodes in another order give the same slice, element
      for element, whatever collides. */
  lemma AddOrderSameSlice(p: Params, s: RingState, xs: seq<AddrKey>, ys: seq<AddrKey>)
    requires multiset(xs) == multiset(ys)
    ensures AddAll(p, s, xs).entries == AddAll(p, s, ys).entries
  {
    assert |xs| == |multiset(xs)| == |multiset(ys)| == |ys|;
    if xs != [] {
      AddAllEntries(p, s, xs);
      AddAllEntries(p, s, ys);
      AllHashesOfPermutation(p, xs, ys);
      OneAscendingOrder(AddAll(p, s, xs).entries, AddAll(p, s, ys).entries);
    }
  }

  /** Every order of the additions `xs` gives the same map. */
  ghost predicate OrderIrrelevant(p: Params, s: RingState, xs: seq<AddrKey>) {
    forall ys :: multiset(ys) == multiset(xs) ==> AddAll(p, s, ys).nodes == AddAll(p, s, xs).nodes
  }

  ghost function Members(xs: seq<AddrKey>): set<AddrKey> {
    set x | x in xs
  }

  /** `nodes` is `before` with every node of `xs` owning all its hashes. */
  ghost predicate OverlaidBy(p: Params, before: map<uint32, AddrKey>, xs: set<AddrKey>, nodes: map<uint32, AddrKey>) {
    && (forall h :: h in before ==> h in nodes)
    && (forall x, h :: x in xs && h in VirtualHashes(p, x) ==> h in nodes && nodes[h] == x)
    && (forall h :: h in nodes ==>
          || (nodes[h] in xs && h in VirtualHashes(p, nodes[h]))
          || (h in before && nodes[h] == before[h] && forall x :: x in xs ==> h !in VirtualHashes(p, x)))
  }

  lemma OverlayUnique(p: Params, before: map<uint32, AddrKey>, xs: set<AddrKey>, a: map<uint32, AddrKey>, b: map<uint32, AddrKey>)
    requires OverlaidBy(p, before, xs, a) && OverlaidBy(p, before, xs, b)
    ensures a == b
  {
    hide VirtualHashes;
    assert forall h :: h in a ==> h in b && b[h] == a[h];
    assert forall h :: h in b ==> h in a;
  }

  lemma {:induction false} AddAllOverlays(p: Params, s: RingState, xs: seq<AddrKey>)
    requires CollisionFree(p, Members(xs))
    ensures OverlaidBy(p, s.nodes, Members(xs), AddAll(p, s, xs).nodes)
  {
    if xs == [] {
    } else {
      var front, x := xs[..|xs| - 1], xs[|xs| - 1];
      assert xs == front + [x];
      assert Members(xs) == Members(front) + {x};
      AddAllOverlays(p, s, front);
      OverlayStep(p, s.nodes, AddAll(p, s, front), Members(front), x);
    }
  }

  lemma OverlayStep(p: Params, before: map<uint32, AddrKey>, s: RingState, xs: set<AddrKey>, x: AddrKey)
    requires CollisionFree(p, xs + {x}) && OverlaidBy(p, before, xs, s.nodes)
    ensures OverlaidBy(p, before, xs + {x}, Added(p, s, x).nodes)
  {
    hide VirtualHashes;
    ClaimExactly(s.nodes, VirtualHashes(p, x), x, Added(p, s, x).nodes);
    OverlayClaim(p, before, s.nodes, xs, x, Added(p, s, x).nodes);
  }

  lemma OverlayClaim(p: Params, before: map<uint32, AddrKey>, nodes: map<uint32, AddrKey>, xs: set<AddrKey>, x: AddrKey, owned: map<uint32, AddrKey>)
    requires CollisionFree(p, xs + {x}) && OverlaidBy(p, before, xs, nodes)
    requires ClaimedBy(nodes, VirtualHashes(p, x), x, owned)
    ensures OverlaidBy(p, before, xs + {x}, owned)
  {
    hide VirtualHashes;
  }

  /** The map does not depend on the order of the additions exactly when no two
      of the added nodes share a virtual hash. */
  lemma AddOrderSameMapExactly(p: Params, s: RingState, xs: seq<AddrKey>)
    ensures OrderIrrelevant(p, s, xs) <==> CollisionFree(p, Members(xs))
  {
    if CollisionFree(p, Members(xs)) {
      forall ys | multiset(ys) == multiset(xs)
        ensures AddAll(p, s, ys).nodes == AddAll(p, s, xs).nodes
      {
        SameMembers(xs, ys);
        AddAllOverlays(p, s, xs);
        AddAllOverlays(p, s, ys);
        OverlayUnique(p, s.nodes, Members(xs), AddAll(p, s, xs).nodes, AddAll(p, s, ys).nodes);
      }
    } else {
      var x, y, h :| x in Members(xs) && y in Members(xs) && x != y
                     && h in VirtualHashes(p, x) && h in VirtualHashes(p, y);
      var a := EndingIn(xs, x);
      var b := EndingIn(xs, y);
      assert AddAll(p, s, a).nodes[h] == x;
      assert AddAll(p, s, b).nodes[h] == y;
    }
  }

  lemma SameMembers(xs: seq<AddrKey>, ys: seq<AddrKey>)
    requires multiset(xs) == multiset(ys)
    ensures Members(xs) == Members(ys)
  {
    forall x ensures x in xs <==> x in ys {
      assert x in xs <==> x in multiset(xs);
      assert x in ys <==> x in multiset(ys);
    }
  }

  ghost function EndingIn(xs: seq<AddrKey>, x: AddrKey): (ys: seq<AddrKey>)
    requires x in xs
    ensures multiset(ys) == multiset(xs) && ys != [] && ys[|ys| - 1] == x
  {
    var k :| 0 <= k < |xs| && xs[k] == x;
    assert xs == xs[..k] + [x] + xs[k + 1..];
    xs[..k] + xs[k + 1..] + [x]
  }
}
