/** How a ring divides the 2^32 request hashes among its entries and its nodes. */
module HashSpace {
  import opened Words
  import opened Sorting
  import opened Labels
  import opened Ring
  import opened RingHistory

  /** The request hashes between the entry before `ks[i]` (exclusive) and `ks[i]`
      (inclusive); the arc of the first entry wraps around past the last one. */
  ghost predicate InArc(ks: seq<uint32>, i: nat, h: int)
    requires i < |ks|
  {
    if i == 0 then h <= ks[0] || ks[|ks| - 1] < h else ks[i - 1] < h <= ks[i]
  }

  function ArcLength(ks: seq<uint32>, i: nat): int
    requires i < |ks|
  {
    if i == 0 then ks[0] + TWO32 - ks[|ks| - 1] else ks[i] as int - ks[i - 1] as int
  }

  /** An entry is clockwise from exactly the hashes of its arc. */
  lemma ArcExactly(ks: seq<uint32>, i: nat, h: uint32)
    requires StrictlySorted(ks) && i < |ks|
    ensures Clockwise(ks, h) == ks[i] <==> InArc(ks, i, h)
  {
    var e := Clockwise(ks, h);
    var n :| 0 <= n < |ks| && ks[n] == e;
    assert ks[0] in Elements(ks) && ks[|ks| - 1] in Elements(ks) && ks[i] in Elements(ks);
    if i > 0 { assert ks[i - 1] in Elements(ks); }
  }

  /** The integers above `a` and up to `b`. */
  ghost function Span(a: int, b: int): (r: set<int>)
    ensures a <= b ==> |r| == b - a
    ensures forall h :: h in r <==> a < h <= b
    decreases b - a
  {
    if a >= b then {} else Span(a, b - 1) + {b}
  }

  ghost function Arc(ks: seq<uint32>, i: nat): set<int>
    requires i < |ks|
  {
    set h: int | 0 <= h < TWO32 && InArc(ks, i, h)
  }

  lemma ArcSize(ks: seq<uint32>, i: nat)
    requires StrictlySorted(ks) && i < |ks|
    ensures |Arc(ks, i)| == ArcLength(ks, i)
  {
    if i == 0 {
      var low, high := Span(-1, ks[0]), Span(ks[|ks| - 1], TWO32 - 1);
      assert Arc(ks, i) == low + high;
      assert low !! high;
    } else {
      assert Arc(ks, i) == Span(ks[i - 1], ks[i]);
    }
  }

  // ---- shares of the nodes ----

  /** The request hashes in the arcs of `x` among the first `n` entries of `ks`. */
  ghost function HashesOf(owners: seq<AddrKey>, ks: seq<uint32>, x: AddrKey, n: nat): set<int>
    requires n <= |ks| == |owners|
  {
    if n == 0 then {}
    else HashesOf(owners, ks, x, n - 1) + if owners[n - 1] == x then Arc(ks, n - 1) else {}
  }

  /** The summed lengths of the arcs of `x` among the first `n` entries. */
  ghost function Share(owners: seq<AddrKey>, ks: seq<uint32>, x: AddrKey, n: nat): int
    requires n <= |ks| == |owners|
  {
    if n == 0 then 0
    else Share(owners, ks, x, n - 1) + if owners[n - 1] == x then ArcLength(ks, n - 1) else 0
  }

  /** A hash whose clockwise entry is `ks[k]` belongs to the owner of `ks[k]` alone. */
  lemma {:induction false} HashesOfMember(owners: seq<AddrKey>, ks: seq<uint32>, x: AddrKey, n: nat, h: uint32, k: nat)
    requires n <= |ks| == |owners| && StrictlySorted(ks)
    requires k < |ks| && Clockwise(ks, h) == ks[k]
    ensures h in HashesOf(owners, ks, x, n) <==> k < n && owners[k] == x
  {
    if n == 0 {
    } else {
      HashesOfMember(owners, ks, x, n - 1, h, k);
      ArcExactly(ks, n - 1, h);
      assert ks[n - 1] == ks[k] <==> n - 1 == k;
    }
  }

  lemma {:induction false} HashesOfSize(owners: seq<AddrKey>, ks: seq<uint32>, x: AddrKey, n: nat)
    requires n <= |ks| == |owners| && StrictlySorted(ks)
    ensures |HashesOf(owners, ks, x, n)| == Share(owners, ks, x, n)
  {
    if n == 0 {
    } else {
      hide Arc, ArcLength, StrictlySorted, HashesOf;
      HashesOfSize(owners, ks, x, n - 1);
      HashesOfGrowth(owners, ks, x, n - 1);
    }
  }

  lemma HashesOfGrowth(owners: seq<AddrKey>, ks: seq<uint32>, x: AddrKey, n: nat)
    requires n < |ks| == |owners| && StrictlySorted(ks)
    ensures |HashesOf(owners, ks, x, n + 1)| ==
            |HashesOf(owners, ks, x, n)| + if owners[n] == x then ArcLength(ks, n) else 0
  {
    hide Arc, ArcLength, StrictlySorted;
    ArcSize(ks, n);
    ArcIsNew(owners, ks, x, n);
    ExtendedSize(HashesOf(owners, ks, x, n), Arc(ks, n), owners[n] == x);
  }

  lemma ExtendedSize(a: set<int>, b: set<int>, extended: bool)
    requires a !! b
    ensures |a + if extended then b else {}| == |a| + if extended then |b| else 0
  {}

  lemma ArcIsNew(owners: seq<AddrKey>, ks: seq<uint32>, x: AddrKey, n: nat)
    requires n < |ks| == |owners| && StrictlySorted(ks)
    ensures HashesOf(owners, ks, x, n) !! Arc(ks, n)
  {
    forall h | h in Arc(ks, n) ensures h !in HashesOf(owners, ks, x, n) {
      ArcExactly(ks, n, h);
      HashesOfMember(owners, ks, x, n, h, n);
    }
  }

  ghost predicate Distinct(xs: seq<AddrKey>) {
    forall i, j :: 0 <= i < j < |xs| ==> xs[i] != xs[j]
  }

  ghost function Shares(owners: seq<AddrKey>, ks: seq<uint32>, xs: seq<AddrKey>, n: nat): int
    requires n <= |ks| == |owners|
  {
    if xs == [] then 0
    else Shares(owners, ks, xs[..|xs| - 1], n) + Share(owners, ks, xs[|xs| - 1], n)
  }

  lemma {:induction false} SharesStep(owners: seq<AddrKey>, ks: seq<uint32>, xs: seq<AddrKey>, n: nat)
    requires 0 < n <= |ks| == |owners| && Distinct(xs)
    ensures Shares(owners, ks, xs, n) ==
            Shares(owners, ks, xs, n - 1) + if owners[n - 1] in xs then ArcLength(ks, n - 1) else 0
  {
    if xs == [] {
    } else {
      var front, x := xs[..|xs| - 1], xs[|xs| - 1];
      SharesStep(owners, ks, front, n);
      assert xs == front + [x];
      assert x !in front;
    }
  }

  lemma {:induction false} SharesTelescope(owners: seq<AddrKey>, ks: seq<uint32>, xs: seq<AddrKey>, n: nat)
    requires n <= |ks| == |owners| && Distinct(xs)
    requires forall k :: 0 <= k < |ks| ==> owners[k] in xs
    ensures Shares(owners, ks, xs, n) == if n == 0 then 0 else ks[n - 1] + TWO32 - ks[|ks| - 1]
  {
    if n == 0 {
      NoShares(owners, ks, xs);
    } else {
      SharesTelescope(owners, ks, xs, n - 1);
      SharesStep(owners, ks, xs, n);
    }
  }

  lemma {:induction false} NoShares(owners: seq<AddrKey>, ks: seq<uint32>, xs: seq<AddrKey>)
    requires |ks| == |owners|
    ensures Shares(owners, ks, xs, 0) == 0
  {
    if xs == [] {
    } else {
      NoShares(owners, ks, xs[..|xs| - 1]);
    }
  }

  // ---- conservation on reachable rings ----

  /** The request hashes that the ring `s` sends to the node `x`. */
  ghost function Attracted(s: RingState, x: AddrKey): set<int>
    requires s.entries != []
  {
    set h: int | 0 <= h < TWO32 && Owner(s, Clockwise(s.entries, h)) == x
  }

  ghost function TotalAttracted(s: RingState, xs: seq<AddrKey>): int
    requires s.entries != []
  {
    if xs == [] then 0 else TotalAttracted(s, xs[..|xs| - 1]) + |Attracted(s, xs[|xs| - 1])|
  }

  /** The owner of each entry of `ks`. */
  ghost function OwnersOf(s: RingState, ks: seq<uint32>): (owners: seq<AddrKey>)
    ensures |owners| == |ks| && forall i :: 0 <= i < |ks| ==> owners[i] == Owner(s, ks[i])
  {
    seq(|ks|, i requires 0 <= i < |ks| => Owner(s, ks[i]))
  }

  /** On a ring whose slice lists its keys, as after any removal, a node attracts
      as many request hashes as the arcs ending at its entries are long. */
  lemma AttractedIsShare(s: RingState, x: AddrKey)
    requires s.entries != [] && Elements(s.entries) == s.nodes.Keys
    ensures var ks := Ascending(s.nodes.Keys);
            |Attracted(s, x)| == Share(OwnersOf(s, ks), ks, x, |ks|)
  {
    var ks := Ascending(s.nodes.Keys);
    var owners := OwnersOf(s, ks);
    forall h: int | 0 <= h < TWO32
      ensures h in Attracted(s, x) <==> h in HashesOf(owners, ks, x, |ks|)
    {
      ClockwiseOfSet(s.entries, ks, h);
      var k :| 0 <= k < |ks| && ks[k] == Clockwise(ks, h);
      HashesOfMember(owners, ks, x, |ks|, h, k);
    }
    HashesOfBound(owners, ks, x, |ks|);
    assert Attracted(s, x) == HashesOf(owners, ks, x, |ks|);
    HashesOfSize(owners, ks, x, |ks|);
  }

  lemma {:induction false} HashesOfBound(owners: seq<AddrKey>, ks: seq<uint32>, x: AddrKey, n: nat)
    requires n <= |ks| == |owners|
    ensures forall h :: h in HashesOf(owners, ks, x, n) ==> 0 <= h < TWO32
  {
    if n == 0 {
    } else {
      HashesOfBound(owners, ks, x, n - 1);
    }
  }

  lemma {:induction false} TotalIsShares(s: RingState, xs: seq<AddrKey>)
    requires s.entries != [] && Elements(s.entries) == s.nodes.Keys
    ensures var ks := Ascending(s.nodes.Keys);
            TotalAttracted(s, xs) == Shares(OwnersOf(s, ks), ks, xs, |ks|)
  {
    if xs == [] {
    } else {
      TotalIsShares(s, xs[..|xs| - 1]);
      AttractedIsShare(s, xs[|xs| - 1]);
    }
  }

  /** After any history with a removal that leaves something on the ring, the
      numbers of request hashes attracted by the nodes on it add up to 2^32:
      every hash is served, and by one node only. */
  lemma HashSpaceConserved(p: Params, ops: seq<Op>, xs: seq<AddrKey>)
    requires HasRemoval(ops) && Run(p, ops).nodes != map[]
    requires Distinct(xs) && forall h :: h in Run(p, ops).nodes ==> Run(p, ops).nodes[h] in xs
    ensures Run(p, ops).entries != [] && TotalAttracted(Run(p, ops), xs) == TWO32
  {
    var s := Run(p, ops);
    ReachableAgrees(p, ops);
    EmptyElements(s.entries);
    assert s.nodes.Keys != {};
    var ks := Ascending(s.nodes.Keys);
    TotalIsShares(s, xs);
    forall k | 0 <= k < |ks| ensures OwnersOf(s, ks)[k] in xs {
      assert ks[k] in Elements(ks);
    }
    SharesTelescope(OwnersOf(s, ks), ks, xs, |ks|);
  }
}
