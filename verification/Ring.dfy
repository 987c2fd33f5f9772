/** The consistent-hash ring: the value-level meaning of its operations, and the
    object that carries them out step by step. */
module Ring {
  import opened Words
  import opened Sorting
  import opened Labels

  const MAX_NUMBER_VIRTUAL_NODE_ENTRIES: nat := 8192

  /** What a ring is built with: any hash function, and the number of virtual nodes per node. */
  datatype Params = Params(hasher: string -> uint32, numVirtualNodes: int)

  /** `entries` is the slice that is searched, `nodes` the owner of each hash. */
  datatype RingState = RingState(entries: seq<uint32>, nodes: map<uint32, AddrKey>)

  function Replicas(p: Params): nat {
    if p.numVirtualNodes < 0 then 0 else p.numVirtualNodes
  }

  function VirtualHash(p: Params, x: AddrKey, i: nat): uint32 {
    p.hasher(Label(x, i))
  }

  /** The hashes of the virtual nodes of `x`, in index order. */
  function VirtualHashes(p: Params, x: AddrKey): (s: seq<uint32>)
    ensures |s| == Replicas(p)
  {
    seq(Replicas(p), (i: nat) => VirtualHash(p, x, i))
  }

  function Placeholders(): seq<uint32> {
    seq(MAX_NUMBER_VIRTUAL_NODE_ENTRIES, _ => 0)
  }

  function Fresh(): RingState {
    RingState(Placeholders(), map[])
  }

  /** `x` takes over every one of the hashes `hs`. */
  function Claim(nodes: map<uint32, AddrKey>, hs: seq<uint32>, x: AddrKey): map<uint32, AddrKey> {
    nodes + map h | h in hs :: x
  }

  function Added(p: Params, s: RingState, x: AddrKey): RingState {
    RingState(Sort(s.entries + VirtualHashes(p, x)), Claim(s.nodes, VirtualHashes(p, x), x))
  }

  ghost function Removed(p: Params, s: RingState, x: AddrKey): RingState {
    var nodes := s.nodes - Elements(VirtualHashes(p, x));
    RingState(Ascending(nodes.Keys), nodes)
  }

  /** Reading a hash that has no owner gives the zero address. */
  function Owner(s: RingState, e: uint32): AddrKey {
    if e in s.nodes then s.nodes[e] else AddrKey(0, 0, 0)
  }

  /** The entry a request hash is sent to, by linear scan; none on an empty slice. */
  function Target(s: RingState, h: uint32): Option<uint32> {
    if s.entries == [] then None else Some(Clockwise(s.entries, h))
  }

  /** The address text a request is routed to; `None` is the index-out-of-range
      panic that an empty slice causes. */
  function Route(p: Params, s: RingState, request: string): Option<string> {
    match Target(s, p.hasher(request))
    case None => None
    case Some(e) => Some(AddrToString(Owner(s, e)))
  }

  /** The answer to a request is exactly the text "ip:port" of the node that owns
      the clockwise entry of the request's hash, or "0:0" if nobody does. */
  lemma AnswerReads(p: Params, s: RingState, request: string, t: string)
    requires s.entries != []
    ensures var e := Clockwise(s.entries, p.hasher(request));
            var ip, port := if e in s.nodes then s.nodes[e].ip else 0, if e in s.nodes then s.nodes[e].port else 0;
            Route(p, s, request) == Some(t) <==> exists k :: IsAddrText(t, k, ip, port)
  {
    hide IsAddrText, AddrToString;
    AddrTextExactly(Owner(s, Clockwise(s.entries, p.hasher(request))), t);
  }

  /** In `owned`, exactly `x` holds the hashes `hs`, and every other hash is as in `before`. */
  ghost predicate ClaimedBy(before: map<uint32, AddrKey>, hs: seq<uint32>, x: AddrKey, owned: map<uint32, AddrKey>) {
    && (forall h :: h in owned <==> h in before || h in hs)
    && (forall h :: h in owned ==> owned[h] == if h in hs then x else before[h])
  }

  lemma ClaimExactly(before: map<uint32, AddrKey>, hs: seq<uint32>, x: AddrKey, owned: map<uint32, AddrKey>)
    ensures owned == Claim(before, hs, x) <==> ClaimedBy(before, hs, x, owned)
  {}

  lemma ClaimStep(before: map<uint32, AddrKey>, hs: seq<uint32>, h: uint32, x: AddrKey)
    ensures Claim(before, hs + [h], x) == Claim(before, hs, x)[h := x]
  {}

  lemma DropStep(before: map<uint32, AddrKey>, hs: seq<uint32>, h: uint32)
    ensures before - Elements(hs + [h]) == (before - Elements(hs)) - {h}
  {}

  /** `Added` without its sorting algorithm: the new slice is the ascending one
      that holds the old entries and the new hashes with all repetitions, and
      the new map differs from the old one just by `x` owning its own hashes. */
  lemma AddedExactly(p: Params, s: RingState, x: AddrKey, t: RingState)
    ensures t == Added(p, s, x) <==>
            && Sorted(t.entries)
            && multiset(t.entries) == multiset(s.entries) + multiset(VirtualHashes(p, x))
            && ClaimedBy(s.nodes, VirtualHashes(p, x), x, t.nodes)
  {
    var hs := VirtualHashes(p, x);
    ClaimExactly(s.nodes, hs, x, t.nodes);
    if Sorted(t.entries) && multiset(t.entries) == multiset(s.entries) + multiset(hs) {
      OneAscendingOrder(t.entries, Sort(s.entries + hs));
    }
  }

  /** `left` is `before` without the hashes `hs`. */
  ghost predicate DroppedFrom(before: map<uint32, AddrKey>, hs: seq<uint32>, left: map<uint32, AddrKey>) {
    && (forall h :: h in left <==> h in before && h !in hs)
    && (forall h :: h in left ==> left[h] == before[h])
  }

  lemma DropExactly(before: map<uint32, AddrKey>, hs: seq<uint32>, left: map<uint32, AddrKey>)
    ensures left == before - Elements(hs) <==> DroppedFrom(before, hs, left)
  {}

  /** `Removed` without the rebuilding: the new map loses exactly the hashes of
      `x`, whoever owned them, and the new slice lists its keys in strictly
      ascending order. */
  lemma RemovedExactly(p: Params, s: RingState, x: AddrKey, t: RingState)
    ensures t == Removed(p, s, x) <==>
            && StrictlySorted(t.entries)
            && Elements(t.entries) == t.nodes.Keys
            && DroppedFrom(s.nodes, VirtualHashes(p, x), t.nodes)
  {
    hide VirtualHashes;
    DropExactly(s.nodes, VirtualHashes(p, x), t.nodes);
    if StrictlySorted(t.entries) && Elements(t.entries) == t.nodes.Keys {
      StrictListingsAgree(t.entries, Ascending(t.nodes.Keys));
    }
  }

  lemma StrictListingsAgree(a: seq<uint32>, b: seq<uint32>)
    requires StrictlySorted(a) && StrictlySorted(b) && Elements(a) == Elements(b)
    ensures a == b
  {
    StrictLength(a);
    StrictLength(b);
    ListingIsMultiset(a, Elements(a));
    ListingIsMultiset(b, Elements(b));
    OneAscendingOrder(a, b);
  }

  lemma {:induction false} StrictLength(a: seq<uint32>)
    requires StrictlySorted(a)
    ensures |a| == |Elements(a)|
  {
    if a == [] {
      assert Elements(a) == {};
    } else {
      var t := a[1..];
      StrictLength(t);
      assert a == [a[0]] + t;
      assert Elements(a) == Elements(t) + {a[0]};
      assert a[0] !in t;
    }
  }

  class HashRing {
    var entries: seq<uint32>
    var nodes: map<uint32, AddrKey>
    const numVirtualNodes: int
    const hasher: string -> uint32

    function Configuration(): Params {
      Params(hasher, numVirtualNodes)
    }

    function State(): RingState
      reads this
    {
      RingState(entries, nodes)
    }

    ghost predicate Valid()
      reads this
    {
      Sorted(entries)
    }

    constructor (hasher: string -> uint32, numVirtualNodes: int)
      ensures Valid()
      ensures Configuration() == Params(hasher, numVirtualNodes)
      ensures State() == Fresh()
    {
      this.entries := Placeholders();
      this.nodes := map[];
      this.numVirtualNodes := numVirtualNodes;
      this.hasher := hasher;
    }

    method AddNode(node: AddrKey)
      modifies this`entries, this`nodes
      ensures Valid()
      ensures State() == Added(Configuration(), old(State()), node)
    {
      ghost var hs := VirtualHashes(Configuration(), node);
      var i := 0;
      while i < numVirtualNodes
        invariant 0 <= i <= |hs|
        invariant entries == old(entries) + hs[..i]
        invariant nodes == Claim(old(nodes), hs[..i], node)
      {
        var hash := hasher(Label(node, i));
        assert hs[..i + 1] == hs[..i] + [hash];
        ClaimStep(old(nodes), hs[..i], hash, node);
        entries := entries + [hash];
        nodes := nodes[hash := node];
        i := i + 1;
      }
      assert hs[..i] == hs;
      entries := SortSlice(entries);
    }

    method RemoveNode(node: AddrKey)
      modifies this`entries, this`nodes
      ensures Valid()
      ensures State() == Removed(Configuration(), old(State()), node)
    {
      hide VirtualHashes;
      DeleteHashes(node);
      var listing := ListKeys();
      SortOfListing(listing, nodes.Keys);
      entries := SortSlice(listing);
    }

    method DeleteHashes(node: AddrKey)
      modifies this`nodes
      ensures nodes == old(nodes) - Elements(VirtualHashes(Configuration(), node))
    {
      ghost var hs := VirtualHashes(Configuration(), node);
      var i := 0;
      while i < numVirtualNodes
        invariant 0 <= i <= |hs|
        invariant nodes == old(nodes) - Elements(hs[..i])
      {
        var hash := hasher(Label(node, i));
        assert hs[..i + 1] == hs[..i] + [hash];
        DropStep(old(nodes), hs[..i], hash);
        nodes := nodes - {hash};
        i := i + 1;
      }
      assert hs[..i] == hs;
    }

    /** Ranging over the map visits every key once, in an order that is not specified. */
    method ListKeys() returns (listing: seq<uint32>)
      ensures Elements(listing) == nodes.Keys && |listing| == |nodes.Keys|
    {
      listing := [];
      var left := nodes.Keys;
      while left != {}
        invariant left <= nodes.Keys
        invariant Elements(listing) == nodes.Keys - left
        invariant |listing| + |left| == |nodes.Keys|
        decreases |left|
      {
        var hash :| hash in left;
        assert Elements(listing + [hash]) == Elements(listing) + {hash};
        listing := listing + [hash];
        left := left - {hash};
      }
    }

    method GetNode(requestKey: string) returns (address: Option<string>)
      requires Valid()
      ensures address == Route(Configuration(), State(), requestKey)
    {
      var hash := hasher(requestKey);
      var i := Search(entries, hash);
      if entries == [] {
        return None;
      }
      SearchIsScan(entries, hash, i);
      if i == |entries| {
        i := 0;
      }
      var e := entries[i];
      address := Some(AddrToString(if e in nodes then nodes[e] else AddrKey(0, 0, 0)));
    }
  }
}
