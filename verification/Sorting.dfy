/** `sort.Slice` and `sort.Search` on slices of virtual-node hashes, and the clockwise search they serve. */
module Sorting {
  import opened Words

  ghost predicate Sorted(s: seq<uint32>) {
    forall i, j :: 0 <= i < j < |s| ==> s[i] <= s[j]
  }

  ghost predicate StrictlySorted(s: seq<uint32>) {
    forall i, j :: 0 <= i < j < |s| ==> s[i] < s[j]
  }

  function Elements(s: seq<uint32>): set<uint32> {
    set x | x in s
  }

  lemma EmptyElements(s: seq<uint32>)
    ensures s == [] <==> Elements(s) == {}
  {
    if s != [] { assert s[0] in Elements(s); }
  }

  // ---- sort.Slice ----

  lemma ConsSorted(x: uint32, t: seq<uint32>)
    requires Sorted(t) && forall j :: 0 <= j < |t| ==> x <= t[j]
    ensures Sorted([x] + t)
  {}

  /** Insertion of `x` into an ascending sequence. */
  function Insert(x: uint32, s: seq<uint32>): (r: seq<uint32>)
    ensures multiset(r) == multiset(s) + multiset{x}
  {
    if s == [] || x <= s[0] then [x] + s
    else
      assert s == [s[0]] + s[1..];
      [s[0]] + Insert(x, s[1..])
  }

  lemma {:induction false} InsertSorted(x: uint32, s: seq<uint32>)
    requires Sorted(s)
    ensures Sorted(Insert(x, s))
  {
    if s == [] || x <= s[0] {
      ConsSorted(x, s);
    } else {
      var t := Insert(x, s[1..]);
      InsertSorted(x, s[1..]);
      forall j | 0 <= j < |t| ensures s[0] <= t[j] {
        assert t[j] in multiset(t);
      }
      ConsSorted(s[0], t);
    }
  }

  /** The ascending rearrangement of `s`. */
  function Sort(s: seq<uint32>): (r: seq<uint32>)
    ensures Sorted(r) && multiset(r) == multiset(s)
  {
    if s == [] then []
    else
      assert s == s[..|s| - 1] + [s[|s| - 1]];
      InsertSorted(s[|s| - 1], Sort(s[..|s| - 1]));
      Insert(s[|s| - 1], Sort(s[..|s| - 1]))
  }

  lemma WithoutLast(s: seq<uint32>)
    requires s != [] && Sorted(s)
    ensures s == s[..|s| - 1] + [s[|s| - 1]] && Sorted(s[..|s| - 1])
    ensures multiset(s[..|s| - 1]) == multiset(s) - multiset{s[|s| - 1]}
  {
    assert s == s[..|s| - 1] + [s[|s| - 1]];
  }

  lemma LastIsGreatest(s: seq<uint32>, x: uint32)
    requires Sorted(s) && x in multiset(s)
    ensures s != [] && x <= s[|s| - 1]
  {
    var i :| 0 <= i < |s| && s[i] == x;
  }

  /** A sequence is determined by being ascending and by its multiset, so any
      correct sorting algorithm gives the slice that `Sort` gives. */
  lemma {:induction false} OneAscendingOrder(a: seq<uint32>, b: seq<uint32>)
    requires Sorted(a) && Sorted(b) && multiset(a) == multiset(b)
    ensures a == b
  {
    hide Sorted;
    var n := |multiset(a)|;
    assert |a| == n && |b| == n;
    if n == 0 {
    } else {
      LastIsGreatest(a, b[n - 1]);
      LastIsGreatest(b, a[n - 1]);
      WithoutLast(a);
      WithoutLast(b);
      OneAscendingOrder(a[..n - 1], b[..n - 1]);
    }
  }

  lemma SortKeepsElements(s: seq<uint32>)
    ensures Elements(Sort(s)) == Elements(s) && |Sort(s)| == |s|
  {
    var r := Sort(s);
    forall x ensures x in r <==> x in s {
      assert x in r <==> x in multiset(r);
      assert x in s <==> x in multiset(s);
    }
    assert |multiset(r)| == |multiset(s)|;
  }

  /** The sort as a loop: each element is placed behind the last one that is not greater. */
  method SortSlice(s: seq<uint32>) returns (r: seq<uint32>)
    ensures Sorted(r)
    ensures multiset(r) == multiset(s)
    ensures r == Sort(s)
  {
    r := [];
    var i := 0;
    while i < |s|
      invariant 0 <= i <= |s|
      invariant Sorted(r)
      invariant multiset(r) == multiset(s[..i])
    {
      var k := Place(r, s[i]);
      PlaceKeepsOrder(r, s[i], k);
      assert s[..i + 1] == s[..i] + [s[i]];
      r := r[..k] + [s[i]] + r[k..];
      i := i + 1;
    }
    assert s[..i] == s;
    OneAscendingOrder(r, Sort(s));
  }

  method Place(r: seq<uint32>, x: uint32) returns (k: nat)
    requires Sorted(r)
    ensures k <= |r|
    ensures forall j :: 0 <= j < k ==> r[j] <= x
    ensures forall j :: k <= j < |r| ==> x < r[j]
  {
    k := |r|;
    while k > 0 && x < r[k - 1]
      invariant 0 <= k <= |r|
      invariant forall j :: k <= j < |r| ==> x < r[j]
    {
      k := k - 1;
    }
  }

  lemma PlaceKeepsOrder(r: seq<uint32>, x: uint32, k: nat)
    requires Sorted(r) && k <= |r|
    requires forall j :: 0 <= j < k ==> r[j] <= x
    requires forall j :: k <= j < |r| ==> x < r[j]
    ensures Sorted(r[..k] + [x] + r[k..])
    ensures multiset(r[..k] + [x] + r[k..]) == multiset(r) + multiset{x}
  {
    assert r == r[..k] + r[k..];
  }

  // ---- the keys of a map, ascending ----

  ghost function Minimum(s: set<uint32>): (m: uint32)
    requires s != {}
    ensures m in s && forall x :: x in s ==> m <= x
  {
    var y :| y in s;
    assert forall x :: x in s ==> x == y || x in s - {y};
    if s - {y} == {} then y
    else
      var m := Minimum(s - {y});
      if m <= y then m else y
  }

  lemma ConsStrictlySorted(m: uint32, t: seq<uint32>)
    requires StrictlySorted(t) && forall j :: 0 <= j < |t| ==> m < t[j]
    ensures StrictlySorted([m] + t) && Elements([m] + t) == Elements(t) + {m}
  {}

  lemma PutFirst(s: set<uint32>, m: uint32, t: seq<uint32>)
    requires m in s && (forall x :: x in s ==> m <= x)
    requires StrictlySorted(t) && Elements(t) == s - {m}
    ensures StrictlySorted([m] + t) && Elements([m] + t) == s
  {
    forall j | 0 <= j < |t| ensures m < t[j] {
      assert t[j] in Elements(t);
    }
    ConsStrictlySorted(m, t);
    assert Elements([m] + t) == {m} + Elements(t);
  }

  /** The members of a set in ascending order. */
  ghost function Ascending(s: set<uint32>): (r: seq<uint32>)
    ensures StrictlySorted(r) && Elements(r) == s && |r| == |s|
  {
    if s == {} then []
    else
      var m := Minimum(s);
      var t := Ascending(s - {m});
      PutFirst(s, m, t);
      [m] + t
  }

  /** A duplicate-free listing of a set, in whatever order, sorts to `Ascending`. */
  lemma SortOfListing(s: seq<uint32>, keys: set<uint32>)
    requires Elements(s) == keys && |s| == |keys|
    ensures Sort(s) == Ascending(keys)
  {
    var a := Ascending(keys);
    ListingIsMultiset(s, keys);
    ListingIsMultiset(a, keys);
    OneAscendingOrder(Sort(s), a);
  }

  lemma {:induction false} ListingIsMultiset(s: seq<uint32>, keys: set<uint32>)
    requires Elements(s) == keys && |s| == |keys|
    ensures multiset(s) == multiset(keys)
  {
    if s == [] {
      assert keys == {};
    } else {
      var t := s[1..];
      assert s == [s[0]] + t;
      assert s[0] in keys;
      assert keys == Elements(t) + {s[0]};
      ElementsBound(t);
      assert s[0] in Elements(t) ==> Elements(t) == keys;
      assert Elements(t) == keys - {s[0]};
      ListingIsMultiset(t, keys - {s[0]});
    }
  }

  lemma {:induction false} ElementsBound(s: seq<uint32>)
    ensures |Elements(s)| <= |s|
  {
    if s == [] {
      assert Elements(s) == {};
    } else {
      ElementsBound(s[1..]);
      assert s == [s[0]] + s[1..];
      assert Elements(s) == Elements(s[1..]) + {s[0]};
    }
  }

  // ---- clockwise search ----

  /** `e` is the entry clockwise from `h`: the least entry not below `h`, and
      when there is none, the least entry of all. */
  ghost predicate IsClockwise(entries: set<uint32>, h: uint32, e: uint32) {
    && e in entries
    && if h <= e then forall k :: k in entries && h <= k ==> e <= k
       else forall k :: k in entries ==> k < h && e <= k
  }

  /** Linear scan: the least entry that is at least `h`, in any slice, sorted or not. */
  function LeastFrom(s: seq<uint32>, h: uint32): (r: Option<uint32>)
    ensures r.None? ==> forall k :: k in s ==> k < h
    ensures r.Some? ==> r.value in s && h <= r.value && forall k :: k in s && h <= k ==> r.value <= k
  {
    if s == [] then None
    else
      var rest := LeastFrom(s[1..], h);
      assert s == [s[0]] + s[1..];
      if s[0] < h || (rest.Some? && rest.value <= s[0]) then rest else Some(s[0])
  }

  /** Linear-scan clockwise entry. */
  function Clockwise(s: seq<uint32>, h: uint32): (e: uint32)
    requires s != []
    ensures IsClockwise(Elements(s), h, e)
  {
    var up := LeastFrom(s, h);
    if up.Some? then up.value
    else
      assert s[0] in s;
      LeastFrom(s, 0).value
  }

  lemma ClockwiseUnique(entries: set<uint32>, h: uint32, a: uint32, b: uint32)
    requires IsClockwise(entries, h, a) && IsClockwise(entries, h, b)
    ensures a == b
  {}

  /** The clockwise entry depends on which hashes are present, not on order or repetition. */
  lemma ClockwiseOfSet(s: seq<uint32>, t: seq<uint32>, h: uint32)
    requires s != [] && Elements(s) == Elements(t)
    ensures t != [] && Clockwise(s, h) == Clockwise(t, h)
  {
    assert s[0] in Elements(t);
    ClockwiseUnique(Elements(s), h, Clockwise(s, h), Clockwise(t, h));
  }

  /** `sort.Search` for the first entry not below `h`: halving, with the same
      bounds as the library loop. */
  method Search(s: seq<uint32>, h: uint32) returns (i: nat)
    requires Sorted(s)
    ensures i <= |s|
    ensures forall k :: 0 <= k < i ==> s[k] < h
    ensures forall k :: i <= k < |s| ==> h <= s[k]
  {
    i := 0;
    var j := |s|;
    while i < j
      invariant 0 <= i <= j <= |s|
      invariant forall k :: 0 <= k < i ==> s[k] < h
      invariant forall k :: j <= k < |s| ==> h <= s[k]
    {
      var mid := (i + j) / 2;
      if s[mid] < h {
        i := mid + 1;
      } else {
        j := mid;
      }
    }
  }

  /** The fast search with its wrap-around finds the entry of the linear scan. */
  lemma SearchIsScan(s: seq<uint32>, h: uint32, i: nat)
    requires Sorted(s) && s != [] && i <= |s|
    requires forall k :: 0 <= k < i ==> s[k] < h
    requires forall k :: i <= k < |s| ==> h <= s[k]
    ensures s[if i == |s| then 0 else i] == Clockwise(s, h)
  {
    var e := s[if i == |s| then 0 else i];
    forall k | k in Elements(s) ensures i < |s| && h <= k ==> e <= k
                                ensures i == |s| ==> k < h && e <= k
    {
      var n :| 0 <= n < |s| && s[n] == k;
    }
    ClockwiseUnique(Elements(s), h, e, Clockwise(s, h));
  }
}
