/**
  Sorted hash vectors of the population diversity analyzer
  (include/operon/analyzers/diversity.hpp): the two-pointer intersection
  count `Intersect2`, the duplicate test `detail::is_set` and `HashTree`,
  which collects and sorts the calculated hashes of a tree's nodes.
*/
module Diversity {
  import opened Nodes

  /** Non-decreasing order. */
  predicate Sorted(v: seq<Hash>)
  {
    forall p, q :: 0 <= p < q < |v| ==> v[p] <= v[q]
  }

  /** No value occurs twice. */
  predicate Distinct(v: seq<Hash>)
  {
    forall p, q :: 0 <= p < q < |v| ==> v[p] != v[q]
  }

  /** Number of common elements, counted with multiplicity. */
  function Common(l: seq<Hash>, r: seq<Hash>): nat
  {
    |multiset(l) * multiset(r)|
  }

  // ---------------------------------------------------------------------------
  // detail::is_set
  // ---------------------------------------------------------------------------

  /** `detail::is_set`: `adjacent_find` finds no two equal neighbours. A
      vector without repeated values, and one of at most one element, passes. */
  predicate IsSet(v: seq<Hash>)
    ensures Distinct(v) ==> IsSet(v)
    ensures |v| <= 1 ==> IsSet(v)
  {
    forall k :: 0 <= k < |v| - 1 ==> v[k] != v[k + 1]
  }

  /** On a sorted vector the adjacent test decides distinctness. */
  lemma SortedIsSetIffDistinct(v: seq<Hash>)
    requires Sorted(v)
    ensures IsSet(v) <==> Distinct(v)
  {
    if IsSet(v) {
      forall p, q | 0 <= p < q < |v|
        ensures v[p] != v[q]
      {
        assert v[p] <= v[p + 1] <= v[q];
      }
    }
  }

  /** On an unsorted vector it does not: equal values may sit apart. */
  lemma IsSetUnsorted()
    ensures IsSet([1, 2, 1]) && !Distinct([1, 2, 1])
  {
    var v: seq<Hash> := [1, 2, 1];
    assert v[0] == v[2];
  }

  // ---------------------------------------------------------------------------
  // Intersect2
  // ---------------------------------------------------------------------------

  /** The merge loop of `Intersect2` run from positions `i` and `j`: equal heads
      are counted, the smaller head (both when equal) is consumed, and the loop
      stops after a step whose heads exceed the other vector's last element
      `rm` or `lm`. Each counted step consumes an element of both vectors,
      so the count is at most what remains of either. */
  function MergeFrom(l: seq<Hash>, r: seq<Hash>, i: nat, j: nat, lm: Hash, rm: Hash): (c: nat)
    requires i <= |l| && j <= |r|
    ensures c <= |l| - i && c <= |r| - j
    decreases |l| - i + |r| - j
  {
    if i == |l| || j == |r| then 0
    else
      var a, b := l[i], r[j];
      var c := if a == b then 1 else 0;
      if a > rm || b > lm then c
      else c + MergeFrom(l, r, if a <= b then i + 1 else i, if a >= b then j + 1 else j, lm, rm)
  }

  /** The value `Intersect2` returns; `back()` needs both vectors non-empty. */
  function Intersect2Value(l: seq<Hash>, r: seq<Hash>): (n: nat)
    requires |l| > 0 && |r| > 0
    ensures n <= |l| && n <= |r|
  {
    MergeFrom(l, r, 0, 0, l[|l| - 1], r[|r| - 1])
  }

  /** The textbook merge count run to exhaustion, without the early exit. */
  function MergeCount(l: seq<Hash>, r: seq<Hash>): nat
    decreases |l| + |r|
  {
    if |l| == 0 || |r| == 0 then 0
    else if l[0] == r[0] then 1 + MergeCount(l[1..], r[1..])
    else if l[0] < r[0] then MergeCount(l[1..], r)
    else MergeCount(l, r[1..])
  }

  /** `Intersect2` on two vectors. */
  method Intersect2(lhs: seq<Hash>, rhs: seq<Hash>) returns (count: nat)
    requires |lhs| > 0 && |rhs| > 0
    ensures count == Intersect2Value(lhs, rhs)
    ensures count <= |lhs| && count <= |rhs|
    ensures Sorted(lhs) && Sorted(rhs) ==> count == Common(lhs, rhs)
  {
    count := 0;
    var i: nat := 0;
    var j: nat := 0;
    var ls := |lhs|;
    var rs := |rhs|;
    var lm := lhs[ls - 1];
    var rm := rhs[rs - 1];
    while i != ls && j != rs
      invariant i <= ls && j <= rs
      invariant count + MergeFrom(lhs, rhs, i, j, lm, rm) == Intersect2Value(lhs, rhs)
      decreases ls - i + rs - j
    {
      var a := lhs[i];
      var b := rhs[j];
      count := count + if a == b then 1 else 0;
      i := i + if a <= b then 1 else 0;
      j := j + if a >= b then 1 else 0;
      if a > rm || b > lm {
        break;
      }
    }
    if Sorted(lhs) && Sorted(rhs) {
      Intersect2Common(lhs, rhs);
    }
  }

  /** Swapping the vectors swaps the roles of `<=` and `>=` and of the two
      exit tests, so the count is symmetric for every input. */
  lemma {:induction false} MergeFromSymmetric(l: seq<Hash>, r: seq<Hash>, i: nat, j: nat, lm: Hash, rm: Hash)
    requires i <= |l| && j <= |r|
    ensures MergeFrom(l, r, i, j, lm, rm) == MergeFrom(r, l, j, i, rm, lm)
    decreases |l| - i + |r| - j
  {
    if i < |l| && j < |r| {
      var a, b := l[i], r[j];
      if !(a > rm || b > lm) {
        MergeFromSymmetric(l, r, if a <= b then i + 1 else i, if a >= b then j + 1 else j, lm, rm);
      }
    }
  }

  lemma Intersect2Symmetric(l: seq<Hash>, r: seq<Hash>)
    requires |l| > 0 && |r| > 0
    ensures Intersect2Value(l, r) == Intersect2Value(r, l)
  {
    MergeFromSymmetric(l, r, 0, 0, l[|l| - 1], r[|r| - 1]);
  }

  /** A head below every element of the other vector is in no common pair. */
  lemma DropSmallHead(l: seq<Hash>, r: seq<Hash>)
    requires |l| > 0
    requires forall q :: 0 <= q < |r| ==> l[0] < r[q]
    ensures Common(l, r) == Common(l[1..], r)
  {
    assert l == [l[0]] + l[1..];
    assert l[0] !in multiset(r);
    assert multiset(l) * multiset(r) == multiset(l[1..]) * multiset(r);
  }

  /** Equal heads form one common pair. */
  lemma DropEqualHeads(l: seq<Hash>, r: seq<Hash>)
    requires |l| > 0 && |r| > 0 && l[0] == r[0]
    ensures Common(l, r) == 1 + Common(l[1..], r[1..])
  {
    assert l == [l[0]] + l[1..];
    assert r == [r[0]] + r[1..];
    assert multiset(l) * multiset(r) == multiset{l[0]} + multiset(l[1..]) * multiset(r[1..]);
  }

  lemma CommonSymmetric(l: seq<Hash>, r: seq<Hash>)
    ensures Common(l, r) == Common(r, l)
  {
    assert multiset(l) * multiset(r) == multiset(r) * multiset(l);
  }

  /** On sorted vectors the exhaustive merge counts the common elements. */
  lemma {:induction false} MergeCountCommon(l: seq<Hash>, r: seq<Hash>)
    requires Sorted(l) && Sorted(r)
    ensures MergeCount(l, r) == Common(l, r)
    decreases |l| + |r|
  {
    if |l| == 0 || |r| == 0 {
      assert multiset(l) * multiset(r) == multiset{};
    } else if l[0] == r[0] {
      MergeCountCommon(l[1..], r[1..]);
      DropEqualHeads(l, r);
    } else if l[0] < r[0] {
      MergeCountCommon(l[1..], r);
      DropSmallHead(l, r);
    } else {
      MergeCountCommon(l, r[1..]);
      DropSmallHead(r, l);
      CommonSymmetric(l, r);
      CommonSymmetric(l, r[1..]);
    }
  }

  /** Sorted vectors whose ranges do not overlap have nothing in common. */
  lemma Apart(l: seq<Hash>, r: seq<Hash>)
    requires forall p, q :: 0 <= p < |l| && 0 <= q < |r| ==> l[p] > r[q]
    ensures Common(l, r) == 0
  {
    assert multiset(l) * multiset(r) == multiset{};
  }

  /** One step of the merge on sorted vectors: the heads are dropped as the
      loop drops them, and the count of common elements follows. */
  lemma CommonStep(l: seq<Hash>, r: seq<Hash>)
    requires Sorted(l) && Sorted(r) && |l| > 0 && |r| > 0
    ensures Common(l, r)
      == (if l[0] == r[0] then 1 else 0)
       + Common(if l[0] <= r[0] then l[1..] else l, if l[0] >= r[0] then r[1..] else r)
  {
    if l[0] == r[0] {
      DropEqualHeads(l, r);
    } else if l[0] < r[0] {
      DropSmallHead(l, r);
    } else {
      DropSmallHead(r, l);
      CommonSymmetric(l, r);
      CommonSymmetric(l, r[1..]);
    }
  }

  /** A step after which the loop exits: the head above the other vector's
      last element is above all of it, so nothing common is left. */
  lemma ExitStep(l: seq<Hash>, r: seq<Hash>, i: nat, j: nat)
    requires Sorted(l) && Sorted(r) && i < |l| && j < |r|
    requires l[i] > r[|r| - 1] || r[j] > l[|l| - 1]
    ensures MergeFrom(l, r, i, j, l[|l| - 1], r[|r| - 1]) == 0 == Common(l[i..], r[j..])
  {
    if l[i] > r[|r| - 1] {
      Apart(l[i..], r[j..]);
    } else {
      Apart(r[j..], l[i..]);
      CommonSymmetric(l[i..], r[j..]);
    }
  }

  /** A step after which the loop goes on. */
  lemma ContinueStep(l: seq<Hash>, r: seq<Hash>, i: nat, j: nat)
    requires Sorted(l) && Sorted(r) && i < |l| && j < |r|
    requires !(l[i] > r[|r| - 1] || r[j] > l[|l| - 1])
    ensures var i', j' := if l[i] <= r[j] then i + 1 else i, if l[i] >= r[j] then j + 1 else j;
      && MergeFrom(l, r, i, j, l[|l| - 1], r[|r| - 1])
         == (if l[i] == r[j] then 1 else 0) + MergeFrom(l, r, i', j', l[|l| - 1], r[|r| - 1])
      && Common(l[i..], r[j..]) == (if l[i] == r[j] then 1 else 0) + Common(l[i'..], r[j'..])
  {
    CommonStep(l[i..], r[j..]);
    assert l[i..][1..] == l[i + 1..];
    assert r[j..][1..] == r[j + 1..];
  }

  /** On sorted vectors the early exit of `Intersect2` changes nothing: from
      any position the loop counts the common elements of what is left. */
  lemma {:induction false} MergeFromCommon(l: seq<Hash>, r: seq<Hash>, i: nat, j: nat)
    requires Sorted(l) && Sorted(r) && |l| > 0 && |r| > 0
    requires i <= |l| && j <= |r|
    ensures MergeFrom(l, r, i, j, l[|l| - 1], r[|r| - 1]) == Common(l[i..], r[j..])
    decreases |l| - i + |r| - j
  {
    if i == |l| || j == |r| {
      assert multiset(l[i..]) * multiset(r[j..]) == multiset{};
    } else if l[i] > r[|r| - 1] || r[j] > l[|l| - 1] {
      ExitStep(l, r, i, j);
    } else {
      ContinueStep(l, r, i, j);
      MergeFromCommon(l, r, if l[i] <= r[j] then i + 1 else i, if l[i] >= r[j] then j + 1 else j);
    }
  }

  lemma Intersect2Common(l: seq<Hash>, r: seq<Hash>)
    requires Sorted(l) && Sorted(r) && |l| > 0 && |r| > 0
    ensures Intersect2Value(l, r) == Common(l, r)
  {
    MergeFromCommon(l, r, 0, 0);
    assert l[0..] == l && r[0..] == r;
  }

  /** The early exit gives the same count as the merge run to exhaustion. */
  lemma EarlyExitAgrees(l: seq<Hash>, r: seq<Hash>)
    requires Sorted(l) && Sorted(r) && |l| > 0 && |r| > 0
    ensures Intersect2Value(l, r) == MergeCount(l, r)
  {
    Intersect2Common(l, r);
    MergeCountCommon(l, r);
  }

  /** Without sorted input the early exit loses common elements: the first
      step finds 5 above the other vector's last element 3 and stops. */
  lemma EarlyExitUnsorted()
    ensures Intersect2Value([5, 1], [1, 3]) == 0
    ensures Common([5, 1], [1, 3]) == 1
  {
    var l: seq<Hash> := [5, 1];
    var r: seq<Hash> := [1, 3];
    assert MergeFrom(l, r, 0, 0, 1, 3) == 0;
    assert multiset(l) * multiset(r) == multiset{1};
  }

  // ---------------------------------------------------------------------------
  // HashTree
  // ---------------------------------------------------------------------------

  /** The calculated hash of every node, in node order (the `std::transform`). */
  function CalculatedHashes(nodes: seq<Node>): seq<Hash>
  {
    seq(|nodes|, k requires 0 <= k < |nodes| => nodes[k].CalculatedHashValue)
  }

  /** `std::sort` on the hash vector, as an insertion sort by adjacent swaps. */
  method SortHashes(a: array<Hash>)
    modifies a
    ensures Sorted(a[..])
    ensures multiset(a[..]) == old(multiset(a[..]))
  {
    var i := 0;
    while i < a.Length
      invariant 0 <= i <= a.Length
      invariant Sorted(a[..i])
      invariant multiset(a[..]) == old(multiset(a[..]))
    {
      InsertLast(a, i);
      i := i + 1;
    }
    assert a[..a.Length] == a[..];
  }

  /** Moves `a[i]` left past every larger element of the sorted prefix. */
  method InsertLast(a: array<Hash>, i: nat)
    requires i < a.Length && Sorted(a[..i])
    modifies a
    ensures Sorted(a[..i + 1])
    ensures multiset(a[..]) == old(multiset(a[..]))
  {
    var j := i;
    while j > 0 && a[j - 1] > a[j]
      invariant 0 <= j <= i < a.Length
      invariant SortedBut(a[..], i, j)
      invariant multiset(a[..]) == old(multiset(a[..]))
    {
      ghost var before := a[..];
      a[j - 1], a[j] := a[j], a[j - 1];
      assert a[..] == Swap(before, j - 1);
      SwapStep(before, i, j);
      j := j - 1;
    }
    InsertDone(a[..], i, j);
  }

  /** Neighbours `k` and `k + 1` exchanged. */
  function Swap(s: seq<Hash>, k: nat): (t: seq<Hash>)
    requires k + 1 < |s|
  {
    s[k := s[k + 1]][k + 1 := s[k]]
  }

  /** `s[..i + 1]` is sorted except that `s[j]` may be below its predecessors. */
  ghost predicate SortedBut(s: seq<Hash>, i: nat, j: nat)
    requires j <= i < |s|
  {
    forall p, q :: 0 <= p < q <= i && q != j ==> s[p] <= s[q]
  }

  /** One exchange moves the out-of-place element one step left and keeps
      the multiset. */
  lemma SwapStep(s: seq<Hash>, i: nat, j: nat)
    requires 0 < j <= i < |s| && SortedBut(s, i, j) && s[j - 1] > s[j]
    ensures SortedBut(Swap(s, j - 1), i, j - 1)
    ensures multiset(Swap(s, j - 1)) == multiset(s)
  {
    var t := Swap(s, j - 1);
    forall p, q | 0 <= p < q <= i && q != j - 1
      ensures t[p] <= t[q]
    {
      if q == j {
        if p == j - 1 {
        } else {
          assert t[p] == s[p] <= s[j - 1] == t[q];
        }
      } else if p == j - 1 {
        assert s[j] < s[j - 1] <= s[q];
      } else if p == j {
        assert s[j - 1] <= s[q];
      }
    }
  }

  /** When the element has stopped, the whole prefix is sorted. */
  lemma InsertDone(s: seq<Hash>, i: nat, j: nat)
    requires j <= i < |s| && SortedBut(s, i, j)
    requires j == 0 || s[j - 1] <= s[j]
    ensures Sorted(s[..i + 1])
  {
    forall p, q | 0 <= p < q <= i
      ensures s[p] <= s[q]
    {
      if q == j && p < j - 1 {
        assert s[p] <= s[j - 1];
      }
    }
  }

  /** `HashTree` after `Tree::Sort`: the nodes' calculated hashes, sorted. */
  method HashTree(nodes: seq<Node>) returns (hashes: seq<Hash>)
    ensures |hashes| == |nodes|
    ensures Sorted(hashes)
    ensures multiset(hashes) == multiset(CalculatedHashes(nodes))
  {
    var a := new Hash[|nodes|](k requires 0 <= k < |nodes| => nodes[k].CalculatedHashValue);
    assert a[..] == CalculatedHashes(nodes);
    SortHashes(a);
    hashes := a[..];
  }

  /** The head of a sorted vector is its least element. */
  lemma SortedHeadLeast(u: seq<Hash>, x: Hash)
    requires Sorted(u) && x in multiset(u)
    ensures |u| > 0 && u[0] <= x
  {
    assert x in u;
  }

  /** Removing equal heads leaves equal multisets. */
  lemma TailMultiset(u: seq<Hash>, v: seq<Hash>)
    requires |u| > 0 && |v| > 0 && u[0] == v[0] && multiset(u) == multiset(v)
    ensures multiset(u[1..]) == multiset(v[1..])
  {
    assert u == [u[0]] + u[1..];
    assert v == [v[0]] + v[1..];
    assert multiset(u[1..]) == multiset(u) - multiset{u[0]};
    assert multiset(v[1..]) == multiset(v) - multiset{v[0]};
  }

  /** A sorted vector is determined by its multiset, so the result of
      `HashTree` does not depend on the order `Tree::Sort` leaves the nodes in. */
  lemma {:induction false} SortedPermutationUnique(u: seq<Hash>, v: seq<Hash>)
    requires Sorted(u) && Sorted(v) && multiset(u) == multiset(v)
    ensures u == v
    decreases |u|
  {
    if |u| == 0 {
      assert |multiset(v)| == 0;
    } else {
      SortedHeadLeast(v, u[0]);
      SortedHeadLeast(u, v[0]);
      TailMultiset(u, v);
      SortedPermutationUnique(u[1..], v[1..]);
      assert u == [u[0]] + u[1..];
      assert v == [v[0]] + v[1..];
    }
  }
}
