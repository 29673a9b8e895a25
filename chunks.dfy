/**
  Splitting `n` items into consecutive chunks of width `w`: the coefficient
  groups of the forward-mode Jacobian, the row batches of the interpreter and
  the slices of its chunked overload all follow this pattern. Also the
  quotient-and-remainder arithmetic behind it.
*/
module Chunks {

  /** Multiplication is monotonic. */
  lemma MulLe(a: nat, b: nat, m: nat)
    requires a <= b
    ensures a * m <= b * m
  {
  }

  /** A number below `q * m + m` with digit `t < m` has exactly one such
      decomposition. */
  lemma Digits(q1: nat, t1: nat, q2: nat, t2: nat, m: nat)
    requires t1 < m && t2 < m && q1 * m + t1 == q2 * m + t2
    ensures q1 == q2 && t1 == t2
  {
    if q1 < q2 {
      MulLe(q1 + 1, q2, m);
    } else if q2 < q1 {
      MulLe(q2 + 1, q1, m);
    }
  }

  /** An offset below `m * n` splits into a quotient below `n` and a digit. */
  lemma Split(k: nat, m: nat, n: nat)
    requires k < m * n
    ensures m > 0 && k / m < n && k == k / m * m + k % m
  {
    assert m > 0;
    if n <= k / m {
      MulLe(n, k / m, m);
    }
  }

  /** The next chunk start after a multiple of `d` is again one. */
  lemma NextMultiple(s: nat, d: nat)
    requires d > 0 && s % d == 0
    ensures (s + d) % d == 0
  {
    var q := s / d;
    assert s == q * d;
    assert s + d == (q + 1) * d;
    Digits(q + 1, 0, (s + d) / d, (s + d) % d, d);
  }

  // ---------------------------------------------------------------------
  // Chunks

  /** The end of the chunk of width `w` starting at `s`, cut off at `n`. */
  function ChunkEnd(n: nat, w: nat, s: nat): (e: nat)
  {
    if n < s + w then n else s + w
  }

  /** The chunk starts `s, s + w, s + 2w, ...` below `n`. */
  function Starts(n: nat, w: nat, s: nat): (starts: seq<nat>)
    requires w > 0
    decreases n - s
  {
    if n <= s then [] else [s] + Starts(n, w, s + w)
  }

  /** There are `ceil((n - s) / w)` chunks from `s` on: the fewest that
      cover `n - s` items with `w` each. */
  lemma {:induction false} StartsCount(n: nat, w: nat, s: nat)
    requires w > 0 && s <= n
    ensures |Starts(n, w, s)| * w >= n - s
    ensures s < n ==> (|Starts(n, w, s)| - 1) * w < n - s
    decreases n - s
  {
    if s < n {
      var c := |Starts(n, w, s + w)|;
      assert (c + 1) * w == c * w + w;
      if s + w <= n {
        StartsCount(n, w, s + w);
      }
    }
  }

  /** The starts lie in `s .. n` and are at least `w` apart. */
  lemma {:induction false} StartsSpaced(n: nat, w: nat, s: nat)
    requires w > 0
    ensures forall t :: t in Starts(n, w, s) ==> s <= t < n
    ensures forall t, t' :: t in Starts(n, w, s) && t' in Starts(n, w, s) && t < t' ==> t + w <= t'
    decreases n - s
  {
    if s < n {
      StartsSpaced(n, w, s + w);
    }
  }

  /** Every item from `s` on lies in some chunk. */
  lemma {:induction false} StartsCover(n: nat, w: nat, s: nat, k: nat)
    requires w > 0 && s <= k < n
    ensures exists t :: t in Starts(n, w, s) && t <= k < ChunkEnd(n, w, t)
    decreases n - s
  {
    if s + w <= k {
      StartsCover(n, w, s + w, k);
    } else {
      assert s in Starts(n, w, s);
    }
  }

  /** The chunks partition the items: each lies in exactly one. */
  lemma StartsPartition(n: nat, w: nat, k: nat)
    requires w > 0 && k < n
    ensures exists t :: t in Starts(n, w, 0) && t <= k < ChunkEnd(n, w, t)
    ensures forall t, t' ::
      (t in Starts(n, w, 0) && t <= k < ChunkEnd(n, w, t) &&
       t' in Starts(n, w, 0) && t' <= k < ChunkEnd(n, w, t')) ==> t == t'
  {
    StartsCover(n, w, 0, k);
    StartsSpaced(n, w, 0);
  }
}
