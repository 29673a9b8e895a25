/**
  Child addressing in a postfix tree and the n-ary arithmetic kernels
  (include/operon/core/eval_detail.hpp).

  The tree is a flat postfix sequence of nodes. The children of the node at
  `p` are found by starting at `p - 1` and stepping back over each child's
  subtree, `i - (Length + 1)`. Every kernel works elementwise on the columns
  of the buffer, so the buffer is modelled at one row: `m[k]` is the value of
  node `k`'s column at that row.
*/
module EvalDetail {
  import opened Nodes
  import opened Wrappers

  /** Rows per column batch. */
  const BATCHSIZE: nat := 64

  // ---------------------------------------------------------------------
  // Postfix structure

  /** The index of the sibling stored before the subtree rooted at `i`. */
  function NextSibling(nodes: seq<Node>, i: int): (j: int)
    requires 0 <= i < |nodes|
    ensures j < i
  {
    i - (nodes[i].Length + 1)
  }

  /** `k` consecutive sibling subtrees end at index `i` (the last one first,
      stepping backwards) and together span exactly `len` nodes. */
  ghost predicate SiblingsSpan(nodes: seq<Node>, i: int, k: nat, len: nat)
    decreases i + 1, 1, k
  {
    if k == 0 then len == 0
    else
      && 0 <= i < |nodes|
      && nodes[i].Length <= i
      && nodes[i].Length + 1 <= len
      && WellFormedAt(nodes, i)
      && SiblingsSpan(nodes, i - (nodes[i].Length + 1), k - 1, len - (nodes[i].Length + 1))
  }

  /** The subtree rooted at `p` is well formed: its `Arity` children, found
      by stepping back from `p - 1`, are well formed and their subtrees
      (each child plus its `Length` descendants) add up to `Length`. */
  ghost predicate WellFormedAt(nodes: seq<Node>, p: int)
    decreases p + 1, 0, 0
  {
    && 0 <= p < |nodes|
    && nodes[p].Length <= p
    && SiblingsSpan(nodes, p - 1, nodes[p].Arity, nodes[p].Length)
  }

  /** A whole tree: non-empty, and the last node is the root of a subtree
      that spans every node. */
  ghost predicate WellFormedTree(nodes: seq<Node>)
  {
    |nodes| > 0 && WellFormedAt(nodes, |nodes| - 1) && nodes[|nodes| - 1].Length == |nodes| - 1
  }

  /** The indices visited when stepping back from `i` over `k` siblings:
      they start at `i`, each is the previous one minus its subtree size,
      so they strictly decrease, and every visited subtree lies inside
      `(i - len, i]`. */
  ghost function SiblingIndices(nodes: seq<Node>, i: int, k: nat, len: nat): (cs: seq<int>)
    requires SiblingsSpan(nodes, i, k, len)
    ensures |cs| == k
    ensures k > 0 ==> cs[0] == i && i < |nodes|
    ensures forall t :: 0 <= t < k ==>
      0 <= cs[t] < |nodes| && 0 <= cs[t] - nodes[cs[t]].Length && i - len < cs[t] - nodes[cs[t]].Length && cs[t] <= i
    ensures forall t :: 0 <= t < k - 1 ==> cs[t + 1] == cs[t] - (nodes[cs[t]].Length + 1)
    decreases i + 1, k
  {
    if k == 0 then []
    else [i] + SiblingIndices(nodes, i - (nodes[i].Length + 1), k - 1, len - (nodes[i].Length + 1))
  }

  /** The children of `p`, in the order the kernels receive them: the one
      at `p - 1` first. */
  ghost function Children(nodes: seq<Node>, p: int): seq<int>
    requires WellFormedAt(nodes, p)
  {
    SiblingIndices(nodes, p - 1, nodes[p].Arity, nodes[p].Length)
  }

  /** The total size of the subtrees rooted at `cs`. */
  ghost function SpanOf(nodes: seq<Node>, cs: seq<int>): int
    requires forall t :: 0 <= t < |cs| ==> 0 <= cs[t] < |nodes|
  {
    if cs == [] then 0 else nodes[cs[0]].Length + 1 + SpanOf(nodes, cs[1..])
  }

  lemma {:induction false} SiblingsSpanSum(nodes: seq<Node>, i: int, k: nat, len: nat)
    requires SiblingsSpan(nodes, i, k, len)
    ensures SpanOf(nodes, SiblingIndices(nodes, i, k, len)) == len
    decreases k
  {
    if k > 0 {
      var j, len' := SiblingStep(nodes, i, k, len);
      SiblingsSpanSum(nodes, j, k - 1, len');
      SpanCons(nodes, i, SiblingIndices(nodes, j, k - 1, len'));
    }
  }

  /** Stepping over the first sibling leaves `k - 1` siblings spanning the
      rest. */
  lemma SiblingStep(nodes: seq<Node>, i: int, k: nat, len: nat) returns (j: int, len': nat)
    requires k > 0 && SiblingsSpan(nodes, i, k, len)
    ensures 0 <= i < |nodes| && j == i - (nodes[i].Length + 1) && len' == len - (nodes[i].Length + 1)
    ensures SiblingsSpan(nodes, j, k - 1, len')
    ensures SiblingIndices(nodes, i, k, len) == [i] + SiblingIndices(nodes, j, k - 1, len')
  {
    j, len' := i - (nodes[i].Length + 1), len - (nodes[i].Length + 1);
  }

  lemma SpanCons(nodes: seq<Node>, i: int, rest: seq<int>)
    requires 0 <= i < |nodes| && forall t :: 0 <= t < |rest| ==> 0 <= rest[t] < |nodes|
    ensures SpanOf(nodes, [i] + rest) == nodes[i].Length + 1 + SpanOf(nodes, rest)
  {
    assert ([i] + rest)[1..] == rest;
  }

  /** In a well-formed subtree, the node at `p` has exactly `Arity`
      children, the first at `p - 1`; they strictly decrease, every child's
      subtree lies within `[p - Length, p)`, and `Length` is the sum of
      `Length + 1` over the children. */
  lemma ChildrenLayout(nodes: seq<Node>, p: int)
    requires WellFormedAt(nodes, p)
    ensures var cs := Children(nodes, p);
      && |cs| == nodes[p].Arity
      && (|cs| > 0 ==> cs[0] == p - 1)
      && (forall t :: 0 <= t < |cs| ==> p - nodes[p].Length <= cs[t] - nodes[cs[t]].Length && cs[t] < p)
      && (forall t :: 0 <= t < |cs| - 1 ==> cs[t + 1] < cs[t])
      && SpanOf(nodes, cs) == nodes[p].Length
  {
    SiblingsSpanSum(nodes, p - 1, nodes[p].Arity, nodes[p].Length);
  }

  /** `cs` are indices of nodes stored before `p`, each reached from the
      one before by `NextSibling`. */
  ghost predicate SiblingChain(nodes: seq<Node>, cs: seq<int>, p: int)
  {
    && p <= |nodes|
    && (forall t :: 0 <= t < |cs| ==> 0 <= cs[t] < p)
    && (forall t :: 0 <= t < |cs| - 1 ==> cs[t + 1] == NextSibling(nodes, cs[t]))
  }

  /** The children of `p` form such a chain, starting at `p - 1`. */
  lemma ChildrenChain(nodes: seq<Node>, p: int)
    requires WellFormedAt(nodes, p)
    ensures SiblingChain(nodes, Children(nodes, p), p)
  {
  }

  /** The values of `p`'s children, in kernel order. */
  ghost function ChildValues(m: seq<real>, nodes: seq<Node>, p: int): (xs: seq<real>)
    requires WellFormedAt(nodes, p) && |m| == |nodes|
    ensures |xs| == nodes[p].Arity
  {
    var cs := Children(nodes, p);
    seq(|cs|, t requires 0 <= t < |cs| => m[cs[t]])
  }

  /** The buffer `m` holds the values `xs` in the columns of the children
      `cs` of `p`: a chain of `Arity` nodes stepping back from `p - 1`. */
  ghost predicate ChildrenHold(m: array<real>, nodes: seq<Node>, p: int, cs: seq<int>, xs: seq<real>)
    reads m
  {
    && m.Length == |nodes| && 0 <= p < |nodes|
    && SiblingChain(nodes, cs, p)
    && |cs| == nodes[p].Arity && (|cs| > 0 ==> cs[0] == p - 1)
    && |xs| == |cs| && forall t :: 0 <= t < |cs| ==> m[cs[t]] == xs[t]
  }

  /** In a well-formed subtree, the children of `p` and their values are
      what the kernels read. */
  lemma TreeChildrenHold(m: array<real>, nodes: seq<Node>, p: int)
    requires m.Length == |nodes| && WellFormedAt(nodes, p)
    ensures ChildrenHold(m, nodes, p, Children(nodes, p), ChildValues(m[..], nodes, p))
  {
    ChildrenChain(nodes, p);
  }

  // ---------------------------------------------------------------------
  // Kernels: op<T, N>

  /** `(args + ...)`: a right fold of `+`. */
  function Sum(xs: seq<real>): real
  {
    if xs == [] then 0.0 else xs[0] + Sum(xs[1..])
  }

  /** `(args * ...)`: a right fold of `*`. */
  function Prod(xs: seq<real>): real
  {
    if xs == [] then 1.0 else xs[0] * Prod(xs[1..])
  }

  lemma {:induction false} SumAppend(a: seq<real>, b: seq<real>)
    ensures Sum(a + b) == Sum(a) + Sum(b)
  {
    if a != [] {
      assert (a + b)[0] == a[0] && (a + b)[1..] == a[1..] + b;
      SumAppend(a[1..], b);
    } else {
      assert a + b == b;
    }
  }

  lemma {:induction false} ProdAppend(a: seq<real>, b: seq<real>)
    ensures Prod(a + b) == Prod(a) * Prod(b)
  {
    if a != [] {
      assert (a + b)[0] == a[0] && (a + b)[1..] == a[1..] + b;
      ProdAppend(a[1..], b);
      assert Prod(a + b) == a[0] * (Prod(a[1..]) * Prod(b));
    } else {
      assert a + b == b;
    }
  }

  lemma {:induction false} ProdNonzero(xs: seq<real>)
    requires forall t :: 0 <= t < |xs| ==> xs[t] != 0.0
    ensures Prod(xs) != 0.0
  {
    if xs != [] {
      assert forall t :: 0 <= t < |xs| - 1 ==> xs[1..][t] == xs[t + 1];
      ProdNonzero(xs[1..]);
    }
  }

  /** The kernel is defined: a division never divides by zero. */
  predicate KernelDefined(N: NodeType, args: seq<real>)
  {
    |args| >= 1 && (N == Div ==> if |args| == 1 then args[0] != 0.0 else Prod(args[1..]) != 0.0)
  }

  /** `op<T, N>` on one row. With one argument Sub negates, Div takes the
      reciprocal, and Add, Mul and every tag without its own specialisation
      copy it. With more, the first argument is combined with the fold of
      the rest: Sub subtracts their sum, Mul multiplies by and Div divides by
      their product, and every other tag (the primary template) adds their
      sum. */
  function Kernel(N: NodeType, args: seq<real>): real
    requires KernelDefined(N, args)
  {
    if |args| == 1 then
      (if N == Sub then -args[0] else if N == Div then 1.0 / args[0] else args[0])
    else if N == Sub then args[0] - Sum(args[1..])
    else if N == Mul then args[0] * Prod(args[1..])
    else if N == Div then args[0] / Prod(args[1..])
    else args[0] + Sum(args[1..])
  }

  /** What a kernel computes: Mul the product of its arguments, Add and the
      primary template their sum, and Sub undoes the sum of the other
      arguments (negation for one argument). */
  lemma KernelMeaning(N: NodeType, args: seq<real>)
    requires KernelDefined(N, args)
    ensures N == Mul ==> Kernel(N, args) == Prod(args)
    ensures N != Sub && N != Mul && N != Div ==> Kernel(N, args) == Sum(args)
    ensures N == Sub ==> if |args| == 1 then Kernel(N, args) + args[0] == 0.0
                         else Kernel(N, args) + Sum(args[1..]) == args[0]
  {
    if |args| == 1 {
      assert args[1..] == [];
    }
  }

  /** Div undoes the product of the other arguments (the reciprocal for one
      argument). */
  lemma KernelDiv(args: seq<real>)
    requires KernelDefined(Div, args)
    ensures if |args| == 1 then Kernel(Div, args) * args[0] == 1.0
            else Kernel(Div, args) * Prod(args[1..]) == args[0]
  {
    if |args| == 1 {
      DivUndo(1.0, args[0]);
    } else {
      DivUndo(args[0], Prod(args[1..]));
    }
  }

  lemma DivUndo(a: real, b: real)
    requires b != 0.0
    ensures (a / b) * b == a
  {
  }

  /** No divisor is zero: when dividing, every value but the first is
      nonzero, and so is the first when it is alone (its reciprocal is
      taken) or when it follows an accumulator (`continued`). */
  predicate DivisorsNonzero(N: NodeType, xs: seq<real>, continued: bool)
  {
    N == Div ==> forall t :: 0 <= t < |xs| && (t > 0 || continued || |xs| == 1) ==> xs[t] != 0.0
  }

  lemma DivisorsNonzeroKernel(N: NodeType, xs: seq<real>, continued: bool)
    requires 1 <= |xs| && DivisorsNonzero(N, xs, continued)
    ensures KernelDefined(N, xs)
  {
    if N == Div && |xs| > 1 {
      assert forall t :: 0 <= t < |xs| - 1 ==> xs[1..][t] == xs[t + 1];
      ProdNonzero(xs[1..]);
    }
  }

  /** A continued round: the accumulator followed by values none of which
      is zero when dividing. */
  lemma ContinuedKernel(N: NodeType, acc: real, xs: seq<real>)
    requires 1 <= |xs| && DivisorsNonzero(N, xs, true)
    ensures KernelDefined(N, [acc] + xs)
  {
    assert ([acc] + xs)[1..] == xs;
    if N == Div {
      ProdNonzero(xs);
    }
  }

  /** The values after the first `k` all count as divisors. */
  lemma DivisorsSuffix(N: NodeType, xs: seq<real>, k: nat, continued: bool)
    requires 1 <= k <= |xs| && DivisorsNonzero(N, xs, continued)
    ensures DivisorsNonzero(N, xs[k..], true)
  {
    assert forall t :: 0 <= t < |xs| - k ==> xs[k..][t] == xs[k + t];
  }

  /** A prefix of two or more values keeps the divisor condition. */
  lemma DivisorsPrefix(N: NodeType, xs: seq<real>, k: nat, continued: bool)
    requires 2 <= k <= |xs| && DivisorsNonzero(N, xs, continued)
    ensures DivisorsNonzero(N, xs[..k], continued)
  {
  }

  /** The values `dispatch_op` as written divides by when dividing. Rounds
      start at every fifth child. In a round of two or more values the first
      is the numerator and the others are divisors; a last round of one
      value divides by it, taking its reciprocal or dividing the accumulator
      by it. */
  predicate RoundDivisors(N: NodeType, xs: seq<real>)
  {
    N == Div ==> forall t :: 0 <= t < |xs| && (t % 5 != 0 || t == |xs| - 1) ==> xs[t] != 0.0
  }

  /** Up to six values the rounds divide by exactly the kernel's divisors. */
  lemma RoundDivisorsShort(N: NodeType, xs: seq<real>)
    requires |xs| <= 6
    ensures RoundDivisors(N, xs) <==> DivisorsNonzero(N, xs, false)
  {
  }

  /** Every kernel divisor is a divisor of some round, so the kernel's
      condition implies the rounds' one. */
  lemma DivisorsRoundDivisors(N: NodeType, xs: seq<real>)
    requires DivisorsNonzero(N, xs, false)
    ensures RoundDivisors(N, xs)
  {
  }

  /** A default round: its five values with the first as numerator, then the
      rounds of the remaining values. */
  lemma RoundDivisorsSplit(N: NodeType, xs: seq<real>)
    requires |xs| > 5 && RoundDivisors(N, xs)
    ensures DivisorsNonzero(N, xs[..5], false) && RoundDivisors(N, xs[5..])
  {
    if N == Div {
      var ys := xs[5..];
      forall t | 0 <= t < |ys| && (t % 5 != 0 || t == |ys| - 1)
        ensures ys[t] != 0.0
      {
        assert ys[t] == xs[t + 5] && (t + 5) % 5 == t % 5;
      }
    }
  }

  /** The rounds accept a zero the kernel refuses: under Div the sixth of
      seven values is the numerator of the last round, so `[1, 1, 1, 1, 1, 0, 1]`
      is evaluated, and its value is 0 / 1. */
  lemma RoundNumeratorZero()
    ensures RoundDivisors(Div, [1.0, 1.0, 1.0, 1.0, 1.0, 0.0, 1.0])
    ensures !DivisorsNonzero(Div, [1.0, 1.0, 1.0, 1.0, 1.0, 0.0, 1.0], false)
    ensures DispatchValue(Div, [1.0, 1.0, 1.0, 1.0, 1.0, 0.0, 1.0], None) == 0.0
  {
    var xs := [1.0, 1.0, 1.0, 1.0, 1.0, 0.0, 1.0];
    assert RoundDivisors(Div, xs) by {
      forall t | 0 <= t < |xs| && (t % 5 != 0 || t == |xs| - 1)
        ensures xs[t] != 0.0
      {
        assert t != 5;
      }
    }
    assert xs[5] == 0.0;
    DispatchDropsFirstRound(Div, xs);
    assert xs[5..] == [0.0] + [1.0];
    KernelCons(Div, 0.0, [1.0]);
  }

  lemma RegroupDefined(N: NodeType, ys: seq<real>, zs: seq<real>)
    requires |ys| >= 2 && |zs| >= 1
    requires DivisorsNonzero(N, ys + zs, false)
    ensures KernelDefined(N, ys) && KernelDefined(N, [Kernel(N, ys)] + zs) && KernelDefined(N, ys + zs)
    ensures N == Div ==> Prod(ys[1..]) != 0.0 && Prod(zs) != 0.0
  {
    var all := ys + zs;
    DivisorsPrefix(N, all, |ys|, false);
    assert all[..|ys|] == ys;
    DivisorsNonzeroKernel(N, ys, false);
    DivisorsSuffix(N, all, |ys|, false);
    assert all[|ys|..] == zs;
    ContinuedKernel(N, Kernel(N, ys), zs);
    DivisorsNonzeroKernel(N, all, false);
    if N == Div {
      ProdNonzero(zs);
    }
  }

  /** The kernel on a first argument followed by at least one more. */
  lemma KernelCons(N: NodeType, x: real, rest: seq<real>)
    requires |rest| >= 1 && KernelDefined(N, [x] + rest)
    ensures N == Sub ==> Kernel(N, [x] + rest) == x - Sum(rest)
    ensures N == Mul ==> Kernel(N, [x] + rest) == x * Prod(rest)
    ensures N == Div ==> Prod(rest) != 0.0 && Kernel(N, [x] + rest) == x / Prod(rest)
    ensures N != Sub && N != Mul && N != Div ==> Kernel(N, [x] + rest) == x + Sum(rest)
  {
    ConsSplit(x, rest);
  }

  lemma ConsSplit(x: real, rest: seq<real>)
    ensures |[x] + rest| == |rest| + 1 && ([x] + rest)[0] == x && ([x] + rest)[1..] == rest
  {
  }

  /** Folding the result of a kernel over `ys` (at least two arguments)
      into a further group `zs` is the kernel over `ys + zs`. */
  lemma KernelRegroup(N: NodeType, ys: seq<real>, zs: seq<real>)
    requires |ys| >= 2 && |zs| >= 1
    requires DivisorsNonzero(N, ys + zs, false)
    ensures KernelDefined(N, ys) && KernelDefined(N, [Kernel(N, ys)] + zs) && KernelDefined(N, ys + zs)
    ensures Kernel(N, [Kernel(N, ys)] + zs) == Kernel(N, ys + zs)
  {
    RegroupDefined(N, ys, zs);
    var x, tail := ys[0], ys[1..];
    assert ys == [x] + tail;
    assert ys + zs == [x] + (tail + zs);
    RegroupCons(N, x, tail, zs);
  }

  lemma RegroupCons(N: NodeType, x: real, tail: seq<real>, zs: seq<real>)
    requires |tail| >= 1 && |zs| >= 1
    requires KernelDefined(N, [x] + tail) && KernelDefined(N, [x] + (tail + zs))
    requires KernelDefined(N, [Kernel(N, [x] + tail)] + zs)
    ensures Kernel(N, [Kernel(N, [x] + tail)] + zs) == Kernel(N, [x] + (tail + zs))
  {
    var k := Kernel(N, [x] + tail);
    KernelCons(N, x, tail);
    KernelCons(N, k, zs);
    KernelCons(N, x, tail + zs);
    if N == Div {
      RegroupDiv(x, k, tail, zs);
    } else if N == Mul {
      RegroupMul(x, k, tail, zs);
    } else {
      SumAppend(tail, zs);
    }
  }

  lemma RegroupDiv(x: real, k: real, tail: seq<real>, zs: seq<real>)
    requires Prod(tail) != 0.0 && Prod(zs) != 0.0
    requires k == x / Prod(tail)
    ensures Prod(tail + zs) != 0.0 && k / Prod(zs) == x / Prod(tail + zs)
  {
    var a, b, c := Prod(tail), Prod(zs), Prod(tail + zs);
    ProdAppend(tail, zs);
    DivStep(x, k, a, b, c);
    assert c != 0.0 && k / b == x / c;
  }

  lemma RegroupMul(x: real, k: real, tail: seq<real>, zs: seq<real>)
    requires k == x * Prod(tail)
    ensures k * Prod(zs) == x * Prod(tail + zs)
  {
    var a, b, c := Prod(tail), Prod(zs), Prod(tail + zs);
    ProdAppend(tail, zs);
    MulStep(x, k, a, b, c);
    assert k * b == x * c;
  }

  lemma MulStep(x: real, k: real, a: real, b: real, c: real)
    requires c == a * b && k == x * a
    ensures k * b == x * c
  {
    MulAssoc(x, a, b);
  }

  lemma MulAssoc(x: real, a: real, b: real)
    ensures x * a * b == x * (a * b)
  {
  }

  lemma DivStep(x: real, k: real, a: real, b: real, c: real)
    requires a != 0.0 && b != 0.0 && c == a * b && k == x / a
    ensures c != 0.0 && k / b == x / c
  {
    assert (k / b) * c == x;
  }

  // ---------------------------------------------------------------------
  // dispatch_op, as written

  /** The value `dispatch_op` leaves in the parent column, given the child
      values still to visit and the accumulator (`Some` once `continued`).
      Five children are folded per round while more than five remain; the
      last round is a unary or 2..5-ary kernel, and only the unary case reads
      the accumulator. */
  function DispatchValue(N: NodeType, xs: seq<real>, acc: Option<real>): (r: real)
    requires 1 <= |xs| && RoundDivisors(N, xs)
    ensures |xs| <= 5 && (acc.None? || |xs| >= 2) ==> KernelDefined(N, xs) && r == Kernel(N, xs)
    decreases |xs|
  {
    if |xs| == 1 then
      RoundDivisorsShort(N, xs);
      if acc.Some? then
        ContinuedKernel(N, acc.value, xs);
        Kernel(N, [acc.value] + xs)
      else
        DivisorsNonzeroKernel(N, xs, false);
        Kernel(N, xs)
    else if |xs| <= 5 then
      RoundDivisorsShort(N, xs);
      DivisorsNonzeroKernel(N, xs, false);
      Kernel(N, xs)
    else
      RoundDivisorsSplit(N, xs);
      DivisorsNonzeroKernel(N, xs[..5], false);
      DispatchValue(N, xs[5..], Some(Kernel(N, xs[..5])))
  }

  /** For arity 1 to 6 `dispatch_op` computes the n-ary kernel over all
      children; for arity 6 this is the default round followed by the
      continued unary case. */
  lemma DispatchUpToSix(N: NodeType, xs: seq<real>)
    requires 1 <= |xs| <= 6 && RoundDivisors(N, xs)
    ensures KernelDefined(N, xs)
    ensures DispatchValue(N, xs, None) == Kernel(N, xs)
  {
    RoundDivisorsShort(N, xs);
    DivisorsNonzeroKernel(N, xs, false);
    if |xs| == 6 {
      assert xs[..5] + xs[5..] == xs;
      KernelRegroup(N, xs[..5], xs[5..]);
    }
  }

  /** Cases 2 to 5 (and the default round) do not read `continued`: once two
      or more children remain, the accumulator is ignored. */
  lemma DispatchIgnoresAccumulator(N: NodeType, xs: seq<real>, acc: real)
    requires 2 <= |xs| && RoundDivisors(N, xs)
    ensures DispatchValue(N, xs, Some(acc)) == DispatchValue(N, xs, None)
  {
  }

  /** Consequently, for arity 7 and more the first five children never
      reach the result: it is computed from the remaining children alone. */
  lemma DispatchDropsFirstRound(N: NodeType, xs: seq<real>)
    requires 7 <= |xs| && RoundDivisors(N, xs)
    ensures RoundDivisors(N, xs[5..])
    ensures DispatchValue(N, xs, None) == DispatchValue(N, xs[5..], None)
  {
    RoundDivisorsSplit(N, xs);
    DivisorsNonzeroKernel(N, xs[..5], false);
    DispatchIgnoresAccumulator(N, xs[5..], Kernel(N, xs[..5]));
  }

  /** A concrete input: seven children of value 1 under Add give 2, while
      their sum is 7. */
  lemma DispatchSevenOnes()
    ensures DispatchValue(Add, [1.0, 1.0, 1.0, 1.0, 1.0, 1.0, 1.0], None) == 2.0
    ensures Kernel(Add, [1.0, 1.0, 1.0, 1.0, 1.0, 1.0, 1.0]) == 7.0
  {
    var xs := [1.0, 1.0, 1.0, 1.0, 1.0, 1.0, 1.0];
    DispatchDropsFirstRound(Add, xs);
    assert xs[5..] == [1.0, 1.0];
    assert Sum([1.0]) == 1.0 by { assert [1.0][1..] == []; }
    assert xs[1..] == [1.0] + xs[2..];
    assert xs[2..] == [1.0] + xs[3..];
    assert xs[3..] == [1.0] + xs[4..];
    assert xs[4..] == [1.0] + xs[5..];
    assert xs[5..] == [1.0] + xs[6..];
    assert xs[6..] == [1.0];
  }

  /** The five children read by the default case, starting at the child
      `i == cs[done]`, and the index of the child after them. */
  method GatherFive(m: array<real>, nodes: seq<Node>, i: int, ghost p: int, ghost cs: seq<int>,
                    ghost xs: seq<real>, ghost done: nat)
    returns (args: seq<real>, next: int)
    requires ChildrenHold(m, nodes, p, cs, xs)
    requires done + 5 < |cs| && i == cs[done]
    ensures args == xs[done..done + 5]
    ensures next == cs[done + 5]
  {
    var j1 := NextSibling(nodes, i);
    assert j1 == cs[done + 1];
    var j2 := NextSibling(nodes, j1);
    assert j2 == cs[done + 2];
    var j3 := NextSibling(nodes, j2);
    assert j3 == cs[done + 3];
    var j4 := NextSibling(nodes, j3);
    assert j4 == cs[done + 4];
    args := [m[i], m[j1], m[j2], m[j3], m[j4]];
    next := NextSibling(nodes, j4);
  }

  /** The one to five children read by cases 1 to 5: every child from
      `i == cs[done]` to the end of `cs`. */
  method GatherLast(m: array<real>, nodes: seq<Node>, i: int, arity: int, ghost p: int, ghost cs: seq<int>,
                    ghost xs: seq<real>, ghost done: nat)
    returns (args: seq<real>)
    requires ChildrenHold(m, nodes, p, cs, xs)
    requires done < |cs| && i == cs[done] && arity == |cs| - done && arity <= 5
    ensures args == xs[done..]
  {
    if arity == 1 {
      args := [m[i]];
    } else if arity == 2 {
      var j1 := NextSibling(nodes, i);
      assert j1 == cs[done + 1];
      args := [m[i], m[j1]];
    } else if arity == 3 {
      var j1 := NextSibling(nodes, i);
      assert j1 == cs[done + 1];
      var j2 := NextSibling(nodes, j1);
      assert j2 == cs[done + 2];
      args := [m[i], m[j1], m[j2]];
    } else if arity == 4 {
      var j1 := NextSibling(nodes, i);
      assert j1 == cs[done + 1];
      var j2 := NextSibling(nodes, j1);
      assert j2 == cs[done + 2];
      var j3 := NextSibling(nodes, j2);
      assert j3 == cs[done + 3];
      args := [m[i], m[j1], m[j2], m[j3]];
    } else {
      var j1 := NextSibling(nodes, i);
      assert j1 == cs[done + 1];
      var j2 := NextSibling(nodes, j1);
      assert j2 == cs[done + 2];
      var j3 := NextSibling(nodes, j2);
      assert j3 == cs[done + 3];
      var j4 := NextSibling(nodes, j3);
      assert j4 == cs[done + 4];
      args := [m[i], m[j1], m[j2], m[j3], m[j4]];
    }
  }

  /** One default round of `dispatch_op`. */
  lemma DispatchRoundStep(N: NodeType, rest: seq<real>, continued: bool, acc: real)
    requires |rest| > 5 && RoundDivisors(N, rest)
    ensures KernelDefined(N, rest[..5]) && RoundDivisors(N, rest[5..])
    ensures DispatchValue(N, rest, if continued then Some(acc) else None)
         == DispatchValue(N, rest[5..], Some(Kernel(N, rest[..5])))
  {
    RoundDivisorsSplit(N, rest);
    DivisorsNonzeroKernel(N, rest[..5], false);
  }

  /** The last round of `dispatch_op`, cases 1 to 5, completes the value
      the loop invariant promises. */
  lemma DispatchLastStep(N: NodeType, xs: seq<real>, done: nat, continued: bool, acc: real)
    requires done < |xs| <= done + 5 && RoundDivisors(N, xs[done..])
    ensures KernelDefined(N, xs[done..])
    ensures |xs| - done == 1 && continued ==> KernelDefined(N, [acc] + xs[done..])
    ensures DispatchValue(N, xs[done..], if continued then Some(acc) else None)
         == if |xs| - done == 1 && continued then Kernel(N, [acc] + xs[done..]) else Kernel(N, xs[done..])
  {
    var rest := xs[done..];
    RoundDivisorsShort(N, rest);
    DivisorsNonzeroKernel(N, rest, false);
    if |rest| == 1 && continued {
      ContinuedKernel(N, acc, rest);
    }
  }

  /** `dispatch_op<T, N>`: given the children `cs` of `parentIndex` holding
      `xs` (`TreeChildrenHold` supplies them for a well-formed tree), the
      parent column becomes `DispatchValue` of the children, and no other
      column changes. */
  method DispatchOp(m: array<real>, nodes: seq<Node>, parentIndex: nat, N: NodeType,
                    ghost cs: seq<int>, ghost xs: seq<real>)
    requires ChildrenHold(m, nodes, parentIndex, cs, xs)
    requires nodes[parentIndex].Arity >= 1
    requires RoundDivisors(N, xs)
    modifies m
    ensures m[parentIndex] == DispatchValue(N, xs, None)
    ensures forall k :: 0 <= k < m.Length && k != parentIndex ==> m[k] == old(m[k])
  {
    var arity := nodes[parentIndex].Arity;
    var i := parentIndex - 1;
    var continued := false;
    ghost var done := 0;
    while arity > 5
      invariant 0 <= done < |cs| && arity == |cs| - done && i == cs[done]
      invariant continued <==> done > 0
      invariant forall k :: 0 <= k < m.Length && k != parentIndex ==> m[k] == old(m[k])
      invariant ChildrenHold(m, nodes, parentIndex, cs, xs)
      invariant RoundDivisors(N, xs[done..])
      invariant DispatchValue(N, xs, None) ==
                DispatchValue(N, xs[done..], if continued then Some(m[parentIndex]) else None)
    {
      ghost var rest := xs[done..];
      var args, next := GatherFive(m, nodes, i, parentIndex, cs, xs, done);
      assert args == rest[..5];
      DispatchRoundStep(N, rest, continued, m[parentIndex]);
      m[parentIndex] := Kernel(N, args);
      i := next;
      arity := arity - 5;
      continued := true;
      done := done + 5;
      assert rest[5..] == xs[done..];
    }
    var args := GatherLast(m, nodes, i, arity, parentIndex, cs, xs, done);
    assert args == xs[done..];
    DispatchLastStep(N, xs, done, continued, m[parentIndex]);
    if arity == 1 && continued {
      m[parentIndex] := Kernel(N, [m[parentIndex]] + args);
    } else {
      m[parentIndex] := Kernel(N, args);
    }
  }

  // ---------------------------------------------------------------------
  // dispatch_op, corrected: every round folds the accumulator in

  /** The arguments of one round of the corrected folding: the
      accumulator, when there is one, followed by the round's values. */
  function RoundArgs(acc: Option<real>, round: seq<real>): (args: seq<real>)
    ensures |args| == |round| + (if acc.Some? then 1 else 0)
    ensures acc.Some? ==> args[0] == acc.value && args[1..] == round
    ensures acc.None? ==> args == round
  {
    if acc.Some? then [acc.value] + round else round
  }

  lemma RoundDefined(N: NodeType, acc: Option<real>, round: seq<real>)
    requires 1 <= |round| && DivisorsNonzero(N, round, acc.Some?)
    ensures KernelDefined(N, RoundArgs(acc, round))
  {
    if acc.Some? {
      ContinuedKernel(N, acc.value, round);
    } else {
      DivisorsNonzeroKernel(N, round, false);
    }
  }

  /** The parent value when each round after the first combines the
      accumulator with the next group of children. */
  function DispatchValueFixed(N: NodeType, xs: seq<real>, acc: Option<real>): real
    requires 1 <= |xs| && DivisorsNonzero(N, xs, acc.Some?)
    decreases |xs|
  {
    if |xs| <= 5 then
      RoundDefined(N, acc, xs);
      Kernel(N, RoundArgs(acc, xs))
    else
      DivisorsPrefix(N, xs, 5, acc.Some?);
      RoundDefined(N, acc, xs[..5]);
      DivisorsSuffix(N, xs, 5, acc.Some?);
      DispatchValueFixed(N, xs[5..], Some(Kernel(N, RoundArgs(acc, xs[..5]))))
  }

  lemma {:induction false} DispatchFixedContinued(N: NodeType, ys: seq<real>, xs: seq<real>)
    requires |ys| >= 2 && |xs| >= 1 && DivisorsNonzero(N, ys + xs, false)
    ensures KernelDefined(N, ys) && DivisorsNonzero(N, xs, true) && KernelDefined(N, ys + xs)
    ensures DispatchValueFixed(N, xs, Some(Kernel(N, ys))) == Kernel(N, ys + xs)
    decreases |xs|
  {
    var all := ys + xs;
    DivisorsPrefix(N, all, |ys|, false);
    assert all[..|ys|] == ys;
    DivisorsNonzeroKernel(N, ys, false);
    DivisorsSuffix(N, all, |ys|, false);
    assert all[|ys|..] == xs;
    DivisorsNonzeroKernel(N, all, false);
    if |xs| <= 5 {
      KernelRegroup(N, ys, xs);
    } else {
      assert all == (ys + xs[..5]) + xs[5..];
      DivisorsPrefix(N, all, |ys| + 5, false);
      assert all[..|ys| + 5] == ys + xs[..5];
      KernelRegroup(N, ys, xs[..5]);
      DispatchFixedContinued(N, ys + xs[..5], xs[5..]);
    }
  }

  /** The corrected folding computes the n-ary kernel over all children,
      for every arity. */
  lemma DispatchFixedIsKernel(N: NodeType, xs: seq<real>)
    requires 1 <= |xs| && DivisorsNonzero(N, xs, false)
    ensures KernelDefined(N, xs)
    ensures DispatchValueFixed(N, xs, None) == Kernel(N, xs)
  {
    DivisorsNonzeroKernel(N, xs, false);
    if |xs| > 5 {
      assert xs[..5] + xs[5..] == xs;
      DispatchFixedContinued(N, xs[..5], xs[5..]);
    }
  }

  /** One default round of the corrected folding. */
  lemma FixedRoundStep(N: NodeType, rest: seq<real>, acc: Option<real>)
    requires |rest| > 5 && DivisorsNonzero(N, rest, acc.Some?)
    ensures KernelDefined(N, RoundArgs(acc, rest[..5])) && DivisorsNonzero(N, rest[5..], true)
    ensures DispatchValueFixed(N, rest, acc)
         == DispatchValueFixed(N, rest[5..], Some(Kernel(N, RoundArgs(acc, rest[..5]))))
  {
    DivisorsPrefix(N, rest, 5, acc.Some?);
    RoundDefined(N, acc, rest[..5]);
    DivisorsSuffix(N, rest, 5, acc.Some?);
  }

  /** The last round of the corrected folding. */
  lemma FixedLastStep(N: NodeType, xs: seq<real>, done: nat, acc: Option<real>)
    requires done < |xs| <= done + 5 && DivisorsNonzero(N, xs[done..], acc.Some?)
    ensures KernelDefined(N, RoundArgs(acc, xs[done..]))
    ensures DispatchValueFixed(N, xs[done..], acc) == Kernel(N, RoundArgs(acc, xs[done..]))
  {
    RoundDefined(N, acc, xs[done..]);
  }

  /** `dispatch_op` with `continued` honoured in every case: the parent
      column becomes the n-ary kernel over all children, and no other
      column changes. */
  method DispatchOpFixed(m: array<real>, nodes: seq<Node>, parentIndex: nat, N: NodeType,
                         ghost cs: seq<int>, ghost xs: seq<real>)
    requires ChildrenHold(m, nodes, parentIndex, cs, xs)
    requires nodes[parentIndex].Arity >= 1
    requires DivisorsNonzero(N, xs, false)
    modifies m
    ensures KernelDefined(N, xs) && m[parentIndex] == Kernel(N, xs)
    ensures forall k :: 0 <= k < m.Length && k != parentIndex ==> m[k] == old(m[k])
  {
    var arity := nodes[parentIndex].Arity;
    var i := parentIndex - 1;
    var continued := false;
    ghost var done := 0;
    while arity > 5
      invariant 0 <= done < |cs| && arity == |cs| - done && i == cs[done]
      invariant continued <==> done > 0
      invariant forall k :: 0 <= k < m.Length && k != parentIndex ==> m[k] == old(m[k])
      invariant ChildrenHold(m, nodes, parentIndex, cs, xs)
      invariant DivisorsNonzero(N, xs[done..], continued)
      invariant DispatchValueFixed(N, xs, None) ==
                DispatchValueFixed(N, xs[done..], if continued then Some(m[parentIndex]) else None)
    {
      ghost var rest := xs[done..];
      var args, next := GatherFive(m, nodes, i, parentIndex, cs, xs, done);
      assert args == rest[..5];
      var acc := if continued then Some(m[parentIndex]) else None;
      FixedRoundStep(N, rest, acc);
      m[parentIndex] := Kernel(N, RoundArgs(acc, args));
      i := next;
      arity := arity - 5;
      continued := true;
      done := done + 5;
      assert rest[5..] == xs[done..];
    }
    var args := GatherLast(m, nodes, i, arity, parentIndex, cs, xs, done);
    assert args == xs[done..];
    var acc := if continued then Some(m[parentIndex]) else None;
    FixedLastStep(N, xs, done, acc);
    m[parentIndex] := Kernel(N, RoundArgs(acc, args));
    DispatchFixedIsKernel(N, xs);
  }

  // ---------------------------------------------------------------------
  // dispatch_op_simple

  /** The right fold `c_k op (... op (c_1 op c_0))` of a binary kernel. */
  function SimpleFold(N: NodeType, xs: seq<real>): (r: real)
    requires 1 <= |xs| && SimpleDefined(N, xs)
    ensures N == Mul ==> r == Prod(xs)
    ensures N != Sub && N != Mul && N != Div ==> r == Sum(xs)
    decreases |xs|, 1
  {
    if |xs| == 1 then
      Singleton(xs[0]);
      xs[0]
    else
      var init, last := xs[..|xs| - 1], xs[|xs| - 1];
      assert xs == init + [last];
      Snoc(init, [last], last, Prod(init), Sum(init));
      var rest := SimpleFold(N, init);
      Singleton(rest);
      assert [last, rest][1..] == [rest];
      KernelMeaning(N, [last, rest]);
      Kernel(N, [last, rest])
  }

  /** Every division in the right fold has a nonzero divisor. */
  predicate SimpleDefined(N: NodeType, xs: seq<real>)
    requires 1 <= |xs|
    decreases |xs|, 0
  {
    |xs| == 1 ||
    (SimpleDefined(N, xs[..|xs| - 1]) && (N == Div ==> SimpleFold(N, xs[..|xs| - 1]) != 0.0))
  }

  lemma {:induction false} SimpleDefinedPrefix(N: NodeType, xs: seq<real>, k: nat)
    requires 1 <= k <= |xs| && SimpleDefined(N, xs)
    ensures SimpleDefined(N, xs[..k])
    decreases |xs| - k
  {
    if k < |xs| {
      SimpleDefinedPrefix(N, xs[..|xs| - 1], k);
      assert xs[..|xs| - 1][..k] == xs[..k];
    } else {
      assert xs[..k] == xs;
    }
  }

  lemma Singleton(r: real)
    ensures Sum([r]) == r && Prod([r]) == r
  {
    assert [r][1..] == [];
  }

  /** Appending one more factor (or term) at the end. */
  lemma Snoc(init: seq<real>, last: seq<real>, y: real, p: real, s: real)
    requires last == [y] && p == Prod(init) && s == Sum(init)
    ensures Prod(init + last) == y * p && Sum(init + last) == y + s
  {
    ProdAppend(init, last);
    SumAppend(init, last);
    Singleton(y);
    MulComm(p, y);
  }

  lemma MulComm(a: real, b: real)
    ensures a * b == b * a
  {
  }

  /** For Add, Mul and every tag using the primary template, the right fold
      equals the n-ary kernel: the product of all children for Mul, their
      sum otherwise. */
  lemma {:induction false} SimpleFoldIsKernel(N: NodeType, xs: seq<real>)
    requires |xs| >= 2 && N != Sub && N != Div
    ensures SimpleDefined(N, xs) && KernelDefined(N, xs)
    ensures SimpleFold(N, xs) == Kernel(N, xs)
    ensures N == Mul ==> SimpleFold(N, xs) == Prod(xs)
    ensures N != Mul ==> SimpleFold(N, xs) == Sum(xs)
    decreases |xs|
  {
    if |xs| > 2 {
      SimpleFoldIsKernel(N, xs[..|xs| - 1]);
    }
    assert SimpleDefined(N, xs);
    KernelMeaning(N, xs);
  }

  /** The right fold of Sub is not the kernel of Sub: with two children it
      subtracts the first from the second. */
  lemma SimpleSubOrder(a: real, b: real)
    ensures SimpleDefined(Sub, [a, b])
    ensures SimpleFold(Sub, [a, b]) == b - a
    ensures Kernel(Sub, [a, b]) == a - b
  {
    assert [a, b][..1] == [a];
    assert [b, a][1..] == [a] && [a, b][1..] == [b];
    assert Sum([a]) == a by { assert [a][1..] == []; }
    assert Sum([b]) == b by { assert [b][1..] == []; }
  }

  /** One step of the right fold: the prefix of length `k + 1` folds the
      value at `k` onto the fold of the prefix of length `k`. */
  lemma SimpleFoldStep(N: NodeType, xs: seq<real>, k: nat)
    requires 1 <= k < |xs| && SimpleDefined(N, xs)
    ensures SimpleDefined(N, xs[..k]) && SimpleDefined(N, xs[..k + 1])
    ensures KernelDefined(N, [xs[k], SimpleFold(N, xs[..k])])
    ensures SimpleFold(N, xs[..k + 1]) == Kernel(N, [xs[k], SimpleFold(N, xs[..k])])
  {
    SimpleDefinedPrefix(N, xs, k + 1);
    assert xs[..k + 1][..k] == xs[..k];
  }

  /** The loop of `dispatch_op_simple` for two or more children `cs`
      (holding `xs`): copies the first child into the parent column, then
      steps back over the others, folding each in from the left
      (`r = c_k op r`). */
  method FoldSiblingsRight(m: array<real>, nodes: seq<Node>, parentIndex: nat, N: NodeType,
                           ghost cs: seq<int>, ghost xs: seq<real>)
    requires ChildrenHold(m, nodes, parentIndex, cs, xs) && |cs| >= 2
    requires SimpleDefined(N, xs)
    modifies m
    ensures m[parentIndex] == SimpleFold(N, xs)
    ensures forall k :: 0 <= k < m.Length && k != parentIndex ==> m[k] == old(m[k])
  {
    var j := parentIndex - 1;
    SimpleDefinedPrefix(N, xs, 1);
    m[parentIndex] := m[j];
    var k := 1;
    while k < nodes[parentIndex].Arity
      invariant 1 <= k <= |cs| && j == cs[k - 1]
      invariant SimpleDefined(N, xs[..k])
      invariant m[parentIndex] == SimpleFold(N, xs[..k])
      invariant forall t :: 0 <= t < m.Length && t != parentIndex ==> m[t] == old(m[t])
    {
      j := j - (nodes[j].Length + 1);
      assert j == cs[k];
      SimpleFoldStep(N, xs, k);
      m[parentIndex] := Kernel(N, [m[j], m[parentIndex]]);
      k := k + 1;
    }
    assert xs[..k] == xs;
  }

  /** `dispatch_op_simple<T, N>`, as written. With two or more children the
      parent column becomes the right fold; with one child the kernel is
      applied to the parent column and the result written into the child
      column at `parentIndex - 1`, leaving the parent column as it was. */
  method DispatchOpSimple(m: array<real>, nodes: seq<Node>, parentIndex: nat, N: NodeType,
                          ghost cs: seq<int>, ghost xs: seq<real>)
    requires ChildrenHold(m, nodes, parentIndex, cs, xs)
    requires nodes[parentIndex].Arity >= 1
    requires nodes[parentIndex].Arity == 1 ==> KernelDefined(N, [m[parentIndex]])
    requires nodes[parentIndex].Arity >= 2 ==> SimpleDefined(N, xs)
    modifies m
    ensures nodes[parentIndex].Arity == 1 ==>
      && parentIndex >= 1
      && m[parentIndex - 1] == Kernel(N, [old(m[parentIndex])])
      && forall k :: 0 <= k < m.Length && k != parentIndex - 1 ==> m[k] == old(m[k])
    ensures nodes[parentIndex].Arity >= 2 ==>
      && m[parentIndex] == SimpleFold(N, xs)
      && forall k :: 0 <= k < m.Length && k != parentIndex ==> m[k] == old(m[k])
  {
    var arity := nodes[parentIndex].Arity;
    var j := parentIndex - 1;
    if arity == 1 {
      m[j] := Kernel(N, [m[parentIndex]]);
    } else {
      FoldSiblingsRight(m, nodes, parentIndex, N, cs, xs);
    }
  }

  /** `dispatch_op_simple` on a unary Sub whose only child is stored at 0,
      with columns `[x, y]`: the child's column becomes `-y` and the
      parent's keeps `y`, where the parent should have become `-x`. */
  method SimpleUnaryExample(x: real, y: real) returns (child: real, parent: real)
    ensures child == -y && parent == y
  {
    var leaf := MakeNode(Variable, 1);
    var neg := MakeNode(Sub, 2).(Arity := 1, Length := 1);
    var m := new real[2];
    m[0], m[1] := x, y;
    DispatchOpSimple(m, [leaf, neg], 1, Sub, [0], [x]);
    child, parent := m[0], m[1];
  }

  /** `dispatch_op_simple` with the unary case writing the parent column:
      it becomes the kernel of the only child, and no other column
      changes. */
  method DispatchOpSimpleFixed(m: array<real>, nodes: seq<Node>, parentIndex: nat, N: NodeType,
                               ghost cs: seq<int>, ghost xs: seq<real>)
    requires ChildrenHold(m, nodes, parentIndex, cs, xs)
    requires nodes[parentIndex].Arity >= 1
    requires nodes[parentIndex].Arity == 1 ==> KernelDefined(N, xs)
    requires nodes[parentIndex].Arity >= 2 ==> SimpleDefined(N, xs)
    modifies m
    ensures nodes[parentIndex].Arity == 1 ==> m[parentIndex] == Kernel(N, xs)
    ensures nodes[parentIndex].Arity >= 2 ==> m[parentIndex] == SimpleFold(N, xs)
    ensures forall k :: 0 <= k < m.Length && k != parentIndex ==> m[k] == old(m[k])
  {
    var arity := nodes[parentIndex].Arity;
    var j := parentIndex - 1;
    if arity == 1 {
      assert [m[j]] == xs;
      m[parentIndex] := Kernel(N, [m[j]]);
    } else {
      FoldSiblingsRight(m, nodes, parentIndex, N, cs, xs);
    }
  }

  /** For Add and Mul with 2 to 5 children, `dispatch_op` and
      `dispatch_op_simple` leave the same value in the parent column. */
  lemma DispatchAgreesWithSimple(N: NodeType, xs: seq<real>)
    requires N == Add || N == Mul
    requires 2 <= |xs| <= 5
    ensures RoundDivisors(N, xs) && SimpleDefined(N, xs)
    ensures DispatchValue(N, xs, None) == SimpleFold(N, xs)
  {
    DispatchUpToSix(N, xs);
    SimpleFoldIsKernel(N, xs);
  }

  /** With the correction, `dispatch_op` and `dispatch_op_simple` agree on
      Add and Mul for every arity of 2 or more. */
  lemma DispatchFixedAgreesWithSimple(N: NodeType, xs: seq<real>)
    requires N == Add || N == Mul
    requires 2 <= |xs|
    ensures DivisorsNonzero(N, xs, false) && SimpleDefined(N, xs)
    ensures DispatchValueFixed(N, xs, None) == SimpleFold(N, xs)
  {
    DispatchFixedIsKernel(N, xs);
    SimpleFoldIsKernel(N, xs);
  }
}
