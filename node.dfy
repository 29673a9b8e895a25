/**
  Operator tags and the node record of a flattened expression tree
  (include/operon/core/node.hpp).

  A tag is a single-bit value of the 32-bit enumeration; the arity of a
  freshly constructed node is read off the tag's numeric value by comparing it
  with the boundaries `Abs` and `Constant`.
*/
module Nodes {

  /** The underlying 32-bit value of the enumeration. The bit operators can
      produce values that are not one of the declared tags. */
  type NodeType = bv32

  // Binary arithmetic, positions 0..7.
  const Add: NodeType := 1 << 0
  const Mul: NodeType := 1 << 1
  const Sub: NodeType := 1 << 2
  const Div: NodeType := 1 << 3
  const Aq: NodeType := 1 << 4
  const Fmax: NodeType := 1 << 5
  const Fmin: NodeType := 1 << 6
  const Pow: NodeType := 1 << 7
  // Unary functions, positions 8..27.
  const Abs: NodeType := 1 << 8
  const Acos: NodeType := 1 << 9
  const Asin: NodeType := 1 << 10
  const Atan: NodeType := 1 << 11
  const Cbrt: NodeType := 1 << 12
  const Ceil: NodeType := 1 << 13
  const Cos: NodeType := 1 << 14
  const Cosh: NodeType := 1 << 15
  const Exp: NodeType := 1 << 16
  const Floor: NodeType := 1 << 17
  const Log: NodeType := 1 << 18
  const Logabs: NodeType := 1 << 19
  const Log1p: NodeType := 1 << 20
  const Sin: NodeType := 1 << 21
  const Sinh: NodeType := 1 << 22
  const Sqrt: NodeType := 1 << 23
  const Sqrtabs: NodeType := 1 << 24
  const Tan: NodeType := 1 << 25
  const Tanh: NodeType := 1 << 26
  const Square: NodeType := 1 << 27
  // The extensible kind (position 28) and the two leaves (29, 30).
  const Dynamic: NodeType := 1 << 28
  const Constant: NodeType := 1 << 29
  const Variable: NodeType := 1 << 30

  /** Number of declared tags (`NodeTypes::Count`). */
  const Count: nat := 31

  /** Positions of the arity boundaries in the enumeration. */
  const AbsPosition: nat := 8
  const ConstantPosition: nat := 29

  /** `Operon::Hash`, an unsigned 64-bit integer. */
  newtype Hash = x: int | 0 <= x < 0x1_0000_0000_0000_0000

  /** The tag declared at position `k`, `1u << k`. */
  function TagAt(k: nat): NodeType
    requires k < 31
  {
    (1 as bv32) << k
  }

  /** `t` is one of the 31 declared tags. */
  ghost predicate IsTag(t: NodeType)
  {
    exists k :: 0 <= k < Count && t == TagAt(k)
  }

  // ---------------------------------------------------------------------
  // Bit operators: they act on the underlying 32-bit value. Each compound
  // assignment (`&=`, `|=`, `^=`) rebinds its left operand to the result of
  // the corresponding binary operator, `t := Or(t, u)`.

  /** The flags set in both operands: none outside either operand, and
      every flag they share. */
  function And(lhs: NodeType, rhs: NodeType): (r: NodeType)
    ensures r & !lhs == 0 && r & !rhs == 0
    ensures lhs & rhs & !r == 0
  {
    lhs & rhs
  }

  /** The flags set in either operand: every flag of both, and no other. */
  function Or(lhs: NodeType, rhs: NodeType): (r: NodeType)
    ensures !r & lhs == 0 && !r & rhs == 0
    ensures r & !lhs & !rhs == 0
  {
    lhs | rhs
  }

  /** The flags set in exactly one operand: applying `rhs` again gives back
      `lhs`. */
  function Xor(lhs: NodeType, rhs: NodeType): (r: NodeType)
    ensures r ^ rhs == lhs
    ensures r & lhs & rhs == 0
  {
    lhs ^ rhs
  }

  /** The complement: no flag in common with `t`, and together they cover
      all 32 bits. */
  function Not(t: NodeType): (r: NodeType)
    ensures r & t == 0 && r | t == 0xFFFF_FFFF
  {
    !t
  }

  /** Distinct tags are disjoint flags. */
  lemma TagsDisjoint(k: nat, j: nat)
    requires k < 31 && j < 31 && k != j
    ensures And(TagAt(k), TagAt(j)) == 0
  {
    if k < j {
      TagOrder(k, j);
      TagSingleBit(j);
      BelowSingleBit(TagAt(k), TagAt(j));
    } else {
      TagOrder(j, k);
      TagSingleBit(k);
      BelowSingleBit(TagAt(j), TagAt(k));
    }
  }

  /** A tag has a single bit set. */
  lemma {:induction false} TagSingleBit(k: nat)
    requires k < 31
    ensures TagAt(k) != 0 && TagAt(k) & (TagAt(k) - 1) == 0
  {
    if k > 0 {
      TagSingleBit(k - 1);
      TagStep(k);
      ShiftSingleBit(TagAt(k - 1));
    }
  }

  lemma ShiftSingleBit(p: bv32)
    requires p != 0 && p & (p - 1) == 0 && p < 0x4000_0000
    ensures p << 1 != 0 && (p << 1) & ((p << 1) - 1) == 0
  {
  }

  /** A value below a single bit shares no bit with it. */
  lemma BelowSingleBit(x: bv32, p: bv32)
    requires p & (p - 1) == 0 && x < p
    ensures x & p == 0 && p & x == 0
  {
  }

  /** A flag `a` is set in `s` with `|=` and cleared with `&= ~`, as seen
      by testing with `&`; `^=` toggles it. */
  lemma FlagSetClear(s: NodeType, a: NodeType)
    ensures And(Or(s, a), a) == a
    ensures And(And(s, Not(a)), a) == 0
  {
  }

  lemma FlagToggle(s: NodeType, a: NodeType)
    ensures Xor(Xor(s, a), a) == s
  {
  }

  /** Setting a flag does not change the test for a disjoint flag, such as
      another tag. */
  lemma FlagIndependent(s: NodeType, a: NodeType, b: NodeType)
    requires And(a, b) == 0
    ensures And(Or(s, a), b) == And(s, b)
  {
  }

  // ---------------------------------------------------------------------
  // NodeTypes::GetIndex

  /** Number of set bits among the lowest `n` bits of `x`. */
  function Popcount(x: bv32, n: nat): (c: nat)
    requires n <= 32
    ensures c <= n
  {
    if n == 0 then 0 else (if x & 1 == 1 then 1 else 0) + Popcount(x >> 1, n - 1)
  }

  /** The index of a tag in the enumeration: the number of set bits of
      `type - 1` (unsigned, wrapping) in a 31-bit bitset. */
  function GetIndex(t: NodeType): (idx: nat)
    ensures idx <= Count
  {
    Popcount(t - 1, Count)
  }

  /** The mask with the lowest `k` bits set. */
  function LowMask(k: nat): bv32
    requires k <= 31
  {
    if k == 0 then 0 else (LowMask(k - 1) << 1) | 1
  }

  lemma {:induction false} LowMaskFacts(k: nat)
    requires k <= 31
    ensures LowMask(k) < 0x8000_0000
    ensures k > 0 ==> LowMask(k) >> 1 == LowMask(k - 1) && LowMask(k) & 1 == 1
    ensures k < 31 ==> LowMask(k) == TagAt(k) - 1
  {
    if k > 0 {
      LowMaskFacts(k - 1);
      var x := LowMask(k - 1);
      TagCeiling(k - 1);
      PredBelow(TagAt(k - 1));
      LowMaskStep(x);
      if k < 31 {
        TagShift(k);
        LowMaskNext(x, TagAt(k - 1), TagAt(k));
      }
    }
  }

  lemma TagCeiling(k: nat)
    requires k < 31
    ensures 0 < TagAt(k) <= 0x4000_0000
  {
    if k < 30 {
      TagBound(k);
    } else {
      assert TagAt(30) == 0x4000_0000;
    }
  }

  lemma PredBelow(p: bv32)
    requires 0 < p <= 0x4000_0000
    ensures p - 1 < 0x4000_0000
  {
  }

  /** One step of `LowMask` shifts in a set bit. */
  lemma LowMaskStep(x: bv32)
    requires x < 0x4000_0000
    ensures (x << 1) | 1 < 0x8000_0000
    ensures ((x << 1) | 1) >> 1 == x && ((x << 1) | 1) & 1 == 1
  {
  }

  /** Shifting a set bit into one less than `p` gives one less than `p << 1`. */
  lemma LowMaskNext(x: bv32, p: bv32, q: bv32)
    requires x == p - 1 && q == p << 1
    ensures (x << 1) | 1 == q - 1
  {
  }

  lemma {:induction false} PopcountZero(n: nat)
    requires n <= 32
    ensures Popcount(0, n) == 0
  {
    if n > 0 {
      PopcountZero(n - 1);
    }
  }

  lemma {:induction false} PopcountLowMask(k: nat, n: nat)
    requires k <= n <= Count
    ensures Popcount(LowMask(k), n) == k
  {
    if k == 0 {
      PopcountZero(n);
    } else {
      LowMaskFacts(k);
      var x := LowMask(k);
      assert Popcount(x, n) == 1 + Popcount(x >> 1, n - 1);
      PopcountLowMask(k - 1, n - 1);
    }
  }

  /** `GetIndex(1 << k) == k` for every declared tag. */
  lemma GetIndexOfTag(k: nat)
    requires k < 31
    ensures GetIndex(TagAt(k)) == k
  {
    LowMaskFacts(k);
    PopcountLowMask(k, Count);
  }

  /** GetIndex maps the declared tags injectively into `[0, Count)`. */
  lemma GetIndexInjective(a: NodeType, b: NodeType)
    requires IsTag(a) && IsTag(b)
    ensures GetIndex(a) < Count
    ensures GetIndex(a) == GetIndex(b) ==> a == b
  {
    var ka :| 0 <= ka < Count && a == TagAt(ka);
    var kb :| 0 <= kb < Count && b == TagAt(kb);
    GetIndexOfTag(ka);
    GetIndexOfTag(kb);
  }

  // ---------------------------------------------------------------------
  // Ordering of tags by value

  lemma TagStep(k: nat)
    requires 0 < k < 31
    ensures TagAt(k) == TagAt(k - 1) << 1
    ensures 0 < TagAt(k - 1) < 0x4000_0000
  {
    TagShift(k);
    TagBound(k - 1);
  }

  lemma TagShift(k: nat)
    requires 0 < k < 31
    ensures TagAt(k) == TagAt(k - 1) << 1
  {
    var b := k as bv5;
    assert TagAt(k) == (1 as bv32) << b;
    assert TagAt(k - 1) == (1 as bv32) << (b - 1);
    ShiftStep(b);
  }

  lemma ShiftStep(b: bv5)
    requires 0 < b < 31
    ensures (1 as bv32) << b == ((1 as bv32) << (b - 1)) << 1
  {
  }

  lemma TagBound(k: nat)
    requires k < 30
    ensures 0 < TagAt(k) < 0x4000_0000
  {
  }

  /** Tags are ordered by value as they are by position. */
  lemma {:induction false} TagOrder(k: nat, j: nat)
    requires k < 31 && j < 31
    ensures TagAt(k) < TagAt(j) <==> k < j
  {
    if k < j {
      TagStep(j);
      if k < j - 1 {
        TagOrder(k, j - 1);
      }
    } else if j < k {
      TagOrder(j, k);
    }
  }

  // ---------------------------------------------------------------------
  // The node record

  /** One record of the flattened tree. `Optimize` marks a coefficient that
      the interpreter may replace by an externally supplied parameter. */
  datatype Node = Node(
    HashValue: Hash,
    CalculatedHashValue: Hash,
    Value: real,
    Arity: nat,
    Length: nat,
    Depth: nat,
    Level: nat,
    Parent: nat,
    Type: NodeType,
    IsEnabled: bool,
    Optimize: bool)

  /** The arity the constructor derives from the tag's numeric value. */
  function ArityOf(t: NodeType): (arity: nat)
    ensures arity <= 2
    ensures t == Constant || t == Variable ==> arity == 0
  {
    if t < Abs then 2 else if t < Constant then 1 else 0
  }

  /** `Node(type, hashValue)`. */
  function MakeNode(t: NodeType, hashValue: Hash): (n: Node)
    ensures n.Type == t && n.Length == n.Arity == ArityOf(t)
    ensures Key(n) == (hashValue, hashValue) && n.IsEnabled && !n.Optimize
  {
    var arity := ArityOf(t);
    Node(hashValue, hashValue, 1.0, arity, arity, 0, 0, 0, t, true, false)
  }

  /** `Node(type)`: the hash defaults to the tag's numeric value. */
  function MakeNodeOfType(t: NodeType): (n: Node)
    ensures n.Type == t && n.HashValue as int == n.CalculatedHashValue as int == t as int
  {
    MakeNode(t, t as int as Hash)
  }

  /** The arity of the tag at position `k`: binary arithmetic (Add..Pow) has
      2, the unary functions and Dynamic (Abs..Dynamic) have 1, the leaves
      Constant and Variable have 0. */
  lemma ArityOfTag(k: nat)
    requires k < 31
    ensures ArityOf(TagAt(k)) == 2 <==> k < AbsPosition
    ensures ArityOf(TagAt(k)) == 1 <==> AbsPosition <= k < ConstantPosition
    ensures ArityOf(TagAt(k)) == 0 <==> ConstantPosition <= k
  {
    TagOrder(k, AbsPosition);
    TagOrder(k, ConstantPosition);
  }

  /** A freshly constructed node: its arity comes from the tag's position,
      its length equals its arity, its value is 1, it is enabled, and both
      hashes equal the given hash (by default the tag's numeric value). */
  lemma ConstructedNode(k: nat, h: Hash)
    requires k < 31
    ensures var n := MakeNode(TagAt(k), h);
      && n.Type == TagAt(k)
      && (n.Arity == 2 <==> k < AbsPosition)
      && (n.Arity == 1 <==> AbsPosition <= k < ConstantPosition)
      && (n.Arity == 0 <==> ConstantPosition <= k)
      && n.Length == n.Arity
      && n.Value == 1.0
      && n.IsEnabled
      && n.HashValue == h && n.CalculatedHashValue == h
    ensures MakeNodeOfType(TagAt(k)).HashValue as int == TagAt(k) as int
  {
    ArityOfTag(k);
  }

  // ---------------------------------------------------------------------
  // Comparison operators

  /** `==`: nodes with equal keys, and a node with itself, compare equal. */
  predicate Eq(a: Node, b: Node)
    ensures a == b ==> Eq(a, b)
    ensures Key(a) == Key(b) ==> Eq(a, b)
  {
    a.CalculatedHashValue == b.CalculatedHashValue
  }

  /** `!=`: nodes it tells apart are different records. */
  predicate Ne(a: Node, b: Node)
    ensures Ne(a, b) ==> a != b && Key(a) != Key(b)
  {
    !Eq(a, b)
  }

  /** `<`: the lexicographic order on the two hashes. */
  predicate Lt(a: Node, b: Node)
    ensures Lt(a, b) <==> LexLess(Key(a), Key(b))
  {
    if a.HashValue == b.HashValue then a.CalculatedHashValue < b.CalculatedHashValue
    else a.HashValue < b.HashValue
  }

  /** `<=`: holds of a node with itself, and whenever `<` does. */
  predicate Le(a: Node, b: Node)
    ensures a == b ==> Le(a, b)
    ensures Lt(a, b) ==> Le(a, b)
  {
    Eq(a, b) || Lt(a, b)
  }

  /** `>`: strict, so `a > b` puts `b` before `a` in `<`. */
  predicate Gt(a: Node, b: Node)
    ensures Gt(a, b) ==> Lt(b, a)
    ensures a == b ==> !Gt(a, b)
  {
    !Le(a, b)
  }

  /** `>=`: `b < a` or equal keys. */
  predicate Ge(a: Node, b: Node)
    ensures Ge(a, b) <==> Lt(b, a) || Key(a) == Key(b)
  {
    !Lt(a, b)
  }

  /** The lexicographic order on (HashValue, CalculatedHashValue) pairs. */
  predicate LexLess(a: (Hash, Hash), b: (Hash, Hash))
  {
    a.0 < b.0 || (a.0 == b.0 && a.1 < b.1)
  }

  function Key(n: Node): (Hash, Hash) { (n.HashValue, n.CalculatedHashValue) }

  /** `<` is the lexicographic order on the two hashes: a strict total order
      on keys (irreflexive, transitive, and exactly one of `a < b`, `b < a`,
      equal keys). `!=` negates `==`, `>=` negates `<`, and `>` negates
      `<=`, so `a > b` holds exactly when `b < a` and not `a == b`. */
  lemma OrderFacts(a: Node, b: Node, c: Node)
    ensures Lt(a, b) <==> LexLess(Key(a), Key(b))
    ensures !Lt(a, a)
    ensures Lt(a, b) && Lt(b, c) ==> Lt(a, c)
    ensures Lt(a, b) ==> !Lt(b, a)
    ensures Lt(a, b) || Lt(b, a) || Key(a) == Key(b)
    ensures Ne(a, b) <==> !Eq(a, b)
    ensures Ge(a, b) <==> !Lt(a, b)
    ensures Gt(a, b) <==> Lt(b, a) && !Eq(a, b)
  {
  }

  /** `==` looks only at CalculatedHashValue while `<` looks at HashValue
      first, so two nodes can be both `==` and `<`, and then `a == b` holds
      while `a >= b` does not. */
  lemma EqualYetLess()
    ensures var a := MakeNode(Add, 1);
            var b := MakeNode(Mul, 2).(CalculatedHashValue := 1);
            Eq(a, b) && Lt(a, b) && !Ge(a, b) && Le(a, b)
  {
  }

  // ---------------------------------------------------------------------
  // Kind queries

  /** A leaf has no children: its subtree is itself. */
  predicate IsLeaf(n: Node)
    ensures IsLeaf(n) && n.Length == n.Arity ==> n.Length == 0
  {
    n.Arity == 0
  }

  /** Only the tags before Sub are commutative: Add and Mul among the
      declared ones. */
  predicate IsCommutative(n: Node)
    ensures n.Type == Sub || n.Type == Div || n.Type == Constant ==> !IsCommutative(n)
  {
    n.Type < Sub
  }

  /** `Is<T...>()`: the node's tag is one of the listed tags; an empty list
      matches nothing. */
  predicate Is(n: Node, tags: set<NodeType>)
    ensures tags == {} ==> !Is(n, tags)
    ensures Is(n, tags) <==> {n.Type} <= tags
  {
    n.Type in tags
  }

  predicate IsConstant(n: Node) { Is(n, {Constant}) }

  predicate IsVariable(n: Node) { Is(n, {Variable}) }

  /** On declared tags, IsCommutative holds exactly for Add and Mul, and a
      constructed node is a leaf exactly for Constant and Variable. */
  lemma KindQueries(k: nat, h: Hash)
    requires k < 31
    ensures IsCommutative(MakeNode(TagAt(k), h)) <==> TagAt(k) == Add || TagAt(k) == Mul
    ensures IsLeaf(MakeNode(TagAt(k), h)) <==> TagAt(k) == Constant || TagAt(k) == Variable
    ensures IsConstant(MakeNode(TagAt(k), h)) <==> k == ConstantPosition
    ensures IsVariable(MakeNode(TagAt(k), h)) <==> k == ConstantPosition + 1
  {
    TagOrder(k, 2);
    ArityOfTag(k);
    if k < 2 {
      assert k == 0 || k == 1;
    }
    if ConstantPosition <= k {
      assert k == 29 || k == 30;
    }
  }
}
