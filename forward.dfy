/**
  Forward-mode Jacobian of a tree's output with respect to its coefficients
  (include/operon/autodiff/forward/forward.hpp).

  The coefficients are split into groups of `d` (the number of derivative
  lanes of a dual number). For each group the lanes of its coefficients are
  seeded, the interpreter is run once on dual numbers, and the lanes of the
  output duals are copied into the Jacobian buffer, which is stored in
  column-major or row-major order.
*/
module ForwardDiff {
  import opened Chunks

  /** A dual number: primal value `a` and one derivative per lane. */
  datatype Dual = Dual(a: real, v: seq<real>)

  /** One interpreter pass: the output dual of each row of the range, given
      the dual coefficients. The tree and the dataset are fixed for the call. */
  type Interp = (seq<Dual>, nat) -> Dual

  /** Every output dual carries exactly `d` lanes, like the fixed-size jet. */
  ghost predicate LanesFit(interp: Interp, d: nat)
  {
    forall xs, row :: |interp(xs, row).v| == d
  }

  function Zeros(d: nat): (z: seq<real>)
  {
    seq(d, _ => 0.0)
  }

  // ---------------------------------------------------------------------
  // Storage order

  /** Offset of entry (`row`, `col`) of a `rows` x `cols` matrix; every entry
      lies inside the buffer. */
  function Cell(colMajor: bool, rows: nat, cols: nat, row: nat, col: nat): (k: nat)
    requires row < rows && col < cols
    ensures k < rows * cols
  {
    if colMajor then
      MulLe(col + 1, cols, rows);
      row + col * rows
    else
      MulLe(row + 1, rows, cols);
      row * cols + col
  }

  /** Distinct entries have distinct offsets. */
  lemma CellInjective(colMajor: bool, rows: nat, cols: nat, r1: nat, c1: nat, r2: nat, c2: nat)
    requires r1 < rows && c1 < cols && r2 < rows && c2 < cols
    requires Cell(colMajor, rows, cols, r1, c1) == Cell(colMajor, rows, cols, r2, c2)
    ensures r1 == r2 && c1 == c2
  {
    if colMajor {
      Digits(c1, r1, c2, r2, rows);
    } else {
      Digits(r1, c1, r2, c2, cols);
    }
  }

  /** Every offset of the buffer belongs to some entry. */
  lemma CellOnto(colMajor: bool, rows: nat, cols: nat, k: nat)
    requires k < rows * cols
    ensures exists row: nat, col: nat :: row < rows && col < cols && Cell(colMajor, rows, cols, row, col) == k
  {
    if colMajor {
      var col, row := Coordinates(k, rows, cols);
      assert Cell(colMajor, rows, cols, row, col) == k;
    } else {
      MulSwap(rows, cols);
      var row, col := Coordinates(k, cols, rows);
      assert Cell(colMajor, rows, cols, row, col) == k;
    }
  }

  /** An offset below `m * n` splits into a quotient below `n` and a
      remainder below `m`. */
  lemma Coordinates(k: nat, m: nat, n: nat) returns (q: nat, r: nat)
    requires k < m * n
    ensures q < n && r < m && k == r + q * m
  {
    Split(k, m, n);
    q, r := k / m, k % m;
  }

  lemma MulSwap(a: nat, b: nat)
    ensures a * b == b * a
  {
  }

  /** Writing one entry leaves every other entry alone. */
  lemma CellDistinct(colMajor: bool, rows: nat, cols: nat, row: nat, col: nat)
    requires row < rows && col < cols
    ensures forall r: nat, c: nat :: r < rows && c < cols && (r != row || c != col) ==>
      Cell(colMajor, rows, cols, r, c) != Cell(colMajor, rows, cols, row, col)
  {
    forall r: nat, c: nat | r < rows && c < cols && Cell(colMajor, rows, cols, r, c) == Cell(colMajor, rows, cols, row, col)
      ensures r == row && c == col
    {
      CellInjective(colMajor, rows, cols, r, c, row, col);
    }
  }

  // ---------------------------------------------------------------------
  // Groups and seeds

  /** A coefficient inside the group starting at the multiple `s` of `d`
      uses lane `i - s`, which is `i % d`. */
  lemma LaneInGroup(i: nat, s: nat, d: nat)
    requires d > 0 && s % d == 0 && s <= i < s + d
    ensures i % d == i - s && i - i % d == s
  {
    Digits(s / d, i - s, i / d, i % d, d);
  }

  /** The derivative lanes of coefficient `i` once every group below `upto`
      has been seeded: lane `i % d` is set when its group is reached and is
      never cleared afterwards. */
  function SeedAsWritten(i: nat, d: nat, upto: nat): (v: seq<real>)
    requires d > 0
    ensures i < upto ==> v == SeedOneHot(i, d, i - i % d)
    ensures upto <= i ==> v == Zeros(d)
  {
    seq(d, k => if i < upto && k == i % d then 1.0 else 0.0)
  }

  /** The coefficients as duals: each keeps its value, with the seeds of
      every group below `upto`. */
  function InputsAsWritten(coeff: seq<real>, d: nat, upto: nat): (xs: seq<Dual>)
    requires d > 0
    ensures |xs| == |coeff|
    ensures forall i :: 0 <= i < |coeff| ==> xs[i].a == coeff[i] && |xs[i].v| == d
  {
    seq(|coeff|, i requires 0 <= i < |coeff| => Dual(coeff[i], SeedAsWritten(i, d, upto)))
  }

  /** The derivative lanes of coefficient `i` during the pass of the group
      starting at `s`: one-hot inside the group, zero outside. */
  function SeedOneHot(i: nat, d: nat, s: nat): (v: seq<real>)
  {
    seq(d, k => if s <= i && i - s == k then 1.0 else 0.0)
  }

  function InputsOneHot(coeff: seq<real>, d: nat, s: nat): (xs: seq<Dual>)
  {
    seq(|coeff|, i requires 0 <= i < |coeff| => Dual(coeff[i], SeedOneHot(i, d, s)))
  }

  /** Entry (`row`, `col`) as the source computes it: lane `col % d` of the
      output of the pass of `col`'s group, run with the accumulated seeds.
      In the first group no seed has accumulated yet, so it is the one-hot
      entry. */
  function EntryAsWritten(interp: Interp, coeff: seq<real>, d: nat, row: nat, col: nat): (e: real)
    requires d > 0 && LanesFit(interp, d)
    ensures col < d ==> e == EntryOneHot(interp, coeff, d, row, col)
  {
    FirstGroupSeeds(coeff, d);
    assert col < d ==> col % d == col by {
      if col < d {
        LaneInGroup(col, 0, d);
      }
    }
    interp(InputsAsWritten(coeff, d, col - col % d + d), row).v[col % d]
  }

  /** Entry (`row`, `col`) with one-hot seeds: lane `col % d` of the pass in
      which only `col`'s group is seeded. */
  function EntryOneHot(interp: Interp, coeff: seq<real>, d: nat, row: nat, col: nat): real
    requires d > 0 && LanesFit(interp, d)
  {
    interp(InputsOneHot(coeff, d, col - col % d), row).v[col % d]
  }

  /** The seeds of the first group are one-hot with either definition: the
      two agree until a second group is reached. */
  lemma FirstGroupSeeds(coeff: seq<real>, d: nat)
    requires d > 0
    ensures InputsAsWritten(coeff, d, d) == InputsOneHot(coeff, d, 0)
  {
    forall i | 0 <= i < |coeff|
      ensures SeedAsWritten(i, d, d) == SeedOneHot(i, d, 0)
    {
      if i < d {
        LaneInGroup(i, 0, d);
      }
    }
  }

  // ---------------------------------------------------------------------
  // Filling the buffer

  /** The column-major fill of one group: lane `col - s` of every output is
      copied into column `col`, for each `col` of the group. */
  method FillColumns(jac: array<real>, rows: nat, cols: nat, s: nat, r: nat, outputs: seq<Dual>)
    requires s <= r <= cols && jac.Length == rows * cols && |outputs| == rows
    requires forall row :: 0 <= row < rows ==> r - s <= |outputs[row].v|
    modifies jac
    ensures forall row: nat, col: nat :: row < rows && col < cols ==>
      jac[Cell(true, rows, cols, row, col)]
        == if s <= col < r then outputs[row].v[col - s] else old(jac[Cell(true, rows, cols, row, col)])
  {
    var i := s;
    while i < r
      invariant s <= i <= r
      invariant forall row: nat, col: nat :: row < rows && col < cols ==>
        jac[Cell(true, rows, cols, row, col)]
          == if s <= col < i then outputs[row].v[col - s] else old(jac[Cell(true, rows, cols, row, col)])
    {
      var row := 0;
      while row < |outputs|
        invariant 0 <= row <= rows
        invariant forall rw: nat, col: nat :: rw < rows && col < cols ==>
          jac[Cell(true, rows, cols, rw, col)]
            == if s <= col < i || (col == i && rw < row) then outputs[rw].v[col - s]
               else old(jac[Cell(true, rows, cols, rw, col)])
      {
        CellDistinct(true, rows, cols, row, i);
        jac[Cell(true, rows, cols, row, i)] := outputs[row].v[i - s];
        row := row + 1;
      }
      i := i + 1;
    }
  }

  /** The row-major fill of one group: the first `r - s` lanes of output
      `row` are copied into columns `s .. r` of row `row`. */
  method FillRows(jac: array<real>, rows: nat, cols: nat, s: nat, r: nat, outputs: seq<Dual>)
    requires s <= r <= cols && jac.Length == rows * cols && |outputs| == rows
    requires forall row :: 0 <= row < rows ==> r - s <= |outputs[row].v|
    modifies jac
    ensures forall row: nat, col: nat :: row < rows && col < cols ==>
      jac[Cell(false, rows, cols, row, col)]
        == if s <= col < r then outputs[row].v[col - s] else old(jac[Cell(false, rows, cols, row, col)])
  {
    var i := 0;
    while i < |outputs|
      invariant 0 <= i <= rows
      invariant forall row: nat, col: nat :: row < rows && col < cols ==>
        jac[Cell(false, rows, cols, row, col)]
          == if row < i && s <= col < r then outputs[row].v[col - s]
             else old(jac[Cell(false, rows, cols, row, col)])
    {
      var t := 0;
      while t < r - s
        invariant 0 <= t <= r - s
        invariant forall row: nat, col: nat :: row < rows && col < cols ==>
          jac[Cell(false, rows, cols, row, col)]
            == if (row < i && s <= col < r) || (row == i && s <= col < s + t) then outputs[row].v[col - s]
               else old(jac[Cell(false, rows, cols, row, col)])
      {
        CellDistinct(false, rows, cols, i, s + t);
        jac[Cell(false, rows, cols, i, s + t)] := outputs[i].v[t];
        t := t + 1;
      }
      i := i + 1;
    }
  }

  // ---------------------------------------------------------------------
  // Seeding

  /** Primal values from the coefficients, all lanes zero. */
  method InitInputs(coeff: seq<real>, d: nat) returns (inputs: seq<Dual>)
    requires d > 0
    ensures inputs == InputsAsWritten(coeff, d, 0)
  {
    inputs := seq(|coeff|, _ => Dual(0.0, Zeros(d)));
    var i := 0;
    while i < |inputs|
      invariant 0 <= i <= |inputs| == |coeff|
      invariant forall j :: 0 <= j < i ==> inputs[j] == Dual(coeff[j], SeedAsWritten(j, d, 0))
    {
      inputs := inputs[i := Dual(coeff[i], Zeros(d))];
      i := i + 1;
    }
  }

  /** The group of coefficients `s .. r` fits the lanes. */
  ghost predicate GroupFits(inputs: seq<Dual>, s: nat, r: nat)
  {
    r <= |inputs| && forall i :: s <= i < r ==> i - s < |inputs[i].v|
  }

  /** `inputs` with lane `i - s` of each coefficient `i` in `s .. r` set to `x`. */
  function SetLanes(inputs: seq<Dual>, s: nat, r: nat, x: real): (out: seq<Dual>)
    requires GroupFits(inputs, s, r)
  {
    seq(|inputs|, i requires 0 <= i < |inputs| =>
      if s <= i < r then inputs[i].(v := inputs[i].v[i - s := x]) else inputs[i])
  }

  /** The seeding loop (with `x` = 1) over the group `s .. r`. */
  method SetGroupLanes(inputs: seq<Dual>, s: nat, r: nat, x: real) returns (out: seq<Dual>)
    requires GroupFits(inputs, s, r)
    ensures out == SetLanes(inputs, s, r, x)
  {
    out := inputs;
    var i := s;
    while i < r
      invariant i == s || s <= i <= r
      invariant |out| == |inputs|
      invariant forall j :: 0 <= j < |inputs| ==>
        out[j] == if s <= j < i then inputs[j].(v := inputs[j].v[j - s := x]) else inputs[j]
    {
      out := out[i := out[i].(v := out[i].v[i - s := x])];
      i := i + 1;
    }
  }

  /** Seeding a group on top of the earlier seeds sets the lanes of every
      coefficient below the group's end. */
  lemma SeedAccumulates(coeff: seq<real>, d: nat, s: nat)
    requires d > 0 && s % d == 0 && s <= |coeff|
    ensures GroupFits(InputsAsWritten(coeff, d, s), s, ChunkEnd(|coeff|, d, s))
    ensures SetLanes(InputsAsWritten(coeff, d, s), s, ChunkEnd(|coeff|, d, s), 1.0)
         == InputsAsWritten(coeff, d, s + d)
  {
    var r := ChunkEnd(|coeff|, d, s);
    var before := InputsAsWritten(coeff, d, s);
    forall i | 0 <= i < |coeff|
      ensures SetLanes(before, s, r, 1.0)[i] == InputsAsWritten(coeff, d, s + d)[i]
    {
      if s <= i < r {
        LaneInGroup(i, s, d);
      } else {
        assert SeedAsWritten(i, d, s) == SeedAsWritten(i, d, s + d);
      }
    }
  }

  /** Seeding a group on top of zero lanes gives one-hot seeds. */
  lemma SeedFromZero(coeff: seq<real>, d: nat, s: nat)
    requires d > 0 && s <= |coeff|
    ensures GroupFits(InputsAsWritten(coeff, d, 0), s, ChunkEnd(|coeff|, d, s))
    ensures SetLanes(InputsAsWritten(coeff, d, 0), s, ChunkEnd(|coeff|, d, s), 1.0)
         == InputsOneHot(coeff, d, s)
  {
    var r := ChunkEnd(|coeff|, d, s);
    var before := InputsAsWritten(coeff, d, 0);
    forall i | 0 <= i < |coeff|
      ensures SetLanes(before, s, r, 1.0)[i] == InputsOneHot(coeff, d, s)[i]
    {
      if !(s <= i < r) {
        assert SeedOneHot(i, d, s) == Zeros(d);
      }
    }
  }

  /** Clearing the group's lanes after its pass restores zero lanes. */
  lemma ClearToZero(coeff: seq<real>, d: nat, s: nat)
    requires d > 0 && s <= |coeff|
    ensures GroupFits(InputsOneHot(coeff, d, s), s, ChunkEnd(|coeff|, d, s))
    ensures SetLanes(InputsOneHot(coeff, d, s), s, ChunkEnd(|coeff|, d, s), 0.0)
         == InputsAsWritten(coeff, d, 0)
  {
    var r := ChunkEnd(|coeff|, d, s);
    var before := InputsOneHot(coeff, d, s);
    forall i | 0 <= i < |coeff|
      ensures SetLanes(before, s, r, 0.0)[i] == InputsAsWritten(coeff, d, 0)[i]
    {
      if !(s <= i < r) {
        assert SeedOneHot(i, d, s) == Zeros(d);
      }
    }
  }

  // ---------------------------------------------------------------------
  // DerivativeCalculator::operator()

  /** In the pass of the group starting at `s`, lane `col - s` of the output
      is the entry of column `col` as the source defines it. */
  lemma PassEntriesAsWritten(interp: Interp, coeff: seq<real>, d: nat, s: nat)
    requires d > 0 && LanesFit(interp, d) && s % d == 0
    ensures forall row: nat, col: nat :: s <= col < s + d ==>
      EntryAsWritten(interp, coeff, d, row, col) == interp(InputsAsWritten(coeff, d, s + d), row).v[col - s]
  {
    forall row: nat, col: nat | s <= col < s + d
      ensures EntryAsWritten(interp, coeff, d, row, col) == interp(InputsAsWritten(coeff, d, s + d), row).v[col - s]
    {
      LaneInGroup(col, s, d);
    }
  }

  lemma PassEntriesOneHot(interp: Interp, coeff: seq<real>, d: nat, s: nat)
    requires d > 0 && LanesFit(interp, d) && s % d == 0
    ensures forall row: nat, col: nat :: s <= col < s + d ==>
      EntryOneHot(interp, coeff, d, row, col) == interp(InputsOneHot(coeff, d, s), row).v[col - s]
  {
    forall row: nat, col: nat | s <= col < s + d
      ensures EntryOneHot(interp, coeff, d, row, col) == interp(InputsOneHot(coeff, d, s), row).v[col - s]
    {
      LaneInGroup(col, s, d);
    }
  }

  /** Copies the lanes of one pass into the buffer in its storage order. */
  method FillGroup(colMajor: bool, jac: array<real>, rows: nat, cols: nat, s: nat, r: nat, outputs: seq<Dual>)
    requires s <= r <= cols && jac.Length == rows * cols && |outputs| == rows
    requires forall row :: 0 <= row < rows ==> r - s <= |outputs[row].v|
    modifies jac
    ensures forall row: nat, col: nat :: row < rows && col < cols ==>
      jac[Cell(colMajor, rows, cols, row, col)]
        == if s <= col < r then outputs[row].v[col - s] else old(jac[Cell(colMajor, rows, cols, row, col)])
  {
    if colMajor {
      FillColumns(jac, rows, cols, s, r, outputs);
    } else {
      FillRows(jac, rows, cols, s, r, outputs);
    }
  }

  /** `operator()` writing into a caller's buffer `jac` of `rows` x
      `|coeff|` entries. Ghost `passes` lists the group start of each
      interpreter pass. */
  method JacobianInto(colMajor: bool, interp: Interp, coeff: seq<real>, rows: nat, d: nat, jac: array<real>)
    returns (ghost passes: seq<nat>)
    requires d > 0 && LanesFit(interp, d)
    requires jac.Length == rows * |coeff|
    modifies jac
    ensures passes == Starts(|coeff|, d, 0)
    ensures forall row: nat, col: nat :: row < rows && col < |coeff| ==>
      jac[Cell(colMajor, rows, |coeff|, row, col)] == EntryAsWritten(interp, coeff, d, row, col)
  {
    var n := |coeff|;
    forall k | 0 <= k < jac.Length {
      jac[k] := 0.0;
    }
    var inputs := InitInputs(coeff, d);
    passes := [];
    var s := 0;
    while s < n
      invariant s % d == 0
      invariant inputs == InputsAsWritten(coeff, d, s)
      invariant passes + Starts(n, d, s) == Starts(n, d, 0)
      invariant forall row: nat, col: nat :: row < rows && col < n ==>
        jac[Cell(colMajor, rows, n, row, col)] == if col < s then EntryAsWritten(interp, coeff, d, row, col) else 0.0
    {
      var r := ChunkEnd(n, d, s);
      SeedAccumulates(coeff, d, s);
      inputs := SetGroupLanes(inputs, s, r, 1.0);
      var outputs := seq(rows, row requires 0 <= row => interp(inputs, row));
      passes := passes + [s];
      FillGroup(colMajor, jac, rows, n, s, r, outputs);
      PassEntriesAsWritten(interp, coeff, d, s);
      NextMultiple(s, d);
      s := s + d;
    }
  }

  /** `operator()` returning a new Jacobian. */
  method Jacobian(colMajor: bool, interp: Interp, coeff: seq<real>, rows: nat, d: nat)
    returns (jacobian: seq<real>)
    requires d > 0 && LanesFit(interp, d)
    ensures |jacobian| == rows * |coeff|
    ensures forall row: nat, col: nat :: row < rows && col < |coeff| ==>
      jacobian[Cell(colMajor, rows, |coeff|, row, col)] == EntryAsWritten(interp, coeff, d, row, col)
  {
    var jac := new real[rows * |coeff|];
    ghost var passes := JacobianInto(colMajor, interp, coeff, rows, d, jac);
    jacobian := jac[..];
  }

  /** `JacobianInto` with the seeds of each group cleared after its pass,
      so every pass sees one-hot seeds. */
  method JacobianIntoFixed(colMajor: bool, interp: Interp, coeff: seq<real>, rows: nat, d: nat, jac: array<real>)
    returns (ghost passes: seq<nat>)
    requires d > 0 && LanesFit(interp, d)
    requires jac.Length == rows * |coeff|
    modifies jac
    ensures passes == Starts(|coeff|, d, 0)
    ensures forall row: nat, col: nat :: row < rows && col < |coeff| ==>
      jac[Cell(colMajor, rows, |coeff|, row, col)] == EntryOneHot(interp, coeff, d, row, col)
  {
    var n := |coeff|;
    forall k | 0 <= k < jac.Length {
      jac[k] := 0.0;
    }
    var inputs := InitInputs(coeff, d);
    passes := [];
    var s := 0;
    while s < n
      invariant s % d == 0
      invariant inputs == InputsAsWritten(coeff, d, 0)
      invariant passes + Starts(n, d, s) == Starts(n, d, 0)
      invariant forall row: nat, col: nat :: row < rows && col < n ==>
        jac[Cell(colMajor, rows, n, row, col)] == if col < s then EntryOneHot(interp, coeff, d, row, col) else 0.0
    {
      var r := ChunkEnd(n, d, s);
      SeedFromZero(coeff, d, s);
      inputs := SetGroupLanes(inputs, s, r, 1.0);
      var outputs := seq(rows, row requires 0 <= row => interp(inputs, row));
      passes := passes + [s];
      FillGroup(colMajor, jac, rows, n, s, r, outputs);
      PassEntriesOneHot(interp, coeff, d, s);
      ClearToZero(coeff, d, s);
      inputs := SetGroupLanes(inputs, s, r, 0.0);
      NextMultiple(s, d);
      s := s + d;
    }
  }

  /** `Jacobian` built on the corrected `JacobianIntoFixed`: every entry is
      the one-hot entry. */
  method JacobianFixed(colMajor: bool, interp: Interp, coeff: seq<real>, rows: nat, d: nat)
    returns (jacobian: seq<real>)
    requires d > 0 && LanesFit(interp, d)
    ensures |jacobian| == rows * |coeff|
    ensures forall row: nat, col: nat :: row < rows && col < |coeff| ==>
      jacobian[Cell(colMajor, rows, |coeff|, row, col)] == EntryOneHot(interp, coeff, d, row, col)
  {
    var jac := new real[rows * |coeff|];
    ghost var passes := JacobianIntoFixed(colMajor, interp, coeff, rows, d, jac);
    jacobian := jac[..];
  }

  // ---------------------------------------------------------------------
  // A linear model, to read the entries as derivatives

  /** Lane `k` of a dual, zero past its end. */
  function Lane(x: Dual, k: nat): real
  {
    if k < |x.v| then x.v[k] else 0.0
  }

  /** `w[0] * xs[0].a + w[1] * xs[1].a + ...` over the common prefix. */
  function Dot(w: seq<real>, xs: seq<Dual>): real
    decreases |w|
  {
    if |w| == 0 || |xs| == 0 then 0.0 else w[0] * xs[0].a + Dot(w[1..], xs[1..])
  }

  /** The same sum on lane `k`. */
  function LaneDot(w: seq<real>, xs: seq<Dual>, k: nat): real
    decreases |w|
  {
    if |w| == 0 || |xs| == 0 then 0.0 else w[0] * Lane(xs[0], k) + LaneDot(w[1..], xs[1..], k)
  }

  /** Dual evaluation of the tree `w[0] * c[0] + w[1] * c[1] + ...` at every
      row: its derivative with respect to `c[i]` is `w[i]`. */
  function LinearInterp(w: seq<real>, d: nat): (interp: Interp)
  {
    (xs: seq<Dual>, row: nat) => Dual(Dot(w, xs), seq(d, k requires 0 <= k => LaneDot(w, xs, k)))
  }

  lemma LinearLanesFit(w: seq<real>, d: nat)
    ensures LanesFit(LinearInterp(w, d), d)
  {
  }

  /** A lane that is one at coefficient `j` and zero elsewhere picks `w[j]`. */
  lemma {:induction false} LaneDotUnit(w: seq<real>, xs: seq<Dual>, k: nat, j: int)
    requires forall i :: 0 <= i < |xs| ==> Lane(xs[i], k) == if i == j then 1.0 else 0.0
    ensures LaneDot(w, xs, k) == if 0 <= j < |w| && j < |xs| then w[j] else 0.0
    decreases |w|
  {
    if |w| > 0 && |xs| > 0 {
      LaneDotUnit(w[1..], xs[1..], k, j - 1);
    }
  }

  /** With one-hot seeds every entry is the derivative of the output with
      respect to its coefficient. */
  lemma OneHotIsDerivative(w: seq<real>, coeff: seq<real>, d: nat, row: nat, col: nat)
    requires d > 0 && |w| == |coeff| && col < |coeff|
    ensures LanesFit(LinearInterp(w, d), d)
    ensures EntryOneHot(LinearInterp(w, d), coeff, d, row, col) == w[col]
  {
    LinearLanesFit(w, d);
    var s, k := col - col % d, col % d;
    var xs := InputsOneHot(coeff, d, s);
    forall i | 0 <= i < |xs|
      ensures Lane(xs[i], k) == if i == col then 1.0 else 0.0
    {
    }
    LaneDotUnit(w, xs, k, col);
  }

  /** Without clearing, the second group's pass still carries the first
      group's seeds: for `w[0] * c[0] + w[1] * c[1]` with one lane, the entry
      of `c[1]` is `2` where the derivative is `1`. */
  lemma SeedsNotCleared(c0: real, c1: real)
    ensures LanesFit(LinearInterp([1.0, 1.0], 1), 1)
    ensures EntryAsWritten(LinearInterp([1.0, 1.0], 1), [c0, c1], 1, 0, 1) == 2.0
    ensures EntryOneHot(LinearInterp([1.0, 1.0], 1), [c0, c1], 1, 0, 1) == 1.0
  {
    var w := [1.0, 1.0];
    LinearLanesFit(w, 1);
    var xs := InputsAsWritten([c0, c1], 1, 2);
    assert 1 - 1 % 1 + 1 == 2 && 1 % 1 == 0;
    assert EntryAsWritten(LinearInterp(w, 1), [c0, c1], 1, 0, 1) == LinearInterp(w, 1)(xs, 0).v[0];
    assert Lane(xs[0], 0) == 1.0 && Lane(xs[1], 0) == 1.0;
    assert LaneDot(w[1..][1..], xs[1..][1..], 0) == 0.0;
    OneHotIsDerivative(w, [c0, c1], 1, 0, 1);
  }
}
