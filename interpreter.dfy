/**
  The batched tree interpreter (include/operon/interpreter/interpreter.hpp).

  A pre-scan records, for every node in stored order, its parameter (an
  externally supplied coefficient or the node's own value), the rows of its
  dataset column when it is a variable, and the kernel the dispatch table
  holds for its hash. Constant columns are filled once. The rows of the range
  are then processed in batches of `S`: variable columns are refilled with
  `parameter * value`, the other nodes run their kernel, and the root's
  column (the last node) is copied into the result.

  The dispatch table, the dataset and the batch width are parameters.
*/
module Interpreter {
  import opened Nodes
  import opened Wrappers
  import opened Chunks

  /** A half-open range `[Start, End)` of dataset rows. */
  datatype Range = Range(Start: nat, End: nat)
  {
    predicate Valid() { Start <= End }

    function Size(): nat
      requires Valid()
    {
      End - Start
    }
  }

  /** One column of the buffer: a value per row of a batch. */
  type Column = seq<real>

  /** A kernel of the dispatch table. It receives the whole buffer, the nodes,
      the index of the node to evaluate and the rows of the batch, and gives
      the new column of that node. */
  type Callable = (seq<Column>, seq<Node>, nat, Range) -> Column

  /** `DispatchTable::TryGet`: the kernel registered for a hash, if any. */
  type DispatchTable = Hash -> Option<Callable>

  /** `Dataset::GetValues`: the column of a variable, by its hash. */
  type Dataset = Hash -> seq<real>

  /** Every kernel gives a full column of `S` values. */
  ghost predicate KernelsFit(table: DispatchTable, S: nat)
  {
    forall h, ms, ns, i, rg :: table(h).Some? ==> |table(h).value(ms, ns, i, rg)| == S
  }

  /** The dataset column of every variable covers the range. */
  ghost predicate DataFits(nodes: seq<Node>, dataset: Dataset, rg: Range)
  {
    forall i :: 0 <= i < |nodes| && IsVariable(nodes[i]) ==> rg.End <= |dataset(nodes[i].HashValue)|
  }

  function Fill(S: nat, x: real): (c: Column)
  {
    seq(S, _ => x)
  }

  // ---------------------------------------------------------------------
  // Parameters

  /** Number of nodes marked for optimisation. */
  function OptimizeCount(nodes: seq<Node>): (c: nat)
    ensures c <= |nodes|
  {
    if |nodes| == 0 then 0
    else OptimizeCount(nodes[..|nodes| - 1]) + if nodes[|nodes| - 1].Optimize then 1 else 0
  }

  lemma OptimizeCountStep(nodes: seq<Node>, i: nat)
    requires i < |nodes|
    ensures OptimizeCount(nodes[..i + 1]) == OptimizeCount(nodes[..i]) + if nodes[i].Optimize then 1 else 0
  {
    assert nodes[..i + 1][..i] == nodes[..i];
  }

  /** Counting over a longer prefix counts at least as many, and strictly
      more once it passes a marked node. */
  lemma {:induction false} OptimizeCountMono(nodes: seq<Node>, i: nat, j: nat)
    requires i <= j <= |nodes|
    ensures OptimizeCount(nodes[..i]) <= OptimizeCount(nodes[..j])
    ensures i < j && nodes[i].Optimize ==> OptimizeCount(nodes[..i]) < OptimizeCount(nodes[..j])
    decreases j - i
  {
    if i < j {
      OptimizeCountMono(nodes, i + 1, j);
      OptimizeCountStep(nodes, i);
    }
  }

  /** A parameter array given, it holds a value for every marked node. */
  predicate ParamsFit(nodes: seq<Node>, parameters: Option<seq<real>>)
  {
    parameters.Some? ==> OptimizeCount(nodes) <= |parameters.value|
  }

  /** The parameter of node `i`: with a parameter array, the k-th marked node
      (in stored order) takes `parameters[k]`; every other node, and every
      node when there is no array, takes its own value. */
  function ParamOf(nodes: seq<Node>, parameters: Option<seq<real>>, i: nat): (p: real)
    requires i < |nodes| && ParamsFit(nodes, parameters)
    ensures parameters.Some? && nodes[i].Optimize ==> p in parameters.value
    ensures parameters.None? || !nodes[i].Optimize ==> p == nodes[i].Value
  {
    if parameters.Some? && nodes[i].Optimize then
      OptimizeCountMono(nodes, i, |nodes|);
      assert nodes[..|nodes|] == nodes;
      parameters.value[OptimizeCount(nodes[..i])]
    else
      nodes[i].Value
  }

  /** The marked nodes consume the parameters one by one in stored order:
      distinct marked nodes read distinct entries, the earlier node the
      earlier entry, and every entry below the count is read by some node. */
  lemma ParamsInOrder(nodes: seq<Node>, i: nat, j: nat)
    requires i < j < |nodes| && nodes[i].Optimize && nodes[j].Optimize
    ensures OptimizeCount(nodes[..i]) < OptimizeCount(nodes[..j]) < OptimizeCount(nodes)
  {
    OptimizeCountMono(nodes, i, j);
    OptimizeCountMono(nodes, j, |nodes|);
    assert nodes[..|nodes|] == nodes;
  }

  lemma {:induction false} ParamsAllRead(nodes: seq<Node>, k: nat)
    requires k < OptimizeCount(nodes)
    ensures exists i :: 0 <= i < |nodes| && nodes[i].Optimize && OptimizeCount(nodes[..i]) == k
    decreases |nodes|
  {
    var last := |nodes| - 1;
    assert nodes[..last + 1] == nodes;
    OptimizeCountStep(nodes, last);
    if k < OptimizeCount(nodes[..last]) {
      ParamsAllRead(nodes[..last], k);
      var i :| 0 <= i < last && nodes[..last][i].Optimize && OptimizeCount(nodes[..last][..i]) == k;
      assert nodes[..last][..i] == nodes[..i];
    } else {
      assert nodes[last].Optimize && OptimizeCount(nodes[..last]) == k;
    }
  }

  // ---------------------------------------------------------------------
  // Pre-scan

  /** The pre-scan's record of one node: its parameter, the rows of its
      dataset column (empty unless it is a variable) and its kernel. */
  datatype NodeMeta = NodeMeta(param: real, values: seq<real>, func: Option<Callable>)

  function MetaOf(nodes: seq<Node>, dataset: Dataset, table: DispatchTable,
                  parameters: Option<seq<real>>, rg: Range, i: nat): NodeMeta
    requires i < |nodes| && rg.Valid() && ParamsFit(nodes, parameters) && DataFits(nodes, dataset, rg)
  {
    NodeMeta(
      ParamOf(nodes, parameters, i),
      if IsVariable(nodes[i]) then dataset(nodes[i].HashValue)[rg.Start..rg.End] else [],
      table(nodes[i].HashValue))
  }

  /** The column of node `i` after the pre-scan: constants hold their
      parameter on every row, the others start at zero. */
  function InitialColumn(nodes: seq<Node>, parameters: Option<seq<real>>, S: nat, i: nat): Column
    requires i < |nodes| && ParamsFit(nodes, parameters)
  {
    if IsConstant(nodes[i]) then Fill(S, ParamOf(nodes, parameters, i)) else Fill(S, 0.0)
  }

  /** The parameter the pre-scan reads for node `i` when `i` parameters
      precede it. */
  lemma ScanParam(nodes: seq<Node>, parameters: Option<seq<real>>, i: nat)
    requires i < |nodes| && ParamsFit(nodes, parameters)
    ensures OptimizeCount(nodes[..i + 1]) == OptimizeCount(nodes[..i]) + if nodes[i].Optimize then 1 else 0
    ensures parameters.Some? && nodes[i].Optimize ==>
              && OptimizeCount(nodes[..i]) < |parameters.value|
              && ParamOf(nodes, parameters, i) == parameters.value[OptimizeCount(nodes[..i])]
  {
    OptimizeCountStep(nodes, i);
    OptimizeCountMono(nodes, i + 1, |nodes|);
    assert nodes[..|nodes|] == nodes;
  }

  /** The records of nodes `0 .. k`. */
  function Metas(nodes: seq<Node>, dataset: Dataset, table: DispatchTable,
                 parameters: Option<seq<real>>, rg: Range, k: nat): (ms: seq<NodeMeta>)
    requires k <= |nodes| && rg.Valid() && ParamsFit(nodes, parameters) && DataFits(nodes, dataset, rg)
    ensures |ms| == k
    ensures forall j :: 0 <= j < k ==> ms[j] == MetaOf(nodes, dataset, table, parameters, rg, j)
  {
    if k == 0 then [] else Metas(nodes, dataset, table, parameters, rg, k - 1) + [MetaOf(nodes, dataset, table, parameters, rg, k - 1)]
  }

  /** The buffer once nodes `0 .. k` have been scanned. */
  function Columns(nodes: seq<Node>, parameters: Option<seq<real>>, S: nat, k: nat): (cs: seq<Column>)
    requires k <= |nodes| && ParamsFit(nodes, parameters)
    ensures |cs| == |nodes|
    ensures forall j :: 0 <= j < |nodes| ==> cs[j] == if j < k then InitialColumn(nodes, parameters, S, j) else Fill(S, 0.0)
  {
    if k == 0 then seq(|nodes|, _ => Fill(S, 0.0))
    else Columns(nodes, parameters, S, k - 1)[k - 1 := InitialColumn(nodes, parameters, S, k - 1)]
  }

  /** The pre-scan loop. `idx` counts the parameters consumed. */
  method PreScan(nodes: seq<Node>, dataset: Dataset, table: DispatchTable,
                 parameters: Option<seq<real>>, rg: Range, S: nat)
    returns (meta: seq<NodeMeta>, m: seq<Column>, idx: nat)
    requires rg.Valid() && ParamsFit(nodes, parameters) && DataFits(nodes, dataset, rg)
    ensures |meta| == |nodes| && |m| == |nodes|
    ensures forall i :: 0 <= i < |nodes| ==> meta[i] == MetaOf(nodes, dataset, table, parameters, rg, i)
    ensures forall i :: 0 <= i < |nodes| ==> m[i] == InitialColumn(nodes, parameters, S, i)
    ensures idx == if parameters.Some? then OptimizeCount(nodes) else 0
  {
    m := seq(|nodes|, _ => Fill(S, 0.0));
    meta := [];
    idx := 0;
    for i := 0 to |nodes|
      invariant meta == Metas(nodes, dataset, table, parameters, rg, i)
      invariant m == Columns(nodes, parameters, S, i)
      invariant idx == if parameters.Some? then OptimizeCount(nodes[..i]) else 0
    {
      var record;
      record, idx := ScanNode(nodes, dataset, table, parameters, rg, i, idx);
      meta := meta + [record];
      if IsConstant(nodes[i]) {
        m := m[i := Fill(S, record.param)];
      }
    }
    assert nodes[..|nodes|] == nodes;
  }

  /** The pre-scan of node `i`, with `idx` parameters consumed before it. */
  method ScanNode(nodes: seq<Node>, dataset: Dataset, table: DispatchTable,
                  parameters: Option<seq<real>>, rg: Range, i: nat, idx: nat)
    returns (record: NodeMeta, idx': nat)
    requires i < |nodes| && rg.Valid() && ParamsFit(nodes, parameters) && DataFits(nodes, dataset, rg)
    requires idx == if parameters.Some? then OptimizeCount(nodes[..i]) else 0
    ensures record == MetaOf(nodes, dataset, table, parameters, rg, i)
    ensures idx' == if parameters.Some? then OptimizeCount(nodes[..i + 1]) else 0
  {
    var n := nodes[i];
    ScanParam(nodes, parameters, i);
    var values := if IsVariable(n) then dataset(n.HashValue)[rg.Start..rg.End] else [];
    var param;
    idx' := idx;
    if parameters.Some? && n.Optimize {
      param := parameters.value[idx];
      idx' := idx + 1;
    } else {
      param := n.Value;
    }
    record := NodeMeta(param, values, table(n.HashValue));
  }

  // ---------------------------------------------------------------------
  // Batches

  /** All columns hold `S` values. */
  ghost predicate ColumnsFit(m: seq<Column>, S: nat)
  {
    forall i :: 0 <= i < |m| ==> |m[i]| == S
  }

  /** The records fit a range of `numRows` rows and batches of `S`. */
  ghost predicate MetaFits(nodes: seq<Node>, meta: seq<NodeMeta>, S: nat, numRows: nat)
  {
    && |meta| == |nodes|
    && (forall i :: 0 <= i < |nodes| && IsVariable(nodes[i]) ==> |meta[i].values| == numRows)
    && (forall i, ms, ns, j, rg :: 0 <= i < |nodes| && meta[i].func.Some? ==> |meta[i].func.value(ms, ns, j, rg)| == S)
  }

  /** A variable's column in the batch at `row`: the first `rem` entries are
      `param * value` of the batch's rows, the rest keep what they held. */
  function VariableColumn(col: Column, param: real, values: seq<real>, row: nat, rem: nat): (c: Column)
    requires rem <= |col| && row + rem <= |values|
    ensures |c| == |col| && c[rem..] == col[rem..]
    ensures forall k :: 0 <= k < rem ==> c[k] == param * values[row + k]
  {
    seq(|col|, k requires 0 <= k < |col| => if k < rem then param * values[row + k] else col[k])
  }

  /** Node `i` of the batch at `row`: a variable is refilled from the dataset,
      a node with a kernel runs it, any other node is skipped. */
  function StepNode(m: seq<Column>, nodes: seq<Node>, meta: seq<NodeMeta>, S: nat, numRows: nat,
                    i: nat, row: nat, rem: nat, rg: Range): (m': seq<Column>)
    requires i < |nodes| == |m| && ColumnsFit(m, S) && MetaFits(nodes, meta, S, numRows)
    requires rem <= S && row + rem <= numRows
    ensures |m'| == |m| && ColumnsFit(m', S)
    ensures forall j :: 0 <= j < |m| && j != i ==> m'[j] == m[j]
    ensures IsVariable(nodes[i]) ==> forall k :: 0 <= k < rem ==> m'[i][k] == meta[i].param * meta[i].values[row + k]
    ensures !IsVariable(nodes[i]) && meta[i].func.None? ==> m' == m
  {
    if IsVariable(nodes[i]) then
      m[i := VariableColumn(m[i], meta[i].param, meta[i].values, row, rem)]
    else if meta[i].func.Some? then
      m[i := meta[i].func.value(m, nodes, i, rg)]
    else
      m
  }

  /** The buffer after nodes `0 .. k` of the batch at `row`. */
  function RunNodes(m: seq<Column>, nodes: seq<Node>, meta: seq<NodeMeta>, S: nat, numRows: nat,
                    k: nat, row: nat, rem: nat, rg: Range): (m': seq<Column>)
    requires k <= |nodes| == |m| && ColumnsFit(m, S) && MetaFits(nodes, meta, S, numRows)
    requires rem <= S && row + rem <= numRows
    ensures |m'| == |m| && ColumnsFit(m', S)
    ensures forall j :: k <= j < |m| ==> m'[j] == m[j]
  {
    if k == 0 then m
    else StepNode(RunNodes(m, nodes, meta, S, numRows, k - 1, row, rem, rg), nodes, meta, S, numRows, k - 1, row, rem, rg)
  }

  /** The rows of the batch at `row`: `min(S, numRows - row)`. A batch is
      full unless it is the last one, and it never runs past the range. */
  function BatchRows(S: nat, numRows: nat, row: nat): (rem: nat)
    requires row < numRows
    ensures rem <= S && row + rem <= numRows
    ensures rem == S || row + rem == numRows
    ensures S > 0 ==> rem > 0
  {
    if S < numRows - row then S else numRows - row
  }

  /** The results of the batches from `row` on, with the buffer `m` carried
      from one batch to the next. */
  function EvalFrom(m: seq<Column>, nodes: seq<Node>, meta: seq<NodeMeta>, S: nat, rg: Range, row: nat): (out: seq<real>)
    requires rg.Valid() && S > 0 && 0 < |nodes| == |m| && ColumnsFit(m, S) && MetaFits(nodes, meta, S, rg.Size())
    decreases rg.Size() - row
  {
    if rg.Size() <= row then []
    else
      var rem := BatchRows(S, rg.Size(), row);
      var m' := RunNodes(m, nodes, meta, S, rg.Size(), |nodes|, row, rem, Range(rg.Start + row, rg.Start + row + rem));
      m'[|nodes| - 1][..rem] + EvalFrom(m', nodes, meta, S, rg, row + S)
  }

  /** Each batch contributes its rows, so the batches give one value per row
      of the range from `row` on. */
  lemma {:induction false} EvalFromLength(m: seq<Column>, nodes: seq<Node>, meta: seq<NodeMeta>, S: nat, rg: Range, row: nat)
    requires rg.Valid() && S > 0 && 0 < |nodes| == |m| && ColumnsFit(m, S) && MetaFits(nodes, meta, S, rg.Size())
    ensures |EvalFrom(m, nodes, meta, S, rg, row)| == if row < rg.Size() then rg.Size() - row else 0
    decreases rg.Size() - row
  {
    if row < rg.Size() {
      var rem := BatchRows(S, rg.Size(), row);
      var m' := RunNodes(m, nodes, meta, S, rg.Size(), |nodes|, row, rem, Range(rg.Start + row, rg.Start + row + rem));
      EvalFromLength(m', nodes, meta, S, rg, row + S);
    }
  }

  /** The pre-scan's records meet the batch loop's needs. */
  lemma ScanFits(nodes: seq<Node>, dataset: Dataset, table: DispatchTable,
                 parameters: Option<seq<real>>, rg: Range, S: nat, meta: seq<NodeMeta>)
    requires rg.Valid() && ParamsFit(nodes, parameters) && DataFits(nodes, dataset, rg) && KernelsFit(table, S)
    requires |meta| == |nodes|
    requires forall i :: 0 <= i < |nodes| ==> meta[i] == MetaOf(nodes, dataset, table, parameters, rg, i)
    ensures MetaFits(nodes, meta, S, rg.Size())
  {
    forall i, ms, ns, j, r | 0 <= i < |nodes| && meta[i].func.Some?
      ensures |meta[i].func.value(ms, ns, j, r)| == S
    {
      assert meta[i].func == table(nodes[i].HashValue);
    }
  }

  /** One batch of `EvalFrom`: its rows, then the batches after it. */
  lemma EvalFromStep(m: seq<Column>, nodes: seq<Node>, meta: seq<NodeMeta>, S: nat, rg: Range, row: nat, m': seq<Column>)
    requires rg.Valid() && S > 0 && 0 < |nodes| == |m| && ColumnsFit(m, S) && MetaFits(nodes, meta, S, rg.Size())
    requires row < rg.Size()
    requires m' == RunNodes(m, nodes, meta, S, rg.Size(), |nodes|, row, BatchRows(S, rg.Size(), row),
                            Range(rg.Start + row, rg.Start + row + BatchRows(S, rg.Size(), row)))
    ensures EvalFrom(m, nodes, meta, S, rg, row)
            == m'[|nodes| - 1][..BatchRows(S, rg.Size(), row)] + EvalFrom(m', nodes, meta, S, rg, row + S)
  {
  }

  /** What `Evaluate` writes for `range`: the batches from row 0, starting
      from the pre-scan's buffer. */
  function EvalSpec(nodes: seq<Node>, dataset: Dataset, table: DispatchTable,
                    parameters: Option<seq<real>>, rg: Range, S: nat): (out: seq<real>)
    requires 0 < |nodes| && S > 0 && rg.Valid()
    requires ParamsFit(nodes, parameters) && DataFits(nodes, dataset, rg) && KernelsFit(table, S)
    ensures |out| == rg.Size()
  {
    var meta := Metas(nodes, dataset, table, parameters, rg, |nodes|);
    var m := Columns(nodes, parameters, S, |nodes|);
    ScanFits(nodes, dataset, table, parameters, rg, S, meta);
    EvalFromLength(m, nodes, meta, S, rg, 0);
    EvalFrom(m, nodes, meta, S, rg, 0)
  }

  // ---------------------------------------------------------------------
  // Evaluate

  /** One batch: the nodes in stored order. */
  method RunBatch(m: seq<Column>, nodes: seq<Node>, meta: seq<NodeMeta>, S: nat, numRows: nat,
                  row: nat, rem: nat, rg: Range) returns (m': seq<Column>)
    requires |nodes| == |m| && ColumnsFit(m, S) && MetaFits(nodes, meta, S, numRows)
    requires rem <= S && row + rem <= numRows
    ensures m' == RunNodes(m, nodes, meta, S, numRows, |nodes|, row, rem, rg)
  {
    m' := m;
    for i := 0 to |nodes|
      invariant m' == RunNodes(m, nodes, meta, S, numRows, i, row, rem, rg)
    {
      var NodeMeta(param, values, func) := meta[i];
      if IsVariable(nodes[i]) {
        m' := m'[i := VariableColumn(m'[i], param, values, row, rem)];
      } else if func.Some? {
        m' := m'[i := func.value(m', nodes, i, rg)];
      }
    }
  }

  /** Copies `vals` into `result` from position `pos` on. */
  method WriteSegment(result: array<real>, pos: nat, vals: seq<real>)
    requires pos + |vals| <= result.Length
    modifies result
    ensures result[..] == old(result[..])[..pos] + vals + old(result[..])[pos + |vals|..]
  {
    for k := 0 to |vals|
      invariant forall t :: 0 <= t < result.Length ==>
                  result[t] == if pos <= t < pos + k then vals[t - pos] else old(result[t])
    {
      result[pos + k] := vals[k];
    }
    assert result[..] == old(result[..])[..pos] + vals + old(result[..])[pos + |vals|..];
  }

  /** `Evaluate` into the span of `result` starting at `offset`, one value per
      row of `rg`. */
  method EvaluateInto(nodes: seq<Node>, dataset: Dataset, table: DispatchTable,
                      parameters: Option<seq<real>>, rg: Range, S: nat, result: array<real>, offset: nat)
    returns (ghost batches: seq<nat>)
    requires 0 < |nodes| && S > 0 && rg.Valid() && offset + rg.Size() <= result.Length
    requires ParamsFit(nodes, parameters) && DataFits(nodes, dataset, rg) && KernelsFit(table, S)
    modifies result
    ensures batches == Starts(rg.Size(), S, 0)
    ensures result[..] == old(result[..])[..offset]
                          + EvalSpec(nodes, dataset, table, parameters, rg, S)
                          + old(result[..])[offset + rg.Size()..]
  {
    var meta, m, idx := PreScan(nodes, dataset, table, parameters, rg, S);
    ScanFits(nodes, dataset, table, parameters, rg, S, meta);
    assert meta == Metas(nodes, dataset, table, parameters, rg, |nodes|);
    assert m == Columns(nodes, parameters, S, |nodes|);
    batches := RunBatches(nodes, meta, S, rg, m, result, offset);
  }

  /** The state of the batch loop before the batch at `row`: the buffer
      fits, `written` holds the values of the earlier batches, the rest of
      `spec` is what the remaining batches give, and `r` (the result array)
      holds `written` at `offset` and its original values `r0` elsewhere. */
  ghost predicate BatchState(nodes: seq<Node>, meta: seq<NodeMeta>, S: nat, rg: Range, spec: seq<real>,
                             r0: seq<real>, offset: nat, buffer: seq<Column>, row: nat, written: seq<real>, r: seq<real>,
                             batches: seq<nat>)
  {
    && rg.Valid() && S > 0 && 0 < |nodes| == |buffer| && ColumnsFit(buffer, S) && MetaFits(nodes, meta, S, rg.Size())
    && offset + rg.Size() <= |r0|
    && |written| == (if row < rg.Size() then row else rg.Size())
    && spec == written + EvalFrom(buffer, nodes, meta, S, rg, row)
    && r == r0[..offset] + written + r0[offset + |written|..]
    && batches + Starts(rg.Size(), S, row) == Starts(rg.Size(), S, 0)
  }

  /** One pass of the batch loop: the nodes on the batch's rows, then the
      root's rows copied into `result`. */
  method Batch(nodes: seq<Node>, meta: seq<NodeMeta>, S: nat, rg: Range, ghost spec: seq<real>,
               ghost r0: seq<real>, offset: nat, buffer: seq<Column>, row: nat, ghost written: seq<real>,
               result: array<real>, ghost batches: seq<nat>)
    returns (buffer': seq<Column>, ghost written': seq<real>, ghost batches': seq<nat>)
    requires BatchState(nodes, meta, S, rg, spec, r0, offset, buffer, row, written, result[..], batches)
    requires row < rg.Size()
    modifies result
    ensures BatchState(nodes, meta, S, rg, spec, r0, offset, buffer', row + S, written', result[..], batches')
  {
    var numRows := rg.Size();
    var rem := BatchRows(S, numRows, row);
    buffer' := RunBatch(buffer, nodes, meta, S, numRows, row, rem, Range(rg.Start + row, rg.Start + row + rem));
    var segment := buffer'[|nodes| - 1][..rem];
    ghost var before := result[..];
    WriteSegment(result, offset + row, segment);
    BatchAdvance(nodes, meta, S, rg, spec, r0, offset, buffer, row, written, before, batches, buffer', result[..]);
    written' := written + segment;
    batches' := batches + [row];
  }

  /** The batch at `row` moves the loop state to the next batch. */
  lemma BatchAdvance(nodes: seq<Node>, meta: seq<NodeMeta>, S: nat, rg: Range, spec: seq<real>,
                     r0: seq<real>, offset: nat, buffer: seq<Column>, row: nat, written: seq<real>, r: seq<real>,
                     batches: seq<nat>, buffer': seq<Column>, r': seq<real>)
    requires BatchState(nodes, meta, S, rg, spec, r0, offset, buffer, row, written, r, batches)
    requires row < rg.Size()
    requires buffer' == RunNodes(buffer, nodes, meta, S, rg.Size(), |nodes|, row, BatchRows(S, rg.Size(), row),
                                 Range(rg.Start + row, rg.Start + row + BatchRows(S, rg.Size(), row)))
    requires r' == r[..offset + row] + buffer'[|nodes| - 1][..BatchRows(S, rg.Size(), row)]
                   + r[offset + row + BatchRows(S, rg.Size(), row)..]
    ensures BatchState(nodes, meta, S, rg, spec, r0, offset, buffer', row + S,
                       written + buffer'[|nodes| - 1][..BatchRows(S, rg.Size(), row)], r', batches + [row])
  {
    var rem := BatchRows(S, rg.Size(), row);
    var segment := buffer'[|nodes| - 1][..rem];
    StartsAdvance(rg.Size(), S, row, batches);
    SpecAdvance(nodes, meta, S, rg, spec, buffer, row, written, buffer');
    Splice(r0, r, r', offset, written, segment);
  }

  lemma StartsAdvance(n: nat, w: nat, s: nat, done: seq<nat>)
    requires w > 0 && s < n && done + Starts(n, w, s) == Starts(n, w, 0)
    ensures (done + [s]) + Starts(n, w, s + w) == Starts(n, w, 0)
  {
    assert Starts(n, w, s) == [s] + Starts(n, w, s + w);
  }

  lemma SpecAdvance(nodes: seq<Node>, meta: seq<NodeMeta>, S: nat, rg: Range, spec: seq<real>,
                    buffer: seq<Column>, row: nat, written: seq<real>, buffer': seq<Column>)
    requires rg.Valid() && S > 0 && 0 < |nodes| == |buffer| && ColumnsFit(buffer, S) && MetaFits(nodes, meta, S, rg.Size())
    requires row < rg.Size() && |written| == row
    requires spec == written + EvalFrom(buffer, nodes, meta, S, rg, row)
    requires buffer' == RunNodes(buffer, nodes, meta, S, rg.Size(), |nodes|, row, BatchRows(S, rg.Size(), row),
                                 Range(rg.Start + row, rg.Start + row + BatchRows(S, rg.Size(), row)))
    ensures |written + buffer'[|nodes| - 1][..BatchRows(S, rg.Size(), row)]| == if row + S < rg.Size() then row + S else rg.Size()
    ensures spec == (written + buffer'[|nodes| - 1][..BatchRows(S, rg.Size(), row)]) + EvalFrom(buffer', nodes, meta, S, rg, row + S)
  {
    EvalFromStep(buffer, nodes, meta, S, rg, row, buffer');
  }

  /** The batch loop: the rows of `rg` in batches of `S`, each batch's rows
      of the root column copied to `result` from `offset` on. */
  method RunBatches(nodes: seq<Node>, meta: seq<NodeMeta>, S: nat, rg: Range, m: seq<Column>,
                    result: array<real>, offset: nat)
    returns (ghost batches: seq<nat>)
    requires rg.Valid() && S > 0 && 0 < |nodes| == |m| && ColumnsFit(m, S) && MetaFits(nodes, meta, S, rg.Size())
    requires offset + rg.Size() <= result.Length
    modifies result
    ensures batches == Starts(rg.Size(), S, 0)
    ensures result[..] == old(result[..])[..offset]
                          + EvalFrom(m, nodes, meta, S, rg, 0)
                          + old(result[..])[offset + rg.Size()..]
  {
    batches := [];
    EvalFromLength(m, nodes, meta, S, rg, 0);
    ghost var spec := EvalFrom(m, nodes, meta, S, rg, 0);
    ghost var r0 := result[..];
    var buffer := m;
    var row := 0;
    ghost var written: seq<real> := [];
    BatchStart(nodes, meta, S, rg, spec, r0, offset, m);
    while row < rg.Size()
      invariant BatchState(nodes, meta, S, rg, spec, r0, offset, buffer, row, written, result[..], batches)
      decreases rg.Size() - row
    {
      buffer, written, batches := Batch(nodes, meta, S, rg, spec, r0, offset, buffer, row, written, result, batches);
      row := row + S;
    }
    BatchDone(nodes, meta, S, rg, spec, r0, offset, buffer, row, written, result[..], batches);
  }

  /** Before the first batch nothing is written. */
  lemma BatchStart(nodes: seq<Node>, meta: seq<NodeMeta>, S: nat, rg: Range, spec: seq<real>,
                   r0: seq<real>, offset: nat, m: seq<Column>)
    requires rg.Valid() && S > 0 && 0 < |nodes| == |m| && ColumnsFit(m, S) && MetaFits(nodes, meta, S, rg.Size())
    requires offset + rg.Size() <= |r0| && spec == EvalFrom(m, nodes, meta, S, rg, 0)
    ensures BatchState(nodes, meta, S, rg, spec, r0, offset, m, 0, [], r0, [])
  {
    var none: seq<real> := [];
    assert r0 == r0[..offset] + none + r0[offset + |none|..];
    assert spec == none + EvalFrom(m, nodes, meta, S, rg, 0);
    var starts := Starts(rg.Size(), S, 0);
    assert [] + starts == starts;
  }

  /** After the last batch every value is written. */
  lemma BatchDone(nodes: seq<Node>, meta: seq<NodeMeta>, S: nat, rg: Range, spec: seq<real>,
                  r0: seq<real>, offset: nat, buffer: seq<Column>, row: nat, written: seq<real>, r: seq<real>,
                  batches: seq<nat>)
    requires BatchState(nodes, meta, S, rg, spec, r0, offset, buffer, row, written, r, batches)
    requires rg.Size() <= row
    ensures batches == Starts(rg.Size(), S, 0)
    ensures r == r0[..offset] + spec + r0[offset + rg.Size()..]
  {
    assert batches + [] == batches;
    assert spec == written + [];
  }

  /** Writing the next segment after the values already written extends
      the written prefix. */
  lemma Splice(r0: seq<real>, r: seq<real>, r': seq<real>, offset: nat, written: seq<real>, segment: seq<real>)
    requires offset + |written| + |segment| <= |r0|
    requires r == r0[..offset] + written + r0[offset + |written|..]
    requires r' == r[..offset + |written|] + segment + r[offset + |written| + |segment|..]
    ensures r' == r0[..offset] + (written + segment) + r0[offset + |written + segment|..]
  {
    assert r[..offset + |written|] == r0[..offset] + written;
    assert r[offset + |written| + |segment|..] == r0[offset + |written| + |segment|..];
  }

  /** `Evaluate` returning a new vector of `range.Size()` values. */
  method Evaluate(nodes: seq<Node>, dataset: Dataset, table: DispatchTable,
                  parameters: Option<seq<real>>, rg: Range, S: nat) returns (result: seq<real>)
    requires 0 < |nodes| && S > 0 && rg.Valid()
    requires ParamsFit(nodes, parameters) && DataFits(nodes, dataset, rg) && KernelsFit(table, S)
    ensures |result| == rg.Size()
    ensures result == EvalSpec(nodes, dataset, table, parameters, rg, S)
  {
    var res := new real[rg.Size()];
    ghost var batches := EvaluateInto(nodes, dataset, table, parameters, rg, S, res, 0);
    result := res[..];
  }

  // ---------------------------------------------------------------------
  // Chunked evaluation

  /** The chunk of `bs` rows at offset `off` of the range, cut off at its end. */
  function ChunkRange(rg: Range, bs: nat, off: nat): (sub: Range)
    requires rg.Valid() && off <= rg.Size()
    ensures sub.Valid() && rg.Start + off == sub.Start && sub.End <= rg.End
    ensures sub.Size() == ChunkEnd(rg.Size(), bs, off) - off
  {
    Range(rg.Start + off, rg.Start + ChunkEnd(rg.Size(), bs, off))
  }

  lemma DataFitsWithin(nodes: seq<Node>, dataset: Dataset, rg: Range, sub: Range)
    requires DataFits(nodes, dataset, rg) && sub.End <= rg.End
    ensures DataFits(nodes, dataset, sub)
  {
  }

  /** `Evaluate` on the sub-ranges of `rg`; the values of other ranges are
      never used. */
  function EvalWithin(nodes: seq<Node>, dataset: Dataset, table: DispatchTable,
                      parameters: Option<seq<real>>, rg: Range, S: nat): (eval: Range -> seq<real>)
    requires 0 < |nodes| && S > 0 && rg.Valid()
    requires ParamsFit(nodes, parameters) && DataFits(nodes, dataset, rg) && KernelsFit(table, S)
    ensures forall sub: Range :: sub.Valid() ==> |eval(sub)| == sub.Size()
  {
    (sub: Range) =>
      if sub.Valid() && sub.End <= rg.End then
        DataFitsWithin(nodes, dataset, rg, sub);
        EvalSpec(nodes, dataset, table, parameters, sub, S)
      else if sub.Valid() then Fill(sub.Size(), 0.0)
      else []
  }

  /** The chunks of `bs` rows from offset `off` on, each given by `eval`. */
  function Chunked(eval: Range -> seq<real>, rg: Range, bs: nat, off: nat): (out: seq<real>)
    requires bs > 0 && rg.Valid()
    decreases rg.Size() - off
  {
    if rg.Size() <= off then [] else eval(ChunkRange(rg, bs, off)) + Chunked(eval, rg, bs, off + bs)
  }

  /** When `eval` gives one value per row, so do the chunks. */
  lemma {:induction false} ChunkedLength(eval: Range -> seq<real>, rg: Range, bs: nat, off: nat)
    requires bs > 0 && rg.Valid()
    requires forall sub: Range :: sub.Valid() ==> |eval(sub)| == sub.Size()
    ensures |Chunked(eval, rg, bs, off)| == if off < rg.Size() then rg.Size() - off else 0
    decreases rg.Size() - off
  {
    if off < rg.Size() {
      ChunkedLength(eval, rg, bs, off + bs);
    }
  }

  /** `n + (m != 0)` chunks for `size = n * bs + m`: the number of chunk
      starts below `size`, i.e. `ceil(size / bs)`. */
  lemma {:induction false} ChunkTotal(size: nat, bs: nat)
    requires bs > 0
    ensures size / bs + (if size % bs != 0 then 1 else 0) == |Starts(size, bs, 0)|
  {
    StartsCount(size, bs, 0);
    DivCeil(size, bs);
    CeilUnique(size / bs + (if size % bs != 0 then 1 else 0), |Starts(size, bs, 0)|, bs, size);
  }

  /** `n + (m != 0)` is the least count of `bs`-wide chunks covering `size`. */
  lemma DivCeil(size: nat, bs: nat)
    requires bs > 0
    ensures var count := size / bs + (if size % bs != 0 then 1 else 0);
            count * bs >= size && (count == 0 || (count - 1) * bs < size)
  {
    var n, m := size / bs, size % bs;
    assert size == n * bs + m;
    if m != 0 {
      assert (n + 1) * bs == n * bs + bs;
    } else if n > 0 {
      assert (n - 1) * bs == n * bs - bs;
    }
  }

  /** Two least counts of `bs`-wide chunks covering `size` are equal. */
  lemma CeilUnique(a: nat, b: nat, bs: nat, size: nat)
    requires bs > 0
    requires a * bs >= size && (a == 0 || (a - 1) * bs < size)
    requires b * bs >= size && (b == 0 || (b - 1) * bs < size)
    ensures a == b
  {
    if a < b {
      MulLe(a, b - 1, bs);
    } else if b < a {
      MulLe(b, a - 1, bs);
    }
  }

  /** The number of chunks, as the source computes it. */
  method CountChunks(size: nat, batchSize: nat) returns (count: nat)
    requires batchSize > 0
    ensures count == |Starts(size, batchSize, 0)|
  {
    var n := size / batchSize;
    var m := size % batchSize;
    count := n + if m != 0 then 1 else 0;
    ChunkTotal(size, batchSize);
  }

  /** The state of the chunk loop before the chunk at offset `off`:
      `written` holds the earlier chunks and is what `r` holds in front, and
      the rest of `full` is the chunks from `off` on. */
  ghost predicate ChunkState(eval: Range -> seq<real>, rg: Range, bs: nat, full: seq<real>, r0: seq<real>,
                             off: nat, written: seq<real>, r: seq<real>, chunks: seq<nat>)
    requires bs > 0 && rg.Valid()
  {
    && |r0| == rg.Size()
    && |written| == (if off < rg.Size() then off else rg.Size())
    && full == written + Chunked(eval, rg, bs, off)
    && r == written + r0[|written|..]
    && chunks + Starts(rg.Size(), bs, off) == Starts(rg.Size(), bs, 0)
  }

  /** Before the first chunk nothing is written. */
  lemma ChunkStart(eval: Range -> seq<real>, rg: Range, bs: nat, r0: seq<real>)
    requires bs > 0 && rg.Valid() && |r0| == rg.Size()
    ensures ChunkState(eval, rg, bs, Chunked(eval, rg, bs, 0), r0, 0, [], r0, [])
  {
    assert r0 == [] + r0[0..];
  }

  /** The chunk at `off`, written at that offset, moves the loop state on. */
  lemma ChunkAdvance(eval: Range -> seq<real>, rg: Range, bs: nat, full: seq<real>, r0: seq<real>,
                     off: nat, written: seq<real>, r: seq<real>, chunks: seq<nat>, r': seq<real>)
    requires bs > 0 && rg.Valid() && off < rg.Size()
    requires forall sub: Range :: sub.Valid() ==> |eval(sub)| == sub.Size()
    requires ChunkState(eval, rg, bs, full, r0, off, written, r, chunks)
    requires r' == r[..off] + eval(ChunkRange(rg, bs, off)) + r[off + ChunkRange(rg, bs, off).Size()..]
    ensures ChunkState(eval, rg, bs, full, r0, off + bs, written + eval(ChunkRange(rg, bs, off)), r', chunks + [off])
  {
    StartsAdvance(rg.Size(), bs, off, chunks);
    Overwrite(r0, r, r', written, eval(ChunkRange(rg, bs, off)));
  }

  lemma StartsNonEmpty(n: nat, w: nat, s: nat)
    requires w > 0
    ensures |Starts(n, w, s)| > 0 <==> s < n
  {
  }

  /** Overwriting the values after the `written` prefix with `piece`. */
  lemma Overwrite(r0: seq<real>, r: seq<real>, r': seq<real>, written: seq<real>, piece: seq<real>)
    requires |written| + |piece| <= |r0| && r == written + r0[|written|..]
    requires r' == r[..|written|] + piece + r[|written| + |piece|..]
    ensures r' == (written + piece) + r0[|written + piece|..]
  {
    assert r[..|written|] == written;
    assert r[|written| + |piece|..] == r0[|written| + |piece|..];
  }

  /** One pass of the chunk loop: the chunk at `off` evaluated into its
      slice of `res`. */
  method Chunk(nodes: seq<Node>, dataset: Dataset, table: DispatchTable, parameters: Option<seq<real>>,
               rg: Range, S: nat, batchSize: nat, ghost eval: Range -> seq<real>, ghost full: seq<real>,
               ghost r0: seq<real>, off: nat, ghost written: seq<real>, res: array<real>, ghost chunks: seq<nat>)
    returns (ghost written': seq<real>, ghost chunks': seq<nat>)
    requires 0 < |nodes| && S > 0 && batchSize > 0 && rg.Valid() && off < rg.Size()
    requires ParamsFit(nodes, parameters) && DataFits(nodes, dataset, rg) && KernelsFit(table, S)
    requires eval == EvalWithin(nodes, dataset, table, parameters, rg, S)
    requires ChunkState(eval, rg, batchSize, full, r0, off, written, res[..], chunks)
    modifies res
    ensures ChunkState(eval, rg, batchSize, full, r0, off + batchSize, written', res[..], chunks')
    ensures |chunks'| == |chunks| + 1
  {
    var start := rg.Start + off;
    var end := if start + batchSize < rg.End then start + batchSize else rg.End;
    ChunkBounds(rg, batchSize, off, start, end);
    ChunkStateLength(eval, rg, batchSize, full, r0, off, written, res[..], chunks);
    DataFitsWithin(nodes, dataset, rg, Range(start, end));
    ghost var before := res[..];
    var chunk := Range(start, end);
    ghost var batches := EvaluateInto(nodes, dataset, table, parameters, chunk, S, res, off);
    ghost var after := res[..];
    ChunkWritten(nodes, dataset, table, parameters, rg, S, batchSize, eval, full, r0, off, written, before, chunks, after);
    written' := written + eval(chunk);
    chunks' := chunks + [off];
  }

  /** The bounds `Chunk` computes are those of `ChunkRange`. */
  lemma ChunkBounds(rg: Range, bs: nat, off: nat, start: nat, end: nat)
    requires rg.Valid() && off < rg.Size() && start == rg.Start + off
    requires end == if start + bs < rg.End then start + bs else rg.End
    ensures Range(start, end) == ChunkRange(rg, bs, off)
  {
  }

  /** The chunk loop's result buffer always spans the range. */
  lemma ChunkStateLength(eval: Range -> seq<real>, rg: Range, bs: nat, full: seq<real>, r0: seq<real>,
                         off: nat, written: seq<real>, r: seq<real>, chunks: seq<nat>)
    requires bs > 0 && rg.Valid()
    requires ChunkState(eval, rg, bs, full, r0, off, written, r, chunks)
    ensures |r| == rg.Size()
  {
  }

  /** The chunk loop's state after `Evaluate` wrote the chunk at `off`. */
  lemma ChunkWritten(nodes: seq<Node>, dataset: Dataset, table: DispatchTable, parameters: Option<seq<real>>,
                     rg: Range, S: nat, bs: nat, eval: Range -> seq<real>, full: seq<real>,
                     r0: seq<real>, off: nat, written: seq<real>, r: seq<real>, chunks: seq<nat>, r': seq<real>)
    requires 0 < |nodes| && S > 0 && bs > 0 && rg.Valid() && off < rg.Size()
    requires ParamsFit(nodes, parameters) && DataFits(nodes, dataset, rg) && KernelsFit(table, S)
    requires eval == EvalWithin(nodes, dataset, table, parameters, rg, S)
    requires ChunkState(eval, rg, bs, full, r0, off, written, r, chunks)
    requires DataFits(nodes, dataset, ChunkRange(rg, bs, off))
    requires r' == r[..off]
                   + EvalSpec(nodes, dataset, table, parameters, ChunkRange(rg, bs, off), S)
                   + r[off + ChunkRange(rg, bs, off).Size()..]
    ensures ChunkState(eval, rg, bs, full, r0, off + bs, written + eval(ChunkRange(rg, bs, off)), r', chunks + [off])
  {
    assert eval(ChunkRange(rg, bs, off)) == EvalSpec(nodes, dataset, table, parameters, ChunkRange(rg, bs, off), S);
    ChunkAdvance(eval, rg, bs, full, r0, off, written, r, chunks, r');
  }

  /** `Evaluate` with a batch size: the range is cut into chunks of
      `batchSize` rows, each evaluated into its slice of the result. */
  method EvaluateChunked(nodes: seq<Node>, dataset: Dataset, table: DispatchTable,
                         parameters: Option<seq<real>>, rg: Range, S: nat, batchSize: nat)
    returns (result: seq<real>, ghost chunks: seq<nat>)
    requires 0 < |nodes| && S > 0 && batchSize > 0 && rg.Valid()
    requires ParamsFit(nodes, parameters) && DataFits(nodes, dataset, rg) && KernelsFit(table, S)
    ensures |result| == rg.Size()
    ensures result == Chunked(EvalWithin(nodes, dataset, table, parameters, rg, S), rg, batchSize, 0)
    ensures chunks == Starts(rg.Size(), batchSize, 0)
  {
    var size := rg.Size();
    var res := new real[size];
    var count := CountChunks(size, batchSize);
    ghost var eval := EvalWithin(nodes, dataset, table, parameters, rg, S);
    ghost var full := Chunked(eval, rg, batchSize, 0);
    ChunkedLength(eval, rg, batchSize, 0);
    ghost var r0 := res[..];
    ghost var written: seq<real> := [];
    chunks := [];
    var off := 0;
    ChunkStart(eval, rg, batchSize, r0);
    for idx := 0 to count
      invariant ChunkState(eval, rg, batchSize, full, r0, off, written, res[..], chunks)
      invariant |chunks| == idx
    {
      assert off < size by {
        StartsNonEmpty(size, batchSize, off);
      }
      written, chunks := Chunk(nodes, dataset, table, parameters, rg, S, batchSize, eval, full, r0, off, written, res, chunks);
      off := off + batchSize;
    }
    StartsNonEmpty(size, batchSize, off);
    result := res[..];
  }

  // ---------------------------------------------------------------------
  // A single leaf

  /** The value of a one-leaf tree on row `row` of the dataset. */
  function RowValue(n: Node, param: real, dataset: Dataset, row: nat): real
    requires IsVariable(n) ==> row < |dataset(n.HashValue)|
  {
    if IsVariable(n) then param * dataset(n.HashValue)[row] else param
  }

  /** The value a one-leaf tree gives on row `k` of the range. */
  function LeafValue(n: Node, param: real, dataset: Dataset, rg: Range, k: nat): real
    requires IsVariable(n) ==> rg.Start + k < |dataset(n.HashValue)|
  {
    if IsVariable(n) then param * dataset(n.HashValue)[rg.Start + k] else param
  }

  /** One batch of a one-leaf tree: the batch's rows of the leaf's column
      hold the leaf's values, and a constant's column is left as it is. */
  lemma LeafBatch(n: Node, param: real, dataset: Dataset, meta: seq<NodeMeta>,
                  S: nat, rg: Range, m: seq<Column>, row: nat)
    requires S > 0 && rg.Valid() && |m| == 1 && ColumnsFit(m, S) && MetaFits([n], meta, S, rg.Size())
    requires row < rg.Size() && meta[0].param == param
    requires IsVariable(n) ==> rg.End <= |dataset(n.HashValue)| && meta[0].values == dataset(n.HashValue)[rg.Start..rg.End]
    requires !IsVariable(n) ==> meta[0].func.None? && m[0] == Fill(S, param)
    ensures var rem := BatchRows(S, rg.Size(), row);
            var m' := RunNodes(m, [n], meta, S, rg.Size(), 1, row, rem, Range(rg.Start + row, rg.Start + row + rem));
            && (forall k :: 0 <= k < rem ==> m'[0][k] == LeafValue(n, param, dataset, rg, row + k))
            && (!IsVariable(n) ==> m'[0] == Fill(S, param))
  {
    var rem := BatchRows(S, rg.Size(), row);
    var m' := RunNodes(m, [n], meta, S, rg.Size(), 1, row, rem, Range(rg.Start + row, rg.Start + row + rem));
    assert m' == StepNode(m, [n], meta, S, rg.Size(), 0, row, rem, Range(rg.Start + row, rg.Start + row + rem));
  }

  lemma {:induction false} LeafFrom(n: Node, param: real, dataset: Dataset, meta: seq<NodeMeta>,
                                    S: nat, rg: Range, m: seq<Column>, row: nat)
    requires S > 0 && rg.Valid() && |m| == 1 && ColumnsFit(m, S) && MetaFits([n], meta, S, rg.Size())
    requires meta[0].param == param
    requires IsVariable(n) ==> rg.End <= |dataset(n.HashValue)| && meta[0].values == dataset(n.HashValue)[rg.Start..rg.End]
    requires !IsVariable(n) ==> meta[0].func.None? && m[0] == Fill(S, param)
    ensures |EvalFrom(m, [n], meta, S, rg, row)| == if row < rg.Size() then rg.Size() - row else 0
    ensures forall k :: 0 <= k < rg.Size() - row ==>
              EvalFrom(m, [n], meta, S, rg, row)[k] == LeafValue(n, param, dataset, rg, row + k)
    decreases rg.Size() - row
  {
    EvalFromLength(m, [n], meta, S, rg, row);
    if row < rg.Size() {
      var rem := BatchRows(S, rg.Size(), row);
      var m' := RunNodes(m, [n], meta, S, rg.Size(), 1, row, rem, Range(rg.Start + row, rg.Start + row + rem));
      LeafBatch(n, param, dataset, meta, S, rg, m, row);
      LeafFrom(n, param, dataset, meta, S, rg, m', row + S);
      EvalFromStep(m, [n], meta, S, rg, row, m');
      LeafJoin(n, param, dataset, rg, row, S, m'[0][..rem], EvalFrom(m', [n], meta, S, rg, row + S));
    }
  }

  /** A batch's leaf values followed by those of the later batches are the
      leaf values from the batch's first row on. */
  lemma LeafJoin(n: Node, param: real, dataset: Dataset, rg: Range, row: nat, S: nat,
                 head: seq<real>, tail: seq<real>)
    requires rg.Valid() && (IsVariable(n) ==> rg.End <= |dataset(n.HashValue)|)
    requires row + |head| + |tail| <= rg.Size() && (|tail| > 0 ==> |head| == S)
    requires forall k :: 0 <= k < |head| ==> head[k] == LeafValue(n, param, dataset, rg, row + k)
    requires forall k :: 0 <= k < |tail| ==> tail[k] == LeafValue(n, param, dataset, rg, row + S + k)
    ensures forall k :: 0 <= k < |head + tail| ==> (head + tail)[k] == LeafValue(n, param, dataset, rg, row + k)
  {
    forall k | 0 <= k < |head + tail|
      ensures (head + tail)[k] == LeafValue(n, param, dataset, rg, row + k)
    {
      if k >= |head| {
        assert (head + tail)[k] == tail[k - S];
      }
    }
  }
  /** A tree of one leaf gives its parameter on every row when the leaf is a
      constant (with no kernel registered), and its parameter times the
      variable's value on every row when it is a variable. */
  lemma SingleLeaf(n: Node, dataset: Dataset, table: DispatchTable, parameters: Option<seq<real>>, rg: Range, S: nat)
    requires S > 0 && rg.Valid()
    requires ParamsFit([n], parameters) && DataFits([n], dataset, rg) && KernelsFit(table, S)
    requires IsVariable(n) || (IsConstant(n) && table(n.HashValue).None?)
    ensures forall k :: 0 <= k < rg.Size() ==>
              EvalSpec([n], dataset, table, parameters, rg, S)[k]
              == LeafValue(n, ParamOf([n], parameters, 0), dataset, rg, k)
  {
    var meta := Metas([n], dataset, table, parameters, rg, 1);
    var m := Columns([n], parameters, S, 1);
    ScanFits([n], dataset, table, parameters, rg, S, meta);
    if !IsVariable(n) {
      assert !IsVariable(n) ==> meta[0].func.None? && m[0] == Fill(S, ParamOf([n], parameters, 0));
    }
    LeafFrom(n, ParamOf([n], parameters, 0), dataset, meta, S, rg, m, 0);
  }

  /** Chunks whose every value is the value at the same row of `t` make up `t`. */
  lemma {:induction false} ChunkedRows(eval: Range -> seq<real>, rg: Range, bs: nat, off: nat, t: seq<real>)
    requires bs > 0 && rg.Valid() && off <= rg.Size() && |t| == rg.Size()
    requires forall sub: Range :: sub.Valid() && rg.Start <= sub.Start && sub.End <= rg.End ==> |eval(sub)| == sub.Size()
    requires forall sub: Range, k :: sub.Valid() && rg.Start <= sub.Start && sub.End <= rg.End && 0 <= k < sub.Size() ==>
               eval(sub)[k] == t[sub.Start - rg.Start + k]
    ensures Chunked(eval, rg, bs, off) == t[off..]
    decreases rg.Size() - off
  {
    if off < rg.Size() {
      var sub := ChunkRange(rg, bs, off);
      var next := ChunkEnd(rg.Size(), bs, off);
      ChunkedRows(eval, rg, bs, next, t);
      assert next == off + bs || next == rg.Size();
      if next < rg.Size() {
        assert next == off + bs;
      } else {
        assert Chunked(eval, rg, bs, off + bs) == [] == t[next..];
      }
      assert eval(sub) == t[off..next];
      assert t[off..] == t[off..next] + t[next..];
    }
  }

  /** `EvalWithin` gives `EvalSpec` on every sub-range of `rg`. */
  lemma WithinIsSpec(nodes: seq<Node>, dataset: Dataset, table: DispatchTable,
                     parameters: Option<seq<real>>, rg: Range, S: nat, sub: Range)
    requires 0 < |nodes| && S > 0 && rg.Valid()
    requires ParamsFit(nodes, parameters) && DataFits(nodes, dataset, rg) && KernelsFit(table, S)
    requires sub.Valid() && sub.End <= rg.End && DataFits(nodes, dataset, sub)
    ensures EvalWithin(nodes, dataset, table, parameters, rg, S)(sub) == EvalSpec(nodes, dataset, table, parameters, sub, S)
  {
  }

  /** Row `k` of a one-leaf tree depends on the dataset's row `rg.Start + k` only. */
  lemma LeafRow(n: Node, dataset: Dataset, table: DispatchTable, parameters: Option<seq<real>>, rg: Range, S: nat, k: nat)
    requires S > 0 && rg.Valid() && k < rg.Size()
    requires ParamsFit([n], parameters) && DataFits([n], dataset, rg) && KernelsFit(table, S)
    requires IsVariable(n) || (IsConstant(n) && table(n.HashValue).None?)
    ensures IsVariable(n) ==> rg.Start + k < |dataset(n.HashValue)|
    ensures EvalSpec([n], dataset, table, parameters, rg, S)[k] == RowValue(n, ParamOf([n], parameters, 0), dataset, rg.Start + k)
  {
    assert IsVariable(n) ==> rg.End <= |dataset([n][0].HashValue)|;
    SingleLeaf(n, dataset, table, parameters, rg, S);
  }

  /** The values of a one-leaf tree on the rows of `rg`, one per row. */
  function LeafRows(n: Node, param: real, dataset: Dataset, rg: Range): (out: seq<real>)
    requires rg.Valid() && (IsVariable(n) ==> rg.End <= |dataset(n.HashValue)|)
    ensures |out| == rg.Size()
  {
    seq(rg.Size(), j requires 0 <= j < rg.Size() => RowValue(n, param, dataset, rg.Start + j))
  }

  /** Row `k` of a sub-range is the matching row of the whole range. */
  lemma LeafRowsShift(n: Node, param: real, dataset: Dataset, rg: Range, sub: Range, k: nat)
    requires rg.Valid() && (IsVariable(n) ==> rg.End <= |dataset(n.HashValue)|)
    requires sub.Valid() && rg.Start <= sub.Start && sub.End <= rg.End && k < sub.Size()
    ensures LeafRows(n, param, dataset, sub)[k] == LeafRows(n, param, dataset, rg)[sub.Start - rg.Start + k]
  {
    assert rg.Start + (sub.Start - rg.Start + k) == sub.Start + k;
  }

  /** A one-leaf tree evaluates row by row, whatever the batch size. */
  lemma LeafSpecRows(n: Node, dataset: Dataset, table: DispatchTable, parameters: Option<seq<real>>, rg: Range, S: nat)
    requires S > 0 && rg.Valid()
    requires ParamsFit([n], parameters) && DataFits([n], dataset, rg) && KernelsFit(table, S)
    requires IsVariable(n) || (IsConstant(n) && table(n.HashValue).None?)
    ensures IsVariable(n) ==> rg.End <= |dataset(n.HashValue)|
    ensures EvalSpec([n], dataset, table, parameters, rg, S) == LeafRows(n, ParamOf([n], parameters, 0), dataset, rg)
  {
    assert IsVariable(n) ==> rg.End <= |dataset([n][0].HashValue)|;
    var t := LeafRows(n, ParamOf([n], parameters, 0), dataset, rg);
    forall k | 0 <= k < rg.Size()
      ensures EvalSpec([n], dataset, table, parameters, rg, S)[k] == t[k]
    {
      LeafRow(n, dataset, table, parameters, rg, S, k);
    }
  }

  /** Each chunk of a one-leaf tree evaluates row by row. */
  lemma LeafWithin(n: Node, dataset: Dataset, table: DispatchTable, parameters: Option<seq<real>>,
                   rg: Range, S: nat, sub: Range)
    requires S > 0 && rg.Valid()
    requires ParamsFit([n], parameters) && DataFits([n], dataset, rg) && KernelsFit(table, S)
    requires IsVariable(n) || (IsConstant(n) && table(n.HashValue).None?)
    requires sub.Valid() && rg.Start <= sub.Start && sub.End <= rg.End
    ensures IsVariable(n) ==> sub.End <= |dataset(n.HashValue)|
    ensures EvalWithin([n], dataset, table, parameters, rg, S)(sub)
            == LeafRows(n, ParamOf([n], parameters, 0), dataset, sub)
  {
    DataFitsWithin([n], dataset, rg, sub);
    WithinIsSpec([n], dataset, table, parameters, rg, S, sub);
    LeafSpecRows(n, dataset, table, parameters, sub, S);
  }

  /** For a one-leaf tree, chunked evaluation with any chunk size and batch
      size `S` equals unchunked evaluation with any other batch size `S'`. */
  lemma LeafBatchSizeInvariant(n: Node, dataset: Dataset, table: DispatchTable, parameters: Option<seq<real>>,
                               rg: Range, S: nat, S': nat, bs: nat)
    requires S > 0 && S' > 0 && bs > 0 && rg.Valid()
    requires ParamsFit([n], parameters) && DataFits([n], dataset, rg) && KernelsFit(table, S) && KernelsFit(table, S')
    requires IsVariable(n) || (IsConstant(n) && table(n.HashValue).None?)
    ensures Chunked(EvalWithin([n], dataset, table, parameters, rg, S), rg, bs, 0)
            == EvalSpec([n], dataset, table, parameters, rg, S')
  {
    assert IsVariable(n) ==> rg.End <= |dataset([n][0].HashValue)|;
    var p := ParamOf([n], parameters, 0);
    var eval := EvalWithin([n], dataset, table, parameters, rg, S);
    var t := LeafRows(n, p, dataset, rg);
    forall sub: Range, k | sub.Valid() && rg.Start <= sub.Start && sub.End <= rg.End && 0 <= k < sub.Size()
      ensures eval(sub)[k] == t[sub.Start - rg.Start + k]
    {
      LeafWithin(n, dataset, table, parameters, rg, S, sub);
      LeafRowsShift(n, p, dataset, rg, sub, k);
    }
    ChunkedRows(eval, rg, bs, 0, t);
    LeafSpecRows(n, dataset, table, parameters, rg, S');
  }

}
