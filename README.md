# Operon tree evaluation, in Dafny

Operon is a genetic-programming library for symbolic regression. Its
expression trees are flat postfix arrays of `Node` records. This project
models the path that turns such a tree into numbers, and proves properties of
that model:

- **Node record and operator tags** (module `Nodes`, file `node.dfy`). The 31 single-bit `NodeType` tags and their bit operators.
  Also `NodeTypes::GetIndex`, the `Node` constructors with the arity derived
  from the tag's value, the comparison operators and the kind queries.
- **Postfix child addressing and n-ary kernels** (module `EvalDetail`, file
  `eval_detail.dfy`). Children are found by stepping back from
  `parentIndex - 1` over each child's subtree (`i - (Length + 1)`). The
  `op<T, N>` kernels for Add, Sub, Mul and Div are modelled, along with
  `dispatch_op`, which folds up to five children per kernel call and loops
  for more, and `dispatch_op_simple`, which is a right fold of a binary
  kernel. The buffer is modelled at one row, because every kernel is
  elementwise.
- **Batched interpreter** (module `Interpreter`, file `interpreter.dfy`).
  All three `GenericInterpreter::Evaluate` overloads are modelled:
  - the pre-scan, which resolves each node's parameter, dataset column and
    kernel;
  - the row loop in batches of `S`, which refills variables with
    `param * value`, runs kernels and copies the root column into the
    result;
  - the chunked overload, which splits the range into slices of
    `batchSize` rows.
- **Forward-mode Jacobian** (module `ForwardDiff`, file `forward.dfy`).
  Both `DerivativeCalculator::operator()` overloads are modelled. The
  coefficients are processed in groups of `d` lanes, with one interpreter
  pass per group. The lanes are copied into a column-major or row-major
  buffer.
- **Sorted-hash intersection** (module `Diversity`, file `diversity.dfy`):
  `Intersect2` with its early exit, `detail::is_set` and `HashTree`.
- **Chunking** (module `Chunks`, file `chunks.dfy`). The chunk starts
  `0, w, 2w, ...` below `n` are shared by the interpreter's batches, its
  chunked overload and the Jacobian's coefficient groups.

Collaborators the core calls but does not define are parameters of the model:
- the dispatch table (`Hash -> Option<Callable>`);
- the dataset (`Hash -> seq<real>`);
- the batch width `S`;
- in the Jacobian, the interpreter pass on dual numbers (`(seq<Dual>, row) -> Dual`).

Values are `real`, so a division requires a nonzero divisor. What counts
as a divisor depends on the code. The n-ary kernel and the corrected
`dispatch_op` divide by every value after the first (`DivisorsNonzero`).
`dispatch_op` as written divides round by round (`RoundDivisors`). The
first value of each round of two or more is a numerator, even after the
first round, and a lone last value is a divisor.

The model has two partners, and each is proved against the other:
- The imperative parts are arrays and loops.
  - `EvalDetail.DispatchOp` rewrites one cell of `m: array<real>`.
  - `Interpreter.EvaluateInto` writes segments of `result: array<real>`.
  - `ForwardDiff.JacobianInto` fills `jac: array<real>`.
  - `Diversity.SortHashes` sorts in place.
- The specification functions are `DispatchValue`, `Kernel`, `EvalSpec`,
  `Chunked`, `EntryAsWritten`/`EntryOneHot` and `Common`.
- Each method's `ensures` ties its final state to a specification function.
  The lemmas then say what that function means, for example:
  - the n-ary kernel for up to six children;
  - one value per row of the range;
  - the derivative of a linear model;
  - the multiset-intersection size.

Three places where the code does not do what it evidently intends are
modelled as written, with a counterexample, and again corrected (see
"## Findings").

`dispatch_op_simple` is a right fold, `c_k op (... op c_0)`. For Sub this is
`c_1 - c_0`, while `dispatch_op` computes `c_0 - c_1`
(`EvalDetail.SimpleSubOrder`). Nothing shown says which order is intended.
The model therefore records the difference and does not call it a defect.

## Model

| member | source | states |
|---|---|---|
| Nodes.TagsDisjoint | include/operon/core/node.hpp:16-50 | helper: two distinct declared tags share no bit: their `&` is 0 |
| Nodes.FlagSetClear | include/operon/core/node.hpp:63-76 | helper: after the or-assignment a flag tests as set with `&`, after `&= ~` it tests as clear |
| Nodes.FlagToggle | include/operon/core/node.hpp:77-81 | helper: applying `^=` twice with the same flag restores the value |
| Nodes.FlagIndependent | include/operon/core/node.hpp:63-76 | helper: setting a flag does not change the `&` test of a disjoint flag |
| Nodes.And | include/operon/core/node.hpp:63 | the result has no flag outside either operand and keeps every flag the two share |
| Nodes.Or | include/operon/core/node.hpp:64 | the result keeps every flag of both operands and has no other |
| Nodes.Xor | include/operon/core/node.hpp:65 | xor-ing the result with `rhs` gives back `lhs`, and no flag set in both operands survives |
| Nodes.Not | include/operon/core/node.hpp:66 | the complement shares no flag with the operand, and together they cover all 32 bits |
| Nodes.GetIndex | include/operon/core/node.hpp:57-60 | the index counts the bits of a 31-bit bitset, so it is at most `Count` |
| Nodes.GetIndexOfTag | include/operon/core/node.hpp:55-60 | the popcount of `tag - 1` over a 31-bit bitset is the tag's position: `GetIndex(1 << k) == k` |
| Nodes.GetIndexInjective | include/operon/core/node.hpp:55-60 | on the declared tags the index is below `Count` and distinct tags get distinct indices |
| Nodes.PopcountLowMask | include/operon/core/node.hpp:59 | the bitset count of a mask of `k` low bits is `k` |
| Nodes.TagOrder | include/operon/core/node.hpp:16-50 | tags compare by numeric value exactly as their positions compare, both directions |
| Nodes.ArityOfTag | include/operon/core/node.hpp:106-113 | arity is 2 exactly for Add..Pow, 1 exactly for Abs..Dynamic, 0 exactly for Constant and Variable |
| Nodes.ArityOf | include/operon/core/node.hpp:106-113 | the derived arity is at most 2, and 0 for Constant and Variable |
| Nodes.MakeNode | include/operon/core/node.hpp:101-119 | the node has the given tag, `Length == Arity ==` the derived arity, both hashes equal the given hash, and it is enabled and not marked for optimisation |
| Nodes.MakeNodeOfType | include/operon/core/node.hpp:97-100 | `Node(type)` has that tag, and both hashes equal the numeric value of the tag |
| Nodes.ConstructedNode | include/operon/core/node.hpp:97-119 | a constructed node has that arity, `Length == Arity`, `Value == 1`, is enabled, both hashes equal the given hash, and `Node(type)` hashes to the tag's value |
| Nodes.OrderFacts | include/operon/core/node.hpp:125-153 | `<` is lexicographic on (HashValue, CalculatedHashValue): irreflexive, transitive, asymmetric, total up to equal keys; `!=` negates `==`, `>=` negates `<`, `>` means `b < a` and not `a == b` |
| Nodes.Eq | include/operon/core/node.hpp:125-128 | a node equals itself and every node with the same key |
| Nodes.Ne | include/operon/core/node.hpp:130-133 | nodes that compare unequal are different records with different keys |
| Nodes.Lt | include/operon/core/node.hpp:135-138 | `<` holds exactly when the key (HashValue, CalculatedHashValue) is lexicographically smaller |
| Nodes.Le | include/operon/core/node.hpp:140-143 | `<=` holds of a node with itself and wherever `<` holds |
| Nodes.Gt | include/operon/core/node.hpp:145-148 | `a > b` implies `b < a`, and never holds of a node with itself |
| Nodes.Ge | include/operon/core/node.hpp:150-153 | `a >= b` holds exactly when `b < a` or the keys are equal |
| Nodes.EqualYetLess | include/operon/core/node.hpp:125-153 | two nodes can be both `==` and `<`, since `==` ignores HashValue |
| Nodes.KindQueries | include/operon/core/node.hpp:155-162 | on constructed nodes IsCommutative holds exactly for Add and Mul, IsLeaf exactly for Constant and Variable, IsConstant and IsVariable exactly for their tags |
| Nodes.IsLeaf | include/operon/core/node.hpp:155 | a leaf whose `Length` equals its `Arity`, as the constructor leaves it, has an empty subtree |
| Nodes.IsCommutative | include/operon/core/node.hpp:156 | Sub, Div and Constant are not commutative |
| Nodes.Is | include/operon/core/node.hpp:158-159 | the node matches exactly when its tag is among the given ones; an empty list matches nothing |
| EvalDetail.NextSibling | include/operon/core/eval_detail.hpp:75 | the next sibling lies strictly before the current node |
| EvalDetail.SiblingIndices | include/operon/core/eval_detail.hpp:75-113 | the visited sibling indices start at the given index and each is the previous one minus its `Length + 1` |
| EvalDetail.SiblingsSpanSum | include/operon/core/eval_detail.hpp:75 | the subtrees of consecutive siblings add up to the span they were required to cover |
| EvalDetail.ChildrenLayout | include/operon/core/eval_detail.hpp:75-113 | in a well-formed subtree the parent has `Arity` children, the first at `p - 1`, strictly decreasing, each subtree inside `[p - Length, p)`, and their spans sum to the parent's `Length` |
| EvalDetail.ChildrenChain | include/operon/core/eval_detail.hpp:75-81 | the children form a `nextSibling` chain of indices below the parent |
| EvalDetail.TreeChildrenHold | include/operon/core/eval_detail.hpp:75-81 | the child columns read by the kernels hold the child values in kernel order |
| EvalDetail.DivisorsNonzeroKernel | include/operon/core/eval_detail.hpp:62-69 | with no zero divisor among the children, the kernel is defined |
| EvalDetail.KernelMeaning | include/operon/core/eval_detail.hpp:31-69 | Mul is the product of its arguments, Add and the primary template their sum; Sub undoes the sum of the rest (`r + sum(rest) == first`), with negation for one argument |
| EvalDetail.KernelDiv | include/operon/core/eval_detail.hpp:62-69 | Div undoes the product of the rest (`r * prod(rest) == first`), with the reciprocal for one argument |
| EvalDetail.KernelCons | include/operon/core/eval_detail.hpp:31-69 | with two or more arguments Sub is first minus the sum of the rest, Mul the product, Div first over the product of the rest, every other tag first plus the sum of the rest |
| EvalDetail.KernelRegroup | include/operon/core/eval_detail.hpp:84-118 | folding a group into an accumulator and continuing with the rest equals one kernel over all arguments |
| EvalDetail.DispatchUpToSix | include/operon/core/eval_detail.hpp:84-118 | for arity 1 to 6 `dispatch_op` leaves the n-ary kernel of all children in the parent column; arity 6 is the default round plus the continued unary case |
| EvalDetail.RoundDivisorsShort | include/operon/core/eval_detail.hpp:84-108 | up to six children the values `dispatch_op` divides by are exactly the kernel's divisors, both directions |
| EvalDetail.DivisorsRoundDivisors | include/operon/core/eval_detail.hpp:84-116 | helper: every kernel divisor is a divisor of some round of `dispatch_op` |
| EvalDetail.RoundDivisorsSplit | include/operon/core/eval_detail.hpp:110-116 | a default round divides by its second to fifth values only, and the later rounds keep their own condition |
| EvalDetail.RoundNumeratorZero | include/operon/core/eval_detail.hpp:95-116 | under Div, `[1, 1, 1, 1, 1, 0, 1]` is accepted by `dispatch_op` as written although the kernel refuses it, and it evaluates to 0 |
| EvalDetail.DispatchIgnoresAccumulator | include/operon/core/eval_detail.hpp:90-108 | a last round of 2 to 5 children does not depend on the accumulated value |
| EvalDetail.DispatchDropsFirstRound | include/operon/core/eval_detail.hpp:110-116 | for arity 7 or more the result equals that of the children after the first five: the first round is lost |
| EvalDetail.DispatchSevenOnes | include/operon/core/eval_detail.hpp:84-118 | Add over seven ones yields 2 where the sum is 7 |
| EvalDetail.GatherFive | include/operon/core/eval_detail.hpp:111-113 | one default round reads the next five children's values and moves to the sixth child |
| EvalDetail.GatherLast | include/operon/core/eval_detail.hpp:91-107 | the last round reads the remaining children's values in order |
| EvalDetail.DispatchRoundStep | include/operon/core/eval_detail.hpp:110-116 | a default round folds five children and continues with the rest under `continued` |
| EvalDetail.DispatchLastStep | include/operon/core/eval_detail.hpp:86-108 | the last round yields the unary or 2..5-ary kernel, the unary one reading the accumulator when continued |
| EvalDetail.DispatchValue | include/operon/core/eval_detail.hpp:84-118 | with at most five children the value is the kernel over them; from two children on the accumulator plays no part |
| EvalDetail.DispatchOp | include/operon/core/eval_detail.hpp:72-119 | `dispatch_op` as written: the parent cell ends as `DispatchValue` of the children and no other cell changes |
| EvalDetail.DispatchFixedContinued | include/operon/core/eval_detail.hpp:84-118 | with each round folding the accumulator in, continuing from a folded prefix gives the kernel of all children |
| EvalDetail.DispatchFixedIsKernel | include/operon/core/eval_detail.hpp:84-118 | the corrected dispatch yields the n-ary kernel of all children for every arity |
| EvalDetail.DispatchOpFixed | include/operon/core/eval_detail.hpp:72-119 | corrected `dispatch_op`: the parent cell ends as the kernel of all children and no other cell changes |
| EvalDetail.SimpleFold | include/operon/core/eval_detail.hpp:132-136 | the right fold of Mul is the product of the children, of Add and the primary template their sum |
| EvalDetail.SimpleDefinedPrefix | include/operon/core/eval_detail.hpp:133-136 | a right fold with nonzero divisors has nonzero divisors on every prefix |
| EvalDetail.SimpleFoldIsKernel | include/operon/core/eval_detail.hpp:132-136 | for tags other than Sub and Div the right fold equals the kernel: Mul gives the product, the others the sum |
| EvalDetail.SimpleSubOrder | include/operon/core/eval_detail.hpp:135 | for Sub the right fold gives `b - a` where the kernel gives `a - b` |
| EvalDetail.SimpleFoldStep | include/operon/core/eval_detail.hpp:133-136 | each loop step applies the kernel to the next child and the fold so far, in that order |
| EvalDetail.FoldSiblingsRight | include/operon/core/eval_detail.hpp:132-136 | with arity 2 or more the parent cell ends as the right fold of the children, no other cell changes |
| EvalDetail.DispatchOpSimple | include/operon/core/eval_detail.hpp:121-138 | `dispatch_op_simple` as written: arity 1 overwrites the child cell `p - 1` with the kernel of the parent's old value and leaves the parent; arity 2 or more as above |
| EvalDetail.SimpleUnaryExample | include/operon/core/eval_detail.hpp:129-130 | a unary Sub over columns `[x, y]` leaves `-y` in the child column and `y` in the parent column |
| EvalDetail.DispatchOpSimpleFixed | include/operon/core/eval_detail.hpp:121-138 | corrected: arity 1 writes the kernel of the child into the parent cell; no other cell changes |
| EvalDetail.DispatchAgreesWithSimple | include/operon/core/eval_detail.hpp:90-136 | for Add and Mul with 2 to 5 children `dispatch_op` and `dispatch_op_simple` agree |
| EvalDetail.DispatchFixedAgreesWithSimple | include/operon/core/eval_detail.hpp:84-136 | corrected: for Add and Mul `dispatch_op` and `dispatch_op_simple` agree at every arity of 2 or more |
| Chunks.StartsCount | include/operon/interpreter/interpreter.hpp:45-47 | there are `ceil((n - s) / w)` chunks: they cover `n - s` items and one fewer would not |
| Chunks.StartsSpaced | include/operon/interpreter/interpreter.hpp:87-89 | chunk starts lie in range and are at least `w` apart |
| Chunks.StartsCover | include/operon/interpreter/interpreter.hpp:87-89 | every item lies in some chunk `[t, min(t + w, n))` |
| Chunks.StartsPartition | include/operon/autodiff/forward/forward.hpp:42-43 | each item lies in exactly one chunk: the chunks partition `[0, n)` |
| Chunks.NextMultiple | include/operon/autodiff/forward/forward.hpp:42 | helper: stepping a multiple of `d` by `d` gives a multiple of `d` |
| Interpreter.OptimizeCount | include/operon/interpreter/interpreter.hpp:78 | the number of parameters read is at most the number of nodes |
| Interpreter.OptimizeCountMono | include/operon/interpreter/interpreter.hpp:78 | the counter `idx` never decreases along the nodes and grows past each `Optimize` node |
| Interpreter.ParamsInOrder | include/operon/interpreter/interpreter.hpp:78 | two `Optimize` nodes read distinct parameters, in stored order, all below the final count |
| Interpreter.ParamsAllRead | include/operon/interpreter/interpreter.hpp:78 | every parameter index below the final count is read by some `Optimize` node |
| Interpreter.ParamOf | include/operon/interpreter/interpreter.hpp:78 | a marked node given parameters takes one of the supplied parameters; any other node takes its own `Value` |
| Interpreter.ScanParam | include/operon/interpreter/interpreter.hpp:78 | node `i` takes `parameters[idx]` exactly when parameters are given and it is marked, otherwise its `Value`, and `idx` advances only then |
| Interpreter.Metas | include/operon/interpreter/interpreter.hpp:79-83 | the records pushed for the first `k` nodes are each node's parameter, dataset rows and kernel |
| Interpreter.Columns | include/operon/interpreter/interpreter.hpp:84 | after `k` nodes the constant columns among them hold their parameter, all others are zero |
| Interpreter.ScanNode | include/operon/interpreter/interpreter.hpp:75-83 | one pre-scan step records the node's meta and advances `idx` per `Optimize` |
| Interpreter.PreScan | include/operon/interpreter/interpreter.hpp:72-85 | the pre-scan yields every node's record, fills constant columns with their parameter, and ends with `idx` equal to the number of `Optimize` nodes (0 without parameters) |
| Interpreter.VariableColumn | include/operon/interpreter/interpreter.hpp:94 | the first `remainingRows` entries become `param` times the variable on the batch rows, and the rest of the column is unchanged |
| Interpreter.StepNode | include/operon/interpreter/interpreter.hpp:92-97 | a variable's first `remainingRows` entries become `param * value`, a node with a kernel changes only its column, any other node is skipped |
| Interpreter.RunNodes | include/operon/interpreter/interpreter.hpp:91-98 | nodes are processed in stored order: after the first `k` nodes the later columns are untouched |
| Interpreter.RunBatch | include/operon/interpreter/interpreter.hpp:91-98 | the node loop of one batch computes the buffer `RunNodes` describes |
| Interpreter.BatchRows | include/operon/interpreter/interpreter.hpp:88 | a batch has at most `S` rows and stays inside the range; it is full unless it is the last one, and never empty |
| Interpreter.EvalFromLength | include/operon/interpreter/interpreter.hpp:87-101 | the batches from row `row` on produce exactly one value per remaining row |
| Interpreter.ScanFits | include/operon/interpreter/interpreter.hpp:77-82 | the pre-scan's dataset slices have `numRows` values and its kernels produce full columns |
| Interpreter.EvalFromStep | include/operon/interpreter/interpreter.hpp:87-101 | one batch contributes the first `remainingRows` entries of the root column, then the rest follow |
| Interpreter.EvalSpec | include/operon/interpreter/interpreter.hpp:87-101 | the evaluation has exactly `range.Size()` values |
| Interpreter.WriteSegment | include/operon/interpreter/interpreter.hpp:100 | copying a segment changes exactly the rows `[pos, pos + n)` |
| Interpreter.Batch | include/operon/interpreter/interpreter.hpp:87-101 | one batch writes rows `[row, row + remainingRows)` from the root column and keeps the loop state |
| Interpreter.RunBatches | include/operon/interpreter/interpreter.hpp:87-101 | the batch loop starts its batches at `0, S, 2S, ...` and writes the evaluation into `[offset, offset + Size)` only |
| Interpreter.EvaluateInto | include/operon/interpreter/interpreter.hpp:58-102 | the span overload writes the evaluation into its slice, changes nothing outside, and runs the batches `Starts(Size, S, 0)` |
| Interpreter.Evaluate | include/operon/interpreter/interpreter.hpp:31-37 | the vector overload returns `range.Size()` values equal to the evaluation |
| Interpreter.ChunkRange | include/operon/interpreter/interpreter.hpp:50-52 | a chunk is a valid sub-range starting at `Start + off`, ending by `End`, with `min(bs, Size - off)` rows |
| Interpreter.DataFitsWithin | include/operon/interpreter/interpreter.hpp:53 | a dataset that covers the range covers each chunk |
| Interpreter.EvalWithin | include/operon/interpreter/interpreter.hpp:53 | evaluating any sub-range gives one value per row |
| Interpreter.ChunkedLength | include/operon/interpreter/interpreter.hpp:42-54 | the chunks together write one value per row of the range |
| Interpreter.ChunkTotal | include/operon/interpreter/interpreter.hpp:45-47 | `n + (m != 0)` equals the number of chunk starts |
| Interpreter.CountChunks | include/operon/interpreter/interpreter.hpp:45-47 | the number of indices is the number of chunk starts |
| Interpreter.Chunk | include/operon/interpreter/interpreter.hpp:50-53 | one chunk evaluates its sub-range into the output at offset `idx * batchSize` |
| Interpreter.EvaluateChunked | include/operon/interpreter/interpreter.hpp:39-56 | the chunked overload returns `range.Size()` values, each chunk's slice being that chunk's own evaluation, over the chunks `0, bs, 2bs, ...` |
| Interpreter.LeafFrom | include/operon/interpreter/interpreter.hpp:87-101 | for a one-leaf tree every batch yields the leaf's value on each of its rows |
| Interpreter.SingleLeaf | include/operon/interpreter/interpreter.hpp:84-100 | a one-leaf tree yields its constant on every row, or weight times the variable's value on each row |
| Interpreter.WithinIsSpec | include/operon/interpreter/interpreter.hpp:53 | evaluating a sub-range inside the chunked overload is the span overload on that sub-range |
| Interpreter.ChunkedRows | include/operon/interpreter/interpreter.hpp:49-54 | chunks whose values match a sequence row by row assemble that sequence |
| Interpreter.LeafRow | include/operon/interpreter/interpreter.hpp:84-100 | row `k` of a one-leaf tree depends only on dataset row `Start + k` |
| Interpreter.LeafSpecRows | include/operon/interpreter/interpreter.hpp:84-101 | a one-leaf tree evaluates, row by row and whatever the batch width, to the leaf's own column over the range (`LeafRows`): the dataset column for a variable, the weighted parameter for a constant |
| Interpreter.LeafWithin | include/operon/interpreter/interpreter.hpp:50-53 | for a one-leaf tree the evaluation of one chunk equals the leaf's column over that chunk's sub-range |
| Interpreter.LeafBatchSizeInvariant | include/operon/interpreter/interpreter.hpp:39-56 | for a one-leaf tree the chunked overload, with any chunk size and batch width, equals the span overload with any other batch width |
| ForwardDiff.Cell | include/operon/autodiff/forward/forward.hpp:33-34 | every (row, column) entry lies inside the `rows * cols` buffer |
| ForwardDiff.CellInjective | include/operon/autodiff/forward/forward.hpp:33 | two distinct entries never share a buffer cell, in either layout |
| ForwardDiff.CellOnto | include/operon/autodiff/forward/forward.hpp:33 | every buffer cell is some entry's |
| ForwardDiff.LaneInGroup | include/operon/autodiff/forward/forward.hpp:45-46 | in group `s` coefficient `i` gets lane `i - s`, which is `i % d` |
| ForwardDiff.SeedAsWritten | include/operon/autodiff/forward/forward.hpp:45-47 | before its group a coefficient's lanes are all zero; from its group on they are one-hot at lane `i % d` |
| ForwardDiff.InputsAsWritten | include/operon/autodiff/forward/forward.hpp:36-47 | one dual per coefficient, carrying its value and `d` lanes |
| ForwardDiff.FirstGroupSeeds | include/operon/autodiff/forward/forward.hpp:42-47 | the inputs of the first pass are the one-hot inputs: accumulated and cleared seeds agree before a second group |
| ForwardDiff.FillColumns | include/operon/autodiff/forward/forward.hpp:52-55 | column-major: column `i` of the group receives lane `i - s` of every output, nothing else changes |
| ForwardDiff.FillRows | include/operon/autodiff/forward/forward.hpp:56-59 | row-major: row `i` receives lanes `0 .. r - s` of output `i` in columns `s .. r`, nothing else changes |
| ForwardDiff.FillGroup | include/operon/autodiff/forward/forward.hpp:51-60 | both layouts store the same value at each (row, column) of the group |
| ForwardDiff.InitInputs | include/operon/autodiff/forward/forward.hpp:31-39 | each input starts with primal `coeff[i]` and all lanes zero |
| ForwardDiff.SetGroupLanes | include/operon/autodiff/forward/forward.hpp:45-47 | seeding sets lane `i - s` of each input of the group and nothing else |
| ForwardDiff.SeedAccumulates | include/operon/autodiff/forward/forward.hpp:42-47 | seeding group `s` on the accumulated seeds gives the seeds of all groups up to `s + d`: earlier lanes stay set |
| ForwardDiff.SeedFromZero | include/operon/autodiff/forward/forward.hpp:45-47 | seeding group `s` on zero lanes gives one-hot seeds for that group |
| ForwardDiff.ClearToZero | include/operon/autodiff/forward/forward.hpp:45-47 | clearing the group's lanes restores all-zero lanes |
| ForwardDiff.PassEntriesAsWritten | include/operon/autodiff/forward/forward.hpp:49-59 | the group's pass output, lane `col - s`, is the entry as the source computes it |
| ForwardDiff.PassEntriesOneHot | include/operon/autodiff/forward/forward.hpp:49-59 | with cleared seeds the pass output, lane `col - s`, is the one-hot entry |
| ForwardDiff.EntryAsWritten | include/operon/autodiff/forward/forward.hpp:49-59 | in the first group the entry as written is the one-hot entry |
| ForwardDiff.JacobianInto | include/operon/autodiff/forward/forward.hpp:27-62 | as written: one pass per group `0, d, 2d, ...`, and every entry is written once with the lane of its group's pass under accumulated seeds |
| ForwardDiff.Jacobian | include/operon/autodiff/forward/forward.hpp:20-25 | the returned Jacobian has `rows * n` entries, each as above |
| ForwardDiff.JacobianIntoFixed | include/operon/autodiff/forward/forward.hpp:27-62 | corrected: every entry is the lane of a pass with one-hot seeds |
| ForwardDiff.JacobianFixed | include/operon/autodiff/forward/forward.hpp:20-25 | corrected `jac`: `rows * n` entries, each the one-hot entry |
| ForwardDiff.LaneDotUnit | include/operon/autodiff/forward/forward.hpp:45-49 | a linear model with a one-hot lane returns the seeded coefficient's weight in that lane |
| ForwardDiff.OneHotIsDerivative | include/operon/autodiff/forward/forward.hpp:42-59 | with one-hot seeds the entry of a linear model is its derivative, the weight of that coefficient |
| ForwardDiff.SeedsNotCleared | include/operon/autodiff/forward/forward.hpp:45-47 | with one lane and two coefficients, the second column of `x0 + x1` comes out 2 instead of 1 |
| Diversity.IsSet | include/operon/analyzers/diversity.hpp:58-60 | a vector without repeated values, or of at most one element, passes |
| Diversity.SortedIsSetIffDistinct | include/operon/analyzers/diversity.hpp:58-60 | on sorted input, no equal neighbours exactly when all elements are distinct |
| Diversity.IsSetUnsorted | include/operon/analyzers/diversity.hpp:58-60 | on unsorted input `is_set` can hold with a repeated element |
| Diversity.Intersect2 | include/operon/analyzers/diversity.hpp:168-192 | the loop returns the merge count with early exit, at most either length, and on sorted inputs the multiset-intersection size |
| Diversity.Intersect2Value | include/operon/analyzers/diversity.hpp:168-192 | the count is at most the size of either vector |
| Diversity.MergeFrom | include/operon/analyzers/diversity.hpp:179-190 | each counted step consumes an element of both vectors, so the count is at most what remains of either |
| Diversity.MergeFromSymmetric | include/operon/analyzers/diversity.hpp:179-190 | the loop is symmetric in its two sides |
| Diversity.Intersect2Symmetric | include/operon/analyzers/diversity.hpp:168-192 | `Intersect2(l, r) == Intersect2(r, l)` |
| Diversity.CommonSymmetric | include/operon/analyzers/diversity.hpp:168-192 | the multiset-intersection size is symmetric |
| Diversity.MergeCountCommon | include/operon/analyzers/diversity.hpp:179-185 | the merge run to exhaustion on sorted inputs counts common elements with multiplicity |
| Diversity.MergeFromCommon | include/operon/analyzers/diversity.hpp:179-190 | from any positions, the loop with early exit counts the common elements of the remainders |
| Diversity.Intersect2Common | include/operon/analyzers/diversity.hpp:168-192 | on sorted non-empty inputs `Intersect2` is the multiset-intersection size |
| Diversity.EarlyExitAgrees | include/operon/analyzers/diversity.hpp:187-189 | on sorted inputs the early break gives the count of the merge run to exhaustion |
| Diversity.EarlyExitUnsorted | include/operon/analyzers/diversity.hpp:176-189 | on unsorted inputs the early break can miss a common element |
| Diversity.SortHashes | include/operon/analyzers/diversity.hpp:200 | the hashes end sorted and are a permutation of the input |
| Diversity.InsertLast | include/operon/analyzers/diversity.hpp:200 | inserting the next element keeps the prefix sorted and the contents a permutation |
| Diversity.HashTree | include/operon/analyzers/diversity.hpp:194-201 | the result has one hash per node, is sorted and is a permutation of the nodes' `CalculatedHashValue`s |
| Diversity.SortedPermutationUnique | include/operon/analyzers/diversity.hpp:196-200 | two sorted permutations of the same hashes are equal, so the result does not depend on the node order `Tree::Sort` leaves |

## Findings

| source | as written | input that shows it | evidently intended | confidence | as-written member | corrected member |
|---|---|---|---|---|---|---|
| include/operon/core/eval_detail.hpp:90-116 | cases 2 to 5 of `dispatch_op` ignore `continued`, so for arity 7 or more the value folded by earlier rounds is overwritten | an Add node with seven children whose values are 1 yields 2 | fold every round into the accumulator: the n-ary kernel over all children, 7 | high, not executed | EvalDetail.DispatchSevenOnes | EvalDetail.DispatchOpFixed |
| include/operon/core/eval_detail.hpp:129-130 | `dispatch_op_simple` with arity 1 writes `op(parent)` into the child column `parentIndex - 1` and leaves the parent column as it was | a Sub node with one child: the child column becomes minus the parent's old column, the parent column keeps its old value | parent column becomes `op(child)`, as in `dispatch_op` | medium, not executed | EvalDetail.SimpleUnaryExample | EvalDetail.DispatchOpSimpleFixed |
| include/operon/autodiff/forward/forward.hpp:45-47 | seeds set for a group are never cleared, so later passes still carry the lanes of earlier groups | lane width 1, coefficients `(c0, c1)`, model `x0 + x1`: the entry for `c1` is 2, its derivative is 1 | clear the group's lanes after its pass: one-hot seeds, each entry the partial derivative | high, not executed | ForwardDiff.SeedsNotCleared | ForwardDiff.JacobianIntoFixed |

The lemmas behind the three rows:
- **`dispatch_op`.** `EvalDetail.DispatchDropsFirstRound` proves the
  loss for every arity of 7 or more. `EvalDetail.DispatchFixedIsKernel`
  proves the corrected value is the kernel of all children.
- **`dispatch_op_simple`.** The as-written arity-1 behaviour is the first
  `ensures` of `EvalDetail.DispatchOpSimple`, instantiated on concrete
  columns by `EvalDetail.SimpleUnaryExample`.
- **Forward seeds.** `ForwardDiff.OneHotIsDerivative` proves the corrected
  entries are derivatives of a linear model.
- **Which version the model uses.** `ForwardDiff.Jacobian`,
  `EvalDetail.DispatchOp`, `EvalDetail.DispatchOpSimple` and
  `EvalDetail.DispatchAgreesWithSimple` model the source as written. The
  corrected versions stand beside them: `EvalDetail.DispatchOpFixed`,
  `EvalDetail.DispatchOpSimpleFixed`, `EvalDetail.DispatchFixedAgreesWithSimple`
  (agreement at every arity), and `ForwardDiff.JacobianIntoFixed` with
  `ForwardDiff.JacobianFixed` built on it. The interpreter takes its kernels
  as parameters, so it depends on neither version.

## Left out

- Floating point: kernels compute on `real`, so IEEE rounding, NaN, infinity and Eigen vectorisation are not modelled. Division requires nonzero divisors: `RoundDivisors` for `dispatch_op` as written, `DivisorsNonzero` for the kernel and the corrected `dispatch_op`, and `SimpleDefined` for `dispatch_op_simple`.
- Unary kernels other than the four arithmetic specialisations are not modelled. Tags without their own `op` specialisation use the primary template, which adds, and the model follows that.
- Columns are modelled one row at a time in `EvalDetail`, because every kernel is elementwise. `BATCHSIZE` is declared, but the column width is not.
- `Interpreter.StepNode`: a callable is modelled as returning the new column of the node it is invoked on. The source passes it the whole buffer, so a callable writing other columns is not captured.
- Interpreter buffer `m`: the source leaves it uninitialised and the model starts it at zero.
- The interpreter requires that the parameters cover every `Optimize` node (`ParamsFit`), the dataset columns cover the range (`DataFits`) and kernels return full columns (`KernelsFit`). The source reads out of bounds otherwise.
- `Interpreter.EvaluateChunked`: the slice offset `idx * batchSize` is carried as a running sum equal to it; the `std::for_each` over indices is sequential, as in the source.
- Interpreter.EvaluateChunked: equality with the unchunked evaluation, and so independence from the chunk size and batch width, is proved only for one-leaf trees (`Interpreter.LeafBatchSizeInvariant`). For general trees it is not proved: a kernel is a parameter, an arbitrary function of the whole buffer and the batch range, so nothing forces row `k` of its output to depend only on row `k` of its inputs.
- The `Dual` instantiation of the interpreter is not modelled. In the Jacobian it is a parameter `(seq<Dual>, row) -> Dual` with the tree, dataset and range folded in.
- Dual arithmetic (`dual.hpp`) is not part of this model.
- Tree, dataset and range types are reduced to a node sequence, a column lookup and `(Start, End)`. `Tree::Sort` is abstracted: `Diversity.HashTree` takes the node sequence, and `Diversity.SortedPermutationUnique` shows the node order does not matter.
- `std::sort` is modelled by an in-place insertion sort with the same sorted-permutation contract.
- Integer widths: `size_t`, `int` and `uint32_t` overflow in row counts, offsets and group bounds is not modelled (all are `nat`). The `Node` fields `Arity`, `Length`, `Depth`, `Level` and `Parent` are `uint16_t` in node.hpp:87-91 and are modelled as `nat`, so their 16-bit wrap-around is not modelled. Tags are `bv32` and hashes are bounded 64-bit integers.
- `Intersect1` and `probe_nullintersect_fast` are left out: AVX intrinsics.
- `PopulationDiversityAnalyzer::Prepare` and `operator()` are left out: parallel policies, an atomic double, an external mean/variance calculator and floating-point distances.
- `EvaluateTrees`, `Node::Name`, `Node::Desc` and the `EXPECT` macro are left out: declared only or bodies not shown. The non-empty tree that `EXPECT` demands is a precondition (`0 < |nodes|`).
- The `IsX()` queries other than `IsConstant` and `IsVariable` are not declared separately. Each is `Is(n, {X})`.
- The compound assignments `&=`, `|=` and `^=` rebind their left operand to the result of `And`, `Or` and `Xor`, so they are not separate members.
- `Node`: `Depth`, `Level` and `Parent` are uninitialised by the source constructor and are set to 0 in the model. `Optimize`, read by the interpreter but not shown in the record, is added and starts false.
- `Interpreter.EvalSpec`: its own contract states only the length. The values it denotes are characterised by `Interpreter.SingleLeaf`, `Interpreter.EvalFromStep` and the kernels, which are parameters.
