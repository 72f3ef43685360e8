# MTPNDD in Dafny

MTPNDD is a decision-diagram engine. An internal node belongs to a *field* and maps each child to
a *label*, the set of values of that field under which the child is taken; leaves are exact
fractions. Nodes are unique, so a pointer stands for a function. This project models the engine's
logic and proves what it is for: pointer equality is equality of functions, every operation is the
pointwise operation, and on one thread none of the machinery around that (caches, reference counts,
collection, hash tables, slab pools) can change a result. For concurrent runs it proves that the
unique tables never hold a content twice and that task scheduling and residual updates give the same
edge map in every interleaving, and it says exactly when two things that the code does not rule out
can go wrong: a cache look-up that mixes stores, and a node that is swept before it is referenced.

## How the model is laid out

| file | what it holds |
|---|---|
| `number_theory.dfy`, `fractions.dfy` | gcd, reduced fractions, the 32/64-bit leaf arithmetic |
| `labels.dfy` | field values, labels, finite sums |
| `diagram.dfy` | stores of nodes, well-formedness, meaning, canonicity |
| `edge_algebra.dfy` | adding edges and merging work items in any order |
| `division.dfy` | the quotient at every assignment, zeros of the divisor included |
| `operations.dfy` | pointwise meaning of and/or/plus/minus/times/divide and the loop invariants |
| `liveness.dfy`, `store_steps.dfy`, `collection.dfy` | reference counts, live nodes, caches, the collector's invariants |
| `unprotect.dfy` | the sweep as a function of its order, and what it does after a node is unprotected |
| `engine.dfy` | the engine as a class: mk, counts, collection, caches, the recursive operations |
| `boolean_ops.dfy`, `arithmetic_ops.dfy` | NOT, De Morgan OR, difference, reduction; division and identities |
| `quantify.dfy`, `summing.dfy`, `dependence.dfy` | EXIST, abstract_plus, and which fields a diagram looks at |
| `runs.dfy`, `calculations.dfy` | any sequence of Boolean or arithmetic client calls, collections included, against a reference interpreter |
| `buckets.dfy`, `edge_map.dfy`, `node_table.dfy` | hash buckets that refine maps |
| `table_protocol.dfy`, `cache_protocol.dfy`, `residuals.dfy` | interleaved threads as state machines |
| `scheduling.dfy` | spawning, flushing and draining the items of one level |
| `or_edges.dfy` | OR's whole edge map over all interleavings and merge orders |
| `conversion.dfy`, `satcount.dfy` | MTBDD conversion both ways, satisfying-assignment counting |
| `memory_pool.dfy` | slab pools |

Choices that hold throughout:

- A node id stands for a node pointer. A store maps ids to nodes; field numbers increase along
  edges, which is also the termination measure. A label is the finite set of field values it
  accepts: Sylvan's set operations are taken as exact, and equal sets as equal handles.
- An operand that lies below the top field is presented as one edge to itself under the label
  "true"; this is how the same-field, different-field and leaf-versus-internal branches share one
  proof.
- The engine object has a mode. Boolean runs and arithmetic runs do not mix, because the two
  binary caches are shared (`mtpndd/mtpndd_common.h:335-340`); `OrIsPlusWhenApart` says exactly
  when a mixed hit would be right. Collections inside an operation happen in Boolean runs only,
  because leaf collection does not see leaves held by an edge map under construction.
- The reference-count invariant is "at least": the residual clones of OR raise counts that are
  never lowered. Collection is safe under it. Every other operation keeps counts exact, and none
  becomes sticky unless a node really has UINT32_MAX references and edges, which the ghost field
  `peak` records. So arithmetic runs, and Boolean runs without OR, that stay below that leave after a
  collection exactly the nodes that can be reached from references.
- The order in which buckets list the edges of a node is any function of the edge map. Only the
  failure of abstract_plus depends on it.
- C atomics are sequentially consistent steps. SPAWN/SYNC is "run in any order, collect last in
  first out".

Where the code and its comments or promises differ, the code is followed:

- The MTBDD conversion is right for a field exactly when the field starts at or after the greatest
  width or ends there (`FieldFaithfulIff`), and for all diagrams exactly when field 1 has the greatest
  width (`FaithfulIffFirstWidest`); `Misread` gives the failing diagram for every other field.
- A cache look-up can return a result for operands that were never stored together: the seqlock
  compares results, not versions. `SoundIffMixed` says exactly for which stores of a slot no run gives
  a wrong answer, given which operands hash to it, and `MixedHit` gives the run that does otherwise.
  A slot is safe only if all its stores have one result (`UnarySoundIff`, `BinarySoundIff`).
- The sweep looks at counts only and stops no worker (`mtpndd/mtpndd_nodetable.c:572-601, 660-687`),
  so a thread can lose a node between its return from mk and its first reference. That a handed-out
  node stays is an assumption the source does not enforce: `HeldNodeReplaced` is the failing run, and
  `SameNodeIffNotReclaimed` says exactly when two calls return one node. Uniqueness does not need
  the assumption (`NoDuplicates`).
- The fraction constructor rejects some representable values (`NormalizeRejectsRepresentable`).
- A quotient is not zero at every zero of the divisor: equal nodes divide to 1 without a look at
  their values (`mtpndd/mtpndd_arith.c:1211`), on top and at every pair of children. It is zero there
  exactly when no node with zeros is shared at the same place (`ZeroExtendedIff`). `SelfQuotient` is
  the case of equal operands, `OneOverZero` a failing pair of different ones.
- Unprotecting a node stores count zero whatever refers to it. The next sweep is safe exactly when
  nothing refers to the node or the sweep takes one of its parents first, which wraps the count to the
  sticky value (`UnprotectSafeIff`, on the counts before the call); with exact counts that is a dead
  parent (`UnprotectSafeIffDeadParent`). `UnprotectLoses` is a losing state.
- Leaves are commented as living as long as the engine (`mtpndd/mtpndd_leaf_table.c:137`), but a
  collection frees every leaf without a parent in a table, and references on leaves do nothing. A
  client keeps a leaf exactly if it is a sentinel or a node that can be reached points to it
  (`DoCollect`, `RegReached`); `ConstantLost` is the run that loses one.
- The difference does not reference the complement it ANDs with (`mtpndd/mtpndd_node.c:1918-1922`). A
  collection at that point takes it exactly when no live node was the complement before (`DiffGap`).
- abstract_plus adds children in bucket order, so that order decides whether it overflows
  (`OrderMatters`); `AbstractPlus` says exactly when it fails in a given order, `FailsOverflows` when it
  cannot fail in any.

## Model

| member | source | states |
|---|---|---|
| `Diagram.Canonicity` | mtpndd/mtpndd_nodetable.c:295-521 | two nodes of a well-formed store denote the same function of the field assignments if and only if they are the same node, whatever their top fields |
| `Diagram.CanonicityAbove` | mtpndd/mtpndd_nodetable.c:353-377 | a node never denotes the same function as a node of a deeper field, because a single edge labelled true is never built |
| `Diagram.EvalLocal` | mtpndd/mtpndd_node.c:2549-2608 | a diagram's value depends on its own field and deeper ones only |
| `Diagram.NonZeroSomewhere` | mtpndd/mtpndd_nodetable.c:353-360 | every node but FALSE is non-zero at some assignment |
| `EdgeAlgebra.AddEdgeChild` | mtpndd/mtpndd_node.c:449-525 | adding a label over fresh values decides the child exactly there; edges to FALSE vanish |
| `EdgeAlgebra.AddEdgeWf` | mtpndd/mtpndd_node.c:449-525 | adding over fresh values keeps labels disjoint and non-empty and children deeper |
| `EdgeAlgebra.MergeOrderIrrelevant` | mtpndd/mtpndd_node.c:746-813 | merging the same work items in any order gives the same edge map |
| `Fractions.GcdU32` | mtpndd/mtpndd_leaf.c:17-26 | the 32-bit loop computes the gcd |
| `Fractions.GcdU64` | mtpndd/mtpndd_arith.c:91-98 | the 64-bit loop computes the gcd |
| `Fractions.Normalize` | mtpndd/mtpndd_leaf.c:28-79 | the result is the exact value in lowest terms with positive denominator; it fails exactly on a zero denominator, an unflippable INT32_MIN numerator, or a reduced numerator that does not fit; the denominator leaves int32 only for argument INT32_MIN |
| `Fractions.NormalizeRejectsRepresentable` | mtpndd/mtpndd_leaf.c:59 | INT32_MIN / -2 is rejected although 2^30 is representable |
| `Fractions.AcceptsIffRepresentable` | mtpndd/mtpndd_leaf.c:28-79 | apart from a negative denominator with numerator INT32_MIN, acceptance is exactly representability (denominator INT32_MIN set aside) |
| `Fractions.CanonicalUnique` | mtpndd/mtpndd_leaf.c:81-96 | equal values have equal canonical fractions |
| `Fractions.PackRoundTrip` | mtpndd/mtpndd_leaf.h:17-27 | unpacking returns the numerator and denominator that were packed |
| `Fractions.PackKeysValues` | mtpndd/mtpndd_leaf.h:17-27 | canonical fractions pack to the same key if and only if their values are equal |
| `Fractions.MakeFractionI64` | mtpndd/mtpndd_arith.c:103-128 | succeeds exactly when the value has an int32 form, and is exact; no intermediate leaves its machine type |
| `Fractions.LeafAdd` | mtpndd/mtpndd_arith.c:145-155 | exact sum, failing exactly when it is not representable, without int64 overflow |
| `Fractions.LeafSub` | mtpndd/mtpndd_arith.c:157-167 | exact difference, failing exactly when it is not representable, without int64 overflow |
| `Fractions.LeafMul` | mtpndd/mtpndd_arith.c:169-179 | exact product, failing exactly when it is not representable, without int64 overflow |
| `Fractions.LeafDiv` | mtpndd/mtpndd_arith.c:181-199 | exact quotient, failing exactly on a zero divisor or an unrepresentable quotient, without int64 overflow |
| `Fractions.LeafNegate` | mtpndd/mtpndd_arith.c:305-314 | exact negation; it never fails on a canonical fraction |
| `NumberTheory.LowestTermsSmallest` | mtpndd/mtpndd_leaf.c:70-78 | a reduced fraction has the smallest parts among all fractions of its value |
| `Operations.FastPathSound` | mtpndd/mtpndd_node.c:953-961 | every operand shortcut returns the pointwise result |
| `Operations.BuiltComputes` | mtpndd/mtpndd_node.c:1010-1044 | an edge map that is right on every intersection and residual region denotes the operation on the operands |
| `Operations.ConflictUndefined` | mtpndd/mtpndd_arith.c:1200-1331 | a dividend with values outside the divisor's support has no quotient |
| `Operations.RegionLeft` | mtpndd/mtpndd_node.c:1479-1494 | where only the first operand has an edge is its label minus the other's whole support |
| `Engines.Engine.constructor` | mtpndd/mtpndd_common.c:260-382 | a new engine holds the two sentinels and is valid |
| `Engines.Engine.MkLeaf` | mtpndd/mtpndd_leaf_table.c:111-168 | the leaf of a fraction is found or inserted; one leaf per value |
| `Engines.Engine.Mk` | mtpndd/mtpndd_nodetable.c:295-521 | the returned node denotes the given edges; empty maps give FALSE, one edge labelled true gives its child; a node it adds has count zero and nothing refers to it; the store stays well formed and unique, references are balanced, counts stay exact, the peak of references rises at most to the load of a child, and nothing live is lost if a collection runs inside |
| `Engines.Engine.Insert` | mtpndd/mtpndd_nodetable.c:412-506 | children are referenced before a collection may run, the references become the new node's edges, and the new node has count zero |
| `Engines.Engine.Pin` | mtpndd/mtpndd_nodetable.c:251-262 | taking a reference raises exactly that count, makes the node live and keeps all counts covering and exact; a count becomes sticky only if the node really has UINT32_MAX references and edges |
| `Engines.Engine.Unpin` | mtpndd/mtpndd_node.c:261-269 | giving back held references keeps all counts covering, and exact or sticky if they were |
| `Engines.Engine.Sweep` | mtpndd/mtpndd_nodetable.c:660-687 | one ascending pass reclaims dead nodes only and leaves no internal node with count zero |
| `Engines.Engine.SweepNode` | mtpndd/mtpndd_nodetable.c:622-658 | a node is reclaimed exactly when its count is zero, and its children lose one reference each |
| `Engines.Engine.MarkLeaves` | mtpndd/mtpndd_leaf_table.c:244-274 | marks exactly the sentinels and the leaves some table node points to |
| `Engines.Engine.SweepLeaves` | mtpndd/mtpndd_leaf_table.c:215-242 | the leaves that remain are exactly the marked ones |
| `Engines.Engine.Collect` | mtpndd/mtpndd_nodetable.c:541-601 | a collection keeps everything that can be reached from references and sticky nodes with its content, leaves no zero count, keeps exactly the sentinels and pointed-to leaves, and leaves every cache slot empty; unless an OR has raised counts exactly the nodes that could be reached remain, and if no node has had UINT32_MAX references and edges exactly those reached from references |
| `Engines.Engine.CacheGet` | mtpndd/mtpndd_operation_cache.c:138-173 | a look-up hits exactly if the slot of the ordered operands holds them, and a hit is a right answer for the operands in either order |
| `Engines.Engine.CachePut` | mtpndd/mtpndd_operation_cache.c:175-203 | after storing a right answer the slot holds it, no other slot has changed, and every slot is right |
| `Engines.Engine.Apply` | mtpndd/mtpndd_node.c:950-1158 | and/or/plus/minus/times/divide: a node is returned exactly when every pointwise result exists (and a divisor is not FALSE); it denotes the pointwise result, for divide also at the zeros of the divisor; references, counts, caches and live nodes are kept, with collections inside; every operation but OR leaves counts exact or sticky if they were |
| `Engines.Engine.LeafOp` | mtpndd/mtpndd_arith.c:145-199 | leaf arithmetic through the canonical leaf table |
| `Engines.Engine.Build` | mtpndd/mtpndd_arith.c:670-833 | the recursive case for same-field, different-field and leaf-versus-internal operands |
| `Engines.Engine.CloneResiduals` | mtpndd/mtpndd_node.c:328-331 | cloning the residual maps of an OR raises the count of every internal child by the number of the two maps it is in, up to the sticky count, and no other; it alone makes counts inexact |
| `Engines.Engine.Negate` | mtpndd/mtpndd_arith.c:305-356 | pointwise negation; it never fails |
| `Engines.Engine.ResidualLeft` | mtpndd/mtpndd_arith.c:719-733 | residuals of the first operand keep its children under label minus the other support |
| `Engines.Engine.ResidualRight` | mtpndd/mtpndd_arith.c:734-749 | residuals of the second operand keep its children, or their negation for minus |
| `Liveness.LinkOk` | mtpndd/mtpndd_nodetable.c:418-506 | linking a node turns the references taken on its children into edges; counts stay covering |
| `Liveness.ReleaseOk` | mtpndd/mtpndd_nodetable.c:622-658 | reclaiming a node with count zero keeps the store well formed, counts covering and all live nodes |
| `Liveness.ExactLive` | mtpndd/mtpndd_nodetable.c:660-687 | with exact or sticky counts and no zero count every internal node can be reached from references and sticky nodes |
| `Unprotect.SweepPass` | mtpndd/mtpndd_nodetable.c:660-687 | the ascending pass, with the nodes of a field in any order, is the fold of single visits over an order that lists every internal node once, whatever the counts are |
| `Unprotect.SweepTakes` | mtpndd/mtpndd_nodetable.c:660-687 | above the unprotected node a full ascending sweep takes exactly the nodes whose count equals the number of their parents that it takes, a condition on the counts before the sweep |
| `Unprotect.UnprotectSafeIff` | mtpndd/mtpndd_nodetable.c:286-293 | with covering counts, a full sweep after unprotecting a node dangles no edge and loses no live node if and only if nothing referred to the node, or one of its parents is a node the sweep takes by the counts before the call; the deref then wraps the zero count to the sticky one |
| `Unprotect.UnprotectSafeIffDeadParent` | mtpndd/mtpndd_nodetable.c:286-293 | with counts elsewhere exact or sticky, that is if and only if nothing refers to the node or one of its parents cannot be reached from references and sticky nodes |
| `Unprotect.UnprotectLoses` | mtpndd/mtpndd_nodetable.c:286-293 | a store whose protected node has two referenced parents: the sweep after unprotecting it, in any order, is not safe |
| `Unprotect.UnprotectSpared` | mtpndd/mtpndd_nodetable.c:269-293 | the same store with one parent dead: the same call loses nothing |
| `Collection.SweptRelease` | mtpndd/mtpndd_nodetable.c:660-687 | reclaiming in ascending field order never zeroes a count the pass has already left behind |
| `Collection.CollectedSafe` | mtpndd/mtpndd_nodetable.c:572-601 | after a collection no edge points to a reclaimed node, and live nodes mean what they meant |
| `Collection.CollectedExact` | mtpndd/mtpndd_nodetable.c:572-601 | with exact or sticky counts the survivors are exactly the nodes reached from references and sticky nodes |
| `StoreSteps.CacheKept` | mtpndd/mtpndd_nodetable.c:541-558 | cached answers stay right while the store grows |
| `StoreSteps.KeyIffValue` | mtpndd/mtpndd_leaf_table.c:111-168 | stored fractions are equal exactly when leaf values are |
| `BooleanOps.Not` | mtpndd/mtpndd_node.c:1701-1789 | pointwise complement, left in its own cache |
| `BooleanOps.ResultUnique` | mtpndd/mtpndd_node.c:1142 | for all six operations, quotients by diagrams with zeros included, operands determine the result node, so caching, scheduling and the choice of algorithm cannot change it |
| `BooleanOps.NotNot` | mtpndd/mtpndd_node.c:1701-1789 | complementing twice returns the same node |
| `BooleanOps.OrDeMorgan` | mtpndd/mtpndd_node.c:1934-1962 | the De Morgan form denotes the disjunction, with intermediates referenced throughout |
| `BooleanOps.DeMorganSameNode` | mtpndd/mtpndd_node.c:1934-1962 | the De Morgan form and OR return the same node |
| `BooleanOps.Diff` | mtpndd/mtpndd_node.c:1905-1924 | a and not b at every assignment; where a collection may run inside, a kept node has to be the complement of b already |
| `BooleanOps.DiffGap` | mtpndd/mtpndd_node.c:1918-1922 | a collection between the NOT and the AND takes the unreferenced complement if and only if no live node was the complement before the call (sticky and raised counts aside) |
| `BooleanOps.Reduce` | mtpndd/mtpndd_node.c:1964-2011 | tree reduction denotes the conjunction or disjunction of the whole list, the empty list included |
| `BooleanOps.ReduceIsLeftFold` | mtpndd/mtpndd_node.c:1964-2011 | tree reduction returns the node that folding the list from the left returns |
| `BooleanOps.AndIsTimes` | mtpndd/mtpndd_arith.c:1067-1072 | on 0/1 diagrams an answer for AND is an answer for TIMES and conversely |
| `BooleanOps.OrIsPlusWhenApart` | mtpndd/mtpndd_arith.c:846-851 | an answer for OR is an answer for PLUS exactly when the operands are nowhere both non-zero |
| `ArithmeticOps.Quotient` | mtpndd/mtpndd_arith.c:1200-1331 | division succeeds exactly when the divisor is not FALSE, the dividend is zero wherever the divisor is, and every quotient is representable; then it is exact wherever the divisor is non-zero, and at every assignment what the walk down both diagrams gives |
| `Division.QuotExact` | mtpndd/mtpndd_arith.c:1200-1331 | where the divisor is not zero the walk down both diagrams gives the ratio of their values |
| `Division.QuotAtZero` | mtpndd/mtpndd_arith.c:1209-1214 | where both are zero the walk gives one if it meets two equal nodes before a FALSE edge, and zero if it does not |
| `Division.OneAtZeroIffShared` | mtpndd/mtpndd_arith.c:1256-1262 | the quotient is one at some zero of the divisor if and only if dividend and divisor share, at the same place, a node that has zeros |
| `Division.QuotAtIs` | mtpndd/mtpndd_arith.c:1200-1331 | the walk depends on the two functions only: fix the fields one after the other until one function is constantly 0, the divisor constantly 1, or the two agree |
| `ArithmeticOps.ZeroExtendedIff` | mtpndd/mtpndd_arith.c:1209-1262 | a computed quotient is zero wherever the divisor is if and only if no node with zeros is shared at the same place |
| `ArithmeticOps.OneOverZero` | mtpndd/mtpndd_arith.c:1256-1262 | two different nodes that share a deeper node with zeros: the division succeeds, and the quotient is one where both are zero |
| `ArithmeticOps.SelfQuotient` | mtpndd/mtpndd_arith.c:1211 | whatever node is right for a divided by itself is TRUE, and it is zero at the zeros of a if and only if a has none |
| `ArithmeticOps.PlusThenMinus` | mtpndd/mtpndd_arith.c:838-1054 | subtracting what was added returns the same node |
| `ArithmeticOps.TimesThenDivide` | mtpndd/mtpndd_arith.c:1059-1331 | dividing a product by a factor without zeros returns the other factor's node |
| `ArithmeticOps.Distributes` | mtpndd/mtpndd_arith.c:838-1198 | a*(b+c) and a*b + a*c are the same node |
| `Quantify.Exist` | mtpndd/mtpndd_node.c:1794-1860 | existential quantification of one field, in all positions of the field |
| `Summing.AbstractPlus` | mtpndd/mtpndd_arith.c:1392-1508 | when it returns a node, the node denotes the sum over all values of the field at every assignment of the rest, in all four cases; it fails if and only if, before the call, a node that skips the field has an unrepresentable scaled value or more than 30 bits to scale by, or a node of the field has, in bucket order, a label too large, an unrepresentable weighted child or an unrepresentable partial sum |
| `Summing.FailsOverflows` | mtpndd/mtpndd_arith.c:1413-1461 | on at most 30 bits, whatever the bucket order, it fails only if the diagram's own sum over some set of values of the field is not representable at some assignment of the rest |
| `Summing.OrderMatters` | mtpndd/mtpndd_arith.c:1413-1461 | a node with leaves INT32_MAX, 1 and -1 on which one bucket order fails and another succeeds |
| `Summing.ScaleByField` | mtpndd/mtpndd_arith.c:1378-1411 | a skipped field multiplies by the number of its values; it fails if and only if the field has more than 30 bits or a scaled value is not representable |
| `Summing.SumAll` | mtpndd/mtpndd_arith.c:1413-1461 | the children weighted by label sizes add up to the sum over the labels; it fails if and only if some edge in the list has a label larger than INT32_MAX, an unrepresentable weighted child, or an unrepresentable sum with the edges before it |
| `Dependence.MentionsIffDepends` | mtpndd/mtpndd_arith.c:1392-1508 | a node of field t is reachable if and only if the function depends on field t |
| `Dependence.QuantifiedGone` | mtpndd/mtpndd_arith.c:1392-1508 | the result of abstract_plus or EXIST contains no node of the quantified field |
| `Runs.Run` | mtpndd/mtpndd_node.c:1865-1903 | after any sequence of literal, AND, OR, NOT, drop and collect calls every register denotes what a reference without nodes computes; a run without OR that ends with a collection leaves exactly the nodes reachable from references, if no node has had UINT32_MAX references and edges |
| `Runs.SameRegister` | mtpndd/mtpndd_nodetable.c:295-521 | after any run two registers hold the same node if and only if the reference gives them the same value everywhere |
| `Calculations.Calculate` | mtpndd/mtpndd_arith.c:1336-1364 | any list of constants, indicators, plus, minus, times, divide, abstract_plus, drops and collections follows a reference of plain functions up to the first call that has no result or names a register that holds nothing; every call before that has a result in the reference; after a final collection the engine holds exactly the nodes reachable from references, if no node has had UINT32_MAX references and edges |
| `Calculations.Do` | mtpndd/mtpndd_arith.c:1336-1364 | one call: it dangles exactly on an empty register, and otherwise fails exactly when the reference has no result, or for abstract_plus exactly when the diagram fails in bucket order; it moves the registers as the call says |
| `Calculations.DoCollect` | mtpndd/mtpndd_leaf_table.c:215-274 | a collection leaves exactly the nodes that could be reached before it from references and sticky nodes; every register left denotes what it did |
| `Calculations.RegReached` | mtpndd/mtpndd_leaf_table.c:244-274 | a client's internal node is always reached; its leaf is reached if and only if it is a sentinel or a reached node points to it |
| `Calculations.ConstantLost` | mtpndd/mtpndd_leaf_table.c:137-242 | a new constant that no diagram contains is taken by the next collection although the client holds it |
| `Calculations.QuotientFn` | mtpndd/mtpndd_arith.c:1200-1331 | the quotient of two nodes is a function of the functions they denote |
| `Calculations.SameRegister` | mtpndd/mtpndd_arith.c:1336-1364 | at any point of a run two registers that hold nodes hold the same node if and only if their exact values agree everywhere |
| `Buckets.MaskIsMod` | mtpndd/mtpndd_node.c:399-404 | masking with 2^k - 1, as look-up does, is the remainder modulo 2^k, as rehash does |
| `Buckets.Respread` | mtpndd/mtpndd_nodetable.c:689-729 | rehashing into any power of two holds the same map, each key once in the bucket its hash selects |
| `EdgeMaps.EdgeMap.constructor` | mtpndd/mtpndd_node.c:271-282 | a fresh edge map is empty |
| `EdgeMaps.EdgeMap.Find` | mtpndd/mtpndd_node.c:432-447 | look-up in the buckets is look-up in the map |
| `EdgeMaps.EdgeMap.Add` | mtpndd/mtpndd_node.c:449-525 | the buckets refine the child-to-label map: labels of one child are united, FALSE is dropped, growth changes nothing and keeps the map less than seven eighths full |
| `EdgeMaps.EdgeMap.Rehash` | mtpndd/mtpndd_node.c:384-418 | rehashing keeps the content |
| `EdgeMaps.EdgeMap.ComputeHash` | mtpndd/mtpndd_node.h:86-103 | the hash is a function of the content alone |
| `EdgeMaps.XorPermuted` | mtpndd/mtpndd_node.h:79-103 | the combined hash does not depend on the order of entries |
| `EdgeMaps.EdgesEqual` | mtpndd/mtpndd_nodetable.h:58-148 | on hashed maps the comparison holds exactly when the contents are equal, however the maps were built |
| `NodeTables.NodeTable.Find` | mtpndd/mtpndd_nodetable.c:198-246 | look-up by content |
| `NodeTables.NodeTable.FindOrLink` | mtpndd/mtpndd_nodetable.c:461-506 | re-check and insert: the existing node if the content is there, else the new one; no other entry changes; growth keeps the table less than three quarters full |
| `NodeTables.NodeTable.Rehash` | mtpndd/mtpndd_nodetable.c:689-729 | rehashing keeps the content |
| `NodeTables.NodeTable.Release` | mtpndd/mtpndd_nodetable.c:622-630 | unlinking an entry removes exactly its content |
| `TableProtocol.SameBucketSameLock` | mtpndd/mtpndd_nodetable.c:38-41 | two hashes that share a bucket share a lock |
| `TableProtocol.StepKeepsInv` | mtpndd/mtpndd_nodetable.c:454-506 | every step of every thread, a sweep of nodes that threads hold and a rehash to fewer buckets included, keeps: buckets hold the map, scans and inserts own their shard |
| `TableProtocol.RelinkedHolds` | mtpndd/mtpndd_nodetable.c:689-729 | rehash under all locks represents the same map |
| `TableProtocol.NoDuplicates` | mtpndd/mtpndd_nodetable.c:461-506 | in no state of any interleaving, whatever sweeps reclaim and to whatever size the table is rehashed, does the table hold two entries with equal content |
| `TableProtocol.ReturnInTable` | mtpndd/mtpndd_nodetable.c:198-246 | the node mk returns is the table's node of that content at that moment |
| `TableProtocol.SameNodeIffNotReclaimed` | mtpndd/mtpndd_nodetable.c:295-521 | two calls of mk with the same content, by any threads of any run, return the same node if and only if that content was not reclaimed between the two returns |
| `TableProtocol.HeldNodeReplaced` | mtpndd/mtpndd_nodetable.c:622-687 | a run in which a thread's node is swept before it is referenced and another thread is given a second node of the same content |
| `TableProtocol.CanStep` | mtpndd/mtpndd_nodetable.c:454-506 | in every state a thread that scans, links or has missed with its lock free has a step |
| `TableProtocol.AloneReturns` | mtpndd/mtpndd_nodetable.c:454-506 | a thread in mk that no other interrupts can always go on, for at most two scans of its chain and four steps, and leaves mk with the table's node if the content is there and a new one that it links if not |
| `TableProtocol.NoDeadlock` | mtpndd/mtpndd_nodetable.c:53-66 | in every state of every run, if some thread has begun and not finished something, such a thread has a step: shard locks and taking all locks do not deadlock |
| `TableProtocol.BothMissedSameNode` | mtpndd/mtpndd_nodetable.c:461-495 | a run in which two threads both miss the same content and the second gets the node the first has linked |
| `TableProtocol.CanRehash` | mtpndd/mtpndd_nodetable.c:689-729 | with all locks held a rehash to any size the locks allow is possible and leaves the table as it is |
| `TableProtocol.CanReclaim` | mtpndd/mtpndd_nodetable.c:660-687 | with all locks held any content can be reclaimed, and no other content changes |
| `CacheProtocol.StepKeepsInv` | mtpndd/mtpndd_operation_cache.c:138-253 | every step on a slot of a binary or unary cache keeps: an unlocked slot is the last publication, and a reader that was not overtaken has read the slot |
| `CacheProtocol.HitIsOneStore` | mtpndd/mtpndd_operation_cache.c:138-173 | a hit returns operands and result of one store, unless its result was published again between its two reads of the result |
| `CacheProtocol.SoundIffMixed` | mtpndd/mtpndd_operation_cache.c:68-83 | for a slot and the operands that hash to it: every hit of every run whose stores come from a set is a right answer if and only if every mixture (first operand of one store, second of another, result of a third) whose operands come to this slot is a right answer; for binary and unary caches |
| `CacheProtocol.MixedHit` | mtpndd/mtpndd_operation_cache.c:145-173 | for any three stores, if the first operand of one and the second of another hash to the slot, a run in which their look-up hits with the result of the third |
| `CacheProtocol.UnarySoundIff` | mtpndd/mtpndd_operation_cache.c:205-253 | a slot of the NOT cache that stores right answers never gives a wrong one if and only if all its stores have one result |
| `CacheProtocol.BinarySoundIff` | mtpndd/mtpndd_operation_cache.c:138-203 | a slot of a binary cache that stores right answers never gives a wrong one if and only if all its stores have one result, and operands mixed from two stores hash elsewhere or have that result too |
| `CacheProtocol.WritersExclusive` | mtpndd/mtpndd_operation_cache.c:17-28 | two writers are never at work on a slot together |
| `CacheProtocol.HitAfterClear` | mtpndd/mtpndd_operation_cache.c:125-136 | in every run, a look-up whose first read comes after a clear is over hits only with a result that a store has published after that clear emptied the slot |
| `CacheProtocol.MissAfterClear` | mtpndd/mtpndd_operation_cache.c:125-173 | with no store published since the clear began, such a look-up does not hit |
| `CacheProtocol.ClearedMiss` | mtpndd/mtpndd_operation_cache.c:125-152 | a run in which a result is stored, the slot cleared, and the next look-up of its operands misses |
| `CacheProtocol.CanStep` | mtpndd/mtpndd_operation_cache.c:17-28 | a look-up always has a step, and a store or clear is held up only by another writer before it writes; both end after at most five steps of their own |
| `CacheProtocol.StepsAgree` | mtpndd/mtpndd_operation_cache.c:138-173 | the slot decides each step: a look-up hits exactly when the result is unchanged and the operands are those asked for |
| `Residuals.FinishedCells` | mtpndd/mtpndd_node.c:1160-1177 | after any interleaving of load and compare-and-swap steps a label has lost exactly the regions of the tasks that touch it |
| `Residuals.CanFinish` | mtpndd/mtpndd_node.c:1160-1177 | every run extends to one in which all tasks have come back |
| `Residuals.OrCanFinish` | mtpndd/mtpndd_node.c:1189-1228 | every same-field OR has a finished run |
| `Residuals.RestCanFinish` | mtpndd/mtpndd_node.c:1230-1268 | so has every level with a single residual |
| `Residuals.OrResidualLeft` | mtpndd/mtpndd_node.c:1189-1228 | in every interleaving the first operand's residuals are its labels minus the other's whole support |
| `Residuals.OrResidualRight` | mtpndd/mtpndd_node.c:1189-1228 | in every interleaving the second operand's residuals are its labels minus the other's whole support |
| `Residuals.RestResidual` | mtpndd/mtpndd_node.c:1230-1268 | the single residual of a different-field OR, or of NOT, ends as the field minus the support |
| `OrEdges.OrEdgesUnique` | mtpndd/mtpndd_node.c:1369-1593 | for every interleaving of the tasks and every order of merging, intersections and both residual maps together give OR the same edge map |
| `OrEdges.MergedBuilt` | mtpndd/mtpndd_node.c:746-813 | items that are right on their regions, merged in any order, make a well-formed edge map that is right on every region |
| `OrEdges.OrEdgesBuilt` | mtpndd/mtpndd_node.c:1369-1593 | in every interleaving and merge order, a same-field OR whose recursion is right on the children builds a map that is OR on every region |
| `OrEdges.OrRestBuilt` | mtpndd/mtpndd_node.c:1230-1268 | the same for a different-field OR with its single residual |
| `OrEdges.NotRestBuilt` | mtpndd/mtpndd_node.c:1701-1789 | the same for NOT, whose residual goes to TRUE |
| `Scheduling.Schedule` | mtpndd/mtpndd_node.c:1010-1044 | each pair is merged exactly once, pending items never exceed the threshold, and the edge map is that of the plain loop, whatever is spawned |
| `Scheduling.TwoPhase` | mtpndd/mtpndd_node.c:826-948 | each surviving pair is merged exactly once, and the edge map is that of the single pass |
| `Scheduling.SameEdges` | mtpndd/mtpndd_node.c:1010-1044 | the order in which buckets list the pairs does not change the edge map |
| `Scheduling.ScheduledBuilt` | mtpndd/mtpndd_node.c:620-707 | if the recursion is right on the children, the merged edge map is right on every region |
| `Conversion.FindField` | mtpndd/mtpndd_node.c:2266-2277 | the field that owns an expanded variable, or none |
| `Conversion.BitOfField` | mtpndd/mtpndd_node.c:2258-2264 | variable start + j is bit j of its field |
| `Conversion.FromMtbdd` | mtpndd/mtpndd_node.c:2465-2512 | the diagram of a BDD denotes it; conversion fails exactly when some variable belongs to no field |
| `Conversion.Gather` | mtpndd/mtpndd_node.c:2408-2463 | the cubes walked over one field give each field value the diagram of the BDD restricted to it |
| `Conversion.ToMtbdd` | mtpndd/mtpndd_node.c:2305-2372 | the loop over edges computes the union of mapped labels with converted children |
| `Conversion.BitIsVariable` | mtpndd/mtpndd_node.c:2279-2303 | for every layout the BDD of the node of bit j of field f is the single variable start(f) + j if the field starts at or after the greatest width, and max - width(f) + j if it starts before |
| `Conversion.FieldFaithfulIff` | mtpndd/mtpndd_node.c:2279-2303 | every node of field f over TRUE converts to a BDD that means the same if and only if the field starts at or after the greatest width or ends exactly there |
| `Conversion.FaithfulIffFirstWidest` | mtpndd/mtpndd_node.c:2279-2303 | the BDD means what the diagram means, for all diagrams, if and only if it does for every field, and if and only if field 1 has the greatest width |
| `Conversion.Misread` | mtpndd/mtpndd_node.c:2288-2290 | the node of the first bit of any field that is not so placed is converted to another variable |
| `Conversion.RoundTripBdd` | mtpndd/mtpndd_node.c:2374-2539 | BDD to diagram to BDD is the identity when field 1 is widest |
| `Conversion.RoundTripNode` | mtpndd/mtpndd_node.c:2374-2539 | diagram to BDD to diagram is the same node when field 1 is widest |
| `Satcount.SatcountOf` | mtpndd/mtpndd_node.c:2610-2614 | satcount is the number of full assignments at which the diagram is non-zero |
| `Satcount.CountFrom` | mtpndd/mtpndd_node.c:2549-2608 | the walk counts the assignments of the remaining fields, with skipped fields and leaves |
| `Satcount.CountEdges` | mtpndd/mtpndd_node.c:2580-2604 | each edge contributes its label's size times its child's count |
| `Satcount.DivisionExact` | mtpndd/mtpndd_node.c:2582-2599 | dividing a label's count over the shared variables by 2^(max - width) gives the label's size |
| `Satcount.PaddedIs` | mtpndd/mtpndd_common.c:330-342 | a right-aligned label over the shared variables leaves the leading variables free |
| `Satcount.CountSplits` | mtpndd/mtpndd_node.c:2580-2608 | the count is the sum of the counts over the values of the next field |
| `MemoryPool.Pool.Grow` | mtpndd/mtpndd_memory_pool.c:120-142 | the objects of a new slab go in front of the global list, and every object of every slab stays in exactly one place |
| `MemoryPool.Pool.Refill` | mtpndd/mtpndd_memory_pool.c:144-168 | an empty local list gets the first batch of the global list, grown if empty, in reverse order; nothing else changes |
| `MemoryPool.Pool.Spill` | mtpndd/mtpndd_memory_pool.c:170-185 | the front of a list that is one too long, up to a batch and down to half the bound, goes to the global list in reverse order; nothing else changes |
| `MemoryPool.Pool.Acquire` | mtpndd/mtpndd_memory_pool.c:187-205 | the object is the head of the worker's list, refilled if empty, and was in no client's hands; which lists change and how, partition, bounds and counters are stated |
| `MemoryPool.Pool.Release` | mtpndd/mtpndd_memory_pool.c:225-241 | any worker may release: the object goes in front of that worker's list, of which a batch is spilled if it is too long; no object is lost, partition, bounds and counters are kept |
| `MemoryPool.Pool.AcquireGlobal` | mtpndd/mtpndd_memory_pool.c:207-222 | without a worker the object is the head of the global list, grown if empty |
| `MemoryPool.Pool.ReleaseGlobal` | mtpndd/mtpndd_memory_pool.c:243-248 | without a worker the object goes in front of the global list |
| `MemoryPool.Pool.NothingLost` | mtpndd/mtpndd_memory_pool.c:120-248 | at any time the global list, the local lists and the clients together hold exactly slabs * objects per slab objects |
| `MemoryPool.Pool.InUse` | mtpndd/mtpndd_memory_pool.c:331-339 | the reported total is never below the number of objects in clients' hands |

## Left out

- Double leaves (`mtpndd/mtpndd_leaf.c:98-108`): floating point, and a double zero is not FALSE, so canonicity does not apply to them.
- Out-of-memory and task-cancellation paths, and the reference bookkeeping of BDD labels: they add branches without changing what is computed. An operation here fails only for the arithmetic reasons it states.
- Sylvan and Lace internals; labels are finite sets and tasks are schedules.
- C memory orders: atomics are sequentially consistent steps.
- Collection inside arithmetic operations: leaves held only by an edge map under construction are not protected there (`mtpndd/mtpndd_leaf_table.c:244-274`), so arithmetic runs collect between operations only (`Calculations.Calculate` does, at any point).
- BooleanOps.Diff: the complement is not referenced in the source (`mtpndd/mtpndd_node.c:1918-1922`), so where a collection may run inside, its meaning is stated for operands whose complement is live already; otherwise `DiffGap` shows the complement lost.
- Quantify.Exist: partial results are not referenced in the source (`mtpndd/mtpndd_node.c:1815-1830`), so its meaning is stated with no collection in between, and for a declared field.
- Fractions.AcceptsIffRepresentable: leaves out denominator INT32_MIN, for which the constructor can store a denominator that the signed getter cannot return (`mtpndd/mtpndd_leaf.c:34-58, 127-130`); Normalize covers that argument.
- Fractions.MakeFractionI64: leaves out INT64_MIN arguments, whose negation is undefined in C; no leaf operation produces one.
- Calculations.Calculate: its reference knows functions and no bucket order, so over a whole list it promises success of abstract_plus only where no set of values of the field overflows; Calculations.Do states the exact condition for one call.
- The memo tables of the two conversions (`mtpndd/mtpndd_node.c:2060-2256`): each maps a handle to a result that canonicity makes unique.
- Conversion.FromMtbdd: the converted children are not referenced in the source (`mtpndd/mtpndd_node.c:2424-2435`), so it is stated for engines that do not collect inside mk.
- Conversion.Gather: the same children are collected here, so the same holds.
- Conversion.ToMtbdd: is given the set of all assignments as the BDD "true".
- The table mutexes that serialise rehashing (`mtpndd/mtpndd_nodetable.c:731-749`): uniqueness needs the shard locks only. Rehash and reclaiming an entry are one step each, since they run under all locks. A node id stands for one life of a node: memory that is handed out again counts as another id.
- The bit trick that rounds a bucket count up to a power of two (`mtpndd/mtpndd_common.h:68-81`): the model uses the smallest power of two directly. Hash words are naturals, not wrapped at 64 bits; only their bitwise structure is used.
- The leaf table's buckets (`mtpndd/mtpndd_leaf_table.c:17-109`): the same chains as the node table; the engine keeps leaves in its store, keyed by their fraction.
- Edge-map cloning into a different bucket array, and edge-map pooling.
- The validator of label supports and the leaf counter (`mtpndd/mtpndd_arith.c:1539-1715`): reachability walks.
- Statistics, timing, logging, DOT output, initialisation, GC hooks, the JNI bridge, benchmarks: plumbing.
