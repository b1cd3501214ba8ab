# pylotree in Dafny

A Dafny model of the `pylotree` package, which handles rooted binary phylogenetic trees
given in Newick notation. The model covers:

- the node labeller `NodeLabels`;
- the `Tree` wrapper: its constructor, `copy`, `name`, `in` and `[]`;
- `get_i`;
- the rearrangements `root_at`, `swap_nodes` and `nearest_neighbor_interchange`;
- the text rewriter `add_edges` of `pylotree/tree.py`, and the root label its `Tree` passes to it.

A tree is an **arena**, a sequence of `Node(name, parent, children)` values addressed by
index. This stands for the graph of `newick.Node` objects: `ancestor` becomes `parent`
and `descendants` becomes `children`.

`Arena.WellFormed` is the invariant every tree keeps:

- children point back to their parent;
- every parent lists the child;
- exactly the root has no parent;
- every node is a leaf or has two distinct children.

`Arena.Acyclic` adds that following parents always ends at the root.

`PyloTree.Tree` is a class whose fields `nodes` and `root` its methods reassign. Its
`Valid()` predicate is `WellFormed`, `Acyclic` and "every node has a non-empty name", the
state after labelling. `PyloTree.NodeLabels` is a class with the visitor's `count` field.

Each state-changing operation is a method proved against a value-level specification
function, and the lemmas are proved about those functions:

| operation | specification function |
|---|---|
| `Tree(...)` | `Initialized` |
| the two lookups | `Lookup` |
| `root_at` | `Reroot.RootAtOutcome` and `Reroot.Rerooted` |
| `swap_nodes` | `Interchange.SwapOutcome` |
| `nearest_neighbor_interchange` | `Interchange.NniOutcome` |
| `add_edges` | `NewickText.Rewritten` |

Python exceptions become the `Err` values of `Arena.Error`. `KeyError`, `AttributeError`,
`IndexError` and `AssertionError` are named after what the source raises. `Unsupported`
marks the re-rooting case the source gets wrong (see "Left out").

`Splits` states what the two rearrangements are for, in terms of a tree's leaves:

- the clade of a node is the set of leaves below it;
- its split is that clade together with the rest of the leaves;
- `root_at` keeps the set of splits of the non-root nodes, so it changes only where the root sits;
- the interchange keeps the clade of every node other than the two root children, and moves one subtree's leaves between those two.

Leaves are identified by index. Both operations keep every name, so the same holds of leaf names.

Modules, one per file:

| file | module | contents |
|---|---|---|
| `wrappers.dfy` | `Wrappers` | `Option`, `Result` |
| `decimal.dfy` | `Decimal` | `str()` of a count |
| `arena.dfy` | `Arena` | nodes, the tree invariant, the pre-order walk, the name scan, `get_i` |
| `labelling.dfy` | `Labelling` | the labelling pass as a fold over the walk |
| `newick_text.dfy` | `NewickText` | `add_edges` |
| `reroot.dfy` | `Reroot` | the re-rooted arena and its proofs |
| `interchange.dfy` | `Interchange` | `swap_nodes` and the interchange on values |
| `pylotree.dfy` | `PyloTree` | the classes and the methods that mutate a tree |
| `splits.dfy` | `Splits` | leaf sets and the bipartitions they induce, kept by both rearrangements |

## Model

| member | source | states |
|---|---|---|
| Decimal.NatToString | src/pylotree.py:33 | `str(count)` is a non-empty string of decimal digits with no leading zero except for 0 itself |
| Decimal.DecimalRoundTrip | src/pylotree.py:33 | Reading back the digits of `str(n)` gives n |
| Decimal.NatToStringInjective | src/pylotree.py:33 | Different counts print differently |
| Decimal.PrefixedNumeralsDistinct | src/pylotree.py:33 | Labels made of one prefix and different counts differ |
| Arena.GetI | src/pylotree.py:95-97 | `get_i(a, b)` succeeds exactly when a has two children and one of the first two carries b's name. It returns the first such slot, and IndexError (the `[0]` of an empty list) otherwise |
| Arena.GetISlot | src/pylotree.py:95-97 | With unique names, for a child b of a binary node a, `get_i` returns the slot that holds b |
| Arena.GetIAgrees | src/pylotree.py:95-97 | `get_i` depends only on the names and on a's child list |
| Arena.WalkDistinct | src/pylotree.py:79 | The pre-order walk of a well-formed acyclic tree visits no node twice |
| Arena.WalkCoversArena | src/pylotree.py:79 | The pre-order walk visits every node of the tree |
| Arena.FindAt | src/pylotree.py:79-81 | The scan returns the first position whose node has the name, with none before it; no result means no position has the name |
| Arena.FindAtFirst | src/pylotree.py:85-87 | The scan returns position k when k is the first position holding the name |
| Arena.FindInWalk | src/pylotree.py:85-87 | With unique names, scanning the walk for a node's name finds that node |
| Arena.WalkMisses | src/pylotree.py:79-82 | The scan of the walk fails exactly when no node of the tree has the name |
| Arena.OtherChild | src/pylotree.py:172 | The child of a binary node that is not the given one; together they are the whole child list |
| Labelling.LabelPassFrame | src/pylotree.py:24-33 | The pass changes names only, and only of visited nodes. A name that is already set is never changed, and the counter never decreases |
| Labelling.LabelPassNamesVisited | src/pylotree.py:28-33 | After the pass every visited node has a non-empty name |
| Labelling.LabelPassOfNamed | src/pylotree.py:28 | On nodes that all have names, the pass changes nothing, the counter included |
| Labelling.LabelPassIdempotent | src/pylotree.py:28-33 | Labelling an already labelled tree again changes nothing |
| Labelling.LabelPassClosedForm | src/pylotree.py:24-33 | Each visited node ends with the name `AssignedName` gives: its own name, the root name when it is an anonymous root and the root name is non-empty, and otherwise prefix + the counter at that point of the walk. The counter rises by the number of nodes that drew a number |
| Labelling.CounterNamesDistinct | src/pylotree.py:31-33 | Two nodes that draw counter values get different labels |
| Labelling.FirstVisitedLabel | src/pylotree.py:28-33 | The first anonymous node visited gets the root name when it is parentless and a root name is set, and otherwise prefix + (count + 1) |
| Labelling.DefaultLabelsExample | src/pylotree.py:15-33 | With the defaults, `((a,b),c)` is labelled `((a,b)Edge1,c)Root` |
| Labelling.NoRootNameExample | src/pylotree.py:29-33 | With an empty root name the root is counted first: `((a,b)Edge2,c)Edge1` |
| Labelling.CustomLabelsExample | src/pylotree.py:10-13 | The docstring example: prefix `e` and root name `root` give `((a,b)e1,c)root` |
| NewickText.AddEdges | src/pylotree/tree.py:5-21 | The loop of `add_edges` returns `Rewritten(newick, 0, edge, root, 1)` |
| NewickText.RewrittenClosedForm | src/pylotree/tree.py:5-21 | The output is every kept character followed by its label. A `)` before `)` or `,` gets edge + the running number of such closers, starting at 1. A `)` before the first `;` gets the root label |
| NewickText.PiecesStartWithKeptInput | src/pylotree/tree.py:16-20 | Each output piece starts with the input character at its position; only a `)` is followed by a label |
| NewickText.Erased | src/pylotree/tree.py:16-20 | Keeping the first character of every piece gives one character per piece |
| NewickText.ErasedPieces | src/pylotree/tree.py:5-21 | Erasing the labels from the output pieces gives back exactly the kept part of the input |
| NewickText.ErasedUpToStop | src/pylotree/tree.py:9-14 | With a first `;` at position m, the kept part is the input up to and including it, and erasing the labels gives it back |
| NewickText.ErasedWithoutStop | src/pylotree/tree.py:5-21 | Without a `;` after the first character, everything but the last character is kept, and erasing the labels gives it back |
| NewickText.RewrittenStopsAtSemicolon | src/pylotree/tree.py:9-14 | Nothing after the first `;` is read |
| NewickText.RewrittenEndsWithLastPiece | src/pylotree/tree.py:9-14 | The output ends with what the step meeting the first `;` appends |
| NewickText.RewrittenEndsWithSemicolon | src/pylotree/tree.py:9-14 | When the input holds a `;` after its first character, the output ends with `;` |
| NewickText.RootLabelAtEnd | src/pylotree/tree.py:10-12 | An unlabelled root, `)` followed by the final `;`, gets the root label between them |
| NewickText.RewrittenLabelledIsIdentity | src/pylotree/tree.py:7-20 | Text with every inner node and the root labelled is returned unchanged |
| NewickText.AddEdgesRootExample | src/pylotree/tree.py:5-21 | `(A,B);` becomes `(A,B)Root;` |
| NewickText.AddEdgesLabelledExample | src/pylotree/tree.py:5-21 | Fully labelled text comes back unchanged |
| NewickText.AddEdgesOneCharacterExample | src/pylotree/tree.py:6-7 | A one-character input leaves the loop without a step and gives the empty string |
| NewickText.RootLabel | src/pylotree/tree.py:31 | `self.name or "Root"`: the name when it is non-empty, else `Root`; never empty |
| NewickText.PostInitText | src/pylotree/tree.py:30-31 | The text `__attrs_post_init__` stores is `add_edges` with edge `Edge` and that root label; an unlabelled root ends as `)label;` |
| Reroot.PathToRoot | src/pylotree.py:125-135 | The chain of ancestors the loop climbs, from the node up to the root |
| Reroot.RerootedWellFormed | src/pylotree.py:113-139 | The re-rooted arena is a well-formed binary tree with the same root |
| Reroot.RerootedAcyclic | src/pylotree.py:113-139 | The re-rooted arena has no cycle |
| Reroot.RerootedRootLinks | src/pylotree.py:124-128 | The root keeps its name and stays parentless. Its children become `[node, ancestor]`, and both point back to it |
| Reroot.RerootedPathReversed | src/pylotree.py:127-135 | Along the path every node's parent becomes the node below it. Its child slot of that node is overwritten with its old parent |
| Reroot.RerootedPartB | src/pylotree.py:121-138 | partB hangs below partA, in the slot that held the path node. partB keeps its children |
| Reroot.RerootedFrame | src/pylotree.py:100-140 | No name changes. Nodes off the path other than partB are untouched, and the node keeps its children |
| Reroot.BeforeLoopIsStageOne | src/pylotree.py:119-128 | The writes before the `while` loop give the first stage of the re-rooting |
| Reroot.StageStep | src/pylotree.py:130-135 | One pass of the loop below partA advances the stage by one |
| Reroot.LastPassIsRerooted | src/pylotree.py:136-139 | The last pass, at partA, hangs partB and completes the re-rooted arena |
| Reroot.RootAtKeyError | src/pylotree.py:107 | `root_at` raises KeyError exactly when no node has the name |
| Reroot.RootAtCases | src/pylotree.py:100-140 | Four cases, each an iff. AttributeError for the root. The input itself when the parent is the root. Unsupported when the parent is a root child. A new arena when the path to the root has four nodes or more |
| Reroot.RootAtDepthTwo | src/pylotree.py:105-118 | A node whose parent hangs from the root has a three-node path; the outcome is Unsupported |
| Reroot.RootAtDeeper | src/pylotree.py:113-140 | Deeper nodes are re-rooted |
| Reroot.RootAtMoved | src/pylotree.py:100-140 | A re-rooted arena is well-formed and acyclic and keeps every name, and the named node is the first child of the root. That it keeps the leaf bipartitions is `Splits.RootAtSplits` |
| Interchange.Relinked | src/pylotree.py:147 | The tuple assignment of parents: c hangs from ab and a from cd, and nothing else changes |
| Interchange.RelinkedInPlace | src/pylotree.py:147 | When a already hangs from cd and c from ab, the assignment leaves the arena as it was |
| Interchange.Exchange | src/pylotree.py:147-151 | Direction 1 fails, with IndexError, exactly when one of the two slot searches fails, and keeps every name |
| Interchange.SwapOutcome | src/pylotree.py:144-155 | A direction other than 1, 2 and 3 changes nothing. The only error is IndexError, and names are kept |
| Interchange.ExchangeLinks | src/pylotree.py:146-151 | For children a of ab and c of cd, the exchange succeeds: a and c trade places, and nothing else changes |
| Interchange.SwappedFrame | src/pylotree.py:146-151 | Only a and c change parent, only ab and cd change children, and every node keeps its number of children |
| Interchange.SwappedWellFormed | src/pylotree.py:146-151 | The exchange keeps the tree well-formed and uniquely named |
| Interchange.SwappedAcyclic | src/pylotree.py:146-151 | Between two anchors at the same depth the exchange keeps the tree acyclic |
| Interchange.SwappedBack | src/pylotree.py:146-151 | Exchanging the two nodes back restores the arena |
| Interchange.ExchangeUndone | src/pylotree.py:146-151 | `Exchange(c, a)` after `Exchange(a, c)` gives the original arena back |
| Interchange.SwapFirstFirst | src/pylotree.py:146-151 | Direction 1 exchanges qA and qC: the children become `[qC, qB]` and `[qA, qD]` |
| Interchange.SwapSecondFirst | src/pylotree.py:152-153 | Direction 2 exchanges qB and qC: `[qA, qC]` and `[qB, qD]` |
| Interchange.SwapFirstSecond | src/pylotree.py:154-155 | Direction 3 exchanges qA and qD: `[qD, qB]` and `[qC, qA]` |
| Interchange.SwapUndone | src/pylotree.py:144-155 | A second swap in the same direction over the new children restores the arena |
| Interchange.SwapKeepsSiblings | src/pylotree.py:144-155 | The two anchors keep their parent, and that parent keeps its children |
| Interchange.SiblingSwap | src/pylotree.py:171-176 | Swapping the grandchildren of two internal siblings succeeds in every direction and keeps the tree well-formed and acyclic, with the same names and child counts |
| Interchange.FirstOtherIndex | src/pylotree.py:172-178 | The first child not named like the node; no result means every child has that name |
| Interchange.NniKeyError | src/pylotree.py:167 | The interchange raises KeyError exactly when no node has the name |
| Interchange.NniRefuses | src/pylotree.py:168 | AssertionError exactly for a leaf or the root |
| Interchange.NniLeafSibling | src/pylotree.py:171-177 | A node under the root with a leaf sibling gives None |
| Interchange.NniRootBranch | src/pylotree.py:171-176 | Under the root, with an internal sibling, the result is that swap of the two nodes' children |
| Interchange.NniInnerParent | src/pylotree.py:178-182 | A node whose parent is not the root gives IndexError: qA is no child of nodeB |
| Interchange.NniProducesShape | src/pylotree.py:158-183 | A new tree is returned only for an internal child of the root with an internal sibling |
| Interchange.NniInvolution | src/pylotree.py:158-183 | The new tree is well-formed and uniquely named, and the same interchange on it gives the original arena back |
| Interchange.NniPreserves | src/pylotree.py:158-183 | The new tree is well-formed and acyclic, keeps every name, and every node keeps its number of children. That the other nodes keep their leaf sets is `Splits.NniClades` |
| PyloTree.Lookup | src/pylotree.py:84-88 | `tree[item]` is a node with the name that comes first in the walk. It fails exactly when no node has the name, and then with KeyError |
| PyloTree.LookupUnique | src/pylotree.py:84-88 | With unique names, looking up a node's name returns that node |
| PyloTree.LookupAfterRename | src/pylotree.py:50-51 | Renaming a node to an unused name keeps the tree valid. The new name finds the node, and the old name raises KeyError |
| PyloTree.InitializedValid | src/pylotree.py:40-51 | Building a `Tree` keeps the arena's shape and leaves a well-formed acyclic tree in which every node is named |
| PyloTree.InitializedRootName | src/pylotree.py:29-51 | The root is called `name` when given. Otherwise it keeps its own name, and otherwise it is called `Root` |
| PyloTree.InitializedKeepsNames | src/pylotree.py:28-49 | Named non-root nodes keep their names |
| PyloTree.InitializedCounterName | src/pylotree.py:31-49 | An anonymous non-root node at walk position k is called `Edge` + c, where c is one more than the number of counter-drawing nodes the walk visits before it |
| PyloTree.InitializedCountersDistinct | src/pylotree.py:31-49 | Two anonymous non-root nodes get different labels |
| PyloTree.InitializedOfLabelled | src/pylotree.py:49 | Wrapping an already labelled tree without a name changes nothing |
| PyloTree.InitializedUnderOwnName | src/pylotree.py:53-58 | Wrapping a labelled tree under its own root name changes nothing |
| PyloTree.NodeLabels.constructor | src/pylotree.py:15-22 | Stores the prefix and the root name, with the counter at 0 |
| PyloTree.NodeLabels.Call | src/pylotree.py:24-33 | One visit updates the visited tree and the counter as `LabelStep` says, and leaves the root alone |
| PyloTree.Tree.constructor | src/pylotree.py:40-51 | The new tree holds `Initialized(arena, root, name)` and is valid |
| PyloTree.Tree.Copy | src/pylotree.py:53-58 | A fresh valid tree with the same nodes and root |
| PyloTree.Tree.Name | src/pylotree.py:64-66 | The root's name, which is never empty |
| PyloTree.Tree.Contains | src/pylotree.py:78-82 | True exactly when some node has the name, which is exactly when `tree[item]` succeeds |
| PyloTree.Tree.GetItem | src/pylotree.py:84-88 | Returns `Lookup`: the first node of the walk with the name, else KeyError |
| PyloTree.Scan | src/pylotree.py:79-81 | The `for` loop over the walk returns `FindAt`: the first position with the name |
| PyloTree.Reparse | src/pylotree.py:106 | `Tree(otree.newick)` of a valid tree is a fresh valid tree with the same arena |
| PyloTree.RerootPlan | src/pylotree.py:108-118 | The path from a non-root-child node to the root has three nodes or more: the node, its ancestor, ..., partA, root. partA has the ancestor's name exactly when the path has three nodes. Otherwise the re-rooting setup holds with partB the other root child |
| PyloTree.RootAtPlanned | src/pylotree.py:105-140 | Below a root child, the outcome is Unsupported at depth 2 and the re-rooted arena deeper |
| PyloTree.RootAtByLookup | src/pylotree.py:106-111 | The early exits of `root_at` in terms of the lookup: KeyError, AttributeError for a parentless node, the input for a root child |
| PyloTree.RootAtDeep | src/pylotree.py:113-140 | Deeper than depth 2, the outcome is the re-rooted arena. It is well-formed and acyclic and keeps every name |
| PyloTree.RerootStart | src/pylotree.py:119-128 | The assignments before the loop find the node's slot in the ancestor and give the first stage |
| PyloTree.RerootPass | src/pylotree.py:130-135 | One pass of the loop: the popped node has two distinct children, one of them the path node, and `get_i` finds its slot. The node has an ancestor exactly below partA; it is the next path node |
| PyloTree.RerootLastPass | src/pylotree.py:136-139 | At partA, writing partB into the slot, hanging partB from partA and partA from the path node gives the re-rooted arena |
| PyloTree.Turn | src/pylotree.py:131-139 | One iteration of `while queue` turns the stage j arena into stage j + 1 and pushes the next pair unless partA was reached |
| PyloTree.DrainQueue | src/pylotree.py:130-139 | The loop, run from the first stage, ends with the re-rooted arena |
| PyloTree.Rewire | src/pylotree.py:119-139 | The writes from line 119 on turn the tree into `Rerooted(nodes, P, partB)` |
| PyloTree.RerootBelow | src/pylotree.py:113-140 | Below a root child: Unsupported at depth 2; otherwise the tree itself, now valid and re-rooted |
| PyloTree.RootAt | src/pylotree.py:100-140 | `root_at` never modifies its input. It returns `RootAtOutcome`'s error, the input itself, or a fresh valid tree holding the re-rooted arena |
| PyloTree.SwapNodes | src/pylotree.py:144-155 | On success, the tree holds `SwapOutcome`. On IndexError, the parent assignment of line 147 has already been made |
| PyloTree.NniByLookup | src/pylotree.py:166-168 | The early exits of the interchange in terms of the lookup: KeyError, AssertionError for a leaf or parentless node |
| PyloTree.NniRootSideLeaf | src/pylotree.py:171-177 | Under the root, a leaf sibling gives None |
| PyloTree.NniRootSideSwap | src/pylotree.py:171-176 | Under the root, an internal sibling gives a new tree: well-formed and acyclic, with the same names |
| PyloTree.InterchangeAtRoot | src/pylotree.py:172-177 | With a leaf nodeC, None and no change. Otherwise the tree holds the swap of the two nodes' children |
| PyloTree.InterchangeBelow | src/pylotree.py:178-183 | With the parent below the root, the call to `swap_nodes` raises IndexError and leaves the tree as it was |
| PyloTree.InterchangeAt | src/pylotree.py:169-183 | The tree ends as `NniOutcome` says: an error, None, or the tree itself holding the new valid arena |
| PyloTree.NearestNeighborInterchange | src/pylotree.py:158-183 | Never modifies its input. It returns `NniOutcome`'s error, None, or a fresh valid tree holding the new arena |
| Splits.Clade | src/pylotree.py:114-117 | The leaves below a node, a subset of the tree's leaves |
| Splits.SubtreeStep | src/pylotree.py:114-117 | Being below v means being v or having a parent below v; a parentless node is below only itself |
| Splits.KeptClade | src/pylotree.py:119-139 | After the re-rooting rewiring, the node and every node off its path to the root keep their clade |
| Splits.FlippedClade | src/pylotree.py:127-139 | The path node at position m gets as clade all leaves outside the old clade of the node below it |
| Splits.TopClade | src/pylotree.py:114-117 | Before re-rooting, partA's clade is all leaves outside partB's clade: the two leaf-name filters pick the two root children apart |
| Splits.SplitsMatch | src/pylotree.py:119-139 | The rewiring keeps the set of splits of the non-root nodes |
| Splits.RootAtSplits | src/pylotree.py:100-140 | A re-rooted arena is acyclic and has the same splits as the input: re-rooting moves only the root |
| Splits.SwappedMovedClades | src/pylotree.py:146-151 | Exchanging a below x with c below y takes a's leaves from x's clade to y's and c's the other way |
| Splits.NniClades | src/pylotree.py:158-183 | The interchange keeps the tree acyclic and keeps the clade of every node other than the two root children |
| Splits.NniMovedClades | src/pylotree.py:171-176 | For the node x and its sibling y, the selected grandchildren a and c trade places: x's clade loses a's leaves and gains c's, and y's the reverse. When no pair is selected the arena is unchanged |

## Left out

- The `newick` library is not part of this model. That covers `loads`, `walk`, `visit`, `newick` printing, `get_leaf_names` and `descendants`. A tree enters as an arena parameter, and the walk is modelled by `Arena.Walk`.
- Parsing in `Tree(str)` and `Tree(otree.newick)` is not modelled. Printing and re-parsing a labelled tree is taken to give back the same arena; `PyloTree.Reparse` builds a new `Tree` over a copy of that arena.
- `Tree(tree)` with a `Tree` argument shares the root node object. The model copies values, so that aliasing is not captured.
- `__repr__`, `__iter__`, `newick`, `preorder` and `postorder` are printing or thin wrappers over the walk.
- The `print` in `swap_nodes` (line 145) is output only.
- In `pylotree/tree.py`, everything from line 32 on (the `attrs` class beyond the text it stores) depends on the newick library.
- All operations require pairwise-distinct node names. The source finds nodes and slots by name, so with repeated names its behaviour is not that of a tree operation.
- All operations require a binary tree: every node has zero or two children. `qA, qB = node.descendants` and `root.descendants = [node, ancestor]` assume this.
- Python truthiness: a `None` name and an empty name are both modelled as `""`, and `ancestor` is `None` exactly for the root.
- `root_at` picks partA as the root child above the node, following parents. The source picks it by comparing leaf names; with distinct names the two agree.
- `root_at` at depth 2 is modelled as `Unsupported`. There partA is the ancestor itself, and the source links it and the root to each other, leaving a cycle; the `TODO` at line 105 marks the case as known to be broken.
- `nearest_neighbor_interchange` when the parent is not the root is modelled as IndexError. The parent assignment of line 147 runs first, but it stores in each of the two nodes the parent it already has, so the copy is unchanged when the error is raised.
