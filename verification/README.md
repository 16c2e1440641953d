# Verified models of the tree-sitter runtime

This project models the C runtime of tree-sitter that the repository vendors under
`libs/tree-sitter/cbits/ts/src` and proves what its data structures promise. Check it with
`dafny verify dfyconfig.toml`.

**Syntax trees.** A subtree has a padding, a size, a lookahead and summaries of its children. The model
is one datatype; pointers into a tree are paths of child indices. On it:

* measuring (`lengths.dfy`, `texts.dfy`): a length is the extent of a text in bytes, line breaks and bytes since the
  last one, and walking down a tree finds every node at the row and column at which its text is;
* summarizing (`summaries.dfy`, `summary_meaning.dfy`): the fields of an interior node are folds over its children, and
  from them follow the layout, the reach of lookaheads and the meaning of the counts, of the error cost and of the
  repeat depth;
* editing (`edits.dfy`, `edit_worklist.dfy`, `edit_agreement.dfy`, `edit_texts.dfy`, `edit_marks.dfy`,
  `edit_columns.dfy`): the worklist with its in-loop rewriting of the edit equals a recursive edit. A tree over the old
  document lies over the new one afterwards, in bytes, rows and columns, the editing of node handles agrees with it, and
  it is said exactly which nodes are marked;
* balancing (`rotations.dfy`, `rotation_meaning.dfy`, `balancing.dfy`, `balance_bound.dfy`, `balance_whole.dfy`):
  rotations in place along the left spine keep the text and all summaries, the halving loop meets its depth bound
  exactly, and the bound holds for every repetition of a balanced tree that has leaned to the left;
* reference counting (`refcounts.dfy`): a memory of cells in which release frees exactly what no handle reaches;
* editing on shared memory (`shared_trees.dfy`, `shared_edits.dfy`): the same worklist on such a memory copies a node
  before it writes to it unless nothing else refers to it. The root then holds the edited tree, and every other tree,
  however much it shares, is as it was (`SharedEdits.EditShared`);
* balancing on shared memory (`shared_balancing.dfy`): the worklist, both loops of the compression and the summaries
  follow pointers and write in place. The root then holds the balanced tree, and no other tree can tell
  (`SharedBalancing.BalanceShared`).

**Views of a tree.** Cursors (`visible_trees.dfy`, `cursor_paths.dfy`, `tree_cursor.dfy`) simulate first-child,
next-sibling, parent and jump-to-descendant on the tree that is left when hidden nodes are replaced by their
children; `node_views.dfy` does the same for indexed children; `text_views.dfy` says at which row and column both find
a node; `reusable_node.dfy` follows the sequence of leaves of an old tree.

**The parse stack.** A graph of nodes shared by several versions (`stack_graph.dfy`, `stack.dfy`) is pushed, merged
recursively, so that no node has two links that could be one, and popped along all paths at once. `searches.dfy` accounts for the
iterators of any such search; `stack_trails.dfy` applies it to the stack.

**Smaller parts.** Differences of included ranges (`ranges.dfy`), the abstract interpretation of capture
quantifiers (`quantifiers.dfy`, `capture_quantifiers.dfy`), the two representations of parse tables
(`parse_tables.dfy`) and UTF-8 (`utf8.dfy`).

Each imperative routine is a method, with the fields it changes and the loops of the source, that is proved
equal to a function or meets a stated specification; the promises are lemmas about these. Numbers are
mathematical integers except where a sentinel or a counter's width shows in the behaviour (the range sentinel, the
16-bit counters over captures and symbols, bytes).

Five laws hold under a condition only, which is stated with them.

* Editing marks every node that reaches into the edited text if all leaves have looked past their ends, as leaves from
  the lexer have, also after earlier edits (`EditMarks.TouchedNodesMarked`, `EditMarks.UnmarkedAfterEdits`). For other
  trees `EditMarks.EditMarksWhatItMust` says exactly which nodes are marked: an empty node that looked at nothing, on
  its parent's left edge, is skipped.
* Behind the edited text the comment at libs/tree-sitter/cbits/ts/src/subtree.c:771-774 wants column-dependent nodes
  marked up to the next line break. A child that depends on its column and moves to another one is marked if and only if
  it was, or no earlier child behind the edit has ended the scan (`EditColumns.MovedColumnsMarked`). One that has is
  enough to miss it, on a later row of a parent that does not depend on its own column
  (`EditColumns.MissedColumnExample`).
* The loops that add and multiply arrays of capture quantifiers count with 16 bits and see no entry of an array of
  65536, which a pattern with capture id 65535 has. Without that id the arrays hold the quantifiers. With it they can
  be wrong (`PatternQuantifiers.LastCaptureExample`); `RightAfterSuffixes` and `LostInside` say when they are, and
  `ArraySoundIfCovering` when they still allow what can happen.
* The sweep over included ranges takes UINT32_MAX for a boundary of an exhausted list. It stays inside its lists if and
  only if neither has two boundaries more there than the other (`Ranges.GetChangedRanges`).
* The lookahead iterator agrees with the lookup in a small state without empty groups if and only if no value is zero
  and no symbol is listed twice (`ParseTables.LookaheadsAgreeWithLookup`). From an empty group it reads on into what
  follows (`ParseTables.EmptyGroupExample`), so its methods are specified for tables without empty groups.

## Model

| member | source | states |
|---|---|---|
| `Lengths.LengthMonoid` | libs/tree-sitter/cbits/ts/src/length.h:25-42 | `length_add` is associative and has zero as its unit; what it means is `Texts.ExtentOfSum`. |
| `Lengths.SubUndoesAdd` | libs/tree-sitter/cbits/ts/src/length.h:32-37 | `length_sub` takes off any prefix that `length_add` put in front, and the other way round exactly when the prefix has no more rows; on texts this is `Texts.SpanOfSum`. |
| `Texts.AdvanceMeasures` | libs/tree-sitter/cbits/ts/src/lexer.c:160-169 | The extent of a text is what the lexer measures character by character. |
| `Texts.ExtentOfSum` | libs/tree-sitter/cbits/ts/src/length.h:25-50 | `length_add` gives the extent of two texts laid end to end, and both subtractions give back the extent of the second text, in bytes, rows and columns. |
| `Texts.SpanOfSum` | libs/tree-sitter/cbits/ts/src/point.h:14-26 | The same for the stretches of one text. |
| `Lengths.SaturatingSubUndoesAdd` | libs/tree-sitter/cbits/ts/src/length.h:44-50 | Saturating subtraction takes off a prefix too, exactly unless what is left has no bytes: then its rows and columns are forgotten. |
| `Subtrees.WalkFindsEdge` | libs/tree-sitter/cbits/ts/src/tree_cursor.c:60-97 | Walking down by adding sizes and paddings finds every node at the sum of what precedes it plus its own padding. |
| `Texts.WalkInText` | libs/tree-sitter/cbits/ts/src/tree_cursor.c:60-97 | In a tree over a text, the walk finds every node at the extent of the text before its content: the row is the number of line breaks there, the column the number of bytes after the last one. |
| `Texts.SummariesMeasure` | libs/tree-sitter/cbits/ts/src/subtree.c:404-411 | Summarizing gives every node the extents of its text if the leaves have those of theirs. |
| `Subtrees.EdgeWithin` | libs/tree-sitter/cbits/ts/src/subtree.c:404-418 | In a tree with the byte layout, every node lies inside every node above it. |
| `Subtrees.ReachWithin` | libs/tree-sitter/cbits/ts/src/subtree.c:412-418 | A node looks ahead at least as far as anything below it. |
| `Summaries.CombineAssociative` | libs/tree-sitter/cbits/ts/src/subtree.c:388-462 | Summarizing children from left to right can be cut anywhere: the sums form a monoid. |
| `Summaries.AddCost` | libs/tree-sitter/cbits/ts/src/subtree.c:420-436 | What one child adds to the error cost: its own cost unless it is a repetition of errors and, below an error, 100 for each tree that is skipped with it. |
| `Summaries.AddCounts` | libs/tree-sitter/cbits/ts/src/subtree.c:438-454 | What one child adds to the visible, named and descendant counts, by branch. |
| `Summaries.SumChildren` | libs/tree-sitter/cbits/ts/src/subtree.c:388-462 | The loop over the children computes the product of their sums. |
| `Summaries.SummarizeChildren` | libs/tree-sitter/cbits/ts/src/subtree.c:370-501 | The whole method computes the summary, including lookahead, the error node's own cost, first leaf and repeat depth; without children it resets the counts and charges an error node. |
| `Summaries.SummariesLayOut` | libs/tree-sitter/cbits/ts/src/subtree.c:404-411 | Summarized trees have the byte layout: a parent starts with its first child and spans its children. |
| `Summaries.SummariesLookAhead` | libs/tree-sitter/cbits/ts/src/subtree.c:412-418 | Summarized lookaheads reach as far as any child's. |
| `Summaries.SummaryReach` | libs/tree-sitter/cbits/ts/src/subtree.c:412-466 | A node's end plus lookahead is the maximum over its children. |
| `Summaries.ReachedByALeaf` | libs/tree-sitter/cbits/ts/src/subtree.c:412-466 | ... and exactly the furthest look of some leaf below it. |
| `SummaryMeaning.StructuralIndexMeans` | libs/tree-sitter/cbits/ts/src/subtree.c:463 | The structural index, which picks the alias of a child, counts the earlier children that are not extra. |
| `SummaryMeaning.ErrorCostMeans` | libs/tree-sitter/cbits/ts/src/subtree.c:420-476 | The stored error cost of every summarized node: the costs of its children that are no repetitions of errors and, for an error or a repetition of errors, 500 more, 1 for each byte, 30 for each line break, and 100 for each skipped tree, where hidden children stand for their visible ones and extra children and childless errors for none. |
| `SummaryMeaning.NamedChildrenMean` | libs/tree-sitter/cbits/ts/src/subtree.c:441-454 | The stored named child count is the number of visible children that are named, by their aliases or by themselves. |
| `SummaryMeaning.FirstLeafMeans` | libs/tree-sitter/cbits/ts/src/subtree.c:478-483 | The stored first leaf is the first leaf of the tree. |
| `SummaryMeaning.RepeatDepthMeans` | libs/tree-sitter/cbits/ts/src/subtree.c:488-499 | The stored repeat depth is the length of the longest way down through nodes of repetitions to first and last children. |
| `EditWorklist.PushChildren` | libs/tree-sitter/cbits/ts/src/subtree.c:758-813 | The loop over the children queues exactly the planned edits, rewriting the edit as it goes. |
| `EditWorklist.EditStep` | libs/tree-sitter/cbits/ts/src/subtree.c:674-813 | One turn of the worklist keeps the outcome and the work decreases. |
| `EditWorklist.EditSubtree` | libs/tree-sitter/cbits/ts/src/subtree.c:659-818 | The explicit stack with in-place updates computes the recursive edit, and terminates. |
| `Edits.PlanEntry` | libs/tree-sitter/cbits/ts/src/subtree.c:758-813 | Whatever happened to earlier children, child k gets its share of the whole edit or is left alone. |
| `Edits.QueuedChildMoves` | libs/tree-sitter/cbits/ts/src/subtree.c:690-718 | Positions inside a queued child move as under the whole edit, and the child ends where the next one starts. |
| `Edits.UnqueuedChildMoves` | libs/tree-sitter/cbits/ts/src/subtree.c:769-781 | A child the loop passes over moves as a block. |
| `Edits.NewLefts` | libs/tree-sitter/cbits/ts/src/subtree.c:758-813 | The left edge of every child of the edited tree is where the edit moves the old one: one child at most takes the insertion. |
| `Edits.EditKeepsLayout` | libs/tree-sitter/cbits/ts/src/subtree.c:659-818 | After an edit the layout holds all the way down, and the total is new_end + max(0, total - old_end) if the edit touches the text. |
| `Edits.PaddingOfEdited` | libs/tree-sitter/cbits/ts/src/subtree.c:690-718 | The start of a node's content moves as the edit moves that byte. |
| `EditAgreement.NodeHandle.Edit` | libs/tree-sitter/cbits/ts/src/node.c:884-899 | Editing a node handle in place, by the three cases of the source. |
| `EditAgreement.StartEdgesMove` | libs/tree-sitter/cbits/ts/src/subtree.c:659-818 | The content start of every node of every tree moves as the text does. |
| `EditAgreement.HandlesAgreeWithTree` | libs/tree-sitter/cbits/ts/src/node.c:884-899 | For every tree, every edit in order and every node, the start byte computed for the handle is the one found by re-walking the edited tree. |
| `EditTexts.PlanShare` | libs/tree-sitter/cbits/ts/src/subtree.c:783-807 | What the loop queues for a child, with its points: the first child to touch the edit has all of it, later ones none of the insertion, earlier ones nothing. |
| `EditTexts.ShareInText` | libs/tree-sitter/cbits/ts/src/subtree.c:783-807 | That share turns the old text of the child into its new text, and has the points of both. |
| `EditTexts.ReshapeInText` | libs/tree-sitter/cbits/ts/src/subtree.c:690-718 | In all cases the new padding and size are the extents of the new text. |
| `EditTexts.EditFollowsDocument` | libs/tree-sitter/cbits/ts/src/subtree.c:659-818 | For every document, every replacement in it and every tree over it: the edited tree lies over the new document, and every padding and size in it has the bytes, rows and columns of the new text. |
| `EditTexts.HandlesAgreeInText` | libs/tree-sitter/cbits/ts/src/node.c:884-899 | The byte, row and column computed for the handle of any node are those found by re-walking the edited tree, and the extent of the new text before the node. |
| `EditMarks.UnmarkedNodesAreUntouched` | libs/tree-sitter/cbits/ts/src/subtree.c:690-755 | A node is either left as it was with everything below it, or it and all its ancestors are marked. |
| `EditMarks.SolidNodeMarked` | libs/tree-sitter/cbits/ts/src/subtree.c:683-813 | A node with text or lookahead that starts before old_end and reaches past start is marked. |
| `EditMarks.EmptyNodeMarked` | libs/tree-sitter/cbits/ts/src/subtree.c:769-813 | So is an empty node that is not on its parent's left edge. |
| `EditMarks.EmptyFirstNodeMissed` | libs/tree-sitter/cbits/ts/src/subtree.c:783-791 | An empty node on its parent's left edge is left as it was. |
| `EditMarks.EditMarksWhatItMust` | libs/tree-sitter/cbits/ts/src/subtree.c:683-813 | The exact condition, in both directions: a node that reaches past start and begins before old_end is marked unless it is such an empty node. The node must be marked before or look no further ahead than what is above it. |
| `EditMarks.TouchedNodesMarked` | libs/tree-sitter/cbits/ts/src/subtree.c:683-813 | The marking law: in a tree as parsing leaves it or as earlier edits have left it, every node that reaches past start and begins before old_end is marked. |
| `EditMarks.SummarizedIsMarkable` | libs/tree-sitter/cbits/ts/src/subtree.c:412-466 | Summarized trees whose leaves have looked past their ends, as lexed leaves have, meet what the law needs. |
| `EditMarks.EditKeepsMarkable` | libs/tree-sitter/cbits/ts/src/subtree.c:659-818 | ... and an edit keeps it, although it can leave a marked node looking further ahead than its ancestors. |
| `EditMarks.UnmarkedAfterEdits` | libs/tree-sitter/cbits/ts/src/parser.c:783-783 | After any number of edits a node without the mark is as it was, with everything below it, and no edit has touched it. |
| `EditMarks.MissedNodeExample` | libs/tree-sitter/cbits/ts/src/subtree.c:683-813 | A tree with a leaf that looked at nothing, and an edit that leaves a node unmarked: the condition on the leaves is needed. |
| `EditColumns.ChildMarks` | libs/tree-sitter/cbits/ts/src/subtree.c:758-813 | Which children of an edited node are marked, in both directions: those marked before, and those that the scan comes to and the edit touches; all others are left as they were. |
| `EditColumns.MarksBehind` | libs/tree-sitter/cbits/ts/src/subtree.c:771-781 | Behind the edit that is each child with text or lookahead up to which every child feels its column: because the parent depends on its column and the child begins no lower than the parent's edited content, or because the child does, the edit moves columns and the child begins no lower than its end. |
| `EditColumns.MarksBelow` | libs/tree-sitter/cbits/ts/src/subtree.c:674-813 | ... and which nodes are marked at any depth below such a child: along first children, and along the first row in nodes that depend on their column. Nothing else about them changes. |
| `EditColumns.MovedColumns` | libs/tree-sitter/cbits/ts/src/subtree.c:771-781 | Behind an edit of a document a child moves to another column exactly if the edit moves columns and the child begins on the row on which the edit ends. |
| `EditColumns.MovedColumnsMarked` | libs/tree-sitter/cbits/ts/src/subtree.c:771-781 | A column-dependent child that moves to another column is marked exactly if it was, or no earlier child behind the edit ended the scan. |
| `EditColumns.MissedColumnExample` | libs/tree-sitter/cbits/ts/src/subtree.c:771-781 | A tree and an edit at which such a child is missed, because an earlier one on its row ended the scan. |
| `SharedTrees.TreeIsHeld` | libs/tree-sitter/cbits/ts/src/subtree.h:104-155 | In an acyclic memory every reference leads to a tree. |
| `SharedTrees.UniquePath` | libs/tree-sitter/cbits/ts/src/subtree.c:283-289 | There is only one way from the handles to a node if every node on that way has a reference count of one. |
| `SharedTrees.SpineHolds` | libs/tree-sitter/cbits/ts/src/subtree.c:720-755 | Replacing what is below the end of such a way replaces it in the tree, and nothing else in it. |
| `SharedTrees.KeptOffChain` | libs/tree-sitter/cbits/ts/src/subtree.c:283-289 | Writing to the end of such a way changes nothing that other handles lead to. |
| `SharedEdits.MakeMutSlot` | libs/tree-sitter/cbits/ts/src/subtree.c:720-720 | Making the node in a slot mutable: it is reused if its count is one, and otherwise copied, with the children shared. |
| `SharedEdits.RewriteSlot` | libs/tree-sitter/cbits/ts/src/subtree.c:720-756 | The node in a slot is rewritten in place, on a copy, or as a heap node if it no longer fits inline. |
| `SharedEdits.StillExclusive` | libs/tree-sitter/cbits/ts/src/subtree.c:259-279 | Copying a node raises no count on a way that had only counts of one. |
| `SharedEdits.EditEntry` | libs/tree-sitter/cbits/ts/src/subtree.c:674-813 | One turn of the worklist on memory: the way to every stacked slot stays free of sharing, and other trees stay as they are. |
| `SharedEdits.EditShared` | libs/tree-sitter/cbits/ts/src/subtree.c:659-818 | The whole edit on shared memory: the new root holds the edited tree, the handle on the old root is traded for one on the new root, and all that the other handles lead to is as before. |
| `SharedEdits.EditOneOfTwo` | libs/tree-sitter/cbits/ts/src/tree.c:24-93 | Editing one of two trees that share nodes, such as a copy of a tree, leaves the other one as it was. |
| `Rotations.RotationStep` | libs/tree-sitter/cbits/ts/src/subtree.c:303-324 | A rotation in place at a depth of the left spine is a step of the recursive definition. |
| `Rotations.SummarizeStack` | libs/tree-sitter/cbits/ts/src/subtree.c:326-334 | The second loop re-summarizes the rotated spine from the bottom. |
| `Rotations.RotateDown` | libs/tree-sitter/cbits/ts/src/subtree.c:291-324 | The first loop rotates down the spine until a node is shared, small or of another symbol. |
| `Rotations.Compress` | libs/tree-sitter/cbits/ts/src/subtree.c:291-335 | Both loops together compute the recursive compression. |
| `RotationMeaning.RotateKeepsText` | libs/tree-sitter/cbits/ts/src/subtree.c:314-322 | One rotation keeps the leaves in order and the number of nodes. |
| `RotationMeaning.CompressKeepsText` | libs/tree-sitter/cbits/ts/src/subtree.c:291-335 | So does compression, whatever the summaries are. |
| `RotationMeaning.GrandchildTakesOver` | libs/tree-sitter/cbits/ts/src/subtree.c:326-334 | After a rotation the grandchild contributes to its parent what the child did, for repetitions of errors and with production ids too. |
| `RotationMeaning.CompressedFirst` | libs/tree-sitter/cbits/ts/src/subtree.c:291-335 | After any number of rotations the first child still contributes the same and is summarized. |
| `RotationMeaning.CompressKeepsSummary` | libs/tree-sitter/cbits/ts/src/subtree.c:291-335 | Compression keeps the root's summary, and every node's stored summary is what its children give. |
| `Balancing.Rebalance` | libs/tree-sitter/cbits/ts/src/subtree.c:347-358 | The halving loop computes the recursive halving. |
| `Balancing.PushVisited` | libs/tree-sitter/cbits/ts/src/subtree.c:361-366 | The loop stacks the unshared interior children. |
| `Balancing.BalanceSubtree` | libs/tree-sitter/cbits/ts/src/subtree.c:337-368 | The worklist computes the recursive balancing, and terminates. |
| `Balancing.BalanceKeepsMeaning` | libs/tree-sitter/cbits/ts/src/subtree.c:337-501 | Balancing keeps leaves, node count and the root's summary; every stored summary stays right. |
| `BalanceBound.CompressHalves` | libs/tree-sitter/cbits/ts/src/subtree.c:291-335 | Half as many rotations as links leave half the links, each with a bounded side. |
| `BalanceBound.HalvingProfile` | libs/tree-sitter/cbits/ts/src/subtree.c:347-358 | What each round of the halving loop leaves of the chain. |
| `BalanceBound.BalanceDepth` | libs/tree-sitter/cbits/ts/src/subtree.c:347-358 | On a left-leaning repetition of depth n every requested rotation is done, the chain keeps popcount(n) of its n links and the first child's repeat depth drops to at most floor(log2 n) + 1. |
| `BalanceWhole.HalvedTower` | libs/tree-sitter/cbits/ts/src/subtree.c:347-358 | What the loop leaves of n links: as many as n has one bits, each of which leans to the left by one at most, so that visiting them rotates nothing more. |
| `BalanceWhole.BalanceDepthBelow` | libs/tree-sitter/cbits/ts/src/subtree.c:337-368 | Balancing a whole tree, below any unshared nodes that are no repetitions, such as the root of a file: in the balanced tree the node in the place of a repetition that leaned to the left by n has a first child of repeat depth at most floor(log2 n) + 1, and popcount(n) links over the same node, balanced. |
| `BalanceWhole.ContentsBalanced` | libs/tree-sitter/cbits/ts/src/subtree.c:360-365 | What lies anywhere in a tree below unshared nodes, also inside repetitions that are rotated, lies in the balanced tree too: balanced as if it stood alone if it has children and a count of one, and as it was otherwise. |
| `BalanceWhole.BalanceDepthInside` | libs/tree-sitter/cbits/ts/src/subtree.c:337-368 | Hence the bound for repetitions inside others. |
| `SharedBalancing.RotateNodes` | libs/tree-sitter/cbits/ts/src/subtree.c:320-322 | The three assignments of a rotation in memory. |
| `SharedBalancing.RotatedConsistent` | libs/tree-sitter/cbits/ts/src/subtree.c:320-322 | They keep every count right and the memory acyclic, with no reference counted up or down. |
| `SharedBalancing.RotatedHolds` | libs/tree-sitter/cbits/ts/src/subtree.c:320-322 | Where no node on the way down is shared, they rotate the tree that the root holds, and nothing else in it. |
| `SharedBalancing.SpineNotRotated` | libs/tree-sitter/cbits/ts/src/subtree.c:301-325 | Nodes that belong to this tree alone still do, with the same path unless they are below the child that is moved. |
| `SharedBalancing.RotateNodesDown` | libs/tree-sitter/cbits/ts/src/subtree.c:299-325 | The first loop on memory: pointers down the left spine, until a node is shared, small or of another symbol. |
| `SharedBalancing.SummarizeNode` | libs/tree-sitter/cbits/ts/src/subtree.c:370-501 | Summarizing a node in place, from the nodes its children refer to. |
| `SharedBalancing.SummarizeThree` | libs/tree-sitter/cbits/ts/src/subtree.c:328-333 | Finding the moved nodes again by their pointers, and summarizing the three of them from the bottom. |
| `SharedBalancing.CompressNodes` | libs/tree-sitter/cbits/ts/src/subtree.c:291-335 | Both loops on memory compute the recursive compression of the tree. |
| `SharedBalancing.RebalanceNode` | libs/tree-sitter/cbits/ts/src/subtree.c:347-358 | The halving loop on memory. |
| `SharedBalancing.PushVisitedNodes` | libs/tree-sitter/cbits/ts/src/subtree.c:360-365 | The loop stacks the pointers to the unshared interior children. |
| `SharedBalancing.BalanceShared` | libs/tree-sitter/cbits/ts/src/subtree.c:337-367 | The whole of balancing on shared memory: the root holds the balanced tree, and what the other handles lead to is as before, with the same counts. |
| `SharedBalancing.BalanceOneOfTwo` | libs/tree-sitter/cbits/ts/src/parser.c:2104-2104 | Balancing one of two trees that share nodes keeps its text and its summary, and leaves the other one as it was. |
| `RefCounts.LiveIffReachable` | libs/tree-sitter/cbits/ts/src/subtree.c:584-620 | In a consistent memory the live nodes are those reachable from the handles. |
| `RefCounts.SubtreePool.Retain` | libs/tree-sitter/cbits/ts/src/subtree.c:584-589 | Adds a handle and one to the count. |
| `RefCounts.SubtreePool.NewNode` | libs/tree-sitter/cbits/ts/src/subtree.c:506-543 | A new node takes over the handles on its children. |
| `RefCounts.SubtreePool.Clone` | libs/tree-sitter/cbits/ts/src/subtree.c:259-279 | A second node over the same children, each of which gains a reference. |
| `RefCounts.SubtreePool.MakeMut` | libs/tree-sitter/cbits/ts/src/subtree.c:283-289 | Trades a handle for one on a node nothing else refers to; the rest of memory is as before. |
| `RefCounts.SubtreePool.ReleaseChildren` | libs/tree-sitter/cbits/ts/src/subtree.c:600-613 | One pass over the children of a dead node. |
| `RefCounts.SubtreePool.Drain` | libs/tree-sitter/cbits/ts/src/subtree.c:598-620 | The worklist frees the dead nodes and terminates, on any acyclic graph. |
| `RefCounts.SubtreePool.Release` | libs/tree-sitter/cbits/ts/src/subtree.c:591-620 | Afterwards a node is live exactly if the remaining handles reached it before, with the children it had; counts are conserved. |
| `Ranges.RangeArray.Add` | libs/tree-sitter/cbits/ts/src/get_changed_ranges.c:10-28 | Extends the last range or adds one, in place. |
| `Ranges.AddCovers` | libs/tree-sitter/cbits/ts/src/get_changed_ranges.c:10-28 | Adding a stretch at the end keeps the list canonical and covers that stretch besides. |
| `Ranges.SweepStep` | libs/tree-sitter/cbits/ts/src/get_changed_ranges.c:60-103 | One turn of the sweep keeps its invariant and makes progress. |
| `Ranges.GetChangedRanges` | libs/tree-sitter/cbits/ts/src/get_changed_ranges.c:46-104 | The differences cover exactly the bytes that one list covers and the other does not, in canonical form, with boundaries of the inputs: if and only if neither list has two boundaries more at UINT32_MAX than the other. Otherwise the sweep reads beyond a list. |
| `Ranges.StepFollows` | libs/tree-sitter/cbits/ts/src/get_changed_ranges.c:60-103 | At UINT32_MAX, for which exhausted lists wait too, each turn crosses a boundary of each list or takes it for one. |
| `Ranges.SentinelExample` | libs/tree-sitter/cbits/ts/src/get_changed_ranges.c:60-77 | One empty range at UINT32_MAX against an empty list: the smallest input that is read beyond its end. |
| `Ranges.SameCoverageNoDifferences` | libs/tree-sitter/cbits/ts/src/get_changed_ranges.c:46-104 | There are no differences exactly if both lists cover the same bytes. |
| `Ranges.CanonicalIsUnique` | libs/tree-sitter/cbits/ts/src/get_changed_ranges.c:10-28 | A canonical list is determined by the bytes it covers. |
| `VisibleTrees.SummariesCount` | libs/tree-sitter/cbits/ts/src/subtree.c:438-454 | In summarized trees the stored counts are the sums over the children. |
| `VisibleTrees.CountsAreSizes` | libs/tree-sitter/cbits/ts/src/subtree.c:438-454 | The stored counts are the sizes of the flattened list of visible children and of the pre-order list of visible descendants. |
| `VisibleTrees.NextIsSuccessor` | libs/tree-sitter/cbits/ts/src/tree_cursor.c:306-343 | Looking for a later sibling level by level finds the next element of the flattened list. |
| `VisibleTrees.NumberFindsNode` | libs/tree-sitter/cbits/ts/src/tree_cursor.c:43-46 | The pre-order list holds each visible node at its number. |
| `VisibleTrees.NodeHasNumber` | libs/tree-sitter/cbits/ts/src/tree_cursor.c:43-46 | ... and every entry of the list is a visible node below the root whose number is its place: the numbering is one to one. |
| `CursorPaths.TopFacts` | libs/tree-sitter/cbits/ts/src/tree_cursor.c:60-97 | The entry on top has the position found by walking down and the pre-order number of its node. |
| `CursorPaths.VisibleOrAliased` | libs/tree-sitter/cbits/ts/src/tree_cursor.c:81-87 | The alias that a node has by its place makes it visible: a node below the root is visible exactly if it is so by itself or has one. |
| `CursorPaths.ClimbFindsSibling` | libs/tree-sitter/cbits/ts/src/tree_cursor.c:306-343 | Climbing from a visible node finds its next sibling in the visible tree, or nothing if there is none. |
| `CursorPaths.AddressOf` | libs/tree-sitter/cbits/ts/src/tree_cursor.c:404-413 | Every visible node has an address in the visible tree. |
| `TreeCursors.CursorChildIterator.Next` | libs/tree-sitter/cbits/ts/src/tree_cursor.c:60-97 | Gives the next child's entry: position, indices, descendant index and visibility. |
| `TreeCursors.CursorChildIterator.NextLeading` | libs/tree-sitter/cbits/ts/src/tree_cursor.c:190-199 | The scan for a child that is visible or has visible children. |
| `TreeCursors.CursorChildIterator.NextPast` | libs/tree-sitter/cbits/ts/src/tree_cursor.c:452-462 | The scan for the child that contains a descendant index. |
| `TreeCursors.TreeCursor.constructor` | libs/tree-sitter/cbits/ts/src/tree_cursor.c:162-176 | A cursor starts at the root of the visible tree. |
| `TreeCursors.TreeCursor.GotoFirstChildInternal` | libs/tree-sitter/cbits/ts/src/tree_cursor.c:185-201 | One step towards the first visible child. |
| `TreeCursors.TreeCursor.Descend` | libs/tree-sitter/cbits/ts/src/tree_cursor.c:203-214 | The loop ends on the first visible child, or leaves the cursor where it was. |
| `TreeCursors.TreeCursor.GotoFirstChild` | libs/tree-sitter/cbits/ts/src/tree_cursor.c:203-214 | The cursor goes from address v to v + [0] exactly if that exists; a failed move changes nothing. |
| `TreeCursors.TreeCursor.GotoNextSiblingInternal` | libs/tree-sitter/cbits/ts/src/tree_cursor.c:306-339 | The loop finds what climbing finds; without a sibling the stack is restored. |
| `TreeCursors.TreeCursor.GotoNextSibling` | libs/tree-sitter/cbits/ts/src/tree_cursor.c:345-355 | The cursor goes from v + [k] to v + [k + 1] exactly if that exists; a failed move changes nothing. |
| `TreeCursors.TreeCursor.GotoParent` | libs/tree-sitter/cbits/ts/src/tree_cursor.c:404-413 | The cursor goes from v + [k] to v; only the root has no parent. |
| `TreeCursors.TreeCursor.AscendTo` | libs/tree-sitter/cbits/ts/src/tree_cursor.c:421-440 | Goes up to the lowest ancestor that contains the goal. |
| `TreeCursors.TreeCursor.DescendTowards` | libs/tree-sitter/cbits/ts/src/tree_cursor.c:443-463 | Enters the child that contains the goal, or has arrived. |
| `TreeCursors.TreeCursor.GotoDescendant` | libs/tree-sitter/cbits/ts/src/tree_cursor.c:415-464 | From any state the cursor lands on the visible node with the given pre-order number, or on the root if there is none. |
| `TreeCursors.TreeCursor.CurrentDescendantIndex` | libs/tree-sitter/cbits/ts/src/tree_cursor.c:466-470 | Gives the stored index, which is the pre-order number of the current node. |
| `TreeCursors.TreeCursor.GotoAndReport` | libs/tree-sitter/cbits/ts/src/tree_cursor.c:415-470 | Going to number k and asking for the number gives k, or 0 if there is no such node. |
| `TreeCursors.TreeCursor.ReportAndReturn` | libs/tree-sitter/cbits/ts/src/tree_cursor.c:415-470 | Asking for the number, going anywhere and going to that number leads back. |
| `TreeCursors.TreeCursor.CurrentNode` | libs/tree-sitter/cbits/ts/src/tree_cursor.c:472-493 | The current node: the one at the cursor's address, at the position found by walking down, with the alias its place gives it. |
| `NodeViews.NodeChildIterator.Next` | libs/tree-sitter/cbits/ts/src/node.c:79-104 | Gives the next child with its position and alias. |
| `NodeViews.ChildOrHiddenParent` | libs/tree-sitter/cbits/ts/src/node.c:146-170 | One round of the search: the child sought or the hidden child to enter. |
| `NodeViews.Child` | libs/tree-sitter/cbits/ts/src/node.c:138-173 | The search finds the i-th element of the flattened list of visible children, or nothing. |
| `NodeViews.NthChildFacts` | libs/tree-sitter/cbits/ts/src/node.c:122-173 | There is an i-th child exactly for i below the stored visible child count, at the position found by walking down. |
| `TextViews.CursorInText` | libs/tree-sitter/cbits/ts/src/tree_cursor.c:60-97 | A cursor shows every node at the row and column at which its text begins in the document. |
| `TextViews.ChildInText` | libs/tree-sitter/cbits/ts/src/node.c:79-104 | So does the search for a child. |
| `ReusableNodes.LastExternalToken` | libs/tree-sitter/cbits/ts/src/subtree.c:820-832 | The search from the right finds the last external leaf. |
| `ReusableNodes.SummariesMarkExternals` | libs/tree-sitter/cbits/ts/src/subtree.c:456 | Summarizing flags a node exactly if one of its children is flagged. |
| `ReusableNodes.ExternalLeaf` | libs/tree-sitter/cbits/ts/src/subtree.c:456 | A node is flagged exactly if one of its leaves is. |
| `ReusableNodes.ReusableNode.Offers` | libs/tree-sitter/cbits/ts/src/reusable_node.h:23-33 | The current node's leaves come next among the unvisited ones, and the byte offset is the text of the leaves passed. |
| `ReusableNodes.ReusableNode.Descend` | libs/tree-sitter/cbits/ts/src/reusable_node.h:62-74 | Entering the first child keeps the unvisited leaves. |
| `ReusableNodes.ReusableNode.PopFinished` | libs/tree-sitter/cbits/ts/src/reusable_node.h:46-53 | The loop climbs to the next place where leaves are left. |
| `ReusableNodes.ReusableNode.Advance` | libs/tree-sitter/cbits/ts/src/reusable_node.h:39-60 | Drops exactly the current node's leaves and keeps the last external token right. |
| `ReusableNodes.ReusableNode.AdvancePastLeaf` | libs/tree-sitter/cbits/ts/src/reusable_node.h:76-79 | Drops exactly one leaf. |
| `ReusableNodes.ReusableNode.Reset` | libs/tree-sitter/cbits/ts/src/reusable_node.h:81-95 | Starts over with all leaves unvisited, below the root. |
| `StackGraphs.TrailsFillGaps` | libs/tree-sitter/cbits/ts/src/stack.c:138-179 | Whatever links are followed, the subtrees passed fill the gap in bytes and in cost between the two nodes. |
| `StackGraphs.AllPathsAgree` | libs/tree-sitter/cbits/ts/src/stack.c:138-179 | All ways down from a node to the base have the same length and cost. |
| `StackGraphs.WaysKept` | libs/tree-sitter/cbits/ts/src/stack.c:181-264 | If a node stands for an earlier one, every trail from the earlier node is matched as far as the first full node: key by key, and subtree by subtree up to one symbol, both with errors, or one symbol, no errors, and the same padding, size, number of children, extra flag and scanner state. |
| `StackGraphs.WaysAreWalks` | libs/tree-sitter/cbits/ts/src/stack.c:200-264 | The converse: every trail after a merge is a walk along earlier links and the new one, with the subtrees on them, whose steps may come from different nodes with one key. |
| `StackGraphs.PositionsAreLayers` | libs/tree-sitter/cbits/ts/src/stack.c:695-707 | Where no subtree is empty or missing, positions are layers. |
| `Stacks.Stack.Push` | libs/tree-sitter/cbits/ts/src/stack.c:501-512 | Adds a node on top of a version, with the extent and the cost of the subtree added; the invariant of all links is kept, whatever is pushed. |
| `Stacks.Stack.AddLink` | libs/tree-sitter/cbits/ts/src/stack.c:181-264 | Adding a link, with recursive merging, keeps the invariant and all links and makes no link between two keys but the new one; the node then stands for the link and all below it, and no node has two links that could be merged. |
| `Stacks.Stack.MergeLinks` | libs/tree-sitter/cbits/ts/src/stack.c:233-243 | Merging two nodes recursively: no new link between two keys, and the target stands for the source. |
| `Stacks.Stack.MergeNodes` | libs/tree-sitter/cbits/ts/src/stack.c:698-702 | Merging the nodes of two versions whose keys come in layers: no new link between two keys, nodes not below the two are as they were, and the first stands for both, so that no way down is lost unless a node is full. |
| `Stacks.Stack.Merge` | libs/tree-sitter/cbits/ts/src/stack.c:695-707 | Merges versions exactly if both are active, their nodes have one state, position and cost, and their last external tokens have one scanner state, and otherwise changes nothing; the second head goes, and the first counts its nodes anew on an error state. |
| `Stacks.Stack.CopyVersion` | libs/tree-sitter/cbits/ts/src/stack.c:685-693 | A copied version stands on the same node. |
| `Stacks.Stack.RemoveVersion` | libs/tree-sitter/cbits/ts/src/stack.c:659-662 | Removes one version and keeps the others in order. |
| `Stacks.Stack.AddSlice` | libs/tree-sitter/cbits/ts/src/stack.c:304-322 | A slice joins the group of its end node or starts a new version; groups stay contiguous. |
| `Stacks.Stack.FollowLinks` | libs/tree-sitter/cbits/ts/src/stack.c:384-414 | Moves an iterator along the first link and forks it for the others as far as there is room. |
| `Stacks.Stack.Iterate` | libs/tree-sitter/cbits/ts/src/stack.c:324-419 | For any callback: each slice comes from its own trail that the callback pops, and every such trail gives a slice if there are never more iterators at one time than the limit. |
| `Stacks.Stack.PopCount` | libs/tree-sitter/cbits/ts/src/stack.c:514-525 | Exactly one slice for each path on which the subtrees that are not extra, and the missing ones, make up the count with the last of them, in document order. |
| `Stacks.Stack.PopAll` | libs/tree-sitter/cbits/ts/src/stack.c:580-587 | One slice for each way down to the base. |
| `Stacks.Stack.EndsAreEnough` | libs/tree-sitter/cbits/ts/src/stack.c:324-419 | A bound known from the stack alone: at no time are there more iterators than ends of the paths. |
| `Stacks.Stack.SliceFacts` | libs/tree-sitter/cbits/ts/src/stack.c:304-322 | Slices share a version exactly if they end at the same node, these are contiguous, and every slice spans the gap in bytes and cost. |
| `StackTrails.CountMeans` | libs/tree-sitter/cbits/ts/src/stack.c:404-414 | Iterators count the subtrees that are not extra, and the missing ones. |
| `StackTrails.FirstReachMeans` | libs/tree-sitter/cbits/ts/src/stack.c:514-521 | The stopping rule: the whole path has the count, and no shorter part of it. |
| `StackTrails.FirstReachPasses` | libs/tree-sitter/cbits/ts/src/stack.c:514-521 | The stopping rule by the subtrees themselves: a path is popped exactly if they make up the count and the last link is one of them. |
| `Searches.PopsOnce` | libs/tree-sitter/cbits/ts/src/stack.c:348-416 | In the account of an iterator every trail to pop occurs once. |
| `Searches.StepTotal` | libs/tree-sitter/cbits/ts/src/stack.c:348-416 | A step turns what is below an iterator into results and, beyond the limit, losses; nothing else disappears. |
| `Searches.PeakBelowWidth` | libs/tree-sitter/cbits/ts/src/stack.c:348-416 | The iterators at one time are never more than the ends of the search. |
| `Searches.Enumerated` | libs/tree-sitter/cbits/ts/src/stack.c:324-419 | With no work left, the results are the trails to pop, each once, and all of them if the iterators never were too many. |
| `Quantifiers.AddIsBest` | libs/tree-sitter/cbits/ts/src/query.c:599-646 | `quantifier_add` is the best abstraction of sums. |
| `Quantifiers.AddSound` | libs/tree-sitter/cbits/ts/src/query.c:599-646 | ... and covers every sum. |
| `Quantifiers.JoinIsBest` | libs/tree-sitter/cbits/ts/src/query.c:538-597 | `quantifier_join` is the best abstraction of unions. |
| `Quantifiers.MulIsBest` | libs/tree-sitter/cbits/ts/src/query.c:489-536 | `quantifier_mul` is the best abstraction of repetition. |
| `Quantifiers.MulSound` | libs/tree-sitter/cbits/ts/src/query.c:489-536 | ... and covers every repetition. |
| `PatternQuantifiers.QuantifierSound` | libs/tree-sitter/cbits/ts/src/query.c:2570-2664 | For every pattern, the computed quantifier allows the number of times a capture occurs in every unfolding. |
| `PatternQuantifiers.QuantifierIsBest` | libs/tree-sitter/cbits/ts/src/query.c:2570-2664 | It is the best abstraction: for patterns without empty alternations, a quantifier allows all unfoldings if and only if it covers the computed one. |
| `PatternQuantifiers.RoundsAllowed` | libs/tree-sitter/cbits/ts/src/query.c:2570-2660 | The quantifier of the suffixes allows every number of rounds that they allow. |
| `PatternQuantifiers.CaptureQuantifiers.AddForId` | libs/tree-sitter/cbits/ts/src/query.c:685-695 | Adds to one entry, growing the array with zeros. |
| `PatternQuantifiers.CaptureQuantifiers.AddAll` | libs/tree-sitter/cbits/ts/src/query.c:698-710 | Adds entry by entry, as far as the 16-bit counter goes. |
| `PatternQuantifiers.CaptureQuantifiers.MulAll` | libs/tree-sitter/cbits/ts/src/query.c:713-721 | Multiplies all entries, as far as the 16-bit counter goes. |
| `PatternQuantifiers.CaptureQuantifiers.JoinAll` | libs/tree-sitter/cbits/ts/src/query.c:724-740 | Joins entry by entry; an entry missing on either side counts as zero. |
| `PatternQuantifiers.QuantifySuffixes` | libs/tree-sitter/cbits/ts/src/query.c:2570-2660 | The loop over the suffixes. |
| `PatternQuantifiers.QuantifyBranches` | libs/tree-sitter/cbits/ts/src/query.c:2208-2242 | The branches of an alternation: the first replaces, the others are joined. |
| `PatternQuantifiers.QuantifyItems` | libs/tree-sitter/cbits/ts/src/query.c:2297 | The items of a group or node are added up. |
| `PatternQuantifiers.QuantifyPattern` | libs/tree-sitter/cbits/ts/src/query.c:2178-2664 | The bookkeeping over the shared arrays leaves, for every pattern, exactly these lengths and entries; without capture id 65535 these are the quantifiers of the captures. |
| `PatternQuantifiers.FullIfMentioned` | libs/tree-sitter/cbits/ts/src/query.c:698-721 | An array is too long for the 16-bit loops exactly if capture id 65535 occurs in its pattern. |
| `PatternQuantifiers.ArraySound` | libs/tree-sitter/cbits/ts/src/query.c:698-721 | Otherwise every entry allows what can happen. |
| `PatternQuantifiers.ArraySoundIfCovering` | libs/tree-sitter/cbits/ts/src/query.c:698-721 | With that id or without, an entry allows what can happen if and only if it covers the quantifier. |
| `PatternQuantifiers.BodyRight` | libs/tree-sitter/cbits/ts/src/query.c:2208-2242 | Joining loses nothing: an alternation of patterns with right arrays has a right array before its own suffixes. |
| `PatternQuantifiers.RightAfterSuffixes` | libs/tree-sitter/cbits/ts/src/query.c:2570-2664 | With id 65535 in the branches of such an alternation or in a pattern's own suffixes: the array is right if and only if the suffixes multiply nothing. |
| `PatternQuantifiers.LostInside` | libs/tree-sitter/cbits/ts/src/query.c:698-710 | Inside a group, a node or a field id 65535 is lost: its entry counts the pattern's own suffixes only, which is right if and only if they capture it twice and let the pattern match at least once. |
| `PatternQuantifiers.LastCaptureExample` | libs/tree-sitter/cbits/ts/src/query.c:713-721 | A starred pattern with id 65535, whose array says exactly once although it can occur no time at all. |
| `ParseTables.Lookup` | libs/tree-sitter/cbits/ts/src/language.h:77-97 | Gives the value of a symbol in a large or a small state. |
| `ParseTables.LookupSmall` | libs/tree-sitter/cbits/ts/src/language.h:83-92 | The nested loops find the first group that lists the symbol. |
| `ParseTables.LookaheadIterator.constructor` | libs/tree-sitter/cbits/ts/src/language.h:113-138 | An iterator starts before the first symbol. |
| `ParseTables.LookaheadIterator.Next` | libs/tree-sitter/cbits/ts/src/language.h:140-182 | Visits the next symbol with a value, or reports that all have been visited. |
| `ParseTables.CollectLookaheads` | libs/tree-sitter/cbits/ts/src/language.h:113-182 | Run to its end, the iterator visits the whole list, and terminates. |
| `ParseTables.LookaheadsAgreeWithLookup` | libs/tree-sitter/cbits/ts/src/language.h:77-182 | The symbols on the iterator's list are those whose lookup is not zero, each once, with the value that the lookup gives: always for large states, and for small ones if and only if the values are not zero and no symbol is listed twice. |
| `ParseTables.EmptyGroupExample` | libs/tree-sitter/cbits/ts/src/language.h:140-156 | A small state with an empty group: the first symbol visited is one that no group lists. |
| `Utf8.Append` | libs/tree-sitter/cbits/ts/src/unicode/utf8.h:421-439 | The encoder writes the encoding and nothing else. |
| `Utf8.AdmitsSecond3` | libs/tree-sitter/cbits/ts/src/unicode/utf8.h:90-97 | The bit table admits the second bytes that section 4 of RFC 3629 allows after E0 to EF. |
| `Utf8.AdmitsSecond4` | libs/tree-sitter/cbits/ts/src/unicode/utf8.h:107-114 | The bit table admits the second bytes that section 4 of RFC 3629 allows after F0 to F4. |
| `Utf8.Next` | libs/tree-sitter/cbits/ts/src/unicode/utf8.h:380-406 | A step consumes one to four bytes inside the buffer and gives the code point of the valid sequence there, or an error exactly if there is none. |
| `Utf8.EncodingIsSequence` | libs/tree-sitter/cbits/ts/src/unicode/utf8.h:421-439 | Encodings are the byte sequences of section 4 of RFC 3629. |
| `Utf8.SequenceIsEncoding` | libs/tree-sitter/cbits/ts/src/unicode/utf8.h:380-406 | ... and every such sequence is the encoding of its value. |
| `Utf8.DecodeAll` | libs/tree-sitter/cbits/ts/src/unicode.h:26-34 | Decoding step by step gives all code points or an error among them. |
| `Utf8.RoundTrip` | libs/tree-sitter/cbits/ts/src/unicode.h:26-34 | A text decodes without an error exactly if it is the encoding of scalar values, and then to these. |

## Left out

- The bit layout and the 8-bit fields of inline subtrees, allocation and the free lists of the pools. Except in the modules on memory (`refcounts.dfy`, `shared_trees.dfy`, `shared_edits.dfy`, `shared_balancing.dfy`) inline and heap subtrees are one datatype, and a node's count is a field like any other; in `shared_balancing.dfy` trees show the counts of their cells.
- Overflow and wrap-around of 32-bit sizes and positions, except for the sentinel of the range sweep.
- Rows and columns of edits whose points contradict their documents: the theorems on bytes hold for all edits in order, those on rows and columns for edits described by the texts.
- depends_on_column (which editing reads), the fragile flags, parse_state, dynamic_precedence and has_external_scanner_state_change are not part of the summaries: the code does not compute them from the children alone.
- Repeat depths of the ancestors of a rebalanced node, which the code does not recompute either.
- BalanceBound.BalanceDepth: about repetitions that lean to the left throughout, where every right child has repeat depth 0, as in `BalanceWhole.BalanceDepthBelow` and `BalanceWhole.BalanceDepthInside`; other shapes are covered by the theorems on meaning and by `BalanceWhole.ContentsBalanced` only.
- RotationMeaning.CompressKeepsSummary: the nodes of a repeat symbol with two or more children, which alone are rotated, must be hidden, and their productions must give no child an alias; fields are allowed. Nodes of the built-in repetition of errors must not be extra.
- Ranges.GetChangedRanges: for an empty result array, which the parser clears before. Where the code would read beyond a list, the model stops and says so.
- Stacks.Stack.MergeNodes: the keys (state, position, cost) of the nodes below the two must come in layers, such that links lead down. If a node had its own key again below it, merging the two would make a cycle: the code itself only rejects a link from a node to itself. `Stacks.Stack.Merge` asks the same when the versions can be merged.
- Stacks.Stack.AddLink: a missing subtree counts as dynamic precedence 0; node counts and precedences are carried along but nothing is claimed about them. Subtrees in the stack are values; comparing them by reference makes no difference, since equal subtrees pass the other tests.
- StackGraphs.WaysKept: up to subtrees like those on the links, since a link may come to hold an equivalent subtree, and up to the first full node, where the code drops links.
- PatternQuantifiers.QuantifierIsBest: for patterns without empty alternations; one of those matches nothing at all, but has the quantifier zero.
- Stacks.Stack.PopCount: completeness is for stacks where never more than 64 iterators are alive at one time; beyond that the code drops paths.
- Reference counts of stack nodes, summaries of heads, pausing, and popping of pending or erroneous subtrees; the general iteration is modelled for callbacks that are functions of the iterator.
- `ts_tree_cursor_goto_previous_sibling`, `ts_tree_cursor_goto_last_child`, searches by byte or point, fields, and named-only children.
- The comparison of two trees in `get_changed_ranges.c` from line 113 on.
- Query parsing proper: patterns are given as parsed terms, predicates and syntax errors are left out, and so is the matching of compiled query steps.
- The action entries behind a table value, which the iterator looks up once for each group.
- UTF-16 decoding, the parse loop and error recovery, lexing, external scanners, WebAssembly, logging and printing.
