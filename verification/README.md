# Ordered trees and heartbeat sender of l1comm

This project models two parts of the repository and proves properties of them:

- the two families of search trees in `include/uv/tree.h`: the red-black tree with parent
  pointers (`RB_*`) and the top-down splay tree (`SPLAY_*`);
- the sender thread in `src/l1_send_worker.cc` with the counter in `src/l1_num_generator.h`.

## The trees

Both trees are classes over nodes in the heap, and every method does the pointer writes of the
macro it models, in the macro's order. A node has mutable links (and, in the red-black tree, a
parent link and a colour) and a constant `key`; `cmp` is the sign of the comparison of two keys.
Keys are integers, which covers every total order on the finitely many elements of a run. Macro
fragments that occur several times, such as redirecting the link from above, are methods of
their own, and the two mirror-image halves of each macro are both modelled.

A tree object carries three ghost fields: `shape`, the tree as a value over the node references;
`contents`, its in-order sequence; and `repr`, the set of its nodes. `Valid()` ties them to the
heap. For the red-black tree it says that every left, right and parent link and every colour is
the one `shape` gives (so links are mutual and there is no cycle), that the root is black, no red
node has a red child and all paths to a leaf have the same number of black nodes, and that
`contents` has strictly ascending keys. For the splay tree it says the same of the links and the
order. Results are stated on `contents`: `Inserted(s, x, r)` says that `r` is `s` with `x` put in
at one place, and together with the ascending keys it determines the sequence.

Files, in reading order:

| file | content |
|---|---|
| `Arithmetic.dfy` | powers, logarithms and products |
| `Sequences.dfy` | putting elements into sequences and taking them out, their keys and neighbours |
| `RedBlackShape.dfy` | red-black trees as values, paths to the root, colour and order lemmas, height |
| `RedBlackTree.dfy` | the red-black tree in the heap |
| `RedBlackLoops.dfy` | the iteration macros |
| `SplayShape.dfy` | splay trees as values, the three pieces of the splay loop |
| `SplayDepth.dfy` | what a splay does to depths |
| `SplayWeight.dfy`, `SplayBalance.dfy` | what splays cost in the long run |
| `SplayTree.dfy` | the splay tree in the heap |
| `OrderedSet.dfy`, `Refinement.dfy` | one specification, met by both trees |
| `SplayRuns.dfy` | the balance theorem for runs of operations |
| `NumGenerator.dfy`, `Heartbeat.dfy` | the counter, and the sender as a state machine |
| `History.dfy` | what a run of the sender means, told from the delivered events alone |
| `Sender.dfy` | the sender thread and its callbacks |

The fix-up loops of the red-black tree work at a place: a subtree together with the path from it
to the root. `Hot` says that the only thing that may be wrong is a red node below a red parent at
that place (or a red root), `Short` that every path through the place has exactly one black node
too few, `Fit` that nothing is wrong. The splay loop works on a left, a middle and a right tree;
the links at the two open ends, which the header node holds while a tree is empty, may hold
anything until the end. `Splayed(t, k)` is the exact shape the loop leaves.

Logarithms are stated with powers: `Logarithmic(steps, n)` says that 2 to the `steps` is at most
the square of n + 1, that is, `steps` is at most 2 lg (n + 1). For the splay tree the weight of a
tree, the product of the sizes of its subtrees, stands for the sum of logarithms that the
balance theorem uses as potential. `Afforded(steps, after, before, n)` says that an operation
took at most 6 lg (n + 1) + 2 rounds of splaying, less what it added to the lg of the weight.
The loop takes a zig-zag one level at a time, so such a turn is paired with what follows it:
the textbook bound of 3 lg n + 1 for one splay still holds.

Preconditions are those of the macros: `RB_REMOVE`, `RB_NEXT`, `RB_PREV` and `SPLAY_NEXT` are
given an element of the tree, `SPLAY` and `SPLAY_MINMAX` dereference the root. `SPLAY_MINMAX`
never leaves its loop when its argument is 0, and is only called with -1 and 1. `SPLAY_REMOVE`
returns its argument, which need not be the node that left the tree; the ghost result names that
node.

## The sender

`Heartbeats.State` is the state of one run from Start to Stop: what the thread and its callbacks
share, what was passed to the event loop, and what is under way. Between two rounds of the
thread's loop the event loop may deliver callbacks in any order, limited only to one completion
for each connect and each write that was started and to timer callbacks while a timer runs.
`Senders.Sender` has the fields that the thread and its callbacks update, and each of its methods
is proved to do one step of that model; `ThreadTask` is a whole run.

`Histories.Follows(s, h)` says what every field of the state is after a history `h` of delivered
events, without the steps of the state machine: the status is 1 exactly when a connection was
made and no failure came since, the timer runs exactly when a connection was made and no write
failed since, and the numbers under way are counts of events. `Record` is the history of a run:
of the events that are offered, those happen that the history makes possible.

Two expectations fail, and the exact conditions are proved. The timer does not always stop when
the connection is lost: it runs exactly while the sender is connected if and only if no connect
failure arrives while connected, and `RunningWhileDisconnected` is a run in which one does. Such
a late failure needs two attempts under way at once (one connect request serves them all). They
overlap exactly when the thread reconnects while disconnected with a connect still pending,
which needs a heartbeat of an earlier connection to fail while the sender is connecting.
After the loop the thread closes its socket without looking whether it has one; it has one if and
only if the loop ran at least once.

The comment at `src/l1.h:13` gives 0 to 32767 as the range of heartbeat numbers; the
counter runs from 0 to 65534, and the model follows the counter.

## Model

| member | source | states |
|---|---|---|
| RedBlackTrees.RedBlackTree.Remove | include/uv/tree.h:530-595 | for every valid tree and every element of it: that node is returned, the tree stays a valid red-black tree, and its contents lose exactly that node; each loop takes at most 2 lg (n+1) rounds and there are at most three rotations |
| RedBlackTrees.RedBlackTree.RemoveInner | include/uv/tree.h:539-578 | two children: the loop finds the minimum of the right subtree within 2 lg (n+1) steps, which takes the place of the removed node; the tree ends valid without that node |
| RedBlackTrees.RedBlackTree.RemoveMinimum | include/uv/tree.h:544-577 | unlinking the minimum, the case where its parent is the removed node, and the hand-over of the place end in a valid tree without the removed node |
| RedBlackTrees.RedBlackTree.TakePlace | include/uv/tree.h:559-570 | copying the link record and redirecting the neighbours puts the other node in the same place with the same subtrees and colour; the unguarded left child exists |
| RedBlackTrees.RedBlackTree.TakeLinks | include/uv/tree.h:559-567 | the record copy leaves both subtrees intact and the link from above names the new node |
| RedBlackTrees.RedBlackTree.Splice | include/uv/tree.h:579-590 | a node with at most one child is replaced by that child, links mutual again, contents without the node |
| RedBlackTrees.RedBlackTree.RemoveEnd | include/uv/tree.h:591-594 | after the link surgery a fit place needs nothing and a short one is repaired; the tree is valid and its contents are unchanged |
| RedBlackTrees.RedBlackTree.RemoveColor | include/uv/tree.h:451-528 | from any place that is one black node short, the loop ends, after at most as many rounds as the place is deep and at most three rotations, with a red-black tree and the same contents |
| RedBlackTrees.RedBlackTree.RemoveColorLeft | include/uv/tree.h:458-490 | one round: the sibling exists, and the round either repairs the whole tree or leaves a short place that is higher up or red; a round that rotates is the last |
| RedBlackTrees.RedBlackTree.RemoveColorRight | include/uv/tree.h:491-524 | the mirror image |
| RedBlackTrees.RedBlackTree.RemoveColorLeftBlack | include/uv/tree.h:465-490 | black sibling: the parent's place becomes the short one, or the tree is repaired |
| RedBlackTrees.RedBlackTree.RemoveColorRightBlack | include/uv/tree.h:498-523 | the mirror image |
| RedBlackTrees.RedBlackTree.TurnNearLeft | include/uv/tree.h:473-482 | a red near nephew becomes a red far nephew of a black sibling, the place still short |
| RedBlackTrees.RedBlackTree.TurnNearRight | include/uv/tree.h:506-515 | the mirror image |
| RedBlackTrees.RedBlackTree.RemoveColorFarLeft | include/uv/tree.h:483-489 | with a red far nephew the last rotation makes the whole tree red-black |
| RedBlackTrees.RedBlackTree.RemoveColorFarRight | include/uv/tree.h:516-522 | the mirror image |
| RedBlackTrees.RedBlackTree.RootBelow | include/uv/tree.h:456-457 | the loop's test against the root succeeds exactly when nothing is above the subtree |
| RedBlackTrees.RedBlackTree.Insert | include/uv/tree.h:597-626 | null exactly when the key was missing, and then exactly the new node was added; otherwise the element with that key, and no field of any node or of the head changed; each loop takes at most 2 lg (n+1) rounds and there are at most two rotations |
| RedBlackTrees.RedBlackTree.Attach | include/uv/tree.h:327-331 | the new node is a red leaf at the place the search ended, and the contents gain it there |
| RedBlackTrees.RedBlackTree.LinkChild | include/uv/tree.h:616-623 | the link from above names the new node, on the side of the last comparison |
| RedBlackTrees.RedBlackTree.InsertColor | include/uv/tree.h:407-449 | from any place whose only fault is a red node below a red parent, the loop ends, after at most as many rounds as the place is deep and at most two rotations, with a red-black tree and the same contents |
| RedBlackTrees.RedBlackTree.InsertColorLeft | include/uv/tree.h:414-429 | one round: the fault, if any is left, is the same kind of fault strictly higher up; a round that rotates is the last |
| RedBlackTrees.RedBlackTree.InsertColorRight | include/uv/tree.h:430-446 | the mirror image |
| RedBlackTrees.RedBlackTree.RotateLeft | include/uv/tree.h:342-360 | the heap holds the rotated subtree in the same place of the same tree, contents unchanged |
| RedBlackTrees.RedBlackTree.RotateRight | include/uv/tree.h:362-380 | the mirror image |
| RedBlackTrees.RedBlackTree.ReplaceChild | include/uv/tree.h:348-354 | the one link that named a node from above names another one, everything above unchanged |
| RedBlackTrees.RedBlackTree.Find | include/uv/tree.h:628-644 | an element with the key, or null exactly when no element has it, within 2 lg (n+1) steps |
| RedBlackTrees.RedBlackTree.NFind | include/uv/tree.h:646-665 | the least element not below the key, or null when every element is below it, within 2 lg (n+1) steps |
| RedBlackTrees.RedBlackTree.SearchEnd | include/uv/tree.h:604-614 | where a search ends, everything before the place is below the key and everything after it above |
| RedBlackTrees.RedBlackTree.FirstAfterIsLeast | include/uv/tree.h:655-664 | the last node where the search went left is the least element above a missing key |
| RedBlackTrees.RedBlackTree.Next | include/uv/tree.h:667-687 | the exact in-order successor, null at the end, within 2 lg (n+1) links |
| RedBlackTrees.RedBlackTree.Prev | include/uv/tree.h:689-709 | the exact in-order predecessor, null at the start, within 2 lg (n+1) links |
| RedBlackTrees.RedBlackTree.MinMax | include/uv/tree.h:711-724 | the first or the last element, null exactly for the empty tree, within 2 lg (n+1) steps |
| RedBlackTrees.RedBlackTree.PlaceDepth | include/uv/tree.h:60 | no place of a red-black tree is deeper than 2 lg (n+1), which bounds every loop of the operations |
| RedBlackTrees.RedBlackTree.constructor | include/uv/tree.h:306-308 | an empty tree is valid |
| RedBlackLoops.Foreach | include/uv/tree.h:738-741 | visits every element once, in ascending order, and terminates |
| RedBlackLoops.ForeachReverse | include/uv/tree.h:753-756 | visits every element once, in descending order, and terminates |
| RedBlackLoops.ForeachSafe | include/uv/tree.h:748-751 | when the body removes any chosen elements as it meets them, every original element is still visited once in ascending order, and exactly the others remain, in order |
| RedBlackLoops.Drain | include/uv/tree.h:748-751 | removing each current element visits all of them in order and empties the tree |
| RedBlackLoops.MidwayRemoved | include/uv/tree.h:748-751 | removing the current element keeps the unvisited rest of the sequence in place |
| RedBlackLoops.ThereAndBack | include/uv/tree.h:667-709 | the predecessor of the successor is the element itself, for every element but the last |
| RedBlackLoops.BackAndThere | include/uv/tree.h:667-709 | the successor of the predecessor is the element itself, for every element but the first |
| RedBlackLoops.BothLookups | include/uv/tree.h:628-665 | both lookups for a present key return the same element; for a missing one the lower bound lies above the key |
| RedBlackShape.HeightBound | include/uv/tree.h:61 | a red-black tree of n nodes has height at most 2 lg (n+1) |
| RedBlackShape.HeightByBlackHeight | include/uv/tree.h:55-58 | the height is at most twice the black height, plus one below a red root |
| RedBlackShape.SizeByBlackHeight | include/uv/tree.h:55-56 | black height b needs at least 2^b - 1 nodes |
| RedBlackShape.FitPlug | include/uv/tree.h:53-58 | a place is fit exactly when the whole tree around it meets the red-black conditions |
| RedBlackShape.PlacedRotated | include/uv/tree.h:342-380 | a rotation, in either direction, keeps the search order, the nodes and the in-order sequence |
| RedBlackShape.HotGrandparent | include/uv/tree.h:411-414 | a red parent is never the root, and its parent is black |
| RedBlackShape.HotRecoloredLeft | include/uv/tree.h:416-420 | recolouring moves the clash up two levels and leaves nothing else wrong |
| RedBlackShape.HotRecoloredRight | include/uv/tree.h:432-436 | the mirror image |
| RedBlackShape.HotInnerLeft | include/uv/tree.h:422-427 | rotating at the parent swaps the roles of the two red nodes and nothing else |
| RedBlackShape.HotInnerRight | include/uv/tree.h:438-443 | the mirror image |
| RedBlackShape.HotOuterLeft | include/uv/tree.h:428-429 | rotating at the grandparent leaves the red node below a black parent |
| RedBlackShape.HotOuterRight | include/uv/tree.h:444-445 | the mirror image |
| RedBlackShape.HotBlackened | include/uv/tree.h:448 | at the end of the loop, blackening a red root completes the repair |
| RedBlackShape.ShortSibling | include/uv/tree.h:459-460 | the sibling of a short place is never null |
| RedBlackShape.ShortRedSiblingLeft | include/uv/tree.h:460-464 | after the red-sibling rotation the same place is short, below a red parent, with a black sibling |
| RedBlackShape.ShortRedSiblingRight | include/uv/tree.h:493-497 | the mirror image |
| RedBlackShape.ShortReddenedLeft | include/uv/tree.h:465-471 | reddening the sibling makes exactly the parent's place short |
| RedBlackShape.ShortReddenedRight | include/uv/tree.h:498-504 | the mirror image |
| RedBlackShape.ShortNearLeft | include/uv/tree.h:473-481 | turning the near nephew outward keeps the same place short |
| RedBlackShape.ShortNearRight | include/uv/tree.h:506-514 | the mirror image |
| RedBlackShape.ShortFarLeft | include/uv/tree.h:483-487 | the last rotation leaves nothing wrong |
| RedBlackShape.ShortFarRight | include/uv/tree.h:516-520 | the mirror image |
| RedBlackShape.ShortBlackened | include/uv/tree.h:526-527 | blackening a red short node, or reaching the root, completes the repair |
| RedBlackShape.SplicedFit | include/uv/tree.h:580-593 | taking out a red node with at most one child leaves nothing wrong, a black one leaves its place exactly one short |
| RedBlackShape.MinimumOrder | include/uv/tree.h:541-543 | the minimum of the right subtree lies between the removed node and what remains there; its parent is the removed node exactly when the descent made no step |
| RedBlackShape.MinimumContents | include/uv/tree.h:541-570 | with the minimum in its place, the removed node and nothing else is missing from the in-order sequence |
| RedBlackShape.MinimumFit | include/uv/tree.h:544-577 | the minimum's old place is fit or short by the minimum's own colour, whichever node is above |
| SplayTrees.SplayTree.Splay | include/uv/tree.h:209-242 | for every non-empty tree and every key: same elements in the same order, and the root holds the key or stands directly next to where it belongs; the shape is exactly Splayed of the old one, within as many rounds as the search for the key visits nodes |
| SplayTrees.SplayTree.RoundLeft | include/uv/tree.h:219-228 | one round below the root either can go no further or shortens the search that is left, and ends in the same splayed tree |
| SplayTrees.SplayTree.RoundRight | include/uv/tree.h:229-238 | the mirror image |
| SplayRuns.RunFromEmpty | include/uv/tree.h:49-51 | the balance theorem: any run of operations on an initially empty tree, n of them insertions, takes at most 6 l + 2 rounds for each operation, for every l with n + 1 at most 2 to the l, and answers what the operations alone determine |
| SplayRuns.SplayRun | include/uv/tree.h:49-51 | the same from any tree of m elements: 6 l + 2 rounds for each operation and l for each element at the start |
| SplayRuns.InLogarithms | include/uv/tree.h:49-51 | the bound on products of sizes is that bound on the number of rounds |
| SplayBalance.SplayPaid | include/uv/tree.h:49-51 | the access lemma, in products: the nodes on the searched path, and the weight left behind, are paid for by the weight before and 3 lg n + 1 |
| SplayBalance.RaisedPaid | include/uv/tree.h:218-240 | the induction over the path, by pairs and triples of levels |
| SplayBalance.SplayedIsRaised | include/uv/tree.h:218-241 | the top-down loop with its two side trees leaves the tree that rotating the searched node up leaves |
| SplayWeight.ZigZigLeft | include/uv/tree.h:223-228 | two levels in one direction are paid for by the sizes they change |
| SplayWeight.ZigZagLeft | include/uv/tree.h:219-238 | one level each way, likewise |
| SplayWeight.ZigZagZagLeft | include/uv/tree.h:219-238 | one level one way and two the other, likewise: the turn the simplified loop takes one level at a time |
| SplayBalance.InsertAffords | include/uv/tree.h:170-180 | a splay and the split at the root stay within the budget of an operation |
| SplayBalance.RemoveAffords | include/uv/tree.h:194-203 | both splays and the join stay within the budget of an operation |
| SplayBalance.WeightBound | include/uv/tree.h:49-51 | a tree of n nodes weighs at most n to the n |
| SplayDepth.SplayHalves | include/uv/tree.h:41-43 | the splay partly rebalances: every node on the search path ends at a depth of at most half the length of that path, plus two |
| SplayDepth.SplayLoopHalves | include/uv/tree.h:218-240 | at every round both growing trees have an edge of at most half the path searched so far, and a node that left the middle tree keeps its depth |
| SplayTrees.SplayTree.NearDecides | include/uv/tree.h:134-136 | after the splay, a key that is not at the root is nowhere in the tree |
| SplayTrees.SplayTree.SplayMinMax | include/uv/tree.h:244-278 | terminates for either sign; same elements in the same order, the root has no left (right) child, and the shape is that of a splay for a key below (above) all others |
| SplayTrees.SplayTree.MinMax | include/uv/tree.h:153-158 | the first (last) element, which is then the root; within the budget of an operation |
| SplayTrees.SplayTree.Min | include/uv/tree.h:287-288 | the first element, null exactly for the empty tree; within the budget of an operation |
| SplayTrees.SplayTree.RotateRight | include/uv/tree.h:88-92 | the heap holds the rotated middle tree |
| SplayTrees.SplayTree.RotateLeft | include/uv/tree.h:94-98 | the mirror image |
| SplayTrees.SplayTree.LinkLeft | include/uv/tree.h:100-104 | the root and its right subtree join the right tree at its open end, nothing is lost |
| SplayTrees.SplayTree.LinkRight | include/uv/tree.h:106-110 | the mirror image |
| SplayTrees.SplayTree.Assemble | include/uv/tree.h:112-117 | the middle root on top of the two closed trees is a valid tree with the same contents, also when either tree is empty |
| SplayTrees.SplayTree.Find | include/uv/tree.h:127-137 | the element with the key, now the root, or null exactly when there is none; within the budget of an operation |
| SplayTrees.SplayTree.Insert | include/uv/tree.h:164-186 | null exactly when the key was missing, and then exactly the new node was added, as the root; otherwise the element with that key, and the elements are unchanged; within the budget of an operation |
| SplayTrees.SplayTree.InsertBefore | include/uv/tree.h:173-176 | splitting at a root that follows the key is sound and loses nothing |
| SplayTrees.SplayTree.InsertAfter | include/uv/tree.h:177-180 | splitting at a root that precedes the key is sound and loses nothing |
| SplayTrees.SplayTree.Remove | include/uv/tree.h:188-207 | null exactly when the key was missing, and then the elements are unchanged; otherwise the argument is returned and exactly the element with its key is gone; within the budget of an operation |
| SplayTrees.SplayTree.JoinSubtrees | include/uv/tree.h:199-202 | after the second splay the overwritten right link was null; the result holds both subtrees in a row |
| SplayTrees.SplayTree.NoRight | include/uv/tree.h:201-202 | splayed for a key above all elements, the root has no right child |
| SplayTrees.SplayTree.Next | include/uv/tree.h:139-151 | the exact in-order successor, null at the end, elements unchanged |
| SplayTrees.Foreach | include/uv/tree.h:292-295 | visits every element once, in ascending order, and terminates although each step reshapes the tree |
| SplayTrees.SplayTree.constructor | include/uv/tree.h:72-74 | an empty tree is valid |
| SplayTrees.LeftCloses | include/uv/tree.h:113-115 | closing the open end of the left tree in the heap yields the closed tree below the header's right link |
| SplayTrees.RightCloses | include/uv/tree.h:114-116 | the mirror image |
| SplayTrees.SplayTree.AssembledNear | include/uv/tree.h:218-240 | at every exit of the loop the root is the key or its direct neighbour |
| SplayShape.HoldsRotated | include/uv/tree.h:88-98 | rotating the middle tree keeps the order across the three pieces |
| SplayShape.HoldsLinkedLeft | include/uv/tree.h:100-104 | linking left keeps the order and the elements across the three pieces |
| SplayShape.HoldsLinkedRight | include/uv/tree.h:106-110 | the mirror image |
| SplayShape.HoldsAssembled | include/uv/tree.h:112-117 | the assembled tree has the in-order sequence of the three pieces in a row and is in search order |
| SplayShape.SplitBeforeSorted | include/uv/tree.h:173-176 | with the new node over the split trees the keys ascend and exactly that node is new |
| SplayShape.SplitAfterSorted | include/uv/tree.h:177-180 | the mirror image |
| SplayShape.RootRemoved | include/uv/tree.h:195-203 | the two subtrees in a row are the old contents without the root |
| Refinement.RedBlackStep | include/uv/tree.h:530-644 | one insertion, removal of a found element or lookup: the key set gains or loses exactly that key, and the answer says whether the key was absent (insertion) or present (removal and lookup) |
| Refinement.SplayStep | include/uv/tree.h:128-207 | the same for the splay tree |
| Refinement.RunBoth | include/uv/tree.h:128-644 | for every finite sequence of operations, at every step both trees answer an insertion with whether its key was absent and a removal or lookup with whether it was present, where a key is present if the last insertion or removal of it was an insertion; both end with exactly the present keys, in the same order |
| OrderedSet.AnswersTruthful | include/uv/tree.h:128-644 | the answers and the final set of the specification are those that the sequence of operations alone determines |
| OrderedSet.FinalPresent | include/uv/tree.h:128-644 | after each number of operations the set holds exactly the keys whose last insertion or removal was an insertion |
| OrderedSet.SortedUnique | include/uv/tree.h:53-54 | a set of keys has exactly one ascending enumeration |
| Sequences.RemovalUndoesInsertion | include/uv/tree.h:530-626 | taking out what was put in restores the sequence |
| NumGenerators.NumGenerator.GetNum | src/l1_num_generator.h:8-13 | the i-th number is i mod max, the increment never leaves the type, max itself never comes out |
| NumGenerators.WindowDistinct | src/l1_num_generator.h:8-13 | any max numbers in a row are pairwise different |
| Heartbeats.InvariantStep | src/l1_send_worker.cc:31-137 | every step of thread or callback keeps the ownership invariant: every socket but the current one closed once, connects started only when disconnected, every timer but the current one freed once, no timer running but the current one and none that was freed, connected only with a running timer |
| Heartbeats.TimerReplaced | src/l1_send_worker.cc:84-95 | a new connection stops the old timer, frees it and leaves only the new one running |
| Heartbeats.RunInvariant | src/l1_send_worker.cc:112-143 | the invariant holds after every run, whatever the order of events |
| Histories.RunHistory | src/l1_send_worker.cc:31-143 | after every run, whatever the events and their order, each field of the state is what the delivered events alone say: status 1 exactly after a connection without a later failure, the timer running exactly after a connection without a later write failure, attempts, timers, heartbeats and what is under way by counting, heartbeat i numbered i mod 65535 and sent to the newest socket |
| Histories.FollowsStep | src/l1_send_worker.cc:31-131 | one step of the thread or of a callback, for each event |
| Histories.PossibleEnabled | src/l1_send_worker.cc:69-131 | what can happen next is decided by the history: one completion for each connect and each write, timer callbacks while the timer runs |
| Histories.HistoryDetermines | src/l1_send_worker.cc:12-23 | no two states fit the same history |
| Histories.RunEnded | src/l1_send_worker.cc:112-151 | after the loop everything is balanced, no timer runs, and status and heartbeats are those of the history |
| Histories.WrittenHarmless | src/l1_send_worker.cc:39-45 | a write that succeeds changes nothing but the number of writes under way |
| Histories.NumbersWrap | src/l1_send_worker.cc:54-57 | heartbeat 65534 of any run carries 65534 and heartbeat 65535 carries 0 |
| Heartbeats.HeartbeatTarget | src/l1_send_worker.cc:47-70 | a heartbeat is written to a socket that exists and was not closed, the newest one |
| Heartbeats.ShutdownBalanced | src/l1_send_worker.cc:145-151 | after the loop every socket was closed once, every timer freed once, and no timer runs |
| Heartbeats.RunningWhileDisconnected | src/l1_send_worker.cc:72-82 | a run that ends disconnected with its timer running |
| Heartbeats.InStepThroughout | src/l1_send_worker.cc:31-96 | the timer runs exactly while connected, all along a run, if and only if the run delivers no connect failure to a connected sender |
| Heartbeats.AtMostOneThroughout | src/l1_send_worker.cc:112-131 | at most one connect is under way, all along a run, if and only if the thread never starts one while disconnected with one still pending |
| Heartbeats.SettledThroughout | src/l1_send_worker.cc:31-38 | a connect is pending exactly while the status says connecting, all along a run, if and only if no write failure is delivered to a connecting sender |
| Heartbeats.OverlapNeedsInterruption | src/l1_send_worker.cc:31-38 | a second pending connect is always preceded by a write failure delivered while connecting |
| Heartbeats.LateNeedsOverlap | src/l1_send_worker.cc:72-82 | a connect failure delivered to a connected sender is always preceded by two connects pending at once |
| Heartbeats.OverlapReached | src/l1_send_worker.cc:112-131 | a run from the start that ends with two connects pending |
| Senders.Sender.Round | src/l1_send_worker.cc:113-138 | one round of the loop is the model's step, and the sleep is the short one exactly when connected |
| Senders.Sender.ReplaceSocket | src/l1_send_worker.cc:118-125 | the old socket, if any, is closed and a new one takes its place for the thread and the callbacks |
| Senders.Sender.OnConnect | src/l1_send_worker.cc:72-96 | the callback is the model's step; a failure sets the status to -1 and leaves timers and sockets alone, a success sets it to 1 and replaces the timer, and no timer is freed while it runs |
| Senders.Sender.FreeTimer | src/l1_send_worker.cc:86-90 | a timer is freed only after it was stopped |
| Senders.Sender.RestartTimer | src/l1_send_worker.cc:86-95 | the old timer, if any, is stopped and then freed, and only the new one runs |
| Senders.Sender.OnTimer | src/l1_send_worker.cc:47-70 | the callback is the model's step; the payload number is the count of earlier heartbeats mod 65535 and goes to the current socket; status and timer stay |
| Senders.Sender.OnWrite | src/l1_send_worker.cc:31-45 | the callback is the model's step; a success leaves status, timer and socket alone, a failure sets the status to -1 and stops the timer, which exists |
| Senders.Sender.Finish | src/l1_send_worker.cc:145-151 | what follows the loop is the model's shutdown: the socket is closed, the timer stopped and then freed; reports whether there was a socket |
| Senders.Sender.ThreadTask | src/l1_send_worker.cc:98-154 | a whole run with any callbacks in every round: every socket closed exactly once, every timer stopped and freed exactly once, status, attempts and heartbeats as the delivered events say, heartbeat i numbered i mod 65535, and a socket to close exactly if the loop ran |

## Left out

- Senders.Sender.Finish: the unguarded close of a missing socket has no effect in the model; the result says when it occurs.
- Senders.Sender.Round: what the event loop does with a socket, and failures of the calls that start a connect or a write, are not modelled.
- The closing of the connect request, and timers freed without being closed: they rest on the event loop library, which is not part of this model.
- Restart after Stop, and closing the event loop from another thread: the model is one run, with the callbacks on the sender's own thread.
- `RB_AUGMENT`: a no-op unless an application defines it.
- SplayTrees.SplayTree.Next: the walk down the right subtree after the splay is outside the budget, since that walk splays nothing.
- `RB_FOREACH_FROM`, `RB_FOREACH_REVERSE_FROM`, `RB_FOREACH_REVERSE_SAFE` and `SPLAY_MAX`: the loops and calls that are modelled, started elsewhere or mirrored.
- The receiver (`src/l1_receive_worker.cc`), the message bit fields (`src/l1.h`), scripts and samples.
