# RRB-trees: a verified model

A Dafny model of a C library of persistent vectors. A vector is a radix tree of
width `B` with a tail leaf beside it. A node may carry a table of the running
sizes of its children; a node without one is indexed by radix arithmetic alone.
The model covers the persistent operations (`src/rrb.c`), the transient ones that
write in place (`src/rrb_transients.h`), the consistency validator
(`src/rrb_debug.h`), and the parallel search that merges vectors pairwise
(`benchmark-suite/pgrep_rrb.c` and its twin over arrays).

The meaning of a vector is a plain sequence, `View(v)`: the leaves of the tree in
order, then the tail. `B` is any number from two up. Heights stand for shifts:
`index >> shift` is `index / Pow(h)`, `index & RRB_MASK` is `index % B`.

## Two invariants

`Readable` (Tree.dfy) is what every operation leaves, and enough to look up, update,
pop, slice and concatenate: leaves at one depth, every node between 1 and `B` slots,
exact tables, every child but the last of a table-less node full, nothing with a
table below a node without one, and a tail that is not empty unless the vector is.
Off the right spine a table-less node is full, unless it has one child and lies on
the left edge, where slicing makes such nodes; and where radix arithmetic counts on
a full last leaf and does not find one, the tree is a stub: that one leaf under nodes
of one child (`Intact`). So whatever a vector of more than `B` elements is short of in
its last leaf, it has more than that in its tail (`Appending.TailLonger`), and both
walks of push_down_tail find their way in every such vector.

`Readable` is an invariant, and `Reads` (Reading.dfy) is what it is for: that rrb_nth,
on any head at all, returns every element of a sequence.

`Pushable` adds what push relies on: the root is missing exactly while the vector has
at most `B` elements, and nothing is missing from the last leaf.

## Results that are not plain confirmations

Pop and slice keep `Readable` but not `Pushable`. A comment in the source
(src/rrb.c:1176-1179) leaves open what that means; here it is settled.

- Push always puts its element last, but rrb_nth reads all of the result, and the
  result is `Readable`, if and only if the tail has room or nothing is missing from the
  last leaf (`Appending.Push`). `History.PushAfterPop` is a run of pushes, one
  concatenation, one pop and one push after which `rrb_nth` does not find element 1.
- Concatenation of any two readable vectors appends, into a vector rrb_nth reads and
  one that is readable, if and only if `Concatenation.Joins` holds.
  `History.ConcatAfterPops` is a run after which the left vector has a tree although
  it has at most `B` elements; the guard at src/rrb.c:703 then takes it to have none,
  and its first element is lost.

Neither happens to a vector made by create, push, update and concat: all of those
are `Pushable`, after every run. A run with pops and slices in it, carried out with
care, stops short only at a push or a concatenation for which one of the two conditions
is false of the very vectors made so far (`History.Eval`, `History.Made`).

What validate_rrb passes need not be readable. It is, element for element, if and only
if no table lies where the index arrives too high for it (`Reading.ReadIffClean`), and
for every `B` there is a vector it passes that rrb_nth misreads
(`Reading.ValidButMisread`).

## Layout

| file | about |
|---|---|
| Tree.dfy, Radix.dfy, Sequences.dfy | nodes, the head, the meaning, the invariants; division; joining sequences |
| Validation.dfy, Reading.dfy | validate_rrb; what rrb_nth reads on any tree, and on which valid ones it reads all |
| Lookup.dfy | rrb_nth, rrb_update |
| Appending.dfy, Spines.dfy | rrb_push, push_down_tail; what is full, what is a stub |
| ConcatPlan.dfy, Rebalancing.dfy, Concatenation.dfy | rrb_concat: the plan, its execution, the zip |
| Popping.dfy, Slicing.dfy | rrb_pop, rrb_slice |
| History.dfy | runs of the persistent operations |
| Programs.dfy | runs of many vectors, persistent and transient, as plain sequences |
| Cells.dfy, Copies.dfy, Transients.dfy, Isolation.dfy | memory with owners, what has to be copied, writing in place, the same runs over shared cells, persistent push and update among them |
| Reduction.dfy, Grep.dfy | the barrier protocol, the parallel search |

Code that loops or writes is a method proved against a function or a property;
code that only computes is a function. The slices edit a head in place, so the head
is a class there; the transients live in the class `World`, whose memory maps
addresses to cells, so that vectors share cells as they do in the source.

## Model

| member | source | states |
|---|---|---|
| RrbTree.SizeBounds | src/rrb.c:59-91 | a well-formed subtree is never empty and never over the capacity of its height |
| RrbTree.DenseOffset | src/rrb.c:931-934 | before child i of a table-less node lie exactly i full subtrees |
| RrbTree.PushableReadable | src/rrb.c:685-697 | a vector that push can extend can be read |
| Spines.InsideIntact | src/rrb.c:977-1001 | what lay before a leaf that is gone is fit to end a vector |
| Radix.Digit | src/rrb.c:932 | the slot of a level depends only on what is left of the index below it, so the index need not be reduced on the way down |
| Lookup.SizedPos | src/rrb.c:902-913 | the guess never overshoots, the scan without a bound check stops inside the table, and the slot and rest it finds hold the element |
| Lookup.GuessIsLow | src/rrb.c:904-906 | the children before the guessed slot hold no more than index elements |
| Lookup.RadixPos | src/rrb.c:932 | the slot radix arithmetic computes in a table-less node holds the element |
| Lookup.Descend | src/rrb.c:931-939 | one level down, on a node with or without a table, to the child that holds the element sought |
| Lookup.Nth | src/rrb.c:921-942 | element i of the sequence, or NULL from cnt on; and it is what Get says of any head |
| Lookup.FlattenPlug | src/rrb.c:1341-1360 | writing through the last pointer of a copied path changes exactly the elements below that pointer |
| Lookup.Update | src/rrb.c:1330-1366 | the sequence with position i replaced, in a vector of the same shape and tables; NULL out of range; both invariants kept |
| Lookup.UpdatedOnce | src/rrb.c:1330-1366 | there is only one such vector |
| Lookup.UpdateTree | src/rrb.c:1341-1360 | the descent reaches the leaf of element i, and the copied path differs there only |
| Lookup.SameShapeKeeps | src/rrb.c:1330-1366 | both invariants are about shape and tables, not about elements |
| ConcatPlan.Plan | src/rrb.c:478-518 | every count stays in 1..B, the total is kept, and exactly min(len, ceil(total/B) + 2) slots are left |
| ConcatPlan.Redistribute | src/rrb.c:499-506 | the inner loop ends before the last slot in use, leaves one slot over and every slot before it full |
| ConcatPlan.DissolveNext | src/rrb.c:494-515 | one round of the outer loop: the search without a bound check stops, one slot is dissolved, and i stays below the new length |
| ConcatPlan.DissolveFacts | src/rrb.c:494-515 | dissolving the first slot that is not full keeps the total and the bounds and drops one slot |
| ConcatPlan.DissolveSkips | src/rrb.c:494-515 | going on from i gives what starting over would, because all slots before i are full |
| ConcatPlan.CreateConcatPlan | src/rrb.c:478-518 | for a level of n nodes with t slots in use: every count in 1..B, the total t kept, min(n, (t - 1) / B + 1 + 2) slots left, and they are full ones, one that took up what was left over, then counts as they were; no index leaves the slots in use |
| ConcatPlan.PlanOnly | src/rrb.c:488-515 | bounds, total, length and that look leave one plan only |
| ConcatPlan.PlanLooks | src/rrb.c:488-515 | the slots dissolved one after another leave full slots, one fuller than it was, and the rest untouched |
| Rebalancing.SetSizes | src/rrb.c:630-641 | the table written is the exact running total, so the node is well-formed |
| Rebalancing.SizeSubTrie | src/rrb.c:643-665 | the shortcut through the last child or last table entry is the true number of elements |
| Rebalancing.CopyRun | src/rrb.c:545-563 | the copy loop hands over the next `size` items of the level, and leaves idx and offset at the item after |
| Rebalancing.ExecuteOnLeaves | src/rrb.c:527-566 | leaves of exactly the planned lengths with the same elements in the same order |
| Rebalancing.ExecuteOnInner | src/rrb.c:568-614 | nodes of exactly the planned lengths over the same grandchildren in the same order, each with exact sizes |
| Rebalancing.FindShiftSound | src/rrb.c:620-628 | the height along first children is the height along every path |
| Rebalancing.MergeFacts | src/rrb.c:382-404 | the merged node has at most 2 B children and the elements of all three parts |
| Rebalancing.Redistribution | src/rrb.c:450-453 | the level after the plan has min(n, ceil(t/B) + 2) nodes of the planned lengths, over the same elements in the same order |
| Rebalancing.Cap | src/rrb.c:454-468 | a level too wide for one node goes into two, the first of them full; else into one, with another over it unless this is the top |
| Rebalancing.Rebalance | src/rrb.c:444-469 | the elements of left, centre and right in order; height, number and width of the nodes above the level as its planned width has it |
| Concatenation.ConcatSubTree | src/rrb.c:264-319 | the elements of both trees in order; below the top one level above the taller with one or two children; at the top one level more only if it takes two nodes, the first full; the tables on the left tree's right spine are never read |
| Concatenation.ConcatIntoLeft | src/rrb.c:267-276 | the same when the left tree is higher |
| Concatenation.ConcatIntoRight | src/rrb.c:277-285 | the same when the right tree is higher |
| Concatenation.ConcatLevel | src/rrb.c:304-317 | the same for two nodes of one height |
| Concatenation.ConcatLeaves | src/rrb.c:286-303 | two leaves side by side, or merged into one exactly at the top and if they fit |
| Concatenation.ConcatTail | src/rrb.c:197-245 | the three tail merges append; rrb_nth reads the result, and it is readable, exactly when both tails fit in one or the left tree takes a leaf |
| Concatenation.SplitTail | src/rrb.c:215-244 | the faked count makes push_down_tail put down a leaf filled up from the right tail |
| Concatenation.ConcatTrees | src/rrb.c:246-260 | zipping appends, unless the left vector has a tree and at most B elements: then elements are lost, and rrb_nth cannot read what it should |
| Concatenation.PushedOpen | src/rrb.c:246 | once its tail is down, the tree of every readable vector of more than B elements is fit to be zipped, even where push_down_tail leaves it unfit to read |
| Concatenation.IntactOpenLeft | src/rrb.c:246-260 | the tree of every readable vector is fit to be zipped on its left side |
| Concatenation.Concat | src/rrb.c:189-262 | for any two readable vectors the result is the append and readable, and rrb_nth reads the append in it, if and only if the two join; two pushable vectors give a pushable one; the result is as high as the higher of the right tree and the left one with its tail down, or one level higher with two children, the first full; over two leaves it has one child just if they fit in one |
| Concatenation.PushableJoins | src/rrb.c:189-262 | a left vector that can be pushed to joins every readable one |
| Appending.TailLonger | src/rrb.c:713-787 | a readable vector of more than B elements has more in its tail than its last leaf is short of, so the pushed leaf never falls into the last one |
| Appending.StubFacts | src/rrb.c:1177-1179 | where the last leaf is short under nodes without tables, the tree is that leaf alone, and every node over it has room |
| Appending.RoomForLeaf | src/rrb.c:726-737 | a table-less subtree has a free slot exactly when a whole leaf fits, which is what the shifted index tests |
| Appending.NextSlot | src/rrb.c:725-749 | one level of the search: full subtrees are told, and otherwise the last child or the slot after it is next |
| Appending.CountCopyable | src/rrb.c:713-787 | in every readable vector of more than B elements the search finds the lowest inner node of the right spine with fewer than B children, or 0 exactly when all have B, and the height of the tree |
| Appending.DeepestFreeIs | src/rrb.c:754-782 | with tables on the way or without, the depth the search is after is that of the lowest node of the spine with a free slot |
| Appending.PaddedFacts | src/rrb.c:726-740 | on table-less levels the search behaves as if the last leaf were full |
| Appending.CopySlot | src/rrb.c:861-872 | the second walk, which does not mask its index, follows the same slots |
| Appending.CopyFirstK | src/rrb.c:832-881 | the copied path, once its last pointer is written, is the tree with the new subtree in that slot and tables brought up to date |
| Appending.AppendEmpty | src/rrb.c:883-900 | a chain of one-child nodes of the height asked for |
| Appending.GrowSound | src/rrb.c:699-826 | growing at the deepest free slot appends and keeps tables exact and table-less nodes dense |
| Appending.GrowSpine | src/rrb.c:832-881 | the node there has one slot more, the new subtree in it, and the nodes above as many as before |
| Appending.NewRootSound | src/rrb.c:790-809 | with no free slot, a root one level up over the old tree and a chain is well-formed |
| Appending.ReadyWhenFull | src/rrb.c:732-740 | a readable tree takes another leaf if and only if nothing is missing from its last one |
| Appending.PushedFlatten | src/rrb.c:699-826 | the new tree holds the old tree's elements and the tail's, whether or not it can be read |
| Appending.PushedSoundIff | src/rrb.c:699-826 | putting a leaf down gives a well-formed tree if and only if nothing was missing |
| Appending.PushDownTail | src/rrb.c:699-826 | both walks together, for every readable vector: the leaf goes into the lowest node of the right spine with fewer than B children; only when all have B the height grows by one, over the old tree and a chain; new root and grown nodes have tables just where there were any; with at most B elements the leaf becomes the root |
| Appending.CopyMisses | src/rrb.c:861-863 | why intactness matters: under a tail no longer than the last leaf is short of, the copying walk would come to the last child instead of the new slot, and the elements of that child would be lost |
| Appending.PushedMisread | src/rrb.c:931-941 | after a leaf went down beside a short last one, its first element is not found |
| Appending.FullTailReads | src/rrb.c:699-826 | once a full tail is down, rrb_nth reads the whole if and only if nothing was missing |
| Appending.PushableIff | src/rrb.c:685-703 | a readable vector is pushable exactly when it has a root just from B + 1 elements on and nothing is missing |
| Appending.Push | src/rrb.c:667-697 | the sequence with the element appended; read by rrb_nth, and readable, if and only if the tail has room or the tree takes it; pushable again if it was; a full tail goes down where the lowest free slot is |
| Popping.PruneSound | src/rrb.c:977-1001 | removing the rightmost leaf and emptied ancestors leaves the other elements, corrects every table on the path, and leaves an intact tree |
| Popping.NothingLeft | src/rrb.c:977-1001 | nothing is left of a subtree exactly when it was one leaf under nodes of one child |
| Popping.PromotedSound | src/rrb.c:984-987 | the collapsed or pruned root is intact at its new height |
| Popping.PromoteRightmostLeaf | src/rrb.c:958-1005 | the loop over the path array makes exactly the pruned tree, with the last leaf as tail |
| Popping.PopPushableIff | src/rrb.c:1369-1386 | from the vector before a pop, whether the one after it is pushable |
| Popping.Pop | src/rrb.c:1369-1386 | the sequence without its last element; readable; pushable exactly when the vector before says so; one level lower just when the last leaf comes up and was all that the second of two root children held, and then the first is the root |
| Slicing.SliceRightRec | src/rrb.c:1042-1135 | the first right + 1 elements, in a well-formed tree no higher than before, and in just the nodes and tables CutRight names by counting elements; with nothing to its left, a leaf or a root of at least two children |
| Slicing.SliceLeftRec | src/rrb.c:1222-1324 | the elements from left on; well-formed but for the last entry of a root table; in just the nodes and tables CutLeft names; with nothing to its right, a leaf or a root of at least two children |
| Slicing.RunningTotals | src/rrb.c:1285-1301 | the totals computed without looking at sizes are the true ones, but for a last child off the full size |
| Slicing.SlicedTable | src/rrb.c:1303-1308 | the entries less what was cut off are exact, with the same exception |
| Slicing.RRB.SettleLeafRoot | src/rrb.c:1181-1217 | a short leaf root is merged with the tail in place; the head still stands for the same sequence |
| Slicing.SliceRight | src/rrb.c:1007-1040 | the first min(right, cnt) elements; readable |
| Slicing.SliceLeft | src/rrb.c:1137-1220 | the elements from min(left, cnt) on; readable; the original, edited or not, reads the same |
| Slicing.Slice | src/rrb.c:1326-1328 | the elements from min(from, hi) to hi = min(to, cnt); readable; no other head than SlicedHead; the original reads the same |
| Validation.ValidateSubtree | src/rrb_debug.h:357-433 | fails exactly when the size expected is not the number of elements, or some table below is not exact, or some table-less node is not leftwise full |
| Validation.ValidateRrb | src/rrb_debug.h:435-461 | returns 0 exactly for vectors whose head, tables and table-less nodes tell the truth |
| Validation.ReadableValidates | src/rrb_debug.h:435-461 | every readable vector passes |
| Reading.FoundIffClean | src/rrb.c:902-942 | of the trees the validator passes, rrb_nth finds every element in exactly those with no table where the index arrives too high for it |
| Reading.ReadIffClean | src/rrb_debug.h:435-461 | the same for whole vectors with tail and head |
| Reading.ValidButMisread | src/rrb_debug.h:395-431 | for every B, a vector that passes and that rrb_nth misreads: a table below a table-less node |
| Reading.ReadableReads | src/rrb.c:921-942 | readable vectors are read right at every index |
| History.Eval | src/rrb.c:180-262 | whatever create, push, update, concat, pop and slice make, step by step, reads as it should; a run that comes to nothing has in it a push onto the vector made for it, of which MayPush is false, or a concatenation of the two made for it, of which Joins is; without pop and slice none does, and every vector is pushable |
| History.MadeFine | src/rrb.c:180-262 | every vector a careful run makes is readable and holds what the run means |
| History.MadeOnce | src/rrb.c:667-697 | a run without concatenations makes one vector only, down to its tables |
| History.PushThenPop | src/rrb.c:1369-1386 | popping what was pushed gives the old sequence back |
| History.ShortRoot | src/rrb.c:984-987 | a run whose last pop collapses the root to a leaf of one element |
| History.ReadsPastLeaf | src/rrb.c:931-941 | in a table-less node the index of an element after a short leaf leads into that leaf, past its end |
| History.PushAfterPop | src/rrb.c:797-798 | a run after which a pushed vector cannot be read: element 1 is not found |
| History.ConcatAfterPops | src/rrb.c:703-708 | a run after which concatenation loses an element, and rrb_nth misreads the result |
| Cells.FreeKept | src/rrb_transients.h:128-154 | a tree without cells of live owners reads the same whatever they write |
| Cells.Kept | src/rrb_transients.h:128-154 | a tree of one owner reads the same whatever the others write |
| Cells.PathKept | src/rrb_transients.h:447-464 | a path of owned nodes outlasts every change below it |
| Cells.WritePath | src/rrb_transients.h:364 | writing through the last pointer changes that slot and nothing else about the path |
| Cells.ClosePath | src/rrb_transients.h:440-471 | whatever owned tree hangs below the path, the whole is owned and reads as plugged together |
| Cells.TameFree | src/rrb_transients.h:164-173 | what an owner leaves behind is free of every other owner |
| Copies.AllForeign | src/rrb.c:1341-1360 | on the way to an element of a shared tree of height h lie h + 1 nodes to copy |
| Copies.WayOwned | src/rrb_transients.h:450-471 | a path of owned nodes adds nothing to what is left to copy below it |
| Transients.EnsureFacts | src/rrb_transients.h:128-154 | the cell handed back is the owner's, reads the same, and takes over no cell the owner did not have; it is the same cell, and nothing is taken, exactly if the owner had it, else one new cell is |
| Transients.NewEditablePath | src/rrb_transients.h:414-435 | a chain of owned one-child nodes of the height asked for, one new cell a level |
| Transients.TakeOver | src/rrb_transients.h:362-364 | making a node editable and linking it in changes only the owner's cells and not what the tree reads |
| Transients.UpdateInPlace | src/rrb_transients.h:450-471 | the tree with element i replaced, shape kept, only the owner's cells changed; just as many new cells as there were nodes on the way that were not the owner's, and afterwards there are none |
| Transients.EditNode | src/rrb_transients.h:366-383 | one more slot at the last level, the table brought up to date, copied only if it is not the owner's |
| Transients.MutateFirstK | src/rrb_transients.h:352-412 | in every readable tree: after the walk only the new slot is unset, and with the subtree in it the tree reads as the persistent push has it |
| Transients.PushIntoSlot | src/rrb_transients.h:342-347 | the tree read afterwards is push_down_tail's, by changes to the owner's cells |
| Transients.PushAbove | src/rrb_transients.h:308-341 | the same when the height grows |
| Transients.PushTail | src/rrb_transients.h:227-347 | the same for both, after the same search: the leaf where the lowest free slot of the spine is, or the height grown when there is none; at most 2 h + 2 new cells over height h |
| Isolation.SharedKept | src/rrb_transients.h:156-173 | no persistent vector sees what a transient writes |
| Isolation.PrivateKept | src/rrb_transients.h:156-173 | no transient sees what another one writes |
| Isolation.Thawed | src/rrb_transients.h:156-162 | a new transient starts with its origin's sequence; nobody else changes |
| Isolation.Settled | src/rrb_transients.h:164-173 | the new persistent vector has the transient's sequence; nobody else changes |
| Isolation.OnlyItsOwner | src/rrb_transients.h:128-154 | a node, leaf or table with a live owner mark is reachable from that transient only |
| Isolation.PushTransient | src/rrb_transients.h:199-350 | on every transient: to what the head stands for it does just what rrb_push does, readable exactly when that is, by changes to the owner's cells; no new cell while the tail has room, else at most 2 h + 3 |
| Isolation.PushShared | src/rrb.c:667-826 | rrb_push over shared cells: new cells only, one while the tail has room, else at most 2 h + 3; and the new head stands for what Push says |
| Isolation.UpdateShared | src/rrb.c:1330-1366 | rrb_update over shared cells: new cells only, a leaf for an element of the tail, else h + 1, one a level; and the new head stands for what Update says |
| Isolation.UpdateTransient | src/rrb_transients.h:440-476 | what rrb_update does to what the head stands for, or NULL and no change, by changes to the owner's cells; as many new cells as nodes on the way were not its own, and none when the same element is updated again |
| Isolation.World.constructor | src/rrb.c:93-95 | the world of the one empty vector |
| Isolation.World.Over | src/rrb_transients.h:156-162 | any readable persistent vectors, sharing whatever they share, are a world to start from |
| Isolation.World.PushOf | src/rrb.c:667-826 | the persistent push carried out: one vector more, of the elements of v and the new one; every earlier head is the same, and every vector, persistent or transient, holds what it held |
| Isolation.World.UpdateOf | src/rrb.c:1330-1366 | the persistent update carried out: one vector more, of the elements of v with position i replaced, or none when it returns NULL; every earlier head and what each vector holds as before |
| Isolation.World.Publish | src/rrb.c:180-182 | any operation that takes new cells and writes to none adds its vector; what all others hold is as before |
| Isolation.World.Settle | src/rrb.c:1181-1217 | a head rewritten to one that holds the same: what each vector holds is as before |
| Isolation.World.ToTransient | src/rrb_transients.h:156-162 | one transient more, which holds what its origin does; all others hold what they held |
| Isolation.World.ToPersistent | src/rrb_transients.h:164-173 | one persistent vector more, which holds what the transient did, and that transient dead; all others hold what they held |
| Isolation.World.Push | src/rrb_transients.h:199-350 | one transient that can take more holds the element too; all others hold what they held |
| Isolation.World.Update | src/rrb_transients.h:440-476 | one transient holds the new element at position i, if there is one; all others hold what they held |
| Isolation.Execute | src/rrb_transients.h:156-476 | every run of persistent pushes and updates and of transients over shared cells is the run over independent plain sequences |
| Isolation.NobodyNoticed | src/rrb_transients.h:156-476 | all operations in any order: at every moment each persistent vector holds what it held at any earlier one, and each transient is what its own actions since then made of it |
| Isolation.PushAll | src/rrb_transients.h:156-350 | to transient, pushes of xs, to persistent, over the cells: a head for the old sequence followed by xs, pushable if the old one was; the old head holds what it held |
| Programs.EntryTells | src/rrb.c:685-697 | elements, tree or none, and room left tell whether push may be used and whether the vector is pushable |
| Programs.ActTexts | src/rrb_transients.h:156-476 | what each action does to what is held: the one vector made, grown or changed, and no other |
| Programs.RunMakes | src/rrb.c:667-697 | at the end of any run, the vector that one of its persistent pushes or updates, or a transient settled in it, has made holds what its operand held then, with the element appended or replaced |
| Programs.PersistentsStay | src/rrb_transients.h:156-476 | over plain sequences, no run changes what a persistent vector holds (the cells come in with Isolation.NobodyNoticed) |
| Programs.TransientAlone | src/rrb_transients.h:156-476 | over plain sequences, a transient is what its own actions alone make of it (the cells come in with Isolation.NobodyNoticed) |
| Programs.BatchPush | src/rrb_transients.h:156-350 | over plain sequences, to transient, pushes of xs, to persistent appends xs (the cells come in with Isolation.PushAll) |
| Reduction.RunInv | benchmark-suite/pgrep_rrb.c:358-383 | the invariant of the protocol holds after every step of every interleaving |
| Reduction.HoldsItsSpan | benchmark-suite/pgrep_rrb.c:366-376 | a slot whose thread merged k partners holds originals tid to tid + 2^k in order |
| Reduction.NoSharedSlots | benchmark-suite/pgrep_rrb.c:372-374 | no slot is touched by two threads at once |
| Reduction.WritesTouched | benchmark-suite/pgrep_rrb.c:372-374 | a step of a thread writes to none but the slots it touches |
| Reduction.ReadsTouched | benchmark-suite/pgrep_rrb.c:372-374 | and what it writes there depends on those slots only |
| Reduction.OnlyZeroExits | benchmark-suite/pgrep_rrb.c:368-371 | only thread 0 takes the early exit |
| Reduction.NoDeadlock | benchmark-suite/pgrep_rrb.c:366-377 | in every reachable state all threads are done or some thread can move |
| Reduction.RunsEnd | benchmark-suite/pgrep_rrb.c:358-383 | no run is longer than a bound given by the number of threads |
| Reduction.FinalState | benchmark-suite/pgrep_array.c:315-341 | at the end slot 0 is the in-order concatenation, and every other slot was appended exactly once and, for arrays, destroyed exactly once |
| Reduction.TakenWhenFinished | benchmark-suite/pgrep_array.c:329-336 | a slot is taken over only after its owner's last write, and no thread reads or writes it from then on |
| Reduction.Conserved | benchmark-suite/interval.c:62-69 | at every moment the slots not yet taken over spell the whole input: nothing is lost, repeated or reordered |
| Grep.FilterByTerm | benchmark-suite/pgrep_rrb.c:313-355 | of c lines and n threads, thread tid keeps those of lines c / n * tid up to c / n * (tid + 1), the last thread up to c, that contain the term, in order, in a pushable vector |
| Grep.ShareIs | benchmark-suite/pgrep_rrb.c:322-328 | the share of a thread, which is c / n lines, and for the last what is left |
| Grep.FoundJoin | benchmark-suite/pgrep_rrb.c:322-328 | the shares cover all lines once, in order |
| Grep.VectorsMerged | benchmark-suite/pgrep_rrb.c:358-383 | with rrb_concat as the merge, slot 0 ends in every interleaving as one pushable vector of all inputs in order |
| Grep.ParallelSearch | benchmark-suite/pgrep_rrb.c:313-383 | in every interleaving the vectors the threads filtered are merged into one of what a single thread would have found, in order |

## Left out

- Popping.Pop: requires an element; rrb_pop of an empty vector wraps its count around.
- Isolation.World.Publish: for the persistent concat, pop and slice, that they take new cells and write to none is taken from outside; their results are proved over values. Push and update are carried out over the cells (World.PushOf, World.UpdateOf).
- Isolation.PushShared: the clones bear an owner mark that is used up at once and that no transient ever has, where the source leaves NULL or the mark of the node cloned.
- History.Eval: of the tree the zip of two trees makes, Concatenation.ConcatenatedBy fixes the elements, the head, the invariants and that it takes leaves, not the widths of its nodes; so where a pop or slice follows such a zip, Made admits every tree Concat's contract does. Every other step has one result (History.MadeOnce).
- Popping.PopPushableIff: the like for slice is Appending.PushableIff on the head Slicing.SlicedHead computes; there is no shorter condition here.
- Isolation.World.Settle: likewise takes the rewritten head as given; what slice_left writes to it is Slicing.RRB.SettleLeafRoot.
- Isolation.World.Push: is for transients whose tail has room or whose tree takes a leaf; on the others, which come from pop or slice, Isolation.PushTransient leaves a head that cannot be read, and a world holds none.
- 32-bit counts and RRB_MAX_HEIGHT: numbers are unbounded, and the path array of promote_rightmost_leaf has room for the height at hand.
- A logarithmic bound on the height: two extra slots are allowed on every level.
- Persistent nodes are values. A pointer that is still to be written (`to_set`, `previous_pointer`) is a path with a hole, and Plug writes it.
- Transient nodes, leaves and tables are cells of an explicit memory, not Dafny objects; sharing, owner marks and writes in place are modelled, allocation sizes and over-allocated slots are not.
- The slot one past a node, which push_down_tail reads and expects to be NULL, is the test childIndex == len.
- Loops the source repeats are written once: the search of push_down_tail serves transient_rrb_push, the descent of rrb_nth serves both updates, and the copy loop serves leaves and inner nodes.
- The NULL tail that concatenation passes to push_down_tail is an empty sequence.
- Memory allocation and collection: memory is fresh and zeroed, and owner marks are never handed out twice.
- transient_rrb_pop, transient_promote_rightmost_leaf and transient_rrb_slice.
- check_transience: using a transient that is dead, or from another thread, is excluded by a precondition.
- What the validator prints, and its differences of unsigned numbers: they are integers here, compared for equality only.
- split_to_lines, command lines, files, timing, and substr_contains, which is a predicate on lines.
- Barriers are two-party and are not reused; destroying them is not modelled.
- rrb_count, rrb_peek, rrb_memory_usage, Graphviz output and the shell and plot scripts.
