# A verified model of a Java skip list

The model covers the skip list of `src/SkipList.java`. It has two parts.

- **Towers.** `Node<T>` is a sentinel head or an element, with an `ArrayList`
  of forward references, one per level.
- **The list.** `SkipList<T>` keeps a head, `maxHeight`, `customHeight` and
  `size`. It offers:
  - `insert`, which links a new node in after the drop node of every level below its height;
  - `delete`, which unlinks the first node holding the key;
  - `contains`;
  - the height adaptation that runs after each update.

Elements are `int`s and `compareTo` is `<`.

The Java object graph becomes an arena.

- A `SkipList` object holds `nodes: seq<Node>`.
- Node 0 is the head. A reference is `Nil` (null) or `Ptr(id)`.
- A `Node` is a datatype value. A write to a node's `next` list or `height`
  produces the updated value, and the list stores it back into its arena.
- Every method reads and writes links only through `Next` and `SetNext`, which
  model `next(level)` and `setNext(level, node)`. Both ignore levels outside the tower.

The meaning of the arena is a ghost field `levels`:

- For each level below `maxHeight`, `levels` lists the node ids met by following
  that level's links from the head.
- `Shape` ties the links to these chains. Each chain is ordered by value, with
  ties going newest first. Every node on a level is tall enough to be there.
  Each level is contained in the one below it.
- `Contents()` reads the values along the bottom chain.

The modules follow the source:

- `Towers`: the `Node` class.
- `Heights`: `calculateSkipListHeight` on integers.
- `Ordered`: reference operations on plain value sequences, which say what the
  list should contain after an update.
- `Lanes`: chains, drop nodes and relinking of one level.
- `Relinking`: the per-level steps of the relinking loops of `insert` and `delete`.
- `SkipLists`: the `SkipList` class.
- `Findings`: the relinking loop of `delete` exactly as written, with sample lists that show where it goes wrong.

Random coin flips are parameters: a `seq<bool>`, where true means heads. A method
that runs out of coins treats every further flip as tails.

## Model

| member | source | states |
|---|---|---|
| Towers.NewNode | src/SkipList.java:263-278 | a new node has the given value and height and exactly `height` null links |
| Towers.SetNext | src/SkipList.java:299-303 | a write inside the tower replaces exactly that slot; outside [0, height) the node is unchanged; value and height never change |
| Towers.Next | src/SkipList.java:288-295 | inside [0, height) a read returns the link stored at that level; at any other level, negative ones included, it returns null instead of failing |
| Towers.NextOutsideTower | src/SkipList.java:288-303 | outside [0, height) `next` reads null and `setNext` with any reference changes nothing |
| Towers.NextAfterSetNext | src/SkipList.java:288-303 | after a write, only the written level reads differently, and only when inside the tower |
| Towers.Grow | src/SkipList.java:309-312 | height rises by exactly one, the lower links are kept and the new top slot is null |
| Towers.NextAfterGrow | src/SkipList.java:309-312 | growing changes no link that `next` can read |
| Towers.MaybeGrow | src/SkipList.java:319-326 | on heads the tower grows by one level, on tails it stays; no readable link changes |
| Towers.Trim | src/SkipList.java:333-341 | with 0 <= h < height the first h links are kept and height becomes h; any other h leaves the node unchanged |
| Towers.TrimUndoesGrow | src/SkipList.java:309-341 | trimming a grown node back to its old height restores it |
| Heights.CalculateHeight | src/SkipList.java:239-253 | the height cap is at least 1 |
| Heights.CeilLog2Bounds | src/SkipList.java:249 | 2^ceil(log2 n) reaches n and one power less does not |
| Heights.CeilLog2Least | src/SkipList.java:249 | no smaller exponent reaches n |
| Heights.CalculateHeightIsLeastPower | src/SkipList.java:239-253 | for sizes of at least 2 the cap is the least k with 2^k >= size |
| Heights.CalculateHeightMonotone | src/SkipList.java:239-253 | the cap is monotone in the size |
| Heights.CalculateHeightStep | src/SkipList.java:239-253 | one more element raises the cap by at most one |
| Ordered.CountBelow | src/SkipList.java:196-199 | the prefix of values below x: all below, and the next one is not |
| Ordered.CountBelowUnique | src/SkipList.java:196-199 | that characterisation determines the prefix length |
| Ordered.CountBelowLocates | src/SkipList.java:126 | in a non-decreasing sequence, x occurs exactly when it stands right after the prefix below it |
| Ordered.InsertSortedAt | src/SkipList.java:60-65 | sorted insertion places x right after the prefix below it |
| Ordered.InsertSortedPermutes | src/SkipList.java:52-69 | sorted insertion adds exactly one x to the multiset |
| Ordered.InsertSortedKeepsOrder | src/SkipList.java:52-69 | sorted insertion keeps the order |
| Ordered.RemoveFirstAt | src/SkipList.java:85-97 | removing the first x, found at position k, drops exactly position k |
| Ordered.RemoveFirstAbsent | src/SkipList.java:85-90 | removing an absent x changes nothing |
| Ordered.RemoveFirstPermutes | src/SkipList.java:73-106 | removing a present x takes exactly one x out of the multiset |
| Ordered.InsertThenRemove | src/SkipList.java:52-106 | deleting what was just inserted gives back the sorted input |
| Ordered.Without | src/SkipList.java:91-97 | a chain without a node keeps every other node and loses that one |
| Ordered.WithoutAt | src/SkipList.java:93-95 | a chain holding the node once, at p, loses exactly position p |
| Ordered.WithoutAbsent | src/SkipList.java:91-97 | a chain not holding the node is unchanged |
| Lanes.SortedValues | src/SkipList.java:196-199 | an ordered chain reads its values in non-decreasing order |
| Lanes.DropReached | src/SkipList.java:194-204 | the drop node of a level stands after exactly the prefix of values below x |
| Lanes.NextOfReached | src/SkipList.java:196-199 | the link a walk reads next is the following node of the chain, or null at its end |
| Lanes.ReachedStop | src/SkipList.java:196-204 | a walk that stops before the first value not below x stops on the drop node |
| Lanes.Descend | src/SkipList.java:207-208 | a node reached on one level is reached on the level below, with everything before it below x |
| Lanes.DescendToGround | src/SkipList.java:194-209 | a node reached on any level is reached on the bottom level |
| Lanes.OnGround | src/SkipList.java:60-65 | every node of every level is on the bottom level |
| Lanes.DropLinksFirst | src/SkipList.java:90-97 | the drop node of a level links to the first node holding x exactly when that node is on the level, and then stands right before it |
| Lanes.SpliceLinked | src/SkipList.java:62-63 | the two link writes of a splice make the links spell out the chain with the new node at its place |
| Lanes.UnlinkLinked | src/SkipList.java:94 | linking the predecessor past a node makes the links spell out the chain without it |
| Lanes.SpliceFollowsDrop | src/SkipList.java:60-65 | in the spliced chain the new node follows the drop node directly and the rest is unchanged |
| Lanes.SortedSplice | src/SkipList.java:52-69 | the new node goes after everything below x and before everything else, so the chain stays ordered |
| Lanes.SortedRemoved | src/SkipList.java:91-97 | a chain without one position stays ordered |
| Lanes.InSpliceAt | src/SkipList.java:60-65 | the spliced chain holds the old nodes and the new one, nothing else |
| Lanes.SetNextKeeps | src/SkipList.java:299-303 | a write at one level keeps every other level |
| Lanes.ShapeAppend | src/SkipList.java:55 | a new, not yet linked node changes no level |
| Lanes.ShapeGrowHead | src/SkipList.java:145-157 | growing the head opens an empty top level and keeps the list a list |
| Lanes.ShapeTrimmed | src/SkipList.java:159-169 | trimming the head and the new top level cuts the list down to that many levels |
| Lanes.NestedSpliced | src/SkipList.java:60-65 | adding the new node to the bottom levels keeps each level inside the one below |
| Lanes.NestedWithout | src/SkipList.java:91-97 | removing a node from every level keeps each level inside the one below |
| Lanes.GrownAlongAt | src/SkipList.java:152-155 | along a chain without repeats, each node grows on its own coin and nothing else changes |
| Lanes.WalkFromHead | src/SkipList.java:163-166 | walking a level from the head, each node visited links to the next one |
| Lanes.LinkInLevel | src/SkipList.java:60-65 | linking the new node in after the drop node turns the level into the spliced chain and keeps every other level |
| Lanes.UnlinkFromLevel | src/SkipList.java:93-95 | linking the predecessor past position q turns the level into the chain without q and keeps every other level |
| Lanes.ValuesSplice | src/SkipList.java:52-69 | the spliced bottom level reads the sorted insertion of x |
| Lanes.ValuesRemoved | src/SkipList.java:73-106 | the bottom level without the first node holding x reads the values with the first x removed |
| Relinking.AppendStart | src/SkipList.java:55-56 | before the loop of insert, the new node is in the arena, on no level, and every drop node is unchanged |
| Relinking.LinkStep | src/SkipList.java:60-65 | one turn below the new node's height splices it into that level |
| Relinking.SkipStep | src/SkipList.java:61 | a turn with a null drop node changes nothing |
| Relinking.LinkedAll | src/SkipList.java:60-65 | after the loop the list is a list whose bottom level reads the sorted insertion, and the new node is on exactly the levels below its height |
| Relinking.UnlinkStart | src/SkipList.java:77-90 | before the loop of delete, the bottom drop node links to the node found |
| Relinking.UnlinkStep | src/SkipList.java:93-95 | a turn where the drop node links to the deleted node removes it from that level |
| Relinking.UnlinkAt | src/SkipList.java:93-95 | linking past the single occurrence of the deleted node removes it from that level |
| Relinking.PositionWhenLinked | src/SkipList.java:93 | a level whose drop node links to the deleted node holds it once, right after the drop node |
| Relinking.UnlinkSkip | src/SkipList.java:93 | a turn where the drop node does not link to the deleted node changes nothing, since the node is not on that level |
| Relinking.AbsentWhenUnlinked | src/SkipList.java:93 | a level whose drop node does not link to the deleted node does not hold it |
| Relinking.UnlinkedAll | src/SkipList.java:91-97 | after the loop the node is gone from every level and the bottom level reads the values with the first x removed |
| SkipLists.LeadingHeads | src/SkipList.java:231-233 | the number of leading heads: all heads before it, tails or the end after |
| SkipLists.LeadingHeadsCount | src/SkipList.java:231-233 | a prefix of heads ended by tails or the end of the coins has the length of the leading heads |
| SkipLists.StopsAtFirst | src/SkipList.java:85-90 | a bottom walk that stops on a node holding x, after only nodes that do not, found the first x, and one that runs off the end shows x absent |
| SkipLists.SkipList.constructor | src/SkipList.java:13-18 | an empty list of height calculateSkipListHeight(0) = 1 with no custom height |
| SkipLists.SkipList.WithHeight | src/SkipList.java:21-30 | an empty list whose height and custom height are the request, raised to 1 when smaller |
| SkipLists.SkipList.GenerateRandomHeight | src/SkipList.java:227-236 | a height of at least 1 and at most maxHeight + 1, one more than the number of leading heads while that stays within maxHeight |
| SkipLists.SkipList.Insert | src/SkipList.java:48-50 | the list holds the sorted insertion of x and one more element; its height rises by one exactly when calculateSkipListHeight of the new size exceeds it |
| SkipLists.SkipList.InsertWithHeight | src/SkipList.java:52-69 | the list stays valid, holds the sorted insertion of x, its size grows by one, and the new node is on exactly the levels below both its height and the list's; the list's height rises by one exactly when calculateSkipListHeight of the new size exceeds it, and is otherwise unchanged |
| SkipLists.SkipList.LinkNewNode | src/SkipList.java:52-67 | with the height unchanged, the list keeps its shape, level 0 reads the sorted insertion of x, the size grows by one, and the new node, holding x, is on exactly the levels below its height |
| SkipLists.SkipList.LinkLevel | src/SkipList.java:61-64 | one turn of the loop: with a drop node recorded for the level, the new node is spliced in after it; with null, nothing changes |
| SkipLists.SkipList.LinkTower | src/SkipList.java:60-65 | each level below the new node's height becomes its chain with the node spliced in after the drop node, the others are unchanged, and the bottom level reads the sorted insertion |
| SkipLists.SkipList.Delete | src/SkipList.java:73-106 | the list stays valid and holds its elements with the first x removed; the size drops by one exactly when x was present; an absent x changes nothing; after removing a present x the height drops to calculateSkipListHeight of the new size when that is smaller, and is otherwise unchanged |
| SkipLists.SkipList.LocateTarget | src/SkipList.java:77-87 | the drop nodes of every level, and a node found exactly when x is present, which is then the first node holding x |
| SkipLists.SkipList.FindTarget | src/SkipList.java:82-87 | from a node reached on any level, the bottom walk finds the first node holding x exactly when x is present |
| SkipLists.SkipList.WalkGround | src/SkipList.java:82-90 | the bottom walk finds a node exactly when x is present, and then the first node holding x |
| SkipLists.SkipList.SkipToValue | src/SkipList.java:85-87 | the walk passes only nodes not holding x and stops on a node holding x or at the end |
| SkipLists.SkipList.UnlinkTower | src/SkipList.java:91-97 | every level becomes its chain without the deleted node, the bottom level reads the values with the first x removed, and a deletion is performed |
| SkipLists.SkipList.FindDropNodes | src/SkipList.java:176-212 | one entry per level: the drop node for x below the requested height, the head at level 0, null above |
| SkipLists.SkipList.InitialDrops | src/SkipList.java:180-191 | the head, then one null per further level |
| SkipLists.SkipList.DropTurn | src/SkipList.java:194-208 | one turn of the search: the level's drop node is recorded when the level is below the requested height, the search stays reached on the level below, and the levels not yet visited keep their initial entries |
| SkipLists.SkipList.WalkLevel | src/SkipList.java:196-199 | walking a level while the next value is below x ends on that level's drop node |
| SkipLists.SkipList.AttemptHeightChange | src/SkipList.java:141-172 | the list stays valid with the same elements; a growing insert adds one null level to the head only; a shrinking delete trims the head and the new top level's nodes; otherwise nothing changes |
| SkipLists.SkipList.GrowHeight | src/SkipList.java:145-157 | the head gains one null slot, nothing else changes, and the list gains an empty top level |
| SkipLists.SkipList.ShrinkHeight | src/SkipList.java:159-169 | the head and the nodes of the new top level are trimmed, and the list keeps its lower levels |
| SkipLists.SkipList.TrimWalk | src/SkipList.java:161-166 | each node on the walked level, and the head, is trimmed; every other node is unchanged |
| SkipLists.SkipList.GrowWalk | src/SkipList.java:150-155 | each node on the walked chain grows on its own coin; the others are unchanged; an empty walk changes nothing |
| SkipLists.SkipList.CountNonNull | src/SkipList.java:214-222 | the number of entries that are neither null nor the head |
| SkipLists.SkipList.SearchFloor | src/SkipList.java:110-124 | the descent ends on the bottom level's drop node for x |
| SkipLists.SkipList.SuccessorOfFloor | src/SkipList.java:126 | the bottom successor of that node is null exactly when every element is below x, and otherwise holds x exactly when x is present |
| SkipLists.SkipList.ContainsAsWritten | src/SkipList.java:109-127 | the last line dereferences null exactly when every element is below x; otherwise the answer is membership |
| SkipLists.SkipList.Contains | src/SkipList.java:109-127 | membership of x, exactly |
| Findings.RelinkAsWritten | src/SkipList.java:91-97 | the loop as written throws exactly when the deleted node is taller than the drop list; otherwise each guarded level's drop node takes over the deleted node's link, and no other link changes |
| Findings.TallIsList | src/SkipList.java:21-69 | the sample arena is a valid list; that it is what SkipList(3) and inserts of 10, 20, 30 and 40 with heights 1, 2, 1 and 1 build is traced by hand, not proved |
| Findings.TallDelete | src/SkipList.java:77-93 | in that list 20 is found, the drop nodes are node 10 and the head twice, and the guard skips level 1, where the head links to 20 |
| Findings.StaleHeadLink | src/SkipList.java:91-97 | after the loop as written, level 1 of that list does not read as its chain without 20 |
| Findings.GappedIsList | src/SkipList.java:13-69 | the sample arena is a valid list in which the node holding 10 is two levels high but only on level 0; that it is what new SkipList() and inserts of 10, 20, 30, 5 and 25 with heights 2, 1, 1, 2 and 2 build is traced by hand, not proved |
| Findings.GappedDelete | src/SkipList.java:77-93 | in that list 10 is found, the drop nodes are the node holding 5 twice and the head, and the guard fires on level 1, where 10 is absent and the drop node links to 25 |
| Findings.CutOffLink | src/SkipList.java:91-97 | after the loop as written, the node holding 5 links to null on level 1, so that level loses 25 and does not read as its unchanged chain |
| Findings.OvertallSample | src/SkipList.java:13-69 | the sample arena is a valid list whose one node, holding 5, is taller than the one drop node delete records; that it is what new SkipList() and insert(5, 2) build is traced by hand, not proved |

## Left out

- Randomness: `java.util.Random` in `generateRandomHeight` and `maybeGrow` is replaced by the coin sequences passed in. Probabilistic balance and expected running time are not modelled.
- Heights.CalculateHeight: computes the ceiling of log2 on integers. The floating-point quotient `Math.log(size) / Math.log(2)`, with its rounding at large sizes, is not modelled. The Java code reads the field `this.size` rather than its parameter; both callers pass the current size, so the two agree.
- Generics and `Comparable`: elements are `int`, and `compareTo` is integer comparison.
- `int` overflow of `size` and `height` is not modelled; the model uses unbounded integers.
- Aliasing: nodes live in an arena indexed by id. A `Node` is a value written back into the arena rather than an object updated in place. The model does not capture sharing beyond the ids.
- Accessors that only read a field appear as the fields themselves: `size()`, `height()`, `customHeight()` and `head()` of the list, and `value()` and `height()` of a node.
- `difficultyRating` and `hoursSpent` return constants and are not modelled.
- ArrayList capacities are not modelled, and neither is the exception a negative capacity throws: Towers.NewNode requires a height of at least 0.
- SkipLists.SkipList.InsertWithHeight: requires a height of at least 1. With height 0 the Java code links the head at level 0 to a node with no level-0 slot, which cuts off the rest of the list; with a negative height the node constructor throws (see the line above). `insert(data)` always draws at least 1.
- SkipLists.SkipList.UnlinkTower: models the corrected relinking loop of delete. It relinks a level exactly when that level's drop node links to the deleted node, the head included, and visits only the levels the list has. The loop as written differs in three ways, one Findings row each: it skips the head above level 0; it overwrites the link of a drop node that holds a value even when that node does not link to the deleted node; and it overruns the drop list.
- SkipLists.SkipList.Delete: models the corrected relinking loop (see Findings). The loop as written is Findings.RelinkAsWritten, on the arena values. When that loop throws, it may already have relinked some levels; Findings.RelinkAsWritten reports only the exception.
- SkipLists.SkipList.Contains: models the corrected last line. The line as written is SkipLists.SkipList.ContainsAsWritten.
- `customHeight` is recorded by the constructors. Like the Java code, the height adaptation does not consult it.
- In the height adaptation after an insertion, the walk that should grow the nodes of the old top level starts from the head's new top slot. That slot is null, so the walk never runs. SkipLists.SkipList.GrowHeight passes the walk that null start; SkipLists.SkipList.GrowWalk states what the walk does from any start.

## Findings

| source | as written | input that shows it | evidently intended | confidence | as-written member | corrected member |
|---|---|---|---|---|---|---|
| src/SkipList.java:93 | above level 0, a level is relinked only when its drop node holds a value, so a drop node that is the head is skipped | SkipList(3); insert(10, 1); insert(20, 2); insert(30, 1); insert(40, 1); delete(20): the head's level-1 link stays on the removed node | relink a level exactly when its drop node, the head included, links to the deleted node | not executed | Findings.StaleHeadLink | SkipLists.SkipList.UnlinkTower |
| src/SkipList.java:93 | a drop node that holds a value is relinked whether or not it links to the deleted node; on a level the deleted node's tower reaches but the node is not on, the drop node takes over the deleted node's null link | new SkipList(); insert(10, 2); insert(20, 1); insert(30, 1); insert(5, 2); insert(25, 2); delete(10): on level 1 the node holding 5 linked to 25 and now links to null | relink a level only when its drop node links to the deleted node | not executed | Findings.CutOffLink | SkipLists.SkipList.UnlinkTower |
| src/SkipList.java:91 | the loop runs up to the deleted node's height, but the drop list has only `maxHeight` entries | new SkipList(); insert(5, 2); delete(5): `dropNodes.get(1)` throws IndexOutOfBoundsException (generateRandomHeight can also draw maxHeight + 1) | stop at the smaller of the node's height and the list's | not executed | Findings.RelinkAsWritten | SkipLists.SkipList.Delete |
| src/SkipList.java:126 | the bottom successor of the last node below x is dereferenced without a null check | new SkipList(); contains(1), or any x above every element: the null reference is dereferenced and throws | answer false when there is no successor | not executed | SkipLists.SkipList.ContainsAsWritten | SkipLists.SkipList.Contains |
