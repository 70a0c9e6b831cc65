/**
 * The skip list itself.  The Java object graph becomes an arena: `nodes[0]` is
 * the head and `nodes[id]` the node a reference `Ptr(id)` points to.  Every
 * method reads and writes links only through Next and SetNext, the way the
 * Java code calls next(level) and setNext(level, node).
 *
 * Random choices are passed in as coin sequences (true = heads); a method that
 * runs out of coins treats every further flip as tails.
 */
module SkipLists {
  import opened Towers
  import opened Heights
  import opened Ordered
  import opened Lanes
  import opened Relinking

  /** The update after which the list considers changing its height. */
  datatype Operation = Inserting | Deleting

  /** What the search returns as written: a verdict, or the null dereference of its last line. */
  datatype Answer = Answer(found: bool) | NullDereference

  /** The number of leading heads in a coin sequence. */
  function LeadingHeads(coins: seq<bool>): (r: nat)
    ensures r <= |coins|
    ensures forall i :: 0 <= i < r ==> coins[i]
    ensures r < |coins| ==> !coins[r]
  {
    if coins == [] || !coins[0] then 0 else 1 + LeadingHeads(coins[1..])
  }

  /** A bottom-level walk that stops at position `j` of `s0` stopped at the first node holding `x`, or found none. */
  lemma StopsAtFirst(nodes: seq<Node>, s0: seq<nat>, x: int, j: nat)
    requires Arena(nodes) && Lane(nodes, 0, s0) && j <= |s0|
    requires forall i :: 0 <= i < j ==> ValueAt(nodes, s0[i]) != x
    requires j < |s0| ==> ValueAt(nodes, s0[j]) == x
    ensures j < |s0| <==> x in Values(nodes, s0)
    ensures j < |s0| ==> FirstWith(nodes, s0, x, s0[j], j)
  {
    if j < |s0| {
      forall i | 0 <= i < j ensures ValueAt(nodes, s0[i]) < x {
        assert Precedes(nodes, s0[i], s0[j]);
      }
      assert Values(nodes, s0)[j] == x;
    } else {
      forall i | 0 <= i < |s0| ensures Values(nodes, s0)[i] != x {
      }
    }
  }

  class SkipList {
    var nodes: seq<Node>
    var customHeight: int
    var maxHeight: int
    var size: nat
    /** The chain of node ids on each level, head excluded. */
    ghost var levels: seq<seq<nat>>

    ghost predicate Valid()
      reads this
    {
      Shape(nodes, levels, maxHeight) && size == |levels[0]| && maxHeight >= CalculateHeight(size)
    }

    /** The elements in list order: the values along the bottom level. */
    ghost function Contents(): (c: seq<int>)
      reads this
      requires Valid()
      ensures |c| == size && NonDecreasing(c)
    {
      assert Lane(nodes, 0, levels[0]);
      SortedValues(nodes, levels[0]);
      Values(nodes, levels[0])
    }

    /** The default constructor: height from calculateSkipListHeight(0), no custom height. */
    constructor ()
      ensures Valid() && Contents() == []
      ensures size == 0 && customHeight == -1 && maxHeight == CalculateHeight(0) == 1
    {
      size := 0;
      customHeight := -1;
      maxHeight := CalculateHeight(0);
      var head := NewNode(None, CalculateHeight(0));
      nodes := [head];
      levels := [[]];
    }

    /** The constructor with a requested height, raised to 1 when smaller. */
    constructor WithHeight(height: int)
      ensures Valid() && Contents() == []
      ensures size == 0 && customHeight == maxHeight == if height < 1 then 1 else height
    {
      var h := height;
      if h < 1 {
        h := 1;
      }
      size := 0;
      customHeight := h;
      maxHeight := h;
      var head := NewNode(None, h);
      nodes := [head];
      levels := seq(h, _ => []);
    }

    /** One more level for every leading heads, capped at one above the current height. */
    method GenerateRandomHeight(coins: seq<bool>) returns (height: int)
      ensures 1 <= height
      ensures maxHeight >= 0 ==> height <= maxHeight + 1
      ensures forall i :: 0 <= i < height - 1 ==> i < |coins| && coins[i]
      ensures height <= maxHeight ==> height - 1 == LeadingHeads(coins)
    {
      height := 1;
      var i := 0;
      while height <= maxHeight && i < |coins| && coins[i]
        invariant i == height - 1 && 0 <= i <= |coins|
        invariant maxHeight >= 0 ==> height <= maxHeight + 1
        invariant forall j :: 0 <= j < i ==> coins[j]
      {
        height := height + 1;
        i := i + 1;
      }
      if height <= maxHeight {
        assert i == |coins| || !coins[i];
        assert LeadingHeads(coins) == i by {
          LeadingHeadsCount(coins, i);
        }
      }
    }

    /** insert(data): a height drawn from the coins, then insert(data, height). */
    method Insert(x: int, heightCoins: seq<bool>, growCoins: seq<bool>)
      requires Valid()
      modifies this`nodes, this`maxHeight, this`levels, this`size
      ensures Valid() && Contents() == InsertSorted(old(Contents()), x) && size == old(size) + 1
      ensures maxHeight == if CalculateHeight(size) > old(maxHeight) then old(maxHeight) + 1 else old(maxHeight)
    {
      var height := GenerateRandomHeight(heightCoins);
      InsertWithHeight(x, height, growCoins);
    }

    /**
     * insert(data, height): a new node of the given height is linked in after the
     * drop node of every level below both its height and the list's, then the
     * size grows and the list may grow a level.
     */
    method InsertWithHeight(x: int, height: int, growCoins: seq<bool>)
      requires Valid() && height >= 1
      modifies this`nodes, this`maxHeight, this`levels, this`size
      ensures Valid()
      ensures Contents() == InsertSorted(old(Contents()), x)
      ensures size == old(size) + 1
      ensures |nodes| == old(|nodes|) + 1 && nodes[old(|nodes|)].value == Some(x)
      ensures forall L :: 0 <= L < maxHeight ==> (old(|nodes|) in levels[L] <==> L < height && L < old(maxHeight))
      ensures maxHeight == if CalculateHeight(size) > old(maxHeight) then old(maxHeight) + 1 else old(maxHeight)
    {
      ghost var n := |nodes|;
      LinkNewNode(x, height);
      ghost var ns, lv := nodes, levels;
      AttemptHeightChange(Inserting, growCoins);
      assert |nodes| == |ns| && nodes[n] == ns[n];
      assert forall L :: 0 <= L < maxHeight ==> levels[L] == if L < |lv| then lv[L] else [];
    }

    /**
     * insert(data, height) up to the size increment: the new node is linked in
     * after the drop node of every level below both its height and the list's.
     */
    method LinkNewNode(x: int, height: int)
      requires Valid() && height >= 1
      modifies this`nodes, this`levels, this`size
      ensures Shape(nodes, levels, maxHeight) && size == |levels[0]| && maxHeight + 1 >= CalculateHeight(size)
      ensures Values(nodes, levels[0]) == InsertSorted(old(Values(nodes, levels[0])), x) && size == old(size) + 1
      ensures |nodes| == old(|nodes|) + 1 && nodes[old(|nodes|)].value == Some(x)
      ensures forall L :: 0 <= L < maxHeight ==> (old(|nodes|) in levels[L] <==> L < height)
    {
      var newNode := NewNode(Some(x), height);
      var drops := FindDropNodes(x, height);
      var ns, lv := LinkTower(nodes, levels, maxHeight, drops, x, newNode);
      CalculateHeightStep(size);
      var size' := size + 1;
      assert size' == |lv[0]| && maxHeight + 1 >= CalculateHeight(size');
      nodes, levels, size := ns, lv, size';
    }

    /**
     * The relinking loop of insert, on the arena: the new node goes at the end,
     * and on every level below its height it is linked in after that level's
     * drop node.
     */
    static method LinkTower(nodes: seq<Node>, ghost levels: seq<seq<nat>>, maxHeight: int, drops: seq<Ref>, x: int, newNode: Node)
      returns (ns: seq<Node>, ghost lv: seq<seq<nat>>)
      requires Shape(nodes, levels, maxHeight) && WellFormed(newNode) && newNode.value == Some(x) && newNode.height >= 1
      requires |drops| == maxHeight
      requires forall L :: 0 <= L < maxHeight ==> drops[L] == DropEntry(nodes, levels, L, x, newNode.height)
      ensures |ns| == |nodes| + 1 && ns[|nodes|].value == Some(x)
      ensures Shape(ns, lv, maxHeight) && |lv[0]| == |levels[0]| + 1
      ensures Values(ns, lv[0]) == InsertSorted(Values(nodes, levels[0]), x)
      ensures forall L :: 0 <= L < maxHeight ==> (|nodes| in lv[L] <==> L < newNode.height)
      ensures forall L :: 0 <= L < maxHeight ==>
        lv[L] == if L < newNode.height then SpliceAt(nodes + [newNode], levels[L], x, |nodes|) else levels[L]
    {
      AppendStart(nodes, levels, maxHeight, x, newNode);
      ghost var before := nodes + [newNode];
      ns := nodes + [newNode];
      lv := levels;
      var i := 0;
      while i < |drops|
        invariant i <= |drops| && LinkedBelow(before, levels, x, |nodes|, newNode.height, ns, lv, i)
      {
        ns, lv := LinkLevel(nodes, levels, maxHeight, drops, x, newNode, ns, lv, i);
        i := i + 1;
      }
      LinkedAll(before, levels, x, |nodes|, newNode.height, ns, lv);
      ValuesKept(nodes, before, levels[0]);
    }

    /**
     * One turn of the relinking loop of insert: with a drop node recorded for
     * level `i`, the new node takes over its link and it links to the new node.
     */
    static method LinkLevel(nodes: seq<Node>, ghost levels: seq<seq<nat>>, maxHeight: int, drops: seq<Ref>, x: int, newNode: Node,
                            ns: seq<Node>, ghost lv: seq<seq<nat>>, i: nat)
      returns (ns': seq<Node>, ghost lv': seq<seq<nat>>)
      requires Shape(nodes, levels, maxHeight) && WellFormed(newNode) && newNode.value == Some(x) && newNode.height >= 1
      requires |drops| == maxHeight && i < |drops|
      requires forall L :: 0 <= L < maxHeight ==> drops[L] == DropEntry(nodes, levels, L, x, newNode.height)
      requires LinkedBelow(nodes + [newNode], levels, x, |nodes|, newNode.height, ns, lv, i)
      ensures LinkedBelow(nodes + [newNode], levels, x, |nodes|, newNode.height, ns', lv', i + 1)
      ensures drops[i] == Nil ==> ns' == ns && lv' == lv
    {
      ghost var before := nodes + [newNode];
      var n := |nodes|;
      AppendStart(nodes, levels, maxHeight, x, newNode);
      if drops[i] != Nil {
        var d := drops[i].id;
        assert d == DropNode(before, levels[i], x) && i < newNode.height;
        ns' := ns[n := SetNext(ns[n], i, Next(ns[d], i))][d := SetNext(ns[d], i, Ptr(n))];
        LinkStep(before, levels, x, n, newNode.height, ns, lv, i, ns');
        lv' := lv[i := SpliceAt(before, levels[i], x, n)];
      } else {
        SkipStep(before, levels, x, n, newNode.height, ns, lv, i);
        ns', lv' := ns, lv;
      }
    }

    /**
     * delete(data): the drop nodes of every level, a walk along the bottom level
     * from the highest real one to the first node holding `x`, then that node is
     * linked past on every level of its tower, the size drops and the list may
     * lose levels.  The relinking is the corrected one: a level is relinked when
     * its drop node links to the deleted node (the head included), and only the
     * levels the list has are visited.  RelinkAsWritten in module Findings keeps
     * the relinking loop exactly as written.
     */
    method Delete(x: int)
      requires Valid()
      modifies this`nodes, this`maxHeight, this`levels, this`size
      ensures Valid()
      ensures Contents() == RemoveFirst(old(Contents()), x)
      ensures size == if x in old(Contents()) then old(size) - 1 else old(size)
      ensures x !in old(Contents()) ==> nodes == old(nodes) && levels == old(levels) && maxHeight == old(maxHeight)
      ensures x in old(Contents()) ==>
        maxHeight == if CalculateHeight(size) < old(maxHeight) then CalculateHeight(size) else old(maxHeight)
    {
      var drops, del, found, p := LocateTarget(x);
      if found {
        var ns, lv, performed := UnlinkTower(nodes, levels, maxHeight, drops, x, del, p);
        nodes, levels := ns, lv;
        size := size - 1;
        CalculateHeightMonotone(size, size + 1);
        AttemptHeightChange(Deleting, []);
      } else {
        RemoveFirstAbsent(Contents(), x);
      }
    }

    /**
     * The search half of delete: the drop nodes of every level, then the walk
     * from the highest real drop node (the head when there is none) to the
     * first node holding `x`.
     */
    method LocateTarget(x: int) returns (drops: seq<Ref>, del: nat, found: bool, ghost p: nat)
      requires Valid()
      ensures |drops| == maxHeight
      ensures forall L :: 0 <= L < maxHeight ==> drops[L] == DropEntry(nodes, levels, L, x, maxHeight)
      ensures found <==> x in Contents()
      ensures found ==> FirstWith(nodes, levels[0], x, del, p)
    {
      drops := FindDropNodes(x, maxHeight);
      var count := CountNonNull(drops);
      count := if count < 1 then 1 else count;
      assert Lane(nodes, count - 1, levels[count - 1]);
      DropReached(nodes, levels[count - 1], x);
      del, found, p := FindTarget(x, drops[count - 1].id, count - 1, CountBelow(Values(nodes, levels[count - 1]), x));
    }

    /**
     * The walk of delete along the bottom level: from the successor of `start`,
     * which stands `k` nodes along level `L` with everything before it below
     * `x`, until a node holding `x` or the end.
     */
    method FindTarget(x: int, start: nat, ghost L: nat, ghost k: nat) returns (del: nat, found: bool, ghost p: nat)
      requires Valid() && L < maxHeight && Reached(nodes, levels[L], x, start, k)
      ensures found <==> x in Contents()
      ensures found ==> FirstWith(nodes, levels[0], x, del, p)
    {
      forall l | 0 <= l < |levels| ensures Sorted(nodes, levels[l]) {
        assert Lane(nodes, l, levels[l]);
      }
      ghost var k0 := DescendToGround(nodes, levels, L, x, start, k);
      assert Lane(nodes, 0, levels[0]);
      del, found, p := WalkGround(nodes, levels[0], x, start, k0);
    }

    /** The bottom-level walk of delete, on the arena: past every node not holding `x`. */
    static method WalkGround(nodes: seq<Node>, ghost s0: seq<nat>, x: int, start: nat, ghost k0: nat)
      returns (del: nat, found: bool, ghost p: nat)
      requires Arena(nodes) && Lane(nodes, 0, s0) && Reached(nodes, s0, x, start, k0)
      requires forall id :: 1 <= id < |nodes| ==> nodes[id].value.Some?
      ensures found <==> x in Values(nodes, s0)
      ensures found ==> FirstWith(nodes, s0, x, del, p)
    {
      var curr;
      curr, p := SkipToValue(nodes, s0, x, start, k0);
      found := curr != Nil && nodes[curr.id].value == Some(x);
      del := if curr != Nil then curr.id else 0;
      StopsAtFirst(nodes, s0, x, p);
    }

    /** The loop of that walk: it stops on the first node holding `x`, or at the end. */
    static method SkipToValue(nodes: seq<Node>, ghost s0: seq<nat>, x: int, start: nat, ghost k0: nat)
      returns (curr: Ref, ghost j: nat)
      requires Arena(nodes) && Lane(nodes, 0, s0) && Reached(nodes, s0, x, start, k0)
      requires forall id :: 1 <= id < |nodes| ==> nodes[id].value.Some?
      ensures j <= |s0| && curr == if j < |s0| then Ptr(s0[j]) else Nil
      ensures forall i :: 0 <= i < j ==> ValueAt(nodes, s0[i]) != x
      ensures j < |s0| ==> ValueAt(nodes, s0[j]) == x && nodes[s0[j]].value == Some(x)
    {
      NextOfReached(nodes, 0, s0, x, start, k0);
      curr := Next(nodes[start], 0);
      j := k0;
      while curr != Nil && nodes[curr.id].value.Some? && nodes[curr.id].value.value != x
        invariant k0 <= j <= |s0| && curr == if j < |s0| then Ptr(s0[j]) else Nil
        invariant forall i :: 0 <= i < j ==> ValueAt(nodes, s0[i]) != x
        decreases |s0| - j
      {
        assert Next(nodes[s0[j]], 0) == Succ(s0, j);
        curr := Next(nodes[curr.id], 0);
        j := j + 1;
      }
      if j < |s0| {
        assert 1 <= s0[j] < |nodes|;
      }
    }

    /**
     * The relinking loop of delete, on the arena: on every level below both the
     * deleted node's height and the list's, the drop node is linked past `del`
     * when it links to `del`.  `performed` is the Java flag performedDeletion.
     */
    static method UnlinkTower(nodes: seq<Node>, ghost levels: seq<seq<nat>>, maxHeight: int, drops: seq<Ref>,
                              x: int, del: nat, ghost p: nat)
      returns (ns: seq<Node>, ghost lv: seq<seq<nat>>, performed: bool)
      requires Shape(nodes, levels, maxHeight) && FirstWith(nodes, levels[0], x, del, p)
      requires |drops| == maxHeight
      requires forall L :: 0 <= L < maxHeight ==> drops[L] == DropEntry(nodes, levels, L, x, maxHeight)
      ensures Shape(ns, lv, maxHeight) && forall L :: 0 <= L < maxHeight ==> lv[L] == Without(levels[L], del)
      ensures Values(ns, lv[0]) == RemoveFirst(Values(nodes, levels[0]), x) && |lv[0]| + 1 == |levels[0]|
      ensures performed
    {
      UnlinkStart(nodes, levels, x, del, p);
      ns, lv, performed := nodes, levels, false;
      var top := if nodes[del].height < |drops| then nodes[del].height else |drops|;
      var i := 0;
      while i < top
        invariant 0 <= i <= top && UnlinkedBelow(nodes, levels, del, ns, lv, i)
        invariant i > 0 ==> performed
      {
        var d := drops[i].id;
        assert d == DropNode(nodes, levels[i], x);
        assert i == 0 ==> Next(ns[d], i) == Ptr(del) by {
          assert Keeps(nodes, ns, i);
        }
        if Next(ns[d], i) == Ptr(del) {
          var unlinked := ns[d := SetNext(ns[d], i, Next(ns[del], i))];
          UnlinkStep(nodes, levels, x, del, p, ns, lv, i, unlinked);
          ns := unlinked;
          performed := true;
        } else {
          UnlinkSkip(nodes, levels, x, del, p, ns, lv, i);
        }
        lv := lv[i := Without(levels[i], del)];
        i := i + 1;
      }
      UnlinkedAll(nodes, levels, x, del, p, ns, lv, i);
    }

    /**
     * findDropNodes: walk down from the top level; on level L the walk stops at
     * the last node below `x` (or the head), which is recorded when L < height.
     * The other entries keep their initial value: the head at 0, null above.
     */
    method FindDropNodes(x: int, height: int) returns (drops: seq<Ref>)
      requires Valid()
      ensures |drops| == maxHeight
      ensures forall L :: 0 <= L < maxHeight ==> drops[L] == DropEntry(nodes, levels, L, x, height)
    {
      var ns, mh := nodes, maxHeight;
      ghost var lv := levels;
      var searchLevel := mh - 1;
      var curr: nat := 0;
      var next := Next(ns[0], searchLevel);
      drops := InitialDrops(mh);
      ghost var k: nat := 0;
      while searchLevel >= 0
        invariant -1 <= searchLevel < mh && |drops| == mh && curr < |ns|
        invariant 0 <= searchLevel ==> Reached(ns, lv[searchLevel], x, curr, k)
        invariant 0 <= searchLevel ==> next == Next(ns[curr], searchLevel)
        invariant forall L :: searchLevel < L < mh ==> drops[L] == DropEntry(ns, lv, L, x, height)
        invariant forall L :: 0 <= L <= searchLevel ==> drops[L] == if L == 0 then Ptr(0) else Nil
        decreases searchLevel
      {
        curr, k, drops, next := DropTurn(ns, lv, mh, x, height, searchLevel, curr, next, k, drops);
        searchLevel := searchLevel - 1;
      }
    }

    /**
     * One turn of the search loop of findDropNodes: walk the level, record the
     * last node below x when the new node reaches the level, and step down.
     */
    static method DropTurn(ns: seq<Node>, ghost lv: seq<seq<nat>>, mh: int, x: int, height: int, searchLevel: int,
                           curr: nat, next: Ref, ghost k: nat, drops: seq<Ref>)
      returns (curr': nat, ghost k': nat, drops': seq<Ref>, next': Ref)
      requires Shape(ns, lv, mh) && 0 <= searchLevel < mh && |drops| == mh && curr < |ns|
      requires Reached(ns, lv[searchLevel], x, curr, k) && next == Next(ns[curr], searchLevel)
      requires forall L :: searchLevel < L < mh ==> drops[L] == DropEntry(ns, lv, L, x, height)
      requires forall L :: 0 <= L <= searchLevel ==> drops[L] == if L == 0 then Ptr(0) else Nil
      ensures |drops'| == mh && curr' < |ns| && next' == Next(ns[curr'], searchLevel - 1)
      ensures 0 < searchLevel ==> Reached(ns, lv[searchLevel - 1], x, curr', k')
      ensures forall L :: searchLevel <= L < mh ==> drops'[L] == DropEntry(ns, lv, L, x, height)
      ensures forall L :: 0 <= L < searchLevel ==> drops'[L] == if L == 0 then Ptr(0) else Nil
    {
      assert Lane(ns, searchLevel, lv[searchLevel]);
      curr', k' := WalkLevel(ns, x, searchLevel, curr, next, lv[searchLevel], k);
      drops' := drops;
      if searchLevel < height {
        drops' := drops[searchLevel := Ptr(curr')];
      }
      if searchLevel > 0 {
        assert Lane(ns, searchLevel - 1, lv[searchLevel - 1]);
        k' := Descend(ns, lv, searchLevel, x, curr', k');
      }
      next' := Next(ns[curr'], searchLevel - 1);
    }

    /** The list findDropNodes starts from: the head, then a null for every further level. */
    static method InitialDrops(height: int) returns (drops: seq<Ref>)
      requires height >= 1
      ensures |drops| == height && drops[0] == Ptr(0)
      ensures forall l :: 1 <= l < height ==> drops[l] == Nil
    {
      drops := [Ptr(0)];
      var i := 1;
      while i < height
        invariant 1 <= i <= height && |drops| == i && drops[0] == Ptr(0)
        invariant forall l :: 1 <= l < i ==> drops[l] == Nil
      {
        drops := drops + [Nil];
        i := i + 1;
      }
    }

    /**
     * The inner loop of findDropNodes and contains: go along one level while the
     * next node holds a value below `x`; the walk ends on that level's drop node.
     */
    static method WalkLevel(nodes: seq<Node>, x: int, level: nat, curr: nat, next: Ref, ghost s: seq<nat>, ghost k: nat)
      returns (last: nat, ghost k': nat)
      requires Arena(nodes) && LinkedAs(nodes, level, s) && Reached(nodes, s, x, curr, k)
      requires curr < |nodes| && next == Next(nodes[curr], level)
      ensures Reached(nodes, s, x, last, k') && last < |nodes|
      ensures last == DropNode(nodes, s, x)
    {
      last, k' := curr, k;
      var succ := next;
      NextOfReached(nodes, level, s, x, last, k');
      while succ != Nil && ValueAt(nodes, succ.id) < x
        invariant Reached(nodes, s, x, last, k') && last < |nodes|
        invariant succ == if k' < |s| then Ptr(s[k']) else Nil
        decreases |s| - k'
      {
        last := succ.id;
        k' := k' + 1;
        NextOfReached(nodes, level, s, x, last, k');
        succ := Next(nodes[last], level);
      }
      ReachedStop(nodes, s, x, last, k');
    }

    /**
     * attemptHeightChange: after an insertion that calls for a taller list, the
     * head grows by one level and the walk meant to grow the nodes of the old top
     * level runs; after a deletion that calls for a shorter one, the head and
     * every node of the new top level are trimmed.  The height asked for is that
     * of the current size; the custom height plays no part.
     */
    method AttemptHeightChange(op: Operation, growCoins: seq<bool>)
      requires Shape(nodes, levels, maxHeight) && size == |levels[0]|
      requires op == Inserting ==> maxHeight + 1 >= CalculateHeight(size)
      requires op == Deleting ==> maxHeight >= CalculateHeight(size)
      modifies this`nodes, this`maxHeight, this`levels
      ensures Valid()
      ensures Values(nodes, levels[0]) == old(Values(nodes, levels[0]))
      ensures op == Inserting && CalculateHeight(size) > old(maxHeight) ==>
        maxHeight == old(maxHeight) + 1 && levels == old(levels) + [[]] &&
        nodes == old(nodes)[0 := Grow(old(nodes)[0])]
      ensures op == Deleting && CalculateHeight(size) < old(maxHeight) ==>
        maxHeight == CalculateHeight(size) && levels == old(levels)[..maxHeight] &&
        TrimmedOnTop(old(nodes), nodes, old(levels)[maxHeight - 1], maxHeight)
      ensures (op == Inserting ==> CalculateHeight(size) <= old(maxHeight)) && (op == Deleting ==> CalculateHeight(size) >= old(maxHeight))
        ==> nodes == old(nodes) && levels == old(levels) && maxHeight == old(maxHeight)
    {
      var newHeight := CalculateHeight(size);
      if op == Inserting && newHeight > maxHeight {
        nodes := GrowHeight(nodes, levels, maxHeight, growCoins);
        maxHeight := newHeight;
        levels := levels + [[]];
      } else if op == Deleting && newHeight < maxHeight {
        nodes := ShrinkHeight(nodes, levels, maxHeight, newHeight);
        maxHeight := newHeight;
        levels := levels[..newHeight];
      }
    }

    /** The growing half of attemptHeightChange, on the arena: one more null slot on the head. */
    static method GrowHeight(nodes: seq<Node>, ghost levels: seq<seq<nat>>, maxHeight: int, growCoins: seq<bool>)
      returns (nodes': seq<Node>)
      requires Shape(nodes, levels, maxHeight)
      ensures nodes' == nodes[0 := Grow(nodes[0])]
      ensures Shape(nodes', levels + [[]], maxHeight + 1)
      ensures Values(nodes', levels[0]) == Values(nodes, levels[0])
    {
      ShapeGrowHead(nodes, levels, maxHeight);
      nodes' := nodes[0 := Grow(nodes[0])];
      var curr := Next(nodes'[0], maxHeight);
      assert curr == Nil;
      nodes' := GrowWalk(nodes', curr, maxHeight, growCoins, []);
      assert Lane(nodes, 0, levels[0]);
      ValuesKept(nodes, nodes', levels[0]);
    }

    /** The shrinking half of attemptHeightChange, on the arena: the top levels cut away. */
    static method ShrinkHeight(nodes: seq<Node>, ghost levels: seq<seq<nat>>, maxHeight: int, height: int)
      returns (nodes': seq<Node>)
      requires Shape(nodes, levels, maxHeight) && 1 <= height < maxHeight
      ensures TrimmedOnTop(nodes, nodes', levels[height - 1], height)
      ensures Shape(nodes', levels[..height], height)
      ensures Values(nodes', levels[0]) == Values(nodes, levels[0])
    {
      assert Lane(nodes, height - 1, levels[height - 1]);
      SortedDistinct(nodes, levels[height - 1]);
      nodes' := TrimWalk(nodes, height, levels[height - 1]);
      ShapeTrimmed(nodes, nodes', levels, maxHeight, height);
      assert Lane(nodes, 0, levels[0]);
      ValuesKept(nodes, nodes', levels[0]);
    }

    /**
     * The walk of attemptHeightChange before the list shrinks: from the head
     * along level `height` - 1, each node is trimmed to `height` levels.
     */
    static method TrimWalk(nodes: seq<Node>, height: int, ghost s: seq<nat>) returns (nodes': seq<Node>)
      requires Arena(nodes) && height >= 1 && LinkedAs(nodes, height - 1, s) && Distinct(s)
      ensures Arena(nodes') && TrimmedOnTop(nodes, nodes', s, height)
    {
      ghost var u := [0] + s;
      nodes' := nodes;
      var curr := Ptr(0);
      ghost var k := 0;
      while curr != Nil
        invariant 0 <= k <= |u| && curr == if k < |u| then Ptr(u[k]) else Nil
        invariant Arena(nodes') && |nodes'| == |nodes|
        invariant forall id :: 0 <= id < |nodes| ==>
          if id in u[..k] then TrimmedFrom(nodes'[id], nodes[id], height) else nodes'[id] == nodes[id]
        decreases |u| - k
      {
        WalkFromHead(nodes, height - 1, s, k);
        assert u[k] !in u[..k];
        var m := Trim(nodes'[curr.id], height);
        nodes' := nodes'[curr.id := m];
        curr := Next(nodes'[curr.id], height - 1);
        assert u[..k + 1] == u[..k] + [u[k]];
        k := k + 1;
      }
      assert u[..k] == u;
    }

    /**
     * The walk of attemptHeightChange after the head grows: along level `level`
     * from `start`, each node grows one level on heads.  It starts from the new
     * top slot of the head, which is null, so in the list it never moves.
     */
    static method GrowWalk(nodes: seq<Node>, start: Ref, level: int, coins: seq<bool>, ghost t: seq<nat>)
      returns (nodes': seq<Node>)
      requires Arena(nodes) && ChainFrom(nodes, level, start, t) && Distinct(t)
      ensures Arena(nodes') && |nodes'| == |nodes|
      ensures forall k :: 0 <= k < |t| ==> nodes'[t[k]] == MaybeGrow(nodes[t[k]], k < |coins| && coins[k])
      ensures forall id :: 0 <= id < |nodes| && id !in t ==> nodes'[id] == nodes[id]
      ensures t == [] ==> nodes' == nodes
    {
      nodes' := nodes;
      var curr := start;
      var i := 0;
      while curr != Nil
        invariant 0 <= i <= |t| && curr == if i < |t| then Ptr(t[i]) else Nil
        invariant nodes' == GrownAlong(nodes, t, coins, i)
        decreases |t| - i
      {
        assert Next(nodes[t[i]], level) == Succ(t, i);
        nodes' := nodes'[curr.id := MaybeGrow(nodes'[curr.id], i < |coins| && coins[i])];
        curr := Next(nodes'[curr.id], level);
        i := i + 1;
      }
      GrownAlongAt(nodes, t, coins, i);
      assert t[..i] == t;
    }

    /** countNonNull: how many entries are real nodes, neither null nor the head. */
    method CountNonNull(drops: seq<Ref>) returns (count: int)
      ensures count == |GenuineIndices(nodes, drops, |drops|)|
      ensures 0 <= count <= |drops|
    {
      count := 0;
      var i := 0;
      while i < |drops|
        invariant 0 <= i <= |drops| && 0 <= count <= i
        invariant count == |GenuineIndices(nodes, drops, i)|
      {
        if IsGenuine(nodes, drops[i]) {
          assert GenuineIndices(nodes, drops, i + 1) == GenuineIndices(nodes, drops, i) + {i};
          count := count + 1;
        } else {
          assert GenuineIndices(nodes, drops, i + 1) == GenuineIndices(nodes, drops, i);
        }
        i := i + 1;
      }
    }

    /** The descent of contains: down every level, ending on the last node below `x`. */
    method SearchFloor(x: int) returns (curr: nat)
      requires Valid()
      ensures curr < |nodes| && curr == DropNode(nodes, levels[0], x)
    {
      var searchLevel := maxHeight - 1;
      curr := 0;
      var next := Next(nodes[curr], searchLevel);
      ghost var k: nat := 0;
      while searchLevel >= 0
        invariant -1 <= searchLevel < maxHeight && curr < |nodes|
        invariant 0 <= searchLevel ==> Reached(nodes, levels[searchLevel], x, curr, k)
        invariant 0 <= searchLevel ==> next == Next(nodes[curr], searchLevel)
        invariant searchLevel < 0 ==> curr == DropNode(nodes, levels[0], x)
        decreases searchLevel
      {
        assert Lane(nodes, searchLevel, levels[searchLevel]);
        curr, k := WalkLevel(nodes, x, searchLevel, curr, next, levels[searchLevel], k);
        searchLevel := searchLevel - 1;
        if searchLevel >= 0 {
          assert Lane(nodes, searchLevel, levels[searchLevel]);
          k := Descend(nodes, levels, searchLevel + 1, x, curr, k);
        }
        next := Next(nodes[curr], searchLevel);
      }
    }

    /**
     * contains as written: after the descent it reads the value of the bottom
     * successor without a null check, so it fails whenever every element is below `x`.
     */
    method ContainsAsWritten(x: int) returns (r: Answer)
      requires Valid()
      ensures r == NullDereference <==> forall i :: 0 <= i < |Contents()| ==> Contents()[i] < x
      ensures r.Answer? ==> r.found == (x in Contents())
    {
      var curr := SearchFloor(x);
      var succ := Next(nodes[curr], 0);
      SuccessorOfFloor(x, curr);
      if succ == Nil {
        r := NullDereference;
      } else {
        r := Answer(nodes[succ.id].value == Some(x));
      }
    }

    /** contains with the null check its last line needs: membership, exactly. */
    method Contains(x: int) returns (found: bool)
      requires Valid()
      ensures found == (x in Contents())
    {
      var curr := SearchFloor(x);
      var succ := Next(nodes[curr], 0);
      SuccessorOfFloor(x, curr);
      found := succ != Nil && nodes[succ.id].value == Some(x);
    }

    /** What the bottom link of the floor node says about membership. */
    lemma SuccessorOfFloor(x: int, curr: nat)
      requires Valid() && curr == DropNode(nodes, levels[0], x)
      ensures curr < |nodes|
      ensures Next(nodes[curr], 0) == Nil <==> forall i :: 0 <= i < |Contents()| ==> Contents()[i] < x
      ensures Next(nodes[curr], 0).Ptr? ==>
        Next(nodes[curr], 0).id < |nodes| && (nodes[Next(nodes[curr], 0).id].value == Some(x) <==> x in Contents())
    {
      var s := levels[0];
      var vs := Values(nodes, s);
      assert Lane(nodes, 0, s);
      DropReached(nodes, s, x);
      var j := CountBelow(vs, x);
      NextOfReached(nodes, 0, s, x, curr, j);
      SortedValues(nodes, s);
      CountBelowLocates(vs, x);
      if j < |s| {
        assert 1 <= s[j] < |nodes| && nodes[s[j]].value.Some?;
        assert vs[j] == ValueAt(nodes, s[j]) && vs[j] >= x;
      }
      assert Contents() == vs;
    }
  }

  lemma {:induction false} LeadingHeadsCount(coins: seq<bool>, i: nat)
    requires i <= |coins| && (forall j :: 0 <= j < i ==> coins[j]) && (i == |coins| || !coins[i])
    ensures LeadingHeads(coins) == i
  {
    if i > 0 {
      LeadingHeadsCount(coins[1..], i - 1);
    }
  }
}
