/**
 * The relinking loops of insert and delete, one level per turn.  Each loop's
 * progress is a predicate over the arena and the ghost levels; a lemma per turn
 * carries it one level further, and a final lemma turns it into the shape of
 * the whole list.
 */
module Relinking {
  import opened Towers
  import opened Ordered
  import opened Lanes

  /**
   * Where the relinking loop of insert stands after levels [0, i): each of them
   * below `height` has node `n` spliced in, every level is a Lane, and the levels
   * still to do have kept their links.
   */
  ghost predicate LinkedBelow(before: seq<Node>, levels: seq<seq<nat>>, x: int, n: nat, height: int,
                              ns: seq<Node>, lv: seq<seq<nat>>, i: nat)
  {
    i <= |levels| == |lv| && n + 1 == |before| && Arena(before) && Arena(ns) && SameTowers(before, ns) &&
    (forall L :: 0 <= L < |levels| ==> lv[L] == if L < i && L < height then SpliceAt(before, levels[L], x, n) else levels[L]) &&
    (forall L: nat {:trigger Lane(ns, L, lv[L])} :: L < |levels| ==> Lane(ns, L, lv[L])) &&
    (forall L: nat :: i <= L < |levels| ==> Keeps(before, ns, L))
  }

  /**
   * Before the relinking loop of insert: with the new node appended at index
   * `|nodes|`, nothing is relinked yet, and every level and its drop node read
   * the same as before.
   */
  lemma AppendStart(nodes: seq<Node>, levels: seq<seq<nat>>, maxHeight: int, x: int, m: Node)
    requires Shape(nodes, levels, maxHeight) && WellFormed(m) && m.value == Some(x)
    ensures Shape(nodes + [m], levels, maxHeight)
    ensures LinkedBelow(nodes + [m], levels, x, |nodes|, m.height, nodes + [m], levels, 0)
    ensures forall L :: 0 <= L < maxHeight ==>
      DropNode(nodes + [m], levels[L], x) == DropNode(nodes, levels[L], x) && |nodes| !in levels[L] &&
      Values(nodes + [m], levels[L]) == Values(nodes, levels[L]) &&
      forall k :: 0 <= k < |levels[L]| ==> levels[L][k] < |nodes|
  {
    var before := nodes + [m];
    ShapeAppend(nodes, levels, maxHeight, m);
    assert before[..|nodes|] == nodes;
    forall L | 0 <= L < maxHeight
      ensures Values(before, levels[L]) == Values(nodes, levels[L]) && |nodes| !in levels[L]
      ensures forall k :: 0 <= k < |levels[L]| ==> levels[L][k] < |nodes|
    {
      assert Lane(nodes, L, levels[L]);
      ValuesKept(nodes, before, levels[L]);
    }
    forall L: nat | L < maxHeight ensures Keeps(before, before, L) {
    }
  }

  /** One turn of the relinking loop below the new node's height. */
  lemma LinkStep(before: seq<Node>, levels: seq<seq<nat>>, x: int, n: nat, height: int,
                 ns: seq<Node>, lv: seq<seq<nat>>, i: nat, ns': seq<Node>)
    requires LinkedBelow(before, levels, x, n, height, ns, lv, i) && i < |levels| && i < height
    requires before[0].height > i && n >= 1 && before[n].height == height && ValueAt(before, n) == x
    requires forall k :: 0 <= k < |levels[i]| ==> levels[i][k] < n
    requires var d := DropNode(before, levels[i], x);
      ns' == ns[n := SetNext(ns[n], i, Next(ns[d], i))][d := SetNext(ns[d], i, Ptr(n))]
    ensures LinkedBelow(before, levels, x, n, height, ns', lv[i := SpliceAt(before, levels[i], x, n)], i + 1)
  {
    var s := levels[i];
    assert Lane(ns, i, lv[i]);
    ValuesKept(before, ns, s);
    LinkInLevel(ns, i, s, x, n, ns');
    var lv' := lv[i := SpliceAt(before, s, x, n)];
    forall L: nat | L < |levels| ensures Lane(ns', L, lv'[L]) {
      if L != i {
        assert Lane(ns, L, lv[L]);
        LaneKept(ns, ns', L, lv[L]);
      }
    }
    forall L: nat | i < L < |levels| ensures Keeps(before, ns', L) {
      KeepsTrans(before, ns, ns', L);
    }
  }

  /** A turn of the relinking loop at or above the new node's height changes nothing. */
  lemma SkipStep(before: seq<Node>, levels: seq<seq<nat>>, x: int, n: nat, height: int,
                 ns: seq<Node>, lv: seq<seq<nat>>, i: nat)
    requires LinkedBelow(before, levels, x, n, height, ns, lv, i) && i < |levels| && i >= height
    ensures LinkedBelow(before, levels, x, n, height, ns, lv, i + 1)
  {
  }

  /** When the relinking loop is done, the levels form a list with `n` on the first `height` of them. */
  lemma LinkedAll(before: seq<Node>, levels: seq<seq<nat>>, x: int, n: nat, height: int,
                  ns: seq<Node>, lv: seq<seq<nat>>)
    requires LinkedBelow(before, levels, x, n, height, ns, lv, |levels|)
    requires Shape(before, levels, |levels|) && ValueAt(before, n) == x && height >= 1
    requires forall L :: 0 <= L < |levels| ==> n !in levels[L]
    ensures Shape(ns, lv, |levels|) && |lv[0]| == |levels[0]| + 1
    ensures Values(ns, lv[0]) == InsertSorted(Values(before, levels[0]), x)
    ensures forall L :: 0 <= L < |levels| ==> (n in lv[L] <==> L < height)
  {
    var top := if height < |levels| then height else |levels|;
    NestedSpliced(before, levels, lv, x, n, top);
    assert Shape(ns, lv, |levels|);
    ValuesSplice(before, levels[0], x, n);
    assert Lane(ns, 0, lv[0]);
    ValuesKept(before, ns, lv[0]);
    forall L | 0 <= L < |levels| ensures n in lv[L] <==> L < height {
      InSpliceAt(before, levels[L], x, n, n);
    }
  }

  /**
   * Where the relinking loop of delete stands after levels [0, i): `del` is gone
   * from each of them, every level is a Lane, and the levels still to do have
   * kept their links.
   */
  ghost predicate UnlinkedBelow(before: seq<Node>, levels: seq<seq<nat>>, del: nat,
                                ns: seq<Node>, lv: seq<seq<nat>>, i: nat)
  {
    i <= |levels| == |lv| && Arena(before) && Arena(ns) && SameTowers(before, ns) &&
    (forall L :: 0 <= L < |levels| ==> lv[L] == if L < i then Without(levels[L], del) else levels[L]) &&
    (forall L: nat {:trigger Lane(ns, L, lv[L])} :: L < |levels| ==> Lane(ns, L, lv[L])) &&
    (forall L: nat :: i <= L < |levels| ==> Keeps(before, ns, L))
  }

  /** Before the relinking loop of delete: nothing is unlinked yet, and the bottom drop node links to `del`. */
  lemma UnlinkStart(nodes: seq<Node>, levels: seq<seq<nat>>, x: int, del: nat, p: nat)
    requires Shape(nodes, levels, |levels|) && FirstWith(nodes, levels[0], x, del, p)
    ensures UnlinkedBelow(nodes, levels, del, nodes, levels, 0)
    ensures forall L :: 0 <= L < |levels| ==> DropNode(nodes, levels[L], x) < |nodes|
    ensures del < |nodes| && nodes[del].height >= 1 && Next(nodes[DropNode(nodes, levels[0], x)], 0) == Ptr(del)
  {
    forall L | 0 <= L < |levels| ensures DropNode(nodes, levels[L], x) < |nodes| {
      assert Lane(nodes, L, levels[L]);
      DropReached(nodes, levels[L], x);
      NextOfReached(nodes, L, levels[L], x, DropNode(nodes, levels[L], x), CountBelow(Values(nodes, levels[L]), x));
    }
    assert Lane(nodes, 0, levels[0]);
    var q0 := DropLinksFirst(nodes, levels, 0, x, del, p);
    forall L: nat | L < |levels| ensures Keeps(nodes, nodes, L) {
    }
  }

  /** A turn of the relinking loop of delete where the drop node links to `del`: it is linked past. */
  lemma UnlinkStep(before: seq<Node>, levels: seq<seq<nat>>, x: int, del: nat, p: nat,
                   ns: seq<Node>, lv: seq<seq<nat>>, i: nat, ns': seq<Node>)
    requires UnlinkedBelow(before, levels, del, ns, lv, i) && i < |levels|
    requires Shape(before, levels, |levels|) && FirstWith(before, levels[0], x, del, p)
    requires del < |ns| && DropNode(before, levels[i], x) < |ns|
    requires var d := DropNode(before, levels[i], x);
      Next(ns[d], i) == Ptr(del) && ns' == ns[d := SetNext(ns[d], i, Next(ns[del], i))]
    ensures UnlinkedBelow(before, levels, del, ns', lv[i := Without(levels[i], del)], i + 1)
  {
    var s := levels[i];
    var d := DropNode(before, s, x);
    assert Next(before[d], i) == Ptr(del) by {
      assert Keeps(before, ns, i);
    }
    var q := PositionWhenLinked(before, levels, x, del, p, i);
    assert ns[0].height > i by {
      assert SameTowers(before, ns);
    }
    UnlinkAt(before, levels, del, ns, lv, i, q, ns');
  }

  /** Linking the node before position `q` of level `i` past it, with `del` at `q` and nowhere else. */
  lemma UnlinkAt(before: seq<Node>, levels: seq<seq<nat>>, del: nat,
                 ns: seq<Node>, lv: seq<seq<nat>>, i: nat, q: nat, ns': seq<Node>)
    requires UnlinkedBelow(before, levels, del, ns, lv, i) && i < |levels| && ns[0].height > i
    requires q < |levels[i]| && levels[i][q] == del
    requires forall k :: 0 <= k < |levels[i]| && k != q ==> levels[i][k] != del
    requires del < |ns| && (q == 0 || levels[i][q - 1] < |ns|)
    requires var d := if q == 0 then 0 else levels[i][q - 1];
      ns' == ns[d := SetNext(ns[d], i, Next(ns[del], i))]
    ensures UnlinkedBelow(before, levels, del, ns', lv[i := Without(levels[i], del)], i + 1)
  {
    var s := levels[i];
    assert Lane(ns, i, lv[i]);
    UnlinkFromLevel(ns, i, s, q, ns');
    WithoutAt(s, del, q);
    var lv' := lv[i := Without(s, del)];
    forall L: nat | L < |levels| ensures Lane(ns', L, lv'[L]) {
      if L != i {
        assert Lane(ns, L, lv[L]);
        LaneKept(ns, ns', L, lv[L]);
      }
    }
    forall L: nat | i < L < |levels| ensures Keeps(before, ns', L) {
      KeepsTrans(before, ns, ns', L);
    }
  }

  /** A level whose drop node links to the first node holding `x` holds it once, right after that drop node. */
  lemma PositionWhenLinked(nodes: seq<Node>, levels: seq<seq<nat>>, x: int, del: nat, p: nat, i: nat) returns (q: nat)
    requires Shape(nodes, levels, |levels|) && FirstWith(nodes, levels[0], x, del, p) && i < |levels|
    requires DropNode(nodes, levels[i], x) < |nodes| && Next(nodes[DropNode(nodes, levels[i], x)], i) == Ptr(del)
    ensures q < |levels[i]| && levels[i][q] == del && DropNode(nodes, levels[i], x) == if q == 0 then 0 else levels[i][q - 1]
    ensures forall k :: 0 <= k < |levels[i]| && k != q ==> levels[i][k] != del
  {
    assert Lane(nodes, i, levels[i]);
    assert Lane(nodes, 0, levels[0]);
    q := DropLinksFirst(nodes, levels, i, x, del, p);
    SortedDistinct(nodes, levels[i]);
  }

  /** A turn where the drop node does not link to `del`: `del` is not on that level, nothing changes. */
  lemma UnlinkSkip(before: seq<Node>, levels: seq<seq<nat>>, x: int, del: nat, p: nat,
                   ns: seq<Node>, lv: seq<seq<nat>>, i: nat)
    requires UnlinkedBelow(before, levels, del, ns, lv, i) && i < |levels|
    requires Shape(before, levels, |levels|) && FirstWith(before, levels[0], x, del, p)
    requires DropNode(before, levels[i], x) < |ns|
    requires Next(ns[DropNode(before, levels[i], x)], i) != Ptr(del)
    ensures UnlinkedBelow(before, levels, del, ns, lv[i := Without(levels[i], del)], i + 1)
  {
    assert Next(before[DropNode(before, levels[i], x)], i) != Ptr(del) by {
      assert Keeps(before, ns, i);
    }
    AbsentWhenUnlinked(before, levels, x, del, p, i);
    WithoutAbsent(levels[i], del);
    assert lv[i := Without(levels[i], del)] == lv;
  }

  /** A level whose drop node does not link to the first node holding `x` does not hold that node. */
  lemma AbsentWhenUnlinked(nodes: seq<Node>, levels: seq<seq<nat>>, x: int, del: nat, p: nat, i: nat)
    requires Shape(nodes, levels, |levels|) && FirstWith(nodes, levels[0], x, del, p) && i < |levels|
    requires DropNode(nodes, levels[i], x) < |nodes| && Next(nodes[DropNode(nodes, levels[i], x)], i) != Ptr(del)
    ensures del !in levels[i]
  {
    assert Lane(nodes, i, levels[i]);
    assert Lane(nodes, 0, levels[0]);
    var q := DropLinksFirst(nodes, levels, i, x, del, p);
  }

  /**
   * When the relinking loop of delete stops, at the top of `del`'s tower or of
   * the list, `del` is gone from every level: the list has lost exactly the
   * first node holding `x`.
   */
  lemma UnlinkedAll(before: seq<Node>, levels: seq<seq<nat>>, x: int, del: nat, p: nat,
                    ns: seq<Node>, lv: seq<seq<nat>>, i: nat)
    requires UnlinkedBelow(before, levels, del, ns, lv, i)
    requires Shape(before, levels, |levels|) && FirstWith(before, levels[0], x, del, p)
    requires i == |levels| || (del < |before| && before[del].height <= i)
    ensures Shape(ns, lv, |levels|)
    ensures forall L :: 0 <= L < |levels| ==> lv[L] == Without(levels[L], del)
    ensures Values(ns, lv[0]) == RemoveFirst(Values(before, levels[0]), x) && |lv[0]| + 1 == |levels[0]|
  {
    forall L | i <= L < |levels| ensures lv[L] == Without(levels[L], del) {
      assert Lane(before, L, levels[L]);
      assert del !in levels[L] by {
        forall k | 0 <= k < |levels[L]| ensures levels[L][k] != del {
        }
      }
      WithoutAbsent(levels[L], del);
    }
    NestedWithout(levels, lv, del);
    assert Shape(ns, lv, |levels|);
    var s0 := levels[0];
    assert Lane(before, 0, s0);
    SortedDistinct(before, s0);
    WithoutAt(s0, del, p);
    ValuesRemoved(before, s0, x, del, p);
    assert Lane(ns, 0, lv[0]);
    ValuesKept(before, ns, lv[0]);
  }
}
