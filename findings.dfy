/**
 * The relinking loop of delete exactly as the Java code writes it.  It differs
 * from the corrected loop of SkipList.Delete in three ways.  Above level 0 it
 * skips a drop node that is the head.  It relinks a drop node that holds a
 * value even when that node does not link to the deleted node, which happens
 * on a level the deleted node's tower reaches but the node is not on.  And it
 * runs to the deleted node's height even when that exceeds the number of drop
 * nodes, where dropNodes.get throws.  A sample list shows each consequence.
 */
module Findings {
  import opened Towers
  import opened Ordered
  import opened Lanes

  /** The end of the loop: the relinked arena with the performedDeletion flag, or the exception. */
  datatype Outcome = Relinked(nodes: seq<Node>, performed: bool) | IndexOutOfBounds

  /** The guard of the loop body as written: a recorded drop node, which above level 0 must hold a value. */
  predicate RelinksAsWritten(nodes: seq<Node>, drops: seq<Ref>, i: nat) {
    i < |drops| && drops[i].Ptr? && (i == 0 || (drops[i].id < |nodes| && nodes[drops[i].id].value.Some?))
  }

  /**
   * The level-`l` link of node `id` once the loop has run its first `n` rounds:
   * the deleted node's link when a round below `n` relinked that node there
   * (and its tower reaches the level), otherwise the link it had.
   */
  ghost function LinkAfterRounds(nodes: seq<Node>, drops: seq<Ref>, del: nat, n: int, id: nat, l: int): Ref
    requires Arena(nodes) && del < |nodes| && id < |nodes|
  {
    if 0 <= l < n && RelinksAsWritten(nodes, drops, l) && drops[l].id == id && l < nodes[id].height
    then Next(nodes[del], l) else Next(nodes[id], l)
  }

  /**
   * The loop `for (i = 0; i < deletedNode.height(); i++)` of delete: on each
   * level where the guard holds, the drop node takes over the deleted node's link.
   */
  method RelinkAsWritten(nodes: seq<Node>, drops: seq<Ref>, del: nat) returns (r: Outcome)
    requires Arena(nodes) && del < |nodes|
    requires forall L :: 0 <= L < |drops| && drops[L].Ptr? ==> drops[L].id < |nodes|
    ensures r == IndexOutOfBounds <==> nodes[del].height > |drops|
    ensures r.Relinked? ==> Arena(r.nodes) && SameTowers(nodes, r.nodes)
    ensures r.Relinked? ==> (r.performed <==> exists i :: 0 <= i < nodes[del].height && RelinksAsWritten(nodes, drops, i))
    ensures r.Relinked? ==> forall id, l :: 0 <= id < |nodes| ==>
      Next(r.nodes[id], l) == LinkAfterRounds(nodes, drops, del, nodes[del].height, id, l)
  {
    var ns := nodes;
    var performed := false;
    var i := 0;
    while i < nodes[del].height
      invariant 0 <= i <= nodes[del].height && i <= |drops|
      invariant Arena(ns) && SameTowers(nodes, ns)
      invariant performed <==> exists j :: 0 <= j < i && RelinksAsWritten(nodes, drops, j)
      invariant forall id, l :: 0 <= id < |nodes| ==> Next(ns[id], l) == LinkAfterRounds(nodes, drops, del, i, id, l)
    {
      if i >= |drops| {
        return IndexOutOfBounds;
      }
      if RelinksAsWritten(nodes, drops, i) {
        var d := drops[i].id;
        var ns' := ns[d := SetNext(ns[d], i, Next(ns[del], i))];
        forall id, l | 0 <= id < |nodes|
          ensures Next(ns'[id], l) == LinkAfterRounds(nodes, drops, del, i + 1, id, l)
        {
          NextAfterSetNext(ns[d], i, Next(ns[del], i), l);
        }
        ns := ns';
        performed := true;
      }
      i := i + 1;
    }
    r := Relinked(ns, performed);
  }

  /** SkipList(3) after inserting 10, 20, 30 and 40 with heights 1, 2, 1 and 1. */
  const Tall: seq<Node> := [
    Node(None, 3, [Ptr(1), Ptr(2), Nil]),
    Node(Some(10), 1, [Ptr(2)]),
    Node(Some(20), 2, [Ptr(3), Nil]),
    Node(Some(30), 1, [Ptr(4)]),
    Node(Some(40), 1, [Nil])
  ]
  const TallLevels: seq<seq<nat>> := [[1, 2, 3, 4], [2], []]

  /** What findDropNodes(20, 3) returns on that list: node 10, then the head twice. */
  const TallDrops: seq<Ref> := [Ptr(1), Ptr(0), Ptr(0)]

  /** The sample is a list. */
  lemma TallIsList()
    ensures Shape(Tall, TallLevels, 3)
  {
    forall L: nat | L < |TallLevels| ensures Lane(Tall, L, TallLevels[L]) {
      if L == 0 {
        TallBottom();
      } else {
        TallUpper();
      }
    }
    TallNested();
  }

  lemma TallNested()
    ensures Nested(TallLevels)
  {
    forall L, M, k | 1 <= L < |TallLevels| && M == L - 1 && 0 <= k < |TallLevels[L]| ensures TallLevels[L][k] in TallLevels[M] {
      assert L == 1;
    }
  }

  lemma TallBottom()
    ensures Arena(Tall) && Lane(Tall, 0, TallLevels[0])
  {
    assert Arena(Tall);
    TallBottomLinks();
    var s := TallLevels[0];
    forall k | 0 <= k < |s| ensures s[k] == k + 1 && ValueAt(Tall, s[k]) == 10 * (k + 1) && Tall[s[k]].height > 0 {
    }
    assert Sorted(Tall, s);
  }

  lemma TallBottomLinks()
    ensures Arena(Tall) && LinkedAs(Tall, 0, TallLevels[0])
  {
    assert Arena(Tall);
  }

  lemma TallUpper()
    ensures Arena(Tall) && Lane(Tall, 1, TallLevels[1]) && Lane(Tall, 2, TallLevels[2])
  {
    assert Arena(Tall);
  }

  /** 20 is node 2, second on the bottom level, and the drop nodes are those the search records. */
  lemma TallDelete()
    ensures FirstWith(Tall, TallLevels[0], 20, 2, 1)
    ensures forall L :: 0 <= L < 3 ==> TallDrops[L] == DropEntry(Tall, TallLevels, L, 20, 3)
    ensures Tall[2].height <= |TallDrops| && Next(Tall[0], 1) == Ptr(2) && !RelinksAsWritten(Tall, TallDrops, 1)
  {
    assert Values(Tall, TallLevels[0]) == [10, 20, 30, 40];
    assert Values(Tall, TallLevels[1]) == [20];
    assert CountBelow([10, 20, 30, 40], 20) == 1;
    assert CountBelow([20], 20) == 0;
    assert Values(Tall, TallLevels[2]) == [];
  }

  /**
   * Deleting 20 as written leaves the head's level-1 link on the deleted node, so
   * level 1 does not read as its chain without node 2, which the corrected delete gives.
   */
  lemma StaleHeadLink(ns: seq<Node>)
    requires Arena(ns) && |ns| == |Tall|
    requires forall id, l :: 0 <= id < |Tall| ==> Next(ns[id], l) == LinkAfterRounds(Tall, TallDrops, 2, Tall[2].height, id, l)
    ensures !LinkedAs(ns, 1, Without(TallLevels[1], 2))
  {
    assert Next(ns[0], 1) == Ptr(2);
    assert Without(TallLevels[1], 2) == [];
  }

  /**
   * new SkipList() after insert(10, 2), insert(20, 1), insert(30, 1), insert(5, 2)
   * and insert(25, 2).  Node 1 (10) was drawn two levels high while the list had
   * one, so it is not on level 1; the list grew to two levels on the third insert
   * (size 3) and to three levels on the fifth (size 5).
   */
  const Gapped: seq<Node> := [
    Node(None, 3, [Ptr(4), Ptr(4), Nil]),
    Node(Some(10), 2, [Ptr(2), Nil]),
    Node(Some(20), 1, [Ptr(5)]),
    Node(Some(30), 1, [Nil]),
    Node(Some(5), 2, [Ptr(1), Ptr(5)]),
    Node(Some(25), 2, [Ptr(3), Nil])
  ]
  const GappedLevels: seq<seq<nat>> := [[4, 1, 2, 5, 3], [4, 5], []]

  /** What findDropNodes(10, 3) returns on that list: node 5 twice, then the head. */
  const GappedDrops: seq<Ref> := [Ptr(4), Ptr(4), Ptr(0)]

  /** The sample is a list. */
  lemma GappedIsList()
    ensures Shape(Gapped, GappedLevels, 3)
  {
    forall L: nat | L < |GappedLevels| ensures Lane(Gapped, L, GappedLevels[L]) {
      if L == 0 {
        GappedBottom();
      } else {
        GappedUpper();
      }
    }
    GappedNested();
  }

  lemma GappedNested()
    ensures Nested(GappedLevels)
  {
    forall L, M, k | 1 <= L < |GappedLevels| && M == L - 1 && 0 <= k < |GappedLevels[L]| ensures GappedLevels[L][k] in GappedLevels[M] {
      assert L == 1;
    }
  }

  lemma GappedBottom()
    ensures Arena(Gapped) && Lane(Gapped, 0, GappedLevels[0])
  {
    assert Arena(Gapped);
    GappedBottomLinks();
    GappedSorted();
    var s := GappedLevels[0];
    forall k | 0 <= k < |s| ensures Gapped[s[k]].height > 0 {
    }
  }

  lemma GappedSorted()
    ensures Sorted(Gapped, GappedLevels[0])
  {
    var s := GappedLevels[0];
    var vs := [5, 10, 20, 25, 30];
    forall k | 0 <= k < |s| ensures ValueAt(Gapped, s[k]) == vs[k] {
    }
    forall i, j | 0 <= i < j < |s| ensures Precedes(Gapped, s[i], s[j]) {
      assert vs[i] < vs[j];
    }
  }

  lemma GappedBottomLinks()
    ensures Arena(Gapped) && LinkedAs(Gapped, 0, GappedLevels[0])
  {
    assert Arena(Gapped);
  }

  lemma GappedUpper()
    ensures Arena(Gapped) && Lane(Gapped, 1, GappedLevels[1]) && Lane(Gapped, 2, GappedLevels[2])
  {
    assert Arena(Gapped);
  }

  /**
   * 10 is node 1, second on the bottom level, the drop nodes are those the search
   * records, and the guard fires on level 1, where node 1 is absent and its drop
   * node links to node 5 (25).
   */
  lemma GappedDelete()
    ensures FirstWith(Gapped, GappedLevels[0], 10, 1, 1)
    ensures forall L :: 0 <= L < 3 ==> GappedDrops[L] == DropEntry(Gapped, GappedLevels, L, 10, 3)
    ensures Gapped[1].height <= |GappedDrops| && 1 !in GappedLevels[1]
    ensures RelinksAsWritten(Gapped, GappedDrops, 1) && Next(Gapped[4], 1) == Ptr(5) && Next(Gapped[1], 1) == Nil
  {
    assert Values(Gapped, GappedLevels[0]) == [5, 10, 20, 25, 30];
    assert Values(Gapped, GappedLevels[1]) == [5, 25];
    assert CountBelow([5, 10, 20, 25, 30], 10) == 1;
    assert CountBelow([5, 25], 10) == 1;
    assert Values(Gapped, GappedLevels[2]) == [];
  }

  /**
   * Deleting 10 as written overwrites the level-1 link of node 4 (5) with the
   * deleted node's null, so level 1 loses node 5 (25) and does not read as its
   * chain without node 1, which is the chain itself and what the corrected delete keeps.
   */
  lemma CutOffLink(ns: seq<Node>)
    requires Arena(ns) && |ns| == |Gapped|
    requires forall id, l :: 0 <= id < |Gapped| ==> Next(ns[id], l) == LinkAfterRounds(Gapped, GappedDrops, 1, Gapped[1].height, id, l)
    ensures !LinkedAs(ns, 1, Without(GappedLevels[1], 1))
  {
    assert Next(ns[4], 1) == Nil;
    assert Without(GappedLevels[1], 1) == [4, 5];
  }

  /** new SkipList() after insert(5, 2): one node, taller than the list. */
  const Overtall: seq<Node> := [Node(None, 1, [Ptr(1)]), Node(Some(5), 2, [Nil, Nil])]
  const OvertallLevels: seq<seq<nat>> := [[1]]
  const OvertallDrops: seq<Ref> := [Ptr(0)]

  /** The sample is a list holding 5 at node 1, whose tower overruns the one drop node the search records. */
  lemma OvertallSample()
    ensures Shape(Overtall, OvertallLevels, 1) && FirstWith(Overtall, OvertallLevels[0], 5, 1, 0)
    ensures OvertallDrops[0] == DropEntry(Overtall, OvertallLevels, 0, 5, 1)
    ensures Overtall[1].height > |OvertallDrops|
  {
    assert Lane(Overtall, 0, OvertallLevels[0]);
    assert Values(Overtall, OvertallLevels[0]) == [5];
    assert CountBelow([5], 5) == 0;
  }
}
