/**
 * The shape of a skip list over an arena of towers.  Node 0 is the sentinel
 * head.  For every level L below the list's height, `levels[L]` lists the ids
 * of the nodes met by following level-L links from the head, in order; the
 * links themselves must spell out exactly that chain (LinkedAs).
 *
 * Chains are strictly ordered by (value ascending, id descending): equal values
 * are allowed, and an insertion puts the newest equal node first.  Every level
 * above 0 only holds nodes that the level below it holds (Nested).
 */
module Lanes {
  import opened Towers
  import opened Ordered

  ghost predicate Arena(nodes: seq<Node>) {
    |nodes| >= 1 && forall k :: 0 <= k < |nodes| ==> WellFormed(nodes[k])
  }

  /** The element held by node `id` (0 for the head, which holds none). */
  function ValueAt(nodes: seq<Node>, id: nat): int {
    if id < |nodes| && nodes[id].value.Some? then nodes[id].value.value else 0
  }

  function Values(nodes: seq<Node>, s: seq<nat>): seq<int> {
    seq(|s|, k requires 0 <= k < |s| => ValueAt(nodes, s[k]))
  }

  /** The strict order in which every chain lists its nodes. */
  predicate Precedes(nodes: seq<Node>, a: nat, b: nat) {
    ValueAt(nodes, a) < ValueAt(nodes, b) || (ValueAt(nodes, a) == ValueAt(nodes, b) && a > b)
  }

  ghost predicate Sorted(nodes: seq<Node>, s: seq<nat>) {
    forall i, j :: 0 <= i < j < |s| ==> Precedes(nodes, s[i], s[j])
  }

  /** The link that follows position `k` of a chain: the next node, or null after the last. */
  function Succ(s: seq<nat>, k: nat): Ref
    requires k < |s|
  {
    if k + 1 < |s| then Ptr(s[k + 1]) else Nil
  }

  /** Following level-`level` links from the head visits exactly `s`, then null. */
  ghost predicate LinkedAs(nodes: seq<Node>, level: nat, s: seq<nat>)
    requires Arena(nodes)
  {
    (forall k :: 0 <= k < |s| ==> 1 <= s[k] < |nodes|) &&
    Next(nodes[0], level) == (if s == [] then Nil else Ptr(s[0])) &&
    (forall k {:trigger nodes[s[k]]} :: 0 <= k < |s| ==> Next(nodes[s[k]], level) == Succ(s, k))
  }

  /** One level: linked as `s`, in order, and every node on it is tall enough to be there. */
  ghost predicate Lane(nodes: seq<Node>, level: nat, s: seq<nat>)
    requires Arena(nodes)
  {
    LinkedAs(nodes, level, s) && Sorted(nodes, s) &&
    forall k :: 0 <= k < |s| ==> nodes[s[k]].height > level
  }

  ghost predicate Nested(levels: seq<seq<nat>>) {
    forall L, M, k {:trigger levels[L][k], levels[M]} ::
      1 <= L < |levels| && M == L - 1 && 0 <= k < |levels[L]| ==> levels[L][k] in levels[M]
  }

  /** The structural invariant of a list whose head spans `maxHeight` levels. */
  ghost predicate Shape(nodes: seq<Node>, levels: seq<seq<nat>>, maxHeight: int) {
    Arena(nodes) && nodes[0].value == None &&
    (forall k :: 1 <= k < |nodes| ==> nodes[k].value.Some?) &&
    maxHeight >= 1 && nodes[0].height == maxHeight && |levels| == maxHeight &&
    (forall L: nat {:trigger Lane(nodes, L, levels[L])} :: L < |levels| ==> Lane(nodes, L, levels[L])) &&
    Nested(levels)
  }

  /** The drop node of a level: the last node on it holding a value below `x`, or the head. */
  function DropNode(nodes: seq<Node>, s: seq<nat>, x: int): nat {
    var j := CountBelow(Values(nodes, s), x);
    if j == 0 then 0 else s[j - 1]
  }

  /**
   * The entry findDropNodes records for level L when asked for `height` levels:
   * the drop node below that height, otherwise the initial head (level 0) or null.
   */
  function DropEntry(nodes: seq<Node>, levels: seq<seq<nat>>, L: nat, x: int, height: int): Ref
    requires L < |levels|
  {
    if L < height then Ptr(DropNode(nodes, levels[L], x)) else if L == 0 then Ptr(0) else Nil
  }

  /** The level `s` with node `n` linked in right after the drop node for `x`. */
  function SpliceAt(nodes: seq<Node>, s: seq<nat>, x: int, n: nat): seq<nat> {
    var j := CountBelow(Values(nodes, s), x);
    s[..j] + [n] + s[j..]
  }

  /** `curr` is the head (k = 0) or the k-th node of `s`, and everything up to it is below `x`. */
  ghost predicate Reached(nodes: seq<Node>, s: seq<nat>, x: int, curr: nat, k: nat) {
    k <= |s| && (if k == 0 then curr == 0 else curr == s[k - 1]) &&
    forall i :: 0 <= i < k ==> ValueAt(nodes, s[i]) < x
  }

  /** A drop-node entry that is a real node rather than null or the head. */
  predicate IsGenuine(nodes: seq<Node>, r: Ref) {
    r.Ptr? && r.id < |nodes| && nodes[r.id].value.Some?
  }

  /** The positions among the first `n` entries of `drops` that hold a real node. */
  ghost function GenuineIndices(nodes: seq<Node>, drops: seq<Ref>, n: int): set<int> {
    set i | 0 <= i < n && i < |drops| && IsGenuine(nodes, drops[i])
  }

  /** A chain never lists a node twice. */
  ghost predicate Distinct(s: seq<nat>) {
    forall i, j :: 0 <= i < j < |s| ==> s[i] != s[j]
  }

  /**
   * What a step keeps of level `level`: the same nodes with the same values, every
   * node tall enough for the level stays so, and the level's links read the same.
   */
  ghost predicate Keeps(nodes: seq<Node>, nodes': seq<Node>, level: nat)
    requires Arena(nodes) && Arena(nodes')
  {
    |nodes'| == |nodes| &&
    forall id :: 0 <= id < |nodes| ==>
      nodes'[id].value == nodes[id].value &&
      (nodes[id].height > level ==> nodes'[id].height > level) &&
      Next(nodes'[id], level) == Next(nodes[id], level)
  }

  /** Same nodes, same values and heights; links may differ. */
  ghost predicate SameTowers(nodes: seq<Node>, nodes': seq<Node>) {
    |nodes'| == |nodes| &&
    forall id :: 0 <= id < |nodes| ==> nodes'[id].value == nodes[id].value && nodes'[id].height == nodes[id].height
  }

  /** `del` stands at position `p` of the bottom chain `s0`, holds `x`, and everything before it is below `x`. */
  ghost predicate FirstWith(nodes: seq<Node>, s0: seq<nat>, x: int, del: nat, p: nat) {
    p < |s0| && s0[p] == del && ValueAt(nodes, del) == x &&
    forall i :: 0 <= i < p ==> ValueAt(nodes, s0[i]) < x
  }

  /** The ids visited by a trim walk: the head, then the chain `s`. */
  ghost predicate TrimmedOnTop(nodes: seq<Node>, nodes': seq<Node>, s: seq<nat>, height: int)
    requires Arena(nodes)
  {
    |nodes'| == |nodes| &&
    forall id :: 0 <= id < |nodes| ==>
      if id == 0 || id in s then TrimmedFrom(nodes'[id], nodes[id], height) else nodes'[id] == nodes[id]
  }

  // ---------------------------------------------------------------------------
  // Order

  lemma SortedDistinct(nodes: seq<Node>, s: seq<nat>)
    requires Sorted(nodes, s)
    ensures Distinct(s)
  {
  }

  /** A chain in order reads its values in non-decreasing order. */
  lemma SortedValues(nodes: seq<Node>, s: seq<nat>)
    requires Sorted(nodes, s)
    ensures NonDecreasing(Values(nodes, s))
  {
    var vs := Values(nodes, s);
    forall i, j | 0 <= i < j < |vs| ensures vs[i] <= vs[j] {
      assert Precedes(nodes, s[i], s[j]);
    }
  }

  /** Values read through the same ids agree when the nodes keep their values. */
  lemma ValuesKept(nodes: seq<Node>, nodes': seq<Node>, s: seq<nat>)
    requires forall k :: 0 <= k < |s| ==> s[k] < |nodes| <= |nodes'| && nodes'[s[k]].value == nodes[s[k]].value
    ensures Values(nodes', s) == Values(nodes, s)
    ensures Sorted(nodes', s) <==> Sorted(nodes, s)
  {
    forall k | 0 <= k < |s| ensures ValueAt(nodes', s[k]) == ValueAt(nodes, s[k]) {
    }
  }

  /** Values of a concatenation. */
  lemma ValuesConcat(nodes: seq<Node>, a: seq<nat>, b: seq<nat>)
    ensures Values(nodes, a + b) == Values(nodes, a) + Values(nodes, b)
  {
  }

  // ---------------------------------------------------------------------------
  // Descending through the levels

  /** The drop node of a level is reached by walking it: everything up to it is below `x`. */
  lemma DropReached(nodes: seq<Node>, s: seq<nat>, x: int)
    ensures Reached(nodes, s, x, DropNode(nodes, s, x), CountBelow(Values(nodes, s), x))
  {
    var vs := Values(nodes, s);
    var j := CountBelow(vs, x);
    forall i | 0 <= i < j ensures ValueAt(nodes, s[i]) < x {
      assert vs[i] == ValueAt(nodes, s[i]);
    }
  }

  /** The link a walk reads next: the following node of the chain, or null at its end. */
  lemma NextOfReached(nodes: seq<Node>, level: nat, s: seq<nat>, x: int, curr: nat, k: nat)
    requires Arena(nodes) && LinkedAs(nodes, level, s) && Reached(nodes, s, x, curr, k)
    ensures curr < |nodes|
    ensures Next(nodes[curr], level) == if k < |s| then Ptr(s[k]) else Nil
  {
  }

  /** A walk that stops before the first node not below `x` has reached the drop node. */
  lemma ReachedStop(nodes: seq<Node>, s: seq<nat>, x: int, curr: nat, k: nat)
    requires Reached(nodes, s, x, curr, k)
    requires k < |s| ==> ValueAt(nodes, s[k]) >= x
    ensures CountBelow(Values(nodes, s), x) == k && curr == DropNode(nodes, s, x)
  {
    var vs := Values(nodes, s);
    forall i | 0 <= i < k ensures vs[i] < x {
      assert vs[i] == ValueAt(nodes, s[i]);
    }
    if k < |s| {
      assert vs[k] == ValueAt(nodes, s[k]);
    }
    CountBelowUnique(vs, x, k);
  }

  /** Dropping a level: a node reached on level L is reached on level L - 1 too. */
  lemma Descend(nodes: seq<Node>, levels: seq<seq<nat>>, L: nat, x: int, curr: nat, k: nat) returns (k': nat)
    requires Nested(levels) && 1 <= L < |levels| && Sorted(nodes, levels[L - 1])
    requires Reached(nodes, levels[L], x, curr, k)
    ensures Reached(nodes, levels[L - 1], x, curr, k')
  {
    if k == 0 {
      k' := 0;
    } else {
      var s := levels[L - 1];
      assert levels[L][k - 1] in s;
      var p :| 0 <= p < |s| && s[p] == curr;
      k' := p + 1;
      forall i | 0 <= i < k' ensures ValueAt(nodes, s[i]) < x {
        if i < p {
          assert Precedes(nodes, s[i], s[p]);
        }
      }
    }
  }

  lemma {:induction false} DescendToGround(nodes: seq<Node>, levels: seq<seq<nat>>, L: nat, x: int, curr: nat, k: nat)
    returns (k0: nat)
    requires Nested(levels) && L < |levels|
    requires forall l :: 0 <= l < |levels| ==> Sorted(nodes, levels[l])
    requires Reached(nodes, levels[L], x, curr, k)
    ensures Reached(nodes, levels[0], x, curr, k0)
    decreases L
  {
    if L == 0 {
      k0 := k;
    } else {
      var k' := Descend(nodes, levels, L, x, curr, k);
      k0 := DescendToGround(nodes, levels, L - 1, x, curr, k');
    }
  }

  /** Every node of every level is on the bottom level. */
  lemma {:induction false} OnGround(levels: seq<seq<nat>>, L: nat, e: nat)
    requires Nested(levels) && L < |levels| && e in levels[L]
    ensures e in levels[0]
  {
    if L > 0 {
      var k :| 0 <= k < |levels[L]| && levels[L][k] == e;
      OnGround(levels, L - 1, e);
    }
  }

  /** Nothing that comes before the first node holding `x` holds `x`. */
  lemma BeforeFirst(nodes: seq<Node>, s0: seq<nat>, x: int, del: nat, p: nat, e: nat)
    requires Sorted(nodes, s0) && FirstWith(nodes, s0, x, del, p)
    requires e in s0 && Precedes(nodes, e, del)
    ensures ValueAt(nodes, e) < x
  {
    var r :| 0 <= r < |s0| && s0[r] == e;
    assert r != p;
    assert r < p;
  }

  /**
   * On each level, the drop node for `x` links to the first node holding `x`
   * exactly when that node is on the level; then it stands right before it.
   */
  lemma DropLinksFirst(nodes: seq<Node>, levels: seq<seq<nat>>, L: nat, x: int, del: nat, p: nat) returns (q: nat)
    requires Arena(nodes) && Nested(levels) && L < |levels|
    requires Sorted(nodes, levels[0]) && Sorted(nodes, levels[L]) && LinkedAs(nodes, L, levels[L])
    requires FirstWith(nodes, levels[0], x, del, p)
    ensures Next(nodes[DropNode(nodes, levels[L], x)], L) == Ptr(del) <==> del in levels[L]
    ensures del in levels[L] ==>
      q < |levels[L]| && levels[L][q] == del && DropNode(nodes, levels[L], x) == if q == 0 then 0 else levels[L][q - 1]
  {
    var s := levels[L];
    DropReached(nodes, s, x);
    var j := CountBelow(Values(nodes, s), x);
    NextOfReached(nodes, L, s, x, DropNode(nodes, s, x), j);
    q := 0;
    if del in s {
      q :| 0 <= q < |s| && s[q] == del;
      forall i | 0 <= i < q ensures ValueAt(nodes, s[i]) < x {
        assert Precedes(nodes, s[i], del);
        OnGround(levels, L, s[i]);
        BeforeFirst(nodes, levels[0], x, del, p, s[i]);
      }
      var curr := if q == 0 then 0 else s[q - 1];
      ReachedStop(nodes, s, x, curr, q);
    }
  }

  // ---------------------------------------------------------------------------
  // Relinking one level

  /** Linking `n` in after position `j - 1` (or after the head) yields the longer chain. */
  lemma SpliceLinked(nodes: seq<Node>, level: nat, s: seq<nat>, j: nat, n: nat, nodes': seq<Node>)
    requires Arena(nodes) && LinkedAs(nodes, level, s) && Distinct(s) && j <= |s|
    requires 1 <= n < |nodes| && n !in s && nodes[n].height > level
    requires nodes[0].height > level && (j > 0 ==> nodes[s[j - 1]].height > level)
    requires var d := if j == 0 then 0 else s[j - 1];
      nodes' == nodes[n := SetNext(nodes[n], level, Next(nodes[d], level))][d := SetNext(nodes[d], level, Ptr(n))]
    ensures Arena(nodes') && LinkedAs(nodes', level, s[..j] + [n] + s[j..])
  {
    var d := if j == 0 then 0 else s[j - 1];
    var t := s[..j] + [n] + s[j..];
    assert d != n;
    assert Arena(nodes');
    forall k | 0 <= k < |t|
      ensures 1 <= t[k] < |nodes'| && Next(nodes'[t[k]], level) == Succ(t, k)
    {
      SplicedSucc(nodes, level, s, j, n, nodes', k);
    }
    NextAfterSplice(nodes, level, n, d, nodes', 0);
    assert t[0] == if j == 0 then n else s[0];
  }

  /** One position of the spliced chain links to the next one. */
  lemma SplicedSucc(nodes: seq<Node>, level: nat, s: seq<nat>, j: nat, n: nat, nodes': seq<Node>, k: nat)
    requires Arena(nodes) && LinkedAs(nodes, level, s) && Distinct(s) && j <= |s|
    requires 1 <= n < |nodes| && n !in s && nodes[n].height > level
    requires nodes[0].height > level && (j > 0 ==> nodes[s[j - 1]].height > level)
    requires var d := if j == 0 then 0 else s[j - 1];
      nodes' == nodes[n := SetNext(nodes[n], level, Next(nodes[d], level))][d := SetNext(nodes[d], level, Ptr(n))]
    requires k <= |s|
    ensures var t := s[..j] + [n] + s[j..]; 1 <= t[k] < |nodes'| && Next(nodes'[t[k]], level) == Succ(t, k)
  {
    var d := if j == 0 then 0 else s[j - 1];
    var t := s[..j] + [n] + s[j..];
    NextAfterSplice(nodes, level, n, d, nodes', t[k]);
    if k < j {
      assert t[k] == s[k] && (k + 1 < j ==> t[k + 1] == s[k + 1]);
      if k + 1 < j {
        assert s[k] != d;
      }
    } else if k > j {
      assert t[k] == s[k - 1] && t[k] != d;
      assert k + 1 < |t| ==> t[k + 1] == s[k];
    }
  }

  /** The links at `level` after a splice of `n` behind `d`: only `d` and `n` read differently. */
  lemma NextAfterSplice(nodes: seq<Node>, level: nat, n: nat, d: nat, nodes': seq<Node>, id: nat)
    requires Arena(nodes) && n < |nodes| && d < |nodes| && d != n && id < |nodes|
    requires nodes[n].height > level && nodes[d].height > level
    requires nodes' == nodes[n := SetNext(nodes[n], level, Next(nodes[d], level))][d := SetNext(nodes[d], level, Ptr(n))]
    ensures Next(nodes'[id], level) == if id == d then Ptr(n) else if id == n then Next(nodes[d], level) else Next(nodes[id], level)
  {
  }

  /** Linking the predecessor of position `p` past it yields the chain without it. */
  lemma UnlinkLinked(nodes: seq<Node>, level: nat, s: seq<nat>, p: nat, nodes': seq<Node>)
    requires Arena(nodes) && LinkedAs(nodes, level, s) && Distinct(s) && p < |s|
    requires nodes[0].height > level && (p > 0 ==> nodes[s[p - 1]].height > level)
    requires var d := if p == 0 then 0 else s[p - 1];
      nodes' == nodes[d := SetNext(nodes[d], level, Next(nodes[s[p]], level))]
    ensures Arena(nodes') && LinkedAs(nodes', level, s[..p] + s[p + 1..])
  {
    var d := if p == 0 then 0 else s[p - 1];
    var t := s[..p] + s[p + 1..];
    assert Arena(nodes');
    forall k | 0 <= k < |t|
      ensures Next(nodes'[t[k]], level) == Succ(t, k)
    {
      UnlinkedSucc(nodes, level, s, p, nodes', k);
    }
    assert d != s[p];
    NextAfterSetNext(nodes[d], level, Next(nodes[s[p]], level), level);
    assert Next(nodes'[0], level) == if t == [] then Nil else Ptr(t[0]);
  }

  /** One position of the shortened chain links to the next one. */
  lemma UnlinkedSucc(nodes: seq<Node>, level: nat, s: seq<nat>, p: nat, nodes': seq<Node>, k: nat)
    requires Arena(nodes) && LinkedAs(nodes, level, s) && Distinct(s) && p < |s|
    requires nodes[0].height > level && (p > 0 ==> nodes[s[p - 1]].height > level)
    requires var d := if p == 0 then 0 else s[p - 1];
      nodes' == nodes[d := SetNext(nodes[d], level, Next(nodes[s[p]], level))]
    requires k + 1 < |s|
    ensures var t := s[..p] + s[p + 1..]; Next(nodes'[t[k]], level) == Succ(t, k)
  {
    var d := if p == 0 then 0 else s[p - 1];
    var t := s[..p] + s[p + 1..];
    if k + 1 < p {
      assert t[k] == s[k] && t[k + 1] == s[k + 1] && t[k] != d;
    } else if k + 1 == p {
      assert t[k] == d;
      assert k + 1 < |t| ==> t[k + 1] == s[k + 2];
    } else {
      assert t[k] == s[k + 1] && t[k] != d;
      assert k + 1 < |t| ==> t[k + 1] == s[k + 2];
    }
  }

  /** The new node goes after everything below `x` and before everything else. */
  lemma SortedSplice(nodes: seq<Node>, s: seq<nat>, x: int, n: nat)
    requires Sorted(nodes, s) && ValueAt(nodes, n) == x
    requires forall k :: 0 <= k < |s| ==> s[k] < n
    ensures Sorted(nodes, SpliceAt(nodes, s, x, n))
  {
    var vs := Values(nodes, s);
    var j := CountBelow(vs, x);
    var t := SpliceAt(nodes, s, x, n);
    SortedValues(nodes, s);
    assert forall k :: 0 <= k < j ==> t[k] == s[k];
    assert t[j] == n;
    assert forall k :: j < k < |t| ==> t[k] == s[k - 1];
    forall a, b | 0 <= a < b < |t| ensures Precedes(nodes, t[a], t[b]) {
      if a == j {
        assert vs[j] <= vs[b - 1] && vs[b - 1] == ValueAt(nodes, s[b - 1]);
      } else if b == j {
        assert vs[a] == ValueAt(nodes, s[a]);
      } else if b < j {
        assert Precedes(nodes, s[a], s[b]);
      } else if a < j {
        assert Precedes(nodes, s[a], s[b - 1]);
      } else {
        assert Precedes(nodes, s[a - 1], s[b - 1]);
      }
    }
  }

  lemma SortedRemoved(nodes: seq<Node>, s: seq<nat>, p: nat)
    requires Sorted(nodes, s) && p < |s|
    ensures Sorted(nodes, s[..p] + s[p + 1..])
  {
    var t := s[..p] + s[p + 1..];
    assert forall k :: 0 <= k < p ==> t[k] == s[k];
    assert forall k :: p <= k < |t| ==> t[k] == s[k + 1];
  }

  /** Where SpliceAt puts what. */
  lemma InSpliceAt(nodes: seq<Node>, s: seq<nat>, x: int, n: nat, e: nat)
    ensures e in SpliceAt(nodes, s, x, n) <==> e in s || e == n
  {
    var j := CountBelow(Values(nodes, s), x);
    assert s == s[..j] + s[j..];
  }

  /** The spliced level holds `n` directly after the drop node (after the head when that is the drop node). */
  lemma SpliceFollowsDrop(nodes: seq<Node>, s: seq<nat>, x: int, n: nat) returns (j: nat)
    ensures var t := SpliceAt(nodes, s, x, n);
      j < |t| && t[j] == n && t[..j] == s[..j] && t[j + 1..] == s[j..] &&
      DropNode(nodes, s, x) == if j == 0 then 0 else t[j - 1]
  {
    j := CountBelow(Values(nodes, s), x);
    var t := SpliceAt(nodes, s, x, n);
    assert t[..j] == s[..j];
    assert t[j + 1..] == s[j..];
  }

  // ---------------------------------------------------------------------------
  // Frames

  /** A level survives any step that keeps it. */
  lemma LaneKept(nodes: seq<Node>, nodes': seq<Node>, level: nat, s: seq<nat>)
    requires Arena(nodes) && Arena(nodes') && Keeps(nodes, nodes', level) && Lane(nodes, level, s)
    ensures Lane(nodes', level, s)
  {
    ValuesKept(nodes, nodes', s);
  }

  /** Writing a link at one level keeps every other level. */
  lemma SetNextKeeps(nodes: seq<Node>, id: nat, level: nat, r: Ref, L: nat)
    requires Arena(nodes) && id < |nodes| && L != level
    ensures Arena(nodes[id := SetNext(nodes[id], level, r)])
    ensures Keeps(nodes, nodes[id := SetNext(nodes[id], level, r)], L)
    ensures SameTowers(nodes, nodes[id := SetNext(nodes[id], level, r)])
  {
    var nodes' := nodes[id := SetNext(nodes[id], level, r)];
    forall k | 0 <= k < |nodes| ensures Next(nodes'[k], L) == Next(nodes[k], L) {
      if k == id {
        NextAfterSetNext(nodes[id], level, r, L);
      }
    }
  }

  /** A new node at the end of the arena changes no level. */
  lemma ShapeAppend(nodes: seq<Node>, levels: seq<seq<nat>>, maxHeight: int, m: Node)
    requires Shape(nodes, levels, maxHeight) && WellFormed(m) && m.value.Some?
    ensures Shape(nodes + [m], levels, maxHeight)
    ensures SameTowers(nodes, (nodes + [m])[..|nodes|])
  {
    var nodes' := nodes + [m];
    assert nodes'[..|nodes|] == nodes;
    forall L: nat | L < |levels| ensures Lane(nodes', L, levels[L]) {
      var s := levels[L];
      assert Lane(nodes, L, s);
      ValuesKept(nodes, nodes', s);
    }
  }

  /** Growing the head opens an empty level on top. */
  lemma ShapeGrowHead(nodes: seq<Node>, levels: seq<seq<nat>>, maxHeight: int)
    requires Shape(nodes, levels, maxHeight)
    ensures Shape(nodes[0 := Grow(nodes[0])], levels + [[]], maxHeight + 1)
  {
    var nodes' := nodes[0 := Grow(nodes[0])];
    var levels' := levels + [[]];
    assert Arena(nodes');
    forall L: nat | L < |levels'| ensures Lane(nodes', L, levels'[L]) {
      if L < |levels| {
        forall id | 0 <= id < |nodes| ensures Next(nodes'[id], L) == Next(nodes[id], L) {
          NextAfterGrow(nodes[id], L);
        }
        LaneKept(nodes, nodes', L, levels[L]);
      }
    }
  }

  /** Trimming the head and the top remaining level to `height` cuts the list down to `height` levels. */
  lemma ShapeTrimmed(nodes: seq<Node>, nodes': seq<Node>, levels: seq<seq<nat>>, maxHeight: int, height: int)
    requires Shape(nodes, levels, maxHeight) && 1 <= height < maxHeight
    requires TrimmedOnTop(nodes, nodes', levels[height - 1], height)
    ensures Shape(nodes', levels[..height], height)
  {
    forall id | 0 <= id < |nodes| ensures WellFormed(nodes'[id]) && nodes'[id].value == nodes[id].value {
    }
    forall L: nat | L < height ensures Lane(nodes', L, levels[L]) {
      forall id | 0 <= id < |nodes|
        ensures (nodes[id].height > L ==> nodes'[id].height > L) && Next(nodes'[id], L) == Next(nodes[id], L)
      {
      }
      LaneKept(nodes, nodes', L, levels[L]);
    }
    var levels' := levels[..height];
    forall L, k | 1 <= L < |levels'| && 0 <= k < |levels'[L]| ensures levels'[L][k] in levels'[L - 1] {
      assert levels[L][k] in levels[L - 1];
    }
  }

  /** Adding `n` to the bottom `c` levels keeps every level inside the one below. */
  lemma NestedSpliced(nodes: seq<Node>, levels: seq<seq<nat>>, levels': seq<seq<nat>>, x: int, n: nat, c: nat)
    requires Nested(levels) && |levels'| == |levels|
    requires forall L :: 0 <= L < |levels| ==> levels'[L] == if L < c then SpliceAt(nodes, levels[L], x, n) else levels[L]
    ensures Nested(levels')
  {
    forall L | 1 <= L < |levels'| ensures Inside(levels'[L], levels'[L - 1]) {
      NestedSplicedLevel(nodes, levels, levels', x, n, c, L);
    }
    NestedOfInside(levels');
  }

  /** Every node of `upper` is on `lower`. */
  ghost predicate Inside(upper: seq<nat>, lower: seq<nat>) {
    forall i :: 0 <= i < |upper| ==> upper[i] in lower
  }

  /** Levels each inside the one below are nested. */
  lemma NestedOfInside(levels: seq<seq<nat>>)
    requires forall L :: 1 <= L < |levels| ==> Inside(levels[L], levels[L - 1])
    ensures Nested(levels)
  {
    forall L, M, k | 1 <= L < |levels| && M == L - 1 && 0 <= k < |levels[L]| ensures levels[L][k] in levels[M] {
      assert Inside(levels[L], levels[L - 1]);
    }
  }

  /** NestedSpliced, for one level and the one below it. */
  lemma NestedSplicedLevel(nodes: seq<Node>, levels: seq<seq<nat>>, levels': seq<seq<nat>>, x: int, n: nat, c: nat, L: nat)
    requires Nested(levels) && |levels'| == |levels| && 1 <= L < |levels|
    requires forall L :: 0 <= L < |levels| ==> levels'[L] == if L < c then SpliceAt(nodes, levels[L], x, n) else levels[L]
    ensures Inside(levels'[L], levels'[L - 1])
  {
    var upper, lower := levels'[L], levels'[L - 1];
    if L < c {
      assert upper == SpliceAt(nodes, levels[L], x, n) && lower == SpliceAt(nodes, levels[L - 1], x, n);
    } else if L - 1 < c {
      assert upper == levels[L] && lower == SpliceAt(nodes, levels[L - 1], x, n);
    } else {
      assert upper == levels[L] && lower == levels[L - 1];
    }
    NestedPair(levels, L);
    forall k | 0 <= k < |upper| ensures upper[k] in lower {
      NestedSplicedAt(nodes, levels[L], levels[L - 1], upper, lower, x, n, upper[k]);
    }
  }

  /** Nested, for one level and the one below it. */
  lemma NestedPair(levels: seq<seq<nat>>, L: nat)
    requires Nested(levels) && 1 <= L < |levels|
    ensures forall i :: 0 <= i < |levels[L]| ==> levels[L][i] in levels[L - 1]
  {
    forall i | 0 <= i < |levels[L]| ensures levels[L][i] in levels[L - 1] {
      assert levels[L][i] in levels[L - 1];
    }
  }

  /** One pair of neighbouring levels: with both spliced, only the lower one, or neither, the upper stays inside the lower. */
  lemma NestedSplicedAt(nodes: seq<Node>, upper: seq<nat>, lower: seq<nat>, upper': seq<nat>, lower': seq<nat>,
                        x: int, n: nat, e: nat)
    requires forall i :: 0 <= i < |upper| ==> upper[i] in lower
    requires (upper' == SpliceAt(nodes, upper, x, n) && lower' == SpliceAt(nodes, lower, x, n)) ||
             (upper' == upper && (lower' == lower || lower' == SpliceAt(nodes, lower, x, n)))
    requires e in upper'
    ensures e in lower'
  {
    InSpliceAt(nodes, upper, x, n, e);
    InSpliceAt(nodes, lower, x, n, e);
    if e in upper {
      var i :| 0 <= i < |upper| && upper[i] == e;
    }
  }

  /** Dropping one node from every level keeps every level inside the one below. */
  lemma NestedWithout(levels: seq<seq<nat>>, levels': seq<seq<nat>>, del: nat)
    requires Nested(levels) && |levels'| == |levels|
    requires forall L :: 0 <= L < |levels| ==> levels'[L] == Without(levels[L], del)
    ensures Nested(levels')
  {
    forall L, k | 1 <= L < |levels'| && 0 <= k < |levels'[L]| ensures levels'[L][k] in levels'[L - 1] {
      var e := levels'[L][k];
      assert e in levels[L];
      var i :| 0 <= i < |levels[L]| && levels[L][i] == e;
    }
  }

  /** `s` is the chain that level-`level` links spell out from `start`. */
  ghost predicate ChainFrom(nodes: seq<Node>, level: int, start: Ref, s: seq<nat>)
    requires Arena(nodes)
  {
    start == (if s == [] then Nil else Ptr(s[0])) &&
    (forall k :: 0 <= k < |s| ==> s[k] < |nodes|) &&
    (forall k {:trigger nodes[s[k]]} :: 0 <= k < |s| ==> Next(nodes[s[k]], level) == Succ(s, k))
  }

  /** The arena after the first `i` nodes of `t` have each grown one level on a heads coin. */
  ghost function GrownAlong(nodes: seq<Node>, t: seq<nat>, coins: seq<bool>, i: nat): (r: seq<Node>)
    requires Arena(nodes) && i <= |t| && forall k :: 0 <= k < |t| ==> t[k] < |nodes|
    ensures Arena(r) && |r| == |nodes|
    ensures forall id :: 0 <= id < |nodes| ==> r[id].value == nodes[id].value
    ensures forall id, l :: 0 <= id < |nodes| ==> Next(r[id], l) == Next(nodes[id], l)
    decreases i
  {
    if i == 0 then nodes
    else
      var p := GrownAlong(nodes, t, coins, i - 1);
      p[t[i - 1] := MaybeGrow(p[t[i - 1]], i - 1 < |coins| && coins[i - 1])]
  }

  /** With no repeats in `t`, each node of `t` grows on its own coin and nothing else changes. */
  lemma {:induction false} GrownAlongAt(nodes: seq<Node>, t: seq<nat>, coins: seq<bool>, i: nat)
    requires Arena(nodes) && i <= |t| && (forall k :: 0 <= k < |t| ==> t[k] < |nodes|) && Distinct(t)
    ensures forall k :: 0 <= k < i ==> GrownAlong(nodes, t, coins, i)[t[k]] == MaybeGrow(nodes[t[k]], k < |coins| && coins[k])
    ensures forall id :: 0 <= id < |nodes| && id !in t[..i] ==> GrownAlong(nodes, t, coins, i)[id] == nodes[id]
  {
    if i > 0 {
      GrownAlongAt(nodes, t, coins, i - 1);
      assert t[..i] == t[..i - 1] + [t[i - 1]];
      assert t[i - 1] !in t[..i - 1];
    }
  }

  /** Walking a level from the head: the k-th node visited (the head first) links to the next one. */
  lemma WalkFromHead(nodes: seq<Node>, level: nat, s: seq<nat>, k: nat)
    requires Arena(nodes) && LinkedAs(nodes, level, s) && k <= |s|
    ensures ([0] + s)[k] < |nodes|
    ensures Next(nodes[([0] + s)[k]], level) == if k < |s| then Ptr(s[k]) else Nil
  {
    if k > 0 {
      assert ([0] + s)[k] == s[k - 1];
      assert Next(nodes[s[k - 1]], level) == Succ(s, k - 1);
    }
  }

  // ---------------------------------------------------------------------------
  // One level of an insertion or a deletion

  lemma KeepsTrans(a: seq<Node>, b: seq<Node>, c: seq<Node>, level: nat)
    requires Arena(a) && Arena(b) && Arena(c) && Keeps(a, b, level) && Keeps(b, c, level)
    ensures Keeps(a, c, level)
  {
  }

  /**
   * Linking `n` in after the drop node for `x`: the level becomes SpliceAt, and
   * nothing else changes but links at this level.
   */
  lemma LinkInLevel(nodes: seq<Node>, level: nat, s: seq<nat>, x: int, n: nat, nodes': seq<Node>)
    requires Arena(nodes) && Lane(nodes, level, s) && nodes[0].height > level
    requires 1 <= n < |nodes| && nodes[n].height > level && ValueAt(nodes, n) == x
    requires forall k :: 0 <= k < |s| ==> s[k] < n
    requires var d := DropNode(nodes, s, x);
      nodes' == nodes[n := SetNext(nodes[n], level, Next(nodes[d], level))][d := SetNext(nodes[d], level, Ptr(n))]
    ensures Arena(nodes') && SameTowers(nodes, nodes')
    ensures Lane(nodes', level, SpliceAt(nodes, s, x, n))
    ensures forall L: nat :: L != level ==> Keeps(nodes, nodes', L)
  {
    var d := DropNode(nodes, s, x);
    var j := CountBelow(Values(nodes, s), x);
    var t := SpliceAt(nodes, s, x, n);
    assert Arena(nodes') && LinkedAs(nodes', level, t) by {
      SortedDistinct(nodes, s);
      SpliceLinked(nodes, level, s, j, n, nodes');
    }
    LinkKeeps(nodes, level, n, d, nodes');
    SpliceSortedTall(nodes, level, s, x, n, nodes');
  }

  /** The spliced level is in order and every node on it is tall enough. */
  lemma SpliceSortedTall(nodes: seq<Node>, level: nat, s: seq<nat>, x: int, n: nat, nodes': seq<Node>)
    requires Arena(nodes) && Arena(nodes') && SameTowers(nodes, nodes') && Lane(nodes, level, s)
    requires n < |nodes| && nodes[n].height > level && ValueAt(nodes, n) == x
    requires forall k :: 0 <= k < |s| ==> s[k] < n
    ensures Sorted(nodes', SpliceAt(nodes, s, x, n))
    ensures forall k :: 0 <= k < |SpliceAt(nodes, s, x, n)| ==> nodes'[SpliceAt(nodes, s, x, n)[k]].height > level
  {
    var t := SpliceAt(nodes, s, x, n);
    forall k | 0 <= k < |t| ensures t[k] < |nodes| && nodes'[t[k]].height > level {
      InSpliceAt(nodes, s, x, n, t[k]);
    }
    SortedSplice(nodes, s, x, n);
    ValuesKept(nodes, nodes', t);
  }

  /** The two link writes of a splice leave every other level alone. */
  lemma LinkKeeps(nodes: seq<Node>, level: nat, n: nat, d: nat, nodes': seq<Node>)
    requires Arena(nodes) && n < |nodes| && d < |nodes|
    requires nodes' == nodes[n := SetNext(nodes[n], level, Next(nodes[d], level))][d := SetNext(nodes[d], level, Ptr(n))]
    ensures Arena(nodes') && forall L: nat :: L != level ==> Keeps(nodes, nodes', L)
  {
    var nodes1 := nodes[n := SetNext(nodes[n], level, Next(nodes[d], level))];
    forall L: nat | L != level ensures Keeps(nodes, nodes', L) {
      SetNextKeeps(nodes, n, level, Next(nodes[d], level), L);
      SetNextKeeps(nodes1, d, level, Ptr(n), L);
      KeepsTrans(nodes, nodes1, nodes', L);
    }
  }

  /** Linking the predecessor of position `q` past it: the level loses that node, nothing else changes. */
  lemma UnlinkFromLevel(nodes: seq<Node>, level: nat, s: seq<nat>, q: nat, nodes': seq<Node>)
    requires Arena(nodes) && Lane(nodes, level, s) && nodes[0].height > level && q < |s|
    requires var d := if q == 0 then 0 else s[q - 1];
      nodes' == nodes[d := SetNext(nodes[d], level, Next(nodes[s[q]], level))]
    ensures Arena(nodes') && SameTowers(nodes, nodes')
    ensures Lane(nodes', level, s[..q] + s[q + 1..])
    ensures forall L: nat :: L != level ==> Keeps(nodes, nodes', L)
  {
    var d := if q == 0 then 0 else s[q - 1];
    assert Arena(nodes') && LinkedAs(nodes', level, s[..q] + s[q + 1..]) by {
      SortedDistinct(nodes, s);
      UnlinkLinked(nodes, level, s, q, nodes');
    }
    forall L: nat | L != level ensures Keeps(nodes, nodes', L) {
      SetNextKeeps(nodes, d, level, Next(nodes[s[q]], level), L);
    }
    RemovedSortedTall(nodes, level, s, q, nodes', s[..q] + s[q + 1..]);
  }

  /** The shortened level is in order and every node on it is tall enough. */
  lemma RemovedSortedTall(nodes: seq<Node>, level: nat, s: seq<nat>, q: nat, nodes': seq<Node>, t: seq<nat>)
    requires Arena(nodes) && Arena(nodes') && SameTowers(nodes, nodes') && Lane(nodes, level, s) && q < |s|
    requires t == s[..q] + s[q + 1..]
    ensures Sorted(nodes', t)
    ensures forall k :: 0 <= k < |t| ==> nodes'[t[k]].height > level
  {
    forall k | 0 <= k < |t| ensures t[k] < |nodes| && nodes'[t[k]].height > level {
      if k < q {
        assert t[k] == s[k];
      } else {
        assert t[k] == s[k + 1];
      }
    }
    SortedRemoved(nodes, s, q);
    ValuesKept(nodes, nodes', t);
  }

  /** The values along a spliced level: the insertion of `x` into the sorted values. */
  lemma ValuesSplice(nodes: seq<Node>, s: seq<nat>, x: int, n: nat)
    requires ValueAt(nodes, n) == x
    ensures Values(nodes, SpliceAt(nodes, s, x, n)) == InsertSorted(Values(nodes, s), x)
  {
    var vs := Values(nodes, s);
    var j := CountBelow(vs, x);
    InsertSortedAt(vs, x);
    var t := SpliceAt(nodes, s, x, n);
    var r := vs[..j] + [x] + vs[j..];
    forall k | 0 <= k < |t| ensures Values(nodes, t)[k] == r[k] {
      if k < j {
        assert t[k] == s[k];
      } else if k > j {
        assert t[k] == s[k - 1];
      }
    }
    assert Values(nodes, t) == r;
  }

  /** The values along a level without its first node holding `x`: the first `x` removed. */
  lemma ValuesRemoved(nodes: seq<Node>, s0: seq<nat>, x: int, del: nat, p: nat)
    requires FirstWith(nodes, s0, x, del, p)
    ensures Values(nodes, s0[..p] + s0[p + 1..]) == RemoveFirst(Values(nodes, s0), x)
  {
    var vs := Values(nodes, s0);
    forall i | 0 <= i < p ensures vs[i] != x {
      assert vs[i] == ValueAt(nodes, s0[i]);
    }
    RemoveFirstAt(vs, x, p);
    ValuesConcat(nodes, s0[..p], s0[p + 1..]);
    assert Values(nodes, s0[..p]) == vs[..p];
    assert Values(nodes, s0[p + 1..]) == vs[p + 1..];
  }
}
