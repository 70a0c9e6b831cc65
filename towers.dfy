/**
 * A node of the skip list: one element (or the sentinel head) and its tower of
 * forward links, one per level.  The list keeps its nodes in an arena and names
 * them by index, so a link is either `Nil` (the Java null) or `Ptr(id)`.
 */
module Towers {

  datatype Option<T> = None | Some(value: T)

  /** A forward reference: null, or the arena index of a node. */
  datatype Ref = Nil | Ptr(id: nat)

  /**
   * `value` is None only for the sentinel head.  `height` is the Java field of the
   * same name and `next` the ArrayList of forward links; the two are kept equal in
   * length by every operation (WellFormed).
   */
  datatype Node = Node(value: Option<int>, height: int, next: seq<Ref>)

  /** The length of the link list equals the height field. */
  predicate WellFormed(n: Node) {
    n.height == |n.next|
  }

  /** Both Java constructors: `height` null slots, and the given value (None for the head). */
  method NewNode(value: Option<int>, height: int) returns (n: Node)
    requires height >= 0
    ensures WellFormed(n) && n.value == value && n.height == height
    ensures forall l :: 0 <= l < height ==> n.next[l] == Nil
  {
    var next: seq<Ref> := [];
    var i := 0;
    while i < height
      invariant 0 <= i <= height
      invariant |next| == i
      invariant forall l :: 0 <= l < i ==> next[l] == Nil
    {
      next := next + [Nil];
      i := i + 1;
    }
    n := Node(value, height, next);
  }

  /** The forward reference at `level`; null outside [0, height). */
  function Next(n: Node, level: int): (r: Ref)
    requires WellFormed(n)
    ensures 0 <= level < n.height ==> r == n.next[level]
    ensures !(0 <= level < n.height) ==> r == Nil
  {
    if 0 <= level < n.height then n.next[level] else Nil
  }

  /** Overwrites the forward reference at `level`; outside [0, height) nothing changes. */
  function SetNext(n: Node, level: int, r: Ref): (m: Node)
    requires WellFormed(n)
    ensures WellFormed(m) && m.value == n.value && m.height == n.height
    ensures 0 <= level < n.height ==> m.next == n.next[level := r]
    ensures !(0 <= level < n.height) ==> m == n
  {
    if 0 <= level < n.height then n.(next := n.next[level := r]) else n
  }

  /** Pushes one null slot on top of the tower. */
  function Grow(n: Node): (m: Node)
    requires WellFormed(n)
    ensures WellFormed(m) && m.value == n.value && m.height == n.height + 1
    ensures m.next[..n.height] == n.next && m.next[n.height] == Nil
  {
    n.(height := n.height + 1, next := n.next + [Nil])
  }

  /** Grows the tower when the coin shows heads; no link anyone can read changes. */
  function MaybeGrow(n: Node, heads: bool): (m: Node)
    requires WellFormed(n)
    ensures WellFormed(m) && m.value == n.value
    ensures m.height == if heads then n.height + 1 else n.height
    ensures forall l :: Next(m, l) == Next(n, l)
  {
    if heads then Grow(n) else n
  }

  /** `m` is `n` with its tower cut down to `height` levels, or `n` itself when `height` is out of range. */
  predicate TrimmedFrom(m: Node, n: Node, height: int)
    requires WellFormed(n)
  {
    if 0 <= height < n.height then m == n.(height := height, next := n.next[..height]) else m == n
  }

  /** Pops slots off the top of the tower, one at a time, until `height` remain. */
  method Trim(n: Node, height: int) returns (m: Node)
    requires WellFormed(n)
    ensures WellFormed(m) && TrimmedFrom(m, n, height)
    ensures forall l :: l < height ==> Next(m, l) == Next(n, l)
  {
    m := n;
    if height < n.height && height >= 0 {
      var next := n.next;
      var i := n.height - 1;
      while i >= height
        invariant height - 1 <= i < n.height
        invariant next == n.next[..i + 1]
      {
        next := next[..i];
        i := i - 1;
      }
      m := n.(height := height, next := next);
    }
  }

  /** Outside the tower a read gives null and a write of any reference is a no-op. */
  lemma NextOutsideTower(n: Node, level: int, r: Ref)
    requires WellFormed(n) && !(0 <= level < n.height)
    ensures Next(n, level) == Nil && SetNext(n, level, r) == n
  {
  }

  /** Reading a link after writing one: only the written level changes. */
  lemma NextAfterSetNext(n: Node, level: int, r: Ref, l: int)
    requires WellFormed(n)
    ensures Next(SetNext(n, level, r), l) == if l == level && 0 <= level < n.height then r else Next(n, l)
  {
  }

  /** Growing adds a null slot, which reads the same as the missing slot did. */
  lemma NextAfterGrow(n: Node, l: int)
    requires WellFormed(n)
    ensures Next(Grow(n), l) == Next(n, l)
  {
  }

  /** Growing and then trimming back to the old height restores the tower. */
  lemma TrimUndoesGrow(n: Node, m: Node)
    requires WellFormed(n) && TrimmedFrom(m, Grow(n), n.height)
    ensures m == n
  {
    assert Grow(n).next[..n.height] == n.next;
  }
}
