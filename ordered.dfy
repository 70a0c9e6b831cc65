/**
 * Reference definitions on plain sequences of element values: what the level-0
 * chain of the skip list should read after an insertion or a deletion.
 */
module Ordered {

  ghost predicate NonDecreasing(vs: seq<int>) {
    forall i, j :: 0 <= i < j < |vs| ==> vs[i] <= vs[j]
  }

  /** The length of the longest prefix of `vs` whose elements are all below `x`. */
  function CountBelow(vs: seq<int>, x: int): (j: nat)
    ensures j <= |vs|
    ensures forall i :: 0 <= i < j ==> vs[i] < x
    ensures j < |vs| ==> vs[j] >= x
  {
    if vs == [] || vs[0] >= x then 0 else 1 + CountBelow(vs[1..], x)
  }

  /** The prefix-below characterisation pins CountBelow down. */
  lemma {:induction false} CountBelowUnique(vs: seq<int>, x: int, j: nat)
    requires j <= |vs|
    requires forall i :: 0 <= i < j ==> vs[i] < x
    requires j < |vs| ==> vs[j] >= x
    ensures CountBelow(vs, x) == j
  {
    if j > 0 {
      CountBelowUnique(vs[1..], x, j - 1);
    }
  }

  /** In order, `x` occurs exactly when it stands right after the prefix below it. */
  lemma CountBelowLocates(vs: seq<int>, x: int)
    requires NonDecreasing(vs)
    ensures x in vs <==> CountBelow(vs, x) < |vs| && vs[CountBelow(vs, x)] == x
  {
    var j := CountBelow(vs, x);
    if x in vs {
      var i :| 0 <= i < |vs| && vs[i] == x;
      assert j <= i;
    }
  }

  /** `x` placed in front of the first element that is not below it. */
  function InsertSorted(vs: seq<int>, x: int): seq<int> {
    if vs == [] || x <= vs[0] then [x] + vs else [vs[0]] + InsertSorted(vs[1..], x)
  }

  /** `vs` without its first occurrence of `x`; `vs` itself when `x` does not occur. */
  function RemoveFirst(vs: seq<int>, x: int): seq<int> {
    if vs == [] then [] else if vs[0] == x then vs[1..] else [vs[0]] + RemoveFirst(vs[1..], x)
  }

  lemma {:induction false} InsertSortedAt(vs: seq<int>, x: int)
    ensures InsertSorted(vs, x) == vs[..CountBelow(vs, x)] + [x] + vs[CountBelow(vs, x)..]
  {
    if vs != [] && x > vs[0] {
      InsertSortedAt(vs[1..], x);
      assert vs[1..][..CountBelow(vs[1..], x)] == vs[1..CountBelow(vs, x)];
    }
  }

  lemma {:induction false} InsertSortedPermutes(vs: seq<int>, x: int)
    ensures multiset(InsertSorted(vs, x)) == multiset(vs) + multiset{x}
  {
    if vs != [] && x > vs[0] {
      InsertSortedPermutes(vs[1..], x);
      assert vs == [vs[0]] + vs[1..];
    }
  }

  lemma InsertSortedKeepsOrder(vs: seq<int>, x: int)
    requires NonDecreasing(vs)
    ensures NonDecreasing(InsertSorted(vs, x))
  {
    var j := CountBelow(vs, x);
    InsertSortedAt(vs, x);
    var r := InsertSorted(vs, x);
    forall a, b | 0 <= a < b < |r| ensures r[a] <= r[b] {
      if b == j {
        assert r[a] == vs[a];
      } else if a == j {
        assert r[b] == vs[b - 1];
      }
    }
  }

  /** Removing the first occurrence when it stands at position k. */
  lemma {:induction false} RemoveFirstAt(vs: seq<int>, x: int, k: nat)
    requires k < |vs| && vs[k] == x
    requires forall i :: 0 <= i < k ==> vs[i] != x
    ensures RemoveFirst(vs, x) == vs[..k] + vs[k + 1..]
  {
    if k > 0 {
      RemoveFirstAt(vs[1..], x, k - 1);
      assert vs[1..][..k - 1] == vs[1..k];
      assert vs[1..][k..] == vs[k + 1..];
    }
  }

  lemma {:induction false} RemoveFirstAbsent(vs: seq<int>, x: int)
    requires x !in vs
    ensures RemoveFirst(vs, x) == vs
  {
    if vs != [] {
      assert x !in vs[1..];
      RemoveFirstAbsent(vs[1..], x);
    }
  }

  lemma {:induction false} RemoveFirstPermutes(vs: seq<int>, x: int)
    requires x in vs
    ensures multiset(RemoveFirst(vs, x)) == multiset(vs) - multiset{x}
  {
    if vs[0] != x {
      RemoveFirstPermutes(vs[1..], x);
      assert vs == [vs[0]] + vs[1..];
    } else {
      assert vs == [vs[0]] + vs[1..];
    }
  }

  /** Deleting what was just inserted gives back the sorted input. */
  lemma InsertThenRemove(vs: seq<int>, x: int)
    requires NonDecreasing(vs)
    ensures RemoveFirst(InsertSorted(vs, x), x) == vs
  {
    var j := CountBelow(vs, x);
    InsertSortedAt(vs, x);
    var r := InsertSorted(vs, x);
    RemoveFirstAt(r, x, j);
    assert r[..j] == vs[..j];
    assert r[j + 1..] == vs[j..];
    assert vs == vs[..j] + vs[j..];
  }

  /** `s` with every occurrence of `e` dropped. */
  function Without(s: seq<nat>, e: nat): (r: seq<nat>)
    ensures |r| <= |s|
    ensures forall y :: y in r <==> y in s && y != e
  {
    if s == [] then [] else (if s[0] == e then [] else [s[0]]) + Without(s[1..], e)
  }

  lemma {:induction false} WithoutAt(s: seq<nat>, e: nat, p: nat)
    requires p < |s| && s[p] == e
    requires forall i :: 0 <= i < |s| && i != p ==> s[i] != e
    ensures Without(s, e) == s[..p] + s[p + 1..]
  {
    if p > 0 {
      WithoutAt(s[1..], e, p - 1);
      assert s[1..][..p - 1] == s[1..p];
      assert s[1..][p..] == s[p + 1..];
    } else {
      WithoutAbsent(s[1..], e);
    }
  }

  lemma {:induction false} WithoutAbsent(s: seq<nat>, e: nat)
    requires e !in s
    ensures Without(s, e) == s
  {
    if s != [] {
      assert e !in s[1..];
      WithoutAbsent(s[1..], e);
    }
  }
}
