/**
 * The height cap the list aims for: 1 for at most one element, otherwise the
 * ceiling of log2(size), computed on integers.
 */
module Heights {

  function Pow2(k: nat): (p: nat)
    ensures p >= 1
  {
    if k == 0 then 1 else 2 * Pow2(k - 1)
  }

  /** The least k with 2^k >= n. */
  function CeilLog2(n: nat): nat
    requires n >= 1
  {
    if n == 1 then 0 else 1 + CeilLog2((n + 1) / 2)
  }

  /** calculateSkipListHeight: 1 for size 0 or 1, else ceil(log2(size)). */
  function CalculateHeight(size: nat): (h: int)
    ensures h >= 1
  {
    if size <= 1 then 1 else CeilLog2(size)
  }

  lemma {:induction false} Pow2Monotone(a: nat, b: nat)
    requires a <= b
    ensures Pow2(a) <= Pow2(b)
  {
    if a < b {
      Pow2Monotone(a, b - 1);
    }
  }

  /** 2^CeilLog2(n) reaches n, and one power less does not. */
  lemma {:induction false} CeilLog2Bounds(n: nat)
    requires n >= 1
    ensures n <= Pow2(CeilLog2(n))
    ensures CeilLog2(n) > 0 ==> Pow2(CeilLog2(n) - 1) < n
  {
    if n > 1 {
      CeilLog2Bounds((n + 1) / 2);
    }
  }

  /** No smaller exponent reaches n. */
  lemma {:induction false} CeilLog2Least(n: nat, k: nat)
    requires n >= 1 && n <= Pow2(k)
    ensures CeilLog2(n) <= k
  {
    CeilLog2Bounds(n);
    if CeilLog2(n) > k {
      Pow2Monotone(k, CeilLog2(n) - 1);
    }
  }

  /** The height rule: 1 up to one element, else the least k with 2^k >= size. */
  lemma CalculateHeightIsLeastPower(size: nat, k: nat)
    requires size >= 2
    ensures size <= Pow2(CalculateHeight(size))
    ensures size <= Pow2(k) ==> CalculateHeight(size) <= k
  {
    CeilLog2Bounds(size);
    if size <= Pow2(k) {
      CeilLog2Least(size, k);
    }
  }

  lemma CalculateHeightMonotone(a: nat, b: nat)
    requires a <= b
    ensures CalculateHeight(a) <= CalculateHeight(b)
  {
    if a >= 2 {
      CeilLog2Bounds(b);
      CeilLog2Least(a, CeilLog2(b));
    }
  }

  /** One more element raises the cap by at most one level. */
  lemma CalculateHeightStep(n: nat)
    ensures CalculateHeight(n + 1) <= CalculateHeight(n) + 1
  {
    if n >= 1 {
      var k := CalculateHeight(n);
      if n >= 2 {
        CeilLog2Bounds(n);
      }
      assert n <= Pow2(k);
      assert n + 1 <= Pow2(k + 1);
      if n + 1 >= 2 {
        CeilLog2Least(n + 1, k + 1);
      }
    }
  }
}
