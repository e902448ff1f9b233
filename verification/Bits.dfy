/** Bitwise AND on naturals, and what masking with an alignment computes. */
module Bits {

  function Pow2(n: nat): (p: nat)
    ensures p >= 1
  {
    if n == 0 then 1 else 2 * Pow2(n - 1)
  }

  function BitAnd(x: nat, y: nat): (r: nat)
    ensures r <= x && r <= y
  {
    if x == 0 || y == 0 then 0 else (if x % 2 == 1 && y % 2 == 1 then 1 else 0) + 2 * BitAnd(x / 2, y / 2)
  }

  lemma {:induction false} Pow2Add(a: nat, b: nat)
    ensures Pow2(a + b) == Pow2(a) * Pow2(b)
  {
    if a > 0 { Pow2Add(a - 1, b); }
  }

  lemma Pow2Values()
    ensures Pow2(8) == 0x100 && Pow2(10) == 0x400 && Pow2(12) == 0x1000
    ensures Pow2(64) == 0x1_0000_0000_0000_0000
  {
    assert Pow2(4) == 16;
    Pow2Add(4, 4);
    Pow2Add(2, 8);
    Pow2Add(4, 8);
    Pow2Add(8, 8);
    Pow2Add(16, 16);
    Pow2Add(32, 32);
  }

  lemma {:induction false} Pow2Monotone(a: nat, b: nat)
    requires a <= b
    ensures Pow2(a) <= Pow2(b)
  {
    if a < b { Pow2Monotone(a, b - 1); }
  }

  lemma MultipleInsideModulus(m: nat, d: int)
    requires 0 - m < m * d < m
    ensures d == 0
  {
  }

  lemma QuotientUnique(x: int, m: nat, q: int, r: nat)
    requires 0 <= r < m && x == m * q + r
    ensures x / m == q && x % m == r
  {
    var d := q - x / m;
    assert x == m * (x / m) + x % m;
    assert m * d == m * q - m * (x / m);
    MultipleInsideModulus(m, d);
  }

  /** x modulo m, kept folded where the division itself is not the point. */
  function Rest(x: nat, m: nat): nat
    requires m >= 1
  {
    x % m
  }

  lemma HalveRest(x: nat, m: nat)
    requires m >= 1
    ensures Rest(x, 2 * m) == 2 * Rest(x / 2, m) + x % 2
  {
    var h := x / 2;
    assert h == m * (h / m) + h % m;
    assert x == (2 * m) * (h / m) + (2 * (h % m) + x % 2);
    QuotientUnique(x, 2 * m, h / m, 2 * (h % m) + x % 2);
  }

  lemma {:induction false} AndAllOnes(x: nat, w: nat)
    requires x < Pow2(w)
    ensures BitAnd(x, Pow2(w) - 1) == x
  {
    if w > 0 && x > 0 {
      assert (Pow2(w) - 1) / 2 == Pow2(w - 1) - 1 && (Pow2(w) - 1) % 2 == 1;
      AndAllOnes(x / 2, w - 1);
    }
  }

  lemma BitAndEven(x: nat, m: nat)
    ensures BitAnd(x, 2 * m) == 2 * BitAnd(x / 2, m)
  {
    assert 2 * m / 2 == m && 2 * m % 2 == 0;
  }

  lemma Pow2Half(w: nat)
    requires w > 0
    ensures Pow2(w) == 2 * Pow2(w - 1)
  {
  }

  lemma HalfBelow(x: nat, w: nat)
    requires w > 0 && x < Pow2(w)
    ensures x / 2 < Pow2(w - 1)
  {
  }

  /** Masking a w-bit number with the complement of 2^k - 1 rounds it down to a multiple of 2^k. */
  lemma {:induction false} MaskRoundsDown(x: nat, k: nat, w: nat)
    requires k <= w && x < Pow2(w)
    ensures Pow2(k) <= Pow2(w)
    ensures BitAnd(x, Pow2(w) - Pow2(k)) == x - Rest(x, Pow2(k))
    decreases k
  {
    hide BitAnd, Rest, Pow2;
    Pow2Monotone(k, w);
    if k == 0 {
      RestOfOne(x);
      AndAllOnes(x, w);
    } else {
      HalfBelow(x, w);
      MaskRoundsDown(x / 2, k - 1, w - 1);
      MaskDouble(x, k, w);
    }
  }

  lemma RestOfOne(x: nat)
    ensures Pow2(0) == 1 && Rest(x, 1) == 0
  {
  }

  lemma MaskDouble(x: nat, k: nat, w: nat)
    requires 0 < k && 0 < w && Pow2(k - 1) <= Pow2(w - 1)
    requires BitAnd(x / 2, Pow2(w - 1) - Pow2(k - 1)) == x / 2 - Rest(x / 2, Pow2(k - 1))
    ensures Pow2(k) <= Pow2(w) && BitAnd(x, Pow2(w) - Pow2(k)) == x - Rest(x, Pow2(k))
  {
    Pow2Half(w);
    Pow2Half(k);
    hide Pow2, BitAnd, Rest;
    MaskStep(x, Pow2(w - 1), Pow2(k - 1));
  }

  lemma MaskStep(x: nat, size: nat, a: nat)
    requires 1 <= a <= size && BitAnd(x / 2, size - a) == x / 2 - Rest(x / 2, a)
    ensures BitAnd(x, 2 * size - 2 * a) == x - Rest(x, 2 * a)
  {
    hide *;
    BitAndEven(x, size - a);
    HalveRest(x, a);
    assert 2 * (size - a) == 2 * size - 2 * a;
  }

  /** The same, with the word size and the alignment named by their values. */
  lemma MaskRoundsDownTo(x: nat, k: nat, w: nat, alignment: nat, size: nat)
    requires alignment == Pow2(k) && size == Pow2(w)
    requires k <= w && x < size
    ensures 0 < alignment <= size && BitAnd(x, size - alignment) == x - Rest(x, alignment)
  {
    MaskRoundsDown(x, k, w);
  }

  lemma MultipleUnique(m: nat, p: nat, t: nat, from: nat)
    requires m > 0 && p % m == 0 && t % m == 0
    requires from <= p < from + m && from <= t < from + m
    ensures p == t
  {
    var d := p / m - t / m;
    assert p == m * (p / m) && t == m * (t / m);
    assert m * d == p - t;
    MultipleInsideModulus(m, d);
  }
}
