/** Bitwise operators on natural numbers, defined bit by bit, and the few laws
    about masks and disjoint fields that the wire format relies on. */
module Bits {

  function Pow2(k: nat): (p: nat)
    ensures p >= 1
  {
    if k == 0 then 1 else 2 * Pow2(k - 1)
  }

  /** The C operator `|` on unsigned values. */
  function Or(a: nat, b: nat): nat
    decreases a + b
  {
    if a == 0 && b == 0 then 0
    else 2 * Or(a / 2, b / 2) + (if a % 2 == 1 || b % 2 == 1 then 1 else 0)
  }

  /** The C operator `&` on unsigned values. */
  function And(a: nat, b: nat): nat
    decreases a + b
  {
    if a == 0 || b == 0 then 0
    else 2 * And(a / 2, b / 2) + (if a % 2 == 1 && b % 2 == 1 then 1 else 0)
  }

  lemma {:induction false} OrZero(a: nat)
    ensures Or(a, 0) == a
  {
    if a > 0 { OrZero(a / 2); }
  }

  /** Or-ing a field into bits that are still clear adds it. */
  lemma {:induction false} OrDisjoint(hi: nat, k: nat, lo: nat)
    requires lo < Pow2(k)
    ensures Or(hi * Pow2(k), lo) == hi * Pow2(k) + lo
  {
    if k == 0 {
      OrZero(hi);
    } else {
      OrDisjoint(hi, k - 1, lo / 2);
      HalfShift(hi, k);
    }
  }

  lemma HalfShift(hi: nat, k: nat)
    requires k > 0
    ensures hi * Pow2(k) == 2 * (hi * Pow2(k - 1))
  {
  }

  /** A low mask keeps the remainder. */
  lemma {:induction false} AndLowMask(x: nat, k: nat)
    ensures And(x, Pow2(k) - 1) == x % Pow2(k)
  {
    var mask := Pow2(k) - 1;
    if k == 0 {
      assert And(x, 0) == 0;
    } else if x == 0 {
      assert 0 % Pow2(k) == 0;
    } else {
      var m := Pow2(k - 1);
      AndLowMask(x / 2, k - 1);
      ModDouble(x, m);
      assert mask / 2 == m - 1 && mask % 2 == 1;
    }
  }

  lemma ModDouble(x: nat, m: nat)
    requires m >= 1
    ensures x % (2 * m) == 2 * ((x / 2) % m) + x % 2
  {
    var q, r := (x / 2) / m, (x / 2) % m;
    assert x / 2 == q * m + r;
    assert x == (2 * m) * q + (2 * r + x % 2) by {
      assert 2 * (q * m) == (2 * m) * q;
    }
    DivModUnique(x, 2 * m, q, 2 * r + x % 2);
  }

  lemma DivModUnique(x: int, d: nat, q: int, r: int)
    requires d > 0 && 0 <= r < d && x == d * q + r
    ensures x / d == q && x % d == r
  {
    var e := x / d - q;
    assert d * e == r - x % d;
    assert e >= 1 ==> d * e >= d;
    assert e <= -1 ==> d * e <= 0 - d;
  }

  /** A single-bit mask tests that bit. */
  lemma {:induction false} AndBit(x: nat, k: nat)
    ensures And(x, Pow2(k)) != 0 <==> (x / Pow2(k)) % 2 == 1
  {
    if x > 0 && k > 0 {
      AndBit(x / 2, k - 1);
      DivDouble(x, Pow2(k - 1));
    } else if k == 0 {
      if x > 0 { assert And(x / 2, 0) == 0; }
    }
  }

  lemma DivDouble(x: nat, m: nat)
    requires m >= 1
    ensures x / (2 * m) == (x / 2) / m
  {
    var q, r := (x / 2) / m, (x / 2) % m;
    assert x / 2 == q * m + r;
    assert x == (2 * m) * q + (2 * r + x % 2) by {
      assert 2 * (q * m) == (2 * m) * q;
    }
    DivModUnique(x, 2 * m, q, 2 * r + x % 2);
  }
}
