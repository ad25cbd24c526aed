/** Bitwise operations on unbounded naturals, and the two facts the kernel's packed
    words, ring indices and LEB128 groups rest on: masking with 2^k - 1 is reduction
    modulo 2^k, and or-ing a small number into a word whose low k bits are zero is
    addition. */
module Bits {

  function Pow2(k: nat): (r: nat)
    ensures r >= 1
  {
    if k == 0 then 1 else 2 * Pow2(k - 1)
  }

  function BitOr(a: nat, b: nat): nat
    decreases a + b
  {
    if a == 0 && b == 0 then 0
    else 2 * BitOr(a / 2, b / 2) + (if a % 2 == 1 || b % 2 == 1 then 1 else 0)
  }

  function BitAnd(a: nat, b: nat): nat
    decreases a + b
  {
    if a == 0 && b == 0 then 0
    else 2 * BitAnd(a / 2, b / 2) + (if a % 2 == 1 && b % 2 == 1 then 1 else 0)
  }

  lemma {:induction false} Pow2Add(i: nat, j: nat)
    ensures Pow2(i + j) == Pow2(i) * Pow2(j)
  {
    if i > 0 {
      Pow2Add(i - 1, j);
      assert Pow2(i) * Pow2(j) == 2 * (Pow2(i - 1) * Pow2(j));
    }
  }

  lemma {:induction false} AndZero(x: nat)
    ensures BitAnd(x, 0) == 0 && BitAnd(0, x) == 0
  {
    if x > 0 { AndZero(x / 2); }
  }

  lemma {:induction false} OrZero(x: nat)
    ensures BitOr(x, 0) == x && BitOr(0, x) == x
  {
    if x > 0 { OrZero(x / 2); }
  }

  /** One halving step of a remainder by an even modulus. */
  lemma HalfMod(x: nat, m: nat)
    requires m > 0
    ensures x % (2 * m) == 2 * ((x / 2) % m) + x % 2
  {
    var q, r := (x / 2) / m, (x / 2) % m;
    assert x / 2 == m * q + r;
    assert x == 2 * (m * q + r) + x % 2;
    assert 2 * (m * q) == (2 * m) * q;
    assert x == (2 * m) * q + (2 * r + x % 2);
    ModUnique(x, 2 * m, q, 2 * r + x % 2);
  }

  lemma ModUnique(x: int, m: int, q: int, r: int)
    requires m > 0 && x == m * q + r && 0 <= r < m
    ensures x % m == r && x / m == q
  {
    var d, r' := x / m - q, x % m;
    assert m * (x / m) == m * (q + d) == m * q + m * d;
    assert m * d == r - r';
    if d != 0 { MulAtLeast(m, d); }
  }

  lemma {:induction false} MulAtLeast(m: int, d: int)
    requires m > 0 && d != 0
    ensures d > 0 ==> m * d >= m
    ensures d < 0 ==> m * d <= -m
    decreases if d > 0 then d else -d
  {
    if d > 1 {
      MulAtLeast(m, d - 1);
    } else if d < -1 {
      MulAtLeast(m, d + 1);
    }
  }

  lemma {:induction false} AndMask(x: nat, k: nat)
    ensures BitAnd(x, Pow2(k) - 1) == x % Pow2(k)
  {
    if k == 0 {
      AndZero(x);
    } else {
      var m := Pow2(k) - 1;
      assert m / 2 == Pow2(k - 1) - 1 && m % 2 == 1;
      AndMask(x / 2, k - 1);
      HalfMod(x, Pow2(k - 1));
    }
  }

  lemma {:induction false} OrShifted(a: nat, b: nat, k: nat)
    requires a < Pow2(k)
    ensures BitOr(a, b * Pow2(k)) == a + b * Pow2(k)
  {
    if k == 0 {
      OrZero(b);
    } else {
      var w := b * Pow2(k);
      assert w == 2 * (b * Pow2(k - 1));
      assert w / 2 == b * Pow2(k - 1) && w % 2 == 0;
      OrShifted(a / 2, b, k - 1);
    }
  }
}
