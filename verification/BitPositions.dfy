/** Numbers seen as rows of bits and bytes, and residues seen as signed or unsigned readings. */
module BitPositions {
  import opened Bits

  predicate Bit(w: nat, k: nat) { w / Pow2(k) % 2 == 1 }

  function ByteAt(w: nat, i: nat): nat { w / Pow2(8 * i) % 256 }

  predicate Congruent(a: int, b: int, m: int)
    requires m > 0
  {
    (a - b) % m == 0
  }

  /** `v` is the two's complement reading of `w` among the residues of `m`. */
  predicate Reads(w: int, m: int, v: int)
    requires m > 0
  {
    -m <= 2 * v < m && Congruent(v, w, m)
  }

  // ---- division by powers of two ----

  lemma DivDiv(w: nat, a: nat, b: nat)
    requires a > 0 && b > 0
    ensures a * b > 0 && w / (a * b) == w / a / b
  {
    var q, r, r' := w / a / b, w % a, w / a % b;
    MulPositive(a, b);
    assert w == a * (w / a) + r && w / a == b * q + r';
    assert w == (a * b) * q + (a * r' + r) by { assert a * (b * q + r') == (a * b) * q + a * r'; }
    assert a * r' + r < a * b by { MulUpTo(a, r', b - 1); assert a * (b - 1) == a * b - a; }
    ModUnique(w, a * b, q, a * r' + r);
  }

  lemma MulPositive(a: nat, b: nat)
    requires a > 0 && b > 0
    ensures a * b > 0
  {
  }

  lemma MulUpTo(a: nat, x: int, y: int)
    requires x <= y
    ensures a * x <= a * y
  {
    if a > 0 && x != y { MulAtLeast(a, y - x); assert a * (y - x) == a * y - a * x; }
  }

  lemma DivPow2(w: nat, i: nat, j: nat)
    ensures w / Pow2(i + j) == w / Pow2(i) / Pow2(j)
  {
    Pow2Add(i, j);
    DivDiv(w, Pow2(i), Pow2(j));
  }

  lemma BitHalf(w: nat, k: nat)
    ensures Bit(w, 0) <==> w % 2 == 1
    ensures Bit(w, k + 1) <==> Bit(w / 2, k)
  {
    DivPow2(w, 1, k);
    assert Pow2(1) == 2 && Pow2(0) == 1;
  }

  // ---- bits of the operations ----

  lemma {:induction false} AndBit(a: nat, b: nat, k: nat)
    ensures Bit(BitAnd(a, b), k) <==> Bit(a, k) && Bit(b, k)
  {
    hide Bit;
    if k == 0 {
      BitHalf(a, 0);
      BitHalf(b, 0);
      BitHalf(BitAnd(a, b), 0);
    } else {
      BitHalf(a, k - 1);
      BitHalf(b, k - 1);
      BitHalf(BitAnd(a, b), k - 1);
      AndBit(a / 2, b / 2, k - 1);
    }
  }

  lemma {:induction false} OrBit(a: nat, b: nat, k: nat)
    ensures Bit(BitOr(a, b), k) <==> Bit(a, k) || Bit(b, k)
  {
    hide Bit;
    if k == 0 {
      BitHalf(a, 0);
      BitHalf(b, 0);
      BitHalf(BitOr(a, b), 0);
    } else {
      BitHalf(a, k - 1);
      BitHalf(b, k - 1);
      BitHalf(BitOr(a, b), k - 1);
      OrBit(a / 2, b / 2, k - 1);
    }
  }

  /** What `or` has and `and` has not. */
  lemma {:induction false} OrMinusAndBit(a: nat, b: nat, k: nat)
    ensures BitAnd(a, b) <= BitOr(a, b)
    ensures Bit(BitOr(a, b) - BitAnd(a, b), k) <==> Bit(a, k) != Bit(b, k)
    decreases k, a + b
  {
    hide Bit;
    if a + b > 0 {
      OrMinusAndBit(a / 2, b / 2, if k == 0 then 0 else k - 1);
      var x, x' := BitOr(a, b) - BitAnd(a, b), BitOr(a / 2, b / 2) - BitAnd(a / 2, b / 2);
      assert x == 2 * x' + (if a % 2 != b % 2 then 1 else 0);
      BitHalf(a, if k == 0 then 0 else k - 1);
      BitHalf(b, if k == 0 then 0 else k - 1);
      BitHalf(x, if k == 0 then 0 else k - 1);
    } else {
      NoBits(k);
    }
  }

  lemma NoBits(k: nat)
    ensures !Bit(0, k)
  {
  }

  lemma {:induction false} ModBit(w: nat, n: nat, k: nat)
    ensures Bit(w % Pow2(n), k) <==> k < n && Bit(w, k)
  {
    hide Bit;
    if n == 0 {
      assert w % Pow2(0) == 0;
      NoBits(k);
    } else {
      HalfMod(w, Pow2(n - 1));
      var x := w % Pow2(n);
      assert x / 2 == (w / 2) % Pow2(n - 1) && x % 2 == w % 2;
      BitHalf(w, if k == 0 then 0 else k - 1);
      BitHalf(x, if k == 0 then 0 else k - 1);
      if k > 0 { ModBit(w / 2, n - 1, k - 1); }
    }
  }

  lemma {:induction false} LeftBit(w: nat, n: nat, k: nat)
    ensures Bit(w * Pow2(n), k) <==> k >= n && Bit(w, k - n)
  {
    hide Bit;
    if n > 0 {
      var x := w * Pow2(n - 1);
      assert w * Pow2(n) == 2 * x;
      BitHalf(2 * x, if k == 0 then 0 else k - 1);
      if k > 0 { LeftBit(w, n - 1, k - 1); }
    } else {
      assert w * Pow2(0) == w;
    }
  }

  lemma RightBit(w: nat, n: nat, k: nat, q: nat)
    requires q == w / Pow2(n)
    ensures Bit(q, k) <==> Bit(w, n + k)
  {
    DivPow2(w, n, k);
    hide Pow2;
  }

  lemma {:induction false} SmallBits(w: nat, n: nat, k: nat)
    requires w < Pow2(n) && k >= n
    ensures !Bit(w, k)
  {
    hide Bit;
    if n == 0 {
      NoBits(k);
    } else {
      BitHalf(w, k - 1);
      SmallBits(w / 2, n - 1, k - 1);
    }
  }

  lemma {:induction false} SameBits(a: nat, b: nat, n: nat)
    requires a < Pow2(n) && b < Pow2(n) && forall k: nat :: k < n ==> (Bit(a, k) <==> Bit(b, k))
    ensures a == b
  {
    if n > 0 {
      BitHalf(a, 0);
      BitHalf(b, 0);
      assert Bit(a, 0) <==> Bit(b, 0);
      hide Bit;
      forall k: nat | k < n - 1 ensures Bit(a / 2, k) <==> Bit(b / 2, k) {
        BitHalf(a, k);
        BitHalf(b, k);
        assert Bit(a, k + 1) <==> Bit(b, k + 1);
      }
      SameBits(a / 2, b / 2, n - 1);
    }
  }

  lemma {:induction false} OrBelow(a: nat, b: nat, n: nat)
    requires a < Pow2(n) && b < Pow2(n)
    ensures BitOr(a, b) < Pow2(n)
  {
    if n > 0 { OrBelow(a / 2, b / 2, n - 1); }
  }

  lemma {:induction false} AndBelow(a: nat, b: nat, n: nat)
    requires a < Pow2(n) && b < Pow2(n)
    ensures BitAnd(a, b) < Pow2(n)
  {
    if n > 0 { AndBelow(a / 2, b / 2, n - 1); }
  }

  // ---- residues ----

  lemma Reduced(x: int, m: int)
    requires m > 0
    ensures 0 <= x % m < m && Congruent(x % m, x, m)
  {
    assert x == m * (x / m) + x % m;
    assert x % m - x == m * (-(x / m)) + 0;
    ModUnique(x % m - x, m, -(x / m), 0);
  }

  lemma ResidueIsUnique(x: int, m: int, a: int, b: int)
    requires m > 0 && Congruent(a, x, m) && Congruent(b, x, m) && a - b < m && b - a < m
    ensures a == b
  {
    var p, q := (a - x) / m, (b - x) / m;
    assert a - x == m * p && b - x == m * q;
    assert a - b == m * (p - q);
    if p != q { MulAtLeast(m, p - q); }
  }

  /** The reading of a residue: itself, or less the modulus. */
  lemma ReadingIs(w: nat, m: int)
    requires w < m && m % 2 == 0
    ensures Reads(w, m, if 2 * w < m then w else w - m)
  {
    ModUnique(0, m, 0, 0);
    ModUnique(-m, m, -1, 0);
  }

  lemma ReadingIsUnique(w: int, m: int, u: int, v: int)
    requires m > 0 && Reads(w, m, u) && Reads(w, m, v)
    ensures u == v
  {
    ResidueIsUnique(w, m, u, v);
  }

  /** Numbers of the same reading are the same residue. */
  lemma ReadingDetermines(a: nat, b: nat, m: int, v: int)
    requires a < m && b < m && Reads(a, m, v) && Reads(b, m, v)
    ensures a == b
  {
    var p, q := (v - a) / m, (v - b) / m;
    assert v - a == m * p && v - b == m * q;
    assert b - a == m * (p - q);
    if p != q { MulAtLeast(m, p - q); }
  }

  lemma Powers()
    ensures Pow2(8) == 256 && Pow2(16) == 65536 && Pow2(32) == 0x1_0000_0000 && Pow2(64) == 0x1_0000_0000_0000_0000
  {
    assert Pow2(4) == 16;
    Pow2Add(4, 4);
    Pow2Add(8, 8);
    Pow2Add(16, 16);
    Pow2Add(32, 32);
  }
}
