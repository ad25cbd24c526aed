/** What the numeric instructions compute, said in arithmetic and in bits: residues, readings,
    quotients, positions and bytes. The statements are about one step of the interpreter and one
    step of the stack machine. */
module WasmArith {
  import opened Bits
  import opened BitPositions
  import opened WasmInstr
  import opened WasmSource
  import opened WasmSlots

  const M32: nat := 0x1_0000_0000
  const M64: nat := 0x1_0000_0000_0000_0000

  // ---- what two operands give ----

  predicate DividesByZero(op: BinOp, b: Word) {
    ((op.I32DivS? || op.I32DivU? || op.I32RemS? || op.I32RemU?) && b % M32 == 0) || (op.I64DivU? && b == 0)
  }

  predicate Tells(w: nat, truth: bool) { w == if truth then 1 else 0 }

  /** `truth` of the signed readings of the two residues. */
  ghost predicate TellsSigned(w: nat, x: nat, y: nat, m: int, truth: (int, int) -> bool)
    requires m > 0
  {
    forall u, v :: Reads(x, m, u) && Reads(y, m, v) ==> Tells(w, truth(u, v))
  }

  ghost predicate Residue(w: nat, x: int, m: nat)
    requires m > 0
  {
    w < m && Congruent(w, x, m)
  }

  ghost predicate BitsOfAnd(w: nat, x: nat, y: nat, n: nat) {
    forall k: nat :: k < n ==> (Bit(w, k) <==> Bit(x, k) && Bit(y, k))
  }

  ghost predicate BitsOfOr(w: nat, x: nat, y: nat, n: nat) {
    forall k: nat :: k < n ==> (Bit(w, k) <==> Bit(x, k) || Bit(y, k))
  }

  ghost predicate BitsOfXor(w: nat, x: nat, y: nat, n: nat) {
    forall k: nat :: k < n ==> (Bit(w, k) <==> Bit(x, k) != Bit(y, k))
  }

  /** Every bit `d` places up; zeros come in. */
  ghost predicate MovedUp(w: nat, x: nat, d: nat, n: nat) {
    forall k: nat :: k < n ==> (Bit(w, k) <==> k >= d && Bit(x, k - d))
  }

  /** Every bit `d` places down; zeros come in. */
  ghost predicate MovedDown(w: nat, x: nat, d: nat, n: nat) {
    forall k: nat :: k < n ==> (Bit(w, k) <==> d + k < n && Bit(x, d + k))
  }

  /** The signed quotient by a power of two, rounded down. */
  ghost predicate Floored(w: nat, x: nat, d: nat, m: int)
    requires m > 0
  {
    forall u, v :: Reads(x, m, u) && Reads(w, m, v) ==> v * Pow2(d) <= u < v * Pow2(d) + Pow2(d)
  }

  predicate Quotient(w: nat, x: nat, y: nat) { w * y <= x < w * y + y }

  predicate Remainder(w: nat, x: nat, y: nat) { w < y && Congruent(x, w, y) }

  /** `q` is the quotient without its fraction: what is left has the sign of what was divided. */
  predicate Truncates(u: int, v: int, q: int) {
    var r := u - q * v;
    (if v > 0 then -v < r < v else v < r < -v) && (u >= 0 ==> r >= 0) && (u <= 0 ==> r <= 0)
  }

  /** The quotient of the signed readings, reduced: the least number by -1 is itself. */
  ghost predicate SignedQuotient(w: nat, x: nat, y: nat) {
    forall u, v, q :: Reads(x, M32, u) && Reads(y, M32, v) && Truncates(u, v, q) ==> Residue(w, q, M32)
  }

  ghost predicate SignedRemainder(w: nat, x: nat, y: nat) {
    forall u, v, q :: Reads(x, M32, u) && Reads(y, M32, v) && Truncates(u, v, q) ==> Residue(w, u - q * v, M32)
  }

  ghost predicate Means32(op: BinOp, x: nat, y: nat, w: nat) {
    match op
    case I32Add => Residue(w, x + y, M32)
    case I32Sub => Residue(w, x - y, M32)
    case I32Mul => Residue(w, x * y, M32)
    case I32DivU => Quotient(w, x, y)
    case I32RemU => Remainder(w, x, y)
    case I32DivS => y != 0 && SignedQuotient(w, x, y)
    case I32RemS => y != 0 && SignedRemainder(w, x, y)
    case I32And => w < M32 && BitsOfAnd(w, x, y, 32)
    case I32Or => w < M32 && BitsOfOr(w, x, y, 32)
    case I32Xor => w < M32 && BitsOfXor(w, x, y, 32)
    case I32Shl => w < M32 && MovedUp(w, x, y % 32, 32)
    case I32ShrU => w < M32 && MovedDown(w, x, y % 32, 32)
    case I32ShrS => w < M32 && Floored(w, x, y % 32, M32)
    case I32Eq => Tells(w, x == y)
    case I32Ne => Tells(w, x != y)
    case I32LtU => Tells(w, x < y)
    case I32GtU => Tells(w, x > y)
    case I32LeU => Tells(w, x <= y)
    case I32GeU => Tells(w, x >= y)
    case I32LtS => TellsSigned(w, x, y, M32, (u, v) => u < v)
    case I32GtS => TellsSigned(w, x, y, M32, (u, v) => u > v)
    case I32LeS => TellsSigned(w, x, y, M32, (u, v) => u <= v)
    case I32GeS => TellsSigned(w, x, y, M32, (u, v) => u >= v)
    case _ => false
  }

  ghost predicate Means64(op: BinOp, a: nat, b: nat, w: nat) {
    match op
    case I64Add => Residue(w, a + b, M64)
    case I64Sub => Residue(w, a - b, M64)
    case I64Mul => Residue(w, a * b, M64)
    case I64DivU => Quotient(w, a, b)
    case I64And => w < M64 && BitsOfAnd(w, a, b, 64)
    case I64Or => w < M64 && BitsOfOr(w, a, b, 64)
    case I64Shl => w < M64 && MovedUp(w, a, b % 64, 64)
    case I64ShrU => w < M64 && MovedDown(w, a, b % 64, 64)
    case I64Eq => Tells(w, a == b)
    case I64Ne => Tells(w, a != b)
    case I64LtU => Tells(w, a < b)
    case I64LtS => TellsSigned(w, a, b, M64, (u, v) => u < v)
    case _ => false
  }

  /** The 32-bit operations read the lower halves of their cells. */
  ghost predicate Means(op: BinOp, a: Word, b: Word, w: Word) {
    Means32(op, a % M32, b % M32, w) || Means64(op, a, b, w)
  }

  // ---- the definitions meet the meaning ----

  lemma QuotientIs(x: nat, y: nat)
    requires y > 0
    ensures Quotient(x / y, x, y) && Remainder(x % y, x, y) && x / y <= x
  {
    assert x == y * (x / y) + x % y;
    assert y * (x / y) == (x / y) * y;
    Reduced(x, y);
    ModUnique(x - x % y, y, x / y, 0);
    MulUpTo(x / y, 1, y);
  }

  lemma Small(x: nat, m: nat)
    requires x < m
    ensures x % m == x
  {
    ModUnique(x, m, 0, x);
  }

  lemma BitsOr(x: nat, y: nat, n: nat)
    requires x < Pow2(n) && y < Pow2(n)
    ensures BitsOfAnd(BitAnd(x, y), x, y, n) && BitsOfOr(BitOr(x, y), x, y, n)
    ensures BitAnd(x, y) <= BitOr(x, y) < Pow2(n) && BitsOfXor(BitOr(x, y) - BitAnd(x, y), x, y, n)
  {
    hide Bit;
    OrBelow(x, y, n);
    OrMinusAndBit(x, y, 0);
    forall k: nat | k < n
      ensures Bit(BitAnd(x, y), k) <==> Bit(x, k) && Bit(y, k)
      ensures Bit(BitOr(x, y), k) <==> Bit(x, k) || Bit(y, k)
      ensures Bit(BitOr(x, y) - BitAnd(x, y), k) <==> Bit(x, k) != Bit(y, k)
    {
      AndBit(x, y, k);
      OrBit(x, y, k);
      OrMinusAndBit(x, y, k);
    }
  }

  lemma ShiftUp(x: nat, d: nat, n: nat)
    ensures MovedUp(x * Pow2(d) % Pow2(n), x, d, n)
  {
    var v, w := x * Pow2(d), x * Pow2(d) % Pow2(n);
    hide Bit, Pow2;
    forall k: nat | k < n ensures Bit(w, k) <==> k >= d && Bit(x, k - d) {
      ModBit(v, n, k);
      LeftBit(x, d, k);
    }
  }

  lemma ShiftDown(x: nat, d: nat, n: nat)
    requires x < Pow2(n)
    ensures MovedDown(x / Pow2(d), x, d, n)
  {
    var w := x / Pow2(d);
    hide Bit, Pow2;
    forall k: nat | k < n ensures Bit(w, k) <==> d + k < n && Bit(x, d + k) {
      RightBit(x, d, k, w);
      if d + k >= n { SmallBits(x, n, d + k); }
    }
  }

  /** The quotient of a reading, rounded down, is a reading. */
  lemma FlooredIs(x: nat, d: nat, m: int, u: int, v: int)
    requires m > 0 && m % 2 == 0 && x < m && Reads(x, m, u) && v * Pow2(d) <= u < v * Pow2(d) + Pow2(d)
    ensures Floored(v % m, x, d, m)
  {
    FloorSmall(u, Pow2(d), v);
    CongruentBack(v, m);
    assert Reads(v % m, m, v);
    hide Reads, Pow2;
    forall u', v' | Reads(x, m, u') && Reads(v % m, m, v') ensures u' == u && v' == v {
      ReadingIsUnique(x, m, u, u');
      ReadingIsUnique(v % m, m, v, v');
    }
  }

  lemma FloorIs(u: int, p: nat)
    requires p > 0
    ensures (u / p) * p <= u < (u / p) * p + p
  {
    assert u == p * (u / p) + u % p && p * (u / p) == (u / p) * p;
  }

  lemma CongruentBack(v: int, m: int)
    requires m > 0
    ensures Congruent(v, v % m, m)
  {
    assert v - v % m == m * (v / m) + 0;
    ModUnique(v - v % m, m, v / m, 0);
  }

  lemma FloorSmall(u: int, p: nat, v: int)
    requires v * p <= u < v * p + p
    ensures u >= 0 ==> 0 <= v <= u
    ensures u < 0 ==> u <= v < 0
  {
    if v >= 0 {
      MulUpTo(p, 0, v);
      MulUpTo(v, 1, p);
    } else {
      MulUpTo(p, v + 1, 0);
      MulUpTo(-(v + 1), 1, p);
      assert p * (v + 1) == v * p + p && -(v + 1) * p == -(v * p + p);
    }
  }

  lemma SignedReads()
    ensures forall x: U32 :: Reads(x, M32, Signed32(x))
    ensures forall x: Word :: Reads(x, M64, Signed64(x))
  {
    forall x: U32 ensures Reads(x, M32, Signed32(x)) { ReadingIs(x, M32); }
    forall x: Word ensures Reads(x, M64, Signed64(x)) { ReadingIs(x, M64); }
  }

  lemma SumsMean(op: BinOp, a: Word, b: Word)
    requires op.I32Add? || op.I32Sub? || op.I32Mul? || op.I64Add? || op.I64Sub? || op.I64Mul?
    ensures EvalArith(op, a, b).Value? && Means(op, a, b, EvalArith(op, a, b).w)
  {
    hide Congruent;
    var x, y := a % M32, b % M32;
    Reduced(x + y, M32);
    Reduced(x - y, M32);
    Reduced(x * y, M32);
    Reduced(a + b, M64);
    Reduced(a - b, M64);
    Reduced(a * b, M64);
  }

  /** A quotient or remainder is no larger than what is divided. */
  lemma DivisionFits(x: nat, y: nat, m: nat)
    requires x < m && y > 0
    ensures x / y % m == x / y && x % y % m == x % y
  {
    hide Congruent;
    QuotientIs(x, y);
    Small(x / y, m);
    Small(x % y, m);
  }

  lemma DivisionsMean32(op: BinOp, a: Word, b: Word)
    requires (op.I32DivU? || op.I32RemU?) && b % M32 != 0
    ensures EvalArith(op, a, b).Value? && Means(op, a, b, EvalArith(op, a, b).w)
  {
    hide Quotient, Remainder;
    var x, y := a % M32, b % M32;
    DivisionFits(x, y, M32);
    var w := if op.I32DivU? then x / y else x % y;
    assert EvalArith(op, a, b) == Value(w);
    hide EvalArith;
    QuotientIs(x, y);
    assert Means32(op, x, y, w);
  }

  lemma DivisionsMean64(a: Word, b: Word)
    requires b != 0
    ensures EvalArith(I64DivU, a, b).Value? && Means(I64DivU, a, b, EvalArith(I64DivU, a, b).w)
  {
    hide Quotient, Remainder;
    DivisionFits(a, b, M64);
    var w := a / b;
    assert EvalArith(I64DivU, a, b) == Value(w);
    hide EvalArith;
    QuotientIs(a, b);
    assert Means64(I64DivU, a, b, w);
  }

  lemma TruncatesOnce(u: int, v: int, p: int, q: int)
    requires Truncates(u, v, p) && Truncates(u, v, q)
    ensures p == q
  {
    var d := p - q;
    assert (u - q * v) - (u - p * v) == v * d;
    if d != 0 {
      if v > 0 { MulAtLeast(v, d); } else { MulAtLeast(-v, d); }
    }
  }

  /** The truncating division does. */
  lemma QuotTruncates(u: int, v: int)
    requires v != 0
    ensures Truncates(u, v, Quot(u, v))
  {
    var a, b := Abs(u), Abs(v);
    var q := a / b;
    assert a == b * q + a % b && 0 <= a % b < b;
    SignedProducts(q, b);
  }

  lemma SignedProducts(q: int, b: int)
    ensures q * b == b * q && (-q) * b == -(b * q) && q * (-b) == -(b * q) && (-q) * (-b) == b * q
  {
  }

  lemma SignedDivisionsMean(op: BinOp, a: Word, b: Word)
    requires (op.I32DivS? || op.I32RemS?) && b % M32 != 0
    ensures EvalArith(op, a, b).Value? && Means(op, a, b, EvalArith(op, a, b).w)
  {
    hide Reads, Truncates, Congruent, Quot;
    SignedReads();
    var x: U32, y: U32 := a % M32, b % M32;
    var u, v := Signed32(x), Signed32(y);
    var q := Quot(u, v);
    QuotTruncates(u, v);
    Reduced(q, M32);
    Reduced(u - q * v, M32);
    forall u', v', q' | Reads(x, M32, u') && Reads(y, M32, v') && Truncates(u', v', q')
      ensures u' == u && v' == v && q' == q
    {
      ReadingIsUnique(x, M32, u, u');
      ReadingIsUnique(y, M32, v, v');
      TruncatesOnce(u, v, q, q');
    }
  }

  lemma BitsMean(op: BinOp, a: Word, b: Word)
    requires op.I32And? || op.I32Or? || op.I32Xor? || op.I64And? || op.I64Or?
    ensures EvalArith(op, a, b).Value? && Means(op, a, b, EvalArith(op, a, b).w)
  {
    hide BitsOfAnd, BitsOfOr, BitsOfXor, Pow2, BitAnd, BitOr;
    Powers();
    var x, y := a % M32, b % M32;
    BitsOr(x, y, 32);
    Small(BitAnd(x, y), M32);
    Small(BitOr(x, y), M32);
    Small(BitOr(x, y) - BitAnd(x, y), M32);
    BitsOr(a, b, 64);
    Small(BitAnd(a, b), M64);
    Small(BitOr(a, b), M64);
  }

  lemma ShiftsUpMean(op: BinOp, a: Word, b: Word)
    requires op.I32Shl? || op.I64Shl?
    ensures EvalArith(op, a, b).Value? && Means(op, a, b, EvalArith(op, a, b).w)
  {
    hide MovedUp, Pow2;
    Powers();
    ShiftUp(a % M32, b % M32 % 32, 32);
    ShiftUp(a, b % 64, 64);
  }

  lemma ShiftsDownMean(op: BinOp, a: Word, b: Word)
    requires op.I32ShrU? || op.I64ShrU?
    ensures EvalArith(op, a, b).Value? && Means(op, a, b, EvalArith(op, a, b).w)
  {
    hide MovedDown, Pow2;
    Powers();
    var x, d, e := a % M32, b % M32 % 32, b % 64;
    DivisionFits(x, Pow2(d), M32);
    DivisionFits(a, Pow2(e), M64);
    var w, v := x / Pow2(d), a / Pow2(e);
    assert EvalArith(op, a, b) == Value(if op.I32ShrU? then w else v);
    hide EvalArith;
    ShiftDown(x, d, 32);
    ShiftDown(a, e, 64);
  }

  lemma SignedShiftMeans(a: Word, b: Word)
    ensures EvalArith(I32ShrS, a, b).Value? && Means(I32ShrS, a, b, EvalArith(I32ShrS, a, b).w)
  {
    hide Floored, Reads, Pow2;
    SignedReads();
    var x: U32, y := a % M32, b % M32;
    FloorIs(Signed32(x), Pow2(y % 32));
    FlooredIs(x, y % 32, M32, Signed32(x), Signed32(x) / Pow2(y % 32));
  }

  lemma ComparesMean(op: BinOp, a: Word, b: Word)
    requires IsCompare(op)
    ensures Means(op, a, b, OfBool(EvalCompare(op, a, b)))
  {
    hide Reads;
    SignedReads();
    var x: U32, y: U32 := a % M32, b % M32;
    forall u, v | Reads(x, M32, u) && Reads(y, M32, v) ensures u == Signed32(x) && v == Signed32(y) {
      ReadingIsUnique(x, M32, u, Signed32(x));
      ReadingIsUnique(y, M32, v, Signed32(y));
    }
    forall u, v | Reads(a, M64, u) && Reads(b, M64, v) ensures u == Signed64(a) && v == Signed64(b) {
      ReadingIsUnique(a, M64, u, Signed64(a));
      ReadingIsUnique(b, M64, v, Signed64(b));
    }
  }

  lemma ZeroDivides(op: BinOp, a: Word, b: Word)
    requires op.I32DivS? || op.I32DivU? || op.I32RemS? || op.I32RemU? || op.I64DivU?
    ensures EvalArith(op, a, b) == DivZero <==> DividesByZero(op, b)
  {
  }

  lemma BinMeans(op: BinOp, a: Word, b: Word)
    ensures EvalBin(op, a, b) == DivZero <==> DividesByZero(op, b)
    ensures EvalBin(op, a, b).Value? ==> Means(op, a, b, EvalBin(op, a, b).w)
  {
    hide Means, EvalArith, EvalCompare;
    if IsCompare(op) {
      ComparesMean(op, a, b);
    } else if op.I32And? || op.I32Or? || op.I32Xor? || op.I64And? || op.I64Or? {
      BitsMean(op, a, b);
    } else if op.I32Shl? || op.I64Shl? {
      ShiftsUpMean(op, a, b);
    } else if op.I32ShrU? || op.I64ShrU? {
      ShiftsDownMean(op, a, b);
    } else if op.I32ShrS? {
      SignedShiftMeans(a, b);
    } else if op.I32DivS? || op.I32RemS? {
      ZeroDivides(op, a, b);
      if b % M32 != 0 { SignedDivisionsMean(op, a, b); }
    } else if op.I32DivU? || op.I32RemU? || op.I64DivU? {
      ZeroDivides(op, a, b);
      if op.I64DivU? && b != 0 { DivisionsMean64(a, b); }
      if !op.I64DivU? && b % M32 != 0 { DivisionsMean32(op, a, b); }
    } else {
      SumsMean(op, a, b);
    }
  }

  // ---- the meaning leaves no choice ----

  lemma FloorsAgree(u: int, p: nat, v: int, v': int)
    requires v * p <= u < v * p + p && v' * p <= u < v' * p + p
    ensures v == v'
  {
    if v < v' { MulUpTo(p, v + 1, v'); }
    if v' < v { MulUpTo(p, v' + 1, v); }
  }

  lemma RemainderIsUnique(x: nat, y: nat, w: nat, w': nat)
    requires Remainder(w, x, y) && Remainder(w', x, y)
    ensures w == w'
  {
    var p, q := (x - w) / y, (x - w') / y;
    assert x - w == y * p && x - w' == y * q && w' - w == y * (p - q);
    if p != q { MulAtLeast(y, p - q); }
  }

  lemma FlooredIsUnique(x: nat, d: nat, w: nat, w': nat)
    requires x < M32 && w < M32 && w' < M32 && Floored(w, x, d, M32) && Floored(w', x, d, M32)
    ensures w == w'
  {
    hide Reads;
    SignedReads();
    var p := Pow2(d);
    var x32: U32, w32: U32, w32': U32 := x, w, w';
    var u, v, v' := Signed32(x32), Signed32(w32), Signed32(w32');
    assert Reads(x, M32, u) && Reads(w, M32, v) && Reads(w', M32, v');
    assert v * p <= u < v * p + p && v' * p <= u < v' * p + p;
    FloorsAgree(u, p, v, v');
    ReadingDetermines(w, w', M32, v);
  }

  lemma TellsOneThing(w: nat, w': nat, x: nat, y: nat, m: int, truth: (int, int) -> bool)
    requires m > 0 && m % 2 == 0 && x < m && y < m && TellsSigned(w, x, y, m, truth) && TellsSigned(w', x, y, m, truth)
    ensures w == w'
  {
    ReadingIs(x, m);
    ReadingIs(y, m);
    hide Reads;
    var u, v := if 2 * x < m then x else x - m, if 2 * y < m then y else y - m;
    assert Tells(w, truth(u, v)) && Tells(w', truth(u, v));
  }

  lemma BitsAreUnique(w: nat, w': nat, x: nat, y: nat, d: nat, n: nat)
    requires w < Pow2(n) && w' < Pow2(n)
    requires || (BitsOfAnd(w, x, y, n) && BitsOfAnd(w', x, y, n)) || (BitsOfOr(w, x, y, n) && BitsOfOr(w', x, y, n))
             || (BitsOfXor(w, x, y, n) && BitsOfXor(w', x, y, n)) || (MovedUp(w, x, d, n) && MovedUp(w', x, d, n))
             || (MovedDown(w, x, d, n) && MovedDown(w', x, d, n))
    ensures w == w'
  {
    hide Bit;
    SameBits(w, w', n);
  }

  /** Two cells that mean the same are the same. */
  lemma MeaningIsUnique(op: BinOp, a: Word, b: Word, w: Word, w': Word)
    requires Means(op, a, b, w) && Means(op, a, b, w')
    ensures w == w'
  {
    var x, y := a % M32, b % M32;
    if Means32(op, x, y, w) {
      Unique32(op, x, y, w, w');
    } else {
      Unique64(op, a, b, w, w');
    }
  }

  lemma SignedIsUnique(op: BinOp, x: nat, y: nat, w: nat, w': nat)
    requires x < M32 && y < M32 && y != 0
    requires || (SignedQuotient(w, x, y) && SignedQuotient(w', x, y))
             || (SignedRemainder(w, x, y) && SignedRemainder(w', x, y))
    ensures w == w'
  {
    hide Reads, Truncates, Congruent, Quot;
    SignedReads();
    var x32: U32, y32: U32 := x, y;
    var u, v := Signed32(x32), Signed32(y32);
    var q := Quot(u, v);
    QuotTruncates(u, v);
    assert Reads(x, M32, u) && Reads(y, M32, v);
    if SignedQuotient(w, x, y) && SignedQuotient(w', x, y) {
      ResidueIsUnique(q, M32, w, w');
    } else {
      ResidueIsUnique(u - q * v, M32, w, w');
    }
  }

  lemma Unique32(op: BinOp, x: nat, y: nat, w: nat, w': nat)
    requires x < M32 && y < M32 && Means32(op, x, y, w) && Means32(op, x, y, w')
    ensures w == w'
  {
    hide Congruent, Remainder, TellsSigned, Floored, Pow2, BitsOfAnd, BitsOfOr, BitsOfXor, MovedUp, MovedDown;
    Powers();
    match op
    case I32Add => ResidueIsUnique(x + y, M32, w, w');
    case I32Sub => ResidueIsUnique(x - y, M32, w, w');
    case I32Mul => ResidueIsUnique(x * y, M32, w, w');
    case I32DivU => FloorsAgree(x, y, w, w');
    case I32RemU => RemainderIsUnique(x, y, w, w');
    case I32DivS => SignedIsUnique(op, x, y, w, w');
    case I32RemS => SignedIsUnique(op, x, y, w, w');
    case I32And => BitsAreUnique(w, w', x, y, 0, 32);
    case I32Or => BitsAreUnique(w, w', x, y, 0, 32);
    case I32Xor => BitsAreUnique(w, w', x, y, 0, 32);
    case I32Shl => BitsAreUnique(w, w', x, y, y % 32, 32);
    case I32ShrU => BitsAreUnique(w, w', x, y, y % 32, 32);
    case I32ShrS => FlooredIsUnique(x, y % 32, w, w');
    case I32LtS => TellsOneThing(w, w', x, y, M32, (u, v) => u < v);
    case I32GtS => TellsOneThing(w, w', x, y, M32, (u, v) => u > v);
    case I32LeS => TellsOneThing(w, w', x, y, M32, (u, v) => u <= v);
    case I32GeS => TellsOneThing(w, w', x, y, M32, (u, v) => u >= v);
    case _ =>
  }

  lemma Unique64(op: BinOp, a: nat, b: nat, w: nat, w': nat)
    requires a < M64 && b < M64 && Means64(op, a, b, w) && Means64(op, a, b, w')
    ensures w == w'
  {
    hide Congruent, Remainder, TellsSigned, Floored, Pow2, BitsOfAnd, BitsOfOr, BitsOfXor, MovedUp, MovedDown;
    Powers();
    match op
    case I64Add => ResidueIsUnique(a + b, M64, w, w');
    case I64Sub => ResidueIsUnique(a - b, M64, w, w');
    case I64Mul => ResidueIsUnique(a * b, M64, w, w');
    case I64DivU => FloorsAgree(a, b, w, w');
    case I64And => BitsAreUnique(w, w', a, b, 0, 64);
    case I64Or => BitsAreUnique(w, w', a, b, 0, 64);
    case I64Shl => BitsAreUnique(w, w', a, b, b % 64, 64);
    case I64ShrU => BitsAreUnique(w, w', a, b, b % 64, 64);
    case I64LtS => TellsOneThing(w, w', a, b, M64, (u, v) => u < v);
    case _ =>
  }

  // ---- what one operand gives ----

  ghost predicate MeansUnary(op: UnOp, a: Word, w: Word) {
    match op
    case I32Eqz => Tells(w, a % M32 == 0)
    case I64Eqz => Tells(w, a == 0)
    case I32WrapI64 => Residue(w, a, M32)
    case I64ExtendI32U => Residue(w, a, M32)
    case I64ExtendI32S => forall u :: Reads(a % M32, M32, u) ==> Reads(w, M64, u)
  }

  lemma UnMeans(op: UnOp, a: Word)
    ensures MeansUnary(op, a, EvalUn(op, a))
  {
    hide Congruent;
    Reduced(a, M32);
    var x: U32 := a % M32;
    forall u | Reads(x, M32, u) ensures Reads(Wrap64(Signed32(x)), M64, u) { ExtendReads(x, u); }
  }

  lemma ExtendReads(x: U32, u: int)
    requires Reads(x, M32, u)
    ensures Reads(Wrap64(Signed32(x)), M64, u)
  {
    hide Congruent;
    ReadingIs(x, M32);
    ReadingIsUnique(x, M32, u, Signed32(x));
    CongruentBack(u, M64);
  }

  lemma UnaryIsUnique(op: UnOp, a: Word, w: Word, w': Word)
    requires MeansUnary(op, a, w) && MeansUnary(op, a, w')
    ensures w == w'
  {
    hide Congruent;
    if op.I32WrapI64? || op.I64ExtendI32U? {
      ResidueIsUnique(a, M32, w, w');
    } else if op.I64ExtendI32S? {
      var x: U32 := a % M32;
      ReadingIs(x, M32);
      assert Reads(x, M32, Signed32(x));
      ReadingDetermines(w, w', M64, Signed32(x));
    }
  }

  // ---- loads and stores, byte by byte ----

  /** How many bytes are read, whether the last gives a sign, and how many the result has. */
  datatype Access = Access(width: nat, signed: bool, size: nat)

  function LoadAccess(op: LoadOp): Access {
    match op
    case I32Load => Access(4, false, 4)
    case I32Load8S => Access(1, true, 4)
    case I32Load8U => Access(1, false, 4)
    case I32Load16S => Access(2, true, 4)
    case I32Load16U => Access(2, false, 4)
    case I64Load => Access(8, false, 8)
    case I64Load8S => Access(1, true, 8)
    case I64Load8U => Access(1, false, 8)
    case I64Load32S => Access(4, true, 8)
    case I64Load32U => Access(4, false, 8)
  }

  function StoredBytes(op: StoreOp): nat {
    match op
    case I32Store => 4 case I32Store8 => 1 case I32Store16 => 2
    case I64Store => 8 case I64Store8 => 1 case I64Store32 => 4
  }

  /** Byte `i` of what is loaded: from memory, or a copy of the sign, or zero. */
  function LoadedByte(a: Access, mem: seq<M.Byte>, ea: nat, i: nat): nat
    requires 1 <= a.width && ea + a.width <= |mem|
  {
    if i < a.width then mem[ea + i]
    else if a.signed && i < a.size && mem[ea + a.width - 1] >= 0x80 then 0xFF
    else 0
  }

  ghost predicate MeansLoad(op: LoadOp, mem: seq<M.Byte>, ea: nat, w: Word) {
    && ea + LoadAccess(op).width <= |mem|
    && forall i: nat :: i < 8 ==> ByteAt(w, i) == LoadedByte(LoadAccess(op), mem, ea, i)
  }

  ghost predicate MeansStore(op: StoreOp, mem: seq<M.Byte>, ea: nat, w: Word, mem': seq<M.Byte>) {
    && ea + StoredBytes(op) <= |mem| == |mem'|
    && forall j: nat :: j < |mem| ==> mem'[j] == if ea <= j < ea + StoredBytes(op) then ByteAt(w, j - ea) else mem[j]
  }

  lemma ByteShift(v: nat, i: nat)
    ensures ByteAt(v, i + 1) == ByteAt(v / 256, i) && ByteAt(v, 0) == v % 256
  {
    hide Pow2;
    Powers();
    DivPow2(v, 8, 8 * i);
    assert 8 + 8 * i == 8 * (i + 1) && Pow2(0) == 1 by { NoPower(); }
  }

  lemma NoPower()
    ensures Pow2(0) == 1
  {
  }

  lemma {:induction false} ReadByte(bs: seq<M.Byte>, i: nat)
    ensures ByteAt(M.FromLittleEndian(bs), i) == if i < |bs| then bs[i] else 0
  {
    hide ByteAt;
    var v := M.FromLittleEndian(bs);
    if bs == [] {
      ZeroByte(i);
    } else {
      assert v % 256 == bs[0] && v / 256 == M.FromLittleEndian(bs[1..]);
      if i > 0 { ReadByte(bs[1..], i - 1); }
      ByteShift(v, if i == 0 then 0 else i - 1);
    }
  }

  lemma ZeroByte(i: nat)
    ensures ByteAt(0, i) == 0
  {
  }

  lemma {:induction false} WrittenByte(v: nat, width: nat, i: nat)
    requires i < width
    ensures M.ToLittleEndian(v, width)[i] == ByteAt(v, i)
  {
    hide ByteAt;
    ByteShift(v, if i == 0 then 0 else i - 1);
    if i > 0 { WrittenByte(v / 256, width - 1, i - 1); }
  }

  lemma AppendStep(d: nat, x: nat, p: nat, r: nat)
    requires d < 256 && x < p
    ensures d + 256 * (x + p * r) == d + 256 * x + (256 * p) * r
    ensures d + 256 * x < 256 * p
  {
  }

  lemma {:induction false} ReadAppend(a: seq<M.Byte>, b: seq<M.Byte>)
    ensures M.FromLittleEndian(a + b) == M.FromLittleEndian(a) + Pow2(8 * |a|) * M.FromLittleEndian(b)
    ensures M.FromLittleEndian(a) < Pow2(8 * |a|)
  {
    if a == [] {
      assert a + b == b;
    } else {
      ReadAppend(a[1..], b);
      assert (a + b)[0] == a[0] && (a + b)[1..] == a[1..] + b;
      hide Pow2;
      Powers();
      Pow2Add(8, 8 * |a[1..]|);
      AppendStep(a[0], M.FromLittleEndian(a[1..]), Pow2(8 * |a[1..]|), M.FromLittleEndian(b));
    }
  }

  /** The sign of a row of bytes is that of its last. */
  lemma TopByte(bs: seq<M.Byte>)
    requires bs != []
    ensures M.FromLittleEndian(bs) >= 128 * Pow2(8 * (|bs| - 1)) <==> bs[|bs| - 1] >= 128
  {
    var low, top := bs[..|bs| - 1], bs[|bs| - 1];
    assert M.FromLittleEndian([top]) == top;
    hide M.FromLittleEndian, Pow2;
    ReadAppend(low, [top]);
    assert bs == low + [top];
    TopDigit(Pow2(8 * (|bs| - 1)), M.FromLittleEndian(low), top);
  }

  lemma TopDigit(p: nat, x: nat, top: nat)
    requires x < p
    ensures x + p * top >= 128 * p <==> top >= 128
  {
    if top >= 128 { MulUpTo(p, 128, top); } else { MulUpTo(p, top + 1, 128); assert p * (top + 1) == p * top + p; }
  }

  function Ones(n: nat): seq<M.Byte> { seq(n, _ => 255) }

  lemma {:induction false} OnesRead(n: nat)
    ensures M.FromLittleEndian(Ones(n)) == Pow2(8 * n) - 1
  {
    if n > 0 {
      OnesRead(n - 1);
      assert Ones(n)[1..] == Ones(n - 1);
      Pow2Add(8, 8 * (n - 1));
      Powers();
    }
  }

  /** A negative number of `k` bytes extended to `n`. */
  lemma ExtendedRead(bs: seq<M.Byte>, n: nat)
    requires |bs| <= n
    ensures M.FromLittleEndian(bs + Ones(n - |bs|)) == M.FromLittleEndian(bs) + Pow2(8 * n) - Pow2(8 * |bs|)
    ensures M.FromLittleEndian(bs) < Pow2(8 * |bs|) <= Pow2(8 * n)
  {
    hide M.FromLittleEndian, Pow2, Ones;
    var k := |bs|;
    ReadAppend(bs, Ones(n - k));
    OnesRead(n - k);
    Pow2Add(8 * k, 8 * (n - k));
    assert 8 * k + 8 * (n - k) == 8 * n;
    LessOne(Pow2(8 * k), Pow2(8 * (n - k)));
  }

  lemma LessOne(p: nat, q: nat)
    requires q >= 1
    ensures p * (q - 1) == p * q - p && p <= p * q
  {
    MulUpTo(p, 1, q);
  }

  lemma LoadedUnsigned(op: LoadOp, bs: seq<M.Byte>)
    requires |bs| == LoadAccess(op).width && !(LoadAccess(op).signed && bs[|bs| - 1] >= 0x80)
    ensures Loaded(op, M.FromLittleEndian(bs)) == M.FromLittleEndian(bs)
  {
    hide M.FromLittleEndian, Pow2;
    Powers();
    FourBytes();
    ReadAppend(bs, []);
    TopByte(bs);
    var v := M.FromLittleEndian(bs);
    if v < M32 { Small(v, M32); }
    Small(v, M64);
  }

  lemma FourBytes()
    ensures Pow2(0) == 1 && Pow2(24) == 0x100_0000
  {
    Powers();
    Pow2Add(8, 16);
  }

  lemma LoadedNegative(op: LoadOp, bs: seq<M.Byte>)
    requires |bs| == LoadAccess(op).width && LoadAccess(op).signed && bs[|bs| - 1] >= 0x80
    ensures Loaded(op, M.FromLittleEndian(bs)) == M.FromLittleEndian(bs + Ones(LoadAccess(op).size - |bs|))
  {
    hide M.FromLittleEndian, Pow2;
    Powers();
    FourBytes();
    TopByte(bs);
    var v, n := M.FromLittleEndian(bs), LoadAccess(op).size;
    ExtendedRead(bs, n);
    var m := if n == 4 then M32 else M64;
    assert SignExtend(v, |bs|) == v - Pow2(8 * |bs|);
    ModUnique(v - Pow2(8 * |bs|), m, -1, v + m - Pow2(8 * |bs|));
  }

  lemma LoadMeans(op: LoadOp, mem: seq<M.Byte>, ea: nat)
    requires ea + LoadAccess(op).width <= |mem|
    ensures MeansLoad(op, mem, ea, Loaded(op, M.FromLittleEndian(mem[ea..ea + LoadAccess(op).width])))
  {
    hide M.FromLittleEndian, ByteAt, Loaded;
    var a := LoadAccess(op);
    var bs := mem[ea..ea + a.width];
    assert bs[a.width - 1] == mem[ea + a.width - 1];
    var negative := a.signed && bs[|bs| - 1] >= 0x80;
    var all := if negative then bs + Ones(a.size - a.width) else bs;
    if negative { LoadedNegative(op, bs); } else { LoadedUnsigned(op, bs); }
    forall i: nat | i < 8 ensures ByteAt(M.FromLittleEndian(all), i) == LoadedByte(a, mem, ea, i) { ReadByte(all, i); }
  }

  lemma StoreMeans(op: StoreOp, mem: seq<M.Byte>, ea: nat, w: Word)
    requires ea + StoredBytes(op) <= |mem|
    ensures MeansStore(op, mem, ea, w,
      mem[..ea] + M.ToLittleEndian(w, StoredBytes(op)) + mem[ea + StoredBytes(op)..])
  {
    hide ByteAt, M.ToLittleEndian;
    var n := StoredBytes(op);
    var mem' := mem[..ea] + M.ToLittleEndian(w, n) + mem[ea + n..];
    forall j: nat | j < |mem| ensures mem'[j] == if ea <= j < ea + n then ByteAt(w, j - ea) else mem[j] {
      if ea <= j < ea + n { WrittenByte(w, n, j - ea); }
    }
  }

  lemma {:induction false} SameBytes(a: nat, b: nat, n: nat)
    requires a < Pow2(8 * n) && b < Pow2(8 * n) && forall i: nat :: i < n ==> ByteAt(a, i) == ByteAt(b, i)
    ensures a == b
  {
    if n > 0 {
      assert ByteAt(a, 0) == ByteAt(b, 0);
      hide ByteAt, Pow2;
      ByteShift(a, 0);
      ByteShift(b, 0);
      Powers();
      Pow2Add(8, 8 * (n - 1));
      forall i: nat | i < n - 1 ensures ByteAt(a / 256, i) == ByteAt(b / 256, i) {
        ByteShift(a, i);
        ByteShift(b, i);
        assert ByteAt(a, i + 1) == ByteAt(b, i + 1);
      }
      SameBytes(a / 256, b / 256, n - 1);
    } else {
      NoPower();
    }
  }

  lemma LoadIsUnique(op: LoadOp, mem: seq<M.Byte>, ea: nat, w: Word, w': Word)
    requires MeansLoad(op, mem, ea, w) && MeansLoad(op, mem, ea, w')
    ensures w == w'
  {
    hide ByteAt, Pow2;
    Powers();
    SameBytes(w, w', 8);
  }

  // ---- one step of the interpreter ----

  /** The step falls through and changes the slot at most. */
  ghost predicate SetsSlot(m: Machine, s: nat, o: Outcome<Machine>) {
    && s < |m.slots| && o.Running? && s < |o.state.slots|
    && o.state == m.(pc := m.pc + 1, slots := m.slots[s := o.state.slots[s]])
  }

  /** An arithmetic, bitwise, shift or comparison instruction. */
  lemma BinaryStep(env: Env, code: seq<Imc>, m: Machine, op: BinOp)
    requires m.pc < |code| && code[m.pc].mnemonic == Simple(Binary(op)) && code[m.pc].level + 1 < |m.slots|
    ensures var s, o := code[m.pc].level, StepSlots(env, code, m);
      if DividesByZero(op, m.slots[s + 1]) then o == Trapped(DivideByZero, m.heap)
      else SetsSlot(m, s, o) && Means(op, m.slots[s], m.slots[s + 1], o.state.slots[s])
  {
    hide Means, EvalBin;
    var s := code[m.pc].level;
    BinMeans(op, m.slots[s], m.slots[s + 1]);
    assert StepSlots(env, code, m) == Arm(env, Binary(op), s, m);
  }

  /** The least number divided by -1 is itself, where section 4.3.2 of the WebAssembly Core
      Specification 2.0 has a trap. */
  lemma LeastByMinusOne(env: Env, code: seq<Imc>, m: Machine)
    requires m.pc < |code| && code[m.pc].mnemonic == Simple(Binary(I32DivS)) && code[m.pc].level + 1 < |m.slots|
    requires m.slots[code[m.pc].level] == 0x8000_0000 && m.slots[code[m.pc].level + 1] == 0xFFFF_FFFF
    ensures StepSlots(env, code, m) == Running(m.(pc := m.pc + 1))
  {
    var s := code[m.pc].level;
    assert Quot(-0x8000_0000, -1) == 0x8000_0000;
    assert EvalBin(I32DivS, 0x8000_0000, 0xFFFF_FFFF) == Value(0x8000_0000);
    assert m.slots[s := 0x8000_0000] == m.slots;
    hide EvalBin;
    assert StepSlots(env, code, m) == Arm(env, Binary(I32DivS), s, m);
  }

  lemma UnaryStep(env: Env, code: seq<Imc>, m: Machine, op: UnOp)
    requires m.pc < |code| && code[m.pc].mnemonic == Simple(Unary(op)) && code[m.pc].level < |m.slots|
    ensures var s, o := code[m.pc].level, StepSlots(env, code, m);
      SetsSlot(m, s, o) && MeansUnary(op, m.slots[s], o.state.slots[s])
  {
    hide MeansUnary, EvalUn;
    UnMeans(op, m.slots[code[m.pc].level]);
    assert StepSlots(env, code, m) == Arm(env, Unary(op), code[m.pc].level, m);
  }

  /** What an access finds at its address, if the memory has at least the eight bytes of the
      widest access. */
  lemma ReadAt(mem: seq<M.Byte>, offset: nat, index: nat, width: nat)
    requires 1 <= width <= 8 <= |mem|
    ensures var ea := offset + index;
      M.Read(mem, offset, index, width) ==
        if ea + width <= |mem| then M.Ok(M.FromLittleEndian(mem[ea..ea + width])) else M.OutOfBounds
  {
    hide M.FromLittleEndian;
  }

  lemma LoadStep(env: Env, code: seq<Imc>, m: Machine, op: LoadOp, offset: U32)
    requires m.pc < |code| && code[m.pc].mnemonic == Simple(Load(op, offset)) && code[m.pc].level < |m.slots|
    requires |m.heap.mem| >= 8
    ensures var s, o := code[m.pc].level, StepSlots(env, code, m);
      var ea := offset + m.slots[s] % M32;
      if ea + LoadAccess(op).width <= |m.heap.mem| then
        SetsSlot(m, s, o) && MeansLoad(op, m.heap.mem, ea, o.state.slots[s])
      else o == Trapped(Trap.OutOfBounds, m.heap)
  {
    hide MeansLoad, Loaded, M.Read, M.FromLittleEndian;
    var s := code[m.pc].level;
    var ea := offset + m.slots[s] % M32;
    assert LoadWidth(op) == LoadAccess(op).width;
    ReadAt(m.heap.mem, offset, m.slots[s] % M32, LoadWidth(op));
    if ea + LoadAccess(op).width <= |m.heap.mem| { LoadMeans(op, m.heap.mem, ea); }
    assert StepSlots(env, code, m) == Arm(env, Load(op, offset), s, m);
  }

  lemma WriteAt(mem: seq<M.Byte>, offset: nat, index: nat, width: nat, v: nat)
    requires 1 <= width <= 8 <= |mem|
    ensures var ea := offset + index;
      M.Write(mem, offset, index, width, v) ==
        if ea + width <= |mem| then M.Ok(mem[..ea] + M.ToLittleEndian(v, width) + mem[ea + width..])
        else M.OutOfBounds
  {
    hide M.ToLittleEndian;
  }

  lemma StoreStep(env: Env, code: seq<Imc>, m: Machine, op: StoreOp, offset: U32)
    requires m.pc < |code| && code[m.pc].mnemonic == Simple(Store(op, offset)) && code[m.pc].level + 1 < |m.slots|
    requires |m.heap.mem| >= 8
    ensures var s, o := code[m.pc].level, StepSlots(env, code, m);
      var ea := offset + m.slots[s] % M32;
      if ea + StoredBytes(op) <= |m.heap.mem| then
        && o.Running? && o.state == m.(pc := m.pc + 1, heap := m.heap.(mem := o.state.heap.mem))
        && MeansStore(op, m.heap.mem, ea, m.slots[s + 1], o.state.heap.mem)
      else o == Trapped(Trap.OutOfBounds, m.heap)
  {
    hide MeansStore, M.Write, M.ToLittleEndian;
    var s := code[m.pc].level;
    var ea := offset + m.slots[s] % M32;
    assert StoreWidth(op) == StoredBytes(op);
    WriteAt(m.heap.mem, offset, m.slots[s] % M32, StoreWidth(op), m.slots[s + 1]);
    if ea + StoredBytes(op) <= |m.heap.mem| { StoreMeans(op, m.heap.mem, ea, m.slots[s + 1]); }
    assert StepSlots(env, code, m) == Arm(env, Store(op, offset), s, m);
  }

  /** A cell read as a result: the lower half for an i32. */
  predicate IsResult(t: ValType, w: Word, r: Word) { if t == I32 then r < M32 && Congruent(r, w, M32) else r == w }

  lemma ResultIs(t: ValType, w: Word)
    ensures IsResult(t, w, GetByType(t, w))
  {
    Reduced(w, M32);
    hide Congruent;
  }

  lemma ReturnStep(env: Env, code: seq<Imc>, m: Machine)
    requires m.pc < |code| && code[m.pc].mnemonic.ImReturn? && code[m.pc].level < |m.slots|
    ensures var o := StepSlots(env, code, m);
      && o.Returned? && o.heap == m.heap && (env.results == [] <==> o.result == [])
      && (env.results != [] ==> |o.result| == 1 && IsResult(env.results[0], m.slots[code[m.pc].level], o.result[0]))
  {
    hide GetByType, IsResult;
    if env.results != [] { ResultIs(env.results[0], m.slots[code[m.pc].level]); }
  }

  /** The size in pages; growth by a signed number of them, with the old size or -1 as the answer. */
  lemma MemoryStep(env: Env, code: seq<Imc>, m: Machine)
    requires m.pc < |code| && code[m.pc].level < |m.slots|
    requires |m.heap.mem| % 0x1_0000 == 0 && |m.heap.mem| < 0x1_0000 * M32
    ensures var s, o, old_ := code[m.pc].level, StepSlots(env, code, m), m.heap.mem;
      && (code[m.pc].mnemonic == Simple(MemorySize) ==> SetsSlot(m, s, o) && o.state.slots[s] * 0x1_0000 == |old_|)
      && (code[m.pc].mnemonic == Simple(MemoryGrow) ==>
            && o.Running? && s < |o.state.slots|
            && o.state == m.(pc := m.pc + 1, slots := m.slots[s := o.state.slots[s]], heap := o.state.heap)
            && o.state.heap == m.heap.(mem := o.state.heap.mem)
            && forall d :: Reads(m.slots[s] % M32, M32, d) ==>
                 if d >= 0 && (d == 0 || |old_| + d * 0x1_0000 <= env.memCapacity) then
                   && o.state.slots[s] * 0x1_0000 == |old_| && |o.state.heap.mem| == |old_| + d * 0x1_0000
                   && o.state.heap.mem[..|old_|] == old_
                   && forall j :: |old_| <= j < |o.state.heap.mem| ==> o.state.heap.mem[j] == 0
                 else o.state.slots[s] == 0xFFFF_FFFF && o.state.heap.mem == old_)
  {
    var s, mem := code[m.pc].level, m.heap.mem;
    Small(|mem| / 0x1_0000, M32);
    ModUnique(-1, M32, -1, 0xFFFF_FFFF);
    hide Reads;
    SignedReads();
    var x: U32 := m.slots[s] % M32;
    forall d | Reads(x, M32, d) ensures d == Signed32(x) { ReadingIsUnique(x, M32, d, Signed32(x)); }
  }

  // ---- the fused forms ----

  predicate FusesImmediate32(op: BinOp) {
    op.I32Add? || op.I32Sub? || op.I32And? || op.I32Or? || op.I32Xor? || op.I32Shl? || op.I32ShrS? || op.I32ShrU?
  }

  lemma ImmediateStep32(env: Env, code: seq<Imc>, m: Machine, op: BinOp, v: U32)
    requires m.pc < |code| && code[m.pc].mnemonic == FusedImm32(op, v) && code[m.pc].level < |m.slots|
    requires FusesImmediate32(op)
    ensures var s, o := code[m.pc].level, StepSlots(env, code, m);
      SetsSlot(m, s, o) && Means(op, m.slots[s], v, o.state.slots[s])
  {
    hide Means;
    var w := m.slots[code[m.pc].level];
    BinMeans(op, w, v);
    Small(v, M32);
    hide EvalBin, FusedArith32;
    FusedIsEval(op, w, v);
  }

  lemma FusedIsEval(op: BinOp, w: Word, v: U32)
    requires FusesImmediate32(op)
    ensures EvalBin(op, w, v) == Value(FusedArith32(op, GetI32(w), v))
  {
    hide Pow2, BitAnd, BitOr;
    Small(v, M32);
  }

  lemma ImmediateStep64(env: Env, code: seq<Imc>, m: Machine, op: BinOp, v: Word)
    requires m.pc < |code| && code[m.pc].mnemonic == FusedImm64(op, v) && code[m.pc].level < |m.slots|
    requires op.I64Add? || op.I64Sub?
    ensures var s, o := code[m.pc].level, StepSlots(env, code, m);
      SetsSlot(m, s, o) && Means(op, m.slots[s], v, o.state.slots[s])
  {
    hide Means;
    var w := m.slots[code[m.pc].level];
    BinMeans(op, w, v);
    assert EvalBin(op, w, v) == Value(FusedArith64(op, w, v));
    hide EvalBin, FusedArith64;
  }

  /** Conditional branches, plain and fused: the target is taken exactly if the condition, or the
      comparison, holds of the cells. */
  predicate Taken(mnemonic: Mnemonic, slots: seq<Word>, s: nat)
    requires s < |slots|
  {
    match mnemonic
    case ImBrIf(_) => slots[s] % M32 != 0
    case FusedBrZ32(_) => slots[s] % M32 == 0
    case FusedBrZ64(_) => slots[s] == 0
    case _ => false
  }

  lemma BranchStep(env: Env, code: seq<Imc>, m: Machine)
    requires m.pc < |code| && code[m.pc].level < |m.slots|
    requires code[m.pc].mnemonic.ImBrIf? || code[m.pc].mnemonic.FusedBrZ32? || code[m.pc].mnemonic.FusedBrZ64?
    ensures var c := code[m.pc];
      StepSlots(env, code, m)
      == Running(m.(pc := if Taken(c.mnemonic, m.slots, c.level) then c.mnemonic.target else m.pc + 1))
  {
  }

  lemma CompareBranchStep(env: Env, code: seq<Imc>, m: Machine, op: BinOp, t: nat)
    requires m.pc < |code| && code[m.pc].mnemonic == FusedBrCompare(op, t) && code[m.pc].level + 1 < |m.slots|
    requires IsCompare(op)
    ensures var s := code[m.pc].level;
      StepSlots(env, code, m)
      == Running(m.(pc := if Means(op, m.slots[s], m.slots[s + 1], 1) then t else m.pc + 1))
  {
    hide Means, EvalCompare;
    var s := code[m.pc].level;
    var a, b := m.slots[s], m.slots[s + 1];
    ComparesMean(op, a, b);
    if Means(op, a, b, 1) { MeaningIsUnique(op, a, b, 1, OfBool(EvalCompare(op, a, b))); }
  }

  // ---- one step of the stack machine ----

  /** The step goes on behind an instruction that leaves one value for its operands. */
  ghost predicate Pushes1(f: Frame, operands: nat, o: Outcome<Frame>) {
    && operands <= |f.stack| && o.Running? && |o.state.stack| == |f.stack| - operands + 1
    && o.state == f.(pc := f.pc + 1, stack := f.stack[..|f.stack| - operands] + [Last(o.state.stack)])
  }

  function Last(stack: seq<Word>): Word
    requires stack != []
  {
    stack[|stack| - 1]
  }

  lemma BinaryMeaning(env: Env, ops: seq<Op>, f: Frame, op: BinOp)
    requires f.pc < |ops| && ops[f.pc] == Instr(Binary(op)) && |f.stack| >= 2
    ensures var a, b, o := f.stack[|f.stack| - 2], f.stack[|f.stack| - 1], WasmSource.Step(env, ops, f);
      if DividesByZero(op, b) then o == Trapped(DivideByZero, f.heap)
      else Pushes1(f, 2, o) && Means(op, a, b, Last(o.state.stack))
  {
    hide Means, EvalBin;
    var n := |f.stack|;
    assert f.stack[n - 2..] == [f.stack[n - 2], f.stack[n - 1]];
    BinMeans(op, f.stack[n - 2], f.stack[n - 1]);
  }

  lemma UnaryMeaning(env: Env, ops: seq<Op>, f: Frame, op: UnOp)
    requires f.pc < |ops| && ops[f.pc] == Instr(Unary(op)) && |f.stack| >= 1
    ensures var o := WasmSource.Step(env, ops, f);
      Pushes1(f, 1, o) && MeansUnary(op, Last(f.stack), Last(o.state.stack))
  {
    hide MeansUnary, EvalUn;
    UnMeans(op, Last(f.stack));
  }

  lemma LoadMeaning(env: Env, ops: seq<Op>, f: Frame, op: LoadOp, offset: U32)
    requires f.pc < |ops| && ops[f.pc] == Instr(Load(op, offset)) && |f.stack| >= 1 && |f.heap.mem| >= 8
    ensures var o, ea := WasmSource.Step(env, ops, f), offset + Last(f.stack) % M32;
      if ea + LoadAccess(op).width <= |f.heap.mem| then
        Pushes1(f, 1, o) && MeansLoad(op, f.heap.mem, ea, Last(o.state.stack))
      else o == Trapped(Trap.OutOfBounds, f.heap)
  {
    hide MeansLoad, Loaded, M.Read, M.FromLittleEndian;
    var ea := offset + Last(f.stack) % M32;
    assert LoadWidth(op) == LoadAccess(op).width;
    ReadAt(f.heap.mem, offset, Last(f.stack) % M32, LoadWidth(op));
    if ea + LoadAccess(op).width <= |f.heap.mem| { LoadMeans(op, f.heap.mem, ea); }
  }

  lemma StoreMeaning(env: Env, ops: seq<Op>, f: Frame, op: StoreOp, offset: U32)
    requires f.pc < |ops| && ops[f.pc] == Instr(Store(op, offset)) && |f.stack| >= 2 && |f.heap.mem| >= 8
    ensures var o, ea := WasmSource.Step(env, ops, f), offset + f.stack[|f.stack| - 2] % M32;
      if ea + StoredBytes(op) <= |f.heap.mem| then
        && o.Running? && o.state.heap == f.heap.(mem := o.state.heap.mem)
        && o.state == f.(pc := f.pc + 1, stack := f.stack[..|f.stack| - 2], heap := o.state.heap)
        && MeansStore(op, f.heap.mem, ea, Last(f.stack), o.state.heap.mem)
      else o == Trapped(Trap.OutOfBounds, f.heap)
  {
    hide MeansStore, M.Write, M.ToLittleEndian;
    var n := |f.stack|;
    assert f.stack[n - 2..] == [f.stack[n - 2], f.stack[n - 1]];
    var ea := offset + f.stack[n - 2] % M32;
    assert StoreWidth(op) == StoredBytes(op);
    WriteAt(f.heap.mem, offset, f.stack[n - 2] % M32, StoreWidth(op), f.stack[n - 1]);
    if ea + StoredBytes(op) <= |f.heap.mem| { StoreMeans(op, f.heap.mem, ea, f.stack[n - 1]); }
  }
}
