/** Little-endian base 128: the unrolled encoders of the archive crate, the shifting loop of
    the wasm crate, and the readers. */
module Leb128 {
  import opened Bits

  const TWO63: nat := 0x8000_0000_0000_0000
  const TWO64: nat := 0x1_0000_0000_0000_0000

  type Byte = b: nat | b < 256
  type U64 = x: nat | x < TWO64
  type I64 = x: int | -0x8000_0000_0000_0000 <= x < 0x8000_0000_0000_0000

  datatype ReadError = InvalidData | UnexpectedEof | OutOfBounds

  datatype Result<T> = Ok(value: T) | Err(error: ReadError)

  // ---- shifts ----

  function Shl(x: int, k: nat): (r: int)
    ensures x >= 0 ==> r >= 0
  {
    x * Pow2(k)
  }

  /** Logical on naturals, arithmetic below zero. */
  function Shr(x: int, k: nat): int { x / Pow2(k) }

  lemma ShlAdds(a: int, b: int, k: nat)
    ensures Shl(a + b, k) == Shl(a, k) + Shl(b, k)
  {
  }

  lemma ShlOrder(a: int, b: int, k: nat)
    requires a <= b
    ensures Shl(a, k) <= Shl(b, k)
  {
    ShlAdds(a, b - a, k);
  }

  lemma ShlOne(k: nat)
    ensures Shl(0, k) == 0 && Shl(1, k) == Pow2(k) && Shl(64, k) == Pow2(k + 6) && Shl(128, k) == Pow2(k + 7)
  {
    Pow2Add(k, 6);
    Pow2Add(k, 7);
    assert Pow2(6) == 64 && Pow2(7) == 128;
    hide Pow2;
  }

  lemma ShlSeven(q: int, k: nat)
    ensures Shl(128 * q, k) == Shl(q, k + 7)
  {
    Pow2Add(k, 7);
    assert Pow2(7) == 128;
    hide Pow2;
    assert (128 * q) * Pow2(k) == q * (128 * Pow2(k));
  }

  lemma SevenMore(k: nat)
    ensures Pow2(k + 7) == 128 * Pow2(k)
  {
    Pow2Add(k, 7);
    assert Pow2(7) == 128;
    hide Pow2;
  }

  lemma ShrSeven(v: int, k: nat)
    ensures Shr(v / 128, 7 * k) == Shr(v, 7 * (k + 1)) && Shr(v, 7 * 0) == v
  {
    SevenMore(7 * k);
    assert Pow2(7 * 0) == 1;
    hide Pow2;
    QuotientOfQuotient(v, Pow2(7 * k));
  }

  lemma QuotientOfQuotient(v: int, m: nat)
    requires m > 0
    ensures v / 128 / m == v / (128 * m)
  {
    var q, r := v / 128, v % 128;
    var q', r' := q / m, q % m;
    assert v == 128 * q + r && q == m * q' + r';
    assert 128 * (m * q') == (128 * m) * q';
    ModUnique(v, 128 * m, q', 128 * r' + r);
  }

  lemma SixtyFour()
    ensures Pow2(64) == TWO64 && Pow2(63) == TWO63
  {
    assert Pow2(8) == 256;
    assert Pow2(64) == 2 * Pow2(63);
    hide Pow2;
    Pow2Add(8, 8);
    Pow2Add(16, 16);
    Pow2Add(32, 32);
  }

  /** Powers in order. */
  lemma {:induction false} PowerOrder(m: nat, n: nat)
    requires m <= n
    ensures Pow2(m) <= Pow2(n)
    decreases n
  {
    if m < n { PowerOrder(m, n - 1); }
  }

  // ---- unsigned encoding ----

  /** Seven bits at a time, low bits first, a continuation bit on all but the last. */
  function Encode(v: nat): (s: seq<Byte>)
    ensures |s| >= 1
  {
    if v < 128 then [v] else [128 + v % 128] + Encode(v / 128)
  }

  /** The loop of the wasm crate's writer. */
  method WriteUnsignedLoop(vec: seq<Byte>, value: U64) returns (out: seq<Byte>)
    ensures out == vec + Encode(value)
  {
    out := vec;
    var v := value;
    while true
      invariant out + Encode(v) == vec + Encode(value)
      decreases v
    {
      var byte := v % 128;
      var rest := v / 128;
      if rest == 0 {
        return out + [byte];
      }
      assert Encode(v) == [128 + byte] + Encode(rest);
      out := out + [128 + byte];
      v := rest;
    }
  }

  /** `64 - leading_zeros`. */
  function BitLength(v: nat): nat { if v == 0 then 0 else 1 + BitLength(v / 2) }

  lemma {:induction false} BitLengthMeans(v: nat, n: nat)
    ensures BitLength(v) <= n <==> v < Pow2(n)
  {
    if v > 0 && n > 0 { BitLengthMeans(v / 2, n - 1); }
  }

  /** The chain of comparisons that picks the number of groups. */
  function Groups(bits: nat): nat {
    if bits <= 7 then 1 else if bits <= 14 then 2 else if bits <= 21 then 3 else if bits <= 28 then 4
    else if bits <= 35 then 5 else if bits <= 42 then 6 else if bits <= 49 then 7 else if bits <= 56 then 8
    else if bits <= 63 then 9 else 10
  }

  /** The array written for `n` groups: `(value >> 7k) | 0x80`, and `value >> 7(n - 1)` last. */
  function Unrolled(v: nat, n: nat): seq<Byte>
    requires n >= 1
  {
    seq(n, k requires 0 <= k < n => if k < n - 1 then 128 + Shr(v, 7 * k) % 128 else Shr(v, 7 * k) % 256)
  }

  lemma UnrolledTail(v: nat, n: nat)
    requires n >= 2
    ensures Unrolled(v, n) == [128 + v % 128] + Unrolled(v / 128, n - 1)
  {
    hide Shr;
    var s, t := Unrolled(v, n), [128 + v % 128] + Unrolled(v / 128, n - 1);
    forall k | 0 <= k < n ensures s[k] == t[k] {
      ShrSeven(v, if k > 0 then k - 1 else 0);
    }
  }

  lemma UnrolledOne(v: nat)
    requires v < 128
    ensures Unrolled(v, 1) == [v]
  {
    ShrSeven(v, 0);
    hide Shr;
  }

  /** With `n` groups, no fewer than needed and the top one not empty, unrolling and looping
      write the same bytes. */
  lemma {:induction false} UnrolledIsEncode(v: nat, n: nat)
    requires n >= 1 && v < Pow2(7 * n) && (n == 1 || v >= Pow2(7 * (n - 1)))
    ensures Unrolled(v, n) == Encode(v)
    decreases n
  {
    assert Pow2(7) == 128 && Pow2(7 * 0) == 1;
    hide Pow2, Unrolled;
    if n == 1 {
      UnrolledOne(v);
    } else {
      SevenMore(7 * (n - 1));
      SevenMore(7 * (n - 2));
      UnrolledTail(v, n);
      UnrolledIsEncode(v / 128, n - 1);
    }
  }

  lemma GroupsFit(v: U64)
    ensures var n := Groups(BitLength(v));
      1 <= n <= 10 && v < Pow2(7 * n) && (n == 1 || v >= Pow2(7 * (n - 1)))
  {
    hide Pow2, BitLength;
    var n := Groups(BitLength(v));
    SixtyFour();
    BitLengthMeans(v, 64);
    BitLengthMeans(v, 7 * n);
    BitLengthMeans(v, 7 * (n - 1));
  }

  // ---- reading ----

  /** The loop of `read_unsigned` from a state of its locals: the value and the position
      behind it. Shift counts are taken modulo 64. */
  function Decode(s: seq<Byte>, cursor: nat, scale: nat, value: U64): Result<(U64, nat)>
    decreases |s| - cursor
  {
    if cursor >= |s| then Err(UnexpectedEof)
    else
      var d := s[cursor];
      var value' := OrGroup(value, d, scale);
      if d < 128 then Ok((value', cursor + 1)) else Decode(s, cursor + 1, scale + 7, value')
  }

  /** Or in 64 bits. */
  function Or64(a: U64, b: U64): U64 {
    SixtyFour();
    OrBelow(a, b, 64);
    BitOr(a, b)
  }

  /** `value |= (d & 0x7F) << scale`. */
  function OrGroup(value: U64, d: Byte, scale: nat): U64 { Or64(value, Shl(d % 128, scale % 64) % TWO64) }

  lemma {:induction false} OrBelow(a: nat, b: nat, n: nat)
    ensures a < Pow2(n) && b < Pow2(n) ==> BitOr(a, b) < Pow2(n)
    decreases n
  {
    if n > 0 { OrBelow(a / 2, b / 2, n - 1); }
  }

  /** An accumulated group is added while nothing is shifted out. */
  lemma GroupAdds(value: U64, d: Byte, scale: nat)
    requires scale < 64 && value < Pow2(scale) && Shl(d % 128, scale) < TWO64
    ensures OrGroup(value, d, scale) == value + Shl(d % 128, scale)
  {
    hide BitOr, Pow2;
    OrShifted(value, d % 128, scale);
  }

  /** Moving one group from the number still to come into the number read. */
  lemma MoveGroup(value: nat, v: int, scale: nat)
    requires value < Pow2(scale)
    ensures var q, r := v / 128, v % 128;
      0 <= Shl(r, scale) && value + Shl(r, scale) < Pow2(scale + 7)
        && Shl(v, scale) == Shl(r, scale) + Shl(q, scale + 7)
  {
    hide Shl, Pow2;
    var q, r := v / 128, v % 128;
    ShlAdds(128 * q, r, scale);
    ShlSeven(q, scale);
    ShlOrder(r, 127, scale);
    ShlAdds(127, 1, scale);
    ShlOne(scale);
  }

  lemma ScaleBound(scale: nat, v: nat)
    requires v >= 1 && Shl(v, scale) < TWO64
    ensures scale < 64
  {
    hide Shl, Pow2;
    ShlOrder(1, v, scale);
    ShlOne(scale);
    SixtyFour();
    if scale >= 64 { PowerOrder(64, scale); }
  }

  lemma EncodedTail(s: seq<Byte>, cursor: nat, v: nat)
    requires v >= 128 && cursor + |Encode(v)| <= |s| && s[cursor..cursor + |Encode(v)|] == Encode(v)
    ensures |Encode(v)| == 1 + |Encode(v / 128)|
    ensures s[cursor + 1..cursor + 1 + |Encode(v / 128)|] == Encode(v / 128)
  {
    var q := v / 128;
    assert Encode(q) == Encode(v)[1..];
    assert s[cursor + 1..cursor + 1 + |Encode(q)|] == s[cursor..cursor + |Encode(v)|][1..];
  }

  lemma {:induction false} DecodeEncoded(s: seq<Byte>, cursor: nat, scale: nat, value: U64, v: nat)
    requires cursor + |Encode(v)| <= |s| && s[cursor..cursor + |Encode(v)|] == Encode(v)
    requires scale < 64 && value < Pow2(scale) && value + Shl(v, scale) < TWO64
    ensures Decode(s, cursor, scale, value) == Ok((value + Shl(v, scale), cursor + |Encode(v)|))
    decreases v
  {
    hide Pow2, OrGroup, Shl;
    var d := s[cursor];
    assert d == s[cursor..cursor + |Encode(v)|][0];
    MoveGroup(value, v, scale);
    if v < 128 {
      GroupAdds(value, d, scale);
    } else {
      GroupAdds(value, d, scale);
      ScaleBound(scale + 7, v / 128);
      EncodedTail(s, cursor, v);
      DecodeEncoded(s, cursor + 1, scale + 7, value + Shl(v % 128, scale), v / 128);
    }
  }

  /** Reading what was written, wherever it stands, gives the value and consumes exactly it. */
  lemma UnsignedRoundTrip(before: seq<Byte>, v: U64, after: seq<Byte>)
    ensures Decode(before + Encode(v) + after, |before|, 0, 0) == Ok((v, |before| + |Encode(v)|))
  {
    var s := before + Encode(v) + after;
    assert s[|before|..|before| + |Encode(v)|] == Encode(v);
    assert Pow2(0) == 1;
    DecodeEncoded(s, |before|, 0, 0, v);
  }

  lemma {:induction false} DecodeMoves(s: seq<Byte>, cursor: nat, scale: nat, value: U64)
    requires Decode(s, cursor, scale, value).Ok?
    ensures cursor < Decode(s, cursor, scale, value).value.1 <= |s|
    decreases |s| - cursor
  {
    hide OrGroup;
    if s[cursor] >= 128 { DecodeMoves(s, cursor + 1, scale + 7, OrGroup(value, s[cursor], scale)); }
  }

  /** What `k` groups can say is below 2^(7k). */
  lemma {:induction false} DecodedBelow(s: seq<Byte>, cursor: nat, scale: nat, value: U64)
    requires value < Pow2(scale) && Decode(s, cursor, scale, value).Ok?
    requires var n := Decode(s, cursor, scale, value).value.1 - cursor; scale + 7 * n <= 63
    ensures var (v, end) := Decode(s, cursor, scale, value).value; end > cursor && v < Pow2(scale + 7 * (end - cursor))
    decreases |s| - cursor
  {
    hide Pow2, OrGroup, Shl;
    DecodeMoves(s, cursor, scale, value);
    var d := s[cursor];
    if d >= 128 { DecodeMoves(s, cursor + 1, scale + 7, OrGroup(value, d, scale)); }
    PowerOrder(scale + 7, 63);
    SixtyFour();
    MoveGroup(value, d % 128, scale);
    GroupAdds(value, d, scale);
    if d >= 128 { DecodedBelow(s, cursor + 1, scale + 7, OrGroup(value, d, scale)); }
  }

  lemma {:induction false} EncodeLength(v: nat, n: nat)
    requires n >= 1
    ensures |Encode(v)| <= n <==> v < Pow2(7 * n)
    decreases n
  {
    assert Pow2(7) == 128;
    hide Pow2;
    if n > 1 {
      SevenMore(7 * (n - 1));
      if v >= 128 { EncodeLength(v / 128, n - 1); } else { PowerOrder(7, 7 * n); }
    }
  }

  /** No shorter string of bytes reads as the same value. */
  lemma EncodingIsMinimal(v: U64, s: seq<Byte>)
    requires Decode(s, 0, 0, 0) == Ok((v, |s|))
    ensures |Encode(v)| <= |s|
  {
    assert Pow2(0) == 1;
    hide Pow2;
    DecodeMoves(s, 0, 0, 0);
    if |s| <= 9 {
      DecodedBelow(s, 0, 0, 0);
      EncodeLength(v, |s|);
    } else {
      SixtyFour();
      PowerOrder(64, 70);
      EncodeLength(v, 10);
    }
  }

  // ---- signed encoding ----

  function EncodeSigned(v: int): (s: seq<Byte>)
    ensures |s| >= 1
    decreases if v < 0 then -v else v
  {
    if -64 <= v < 64 then [v % 128] else [128 + v % 128] + EncodeSigned(v / 128)
  }

  /** `64 - leading_ones` below zero, `64 - leading_zeros` otherwise. */
  function SignedBits(v: int): nat { BitLength(if v < 0 then -v - 1 else v) }

  function SignedGroups(bits: nat): nat {
    if bits < 7 then 1 else if bits < 14 then 2 else if bits < 21 then 3 else if bits < 28 then 4
    else if bits < 35 then 5 else if bits < 42 then 6 else if bits < 49 then 7 else if bits < 56 then 8
    else if bits < 63 then 9 else 10
  }

  /** As `Unrolled`, with arithmetic shifts and the last group masked to seven bits. */
  function UnrolledSigned(v: int, n: nat): seq<Byte>
    requires n >= 1
  {
    seq(n, k requires 0 <= k < n => if k < n - 1 then 128 + Shr(v, 7 * k) % 128 else Shr(v, 7 * k) % 128)
  }

  lemma UnrolledSignedTail(v: int, n: nat)
    requires n >= 2
    ensures UnrolledSigned(v, n) == [128 + v % 128] + UnrolledSigned(v / 128, n - 1)
  {
    hide Shr;
    var s, t := UnrolledSigned(v, n), [128 + v % 128] + UnrolledSigned(v / 128, n - 1);
    forall k | 0 <= k < n ensures s[k] == t[k] {
      ShrSeven(v, if k > 0 then k - 1 else 0);
    }
  }

  lemma UnrolledSignedOne(v: int)
    requires -64 <= v < 64
    ensures UnrolledSigned(v, 1) == [v % 128]
  {
    ShrSeven(v, 0);
    hide Shr;
  }

  /** `v` is a number of `n` groups with the sign. */
  predicate InGroups(v: int, n: nat)
    requires n >= 1
  {
    0 <= v + Pow2(7 * n - 1) && v < Pow2(7 * n - 1)
  }

  lemma InGroupsStep(v: int, n: nat)
    requires n >= 1
    ensures InGroups(v, 1) <==> -64 <= v < 64
    ensures n >= 2 ==> (InGroups(v, n) <==> InGroups(v / 128, n - 1))
  {
    assert Pow2(6) == 64;
    hide Pow2;
    if n >= 2 {
      SevenMore(7 * (n - 1) - 1);
      assert 7 * n - 1 == 7 * (n - 1) - 1 + 7;
    }
  }

  lemma WiderGroups(v: int, m: nat, n: nat)
    requires 1 <= m <= n
    ensures InGroups(v, m) ==> InGroups(v, n)
  {
    hide Pow2;
    PowerOrder(7 * m - 1, 7 * n - 1);
  }

  lemma {:induction false} UnrolledIsEncodeSigned(v: int, n: nat)
    requires n >= 1 && InGroups(v, n) && (n == 1 || !InGroups(v, n - 1))
    ensures UnrolledSigned(v, n) == EncodeSigned(v)
    decreases n
  {
    hide InGroups, UnrolledSigned;
    InGroupsStep(v, n);
    if n == 1 {
      UnrolledSignedOne(v);
    } else {
      UnrolledSignedTail(v, n);
      WiderGroups(v, 1, n - 1);
      InGroupsStep(v, n - 1);
      UnrolledIsEncodeSigned(v / 128, n - 1);
    }
  }

  lemma SignedBitsMean(v: int, n: nat)
    ensures SignedBits(v) <= n <==> 0 <= v + Pow2(n) && v < Pow2(n)
  {
    BitLengthMeans(if v < 0 then -v - 1 else v, n);
  }

  lemma SignedGroupsFit(v: I64)
    ensures var n := SignedGroups(SignedBits(v));
      1 <= n <= 10 && InGroups(v, n) && (n == 1 || !InGroups(v, n - 1))
  {
    hide Pow2, SignedBits;
    var n := SignedGroups(SignedBits(v));
    SixtyFour();
    SignedBitsMean(v, 63);
    SignedBitsMean(v, 7 * n - 1);
    if n > 1 { SignedBitsMean(v, 7 * (n - 1) - 1); }
  }

  // ---- reading signed numbers ----

  function AsI64(u: U64): I64 { if u < TWO63 then u else u - TWO64 }

  /** `value | 0xFFFF_FFFF_FFFF_FFC0 << scale`. */
  function Extend(value: U64, scale: nat): U64 { Or64(value, Shl(0xFFFF_FFFF_FFFF_FFC0, scale % 64) % TWO64) }

  function DecodeSigned(s: seq<Byte>, cursor: nat, scale: nat, value: U64): Result<(I64, nat)>
    decreases |s| - cursor
  {
    if cursor >= |s| then Err(UnexpectedEof)
    else
      var d := s[cursor];
      var value' := OrGroup(value, d, scale);
      if d >= 128 then DecodeSigned(s, cursor + 1, scale + 7, value')
      else if d >= 64 then Ok((AsI64(Extend(value', scale)), cursor + 1))
      else Ok((AsI64(value'), cursor + 1))
  }

  lemma OrHalves(x: nat, y: nat)
    ensures BitOr(x, y) == 2 * BitOr(x / 2, y / 2) + (if x % 2 == 1 || y % 2 == 1 then 1 else 0)
  {
    if x == 0 && y == 0 { assert BitOr(0, 0) == 0; }
  }

  lemma ShlHalf(b: int, k: nat)
    requires k > 0
    ensures Shl(b, k) == 2 * Shl(b, k - 1) && Shl(b, 0) == b
  {
    assert Pow2(0) == 1;
  }

  lemma {:induction false} OrSplit(a: nat, b: nat, c: nat, k: nat)
    requires a < Pow2(k)
    ensures BitOr(a + Shl(b, k), Shl(c, k)) == a + Shl(BitOr(b, c), k)
  {
    hide BitOr, Shl;
    ShlHalf(b, if k > 0 then k else 1);
    ShlHalf(c, if k > 0 then k else 1);
    ShlHalf(BitOr(b, c), if k > 0 then k else 1);
    if k > 0 {
      OrSplit(a / 2, b, c, k - 1);
      OrHalves(a + Shl(b, k), Shl(c, k));
    }
  }

  lemma OrOnes(j: nat)
    requires j >= 1
    ensures BitOr(1, Pow2(j) - 1) == Pow2(j) - 1
  {
    assert Pow2(j) == 2 * Pow2(j - 1);
    hide BitOr, Pow2;
    OrHalves(1, Pow2(j) - 1);
    OrZero(Pow2(j - 1) - 1);
  }

  lemma TopBits(k: nat)
    requires 1 <= k <= 63
    ensures Shl(Pow2(64 - k) - 1, k) == TWO64 - Pow2(k) && Shl(1, k) == Pow2(k)
    ensures BitOr(1, Pow2(64 - k) - 1) == Pow2(64 - k) - 1
  {
    hide Pow2, BitOr, Shl;
    SixtyFour();
    OrOnes(64 - k);
    ShlPower(64 - k, k);
    ShlAdds(Pow2(64 - k) - 1, 1, k);
    ShlOne(k);
  }

  lemma ShlPower(j: nat, k: nat)
    ensures Shl(Pow2(j), k) == Pow2(j + k)
  {
    Pow2Add(j, k);
    hide Pow2;
  }

  lemma SignMask(scale: nat)
    requires scale <= 57
    ensures Pow2(scale + 6) <= TWO63 && Shl(0xFFFF_FFFF_FFFF_FFC0, scale) % TWO64 == TWO64 - Pow2(scale + 6)
  {
    hide Pow2;
    SixtyFour();
    PowerOrder(scale + 6, 63);
    ShlOne(scale);
    var m := Pow2(scale);
    assert 0xFFFF_FFFF_FFFF_FFC0 * m == TWO64 * (m - 1) + (TWO64 - 64 * m);
    ModUnique(0xFFFF_FFFF_FFFF_FFC0 * m, TWO64, m - 1, TWO64 - 64 * m);
  }

  lemma ExtendIs(value: U64, scale: nat)
    requires scale <= 57
    ensures Pow2(scale + 6) <= TWO63 && Extend(value, scale) == BitOr(value, TWO64 - Pow2(scale + 6))
  {
    hide BitOr, Pow2, Shl;
    SignMask(scale);
  }

  /** Extending the sign of a last group that is not the tenth. */
  lemma ExtendMeans(low: nat, scale: nat)
    requires scale <= 57 && low < Pow2(scale + 6)
    ensures low + Pow2(scale + 6) < TWO64
    ensures Extend(low + Pow2(scale + 6), scale) == low + TWO64 - Pow2(scale + 6)
  {
    hide Pow2, BitOr, Extend, Shl;
    var k := scale + 6;
    SignMask(scale);
    TopBits(k);
    ExtendIs(low + Pow2(k), scale);
    OrSplit(low, 1, Pow2(64 - k) - 1, k);
  }

  /** The last group below the tenth: what it completes is the signed sum. */
  lemma LastGroup(value: U64, v: int, scale: nat)
    requires scale <= 57 && value < Pow2(scale) && -64 <= v < 64
    ensures var value' := OrGroup(value, v % 128, scale);
      AsI64(if v % 128 >= 64 then Extend(value', scale) else value') == value + Shl(v, scale)
  {
    hide Pow2, OrGroup, Extend, Shl;
    SignMask(scale);
    ShlOne(scale);
    ShlAdds(63, 1, scale);
    ShlAdds(64, 64, scale);
    if v >= 0 {
      ShlOrder(v, 63, scale);
      GroupAdds(value, v, scale);
    } else {
      var low := value + Shl(v + 64, scale);
      ShlOrder(0, v + 64, scale);
      ShlOrder(v + 64, 63, scale);
      ShlAdds(v, 64, scale);
      ShlAdds(v + 64, 64, scale);
      GroupAdds(value, v % 128, scale);
      ExtendMeans(low, scale);
    }
  }

  /** The tenth group holds the sign alone. */
  lemma TenthGroup(value: U64, v: int)
    requires value < TWO63 && -1 <= v <= 0
    ensures var value' := OrGroup(value, v % 128, 63);
      AsI64(if v % 128 >= 64 then Extend(value', 63) else value') == value + Shl(v, 63)
  {
    hide BitOr, Pow2;
    SixtyFour();
    OrZero(value);
    OrShifted(value, 1, 63);
    OrZero(value + TWO63);
    assert Shl(127, 63) % TWO64 == TWO63 && Shl(0, 63) == 0 && Shl(-1, 63) + TWO63 == 0;
    assert Shl(0xFFFF_FFFF_FFFF_FFC0, 63) % TWO64 == 0;
    hide Shl;
  }

  /** A group that is followed by another leaves room for it. */
  lemma SignedScaleBound(value: nat, v: int, scale: nat)
    requires value < Pow2(scale) && !(-64 <= v < 64) && -0x8000_0000_0000_0000 <= value + Shl(v, scale) < TWO63
    ensures scale <= 56
  {
    hide Shl, Pow2;
    ShlOne(scale);
    SixtyFour();
    if v >= 64 {
      ShlOrder(64, v, scale);
    } else {
      ShlOrder(v, -65, scale);
      ShlAdds(-65, 1, scale);
      ShlAdds(-64, 64, scale);
    }
    if scale > 56 { PowerOrder(63, scale + 6); }
  }

  lemma EncodedSignedTail(s: seq<Byte>, cursor: nat, v: int)
    requires !(-64 <= v < 64)
    requires cursor + |EncodeSigned(v)| <= |s| && s[cursor..cursor + |EncodeSigned(v)|] == EncodeSigned(v)
    ensures |EncodeSigned(v)| == 1 + |EncodeSigned(v / 128)|
    ensures s[cursor + 1..cursor + 1 + |EncodeSigned(v / 128)|] == EncodeSigned(v / 128)
  {
    var q := v / 128;
    assert EncodeSigned(q) == EncodeSigned(v)[1..];
    assert s[cursor + 1..cursor + 1 + |EncodeSigned(q)|] == s[cursor..cursor + |EncodeSigned(v)|][1..];
  }

  lemma TenthIsSign(value: nat, v: int)
    requires value < TWO63 && -0x8000_0000_0000_0000 <= value + Shl(v, 63) < TWO63
    ensures -1 <= v <= 0
  {
    SixtyFour();
    hide Pow2;
    assert Shl(v, 63) == v * TWO63;
    hide Shl;
  }

  lemma {:induction false} DecodeEncodedSigned(s: seq<Byte>, cursor: nat, scale: nat, value: U64, v: int)
    requires cursor + |EncodeSigned(v)| <= |s| && s[cursor..cursor + |EncodeSigned(v)|] == EncodeSigned(v)
    requires scale <= 63 && scale % 7 == 0 && value < Pow2(scale)
    requires -0x8000_0000_0000_0000 <= value + Shl(v, scale) < TWO63
    ensures DecodeSigned(s, cursor, scale, value) == Ok((value + Shl(v, scale), cursor + |EncodeSigned(v)|))
    decreases if v < 0 then -v else v
  {
    hide Pow2, OrGroup, Extend, Shl;
    var d := s[cursor];
    assert d == s[cursor..cursor + |EncodeSigned(v)|][0];
    if -64 <= v < 64 {
      if scale == 63 {
        SixtyFour();
        TenthIsSign(value, v);
        TenthGroup(value, v);
      } else {
        LastGroup(value, v, scale);
      }
    } else {
      SignedScaleBound(value, v, scale);
      MoveGroup(value, v, scale);
      SixtyFour();
      PowerOrder(scale + 7, 63);
      GroupAdds(value, d, scale);
      EncodedSignedTail(s, cursor, v);
      DecodeEncodedSigned(s, cursor + 1, scale + 7, value + Shl(v % 128, scale), v / 128);
    }
  }

  lemma SignedRoundTrip(before: seq<Byte>, v: I64, after: seq<Byte>)
    ensures DecodeSigned(before + EncodeSigned(v) + after, |before|, 0, 0) == Ok((v, |before| + |EncodeSigned(v)|))
  {
    var s := before + EncodeSigned(v) + after;
    assert s[|before|..|before| + |EncodeSigned(v)|] == EncodeSigned(v);
    assert Pow2(0) == 1;
    DecodeEncodedSigned(s, |before|, 0, 0, v);
  }

  lemma {:induction false} DecodeSignedMoves(s: seq<Byte>, cursor: nat, scale: nat, value: U64)
    requires DecodeSigned(s, cursor, scale, value).Ok?
    ensures cursor < DecodeSigned(s, cursor, scale, value).value.1 <= |s|
    decreases |s| - cursor
  {
    hide OrGroup, Extend;
    if s[cursor] >= 128 { DecodeSignedMoves(s, cursor + 1, scale + 7, OrGroup(value, s[cursor], scale)); }
  }

  /** A last group of seven bits with the sign lies within the next power. */
  lemma LastInRange(value: nat, v: int, scale: nat)
    requires value < Pow2(scale) && -64 <= v < 64
    ensures 0 <= value + Shl(v, scale) + Pow2(scale + 6) && value + Shl(v, scale) < Pow2(scale + 6)
  {
    hide Pow2, Shl;
    ShlOne(scale);
    ShlOrder(v, 63, scale);
    ShlAdds(63, 1, scale);
    ShlOrder(-64, v, scale);
    ShlAdds(-64, 64, scale);
  }

  /** What `k` groups can say with the sign. */
  lemma {:induction false} DecodedSignedIn(s: seq<Byte>, cursor: nat, scale: nat, value: U64)
    requires value < Pow2(scale) && DecodeSigned(s, cursor, scale, value).Ok?
    requires var n := DecodeSigned(s, cursor, scale, value).value.1 - cursor; scale + 7 * n <= 63
    ensures var (v, end) := DecodeSigned(s, cursor, scale, value).value;
      end > cursor && var m := Pow2(scale + 7 * (end - cursor) - 1); 0 <= v + m && v < m
    decreases |s| - cursor
  {
    hide Pow2, OrGroup, Shl, Extend;
    DecodeSignedMoves(s, cursor, scale, value);
    var d := s[cursor];
    if d >= 128 {
      DecodeSignedMoves(s, cursor + 1, scale + 7, OrGroup(value, d, scale));
      PowerOrder(scale + 7, 63);
      SixtyFour();
      MoveGroup(value, d % 128, scale);
      GroupAdds(value, d, scale);
      DecodedSignedIn(s, cursor + 1, scale + 7, OrGroup(value, d, scale));
    } else {
      var v: int := d;
      if d >= 64 { v := v - 128; }
      LastGroup(value, v, scale);
      LastInRange(value, v, scale);
    }
  }

  lemma {:induction false} EncodeSignedLength(v: int, n: nat)
    requires n >= 1
    ensures |EncodeSigned(v)| <= n <==> InGroups(v, n)
    decreases n
  {
    hide InGroups;
    InGroupsStep(v, n);
    if n > 1 {
      if -64 <= v < 64 { WiderGroups(v, 1, n); } else { EncodeSignedLength(v / 128, n - 1); }
    }
  }

  lemma ShortSigned(v: I64, s: seq<Byte>)
    requires DecodeSigned(s, 0, 0, 0) == Ok((v, |s|)) && 0 < |s| <= 9
    ensures InGroups(v, |s|)
  {
    assert Pow2(0) == 1;
    hide Pow2, DecodeSigned;
    DecodedSignedIn(s, 0, 0, 0);
  }

  /** No shorter string of bytes reads as the same signed value. */
  lemma SignedEncodingIsMinimal(v: I64, s: seq<Byte>)
    requires DecodeSigned(s, 0, 0, 0) == Ok((v, |s|))
    ensures |EncodeSigned(v)| <= |s|
  {
    hide Pow2, DecodeSigned, EncodeSigned;
    DecodeSignedMoves(s, 0, 0, 0);
    if |s| <= 9 {
      ShortSigned(v, s);
      EncodeSignedLength(v, |s|);
    } else {
      SixtyFour();
      PowerOrder(63, 69);
      EncodeSignedLength(v, 10);
    }
  }
}
