/** UTF-8, which the names in an archive are in. */
module Utf8Text {
  import opened Leb128

  type Bytes = seq<Byte>

  /** Well-formed UTF-8, as table 3-7 of the Unicode Standard lists it. */
  predicate Utf8(b: Bytes)
    decreases |b|
  {
    if b == [] then true
    else if b[0] < 0x80 then Utf8(b[1..])
    else if 0xC2 <= b[0] <= 0xDF then |b| >= 2 && Trail(b[1]) && Utf8(b[2..])
    else if 0xE0 <= b[0] <= 0xEF then
      && |b| >= 3 && Trail(b[1]) && Trail(b[2]) && Utf8(b[3..])
      && (b[0] == 0xE0 ==> b[1] >= 0xA0) && (b[0] == 0xED ==> b[1] < 0xA0)
    else if 0xF0 <= b[0] <= 0xF4 then
      && |b| >= 4 && Trail(b[1]) && Trail(b[2]) && Trail(b[3]) && Utf8(b[4..])
      && (b[0] == 0xF0 ==> b[1] >= 0x90) && (b[0] == 0xF4 ==> b[1] < 0x90)
    else false
  }

  predicate Trail(b: Byte) { 0x80 <= b < 0xC0 }

  // ---- what is well formed ----

  /** Unicode scalar values: all code points but the surrogates. */
  predicate Scalar(c: nat) { c < 0xD800 || 0xE000 <= c < 0x11_0000 }

  function EncodeScalar(c: nat): Bytes
    requires Scalar(c)
  {
    if c < 0x80 then [c]
    else if c < 0x800 then [0xC0 + c / 64, 0x80 + c % 64]
    else if c < 0x1_0000 then [0xE0 + c / 4096, 0x80 + c / 64 % 64, 0x80 + c % 64]
    else [0xF0 + c / 262144, 0x80 + c / 4096 % 64, 0x80 + c / 64 % 64, 0x80 + c % 64]
  }

  predicate Text(cs: seq<nat>) { forall i :: 0 <= i < |cs| ==> Scalar(cs[i]) }

  function EncodeText(cs: seq<nat>): Bytes
    requires Text(cs)
  {
    if cs == [] then [] else EncodeScalar(cs[0]) + EncodeText(cs[1..])
  }

  lemma ScalarIsUtf8(c: nat, rest: Bytes)
    requires Scalar(c) && Utf8(rest)
    ensures Utf8(EncodeScalar(c) + rest)
  {
    var e := EncodeScalar(c);
    var b := e + rest;
    assert b[|e|..] == rest;
    if c < 0x800 {
      assert c >= 0x80 ==> b[0] == e[0] && b[1] == e[1];
    } else if c < 0x1_0000 {
      assert b[0] == e[0] && b[1] == e[1] && b[2] == e[2];
    } else {
      assert b[0] == e[0] && b[1] == e[1] && b[2] == e[2] && b[3] == e[3];
    }
  }

  lemma Digit(c: nat, p: nat, q: nat)
    requires c == 64 * p + q && q < 64
    ensures c / 64 == p && c % 64 == q
  {
  }

  lemma Larger(c: nat)
    ensures c / 4096 == c / 64 / 64 && c / 262144 == c / 4096 / 64
  {
  }

  lemma Digits(p: nat, q: nat, r: nat, s: nat)
    requires q < 64 && r < 64 && s < 64
    ensures var c := 262144 * p + 4096 * q + 64 * r + s;
      c % 64 == s && c / 64 % 64 == r && c / 4096 % 64 == q && c / 262144 == p
  {
    var c := 262144 * p + 4096 * q + 64 * r + s;
    Digit(c, 4096 * p + 64 * q + r, s);
    Digit(c / 64, 64 * p + q, r);
    Larger(c);
    Digit(c / 4096, p, q);
  }

  lemma Two(b: Bytes) returns (c: nat)
    requires Utf8(b) && b != [] && 0x80 <= b[0] <= 0xDF
    ensures Scalar(c) && |b| >= 2 && EncodeScalar(c) == [b[0], b[1]] && Utf8(b[2..])
  {
    var p: nat, q: nat := b[0] - 0xC0, b[1] - 0x80;
    c := 64 * p + q;
    Digit(c, p, q);
  }

  lemma Three(b: Bytes) returns (c: nat)
    requires Utf8(b) && b != [] && 0xE0 <= b[0] <= 0xEF
    ensures Scalar(c) && |b| >= 3 && EncodeScalar(c) == [b[0], b[1], b[2]] && Utf8(b[3..])
  {
    var p: nat, q: nat, r: nat := b[0] - 0xE0, b[1] - 0x80, b[2] - 0x80;
    c := 4096 * p + 64 * q + r;
    Digit(c, 64 * p + q, r);
    Larger(c);
    Digit(c / 64, p, q);
  }

  lemma Four(b: Bytes) returns (c: nat)
    requires Utf8(b) && b != [] && 0xF0 <= b[0]
    ensures Scalar(c) && |b| >= 4 && EncodeScalar(c) == [b[0], b[1], b[2], b[3]] && Utf8(b[4..])
  {
    var p: nat, q: nat, r: nat, s: nat := b[0] - 0xF0, b[1] - 0x80, b[2] - 0x80, b[3] - 0x80;
    c := 262144 * p + 4096 * q + 64 * r + s;
    Digits(p, q, r, s);
  }

  /** The first scalar value of a well-formed string. */
  lemma FirstScalar(b: Bytes) returns (c: nat)
    requires Utf8(b) && b != []
    ensures Scalar(c) && |EncodeScalar(c)| <= |b| && b[..|EncodeScalar(c)|] == EncodeScalar(c)
    ensures Utf8(b[|EncodeScalar(c)|..])
  {
    if b[0] < 0x80 {
      c := b[0];
    } else {
      hide EncodeScalar;
      if b[0] <= 0xDF {
        c := Two(b);
      } else if b[0] <= 0xEF {
        c := Three(b);
      } else {
        c := Four(b);
      }
    }
  }

  lemma {:induction false} TextIsUtf8(cs: seq<nat>)
    requires Text(cs)
    ensures Utf8(EncodeText(cs))
  {
    if cs != [] {
      TextIsUtf8(cs[1..]);
      ScalarIsUtf8(cs[0], EncodeText(cs[1..]));
    }
  }

  lemma {:induction false} Utf8IsText(b: Bytes) returns (cs: seq<nat>)
    requires Utf8(b)
    ensures Text(cs) && EncodeText(cs) == b
    decreases |b|
  {
    hide Utf8, EncodeScalar;
    cs := [];
    if b != [] {
      var c := FirstScalar(b);
      ScalarIsSome(c);
      var rest := Utf8IsText(b[|EncodeScalar(c)|..]);
      cs := [c] + rest;
      assert cs[1..] == rest;
    }
  }

  lemma ScalarIsSome(c: nat)
    requires Scalar(c)
    ensures EncodeScalar(c) != []
  {
  }

  /** Bytes are well formed exactly if they encode some sequence of scalar values. */
  lemma Utf8Exactly(b: Bytes)
    ensures Utf8(b) <==> exists cs :: Text(cs) && EncodeText(cs) == b
  {
    hide Utf8, EncodeText;
    if Utf8(b) { var cs := Utf8IsText(b); }
    forall cs | Text(cs) && EncodeText(cs) == b ensures Utf8(b) { TextIsUtf8(cs); }
  }
}
