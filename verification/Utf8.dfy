/** UTF-8 as `String::from_utf8` accepts it (section 3.9 of the Unicode Standard, table 3-7). */
module Utf8 {

  type byte = x: int | 0 <= x < 256
  type Bytes = seq<byte>

  predicate Tail(s: Bytes, i: nat, lo: int, hi: int) {
    i < |s| && lo <= s[i] <= hi
  }

  /** The length of the well-formed character a sequence starts with, or 0. */
  function Width(s: Bytes): (w: nat)
    ensures w <= |s| && w <= 4
  {
    if s == [] then 0
    else if s[0] < 0x80 then 1
    else if 0xC2 <= s[0] <= 0xDF && Tail(s, 1, 0x80, 0xBF) then 2
    else if 0xE0 <= s[0] <= 0xEF
      && Tail(s, 1, if s[0] == 0xE0 then 0xA0 else 0x80, if s[0] == 0xED then 0x9F else 0xBF)
      && Tail(s, 2, 0x80, 0xBF) then 3
    else if 0xF0 <= s[0] <= 0xF4
      && Tail(s, 1, if s[0] == 0xF0 then 0x90 else 0x80, if s[0] == 0xF4 then 0x8F else 0xBF)
      && Tail(s, 2, 0x80, 0xBF) && Tail(s, 3, 0x80, 0xBF) then 4
    else 0
  }

  predicate IsUtf8(s: Bytes)
    decreases |s|
  {
    s == [] || (Width(s) > 0 && IsUtf8(s[Width(s)..]))
  }

  function Above(b: byte, base: int): int {
    b - base
  }

  /** The first character of a well-formed sequence. */
  function FirstChar(s: Bytes): nat
    requires Width(s) > 0
  {
    match Width(s)
    case 1 => s[0]
    case 2 => Above(s[0], 0xC0) * 0x40 + Above(s[1], 0x80)
    case 3 => Above(s[0], 0xE0) * 0x1000 + Above(s[1], 0x80) * 0x40 + Above(s[2], 0x80)
    case _ => Above(s[0], 0xF0) * 0x40000 + Above(s[1], 0x80) * 0x1000 + Above(s[2], 0x80) * 0x40 + Above(s[3], 0x80)
  }

  /** The characters of a well-formed sequence. */
  function Chars(s: Bytes): seq<nat>
    requires IsUtf8(s)
    decreases |s|
  {
    if s == [] then [] else [FirstChar(s)] + Chars(s[Width(s)..])
  }

  /** The sequences differ only in ASCII positions. */
  predicate AsciiVariant(a: Bytes, b: Bytes) {
    |a| == |b| && forall i :: 0 <= i < |a| ==> a[i] == b[i] || (a[i] < 0x80 && b[i] < 0x80)
  }

  /** Exchanging ASCII bytes for other ASCII bytes preserves well-formedness, and breaks none. */
  lemma {:induction false} AsciiVariantSame(a: Bytes, b: Bytes)
    requires AsciiVariant(a, b)
    ensures IsUtf8(a) <==> IsUtf8(b)
    decreases |a|
  {
    if a != [] {
      assert Width(a) == Width(b);
      if Width(a) > 0 {
        AsciiVariantSame(a[Width(a)..], b[Width(b)..]);
      }
    }
  }

  // ---------------------------------------------------------------- encoding

  /** A Unicode scalar value: a code point that is not a surrogate. */
  predicate Scalar(c: nat) {
    c < 0xD800 || 0xE000 <= c < 0x110000
  }

  /** The UTF-8 form of a scalar value. */
  function EncodeChar(c: nat): Bytes
    requires Scalar(c)
  {
    if c < 0x80 then [c]
    else if c < 0x800 then [0xC0 + c / 0x40, 0x80 + c % 0x40]
    else if c < 0x10000 then [0xE0 + c / 0x1000, 0x80 + c / 0x40 % 0x40, 0x80 + c % 0x40]
    else [0xF0 + c / 0x40000, 0x80 + c / 0x1000 % 0x40, 0x80 + c / 0x40 % 0x40, 0x80 + c % 0x40]
  }

  function Encode(cs: seq<nat>): Bytes
    requires AllScalar(cs)
  {
    if cs == [] then [] else EncodeChar(cs[0]) + Encode(cs[1..])
  }

  /** The last digit in base 0x40, and what is left without it. */
  lemma Digit(q: nat, d: nat)
    requires d < 0x40
    ensures (q * 0x40 + d) / 0x40 == q && (q * 0x40 + d) % 0x40 == d
  {
  }

  lemma DivideTwice(x: nat)
    ensures x / 0x1000 == x / 0x40 / 0x40
  {
  }

  lemma DivideThrice(x: nat)
    ensures x / 0x40000 == x / 0x1000 / 0x40
  {
  }

  lemma ThreeDigits(a: nat, b: nat, c: nat, x: nat)
    requires b < 0x40 && c < 0x40 && x == a * 0x1000 + b * 0x40 + c
    ensures x / 0x1000 == a && x / 0x40 % 0x40 == b && x % 0x40 == c && x / 0x40 == a * 0x40 + b
  {
    assert x == (a * 0x40 + b) * 0x40 + c;
    Digit(a * 0x40 + b, c);
    Digit(a, b);
    DivideTwice(x);
  }

  lemma FourDigits(a: nat, b: nat, c: nat, d: nat, x: nat)
    requires b < 0x40 && c < 0x40 && d < 0x40 && x == a * 0x40000 + b * 0x1000 + c * 0x40 + d
    ensures x / 0x40000 == a && x / 0x1000 % 0x40 == b && x / 0x40 % 0x40 == c && x % 0x40 == d
  {
    ThreeDigits(a * 0x40 + b, c, d, x);
    Digit(a, b);
    DivideThrice(x);
  }

  /** The first character of a well-formed sequence is a scalar value with those bytes. */
  lemma FirstCharEncodes(s: Bytes)
    requires Width(s) > 0
    ensures Scalar(FirstChar(s)) && EncodeChar(FirstChar(s)) == s[..Width(s)]
  {
    if Width(s) <= 2 {
      FirstOfTwo(s);
    } else if Width(s) == 3 {
      FirstOfThree(s);
    } else {
      FirstOfFour(s);
    }
  }

  lemma FirstOfTwo(s: Bytes)
    requires 0 < Width(s) <= 2
    ensures Scalar(FirstChar(s)) && EncodeChar(FirstChar(s)) == s[..Width(s)]
  {
    if Width(s) == 2 {
      Digit(s[0] - 0xC0, s[1] - 0x80);
    }
  }

  lemma FirstOfThree(s: Bytes)
    requires Width(s) == 3
    ensures Scalar(FirstChar(s)) && EncodeChar(FirstChar(s)) == s[..3]
  {
    var a: nat, b: nat, c: nat := s[0] - 0xE0, s[1] - 0x80, s[2] - 0x80;
    assert FirstChar(s) == a * 0x1000 + b * 0x40 + c;
    ThreeDigits(a, b, c, FirstChar(s));
    assert 0x800 <= FirstChar(s) < 0x10000;
  }

  lemma FirstOfFour(s: Bytes)
    requires Width(s) == 4
    ensures Scalar(FirstChar(s)) && EncodeChar(FirstChar(s)) == s[..4]
  {
    var a: nat, b: nat, c: nat, d: nat := s[0] - 0xF0, s[1] - 0x80, s[2] - 0x80, s[3] - 0x80;
    assert FirstChar(s) == a * 0x40000 + b * 0x1000 + c * 0x40 + d;
    FourDigits(a, b, c, d, FirstChar(s));
    assert 0x10000 <= FirstChar(s) < 0x110000;
  }

  /** The bytes of a scalar value are one well-formed character, whatever follows them. */
  lemma EncodedIsFirst(c: nat, rest: Bytes)
    requires Scalar(c)
    ensures Width(EncodeChar(c) + rest) == |EncodeChar(c)| && FirstChar(EncodeChar(c) + rest) == c
  {
    var s := EncodeChar(c) + rest;
    if c < 0x800 {
      assert Width(s) == |EncodeChar(c)|;
    } else if c < 0x10000 {
      ThreeIsFirst(c, s);
    } else {
      FourIsFirst(c, s);
    }
  }

  lemma ThreeIsFirst(c: nat, s: Bytes)
    requires Scalar(c) && 0x800 <= c < 0x10000 && |s| >= 3 && s[..3] == EncodeChar(c)
    ensures Width(s) == 3 && FirstChar(s) == c
  {
    assert s[0] == s[..3][0] && s[1] == s[..3][1] && s[2] == s[..3][2];
    assert s[0] == 0xE0 + c / 0x1000 && s[1] == 0x80 + c / 0x40 % 0x40 && s[2] == 0x80 + c % 0x40;
    assert c == c / 0x1000 * 0x1000 + c / 0x40 % 0x40 * 0x40 + c % 0x40;
  }

  lemma FourIsFirst(c: nat, s: Bytes)
    requires Scalar(c) && c >= 0x10000 && |s| >= 4 && s[..4] == EncodeChar(c)
    ensures Width(s) == 4 && FirstChar(s) == c
  {
    assert s[0] == s[..4][0] && s[1] == s[..4][1] && s[2] == s[..4][2] && s[3] == s[..4][3];
    assert s[0] == 0xF0 + c / 0x40000 && s[1] == 0x80 + c / 0x1000 % 0x40;
    assert s[2] == 0x80 + c / 0x40 % 0x40 && s[3] == 0x80 + c % 0x40;
    FourParts(c);
  }

  lemma FourParts(c: nat)
    ensures c == c / 0x40000 * 0x40000 + c / 0x1000 % 0x40 * 0x1000 + c / 0x40 % 0x40 * 0x40 + c % 0x40
  {
    DivideTwice(c);
    DivideThrice(c);
  }

  predicate AllScalar(cs: seq<nat>) {
    forall i :: 0 <= i < |cs| ==> Scalar(cs[i])
  }

  lemma EncodeCons(c: nat, cs: seq<nat>)
    requires Scalar(c) && AllScalar(cs)
    ensures AllScalar([c] + cs) && Encode([c] + cs) == EncodeChar(c) + Encode(cs)
  {
    assert ([c] + cs)[1..] == cs;
  }

  lemma Rejoin(s: Bytes, w: nat, c: nat, cs: seq<nat>)
    requires w <= |s| && Scalar(c) && EncodeChar(c) == s[..w] && AllScalar(cs) && Encode(cs) == s[w..]
    ensures AllScalar([c] + cs) && Encode([c] + cs) == s
  {
    EncodeCons(c, cs);
    assert s == s[..w] + s[w..];
  }

  /** Encoding inverts the reading of characters, so a text is determined by its characters. */
  lemma {:induction false} EncodeInvertsChars(s: Bytes)
    requires IsUtf8(s)
    ensures AllScalar(Chars(s)) && Encode(Chars(s)) == s
    decreases |s|
  {
    if s != [] {
      FirstCharEncodes(s);
      EncodeInvertsChars(s[Width(s)..]);
      Rejoin(s, Width(s), FirstChar(s), Chars(s[Width(s)..]));
    }
  }

  /** And reading inverts encoding, for every sequence of scalar values. */
  lemma {:induction false} CharsInvertEncode(cs: seq<nat>)
    requires AllScalar(cs)
    ensures IsUtf8(Encode(cs)) && Chars(Encode(cs)) == cs
    decreases |cs|
  {
    if cs != [] {
      CharsInvertEncode(cs[1..]);
      EncodedIsFirst(cs[0], Encode(cs[1..]));
      var s := Encode(cs);
      assert s[Width(s)..] == Encode(cs[1..]);
    }
  }
}
