/** The two percent-decoders (section 2.1 of RFC 3986): `url_decode` of src/static_file.rs, which
    also turns `+` into a space, and `url_decode` of src/security/uri_validate.rs. */
module Decoding {
  import opened Prelude
  import opened Utf8

  const PERCENT: byte := 0x25
  const PLUS: byte := 0x2B
  const SPACE: byte := 0x20

  function HexDigit(b: byte): (d: Option<nat>)
    ensures d.Some? ==> d.value < 16
  {
    if 0x30 <= b <= 0x39 then Some(b - 0x30)
    else if 0x41 <= b <= 0x46 then Some(b - 0x37)
    else if 0x61 <= b <= 0x66 then Some(b - 0x57)
    else None
  }

  /** `u8::from_str_radix` on two bytes: two digits of either case, or `+` and one digit. */
  function HexPair(a: byte, b: byte): Option<byte> {
    if HexDigit(b).None? then None
    else if a == PLUS then Some(HexDigit(b).value)
    else if HexDigit(a).None? then None
    else Some(HexDigit(a).value * 16 + HexDigit(b).value)
  }

  /** The reference: the characters of the digit `d`, in either case. */
  predicate IsDigitOf(b: byte, d: int) {
    || (0 <= d <= 9 && b == '0' as int + d)
    || (10 <= d <= 15 && (b == 'a' as int + d - 10 || b == 'A' as int + d - 10))
  }

  lemma HexDigitIff(b: byte, d: nat)
    ensures HexDigit(b) == Some(d) <==> IsDigitOf(b, d)
  {
  }

  /** Two bytes are read as the value whose digits they are, or as the digit behind a plus sign;
      everything else is refused. */
  lemma HexPairIff(a: byte, b: byte, v: byte)
    ensures HexPair(a, b) == Some(v) <==>
      (IsDigitOf(a, v / 16) && IsDigitOf(b, v % 16)) || (a == '+' as int && IsDigitOf(b, v))
  {
    HexDigitIff(a, v / 16);
    HexDigitIff(b, v % 16);
    HexDigitIff(b, v);
  }

  // ---------------------------------------------------------------- reference: tokens

  /** One byte of the decoded text and how it was spelt. */
  datatype Token = Raw(b: byte) | Escaped(b: byte)

  /** The tokens of an encoded text.  A `%` with fewer than two bytes after it is an error, or,
      when `lenient`, an ordinary byte. */
  function Tokens(s: Bytes, lenient: bool): Option<seq<Token>> {
    if s == [] then Some([])
    else if s[0] == PERCENT && |s| >= 3 then
      if HexPair(s[1], s[2]).None? then None
      else Cons(Escaped(HexPair(s[1], s[2]).value), Tokens(s[3..], lenient))
    else if s[0] == PERCENT && !lenient then None
    else Cons(Raw(s[0]), Tokens(s[1..], lenient))
  }

  function Cons(t: Token, rest: Option<seq<Token>>): Option<seq<Token>> {
    if rest.Some? then Some([t] + rest.value) else None
  }

  function Text(t: Token, plusIsSpace: bool): byte {
    if plusIsSpace && t == Raw(PLUS) then SPACE else t.b
  }

  function Render(ts: seq<Token>, plusIsSpace: bool): Bytes {
    seq(|ts|, i requires 0 <= i < |ts| => Text(ts[i], plusIsSpace))
  }

  function Checked(s: Bytes): Option<Bytes> {
    if IsUtf8(s) then Some(s) else None
  }

  /** `static_file::url_decode`. */
  function StaticDecode(s: Bytes): Option<Bytes> {
    match Tokens(s, false)
    case Some(ts) => Checked(Render(ts, true))
    case None => None
  }

  /** `uri_validate::url_decode`. */
  function ValidatorDecode(s: Bytes): Option<Bytes> {
    match Tokens(s, true)
    case Some(ts) => Checked(Render(ts, false))
    case None => None
  }

  // ---------------------------------------------------------------- the loops

  /** The tokens so far, continued by those of the rest of the input. */
  function Continue(done: seq<Token>, rest: Option<seq<Token>>): Option<seq<Token>> {
    if rest.Some? then Some(done + rest.value) else None
  }

  lemma ContinueNil(rest: Option<seq<Token>>)
    ensures Continue([], rest) == rest
  {
    if rest.Some? {
      assert [] + rest.value == rest.value;
    }
  }

  lemma ContinueStep(done: seq<Token>, t: Token, rest: Option<seq<Token>>)
    ensures Continue(done, Cons(t, rest)) == Continue(done + [t], rest)
  {
    if rest.Some? {
      assert done + ([t] + rest.value) == done + [t] + rest.value;
    }
  }

  method StaticUrlDecode(input: Bytes) returns (r: Option<Bytes>)
    ensures r == StaticDecode(input)
  {
    var out: Bytes, i := [], 0;
    ghost var done: seq<Token> := [];
    assert input[0..] == input;
    ContinueNil(Tokens(input, false));
    while i < |input|
      invariant i <= |input| && out == Render(done, true)
      invariant Tokens(input, false) == Continue(done, Tokens(input[i..], false))
    {
      ghost var rest := input[i..];
      if input[i] == PERCENT && i + 2 < |input| {
        var pair := HexPair(input[i + 1], input[i + 2]);
        if pair.None? {
          return None;
        }
        out := out + [pair.value];
        assert rest[3..] == input[i + 3..];
        ContinueStep(done, Escaped(pair.value), Tokens(input[i + 3..], false));
        done := done + [Escaped(pair.value)];
        i := i + 3;
      } else if input[i] == PERCENT {
        return None;
      } else {
        out := out + [if input[i] == PLUS then SPACE else input[i]];
        assert rest[1..] == input[i + 1..];
        ContinueStep(done, Raw(input[i]), Tokens(input[i + 1..], false));
        done := done + [Raw(input[i])];
        i := i + 1;
      }
    }
    assert done + [] == done;
    return if IsUtf8(out) then Some(out) else None;
  }

  method ValidatorUrlDecode(input: Bytes) returns (r: Option<Bytes>)
    ensures r == ValidatorDecode(input)
  {
    var out: Bytes, i := [], 0;
    ghost var done: seq<Token> := [];
    assert input[0..] == input;
    ContinueNil(Tokens(input, true));
    while i < |input|
      invariant i <= |input| && out == Render(done, false)
      invariant Tokens(input, true) == Continue(done, Tokens(input[i..], true))
    {
      ghost var rest := input[i..];
      if input[i] == PERCENT && i + 2 < |input| {
        var pair := HexPair(input[i + 1], input[i + 2]);
        if pair.None? {
          return None;
        }
        out := out + [pair.value];
        assert rest[3..] == input[i + 3..];
        ContinueStep(done, Escaped(pair.value), Tokens(input[i + 3..], true));
        done := done + [Escaped(pair.value)];
        i := i + 3;
      } else {
        out := out + [input[i]];
        assert rest[1..] == input[i + 1..];
        ContinueStep(done, Raw(input[i]), Tokens(input[i + 1..], true));
        done := done + [Raw(input[i])];
        i := i + 1;
      }
    }
    assert done + [] == done;
    return if IsUtf8(out) then Some(out) else None;
  }

  // ---------------------------------------------------------------- decoding inverts encoding

  /** `e` spells the text `s`: every byte of `s` appears as itself (unless it is `%` or `+`), as
      `+` for a space, or as `%` and a pair the number parser reads as that byte. */
  predicate Spells(e: Bytes, s: Bytes)
    decreases |s|
  {
    if s == [] then e == []
    else
      || (e != [] && e[0] == s[0] && e[0] != PERCENT && e[0] != PLUS && Spells(e[1..], s[1..]))
      || (e != [] && e[0] == PLUS && s[0] == SPACE && Spells(e[1..], s[1..]))
      || (|e| >= 3 && e[0] == PERCENT && HexPair(e[1], e[2]) == Some(s[0]) && Spells(e[3..], s[1..]))
  }

  /** A percent-encoding in the sense of RFC 3986: two hex digits of either case for at least `%`
      and `+` and for any other bytes the encoder chooses. */
  predicate Encodes(e: Bytes, s: Bytes)
    decreases |s|
  {
    if s == [] then e == []
    else
      || (e != [] && e[0] == s[0] && e[0] != PERCENT && e[0] != PLUS && Encodes(e[1..], s[1..]))
      || (|e| >= 3 && e[0] == PERCENT
          && IsDigitOf(e[1], s[0] / 16) && IsDigitOf(e[2], s[0] % 16) && Encodes(e[3..], s[1..]))
  }

  lemma {:induction false} EncodingSpells(e: Bytes, s: Bytes)
    requires Encodes(e, s)
    ensures Spells(e, s)
    decreases |s|
  {
    if s != [] {
      if e[0] == s[0] && e[0] != PERCENT {
        EncodingSpells(e[1..], s[1..]);
      } else {
        HexPairIff(e[1], e[2], s[0]);
        EncodingSpells(e[3..], s[1..]);
      }
    }
  }

  function StaticText(e: Bytes): Option<Bytes> {
    match Tokens(e, false)
    case Some(ts) => Some(Render(ts, true))
    case None => None
  }

  lemma RenderCons(t: Token, ts: seq<Token>, plusIsSpace: bool)
    ensures Render([t] + ts, plusIsSpace) == [Text(t, plusIsSpace)] + Render(ts, plusIsSpace)
  {
  }

  /** One step of the decoder: the first byte of text and the rest of the input. */
  lemma StaticTextStep(e: Bytes, t: Token, rest: Bytes)
    requires Tokens(e, false) == Cons(t, Tokens(rest, false))
    ensures StaticText(e) ==
      if StaticText(rest).Some? then Some([Text(t, true)] + StaticText(rest).value) else None
  {
    if Tokens(rest, false).Some? {
      RenderCons(t, Tokens(rest, false).value, true);
    }
  }

  lemma {:induction false} SpellingDecodes(e: Bytes, s: Bytes)
    requires Spells(e, s)
    ensures StaticText(e) == Some(s)
    decreases |s|
  {
    if s == [] {
      assert Render([], true) == [];
    } else {
      assert s == [s[0]] + s[1..];
      if e[0] == PERCENT {
        SpellingDecodes(e[3..], s[1..]);
        StaticTextStep(e, Escaped(s[0]), e[3..]);
      } else {
        SpellingDecodes(e[1..], s[1..]);
        StaticTextStep(e, Raw(e[0]), e[1..]);
      }
    }
  }

  lemma {:induction false} DecodedIsSpelt(e: Bytes)
    requires StaticText(e).Some?
    ensures Spells(e, StaticText(e).value)
    decreases |e|
  {
    if e == [] {
      assert Render([], true) == [];
    } else if e[0] == PERCENT {
      StaticTextStep(e, Escaped(HexPair(e[1], e[2]).value), e[3..]);
      DecodedIsSpelt(e[3..]);
    } else {
      StaticTextStep(e, Raw(e[0]), e[1..]);
      DecodedIsSpelt(e[1..]);
    }
  }

  /** The decoder accepts exactly the spellings of UTF-8 texts, and returns the text. */
  lemma StaticDecodeIff(e: Bytes, s: Bytes)
    ensures StaticDecode(e) == Some(s) <==> IsUtf8(s) && Spells(e, s)
  {
    if Spells(e, s) {
      SpellingDecodes(e, s);
    }
    if StaticDecode(e) == Some(s) {
      DecodedIsSpelt(e);
    }
  }

  /** Decoding inverts every percent-encoding of every UTF-8 text. */
  lemma DecodeInvertsEncode(e: Bytes, s: Bytes)
    requires IsUtf8(s) && Encodes(e, s)
    ensures StaticDecode(e) == Some(s)
  {
    EncodingSpells(e, s);
    StaticDecodeIff(e, s);
  }

  // ---------------------------------------------------------------- the decoders agree

  /** The scan over `s` reaches a `%` with fewer than two bytes after it. */
  predicate ReachesTruncated(s: Bytes) {
    if s == [] then false
    else if s[0] == PERCENT then |s| < 3 || ReachesTruncated(s[3..])
    else ReachesTruncated(s[1..])
  }

  lemma {:induction false} TokensAgree(s: Bytes)
    ensures Tokens(s, false).Some? ==> Tokens(s, true) == Tokens(s, false)
    ensures Tokens(s, true).Some? ==> (Tokens(s, false).None? <==> ReachesTruncated(s))
    decreases |s|
  {
    if s != [] {
      if s[0] == PERCENT && |s| >= 3 {
        TokensAgree(s[3..]);
      } else if s[0] != PERCENT {
        TokensAgree(s[1..]);
      }
    }
  }

  /** The two outputs are the same tokens, rendered with `+` as a space or as itself. */
  predicate SameUpToPlus(ts: seq<Token>, a: Bytes, b: Bytes) {
    a == Render(ts, true) && b == Render(ts, false)
  }

  lemma RenderingsEquallyValid(ts: seq<Token>)
    ensures IsUtf8(Render(ts, true)) <==> IsUtf8(Render(ts, false))
  {
    AsciiVariantSame(Render(ts, true), Render(ts, false));
  }

  /** Whenever the static decoder accepts, so does the validator's, with the same text up to
      unescaped `+` having become a space. */
  lemma StaticImpliesValidator(s: Bytes)
    requires StaticDecode(s).Some?
    ensures ValidatorDecode(s).Some?
    ensures exists ts ::
      Tokens(s, false) == Some(ts) && SameUpToPlus(ts, StaticDecode(s).value, ValidatorDecode(s).value)
  {
    TokensAgree(s);
    var ts := Tokens(s, false).value;
    RenderingsEquallyValid(ts);
    assert SameUpToPlus(ts, StaticDecode(s).value, ValidatorDecode(s).value);
  }

  /** What the validator's decoder lets through and the static one refuses is exactly the input
      whose scan reaches a truncated escape. */
  lemma OnlyTruncationDiffers(s: Bytes)
    requires ValidatorDecode(s).Some?
    ensures StaticDecode(s).None? <==> ReachesTruncated(s)
  {
    TokensAgree(s);
    if Tokens(s, false).Some? {
      RenderingsEquallyValid(Tokens(s, false).value);
    }
  }
}
