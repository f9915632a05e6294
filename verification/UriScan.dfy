/** The index scan of `validate_uri` for overlong and surrogate escapes
    (src/security/uri_validate.rs), and how it relates to the decoder that runs after it.

    The scan walks over bytes but slices the text, and slicing a text inside a character panics. */
module UriScan {
  import opened Prelude
  import opened Utf8
  import opened Decoding

  datatype Verdict = Clean | Overlong | Surrogate | Panic

  /** `is_char_boundary` past the first byte. */
  predicate Boundary(u: Bytes, i: nat) {
    i == |u| || (i < |u| && (u[i] < 0x80 || u[i] >= 0xC0))
  }

  /** A `%` the scan slices from: two more bytes follow it. */
  predicate PercentAt(u: Bytes, i: nat) {
    i + 2 < |u| && u[i] == PERCENT
  }

  /** The escape at `i`, read as hex digits of either case. */
  function EscapeAt(u: Bytes, i: nat): Option<byte>
    requires i + 2 < |u|
  {
    HexPair(u[i + 1], u[i + 2])
  }

  /** The escape at `i` is `%ed` with room for a second slice. */
  predicate SecondSlice(u: Bytes, i: nat) {
    PercentAt(u, i) && EscapeAt(u, i) == Some(0xED) && i + 6 < |u|
  }

  /** Every slice taken at `i` ends on a character boundary. */
  predicate SlicesFit(u: Bytes, i: nat) {
    (PercentAt(u, i) ==> Boundary(u, i + 3)) && (SecondSlice(u, i) ==> Boundary(u, i + 6))
  }

  predicate OverlongAt(u: Bytes, i: nat) {
    PercentAt(u, i) && (EscapeAt(u, i) == Some(0xC0) || EscapeAt(u, i) == Some(0xC1) || EscapeAt(u, i) == Some(0xE0))
  }

  predicate SurrogateAt(u: Bytes, i: nat) {
    && SecondSlice(u, i) && u[i + 3] == PERCENT
    && EscapeAt(u, i + 3).Some? && 0xA0 <= EscapeAt(u, i + 3).value <= 0xBF
  }

  /** What the loop body does at index `i`. */
  function At(u: Bytes, i: nat): Verdict {
    if !SlicesFit(u, i) then Panic
    else if OverlongAt(u, i) then Overlong
    else if SurrogateAt(u, i) then Surrogate
    else Clean
  }

  /** The scan gets as far as index `i`. */
  predicate Reached(u: Bytes, i: nat) {
    i < |u| && forall j :: 0 <= j < i ==> At(u, j) == Clean
  }

  /** The scan ends with `v`: at the first index where something happens, or nowhere. */
  predicate EndsWith(u: Bytes, v: Verdict) {
    if v == Clean then forall i :: 0 <= i < |u| ==> At(u, i) == Clean
    else exists i :: 0 <= i < |u| && Reached(u, i) && At(u, i) == v
  }

  /** The loop. */
  method Scan(u: Bytes) returns (v: Verdict)
    ensures EndsWith(u, v)
  {
    for i := 0 to |u|
      invariant forall j :: 0 <= j < i ==> At(u, j) == Clean
    {
      v := Clean;
      if u[i] == PERCENT && i + 2 < |u| {
        if !Boundary(u, i + 3) {
          v := Panic;
        } else {
          var escape := HexPair(u[i + 1], u[i + 2]);
          if escape == Some(0xC0) || escape == Some(0xC1) || escape == Some(0xE0) {
            v := Overlong;
          } else if escape == Some(0xED) && i + 6 < |u| {
            if !Boundary(u, i + 6) {
              v := Panic;
            } else if u[i + 3] == PERCENT {
              var next := HexPair(u[i + 4], u[i + 5]);
              if next.Some? && 0xA0 <= next.value <= 0xBF {
                v := Surrogate;
              }
            }
          }
        }
      }
      assert v == At(u, i);
      if v != Clean {
        assert Reached(u, i);
        return;
      }
    }
    v := Clean;
  }

  lemma OneEnd(u: Bytes, i: nat, j: nat)
    requires Reached(u, i) && Reached(u, j) && At(u, i) != Clean && At(u, j) != Clean
    ensures i == j
  {
  }

  /** The scan can panic on a legal text: `/%a` followed by a two-byte character. */
  lemma ScanCanPanic() returns (u: Bytes)
    ensures IsUtf8(u) && EndsWith(u, Panic)
  {
    u := [0x2F, 0x25, 0x61, 0xC3, 0xA9];
    assert IsUtf8(u[3..]) by {
      assert u[3..][2..] == [];
    }
    assert u[2..][1..] == u[3..] && u[1..][1..] == u[2..];
    assert At(u, 0) == Clean;
    assert Reached(u, 1) && At(u, 1) == Panic;
  }

  // ---------------------------------------------------------------- well-formed texts

  /** Bytes 0xC0 and 0xC1 never occur in UTF-8, and 0xED only before 0x80 to 0x9F. */
  lemma {:induction false} RareBytes(s: Bytes, p: nat)
    requires IsUtf8(s) && p < |s|
    ensures s[p] != 0xC0 && s[p] != 0xC1
    ensures s[p] == 0xED ==> p + 1 < |s| && 0x80 <= s[p + 1] <= 0x9F
    decreases |s|
  {
    var w := Width(s);
    if p >= w {
      RareBytes(s[w..], p - w);
    }
  }

  lemma StartsCharacter(s: Bytes)
    requires IsUtf8(s) && s != []
    ensures !(0x80 <= s[0] < 0xC0)
  {
  }

  /** A byte before a continuation byte is not ASCII. */
  lemma {:induction false} BeforeContinuation(s: Bytes, p: nat)
    requires IsUtf8(s) && p + 1 < |s| && 0x80 <= s[p + 1] < 0xC0
    ensures s[p] >= 0x80
    decreases |s|
  {
    var w := Width(s);
    if p + 1 >= w {
      StartsCharacter(s[w..]);
      if p >= w {
        BeforeContinuation(s[w..], p - w);
      }
    }
  }

  /** So an escape whose slice would end inside a character is not an escape. */
  lemma SplitCharIsNoHex(u: Bytes, i: nat)
    requires IsUtf8(u) && i + 2 < |u| && !Boundary(u, i + 3)
    ensures EscapeAt(u, i) == None
  {
    BeforeContinuation(u, i + 2);
  }

  // ---------------------------------------------------------------- when the scan panics

  /** An escape at `j` that the scan refuses with a status. */
  predicate RefusedAt(u: Bytes, j: nat) {
    OverlongAt(u, j) || SurrogateAt(u, j)
  }

  /** In a legal text all slices around a refused escape end on character boundaries. */
  lemma RefusedFits(u: Bytes, j: nat)
    requires IsUtf8(u) && RefusedAt(u, j)
    ensures SlicesFit(u, j) && (At(u, j) == Overlong || At(u, j) == Surrogate)
  {
    if !Boundary(u, j + 3) {
      SplitCharIsNoHex(u, j);
      assert false;
    }
    if SecondSlice(u, j) && SurrogateAt(u, j) && !Boundary(u, j + 6) {
      SplitCharIsNoHex(u, j + 3);
      assert false;
    }
  }

  /** The scan stops no later than at any index where something happens. */
  lemma {:induction false} FirstStop(u: Bytes, i: nat) returns (f: nat)
    requires i < |u| && At(u, i) != Clean
    ensures f <= i && Reached(u, f) && At(u, f) != Clean
  {
    if j :| 0 <= j < i && At(u, j) != Clean {
      f := FirstStop(u, j);
    } else {
      f := i;
    }
  }

  /** The scan of a legal text is free of panics if and only if each place where a slice would
      cut a character comes after an escape that is refused as overlong or as a surrogate half. */
  lemma PanicFreeIff(u: Bytes, v: Verdict)
    requires IsUtf8(u) && EndsWith(u, v)
    ensures v != Panic <==>
      forall i :: 0 <= i < |u| && !SlicesFit(u, i) ==> exists j :: 0 <= j < i && RefusedAt(u, j)
  {
    if v != Panic {
      forall i | 0 <= i < |u| && !SlicesFit(u, i) ensures exists j :: 0 <= j < i && RefusedAt(u, j) {
        StopsBeforeCut(u, v, i);
      }
    } else {
      var k :| 0 <= k < |u| && Reached(u, k) && At(u, k) == v;
      forall j | 0 <= j < k && RefusedAt(u, j) ensures At(u, j) != Clean {
        RefusedFits(u, j);
      }
    }
  }

  /** A scan that does not panic stops at a refused escape before any cut. */
  lemma StopsBeforeCut(u: Bytes, v: Verdict, i: nat)
    requires EndsWith(u, v) && v != Panic && i < |u| && !SlicesFit(u, i)
    ensures exists j :: 0 <= j < i && RefusedAt(u, j)
  {
    assert At(u, i) == Panic;
    var f := FirstStop(u, i);
    var k :| 0 <= k < |u| && Reached(u, k) && At(u, k) == v;
    OneEnd(u, f, k);
    assert RefusedAt(u, f);
  }

  // ---------------------------------------------------------------- decodable texts

  lemma PercentIsNoDigit(a: byte, b: byte)
    ensures a == PERCENT || b == PERCENT ==> HexPair(a, b) == None
  {
  }

  /** In a decodable text every `%` with room for an escape starts one: the tokens from there on
      are the tail of all tokens. */
  lemma {:induction false} TokensFrom(u: Bytes, i: nat) returns (n: nat)
    requires Tokens(u, true).Some? && PercentAt(u, i)
    ensures Tokens(u[i..], true).Some? && n <= |Tokens(u, true).value|
    ensures Tokens(u, true).value[n..] == Tokens(u[i..], true).value
    decreases |u|
  {
    if i == 0 {
      assert u[0..] == u;
      n := 0;
    } else {
      var w := if u[0] == PERCENT then 3 else 1;
      assert i >= w by {
        if i < w {
          PercentIsNoDigit(u[1], u[2]);
          assert false;
        }
      }
      assert u[w..][i - w..] == u[i..];
      n := TokensFrom(u[w..], i - w);
      n := n + 1;
    }
  }

  /** The bytes of the text that an escape and what follows it stand for. */
  lemma RenderedAt(u: Bytes, i: nat) returns (p: nat)
    requires ValidatorDecode(u).Some? && PercentAt(u, i)
    ensures EscapeAt(u, i).Some? && p < |ValidatorDecode(u).value|
    ensures ValidatorDecode(u).value[p] == EscapeAt(u, i).value
    ensures Tokens(u[i + 3..], true).Some?
    ensures i + 3 < |u| && u[i + 3] != PERCENT ==>
      p + 1 < |ValidatorDecode(u).value| && ValidatorDecode(u).value[p + 1] == u[i + 3]
    ensures PercentAt(u, i + 3) ==>
      && EscapeAt(u, i + 3).Some?
      && p + 1 < |ValidatorDecode(u).value| && ValidatorDecode(u).value[p + 1] == EscapeAt(u, i + 3).value
  {
    p := TokensFrom(u, i);
    var ts := Tokens(u, true).value;
    var rest := u[i..];
    assert rest[3..] == u[i + 3..];
    assert ts[p..] == [Escaped(EscapeAt(u, i).value)] + Tokens(u[i + 3..], true).value;
    assert ts[p] == ts[p..][0];
    if i + 3 < |u| && (u[i + 3] != PERCENT || PercentAt(u, i + 3)) {
      NextToken(u, i + 3);
      assert ts[p + 1] == ts[p..][1] == Tokens(u[i + 3..], true).value[0];
    }
  }

  lemma NextToken(u: Bytes, i: nat)
    requires i < |u| && Tokens(u[i..], true).Some? && (u[i] != PERCENT || PercentAt(u, i))
    ensures Tokens(u[i..], true).value != []
    ensures PercentAt(u, i) ==>
      EscapeAt(u, i).Some? && Tokens(u[i..], true).value[0] == Escaped(EscapeAt(u, i).value)
    ensures u[i] != PERCENT ==> Tokens(u[i..], true).value[0] == Raw(u[i])
  {
  }

  /** On a text that decodes, the body does nothing except refuse an escaped 0xE0. */
  lemma AtDecodable(u: Bytes, i: nat)
    requires IsUtf8(u) && ValidatorDecode(u).Some? && i < |u|
    ensures At(u, i) == if PercentAt(u, i) && EscapeAt(u, i) == Some(0xE0) then Overlong else Clean
  {
    if PercentAt(u, i) {
      var text := ValidatorDecode(u).value;
      var p := RenderedAt(u, i);
      RareBytes(text, p);
      if !Boundary(u, i + 3) {
        SplitCharIsNoHex(u, i);
        assert false;
      }
      if SecondSlice(u, i) {
        SecondSliceFits(u, i, p);
      }
    }
  }

  lemma SecondSliceFits(u: Bytes, i: nat, p: nat)
    requires IsUtf8(u) && SecondSlice(u, i) && Boundary(u, i + 3) && ValidatorDecode(u).Some?
    requires p + 1 < |ValidatorDecode(u).value| && 0x80 <= ValidatorDecode(u).value[p + 1] <= 0x9F
    requires u[i + 3] != PERCENT ==> ValidatorDecode(u).value[p + 1] == u[i + 3]
    requires u[i + 3] == PERCENT ==>
      EscapeAt(u, i + 3).Some? && ValidatorDecode(u).value[p + 1] == EscapeAt(u, i + 3).value
    ensures Boundary(u, i + 6) && !SurrogateAt(u, i)
  {
    if !Boundary(u, i + 6) {
      SplitCharIsNoHex(u, i + 3);
    }
  }

  predicate EscapedE0(u: Bytes, i: nat) {
    PercentAt(u, i) && EscapeAt(u, i) == Some(0xE0)
  }

  /** What the scan adds to the decoder: of the texts that the decoder would accept it refuses
      exactly those with an escaped 0xE0 anywhere, well-formed though they are; on all others it
      is clean.  In particular it panics only on texts that the decoder would refuse. */
  lemma ScanOnDecodable(u: Bytes, v: Verdict)
    requires IsUtf8(u) && ValidatorDecode(u).Some? && EndsWith(u, v)
    ensures v == if exists i :: 0 <= i < |u| && EscapedE0(u, i) then Overlong else Clean
  {
    forall i | 0 <= i < |u| ensures At(u, i) == if EscapedE0(u, i) then Overlong else Clean {
      AtDecodable(u, i);
    }
  }

  /** So a well-formed character is refused as overlong: U+0905, escaped as RFC 3986 has it. */
  lemma WellFormedRefused() returns (u: Bytes)
    ensures IsUtf8(u) && ValidatorDecode(u) == Some([0xE0, 0xA4, 0x85]) && EndsWith(u, Overlong)
  {
    var b: Bytes := [0x25, 0x38, 0x35];
    var a: Bytes := [0x25, 0x61, 0x34] + b;
    u := [0x25, 0x65, 0x30] + a;
    RefusedText(u, a, b);
  }

  lemma RefusedText(u: Bytes, a: Bytes, b: Bytes)
    requires u == [0x25, 0x65, 0x30] + a && a == [0x25, 0x61, 0x34] + b && b == [0x25, 0x38, 0x35]
    ensures IsUtf8(u) && ValidatorDecode(u) == Some([0xE0, 0xA4, 0x85]) && EndsWith(u, Overlong)
  {
    AsciiIsUtf8(u);
    var ts := TokensOfThree(u, a, b);
    assert Render(ts, false) == [0xE0, 0xA4, 0x85];
    ThreeBytes([0xE0, 0xA4, 0x85]);
    assert Reached(u, 0) && At(u, 0) == Overlong;
  }

  lemma ThreeBytes(s: Bytes)
    requires s == [0xE0, 0xA4, 0x85]
    ensures IsUtf8(s)
  {
    assert Width(s) == 3 && s[3..] == [];
  }

  lemma TokensOfThree(u: Bytes, a: Bytes, b: Bytes) returns (ts: seq<Token>)
    requires u == [0x25, 0x65, 0x30] + a && a == [0x25, 0x61, 0x34] + b && b == [0x25, 0x38, 0x35]
    ensures ts == [Escaped(0xE0), Escaped(0xA4), Escaped(0x85)] && Tokens(u, true) == Some(ts)
  {
    ts := [Escaped(0xE0), Escaped(0xA4), Escaped(0x85)];
    FirstEscape(b, 0x38, 0x35, []);
    FirstEscape(a, 0x61, 0x34, b);
    FirstEscape(u, 0x65, 0x30, a);
    assert [Escaped(0x85)] + [] == [Escaped(0x85)];
    assert [Escaped(0xA4)] + [Escaped(0x85)] == ts[1..];
    assert [Escaped(0xE0)] + ts[1..] == ts;
  }

  lemma FirstEscape(e: Bytes, a: byte, b: byte, rest: Bytes)
    requires e == [PERCENT, a, b] + rest && HexPair(a, b).Some?
    ensures Tokens(e, true) == Cons(Escaped(HexPair(a, b).value), Tokens(rest, true))
  {
    assert e[3..] == rest;
  }

  lemma {:induction false} AsciiIsUtf8(s: Bytes)
    requires forall i :: 0 <= i < |s| ==> s[i] < 0x80
    ensures IsUtf8(s)
    decreases |s|
  {
    if s != [] {
      AsciiIsUtf8(s[1..]);
    }
  }
}
