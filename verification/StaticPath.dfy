/** From a request path to the relative path that is opened: the string stages of `serve_file`
    and `sanitize_path` (src/static_file.rs).  What the kernel does with the path is not part of
    this model; the lexical guarantee below does not rely on it. */
module StaticPath {
  import opened Prelude
  import opened Utf8
  import opened Decoding

  type Path = seq<nat>

  const SLASH: nat := 0x2F
  const DOT: nat := 0x2E
  const NUL: nat := 0
  const BACKSLASH: nat := 0x5C
  const FRACTION_SLASH: nat := 0x2044
  const DIVISION_SLASH: nat := 0x2215

  // ---------------------------------------------------------------- the stages

  predicate IsSeparatorVariant(c: nat) {
    c == BACKSLASH || c == FRACTION_SLASH || c == DIVISION_SLASH
  }

  /** A character with the alternative separators replaced. */
  function Normal(c: nat): nat {
    if IsSeparatorVariant(c) then SLASH else c
  }

  function Normalize(p: Path): (r: Path)
    ensures |r| == |p| && forall i :: 0 <= i < |r| ==> !IsSeparatorVariant(r[i])
  {
    seq(|p|, i requires 0 <= i < |p| => Normal(p[i]))
  }

  function TrimSlashes(p: Path): (r: Path)
    ensures r != [] ==> r[0] != SLASH
    ensures |r| <= |p| && r == p[|p| - |r|..]
    ensures forall i :: 0 <= i < |p| - |r| ==> p[i] == SLASH
  {
    if p != [] && p[0] == SLASH then TrimSlashes(p[1..]) else p
  }

  /** `sanitize_path`. */
  function Sanitize(p: Path): Path {
    TrimSlashes(Normalize(p))
  }

  predicate DotsAt(p: Path, i: int) {
    0 <= i < |p| - 1 && p[i] == DOT && p[i + 1] == DOT
  }

  predicate HasDotDot(p: Path) {
    exists i :: 0 <= i < |p| - 1 && DotsAt(p, i)
  }

  /** The relative path handed to the open call, or the status the request ends with. */
  function Serve(uri: Bytes): Result<Path, nat> {
    match StaticDecode(uri)
    case None => Err(BAD_REQUEST)
    case Some(text) => Filter(text)
  }

  function Filter(text: Bytes): Result<Path, nat> {
    if !IsUtf8(text) then Err(BAD_REQUEST)
    else
      var path := Sanitize(Chars(text));
      if HasDotDot(path) || NUL in path then Err(FORBIDDEN)
      else if path == [] then Err(NOT_FOUND)
      else Ok(path)
  }

  method ServeFile(uri: Bytes) returns (r: Result<Path, nat>)
    ensures r == Serve(uri)
  {
    var text := StaticUrlDecode(uri);
    if text.None? {
      return Err(BAD_REQUEST);
    }
    r := Filter(text.value);
  }

  // ---------------------------------------------------------------- lexical resolution

  /** The components of a path. */
  function Components(p: Path): (cs: seq<Path>)
    ensures |cs| > 0
  {
    if p == [] then [[]]
    else
      var rest := Components(p[1..]);
      if p[0] == SLASH then [[]] + rest else [[p[0]] + rest[0]] + rest[1..]
  }

  function Join(cs: seq<Path>): Path
    requires |cs| > 0
  {
    if |cs| == 1 then cs[0] else cs[0] + [SLASH] + Join(cs[1..])
  }

  /** Splitting loses nothing, and no component holds a separator. */
  lemma {:induction false} ComponentsJoin(p: Path)
    ensures Join(Components(p)) == p
    ensures forall k :: 0 <= k < |Components(p)| ==> SLASH !in Components(p)[k]
  {
    if p != [] {
      ComponentsJoin(p[1..]);
      var rest := Components(p[1..]);
      assert p == [p[0]] + p[1..];
      if p[0] == SLASH {
        assert ([[]] + rest)[1..] == rest;
      } else {
        var cs := [[p[0]] + rest[0]] + rest[1..];
        assert cs[1..] == rest[1..];
      }
    }
  }

  /** Where resolution stands below the root: the directories entered, or `None` once a parent
      step has left the root. */
  function Resolve(cs: seq<Path>): Option<seq<Path>> {
    if cs == [] then Some([])
    else
      var n := |cs| - 1;
      var before := Resolve(cs[..n]);
      if before.None? then None
      else if cs[n] == [] || cs[n] == [DOT] then before
      else if cs[n] == [DOT, DOT] then
        if before.value == [] then None else Some(before.value[..|before.value| - 1])
      else Some(before.value + [cs[n]])
  }

  lemma {:induction false} NoDotDotInComponents(p: Path)
    requires !HasDotDot(p)
    ensures Components(p)[0] <= p
    ensures forall k :: 0 <= k < |Components(p)| ==> !HasDotDot(Components(p)[k])
  {
    if p != [] {
      var tail := p[1..];
      forall i | DotsAt(tail, i) ensures false {
        assert DotsAt(p, i + 1);
      }
      NoDotDotInComponents(tail);
      var rest := Components(tail);
      if p[0] != SLASH {
        var first := [p[0]] + rest[0];
        assert first <= p;
        forall i | DotsAt(first, i) ensures false {
          assert DotsAt(p, i);
        }
      }
    }
  }

  /** The components that name something: neither empty nor a single dot. */
  function Named(cs: seq<Path>): seq<Path> {
    if cs == [] then []
    else
      var n := |cs| - 1;
      Named(cs[..n]) + if cs[n] == [] || cs[n] == [0x2E] then [] else [cs[n]]
  }

  lemma {:induction false} ResolveWithoutParents(cs: seq<Path>)
    requires forall k :: 0 <= k < |cs| ==> cs[k] != [DOT, DOT]
    ensures Resolve(cs) == Some(Named(cs))
  {
    if cs != [] {
      ResolveWithoutParents(cs[..|cs| - 1]);
      assert Named(cs[..|cs| - 1]) + [] == Named(cs[..|cs| - 1]);
    }
  }

  /** For every request path that reaches the open call: the path is non-empty and relative, has
      no NUL and no alternative separator, and resolving it one component at a time only ever
      descends, through the components that name something, and so never leaves the root. */
  lemma OpenedPathStaysBeneath(uri: Bytes)
    requires Serve(uri).Ok?
    ensures
      var path := Serve(uri).value;
      && path != [] && path[0] != 0x2F && 0 !in path
      && (forall i :: 0 <= i < |path| ==> path[i] != 0x5C && path[i] != 0x2044 && path[i] != 0x2215)
      && (forall n :: 0 <= n <= |Components(path)| ==>
           Resolve(Components(path)[..n]) == Some(Named(Components(path)[..n])))
  {
    var path := Serve(uri).value;
    NoDotDotInComponents(path);
    var parent: Path := [DOT, DOT];
    assert HasDotDot(parent) by { assert DotsAt(parent, 0); }
    forall n | 0 <= n <= |Components(path)|
      ensures Resolve(Components(path)[..n]) == Some(Named(Components(path)[..n]))
    {
      forall k | 0 <= k < n ensures Components(path)[k] != [DOT, DOT] {
        assert !HasDotDot(Components(path)[k]);
      }
      ResolveWithoutParents(Components(path)[..n]);
    }
  }

  lemma CharsAfterSlash(t: Bytes)
    requires IsUtf8(t)
    ensures IsUtf8([0x2F] + t) && Chars([0x2F] + t) == [SLASH] + Chars(t)
  {
    assert ([0x2F] + t)[1..] == t;
  }

  /** A path the filter has nothing to change or to object to. */
  predicate IsPlain(p: Path) {
    && p != [] && p[0] != SLASH && !HasDotDot(p) && NUL !in p
    && forall i :: 0 <= i < |p| ==> !IsSeparatorVariant(p[i])
  }

  /** Nothing is refused that need not be: every percent-encoding of a slash and a plain path is
      opened as exactly that path. */
  lemma PlainPathIsOpened(e: Bytes, t: Bytes)
    requires IsUtf8(t) && IsPlain(Chars(t)) && Encodes(e, [0x2F] + t)
    ensures Serve(e) == Ok(Chars(t))
  {
    var text: Bytes := [0x2F] + t;
    var path := Chars(t);
    CharsAfterSlash(t);
    DecodeInvertsEncode(e, text);
    assert Normalize([SLASH] + path) == [SLASH] + path;
    assert ([SLASH] + path)[1..] == path;
    assert TrimSlashes(path) == path;
  }

  lemma DecodeFailsIff(uri: Bytes)
    ensures StaticDecode(uri) == None <==> forall s :: Spells(uri, s) ==> !IsUtf8(s)
  {
    if StaticDecode(uri).Some? {
      StaticDecodeIff(uri, StaticDecode(uri).value);
    } else {
      forall s | Spells(uri, s) ensures !IsUtf8(s) {
        StaticDecodeIff(uri, s);
      }
    }
  }

  lemma FilterAcceptsText(text: Bytes)
    requires IsUtf8(text)
    ensures Filter(text) != Err(BAD_REQUEST)
  {
  }

  lemma ServeFailsWithDecode(uri: Bytes)
    ensures Serve(uri) == Err(BAD_REQUEST) <==> StaticDecode(uri) == None
  {
    match StaticDecode(uri)
    case None =>
    case Some(text) =>
      FilterAcceptsText(text);
  }

  /** 400 is answered exactly when the request path spells no UTF-8 text. */
  lemma BadRequestIff(uri: Bytes)
    ensures Serve(uri) == Err(400) <==> forall s :: Spells(uri, s) ==> !IsUtf8(s)
  {
    ServeFailsWithDecode(uri);
    DecodeFailsIff(uri);
  }

  /** How many leading separators sanitizing removes. */
  function Removed(p: Path): nat {
    |p| - |Sanitize(p)|
  }

  /** Sanitizing keeps everything behind the leading separators, up to their spelling. */
  lemma SanitizedAt(p: Path, i: nat)
    requires i < |p|
    ensures i < Removed(p) ==> Normal(p[i]) == SLASH
    ensures i >= Removed(p) ==> Sanitize(p)[i - Removed(p)] == Normal(p[i])
  {
    var n, r, k := Normalize(p), Sanitize(p), Removed(p);
    assert n[i] == Normal(p[i]);
    if i >= k {
      assert r[i - k] == n[k..][i - k] == n[i];
    }
  }

  lemma NothingLeftIff(p: Path)
    ensures Sanitize(p) == [] <==> forall i :: 0 <= i < |p| ==> Normal(p[i]) == SLASH
  {
    if Sanitize(p) == [] {
      forall i | 0 <= i < |p| ensures Normal(p[i]) == SLASH {
        SanitizedAt(p, i);
      }
    } else {
      SanitizedAt(p, Removed(p));
      assert Normal(p[Removed(p)]) != SLASH;
    }
  }

  /** A character that is no separator is found in the sanitized path as in the original. */
  lemma CharKept(p: Path, i: nat, c: nat)
    requires i < |p| && c != SLASH && Normal(c) == c
    ensures p[i] == c <==> i >= Removed(p) && Sanitize(p)[i - Removed(p)] == c
  {
    SanitizedAt(p, i);
  }

  lemma DotsKept(p: Path, i: nat)
    requires i + 1 < |p|
    ensures DotsAt(p, i) <==> DotsAt(Sanitize(p), i - Removed(p))
  {
    CharKept(p, i, DOT);
    CharKept(p, i + 1, DOT);
  }

  lemma DotDotStays(p: Path, i: nat)
    requires DotsAt(p, i)
    ensures HasDotDot(Sanitize(p))
  {
    DotsKept(p, i);
    assert DotsAt(Sanitize(p), i - Removed(p));
  }

  lemma DotDotWasThere(p: Path, i: nat)
    requires DotsAt(Sanitize(p), i)
    ensures HasDotDot(p)
  {
    var j := i + Removed(p);
    DotsKept(p, j);
    assert DotsAt(p, j);
  }

  lemma DotDotIff(p: Path)
    ensures HasDotDot(Sanitize(p)) <==> HasDotDot(p)
  {
    if HasDotDot(p) {
      var i: nat :| i < |p| - 1 && DotsAt(p, i);
      DotDotStays(p, i);
    } else if HasDotDot(Sanitize(p)) {
      var i: nat :| i < |Sanitize(p)| - 1 && DotsAt(Sanitize(p), i);
      DotDotWasThere(p, i);
    }
  }

  lemma NulIff(p: Path)
    ensures NUL in Sanitize(p) <==> NUL in p
  {
    var r := Sanitize(p);
    if NUL in p {
      var i: nat :| i < |p| && p[i] == NUL;
      CharKept(p, i, NUL);
      assert r[i - Removed(p)] == NUL;
    }
    if NUL in r {
      var i: nat :| i < |r| && r[i] == NUL;
      CharKept(p, i + Removed(p), NUL);
    }
  }

  /** A slash or one of the characters that sanitizing takes for one: a backslash, the fraction
      slash and the division slash. */
  predicate IsSlashLike(c: nat) {
    c == 0x2F || c == 0x5C || c == 0x2044 || c == 0x2215
  }

  lemma NormalOfSlash(c: nat)
    ensures Normal(c) == if IsSlashLike(c) then 0x2F else c
  {
  }

  /** `r` is the text without its `k` leading slashes, the others written as `/`. */
  predicate CleanedTo(text: Path, r: Path, k: nat) {
    && |r| + k == |text|
    && (forall i :: 0 <= i < k ==> IsSlashLike(text[i]))
    && (k < |text| ==> !IsSlashLike(text[k]))
    && forall i :: 0 <= i < |r| ==> r[i] == if IsSlashLike(text[i + k]) then 0x2F else text[i + k]
  }

  lemma SanitizeCleans(text: Path)
    ensures CleanedTo(text, Sanitize(text), Removed(text))
  {
    forall i | 0 <= i < |text|
      ensures Normal(text[i]) == if IsSlashLike(text[i]) then 0x2F else text[i]
      ensures i < Removed(text) ==> Normal(text[i]) == SLASH
      ensures i >= Removed(text) ==> Sanitize(text)[i - Removed(text)] == Normal(text[i])
    {
      NormalOfSlash(text[i]);
      SanitizedAt(text, i);
    }
  }

  lemma CleanedOnce(text: Path, a: Path, b: Path, k: nat, n: nat)
    requires CleanedTo(text, a, k) && CleanedTo(text, b, n)
    ensures k == n && a == b
  {
  }

  /** A text that contains two dots in a row, or a NUL. */
  predicate Forbidden(text: Path) {
    || (exists i :: 0 <= i < |text| - 1 && TwoDotsAt(text, i))
    || (exists i :: 0 <= i < |text| && text[i] == 0)
  }

  predicate TwoDotsAt(text: Path, i: int) {
    0 <= i < |text| - 1 && text[i] == 0x2E && text[i + 1] == 0x2E
  }

  lemma TwoDotsIff(text: Path)
    ensures HasDotDot(text) <==> exists i :: 0 <= i < |text| - 1 && TwoDotsAt(text, i)
  {
    if HasDotDot(text) {
      var i: nat :| i < |text| - 1 && DotsAt(text, i);
      assert TwoDotsAt(text, i);
    }
    if i: nat :| i < |text| - 1 && TwoDotsAt(text, i) {
      assert DotsAt(text, i);
    }
  }

  lemma ForbiddenIff(text: Path)
    ensures Forbidden(text) <==> HasDotDot(Sanitize(text)) || NUL in Sanitize(text)
  {
    DotDotIff(text);
    NulIff(text);
    TwoDotsIff(text);
  }

  /** For a path that spells a text, what is answered is settled by the text: 403 exactly when it
      has two dots in a row or a NUL, 404 exactly when it is nothing but slashes of any kind, and
      otherwise the path opened is the text without its leading slashes, the others written `/`. */
  lemma RefusalIff(uri: Bytes, text: Bytes)
    requires IsUtf8(text) && Spells(uri, text)
    ensures Serve(uri) == Err(403) <==> Forbidden(Chars(text))
    ensures Serve(uri) == Err(404) <==> forall i :: 0 <= i < |Chars(text)| ==> IsSlashLike(Chars(text)[i])
    ensures forall path :: Serve(uri) == Ok(path) <==>
      !Forbidden(Chars(text)) && path != [] && exists k: nat :: CleanedTo(Chars(text), path, k)
  {
    var p := Chars(text);
    StaticDecodeIff(uri, text);
    NothingLeftIff(p);
    ForbiddenIff(p);
    SanitizeCleans(p);
    forall i | 0 <= i < |p| ensures Normal(p[i]) == SLASH <==> IsSlashLike(p[i]) {
      NormalOfSlash(p[i]);
    }
    forall r, k: nat | CleanedTo(p, r, k) ensures r == Sanitize(p) {
      CleanedOnce(p, r, Sanitize(p), k, Removed(p));
    }
  }
}
