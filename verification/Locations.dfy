/** Choosing the location for a request path (`find_location` in src/handler.rs).

    Regex matching is an arbitrary predicate of pattern and path (false for a pattern that does
    not compile). */
module Locations {
  import opened Prelude
  import opened Balance
  import opened AbSplit
  import opened Routing

  type Regex = (string, string) -> bool

  /** An exact or regex entry that matches ends the search at once. */
  predicate Immediate(re: Regex, l: Location, path: string) {
    || (l.matchType == "exact" && l.pattern == path)
    || (l.matchType == "regex" && re(l.pattern, path))
  }

  /** A non-empty prefix entry that matches. */
  predicate PrefixHit(l: Location, path: string) {
    l.matchType == "prefix" && l.pattern <= path && |l.pattern| > 0
  }

  predicate FirstImmediate(re: Regex, ls: seq<Location>, path: string, i: nat) {
    i < |ls| && Immediate(re, ls[i], path) && forall j :: 0 <= j < i ==> !Immediate(re, ls[j], path)
  }

  /** Entry `i` is the earliest of the longest matching prefixes among the first `n` entries. */
  predicate BestPrefix(ls: seq<Location>, path: string, n: nat, i: nat) {
    && i < n <= |ls| && PrefixHit(ls[i], path)
    && (forall j :: 0 <= j < n && PrefixHit(ls[j], path) ==> |ls[j].pattern| <= |ls[i].pattern|)
    && (forall j :: 0 <= j < i && PrefixHit(ls[j], path) ==> |ls[j].pattern| < |ls[i].pattern|)
  }

  /** The entry the search must return. */
  ghost predicate Chosen(re: Regex, ls: seq<Location>, path: string, best: Option<nat>) {
    if exists i :: 0 <= i < |ls| && Immediate(re, ls[i], path)
    then best.Some? && FirstImmediate(re, ls, path, best.value)
    else if exists i :: 0 <= i < |ls| && PrefixHit(ls[i], path)
    then best.Some? && BestPrefix(ls, path, |ls|, best.value)
    else best == None
  }

  /** The list, the path and the regex matcher settle which entry that is. */
  lemma ChosenIsUnique(re: Regex, ls: seq<Location>, path: string, x: Option<nat>, y: Option<nat>)
    requires Chosen(re, ls, path, x) && Chosen(re, ls, path, y)
    ensures x == y
    ensures x == None <==> forall i :: 0 <= i < |ls| ==> !Immediate(re, ls[i], path) && !PrefixHit(ls[i], path)
  {
  }

  method FindLocation(ls: seq<Location>, path: string, re: Regex) returns (best: Option<nat>)
    ensures Chosen(re, ls, path, best)
  {
    best := None;
    var bestLength := 0;
    for n := 0 to |ls|
      invariant forall j :: 0 <= j < n ==> !Immediate(re, ls[j], path)
      invariant best.None? ==> bestLength == 0 && forall j :: 0 <= j < n ==> !PrefixHit(ls[j], path)
      invariant best.Some? ==> BestPrefix(ls, path, n, best.value) && bestLength == |ls[best.value].pattern|
    {
      var l := ls[n];
      if l.matchType == "exact" {
        if l.pattern == path {
          return Some(n);
        }
      } else if l.matchType == "prefix" {
        if l.pattern <= path && |l.pattern| > bestLength {
          bestLength := |l.pattern|;
          best := Some(n);
        }
      } else if l.matchType == "regex" {
        if re(l.pattern, path) {
          return Some(n);
        }
      }
    }
  }

  /** The exact and regex entries (and those of unknown type), in order. */
  function Others(ls: seq<Location>): seq<Location> {
    if ls == [] then []
    else if ls[0].matchType == "prefix" then Others(ls[1..])
    else [ls[0]] + Others(ls[1..])
  }

  /** The first immediate entry, as a value. */
  function Winner(re: Regex, ls: seq<Location>, path: string): Option<Location> {
    if ls == [] then None
    else if Immediate(re, ls[0], path) then Some(ls[0])
    else Winner(re, ls[1..], path)
  }

  lemma {:induction false} WinnerIgnoresPrefixes(re: Regex, ls: seq<Location>, path: string)
    ensures Winner(re, Others(ls), path) == Winner(re, ls, path)
  {
    if ls != [] {
      WinnerIgnoresPrefixes(re, ls[1..], path);
      if ls[0].matchType != "prefix" {
        assert Others(ls)[1..] == Others(ls[1..]);
      }
    }
  }

  lemma {:induction false} WinnerIsFirst(re: Regex, ls: seq<Location>, path: string)
    ensures Winner(re, ls, path) == None <==> forall j :: 0 <= j < |ls| ==> !Immediate(re, ls[j], path)
    ensures forall i: nat :: FirstImmediate(re, ls, path, i) ==> Winner(re, ls, path) == Some(ls[i])
  {
    if ls != [] {
      WinnerIsFirst(re, ls[1..], path);
      if !Immediate(re, ls[0], path) {
        forall i: nat | FirstImmediate(re, ls, path, i) ensures Winner(re, ls, path) == Some(ls[i]) {
          assert FirstImmediate(re, ls[1..], path, i - 1);
        }
        assert forall j :: 0 <= j < |ls[1..]| ==> ls[1..][j] == ls[j + 1];
      }
    }
  }

  /** Both lists hold the same prefix entries. */
  predicate SamePrefixes(a: seq<Location>, b: seq<Location>) {
    && (forall i :: 0 <= i < |a| && a[i].matchType == "prefix" ==> a[i] in b)
    && (forall i :: 0 <= i < |b| && b[i].matchType == "prefix" ==> b[i] in a)
  }

  /** Two matching prefixes of the same length are the same string. */
  lemma EqualLengthPrefixes(p: string, q: string, path: string)
    requires p <= path && q <= path && |p| == |q|
    ensures p == q
  {
    assert p == path[..|p|] && q == path[..|q|];
  }

  lemma BestPrefixSame(a: seq<Location>, b: seq<Location>, path: string, i: nat, j: nat)
    requires SamePrefixes(a, b)
    requires BestPrefix(a, path, |a|, i) && BestPrefix(b, path, |b|, j)
    ensures a[i].pattern == b[j].pattern
  {
    var k :| 0 <= k < |b| && b[k] == a[i];
    var m :| 0 <= m < |a| && a[m] == b[j];
    assert PrefixHit(b[k], path) && PrefixHit(a[m], path);
    EqualLengthPrefixes(a[i].pattern, b[j].pattern, path);
  }

  /** Moving prefix entries about, while the other entries keep their order, never changes the
      pattern and kind of the location chosen. */
  lemma PrefixOrderIrrelevant(
    re: Regex, a: seq<Location>, b: seq<Location>, path: string, x: Option<nat>, y: Option<nat>)
    requires Others(a) == Others(b) && SamePrefixes(a, b)
    requires Chosen(re, a, path, x) && Chosen(re, b, path, y)
    ensures x.None? <==> y.None?
    ensures x.Some? && y.Some? ==>
      && x.value < |a| && y.value < |b|
      && a[x.value].pattern == b[y.value].pattern && a[x.value].matchType == b[y.value].matchType
  {
    WinnerIgnoresPrefixes(re, a, path);
    WinnerIgnoresPrefixes(re, b, path);
    WinnerIsFirst(re, a, path);
    WinnerIsFirst(re, b, path);
    if Winner(re, a, path).None? {
      if x.Some? {
        assert a[x.value] in b;
      }
      if y.Some? {
        assert b[y.value] in a;
      }
      if x.Some? && y.Some? {
        BestPrefixSame(a, b, path, x.value, y.value);
      }
    }
  }

  // ---------------------------------------------------------------- from path to upstream

  /** The entry a path leads to. */
  ghost predicate LeadsTo(b: Block, re: Regex, path: string, i: nat) {
    i < |b.locations| && Chosen(re, b.locations, path, Some(i))
  }

  /** A request for this path looks up split `n`. */
  ghost predicate LooksUp(b: Block, re: Regex, path: string, n: string) {
    exists i: nat :: LeadsTo(b, re, path, i) &&
      IsProxy(b.locations[i].handler) && b.locations[i].handler.abSplit == Some(n)
  }

  /** Every lookup of the run is made by a request for one of the paths. */
  ghost predicate FromRequests(b: Block, re: Regex, paths: string -> bool, events: seq<Event>) {
    forall k :: 0 <= k < |events| && events[k].Look? ==>
      exists path: string :: paths(path) && LooksUp(b, re, path, events[k].split)
  }

  /** The splits that requests for those paths look up. */
  ghost function InUse(b: Block, re: Regex, paths: string -> bool): (names: set<string>)
    ensures names <= Named(b)
  {
    set n | n in Named(b) && exists path: string :: paths(path) && LooksUp(b, re, path, n)
  }

  lemma LookedUpIsNamed(b: Block, re: Regex, path: string, n: string)
    requires LooksUp(b, re, path, n)
    ensures n in Named(b)
  {
    var i: nat :| LeadsTo(b, re, path, i) &&
      IsProxy(b.locations[i].handler) && b.locations[i].handler.abSplit == Some(n);
    assert b.locations[i] in b.locations;
  }

  lemma RequestsLookAtInUse(b: Block, re: Regex, paths: string -> bool, events: seq<Event>)
    ensures FromRequests(b, re, paths, events) <==> LooksAt(events, InUse(b, re, paths))
  {
    var names := InUse(b, re, paths);
    if FromRequests(b, re, paths, events) {
      forall k | 0 <= k < |events| && events[k].Look? ensures events[k].split in names {
        var path: string :| paths(path) && LooksUp(b, re, path, events[k].split);
        LookedUpIsNamed(b, re, path, events[k].split);
      }
    }
  }

  /** Whatever the hash and the earlier requests for the paths, a client that asks for a path
      which leads to entry `i` is sent to a pool as demanded. */
  ghost predicate Served(b: Block, re: Regex, paths: string -> bool, i: nat, client: string, ok: Demand)
    requires i < |b.locations|
  {
    forall hash: Hash, events: seq<Event> :: FromRequests(b, re, paths, events) ==>
      var r := Selected(b, b.locations[i].handler, hash, events, client);
      r.Ok? && ok(r.value)
  }

  lemma ServedIsRoutes(b: Block, re: Regex, paths: string -> bool, i: nat, client: string, ok: Demand)
    requires i < |b.locations|
    ensures Served(b, re, paths, i, client, ok) <==>
      Routes(b, InUse(b, re, paths), b.locations[i].handler, client, ok)
  {
    forall events: seq<Event>
      ensures FromRequests(b, re, paths, events) <==> LooksAt(events, InUse(b, re, paths))
    {
      RequestsLookAtInUse(b, re, paths, events);
    }
  }

  /** From path to upstream, end to end: a request of a validated block that leads to a proxy entry
      finds a pool as demanded, whatever the hash and the earlier requests, if and only if: with
      a split, every name the split can answer, given the splits that requests look up at all,
      leads to such a pool; without one, its own or else the first shared pool is such a pool. */
  lemma RequestServedIff(
    b: Block, regexOk: string -> bool, re: Regex, paths: string -> bool, path: string, i: nat, client: string,
    ok: Demand)
    requires Validate(b, regexOk) == None && paths(path) && LeadsTo(b, re, path, i) && IsProxy(b.locations[i].handler)
    ensures b.locations[i].handler.abSplit.Some? ==> b.locations[i].handler.abSplit.value in InUse(b, re, paths)
    ensures b.locations[i].handler.abSplit.None? && b.locations[i].handler.upstream.None? ==> b.upstreams != []
    ensures
      var h := b.locations[i].handler;
      Served(b, re, paths, i, client, ok) <==>
        if h.abSplit.Some? then AllLead(b, InUse(b, re, paths), h.abSplit.value, ok)
        else if h.upstream.Some? then ok(h.upstream.value)
        else ok(b.upstreams[0])
  {
    var l, names := b.locations[i], InUse(b, re, paths);
    assert l in b.locations;
    ServedIsRoutes(b, re, paths, i, client, ok);
    if l.handler.abSplit.Some? {
      assert LooksUp(b, re, path, l.handler.abSplit.value);
      LookedUpIsNamed(b, re, path, l.handler.abSplit.value);
      SplitRoutesIff(b, names, regexOk, l, client, ok);
    } else {
      PlainRoutesIff(b, names, regexOk, l, client, ok);
    }
  }

  /** An entry that no path leads to does not put its split in use: one with an empty prefix. */
  lemma EmptyPrefixUnused(b: Block, re: Regex, paths: string -> bool, n: string)
    requires forall l :: l in b.locations && l.handler.abSplit == Some(n) ==> l.matchType == "prefix" && l.pattern == ""
    ensures n !in InUse(b, re, paths)
  {
    forall path: string, i: nat | LeadsTo(b, re, path, i) ensures b.locations[i].handler.abSplit != Some(n) {
      ChosenMatches(re, b.locations, path, i);
      assert b.locations[i] in b.locations;
    }
  }

  lemma ChosenMatches(re: Regex, ls: seq<Location>, path: string, i: nat)
    requires Chosen(re, ls, path, Some(i))
    ensures i < |ls| && (Immediate(re, ls[i], path) || PrefixHit(ls[i], path))
  {
  }

  lemma ProperPrefix(p: string, path: string)
    requires p <= path && p != path
    ensures |p| < |path|
  {
    if |p| == |path| {
      EqualLengthPrefixes(p, path, path);
    }
  }

  /** A prefix entry is chosen for its own pattern unless an exact or regex entry takes that path or
      an earlier prefix entry has the same pattern. */
  lemma ChosenForOwnPattern(re: Regex, ls: seq<Location>, i: nat)
    requires i < |ls| && ls[i].matchType == "prefix" && ls[i].pattern != ""
    requires forall j :: 0 <= j < |ls| ==> !Immediate(re, ls[j], ls[i].pattern)
    requires forall j :: 0 <= j < i && ls[j].matchType == "prefix" ==> ls[j].pattern != ls[i].pattern
    ensures Chosen(re, ls, ls[i].pattern, Some(i))
  {
    var path := ls[i].pattern;
    forall j | 0 <= j < i && PrefixHit(ls[j], path) ensures |ls[j].pattern| < |path| {
      ProperPrefix(ls[j].pattern, path);
    }
    assert PrefixHit(ls[i], path) && BestPrefix(ls, path, |ls|, i);
  }

  /** A validated block of two prefix locations, each of which its own path leads to: a client that
      has asked for the one is answered 502 by the other. */
  lemma RequestStranded(client: string) returns (b: Block, re: Regex, path: string, i: nat)
    ensures Validate(b, _ => true) == None && LeadsTo(b, re, path, i) && IsProxy(b.locations[i].handler)
    ensures !Served(b, re, _ => true, i, client, AnyPool())
  {
    re := (pattern: string, path: string) => false;
    b := TwoSplits(true, "x", "a", "y", "b");
    TwoSplitsValidate(b, true, "x", "a", "y", "b");
    BothInUse(b, re);
    path, i := b.locations[1].pattern, 1;
    ServedIsRoutes(b, re, _ => true, i, client, AnyPool());
    PinnedElsewhereStrands(b, InUse(b, re, _ => true), b.locations[1], client);
  }

  lemma BothInUse(b: Block, re: Regex)
    requires b.locations == [ProxyTo("x"), ProxyTo("y")] && forall pattern, path :: !re(pattern, path)
    ensures LeadsTo(b, re, b.locations[1].pattern, 1) && "x" in InUse(b, re, _ => true)
  {
    assert b.locations[0].pattern[1] != b.locations[1].pattern[1];
    ChosenForOwnPattern(re, b.locations, 0);
    ChosenForOwnPattern(re, b.locations, 1);
    assert LeadsTo(b, re, b.locations[0].pattern, 0);
    assert LooksUp(b, re, b.locations[0].pattern, "x");
    LookedUpIsNamed(b, re, b.locations[0].pattern, "x");
  }
}
