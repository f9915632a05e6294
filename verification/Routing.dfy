/** From a validated configuration to an upstream: the A/B-split, upstream and proxy-location
    checks of `Config::validate` (src/config.rs) and `select_upstream` (src/handler.rs). */
module Routing {
  import opened Prelude
  import opened Cumulative
  import opened Balance
  import opened AbSplit

  datatype Handler = Handler(kind: string, upstream: Option<Upstream>, abSplit: Option<string>)
  datatype Location = Location(pattern: string, matchType: string, handler: Handler)
  datatype Block = Block(
    upstreams: seq<Upstream>, abSplits: seq<Split>, locations: seq<Location>, connectUpstream: Option<Upstream>)

  // ---------------------------------------------------------------- validation

  datatype Violation =
    | WeightsNotHundred(split: string)
    | UnknownUpstream(split: string, group: string)
    | UnknownStrategy(upstream: string)
    | ZeroWeight(upstream: string, server: string)
    | UnknownMatchType(pattern: string)
    | InvalidRegex(pattern: string)
    | UnknownSplit(pattern: string)
    | NoServers(pattern: string)

  /** The first violation in a list, as the early exit of a loop reports it. */
  function First<T>(xs: seq<T>, check: T -> Option<Violation>): (v: Option<Violation>)
    ensures v == None <==> forall x :: x in xs ==> check(x) == None
    ensures v.Some? ==> exists k: nat :: k < |xs| && FirstAt(xs, check, k) && check(xs[k]) == v
  {
    if xs == [] then None
    else
      assert xs == [xs[0]] + xs[1..];
      if check(xs[0]).Some? then
        assert FirstAt(xs, check, 0);
        check(xs[0])
      else
        var v := First(xs[1..], check);
        assert forall k: nat :: k < |xs[1..]| && FirstAt(xs[1..], check, k) ==> FirstAt(xs, check, k + 1);
        v
  }

  /** The k-th element is the first that the check objects to. */
  predicate FirstAt<T>(xs: seq<T>, check: T -> Option<Violation>, k: nat) {
    k < |xs| && check(xs[k]).Some? && forall j :: 0 <= j < k ==> check(xs[j]) == None
  }

  predicate Defined(b: Block, upstream: string) {
    exists u :: u in b.upstreams && u.name == upstream
  }

  function GroupViolation(b: Block, s: Split, g: Group): Option<Violation> {
    if Defined(b, g.upstream) then None else Some(UnknownUpstream(s.name, g.name))
  }

  function SplitViolation(b: Block, s: Split): Option<Violation> {
    if AbSplit.TotalWeight(s) != 100 then Some(WeightsNotHundred(s.name))
    else First(s.groups, g => GroupViolation(b, s, g))
  }

  function UpstreamViolation(u: Upstream): Option<Violation> {
    if u.strategy !in ["round-robin", "least-conn", "ip-hash"] then Some(UnknownStrategy(u.name))
    else First(u.servers, (s: Server) => if s.weight == 0 then Some(ZeroWeight(u.name, s.address)) else None)
  }

  predicate IsProxy(h: Handler) {
    h.kind == "proxy" || h.kind == "reverse_proxy"
  }

  function LocationViolation(b: Block, l: Location, regexOk: string -> bool): Option<Violation> {
    if l.matchType !in ["exact", "prefix", "regex"] then Some(UnknownMatchType(l.pattern))
    else if l.matchType == "regex" && !regexOk(l.pattern) then Some(InvalidRegex(l.pattern))
    else if !IsProxy(l.handler) then None
    else match l.handler.abSplit
      case Some(name) =>
        if exists s :: s in b.abSplits && s.name == name then None else Some(UnknownSplit(l.pattern))
      case None =>
        var hasInline := l.handler.upstream.Some? && l.handler.upstream.value.servers != [];
        var hasShared := b.upstreams != [] && b.upstreams[0].servers != [];
        if hasInline || hasShared then None else Some(NoServers(l.pattern))
  }

  function OrElse(v: Option<Violation>, next: Option<Violation>): Option<Violation> {
    if v.Some? then v else next
  }

  /** The modelled part of `Config::validate` for one block: the first violation, if any. */
  function Validate(b: Block, regexOk: string -> bool): Option<Violation> {
    OrElse(First(b.abSplits, s => SplitViolation(b, s)),
    OrElse(First(b.upstreams, u => UpstreamViolation(u)),
    OrElse(First(b.locations, (l: Location) =>
             if l.handler.upstream.Some? then UpstreamViolation(l.handler.upstream.value) else None),
    OrElse(if b.connectUpstream.Some? then UpstreamViolation(b.connectUpstream.value) else None,
           First(b.locations, l => LocationViolation(b, l, regexOk))))))
  }

  /** A pool with a known strategy and no zero weight. */
  predicate PoolOk(u: Upstream) {
    && (u.strategy == "round-robin" || u.strategy == "least-conn" || u.strategy == "ip-hash")
    && forall s :: s in u.servers ==> s.weight >= 1
  }

  /** A split whose weights sum to 100 and whose groups name defined pools. */
  predicate SplitOk(b: Block, s: Split) {
    && WeightSum(s.groups) % U32 == 100
    && forall g :: g in s.groups ==> exists u :: u in b.upstreams && u.name == g.upstream
  }

  /** A location of known type that, if it proxies, names a known split or finds servers. */
  predicate LocationOk(b: Block, l: Location, regexOk: string -> bool) {
    && (l.matchType == "exact" || l.matchType == "prefix" || (l.matchType == "regex" && regexOk(l.pattern)))
    && ((l.handler.kind == "proxy" || l.handler.kind == "reverse_proxy") && l.handler.abSplit.Some? ==>
         exists s :: s in b.abSplits && s.name == l.handler.abSplit.value)
    && ((l.handler.kind == "proxy" || l.handler.kind == "reverse_proxy") && l.handler.abSplit.None? ==>
         || (l.handler.upstream.Some? && l.handler.upstream.value.servers != [])
         || (b.upstreams != [] && b.upstreams[0].servers != []))
  }

  lemma PoolOkIff(u: Upstream)
    ensures UpstreamViolation(u) == None <==> PoolOk(u)
  {
  }

  lemma SplitOkIff(b: Block, s: Split)
    ensures SplitViolation(b, s) == None <==> SplitOk(b, s)
  {
    PrefixIsWeightSum(s, |s.groups|);
    assert forall g :: g in s.groups ==> (GroupViolation(b, s, g) == None <==> Defined(b, g.upstream));
  }

  lemma LocationOkIff(b: Block, l: Location, regexOk: string -> bool)
    ensures LocationViolation(b, l, regexOk) == None <==> LocationOk(b, l, regexOk)
  {
  }

  /** The checks pass exactly for the blocks that are in order in every respect. */
  lemma ValidateIff(b: Block, regexOk: string -> bool)
    ensures Validate(b, regexOk) == None <==>
      && (forall s :: s in b.abSplits ==> SplitOk(b, s))
      && (forall u :: u in b.upstreams ==> PoolOk(u))
      && (forall l :: l in b.locations && l.handler.upstream.Some? ==> PoolOk(l.handler.upstream.value))
      && (b.connectUpstream.Some? ==> PoolOk(b.connectUpstream.value))
      && (forall l :: l in b.locations ==> LocationOk(b, l, regexOk))
  {
    forall s ensures SplitViolation(b, s) == None <==> SplitOk(b, s) { SplitOkIff(b, s); }
    forall u ensures UpstreamViolation(u) == None <==> PoolOk(u) { PoolOkIff(u); }
    forall l ensures LocationViolation(b, l, regexOk) == None <==> LocationOk(b, l, regexOk) {
      LocationOkIff(b, l, regexOk);
    }
  }

  // ---------------------------------------------------------------- selection

  /** The first element that satisfies `p`, as `find` returns it. */
  function Find<T>(xs: seq<T>, p: T -> bool): (r: Option<T>)
    ensures r.Some? ==> r.value in xs && p(r.value)
    ensures r.None? <==> forall x :: x in xs ==> !p(x)
  {
    if xs == [] then None
    else
      assert xs == [xs[0]] + xs[1..];
      if p(xs[0]) then Some(xs[0]) else Find(xs[1..], p)
  }

  function FindSplit(b: Block, name: string): Option<Split> {
    Find(b.abSplits, (s: Split) => s.name == name)
  }

  function FindGroup(s: Split, name: string): Option<Group> {
    Find(s.groups, (g: Group) => g.name == name)
  }

  function ResolveUpstream(b: Block, name: string): Option<Upstream> {
    Find(b.upstreams, (u: Upstream) => u.name == name)
  }

  /** The pool of the group a split answered with. */
  function PoolOfGroup(b: Block, split: string, group: string): Option<Upstream> {
    match FindSplit(b, split)
    case None => None
    case Some(s) =>
      match FindGroup(s, group)
      case None => None
      case Some(g) => ResolveUpstream(b, g.upstream)
  }

  /** `select_upstream`, given what the router answers for the handler's split. */
  function SelectUpstream(b: Block, h: Handler, answer: Option<string>): Result<Upstream, nat> {
    match h.abSplit
    case Some(split) =>
      if answer.None? then Err(BAD_GATEWAY)
      else
        var pool := PoolOfGroup(b, split, answer.value);
        if pool.Some? then Ok(pool.value) else Err(BAD_GATEWAY)
    case None =>
      if h.upstream.Some? then Ok(h.upstream.value)
      else if b.upstreams != [] then Ok(b.upstreams[0])
      else Err(BAD_GATEWAY)
  }

  // The reference for the three lookups, by position in the lists.

  predicate FirstSplit(b: Block, name: string, i: nat) {
    i < |b.abSplits| && b.abSplits[i].name == name && forall j :: 0 <= j < i ==> b.abSplits[j].name != name
  }

  predicate FirstGroup(s: Split, name: string, i: nat) {
    i < |s.groups| && s.groups[i].name == name && forall j :: 0 <= j < i ==> s.groups[j].name != name
  }

  predicate FirstUpstream(b: Block, name: string, i: nat) {
    i < |b.upstreams| && b.upstreams[i].name == name && forall j :: 0 <= j < i ==> b.upstreams[j].name != name
  }

  /** `u` is the first upstream of the name that the first group of this name in the first split
      of this name refers to. */
  predicate Target(b: Block, split: string, group: string, u: Upstream) {
    exists i, j, k ::
      && 0 <= i < |b.abSplits| && FirstSplit(b, split, i)
      && 0 <= j < |b.abSplits[i].groups| && FirstGroup(b.abSplits[i], group, j)
      && 0 <= k < |b.upstreams| && FirstUpstream(b, b.abSplits[i].groups[j].upstream, k)
      && b.upstreams[k] == u
  }

  predicate IsFirst<T>(xs: seq<T>, p: T -> bool, i: nat) {
    i < |xs| && p(xs[i]) && forall j :: 0 <= j < i ==> !p(xs[j])
  }

  lemma {:induction false} FindIsFirst<T>(xs: seq<T>, p: T -> bool, i: nat)
    requires IsFirst(xs, p, i)
    ensures Find(xs, p) == Some(xs[i])
  {
    if i > 0 {
      assert !p(xs[0]);
      FindIsFirst(xs[1..], p, i - 1);
    }
  }

  lemma {:induction false} FoundAt<T>(xs: seq<T>, p: T -> bool) returns (i: nat)
    requires Find(xs, p).Some?
    ensures IsFirst(xs, p, i) && Find(xs, p) == Some(xs[i])
  {
    i := 0;
    if !p(xs[0]) {
      i := FoundAt(xs[1..], p);
      i := i + 1;
    }
  }

  lemma TargetIsPool(b: Block, split: string, group: string, u: Upstream)
    requires Target(b, split, group, u)
    ensures PoolOfGroup(b, split, group) == Some(u)
  {
    var i, j, k :|
      && 0 <= i < |b.abSplits| && FirstSplit(b, split, i)
      && 0 <= j < |b.abSplits[i].groups| && FirstGroup(b.abSplits[i], group, j)
      && 0 <= k < |b.upstreams| && FirstUpstream(b, b.abSplits[i].groups[j].upstream, k)
      && b.upstreams[k] == u;
    FindIsFirst(b.abSplits, (s: Split) => s.name == split, i);
    FindIsFirst(b.abSplits[i].groups, (g: Group) => g.name == group, j);
    FindIsFirst(b.upstreams, (u: Upstream) => u.name == b.abSplits[i].groups[j].upstream, k);
  }

  lemma PoolHasTarget(b: Block, split: string, group: string)
    requires PoolOfGroup(b, split, group).Some?
    ensures Target(b, split, group, PoolOfGroup(b, split, group).value)
  {
    var i := FoundAt(b.abSplits, (s: Split) => s.name == split);
    var s := b.abSplits[i];
    var j := FoundAt(s.groups, (g: Group) => g.name == group);
    var k := FoundAt(b.upstreams, (u: Upstream) => u.name == s.groups[j].upstream);
    assert FirstSplit(b, split, i) && FirstGroup(s, group, j) && FirstUpstream(b, s.groups[j].upstream, k);
  }

  /** The pool of a group is its target, and there is one whenever there is a target. */
  lemma PoolIsTarget(b: Block, split: string, group: string, u: Upstream)
    ensures PoolOfGroup(b, split, group) == Some(u) <==> Target(b, split, group, u)
  {
    if Target(b, split, group, u) {
      TargetIsPool(b, split, group, u);
    }
    if PoolOfGroup(b, split, group).Some? {
      PoolHasTarget(b, split, group);
    }
  }

  /** A split location sends a request to `u` exactly when `u` is the target of the group that the
      router answered; without an answer or a target the status is 502. */
  lemma SelectsTarget(b: Block, h: Handler, answer: Option<string>, u: Upstream)
    requires h.abSplit.Some?
    ensures SelectUpstream(b, h, answer) == Ok(u) <==>
      answer.Some? && Target(b, h.abSplit.value, answer.value, u)
    ensures SelectUpstream(b, h, answer).Err? ==> SelectUpstream(b, h, answer).error == 502
  {
    if answer.Some? {
      PoolIsTarget(b, h.abSplit.value, answer.value, u);
    }
  }

  /** A location without a split sends every request to its own upstream, else to the first shared
      one; without either the status is 502. */
  lemma SelectsPlain(b: Block, h: Handler, answer: Option<string>)
    requires h.abSplit.None?
    ensures h.upstream.Some? ==> SelectUpstream(b, h, answer) == Ok(h.upstream.value)
    ensures h.upstream.None? && b.upstreams != [] ==> SelectUpstream(b, h, answer) == Ok(b.upstreams[0])
    ensures h.upstream.None? && b.upstreams == [] ==> SelectUpstream(b, h, answer) == Err(502)
  {
  }

  /** The group a `resolve` that starts with this table will return. */
  function RouterAnswer(splits: Splits, hash: Hash, table: Table, split: string, session: string): Option<string> {
    match AfterLook(splits, hash, table, split, session)
    case Pinning(_, _, group) => Some(group)
    case Answered(_, _, answer) => answer
  }

  /** The splits that a proxy location names. */
  function Named(b: Block): set<string> {
    set l | l in b.locations && IsProxy(l.handler) && l.handler.abSplit.Some? :: l.handler.abSplit.value
  }

  /** What `select_upstream` returns to a client after a run of earlier resolves. */
  function Selected(b: Block, h: Handler, hash: Hash, events: seq<Event>, client: string): Result<Upstream, nat> {
    var splits := RouterOf(b.abSplits);
    SelectUpstream(b, h,
      if h.abSplit.None? then None
      else RouterAnswer(splits, hash, After(splits, hash, events).table, h.abSplit.value, client))
  }

  // ---------------------------------------------------------------- what a split can answer

  // Below, `names` are the splits in use: those that some request can look up.  The results hold
  // for any such set, in particular for `Named(b)` and for the smaller set of splits whose
  // locations some path leads to.

  /** A group name the table can hold for any client: some sticky split in use assigns it. */
  predicate CanBePinned(b: Block, names: set<string>, group: string) {
    exists m :: m in names &&
      StickyIn(RouterOf(b.abSplits), names, m) && CanAssign(RouterOf(b.abSplits)[m], group)
  }

  /** A group name split `n` can answer with: one it assigns, or, if sticky, one found pinned. */
  predicate CanAnswer(b: Block, names: set<string>, n: string, group: string) {
    && n in RouterOf(b.abSplits)
    && (CanAssign(RouterOf(b.abSplits)[n], group) || (RouterOf(b.abSplits)[n].sticky && CanBePinned(b, names, group)))
  }

  /** Some hash and some earlier run make split `n` answer this to the client. */
  ghost predicate Answers(b: Block, names: set<string>, n: string, client: string, answer: Option<string>) {
    exists hash: Hash, events: seq<Event> :: LooksAt(events, names) &&
      RouterAnswer(RouterOf(b.abSplits), hash, After(RouterOf(b.abSplits), hash, events).table, n, client) == answer
  }

  lemma Witnessed(
    b: Block, names: set<string>, n: string, client: string, hash: Hash, events: seq<Event>,
    answer: Option<string>)
    requires LooksAt(events, names)
    requires RouterAnswer(
      RouterOf(b.abSplits), hash, After(RouterOf(b.abSplits), hash, events).table, n, client) == answer
    ensures Answers(b, names, n, client, answer)
  {
  }

  /** Every answer is one the split can give. */
  lemma AnswerCanBe(b: Block, names: set<string>, n: string, client: string, hash: Hash, events: seq<Event>)
    requires LooksAt(events, names) && n in RouterOf(b.abSplits) && AbSplit.TotalWeight(RouterOf(b.abSplits)[n]) > 0
    ensures
      var splits := RouterOf(b.abSplits);
      var answer := RouterAnswer(splits, hash, After(splits, hash, events).table, n, client);
      answer.Some? && CanAnswer(b, names, n, answer.value)
  {
    TableHoldsAssignments(RouterOf(b.abSplits), names, hash, events);
    TableAnswerCanBe(b, names, n, client, hash, After(RouterOf(b.abSplits), hash, events).table);
  }

  lemma AnswerFrom(splits: Splits, hash: Hash, table: Table, n: string, session: string)
    requires n in splits
    ensures RouterAnswer(splits, hash, table, n, session) ==
      if splits[n].sticky && session in table then Some(table[session]) else Assign(splits[n], hash, session)
  {
  }

  lemma TableAnswerCanBe(b: Block, names: set<string>, n: string, client: string, hash: Hash, table: Table)
    requires TableInv(RouterOf(b.abSplits), names, hash, table)
    requires n in RouterOf(b.abSplits) && AbSplit.TotalWeight(RouterOf(b.abSplits)[n]) > 0
    ensures
      var answer := RouterAnswer(RouterOf(b.abSplits), hash, table, n, client);
      answer.Some? && CanAnswer(b, names, n, answer.value)
  {
    var splits := RouterOf(b.abSplits);
    AnswerFrom(splits, hash, table, n, client);
    if splits[n].sticky && client in table {
      PinnedCanBe(b, names, hash, client, table[client]);
    } else {
      AssignedCanBe(splits[n], hash, client);
    }
  }

  lemma PinnedCanBe(b: Block, names: set<string>, hash: Hash, client: string, group: string)
    requires PinnedBy(RouterOf(b.abSplits), names, hash, client, group)
    ensures CanBePinned(b, names, group)
  {
    var splits := RouterOf(b.abSplits);
    var m :| m in names && StickyIn(splits, names, m) && Assign(splits[m], hash, client) == Some(group);
    AssignedCanBe(splits[m], hash, client);
  }

  /** A hash that assigns the client to the group, whatever split it is asked about. */
  lemma HashForGroup(s: Split, client: string, group: string) returns (hash: Hash)
    requires CanAssign(s, group)
    ensures Assign(s, hash, client) == Some(group)
  {
    var point: nat :| point < AbSplit.TotalWeight(s) && NameAt(s, point, group);
    hash := (session: string, split: string) => point;
    HashTo(s, hash, client, point);
  }

  /** Every answer a split can give is given, to any client. */
  lemma CanBeAnswered(b: Block, names: set<string>, n: string, client: string, group: string)
    requires CanAnswer(b, names, n, group)
    ensures Answers(b, names, n, client, Some(group))
  {
    var splits := RouterOf(b.abSplits);
    if CanAssign(splits[n], group) {
      var hash := HashForGroup(splits[n], client, group);
      assert After(splits, hash, []) == State(map[], map[]);
      Witnessed(b, names, n, client, hash, [], Some(group));
    } else {
      var m :| m in names && StickyIn(splits, names, m) && CanAssign(splits[m], group);
      var hash := HashForGroup(splits[m], client, group);
      var events := PinRun(splits, hash, m, client);
      Witnessed(b, names, n, client, hash, events, Some(group));
    }
  }

  /** A split of positive weight answers exactly the names it can answer, and always one. */
  lemma AnswersIff(b: Block, names: set<string>, n: string, client: string, answer: Option<string>)
    requires n in RouterOf(b.abSplits) && AbSplit.TotalWeight(RouterOf(b.abSplits)[n]) > 0
    ensures Answers(b, names, n, client, answer) <==> answer.Some? && CanAnswer(b, names, n, answer.value)
  {
    var splits := RouterOf(b.abSplits);
    if Answers(b, names, n, client, answer) {
      var hash: Hash, events: seq<Event> :| LooksAt(events, names) &&
        RouterAnswer(splits, hash, After(splits, hash, events).table, n, client) == answer;
      AnswerCanBe(b, names, n, client, hash, events);
    }
    if answer.Some? && CanAnswer(b, names, n, answer.value) {
      CanBeAnswered(b, names, n, client, answer.value);
    }
  }

  /** The router knows the split of a validated location, with a total weight of 100. */
  lemma SplitOfLocation(b: Block, regexOk: string -> bool, l: Location)
    requires Validate(b, regexOk) == None && l in b.locations && IsProxy(l.handler) && l.handler.abSplit.Some?
    ensures
      var n := l.handler.abSplit.value;
      n in RouterOf(b.abSplits) && AbSplit.TotalWeight(RouterOf(b.abSplits)[n]) == 100
  {
    var n := l.handler.abSplit.value;
    assert LocationViolation(b, l, regexOk) == None;
    var s :| s in b.abSplits && s.name == n;
    RouterKnows(b.abSplits, s);
    RouterFromList(b.abSplits, n);
    assert SplitViolation(b, RouterOf(b.abSplits)[n]) == None;
  }

  // ---------------------------------------------------------------- when routing succeeds

  /** A demand on the pool that a client is sent to. */
  type Demand = Upstream -> bool

  /** Whatever the hash and the earlier requests, the client is sent to a pool as demanded. */
  ghost predicate Routes(b: Block, names: set<string>, h: Handler, client: string, ok: Demand) {
    forall hash: Hash, events: seq<Event> :: LooksAt(events, names) ==>
      var r := Selected(b, h, hash, events, client);
      r.Ok? && ok(r.value)
  }

  /** The group has a target, and it is as demanded. */
  ghost predicate Leads(b: Block, n: string, group: string, ok: Demand) {
    exists u :: Target(b, n, group, u) && ok(u)
  }

  lemma AnswerMeets(b: Block, h: Handler, group: string, ok: Demand)
    requires h.abSplit.Some?
    ensures Leads(b, h.abSplit.value, group, ok) <==>
      SelectUpstream(b, h, Some(group)).Ok? && ok(SelectUpstream(b, h, Some(group)).value)
  {
    LeadsToPool(b, h.abSplit.value, group, ok);
  }

  lemma LeadsToPool(b: Block, n: string, group: string, ok: Demand)
    ensures Leads(b, n, group, ok) <==> PoolOfGroup(b, n, group).Some? && ok(PoolOfGroup(b, n, group).value)
  {
    forall u ensures PoolOfGroup(b, n, group) == Some(u) <==> Target(b, n, group, u) {
      PoolIsTarget(b, n, group, u);
    }
  }

  function GroupNames(b: Block): set<string> {
    set s, g | s in b.abSplits && g in s.groups :: g.name
  }

  /** What the configuration must satisfy: every name split `n` can answer leads to such a pool. */
  ghost predicate AllLead(b: Block, names: set<string>, n: string, ok: Demand) {
    forall group :: group in GroupNames(b) && CanAnswer(b, names, n, group) ==> Leads(b, n, group, ok)
  }

  lemma AssignableIsGroupName(b: Block, n: string, group: string)
    requires n in RouterOf(b.abSplits) && CanAssign(RouterOf(b.abSplits)[n], group)
    ensures group in GroupNames(b)
  {
    RouterFromList(b.abSplits, n);
  }

  lemma AnswerIsGroupName(b: Block, names: set<string>, n: string, group: string)
    requires CanAnswer(b, names, n, group)
    ensures group in GroupNames(b)
  {
    var splits := RouterOf(b.abSplits);
    if CanAssign(splits[n], group) {
      AssignableIsGroupName(b, n, group);
    } else {
      var m :| m in names && StickyIn(splits, names, m) && CanAssign(splits[m], group);
      AssignableIsGroupName(b, m, group);
    }
  }

  /** A split location meets a demand for one client, and so for all, exactly when every name
      its split can answer leads to a pool that meets it. */
  lemma SplitRoutesIff(b: Block, names: set<string>, regexOk: string -> bool, l: Location, client: string, ok: Demand)
    requires Validate(b, regexOk) == None && l in b.locations && IsProxy(l.handler) && l.handler.abSplit.Some?
    ensures Routes(b, names, l.handler, client, ok) <==> AllLead(b, names, l.handler.abSplit.value, ok)
  {
    SplitOfLocation(b, regexOk, l);
    if AllLead(b, names, l.handler.abSplit.value, ok) {
      forall hash: Hash, events: seq<Event> | LooksAt(events, names)
        ensures
          var r := Selected(b, l.handler, hash, events, client);
          r.Ok? && ok(r.value)
      {
        RouteMeets(b, names, l.handler, client, ok, hash, events);
      }
    }
    if Routes(b, names, l.handler, client, ok) {
      forall group | group in GroupNames(b) && CanAnswer(b, names, l.handler.abSplit.value, group)
        ensures Leads(b, l.handler.abSplit.value, group, ok)
      {
        RoutedLeads(b, names, l.handler, client, ok, group);
      }
    }
  }

  /** When all answers lead to a pool as demanded, each request is sent to one. */
  lemma RouteMeets(
    b: Block, names: set<string>, h: Handler, client: string, ok: Demand, hash: Hash, events: seq<Event>)
    requires h.abSplit.Some? && AllLead(b, names, h.abSplit.value, ok) && LooksAt(events, names)
    requires h.abSplit.value in RouterOf(b.abSplits)
    requires AbSplit.TotalWeight(RouterOf(b.abSplits)[h.abSplit.value]) > 0
    ensures
      var r := Selected(b, h, hash, events, client);
      r.Ok? && ok(r.value)
  {
    var n, splits := h.abSplit.value, RouterOf(b.abSplits);
    var answer := RouterAnswer(splits, hash, After(splits, hash, events).table, n, client);
    AnswerCanBe(b, names, n, client, hash, events);
    AnswerIsGroupName(b, names, n, answer.value);
    AnswerMeets(b, h, answer.value, ok);
  }

  /** And when each request is sent to a pool as demanded, all answers lead to one. */
  lemma RoutedLeads(b: Block, names: set<string>, h: Handler, client: string, ok: Demand, group: string)
    requires h.abSplit.Some? && Routes(b, names, h, client, ok) && CanAnswer(b, names, h.abSplit.value, group)
    ensures Leads(b, h.abSplit.value, group, ok)
  {
    var n, splits := h.abSplit.value, RouterOf(b.abSplits);
    CanBeAnswered(b, names, n, client, group);
    var hash: Hash, events: seq<Event> :| LooksAt(events, names) &&
      RouterAnswer(splits, hash, After(splits, hash, events).table, n, client) == Some(group);
    assert Selected(b, h, hash, events, client).Ok?;
    AnswerMeets(b, h, group, ok);
  }

  function AnyPool(): Demand {
    (u: Upstream) => true
  }

  function HasServers(): Demand {
    (u: Upstream) => u.servers != []
  }

  /** A location without a split selects a pool as demanded exactly when the inline one, or
      failing that the first shared one, is such a pool. */
  lemma PlainRoutesIff(b: Block, names: set<string>, regexOk: string -> bool, l: Location, client: string, ok: Demand)
    requires Validate(b, regexOk) == None && l in b.locations && IsProxy(l.handler) && l.handler.abSplit.None?
    ensures l.handler.upstream.None? ==> b.upstreams != [] && b.upstreams[0].servers != []
    ensures Routes(b, names, l.handler, client, ok) <==>
      ok(if l.handler.upstream.Some? then l.handler.upstream.value else b.upstreams[0])
  {
    assert LocationViolation(b, l, regexOk) == None;
    var hash: Hash := (session: string, split: string) => 0;
    var r := Selected(b, l.handler, hash, [], client);
    assert LooksAt([], names);
    assert forall h: Hash, events: seq<Event> :: Selected(b, l.handler, h, events, client) == r;
  }

  /** A validated proxy location finds an upstream for every hash and every run of earlier
      requests if and only if it has no split or every name its split can answer leads to a pool. */
  lemma RoutingTotalIff(b: Block, names: set<string>, regexOk: string -> bool, l: Location, client: string)
    requires Validate(b, regexOk) == None && l in b.locations && IsProxy(l.handler)
    ensures Routes(b, names, l.handler, client, AnyPool()) <==>
      (l.handler.abSplit.Some? ==> AllLead(b, names, l.handler.abSplit.value, AnyPool()))
  {
    if l.handler.abSplit.Some? {
      SplitRoutesIff(b, names, regexOk, l, client, AnyPool());
    } else {
      PlainRoutesIff(b, names, regexOk, l, client, AnyPool());
    }
  }

  /** Validation does not make the selected pool non-empty.  A validated proxy location selects a
      pool with servers, for every hash and every run of earlier requests, if and only if: with a
      split, every name the split can answer leads to a pool with servers; without one, its own
      upstream, when it has one, has servers. */
  lemma SelectedPoolHasServersIff(b: Block, names: set<string>, regexOk: string -> bool, l: Location, client: string)
    requires Validate(b, regexOk) == None && l in b.locations && IsProxy(l.handler)
    ensures Routes(b, names, l.handler, client, HasServers()) <==>
      if l.handler.abSplit.Some? then AllLead(b, names, l.handler.abSplit.value, HasServers())
      else !(l.handler.upstream.Some? && l.handler.upstream.value.servers == [])
  {
    if l.handler.abSplit.Some? {
      SplitRoutesIff(b, names, regexOk, l, client, HasServers());
    } else {
      PlainRoutesIff(b, names, regexOk, l, client, HasServers());
    }
  }

  // ---------------------------------------------------------------- distinct split names

  predicate DistinctNames(splits: seq<Split>) {
    forall i, j :: 0 <= i < j < |splits| ==> splits[i].name != splits[j].name
  }

  /** With distinct names the router and the block's list know the same splits. */
  lemma RouterMatchesList(b: Block, s: Split)
    requires DistinctNames(b.abSplits) && s in b.abSplits
    ensures s.name in RouterOf(b.abSplits) && RouterOf(b.abSplits)[s.name] == s
    ensures FindSplit(b, s.name) == Some(s)
  {
    var k :| 0 <= k < |b.abSplits| && b.abSplits[k] == s;
    RouterKeepsLast(b.abSplits, k);
  }

  predicate HasGroup(s: Split, group: string) {
    exists g :: g in s.groups && g.name == group
  }

  /** In a validated block a name leads to a pool exactly when the first split of that name has
      such a group. */
  lemma GroupHasPool(b: Block, regexOk: string -> bool, n: string, group: string)
    requires Validate(b, regexOk) == None
    ensures PoolOfGroup(b, n, group).Some? <==> FindSplit(b, n).Some? && HasGroup(FindSplit(b, n).value, group)
  {
    if FindSplit(b, n).Some? && FindGroup(FindSplit(b, n).value, group).Some? {
      var s := FindSplit(b, n).value;
      assert SplitViolation(b, s) == None;
      assert GroupViolation(b, s, FindGroup(s, group).value) == None;
    }
  }

  /** Every name that can be pinned is a group name of split `s`. */
  predicate KnowsPinned(b: Block, names: set<string>, s: Split) {
    forall group :: group in GroupNames(b) && CanBePinned(b, names, group) ==> HasGroup(s, group)
  }

  lemma AssignableIsGroup(s: Split, group: string)
    requires CanAssign(s, group)
    ensures HasGroup(s, group)
  {
    var point: nat :| point < AbSplit.TotalWeight(s) && NameAt(s, point, group);
    assert s.groups[PickIndex(s, point)] in s.groups;
  }

  /** When split names are distinct, all that can go wrong is a sticky split that finds a pinned
      name it does not know.  At most one sticky split in use rules that out. */
  lemma DistinctNamesRouteIff(b: Block, names: set<string>, regexOk: string -> bool, l: Location, client: string)
    requires Validate(b, regexOk) == None && l in b.locations && IsProxy(l.handler) && l.handler.abSplit.Some?
    requires DistinctNames(b.abSplits)
    ensures l.handler.abSplit.value in RouterOf(b.abSplits)
    ensures
      var s := RouterOf(b.abSplits)[l.handler.abSplit.value];
      Routes(b, names, l.handler, client, AnyPool()) <==> (s.sticky ==> KnowsPinned(b, names, s))
    ensures l.handler.abSplit.value in names && AtMostOneSticky(RouterOf(b.abSplits), names) ==>
      Routes(b, names, l.handler, client, AnyPool())
  {
    var n := l.handler.abSplit.value;
    SplitOfLocation(b, regexOk, l);
    RouterFromList(b.abSplits, n);
    var s := RouterOf(b.abSplits)[n];
    RouterMatchesList(b, s);
    RoutingTotalIff(b, names, regexOk, l, client);
    forall group ensures Leads(b, n, group, AnyPool()) <==> HasGroup(s, group) {
      LeadsToPool(b, n, group, AnyPool());
      GroupHasPool(b, regexOk, n, group);
    }
    forall group | CanAssign(s, group) ensures HasGroup(s, group) {
      AssignableIsGroup(s, group);
    }
    if n in names && AtMostOneSticky(RouterOf(b.abSplits), names) && s.sticky {
      assert StickyIn(RouterOf(b.abSplits), names, n);
    }
  }

  // ---------------------------------------------------------------- counterexamples

  /** A split of one group that takes every session. */
  function Whole(name: string, sticky: bool, group: string, upstream: string): Split {
    Split(name, sticky, [Group(group, upstream, 100)])
  }

  lemma WholeAssigns(s: Split, name: string, sticky: bool, group: string, upstream: string)
    requires s == Whole(name, sticky, group, upstream)
    ensures AbSplit.TotalWeight(s) == 100 && CanAssign(s, group)
  {
    assert GroupWeights(s) == [100];
    assert Prefix([100], 0) == 0 && Prefix([100], 1) == 100;
    assert NameAt(s, 0, group);
  }

  function ProxyTo(split: string): Location {
    Location("/" + split, "prefix", Handler("proxy", None, Some(split)))
  }

  lemma WholeIsOk(b: Block, name: string, sticky: bool, group: string, upstream: string)
    requires Defined(b, upstream)
    ensures SplitViolation(b, Whole(name, sticky, group, upstream)) == None
  {
    WholeAssigns(Whole(name, sticky, group, upstream), name, sticky, group, upstream);
  }

  /** A validated block whose split location sends every client to a pool without servers. */
  lemma EmptySplitPoolSelected(names: set<string>, client: string) returns (b: Block, l: Location)
    ensures Validate(b, _ => true) == None && l in b.locations && IsProxy(l.handler) && l.handler.abSplit.Some?
    ensures !Routes(b, names, l.handler, client, HasServers())
  {
    var pool, s := Upstream("p", [], "round-robin"), Whole("ab", false, "g", "p");
    l := ProxyTo("ab");
    b := Block([pool], [s], [l], None);
    assert pool in b.upstreams && s in b.abSplits;
    WholeIsOk(b, "ab", false, "g", "p");
    assert UpstreamViolation(pool) == None;
    assert LocationViolation(b, l, _ => true) == None;
    SelectedPoolHasServersIff(b, names, _ => true, l, client);
    RouterKeepsLast(b.abSplits, 0);
    WholeAssigns(s, "ab", false, "g", "p");
    assert s.groups[0] in s.groups && s.groups[0].name == "g";
    assert "g" in GroupNames(b) && CanAnswer(b, names, "ab", "g");
  }

  function OnePool(): Upstream {
    Upstream("p", [Server("192.0.2.1:80", 1)], "round-robin")
  }

  /** A block with two splits over one pool, each with a location. */
  function TwoSplits(sticky: bool, m: string, x: string, n: string, y: string): Block {
    Block([OnePool()], [Whole(m, sticky, x, "p"), Whole(n, sticky, y, "p")], [ProxyTo(m), ProxyTo(n)], None)
  }

  lemma TwoSplitsValidate(b: Block, sticky: bool, m: string, x: string, n: string, y: string)
    requires b == TwoSplits(sticky, m, x, n, y)
    ensures Validate(b, _ => true) == None && ProxyTo(m) in b.locations && ProxyTo(n) in b.locations
  {
    assert OnePool() in b.upstreams;
    WholeIsOk(b, m, sticky, x, "p");
    WholeIsOk(b, n, sticky, y, "p");
    var s, t := Whole(m, sticky, x, "p"), Whole(n, sticky, y, "p");
    assert s in b.abSplits && t in b.abSplits && s.name == m && t.name == n;
    assert UpstreamViolation(OnePool()) == None;
    assert LocationViolation(b, ProxyTo(m), _ => true) == None;
    assert LocationViolation(b, ProxyTo(n), _ => true) == None;
  }

  lemma WholeGroups(b: Block, s: Split, name: string, sticky: bool, group: string, upstream: string)
    requires s == Whole(name, sticky, group, upstream) && s in b.abSplits
    ensures group in GroupNames(b) && forall other :: other != group ==> !HasGroup(s, other)
  {
    assert s.groups[0] in s.groups && s.groups[0].name == group;
  }

  /** A validated block with two splits of one name: the router picks a group of the last, the
      list is searched for it in the first, and every client gets 502. */
  lemma DuplicateNamesStrand(names: set<string>, client: string) returns (b: Block, l: Location)
    ensures Validate(b, _ => true) == None && l in b.locations && IsProxy(l.handler)
    ensures !Routes(b, names, l.handler, client, AnyPool())
  {
    b, l := TwoSplits(false, "ab", "old", "ab", "new"), ProxyTo("ab");
    TwoSplitsValidate(b, false, "ab", "old", "ab", "new");
    LastSplitStrands(b, names, l, client);
  }

  lemma LastSplitStrands(b: Block, names: set<string>, l: Location, client: string)
    requires b == TwoSplits(false, "ab", "old", "ab", "new") && l == ProxyTo("ab")
    requires Validate(b, _ => true) == None && l in b.locations
    ensures !Routes(b, names, l.handler, client, AnyPool())
  {
    RoutingTotalIff(b, names, _ => true, l, client);
    RouterKeepsLast(b.abSplits, 1);
    var s, t := b.abSplits[0], b.abSplits[1];
    WholeAssigns(t, "ab", false, "new", "p");
    WholeGroups(b, t, "ab", false, "new", "p");
    WholeGroups(b, s, "ab", false, "old", "p");
    GroupHasPool(b, _ => true, "ab", "new");
    assert FindSplit(b, "ab") == Some(s);
    LeadsToPool(b, "ab", "new", AnyPool());
    assert CanAnswer(b, names, "ab", "new") && !Leads(b, "ab", "new", AnyPool());
  }

  /** A validated block with two sticky splits in use: a client pinned through the first gets 502
      from the second. */
  lemma StickySplitsStrand(names: set<string>, client: string) returns (b: Block, l: Location)
    requires "x" in names
    ensures b.locations == [ProxyTo("x"), ProxyTo("y")] && l == ProxyTo("y")
    ensures Validate(b, _ => true) == None && l in b.locations && IsProxy(l.handler) && DistinctNames(b.abSplits)
    ensures !Routes(b, names, l.handler, client, AnyPool())
  {
    b, l := TwoSplits(true, "x", "a", "y", "b"), ProxyTo("y");
    TwoSplitsValidate(b, true, "x", "a", "y", "b");
    PinnedElsewhereStrands(b, names, l, client);
  }

  lemma PinnedElsewhereStrands(b: Block, names: set<string>, l: Location, client: string)
    requires b == TwoSplits(true, "x", "a", "y", "b") && l == ProxyTo("y")
    requires Validate(b, _ => true) == None && l in b.locations && "x" in names
    ensures DistinctNames(b.abSplits) && !Routes(b, names, l.handler, client, AnyPool())
  {
    DistinctNamesRouteIff(b, names, _ => true, l, client);
    PinnedElsewhere(b, names);
    RouterMatchesList(b, b.abSplits[1]);
    WholeGroups(b, b.abSplits[1], "y", true, "b", "p");
  }

  lemma PinnedElsewhere(b: Block, names: set<string>)
    requires b == TwoSplits(true, "x", "a", "y", "b") && "x" in names && DistinctNames(b.abSplits)
    ensures "a" in GroupNames(b) && CanBePinned(b, names, "a")
  {
    var s := b.abSplits[0];
    RouterMatchesList(b, s);
    WholeAssigns(s, "x", true, "a", "p");
    WholeGroups(b, s, "x", true, "a", "p");
    assert StickyIn(RouterOf(b.abSplits), names, "x");
  }

  /** A validated block whose only location, without a split, selects an empty inline pool: the
      inline upstream is accepted because the first shared pool has servers. */
  lemma EmptyPoolSelected(names: set<string>, client: string) returns (b: Block, l: Location)
    ensures Validate(b, _ => true) == None && l in b.locations && IsProxy(l.handler) && l.handler.abSplit.None?
    ensures !Routes(b, names, l.handler, client, HasServers())
  {
    var shared := Upstream("shared", [Server("192.0.2.1:80", 1)], "round-robin");
    l := Location("/", "prefix", Handler("proxy", Some(Upstream("inline", [], "round-robin")), None));
    b := Block([shared], [], [l], None);
    assert UpstreamViolation(shared) == None;
    assert UpstreamViolation(l.handler.upstream.value) == None;
    assert LocationViolation(b, l, _ => true) == None;
    SelectedPoolHasServersIff(b, names, _ => true, l, client);
  }
}
