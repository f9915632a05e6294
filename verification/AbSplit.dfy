/** Weighted A/B splitting with a sticky-session table (src/absplit.rs).

    The session hash is an arbitrary function.  Weights are summed in 32 bits, wrapping as a
    release build does.  The table lookup and the table insertion of one `resolve` are separate
    critical sections, so the model interleaves them for any number of concurrent calls. */
module AbSplit {
  import opened Prelude
  import opened Cumulative

  const MAX_STICKY_SESSIONS: nat := 10_000

  datatype Group = Group(name: string, upstream: string, weight: u32)
  datatype Split = Split(name: string, sticky: bool, groups: seq<Group>)

  type Hash = (string, string) -> nat
  type Splits = map<string, Split>
  type Table = map<string, string>

  function GroupWeights(s: Split): seq<nat> {
    seq(|s.groups|, i requires 0 <= i < |s.groups| => s.groups[i].weight)
  }

  /** The weight of the first `i` groups, summed in 32 bits. */
  function Running(s: Split, i: nat): nat
    requires i <= |s.groups|
  {
    Prefix(GroupWeights(s), i) % U32
  }

  /** The precomputed total. */
  function TotalWeight(s: Split): nat {
    Running(s, |s.groups|)
  }

  predicate NoOverflow(s: Split) {
    Total(GroupWeights(s)) < U32
  }

  // ---------------------------------------------------------------- the pure assignment

  /** The first group whose running sum exceeds the point.  There is always one, because the last
      running sum is the total: the fall-through of `resolve` is never reached. */
  function PickIndex(s: Split, point: nat): (i: nat)
    requires point < TotalWeight(s)
    ensures i < |s.groups| && point < Running(s, i + 1)
    ensures forall j :: 0 < j <= i ==> Running(s, j) <= point
  {
    PickFrom(s, point, 0)
  }

  function PickFrom(s: Split, point: nat, k: nat): (i: nat)
    requires point < TotalWeight(s) && k <= |s.groups|
    requires forall j :: 0 < j <= k ==> Running(s, j) <= point
    ensures i < |s.groups| && point < Running(s, i + 1)
    ensures forall j :: 0 < j <= i ==> Running(s, j) <= point
    decreases |s.groups| - k
  {
    assert Running(s, 0) == 0;
    if point < Running(s, k + 1) then k else PickFrom(s, point, k + 1)
  }

  /** The loop of `resolve` over the running weight. */
  method PickGroup(s: Split, point: nat) returns (i: nat)
    ensures i <= |s.groups|
    ensures point < TotalWeight(s) ==> i == PickIndex(s, point)
  {
    var cumulative := 0;
    i := 0;
    while i < |s.groups|
      invariant i <= |s.groups| && cumulative == Running(s, i)
      invariant forall j :: 0 < j <= i ==> Running(s, j) <= point
    {
      RunningStep(s, i);
      cumulative := (cumulative + s.groups[i].weight) % U32;
      if point < cumulative {
        return;
      }
      i := i + 1;
    }
    assert Running(s, 0) == 0;
  }

  lemma RunningStep(s: Split, i: nat)
    requires i < |s.groups|
    ensures Running(s, i + 1) == (Running(s, i) + s.groups[i].weight) % U32
  {
  }

  /** When the weights fit 32 bits the group picked is the owner of the point. */
  lemma PickIsOwner(s: Split, point: nat)
    requires NoOverflow(s) && point < TotalWeight(s)
    ensures Owns(GroupWeights(s), PickIndex(s, point), point)
  {
    var i := PickIndex(s, point);
    RunningIsPrefix(s, i + 1);
    RunningIsPrefix(s, i);
    assert i > 0 ==> Running(s, i) <= point;
  }

  lemma RunningIsPrefix(s: Split, i: nat)
    requires NoOverflow(s) && i <= |s.groups|
    ensures Running(s, i) == Prefix(GroupWeights(s), i)
  {
    PrefixMonotone(GroupWeights(s), i, |s.groups|);
    SmallMod(Prefix(GroupWeights(s), i), U32);
  }

  /** Each group then owns exactly `weight` of the points, a zero-weight group none. */
  lemma GroupShare(s: Split, i: nat)
    requires i < |s.groups| && Total(GroupWeights(s)) > 0
    ensures Share(GroupWeights(s), i, 0, Total(GroupWeights(s))) == s.groups[i].weight
    ensures s.groups[i].weight == 0 ==> forall p :: !Owns(GroupWeights(s), i, p)
  {
    FullRound(GroupWeights(s), i, 0);
  }

  /** The point of [0, total) a session is hashed to. */
  function Point(s: Split, hash: Hash, session: string): nat
    requires TotalWeight(s) > 0
  {
    (hash(session, s.name) % U32) % TotalWeight(s)
  }

  /** The assignment without any table. */
  function Assign(s: Split, hash: Hash, session: string): Option<string> {
    if TotalWeight(s) == 0 then None else Some(s.groups[PickIndex(s, Point(s, hash, session))].name)
  }

  /** The group name some point of the split is assigned to. */
  predicate NameAt(s: Split, point: nat, name: string) {
    point < TotalWeight(s) && s.groups[PickIndex(s, point)].name == name
  }

  predicate CanAssign(s: Split, name: string) {
    exists point: nat :: point < TotalWeight(s) && NameAt(s, point, name)
  }

  lemma AssignedCanBe(s: Split, hash: Hash, session: string)
    requires TotalWeight(s) > 0
    ensures Assign(s, hash, session).Some? && CanAssign(s, Assign(s, hash, session).value)
  {
    assert NameAt(s, Point(s, hash, session), Assign(s, hash, session).value);
  }

  /** A hash that sends a session to a chosen point. */
  lemma HashTo(s: Split, hash: Hash, session: string, point: nat)
    requires point < TotalWeight(s) && hash(session, s.name) == point
    ensures Assign(s, hash, session) == Some(s.groups[PickIndex(s, point)].name)
  {
    SmallMod(point, U32);
    SmallMod(point, TotalWeight(s));
  }

  /** With weights that fit, the names a split can assign are those of its groups of positive
      weight. */
  lemma CanAssignIffPositive(s: Split, name: string)
    requires NoOverflow(s)
    ensures CanAssign(s, name) <==>
      exists i :: 0 <= i < |s.groups| && s.groups[i].weight > 0 && s.groups[i].name == name
  {
    var ws := GroupWeights(s);
    RunningIsPrefix(s, |s.groups|);
    if CanAssign(s, name) {
      var point: nat :| point < TotalWeight(s) && NameAt(s, point, name);
      PickIsOwner(s, point);
      assert ws[PickIndex(s, point)] == s.groups[PickIndex(s, point)].weight;
    }
    if i :| 0 <= i < |s.groups| && s.groups[i].weight > 0 && s.groups[i].name == name {
      var point := Prefix(ws, i);
      assert ws[i] == s.groups[i].weight;
      PrefixMonotone(ws, i + 1, |ws|);
      PickIsOwner(s, point);
      OwnerUnique(ws, i, PickIndex(s, point), point);
      assert NameAt(s, point, name);
    }
  }

  // ---------------------------------------------------------------- proportions

  /** The reference: the sum of the weights as they are written, in all and of one group name. */
  function WeightSum(groups: seq<Group>): nat {
    if groups == [] then 0 else WeightSum(groups[..|groups| - 1]) + groups[|groups| - 1].weight
  }

  function WeightNamed(groups: seq<Group>, name: string): nat {
    if groups == [] then 0
    else
      var last := groups[|groups| - 1];
      WeightNamed(groups[..|groups| - 1], name) + if last.name == name then last.weight else 0
  }

  lemma {:induction false} PrefixIsWeightSum(s: Split, i: nat)
    requires i <= |s.groups|
    ensures Prefix(GroupWeights(s), i) == WeightSum(s.groups[..i])
    ensures i == |s.groups| ==> Total(GroupWeights(s)) == WeightSum(s.groups)
  {
    if i > 0 {
      PrefixIsWeightSum(s, i - 1);
      assert s.groups[..i][..i - 1] == s.groups[..i - 1];
    }
    assert s.groups[..|s.groups|] == s.groups;
  }

  /** The hash function that answers `v`. */
  function Always(v: nat): Hash {
    (session: string, split: string) => v
  }

  /** How many of the hash values h, ..., h + n - 1 assign the session to a group of this name. */
  function AssignedTo(s: Split, session: string, name: string, h: nat, n: nat): nat {
    if n == 0 then 0
    else
      AssignedTo(s, session, name, h, n - 1) +
      if Assign(s, Always(h + n - 1), session) == Some(name) then 1 else 0
  }

  /** The share that the groups of a name among the first `k` have in the ticks lo, ..., hi - 1. */
  function NamedShare(s: Split, name: string, lo: nat, hi: nat, k: nat): nat
    requires k <= |s.groups| && lo <= hi && Total(GroupWeights(s)) > 0
  {
    if k == 0 then 0
    else
      NamedShare(s, name, lo, hi, k - 1) +
      if s.groups[k - 1].name == name then Share(GroupWeights(s), k - 1, lo, hi) else 0
  }

  /** One more tick adds one to the share of the name of its owner. */
  lemma {:induction false} NamedShareStep(s: Split, name: string, lo: nat, hi: nat, k: nat, i: nat)
    requires k <= |s.groups| && lo < hi && Total(GroupWeights(s)) > 0
    requires Owns(GroupWeights(s), i, (hi - 1) % Total(GroupWeights(s)))
    ensures NamedShare(s, name, lo, hi, k) ==
      NamedShare(s, name, lo, hi - 1, k) + if i < k && s.groups[i].name == name then 1 else 0
  {
    if k > 0 {
      NamedShareStep(s, name, lo, hi, k - 1, i);
      if Owns(GroupWeights(s), k - 1, (hi - 1) % Total(GroupWeights(s))) {
        OwnerUnique(GroupWeights(s), i, k - 1, (hi - 1) % Total(GroupWeights(s)));
      }
    }
  }

  lemma {:induction false} NamedShareEmpty(s: Split, name: string, h: nat, k: nat)
    requires k <= |s.groups| && Total(GroupWeights(s)) > 0
    ensures NamedShare(s, name, h, h, k) == 0
  {
    if k > 0 {
      NamedShareEmpty(s, name, h, k - 1);
    }
  }

  /** Hash values that agree modulo 2^32 are assigned alike. */
  lemma AssignedAlike(s: Split, a: Hash, b: Hash, session: string)
    requires a(session, s.name) % U32 == b(session, s.name) % U32
    ensures Assign(s, a, session) == Assign(s, b, session)
  {
  }

  /** A 32-bit hash value is assigned to the owner of its remainder by the total weight. */
  lemma AssignedToOwner(s: Split, session: string, v: nat) returns (i: nat)
    requires NoOverflow(s) && Total(GroupWeights(s)) > 0 && v < U32
    ensures Owns(GroupWeights(s), i, v % Total(GroupWeights(s)))
    ensures Assign(s, Always(v), session) == Some(s.groups[i].name)
  {
    RunningIsPrefix(s, |s.groups|);
    SmallMod(v, U32);
    i := PickIndex(s, v % TotalWeight(s));
    PickIsOwner(s, v % TotalWeight(s));
  }

  lemma {:induction false} AssignedIsShare(s: Split, session: string, name: string, h: nat, n: nat)
    requires NoOverflow(s) && Total(GroupWeights(s)) > 0 && h + n <= U32
    ensures AssignedTo(s, session, name, h, n) == NamedShare(s, name, h, h + n, |s.groups|)
  {
    if n == 0 {
      NamedShareEmpty(s, name, h, |s.groups|);
    } else {
      AssignedIsShare(s, session, name, h, n - 1);
      var i := AssignedToOwner(s, session, h + n - 1);
      NamedShareStep(s, name, h, h + n, |s.groups|, i);
    }
  }

  lemma {:induction false} NamedShareOfRound(s: Split, name: string, h: nat, k: nat)
    requires k <= |s.groups| && Total(GroupWeights(s)) > 0
    ensures NamedShare(s, name, h, h + Total(GroupWeights(s)), k) == WeightNamed(s.groups[..k], name)
  {
    if k > 0 {
      NamedShareOfRound(s, name, h, k - 1);
      FullRound(GroupWeights(s), k - 1, h);
      assert s.groups[..k][..k - 1] == s.groups[..k - 1];
    }
  }

  lemma {:induction false} NamedAtMostSum(groups: seq<Group>, name: string)
    ensures WeightNamed(groups, name) <= WeightSum(groups)
  {
    if groups != [] {
      NamedAtMostSum(groups[..|groups| - 1], name);
    }
  }

  /** Sessions are split in proportion to the weights: when they fit 32 bits, of any W consecutive
      32-bit hash values, W being the sum of the weights, exactly as many assign a session to a
      group name as the groups of that name weigh. */
  lemma SplitIsProportional(s: Split, session: string, name: string, h: nat)
    requires h + WeightSum(s.groups) <= U32 && WeightSum(s.groups) < U32
    ensures AssignedTo(s, session, name, h, WeightSum(s.groups)) == WeightNamed(s.groups, name)
  {
    PrefixIsWeightSum(s, |s.groups|);
    if WeightSum(s.groups) == 0 {
      NamedAtMostSum(s.groups, name);
    } else {
      AssignedIsShare(s, session, name, h, WeightSum(s.groups));
      NamedShareOfRound(s, name, h, |s.groups|);
      assert s.groups[..|s.groups|] == s.groups;
    }
  }

  // ---------------------------------------------------------------- the router

  /** `AbSplitRouter::new`: later splits replace earlier ones of the same name. */
  function RouterOf(list: seq<Split>): Splits {
    if list == [] then map[] else RouterOf(list[..|list| - 1])[list[|list| - 1].name := list[|list| - 1]]
  }

  /** The last split of a name is the one found under it. */
  lemma {:induction false} RouterKeepsLast(list: seq<Split>, k: nat)
    requires k < |list| && forall j :: k < j < |list| ==> list[j].name != list[k].name
    ensures list[k].name in RouterOf(list) && RouterOf(list)[list[k].name] == list[k]
  {
    if k < |list| - 1 {
      RouterKeepsLast(list[..|list| - 1], k);
    }
  }

  lemma {:induction false} RouterFromList(list: seq<Split>, name: string)
    requires name in RouterOf(list)
    ensures RouterOf(list)[name] in list && RouterOf(list)[name].name == name
  {
    var n := |list| - 1;
    if name != list[n].name {
      RouterFromList(list[..n], name);
    }
  }

  lemma {:induction false} RouterKnows(list: seq<Split>, s: Split)
    requires s in list
    ensures s.name in RouterOf(list)
  {
    var n := |list| - 1;
    if s != list[n] {
      assert list == list[..n] + [list[n]];
      RouterKnows(list[..n], s);
    }
  }

  /** The table after pinning a session: a full table is emptied first. */
  function AfterPin(t: Table, session: string, group: string): Table {
    (if |t| >= MAX_STICKY_SESSIONS then map[] else t)[session := group]
  }

  class AbSplitRouter {
    const splits: Splits
    var table: Table

    constructor (list: seq<Split>)
      ensures splits == RouterOf(list) && table == map[]
    {
      var m := map[];
      for k := 0 to |list|
        invariant m == RouterOf(list[..k])
      {
        assert list[..k + 1][..k] == list[..k];
        m := m[list[k].name := list[k]];
      }
      assert list[..|list|] == list;
      splits, table := m, map[];
    }

    /** `resolve` without interference between its two critical sections. */
    method Resolve(name: string, session: string, hash: Hash) returns (r: Option<string>)
      modifies this
      ensures name !in splits ==> r == None && table == old(table)
      ensures name in splits && splits[name].sticky && session in old(table) ==>
        r == Some(old(table)[session]) && table == old(table)
      ensures name in splits && !(splits[name].sticky && session in old(table)) ==>
        && r == Assign(splits[name], hash, session)
        && table == if splits[name].sticky && r.Some? then AfterPin(old(table), session, r.value) else old(table)
    {
      if name !in splits {
        return None;
      }
      var s := splits[name];
      if s.sticky && session in table {
        return Some(table[session]);
      }
      if TotalWeight(s) == 0 {
        return None;
      }
      var i := PickGroup(s, Point(s, hash, session));
      if s.sticky {
        if |table| >= MAX_STICKY_SESSIONS {
          table := map[];
        }
        table := table[session := s.groups[i].name];
      }
      return Some(s.groups[i].name);
    }
  }

  // ---------------------------------------------------------------- interleavings

  /** Where a call is: it has chosen a group it still has to pin, or it has answered. */
  datatype Call =
    | Pinning(split: string, session: string, group: string)
    | Answered(split: string, session: string, answer: Option<string>)

  datatype State = State(table: Table, calls: map<nat, Call>)

  datatype Event = Look(call: nat, split: string, session: string) | Pin(call: nat)

  /** The assignment by split name. */
  function Pure(splits: Splits, hash: Hash, name: string, session: string): Option<string> {
    if name in splits then Assign(splits[name], hash, session) else None
  }

  function AfterLook(splits: Splits, hash: Hash, table: Table, name: string, session: string): Call {
    if name in splits && splits[name].sticky && session in table then Answered(name, session, Some(table[session]))
    else
      var answer := Pure(splits, hash, name, session);
      if answer.Some? && splits[name].sticky then Pinning(name, session, answer.value)
      else Answered(name, session, answer)
  }

  function Step(splits: Splits, hash: Hash, s: State, e: Event): State {
    match e
    case Look(call, name, session) =>
      if call in s.calls then s
      else s.(calls := s.calls[call := AfterLook(splits, hash, s.table, name, session)])
    case Pin(call) =>
      if call in s.calls && s.calls[call].Pinning? then
        var Pinning(name, session, group) := s.calls[call];
        State(AfterPin(s.table, session, group), s.calls[call := Answered(name, session, Some(group))])
      else s
  }

  function After(splits: Splits, hash: Hash, events: seq<Event>): State {
    if events == [] then State(map[], map[])
    else Step(splits, hash, After(splits, hash, events[..|events| - 1]), events[|events| - 1])
  }

  /** The two steps of one call without others in between do what a whole `resolve` does. */
  lemma CallAlone(splits: Splits, hash: Hash, s: State, call: nat, name: string, session: string)
    requires call !in s.calls
    ensures
      var done := Step(splits, hash, Step(splits, hash, s, Look(call, name, session)), Pin(call));
      var pinned := name in splits && splits[name].sticky && session in s.table;
      var r :=
        if pinned then Some(s.table[session])
        else if name in splits then Assign(splits[name], hash, session)
        else None;
      && done.calls == s.calls[call := Answered(name, session, r)]
      && done.table ==
           if !pinned && r.Some? && splits[name].sticky
           then (if |s.table| >= 10_000 then map[] else s.table)[session := r.value]
           else s.table
  {
  }

  /** The run looks up only splits of these names. */
  predicate LooksAt(events: seq<Event>, names: set<string>) {
    forall i :: 0 <= i < |events| && events[i].Look? ==> events[i].split in names
  }

  /** Every answer given in the run is the pure assignment. */
  predicate Transparent(splits: Splits, hash: Hash, s: State) {
    forall c :: c in s.calls && s.calls[c].Answered? ==>
      s.calls[c].answer == Pure(splits, hash, s.calls[c].split, s.calls[c].session)
  }

  /** Every answer given to one session is the pure assignment. */
  predicate TransparentTo(splits: Splits, hash: Hash, s: State, session: string) {
    forall c :: c in s.calls && s.calls[c].Answered? && s.calls[c].session == session ==>
      s.calls[c].answer == Pure(splits, hash, s.calls[c].split, session)
  }

  /** Two sticky splits never assign a session to differently named groups: whatever the first
      can assign is all that the second can assign. */
  ghost predicate StickyAgree(a: Split, b: Split) {
    forall x: string :: CanAssign(a, x) ==> TotalWeight(b) > 0 && forall y: string :: CanAssign(b, y) ==> x == y
  }

  predicate StickyIn(splits: Splits, names: set<string>, m: string) {
    m in names && m in splits && splits[m].sticky
  }

  /** What the configuration must satisfy: no two of the sticky splits in use can disagree. */
  ghost predicate NoCrossTalk(splits: Splits, names: set<string>) {
    forall m, n :: StickyIn(splits, names, m) && StickyIn(splits, names, n) && m != n ==>
      StickyAgree(splits[m], splits[n])
  }

  predicate AtMostOneSticky(splits: Splits, names: set<string>) {
    forall m, n :: m in names && n in names && StickyIn(splits, names, m) && StickyIn(splits, names, n) ==> m == n
  }

  /** The group named `group` is what some sticky split in use assigns to the session. */
  predicate PinnedBy(splits: Splits, names: set<string>, hash: Hash, session: string, group: string) {
    exists m :: m in names && StickyIn(splits, names, m) && Assign(splits[m], hash, session) == Some(group)
  }

  predicate CallInv(splits: Splits, names: set<string>, hash: Hash, call: Call) {
    && call.split in names
    && match call
       case Pinning(split, session, group) =>
         PinnedBy(splits, names, hash, session, group) && Pure(splits, hash, split, session) == Some(group)
       case Answered(split, session, answer) => answer == Pure(splits, hash, split, session)
  }

  predicate TableInv(splits: Splits, names: set<string>, hash: Hash, t: Table) {
    |t| <= MAX_STICKY_SESSIONS && forall x :: x in t ==> PinnedBy(splits, names, hash, x, t[x])
  }

  predicate CallsInv(splits: Splits, names: set<string>, hash: Hash, calls: map<nat, Call>) {
    forall c :: c in calls ==> CallInv(splits, names, hash, calls[c])
  }

  predicate Inv(splits: Splits, names: set<string>, hash: Hash, s: State) {
    TableInv(splits, names, hash, s.table) && CallsInv(splits, names, hash, s.calls)
  }

  /** Two sticky splits that agree assign alike wherever the first assigns at all. */
  lemma AgreeingAssign(a: Split, b: Split, hash: Hash, session: string)
    requires StickyAgree(a, b) && Assign(a, hash, session).Some?
    ensures Assign(b, hash, session) == Assign(a, hash, session)
  {
    AssignedCanBe(a, hash, session);
    AssignedCanBe(b, hash, session);
  }

  lemma TableAnswerIsPure(
    splits: Splits, names: set<string>, hash: Hash, name: string, session: string, group: string)
    requires NoCrossTalk(splits, names) && StickyIn(splits, names, name)
    requires PinnedBy(splits, names, hash, session, group)
    ensures Pure(splits, hash, name, session) == Some(group)
  {
    var m :| m in names && StickyIn(splits, names, m) && Assign(splits[m], hash, session) == Some(group);
    if m != name {
      AgreeingAssign(splits[m], splits[name], hash, session);
    }
  }

  lemma PinSize(t: Table, session: string, group: string)
    requires |t| <= MAX_STICKY_SESSIONS
    ensures |AfterPin(t, session, group)| <= MAX_STICKY_SESSIONS
  {
    var kept: Table := if |t| >= MAX_STICKY_SESSIONS then map[] else t;
    assert AfterPin(t, session, group).Keys == kept.Keys + {session};
    assert |kept.Keys + {session}| <= |kept.Keys| + 1;
  }

  lemma LookKeepsInv(splits: Splits, names: set<string>, hash: Hash, table: Table, name: string, session: string)
    requires NoCrossTalk(splits, names) && name in names
    requires session in table ==> PinnedBy(splits, names, hash, session, table[session])
    ensures CallInv(splits, names, hash, AfterLook(splits, hash, table, name, session))
  {
    if name in splits && splits[name].sticky && session in table {
      TableAnswerIsPure(splits, names, hash, name, session, table[session]);
    }
  }

  lemma PinKeepsInv(splits: Splits, names: set<string>, hash: Hash, t: Table, session: string, group: string)
    requires TableInv(splits, names, hash, t) && PinnedBy(splits, names, hash, session, group)
    ensures TableInv(splits, names, hash, AfterPin(t, session, group))
  {
    PinSize(t, session, group);
  }

  lemma CallsInvUpdate(
    splits: Splits, names: set<string>, hash: Hash, calls: map<nat, Call>, c: nat, call: Call)
    requires CallsInv(splits, names, hash, calls) && CallInv(splits, names, hash, call)
    ensures CallsInv(splits, names, hash, calls[c := call])
  {
  }

  lemma StepKeepsInv(splits: Splits, names: set<string>, hash: Hash, s: State, e: Event)
    requires NoCrossTalk(splits, names) && Inv(splits, names, hash, s) && (e.Look? ==> e.split in names)
    ensures Inv(splits, names, hash, Step(splits, hash, s, e))
  {
    match e
    case Look(call, name, session) =>
      LookKeepsInv(splits, names, hash, s.table, name, session);
      CallsInvUpdate(splits, names, hash, s.calls, call, AfterLook(splits, hash, s.table, name, session));
    case Pin(call) =>
      if call in s.calls && s.calls[call].Pinning? {
        var Pinning(name, session, group) := s.calls[call];
        assert CallInv(splits, names, hash, s.calls[call]);
        PinKeepsInv(splits, names, hash, s.table, session, group);
        CallsInvUpdate(splits, names, hash, s.calls, call, Answered(name, session, Some(group)));
      }
  }

  /** In every interleaving every answer is the pure hash assignment, so pinning and table
      clears are invisible, and the table never exceeds its bound. */
  lemma {:induction false} TableIsInvisible(splits: Splits, names: set<string>, hash: Hash, events: seq<Event>)
    requires NoCrossTalk(splits, names) && LooksAt(events, names)
    ensures Inv(splits, names, hash, After(splits, hash, events))
    ensures Transparent(splits, hash, After(splits, hash, events))
  {
    if events != [] {
      var n := |events| - 1;
      TableIsInvisible(splits, names, hash, events[..n]);
      StepKeepsInv(splits, names, hash, After(splits, hash, events[..n]), events[n]);
    }
  }

  predicate PendingPinned(splits: Splits, names: set<string>, hash: Hash, calls: map<nat, Call>) {
    forall c :: c in calls && calls[c].Pinning? ==> PinnedBy(splits, names, hash, calls[c].session, calls[c].group)
  }

  lemma LookIsPinned(splits: Splits, names: set<string>, hash: Hash, table: Table, name: string, session: string)
    requires name in names
    ensures
      var call := AfterLook(splits, hash, table, name, session);
      call.Pinning? ==> PinnedBy(splits, names, hash, call.session, call.group)
  {
    var call := AfterLook(splits, hash, table, name, session);
    assert call.Pinning? ==> StickyIn(splits, names, name);
  }

  lemma PendingPinnedUpdate(
    splits: Splits, names: set<string>, hash: Hash, calls: map<nat, Call>, c: nat, call: Call)
    requires PendingPinned(splits, names, hash, calls)
    requires call.Pinning? ==> PinnedBy(splits, names, hash, call.session, call.group)
    ensures PendingPinned(splits, names, hash, calls[c := call])
  {
  }

  lemma StepKeepsPinned(splits: Splits, names: set<string>, hash: Hash, s: State, e: Event)
    requires TableInv(splits, names, hash, s.table) && PendingPinned(splits, names, hash, s.calls)
    requires e.Look? ==> e.split in names
    ensures TableInv(splits, names, hash, Step(splits, hash, s, e).table)
    ensures PendingPinned(splits, names, hash, Step(splits, hash, s, e).calls)
  {
    match e
    case Look(call, name, session) =>
      LookIsPinned(splits, names, hash, s.table, name, session);
      PendingPinnedUpdate(splits, names, hash, s.calls, call, AfterLook(splits, hash, s.table, name, session));
    case Pin(call) =>
      if call in s.calls && s.calls[call].Pinning? {
        var Pinning(name, session, group) := s.calls[call];
        PinKeepsInv(splits, names, hash, s.table, session, group);
        PendingPinnedUpdate(splits, names, hash, s.calls, call, Answered(name, session, Some(group)));
      }
  }

  /** Whatever the configuration, the table stays within its bound and holds nothing but
      assignments of the sticky splits that were looked up. */
  lemma {:induction false} TableHoldsAssignments(splits: Splits, names: set<string>, hash: Hash, events: seq<Event>)
    requires LooksAt(events, names)
    ensures TableInv(splits, names, hash, After(splits, hash, events).table)
    ensures PendingPinned(splits, names, hash, After(splits, hash, events).calls)
  {
    if events != [] {
      var n := |events| - 1;
      TableHoldsAssignments(splits, names, hash, events[..n]);
      StepKeepsPinned(splits, names, hash, After(splits, hash, events[..n]), events[n]);
    }
  }

  /** A hash with chosen points for two splits. */
  function TwoPoints(name: string, point: nat, other: nat): Hash {
    (session: string, split: string) => if split == name then point else other
  }

  /** Two sticky splits that can disagree do so for some hash, on any session. */
  lemma DisagreeingHash(a: Split, b: Split, session: string) returns (hash: Hash)
    requires a.name != b.name && !StickyAgree(a, b)
    ensures Assign(a, hash, session).Some? && Assign(b, hash, session) != Assign(a, hash, session)
  {
    var x: string :| CanAssign(a, x) &&
      !(TotalWeight(b) > 0 && forall y: string :: CanAssign(b, y) ==> x == y);
    var pa: nat :| pa < TotalWeight(a) && NameAt(a, pa, x);
    var pb := 0;
    if TotalWeight(b) > 0 {
      var y: string :| CanAssign(b, y) && x != y;
      pb :| 0 <= pb < TotalWeight(b) && NameAt(b, pb, y);
      hash := TwoPoints(a.name, pa, pb);
      HashTo(b, hash, session, pb);
    } else {
      hash := TwoPoints(a.name, pa, pb);
    }
    HashTo(a, hash, session, pa);
  }

  /** A session pinned through split `m`. */
  lemma PinRun(splits: Splits, hash: Hash, m: string, session: string) returns (events: seq<Event>)
    requires m in splits && splits[m].sticky && Assign(splits[m], hash, session).Some?
    ensures LooksAt(events, {m})
    ensures After(splits, hash, events).table == map[session := Assign(splits[m], hash, session).value]
    ensures After(splits, hash, events).calls.Keys == {0}
  {
    var g := Assign(splits[m], hash, session).value;
    var e0 := [Look(0, m, session)];
    events := [Look(0, m, session), Pin(0)];
    assert e0[..0] == [] && events[..1] == e0;
    assert After(splits, hash, []) == State(map[], map[]);
    assert After(splits, hash, e0) == State(map[], map[0 := Pinning(m, session, g)]);
    assert After(splits, hash, events) == State(map[session := g], map[0 := Answered(m, session, Some(g))]);
  }

  /** So crosstalk shows: the second split answers with the first one's group. */
  lemma CrossTalkShows(splits: Splits, m: string, n: string, session: string) returns (hash: Hash, events: seq<Event>)
    requires m in splits && n in splits && splits[m].name != splits[n].name
    requires splits[m].sticky && splits[n].sticky && !StickyAgree(splits[m], splits[n])
    ensures LooksAt(events, {m, n})
    ensures !TransparentTo(splits, hash, After(splits, hash, events), session)
  {
    hash := DisagreeingHash(splits[m], splits[n], session);
    var pins := PinRun(splits, hash, m, session);
    events := pins + [Look(1, n, session)];
    assert events[..|events| - 1] == pins;
    var s := After(splits, hash, events);
    assert s.calls[1] == Answered(n, session, Assign(splits[m], hash, session));
  }

  /** Whatever the hash and the run, every answer to the session is the pure assignment. */
  ghost predicate AlwaysTransparentTo(splits: Splits, names: set<string>, session: string) {
    forall hash: Hash, events: seq<Event> ::
      LooksAt(events, names) ==> TransparentTo(splits, hash, After(splits, hash, events), session)
  }

  predicate WellNamed(splits: Splits) {
    forall m :: m in splits ==> splits[m].name == m
  }

  /** For the splits in use, the table is invisible to a session, whichever it is, for every hash
      and every run if and only if no two sticky ones can disagree.  The key is the session alone,
      so this is a real condition; it holds in particular when at most one split in use is sticky. */
  lemma TransparentIff(splits: Splits, names: set<string>, session: string)
    requires WellNamed(splits)
    ensures AlwaysTransparentTo(splits, names, session) <==> NoCrossTalk(splits, names)
    ensures AtMostOneSticky(splits, names) ==> NoCrossTalk(splits, names)
  {
    if NoCrossTalk(splits, names) {
      forall hash: Hash, events: seq<Event> | LooksAt(events, names)
        ensures TransparentTo(splits, hash, After(splits, hash, events), session)
      {
        TableIsInvisible(splits, names, hash, events);
      }
    } else {
      var m, n :| StickyIn(splits, names, m) && StickyIn(splits, names, n) && m != n &&
        !StickyAgree(splits[m], splits[n]);
      var hash, events := CrossTalkShows(splits, m, n, session);
      assert LooksAt(events, names);
    }
  }
}
