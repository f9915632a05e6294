/** Many proxied requests at once (`dispatch_proxy` in src/handler.rs over src/balance.rs): each
    step of each request is one atomic operation, and the steps interleave in any order.

    A request may also be dropped at any moment, as the runtime does when its client goes away;
    dropping it drops the guard it holds. */
module Requests {
  import opened Prelude
  import opened Cumulative
  import opened Sorting
  import opened Balance
  import opened Failover

  /** `Choosing`: about to look at the next candidate.  `Awaiting`: holds a guard for it. */
  datatype Phase<R> = Choosing | Awaiting | Finished(result: Result<R, nat>) | Dropped

  datatype Request<!R> = Request(
    u: Upstream, env: Env<R>, order: seq<nat>, next: nat, status: nat, tried: seq<nat>, phase: Phase<R>)

  datatype State<!R> = State(pools: map<string, Pool>, requests: seq<Request<R>>)

  datatype Event<!R> =
    | Arrive(u: Upstream, env: Env<R>, clientHash: nat, order: seq<nat>)
    | Choose(k: nat)
    | Complete(k: nat)
    | Drop(k: nat)

  predicate Running<R>(r: Request<R>) {
    r.next <= |r.order| && (r.phase.Choosing? || (r.phase.Awaiting? && r.next < |r.order|))
  }

  /** A request arrives with the order the balancer computes from the pools as they are. */
  ghost predicate Enabled<R>(s: State<R>, e: Event<R>) {
    match e
    case Arrive(u, _, clientHash, order) => OrderFor(s.pools, u, clientHash, order)
    case Choose(k) => k < |s.requests| && Running(s.requests[k]) && s.requests[k].phase.Choosing?
    case Complete(k) => k < |s.requests| && Running(s.requests[k]) && s.requests[k].phase.Awaiting?
    case Drop(k) => k < |s.requests| && Running(s.requests[k])
  }

  /** The guard of a request that awaits an answer. */
  function Held<R>(r: Request<R>): Guard
    requires r.next < |r.order|
  {
    Guard(r.u.name, r.order[r.next])
  }

  /** The request past its current candidate. */
  function PassOver<R>(r: Request<R>, status: nat): Request<R> {
    r.(next := r.next + 1, status := status, phase := Choosing)
  }

  /** Looking at the next candidate: none is left, the filter refuses it, or it is asked. */
  function Chosen<R>(r: Request<R>): Request<R>
    requires r.next <= |r.order|
  {
    if r.next == |r.order| then r.(phase := Finished(Err(r.status)))
    else if !Allowed(r.u, r.env, r.order[r.next]) then PassOver(r, FORBIDDEN)
    else r.(tried := r.tried + [r.order[r.next]], phase := Awaiting)
  }

  /** The answer of the candidate asked. */
  function Completed<R>(r: Request<R>): Request<R>
    requires r.next < |r.order|
  {
    var f := r.env.forward(r.order[r.next]);
    if f.ConnectFailure? then PassOver(r, BAD_GATEWAY) else r.(phase := Finished(Answer(f)))
  }

  /** The gauges when request `r` becomes `to`: a guard is taken or dropped. */
  function Gauges<R>(pools: map<string, Pool>, r: Request<R>, to: Request<R>): map<string, Pool> {
    if r.phase.Choosing? && to.phase.Awaiting? && to.next < |to.order| then AddTo(pools, Held(to), 1)
    else if r.phase.Awaiting? && !to.phase.Awaiting? && r.next < |r.order| then AddTo(pools, Held(r), U64 - 1)
    else pools
  }

  function Become<R>(s: State<R>, k: nat, to: Request<R>): State<R>
    requires k < |s.requests|
  {
    State(Gauges(s.pools, s.requests[k], to), s.requests[k := to])
  }

  ghost function Step<R>(s: State<R>, e: Event<R>): State<R>
    requires Enabled(s, e)
  {
    match e
    case Arrive(u, env, _, order) =>
      State(Drawn(s.pools, u), s.requests + [Request(u, env, order, 0, BAD_GATEWAY, [], Choosing)])
    case Choose(k) => Become(s, k, Chosen(s.requests[k]))
    case Complete(k) => Become(s, k, Completed(s.requests[k]))
    case Drop(k) => Become(s, k, s.requests[k].(phase := Dropped))
  }

  /** The states reached by `n` steps from a balancer built for the upstreams. */
  ghost predicate Reachable<R(!new)>(us: seq<Upstream>, s: State<R>, n: nat)
    decreases n
  {
    if n == 0 then s == State(PoolsOf(us), [])
    else exists before: State<R>, e: Event<R> ::
      Reachable(us, before, n - 1) && Enabled(before, e) && Step(before, e) == s
  }

  // ---------------------------------------------------------------- gauges

  function Awaits<R>(r: Request<R>, g: Guard): nat {
    if r.phase.Awaiting? && r.next < |r.order| && Held(r) == g then 1 else 0
  }

  /** How many requests await an answer of the server the guard counts for. */
  function Waiting<R>(rs: seq<Request<R>>, g: Guard): nat {
    if rs == [] then 0 else Waiting(rs[..|rs| - 1], g) + Awaits(rs[|rs| - 1], g)
  }

  ghost predicate GaugesCount<R>(s: State<R>) {
    forall name, i :: name in s.pools && 0 <= i < |s.pools[name].inflight| ==>
      s.pools[name].inflight[i] == Waiting(s.requests, Guard(name, i)) % U64
  }

  lemma {:induction false} WaitingUpdate<R>(rs: seq<Request<R>>, k: nat, r: Request<R>, g: Guard)
    requires k < |rs|
    ensures Waiting(rs[k := r], g) == Waiting(rs, g) - Awaits(rs[k], g) + Awaits(r, g)
  {
    var n := |rs| - 1;
    if k < n {
      WaitingUpdate(rs[..n], k, r, g);
      assert rs[k := r][..n] == rs[..n][k := r];
    } else {
      assert rs[k := r][..n] == rs[..n];
    }
  }

  lemma {:induction false} WaitingIncludes<R>(rs: seq<Request<R>>, k: nat, g: Guard)
    requires k < |rs|
    ensures Awaits(rs[k], g) <= Waiting(rs, g)
  {
    var n := |rs| - 1;
    if k < n {
      WaitingIncludes(rs[..n], k, g);
    }
  }

  /** One gauge after an addition. */
  lemma AddToGauge(pools: map<string, Pool>, g: Guard, amount: nat, name: string, i: nat)
    requires name in pools && i < |pools[name].inflight|
    ensures AddTo(pools, g, amount).Keys == pools.Keys
    ensures |AddTo(pools, g, amount)[name].inflight| == |pools[name].inflight|
    ensures AddTo(pools, g, amount)[name].inflight[i] ==
      if g == Guard(name, i) then (pools[name].inflight[i] + amount) % U64 else pools[name].inflight[i]
  {
  }

  lemma CountUp(w: nat, x: nat)
    requires x == w % U64
    ensures (x + 1) % U64 == (w + 1) % U64
  {
    WrapAdd(w, 1);
  }

  lemma CountDown(w: nat, x: nat)
    requires w > 0 && x == w % U64
    ensures (x + (U64 - 1)) % U64 == (w - 1) % U64
  {
    WrapAdd(w, U64 - 1);
    ModShift(w - 1, U64);
  }

  /** The gauge of one server follows the request that changes. */
  lemma GaugeFollows<R>(s: State<R>, k: nat, to: Request<R>, name: string, i: nat)
    requires GaugesCount(s) && k < |s.requests| && Running(s.requests[k])
    requires to.phase.Awaiting? ==> s.requests[k].phase.Choosing? && to.next < |to.order|
    requires name in s.pools && i < |s.pools[name].inflight|
    ensures
      var t := Become(s, k, to);
      && t.pools.Keys == s.pools.Keys && |t.pools[name].inflight| == |s.pools[name].inflight|
      && t.pools[name].inflight[i] == Waiting(t.requests, Guard(name, i)) % U64
  {
    var r, g := s.requests[k], Guard(name, i);
    WaitingUpdate(s.requests, k, to, g);
    WaitingIncludes(s.requests, k, g);
    var w, x := Waiting(s.requests, g), s.pools[name].inflight[i];
    assert x == w % U64;
    if to.phase.Awaiting? {
      AddToGauge(s.pools, Held(to), 1, name, i);
      CountUp(w, x);
    } else if r.phase.Awaiting? {
      AddToGauge(s.pools, Held(r), U64 - 1, name, i);
      if Held(r) == g {
        CountDown(w, x);
      }
    }
  }

  lemma BecomeKeepsGauges<R>(s: State<R>, k: nat, to: Request<R>)
    requires GaugesCount(s) && k < |s.requests| && Running(s.requests[k])
    requires to.phase.Awaiting? ==> s.requests[k].phase.Choosing? && to.next < |to.order|
    ensures GaugesCount(Become(s, k, to))
  {
    var t := Become(s, k, to);
    KeepsShape(s, k, to);
    forall name, i | name in t.pools && 0 <= i < |t.pools[name].inflight|
      ensures t.pools[name].inflight[i] == Waiting(t.requests, Guard(name, i)) % U64
    {
      GaugeFollows(s, k, to, name, i);
    }
  }

  lemma KeepsShape<R>(s: State<R>, k: nat, to: Request<R>)
    requires k < |s.requests|
    ensures
      var t := Become(s, k, to);
      t.pools.Keys == s.pools.Keys &&
      forall name :: name in s.pools ==> |t.pools[name].inflight| == |s.pools[name].inflight|
  {
  }

  lemma ArriveKeepsGauges<R>(s: State<R>, e: Event<R>)
    requires GaugesCount(s) && e.Arrive? && Enabled(s, e)
    ensures GaugesCount(Step(s, e))
  {
    var t := Step(s, e);
    assert t.requests[..|t.requests| - 1] == s.requests;
    forall name, i | name in t.pools && 0 <= i < |t.pools[name].inflight|
      ensures t.pools[name].inflight[i] == Waiting(t.requests, Guard(name, i)) % U64
    {
      assert t.pools[name].inflight == s.pools[name].inflight;
    }
  }

  // ---------------------------------------------------------------- one request

  /** Where a request stands: nothing before its candidate was final, and those asked are the
      permitted ones so far; once finished it has walked through its order. */
  ghost predicate RequestInv<R>(r: Request<R>) {
    && IsPermutation(r.order, |r.u.servers|) && r.next <= |r.order|
    && Distinct(r.tried) && (forall i :: i in r.tried ==> Allowed(r.u, r.env, i))
    && match r.phase
       case Choosing =>
         && NoneFinal(r) && r.status == Exhausted(r.u, r.env, r.order[..r.next])
         && r.tried == Permitted(r.u, r.env, r.order[..r.next])
       case Awaiting =>
         && r.next < |r.order| && Allowed(r.u, r.env, r.order[r.next])
         && NoneFinal(r) && r.tried == Permitted(r.u, r.env, r.order[..r.next + 1])
       case Finished(result) => WalkedTo(r.u, r.env, r.order, result, r.tried)
       case Dropped => true
  }

  predicate NoneFinal<R>(r: Request<R>)
    requires r.next <= |r.order|
  {
    forall j :: 0 <= j < r.next ==> !Final(r.u, r.env, r.order[j])
  }

  lemma PrefixDistinct(order: seq<nat>, n: nat)
    requires Distinct(order) && n <= |order|
    ensures Distinct(order[..n])
  {
  }

  lemma ExhaustedStep<R>(u: Upstream, env: Env<R>, order: seq<nat>, n: nat)
    requires n < |order|
    ensures Exhausted(u, env, order[..n + 1]) == if Allowed(u, env, order[n]) then BAD_GATEWAY else FORBIDDEN
  {
    assert order[..n + 1][n] == order[n];
  }

  lemma PermittedSoFar<R>(r: Request<R>, n: nat)
    requires IsPermutation(r.order, |r.u.servers|) && n <= |r.order|
    ensures Distinct(Permitted(r.u, r.env, r.order[..n]))
    ensures forall i :: i in Permitted(r.u, r.env, r.order[..n]) ==> Allowed(r.u, r.env, i)
  {
    PrefixDistinct(r.order, n);
    PermittedDistinct(r.u, r.env, r.order[..n]);
  }

  /** With no candidate left the request has walked through its whole order. */
  lemma OutOfCandidates<R>(r: Request<R>)
    requires RequestInv(r) && r.phase.Choosing? && r.next == |r.order|
    ensures RequestInv(Chosen(r))
  {
    assert r.order[..r.next] == r.order;
    assert WalkedTo(r.u, r.env, r.order, Err(r.status), r.tried);
  }

  lemma PassedOver<R>(r: Request<R>)
    requires RequestInv(r) && r.phase.Choosing? && r.next < |r.order| && !Allowed(r.u, r.env, r.order[r.next])
    ensures RequestInv(PassOver(r, FORBIDDEN))
  {
    PermittedStep(r.u, r.env, r.order, r.next);
    ExhaustedStep(r.u, r.env, r.order, r.next);
  }

  lemma Asked<R>(r: Request<R>)
    requires RequestInv(r) && r.phase.Choosing? && r.next < |r.order| && Allowed(r.u, r.env, r.order[r.next])
    ensures RequestInv(Chosen(r))
  {
    PermittedStep(r.u, r.env, r.order, r.next);
    PermittedSoFar(r, r.next + 1);
  }

  lemma ChosenKeepsInv<R>(r: Request<R>)
    requires RequestInv(r) && r.phase.Choosing?
    ensures RequestInv(Chosen(r))
  {
    if r.next == |r.order| {
      OutOfCandidates(r);
    } else if !Allowed(r.u, r.env, r.order[r.next]) {
      PassedOver(r);
    } else {
      Asked(r);
    }
  }

  lemma CompletedKeepsInv<R>(r: Request<R>)
    requires RequestInv(r) && r.phase.Awaiting?
    ensures RequestInv(Completed(r))
  {
    ExhaustedStep(r.u, r.env, r.order, r.next);
    if !r.env.forward(r.order[r.next]).ConnectFailure? {
      WalkEndsAt(r.u, r.env, r.order, r.next);
    }
  }

  // ---------------------------------------------------------------- ticks

  /** The server a request tries first, with the upstream it was picked from. */
  datatype Pick = Pick(u: Upstream, first: nat)

  function PickOf<R>(r: Request<R>, name: string): seq<Pick> {
    if r.u.name == name && TakesTick(r.u) && r.order != [] then [Pick(r.u, r.order[0])] else []
  }

  /** The round-robin picks made from one pool so far, in order of arrival. */
  function PicksFrom<R>(rs: seq<Request<R>>, name: string): seq<Pick> {
    if rs == [] then [] else PicksFrom(rs[..|rs| - 1], name) + PickOf(rs[|rs| - 1], name)
  }

  /** The pick owns the j-th tick of a cursor that starts at zero. */
  predicate OwnsTick(p: Pick, j: nat) {
    FallsTo(p.u, j % U64, p.first)
  }

  /** The cursor of every pool counts the picks made from it, and the j-th pick owns tick j. */
  ghost predicate TicksCount<R>(s: State<R>) {
    forall name :: name in s.pools ==> TicksOf(s, name)
  }

  ghost predicate TicksOf<R>(s: State<R>, name: string)
    requires name in s.pools
  {
    var picks := PicksFrom(s.requests, name);
    s.pools[name].cursor == |picks| % U64 && forall j :: 0 <= j < |picks| ==> OwnsTick(picks[j], j)
  }

  lemma {:induction false} PicksUpdate<R>(rs: seq<Request<R>>, k: nat, r: Request<R>, name: string)
    requires k < |rs| && r.u == rs[k].u && r.order == rs[k].order
    ensures PicksFrom(rs[k := r], name) == PicksFrom(rs, name)
  {
    var n := |rs| - 1;
    if k < n {
      PicksUpdate(rs[..n], k, r, name);
      assert rs[k := r][..n] == rs[..n][k := r];
    } else {
      assert rs[k := r][..n] == rs[..n];
    }
  }

  lemma BecomeKeepsTicks<R>(s: State<R>, k: nat, to: Request<R>)
    requires TicksCount(s) && k < |s.requests| && to.u == s.requests[k].u && to.order == s.requests[k].order
    ensures TicksCount(Become(s, k, to))
  {
    var t := Become(s, k, to);
    forall name | name in t.pools ensures TicksOf(t, name) {
      PicksUpdate(s.requests, k, to, name);
      assert name in s.pools && t.pools[name].cursor == s.pools[name].cursor;
      assert TicksOf(s, name);
    }
  }

  /** A request that takes a tick adds one pick, which owns it. */
  lemma NextTick(pools: map<string, Pool>, u: Upstream, clientHash: nat, order: seq<nat>, m: nat)
    requires OrderFor(pools, u, clientHash, order) && TakesTick(u) && u.name in pools
    requires pools[u.name].cursor == m % U64
    ensures OwnsTick(Pick(u, order[0]), m) && Drawn(pools, u)[u.name].cursor == (m + 1) % U64
  {
    FirstByTick(pools, u, clientHash, order);
    WrapAdd(m, 1);
  }

  lemma ArriveKeepsTicks<R>(s: State<R>, e: Event<R>)
    requires TicksCount(s) && e.Arrive? && Enabled(s, e)
    ensures TicksCount(Step(s, e))
  {
    var t := Step(s, e);
    assert t.requests[..|t.requests| - 1] == s.requests;
    forall name | name in t.pools ensures TicksOf(t, name) {
      assert TicksOf(s, name);
      var picks := PicksFrom(s.requests, name);
      if e.u.name == name && TakesTick(e.u) {
        NextTick(s.pools, e.u, e.clientHash, e.order, |picks|);
        assert PicksFrom(t.requests, name) == picks + [Pick(e.u, e.order[0])];
      } else {
        assert PicksFrom(t.requests, name) == picks + [];
      }
    }
  }

  // ---------------------------------------------------------------- all interleavings

  ghost predicate Inv<R>(s: State<R>) {
    && GaugesCount(s) && TicksCount(s)
    && forall k :: 0 <= k < |s.requests| ==> RequestInv(s.requests[k])
  }

  lemma BecomeKeepsInv<R>(s: State<R>, k: nat, to: Request<R>)
    requires Inv(s) && k < |s.requests| && Running(s.requests[k]) && RequestInv(to)
    requires to.u == s.requests[k].u && to.order == s.requests[k].order
    requires to.phase.Awaiting? ==> s.requests[k].phase.Choosing? && to.next < |to.order|
    ensures Inv(Become(s, k, to))
  {
    BecomeKeepsGauges(s, k, to);
    BecomeKeepsTicks(s, k, to);
  }

  lemma StepKeepsInv<R>(s: State<R>, e: Event<R>)
    requires Inv(s) && Enabled(s, e)
    ensures Inv(Step(s, e))
  {
    match e
    case Arrive(u, env, clientHash, order) =>
      ArriveKeepsGauges(s, e);
      ArriveKeepsTicks(s, e);
    case Choose(k) =>
      ChosenKeepsInv(s.requests[k]);
      BecomeKeepsInv(s, k, Chosen(s.requests[k]));
    case Complete(k) =>
      CompletedKeepsInv(s.requests[k]);
      BecomeKeepsInv(s, k, Completed(s.requests[k]));
    case Drop(k) =>
      BecomeKeepsInv(s, k, s.requests[k].(phase := Dropped));
  }

  /** In every reachable state, whatever the interleaving, every gauge is the number of requests
      awaiting an answer of its server (modulo the width of the atomic), and every request stands
      where it would stand had it run alone: it has asked distinct, allowed servers only, and if
      it has finished, its result is that of walking through its order; and the round-robin
      requests of a pool, in order of arrival, try first the owners of consecutive ticks. */
  lemma {:induction false} GaugesCountAwaiting<R(!new)>(us: seq<Upstream>, s: State<R>, n: nat)
    requires Reachable(us, s, n)
    ensures Inv(s)
    decreases n
  {
    if n == 0 {
      forall name, i | name in s.pools && 0 <= i < |s.pools[name].inflight| ensures s.pools[name].inflight[i] == 0 {
        PoolsStartIdle(us, name, i);
      }
      forall name | name in s.pools ensures s.pools[name].cursor == 0 {
        CursorsStartAtZero(us, name);
      }
    } else {
      var before: State<R>, e: Event<R> :|
        Reachable(us, before, n - 1) && Enabled(before, e) && Step(before, e) == s;
      GaugesCountAwaiting(us, before, n - 1);
      StepKeepsInv(before, e);
    }
  }

  lemma {:induction false} CursorsStartAtZero(us: seq<Upstream>, name: string)
    requires name in PoolsOf(us)
    ensures PoolsOf(us)[name].cursor == 0
  {
    var n := |us| - 1;
    if name in PoolsOf(us[..n]) {
      CursorsStartAtZero(us[..n], name);
    }
  }

  /** The servers tried first by `len` consecutive round-robin arrivals of a pool. */
  function Primaries(picks: seq<Pick>, a: nat, len: nat): (first: seq<nat>)
    requires a + len <= |picks|
    ensures |first| == len && forall j :: 0 <= j < len ==> first[j] == picks[a + j].first
  {
    if len == 0 then [] else Primaries(picks, a, len - 1) + [picks[a + len - 1].first]
  }

  /** They own consecutive ticks. */
  lemma PrimariesOwnTicks<R>(s: State<R>, u: Upstream, a: nat, len: nat)
    requires TicksCount(s) && u.name in s.pools && a + len <= |PicksFrom(s.requests, u.name)|
    requires forall j :: a <= j < a + len ==> PicksFrom(s.requests, u.name)[j].u == u
    ensures
      var first := Primaries(PicksFrom(s.requests, u.name), a, len);
      forall j :: 0 <= j < len ==> FallsTo(u, (a + j) % U64, first[j])
  {
    var picks := PicksFrom(s.requests, u.name);
    assert TicksOf(s, u.name);
    var first := Primaries(picks, a, len);
    forall j | 0 <= j < len ensures FallsTo(u, (a + j) % U64, first[j]) {
      assert OwnsTick(picks[a + j], a + j) && picks[a + j].u == u;
    }
  }

  /** Round-robin stays exactly fair under any interleaving: of any q * W + r consecutive
      arrivals of an upstream at its pool that do not wrap the cursor, between q * w_i and
      q * w_i + min(w_i, r) try server i first. */
  lemma ConcurrentRoundRobinIsFair<R(!new)>(
    us: seq<Upstream>, s: State<R>, n: nat, u: Upstream, i: nat, a: nat, q: nat, r: nat, len: nat)
    requires Reachable(us, s, n) && u.name in s.pools && i < |u.servers| && r < SumOf(u.servers)
    requires len == q * SumOf(u.servers) + r && a + len <= U64
    requires a + len <= |PicksFrom(s.requests, u.name)|
    requires forall j :: a <= j < a + len ==> PicksFrom(s.requests, u.name)[j].u == u
    ensures
      var first, w := Primaries(PicksFrom(s.requests, u.name), a, len), Configured(u.servers[i]);
      q * w <= CountOf(first, i) <= q * w + (if w < r then w else r)
  {
    GaugesCountAwaiting(us, s, n);
    PrimariesOwnTicks(s, u, a, len);
    RoundRobinIsFair(u, i, a, Primaries(PicksFrom(s.requests, u.name), a, len), q, r);
  }

  /** Every finished request of every interleaving has delivered the answer of the first candidate
      that the filter lets through and that can be connected to, or 403 or 502 without one, and
      has contacted exactly the candidates let through up to that one. */
  lemma FinishedDelivers<R(!new)>(us: seq<Upstream>, s: State<R>, n: nat, k: nat)
    requires Reachable(us, s, n) && k < |s.requests| && s.requests[k].phase.Finished?
    ensures
      var r := s.requests[k];
      && InRange(r.u, r.order)
      && Delivered(r.u, r.env, r.order, r.phase.result) && Contacted(r.u, r.env, r.order, r.tried)
  {
    GaugesCountAwaiting(us, s, n);
    var r := s.requests[k];
    WalkMeans(r.u, r.env, r.order, r.phase.result, r.tried);
  }

  /** How many steps a request has still to take, at most. */
  function Remaining<R>(r: Request<R>): nat {
    if !Running(r) then 0 else 2 * (|r.order| - r.next) + if r.phase.Choosing? then 1 else 0
  }

  /** Every request finishes within 2 n + 1 steps of its own for n servers: while it runs it can
      take a step, and each one brings it closer to its end. */
  lemma RequestComesToEnd<R>(s: State<R>, k: nat)
    requires Inv(s) && k < |s.requests| && !s.requests[k].phase.Finished? && !s.requests[k].phase.Dropped?
    ensures
      var e: Event<R> := if s.requests[k].phase.Choosing? then Choose(k) else Complete(k);
      && Enabled(s, e) && |Step(s, e).requests| == |s.requests|
      && Remaining(Step(s, e).requests[k]) < Remaining(s.requests[k]) <= 2 * |s.requests[k].u.servers| + 1
  {
    assert RequestInv(s.requests[k]);
  }

  predicate NobodyAwaits<R>(rs: seq<Request<R>>) {
    forall k :: 0 <= k < |rs| ==> !rs[k].phase.Awaiting?
  }

  lemma {:induction false} NobodyWaits<R>(rs: seq<Request<R>>, g: Guard)
    requires NobodyAwaits(rs)
    ensures Waiting(rs, g) == 0
  {
    if rs != [] {
      NobodyWaits(rs[..|rs| - 1], g);
    }
  }

  lemma IdleGauge<R>(s: State<R>, name: string, i: nat)
    requires GaugesCount(s) && NobodyAwaits(s.requests) && name in s.pools && i < |s.pools[name].inflight|
    ensures s.pools[name].inflight[i] == 0
  {
    NobodyWaits(s.requests, Guard(name, i));
  }

  /** So no gauge leaks: when no request awaits an answer, every gauge is back at zero. */
  lemma NoGaugeLeaks<R(!new)>(us: seq<Upstream>, s: State<R>, n: nat, name: string, i: nat)
    requires Reachable(us, s, n) && NobodyAwaits(s.requests)
    requires name in s.pools && i < |s.pools[name].inflight|
    ensures s.pools[name].inflight[i] == 0
  {
    GaugesCountAwaiting(us, s, n);
    IdleGauge(s, name, i);
  }
}
