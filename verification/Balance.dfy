/** Upstream load balancing (src/balance.rs): weighted round-robin over an atomic cursor,
    least-conn by cross-multiplied loads, client hashing, and the in-flight gauges that RAII
    guards keep.

    Every method of `Balancer` performs one atomic operation on the shared state (or, for
    least-conn, reads one snapshot of the gauges), so a sequence of calls is an interleaving
    of the requests that make them. */
module Balance {
  import opened Prelude
  import opened Cumulative
  import opened Sorting

  datatype Server = Server(address: string, weight: u32)

  datatype Upstream = Upstream(name: string, servers: seq<Server>, strategy: string)

  // ---------------------------------------------------------------- weights

  function AtLeastOne(w: nat): nat {
    if w == 0 then 1 else w
  }

  /** `weight_of` for every server: a configured weight of zero counts as one. */
  function Weights(u: Upstream): seq<nat> {
    seq(|u.servers|, i requires 0 <= i < |u.servers| => AtLeastOne(u.servers[i].weight))
  }

  function TotalWeight(u: Upstream): nat {
    AtLeastOne(Total(Weights(u)))
  }

  /** The reference: what a configured weight stands for, and the sum over a list of servers. */
  function Configured(s: Server): nat {
    if s.weight == 0 then 1 else s.weight
  }

  function SumOf(servers: seq<Server>): nat {
    if servers == [] then 0 else SumOf(servers[..|servers| - 1]) + Configured(servers[|servers| - 1])
  }

  /** When no weight is zero this is the sum of the weights as they are written. */
  function WrittenSum(servers: seq<Server>): nat {
    if servers == [] then 0 else WrittenSum(servers[..|servers| - 1]) + servers[|servers| - 1].weight
  }

  lemma {:induction false} NoZeroWeights(servers: seq<Server>)
    requires forall j :: 0 <= j < |servers| ==> servers[j].weight >= 1
    ensures SumOf(servers) == WrittenSum(servers)
    ensures forall j :: 0 <= j < |servers| ==> Configured(servers[j]) == servers[j].weight
  {
    if servers != [] {
      NoZeroWeights(servers[..|servers| - 1]);
    }
  }

  lemma {:induction false} PrefixIsSum(u: Upstream, i: nat)
    requires i <= |u.servers|
    ensures Prefix(Weights(u), i) == SumOf(u.servers[..i])
    ensures i < |u.servers| ==> Weights(u)[i] == Configured(u.servers[i])
  {
    if i > 0 {
      PrefixIsSum(u, i - 1);
      assert u.servers[..i][..i - 1] == u.servers[..i - 1];
    }
  }

  lemma TotalIsSum(u: Upstream)
    requires u.servers != []
    ensures Total(Weights(u)) == SumOf(u.servers) == TotalWeight(u) > 0
  {
    PrefixIsSum(u, |u.servers|);
    assert u.servers[..|u.servers|] == u.servers;
    PositiveTotal(u);
  }

  /** The tick falls to server `p`: the running sums of the configured weights enclose it. */
  predicate FallsTo(u: Upstream, tick: nat, p: nat) {
    && p < |u.servers| && SumOf(u.servers) > 0
    && SumOf(u.servers[..p]) <= tick % SumOf(u.servers) < SumOf(u.servers[..p + 1])
  }

  lemma OwnsIsFallsTo(u: Upstream, tick: nat, p: nat)
    requires u.servers != []
    ensures Owns(Weights(u), p, tick % TotalWeight(u)) <==> FallsTo(u, tick, p)
  {
    TotalIsSum(u);
    if p < |u.servers| {
      PrefixIsSum(u, p);
      PrefixIsSum(u, p + 1);
    }
  }

  lemma {:induction false} PrefixBounds(ws: seq<nat>, i: nat)
    requires i <= |ws| && forall k :: 0 <= k < |ws| ==> 1 <= ws[k] < U32
    ensures i <= Prefix(ws, i) <= i * (U32 - 1)
  {
    if i > 0 {
      PrefixBounds(ws, i - 1);
    }
  }

  /** A non-empty pool has a positive total weight, which fits 64 bits for up to 2^32 servers,
      so neither `total_weight` nor the running sum of `index_for_point` overflows. */
  lemma TotalWeightFits(u: Upstream)
    requires 0 < |u.servers| <= U32
    ensures 0 < SumOf(u.servers) == Total(Weights(u)) == TotalWeight(u) < U64
  {
    TotalIsSum(u);
    PrefixBounds(Weights(u), |u.servers|);
  }

  /** `index_for_point`: the owner of the point, or 0 when the point is out of range. */
  method IndexForPoint(u: Upstream, point: nat) returns (i: nat)
    ensures point < Total(Weights(u)) ==> Owns(Weights(u), i, point)
    ensures point >= Total(Weights(u)) ==> i == 0
  {
    i := Scan(Weights(u), point);
    if i == |u.servers| {
      i := 0;
    }
  }

  // ---------------------------------------------------------------- least-conn

  /** The comparator's products, in 64-bit arithmetic. */
  function Cross(load: nat, weight: nat): nat {
    (load * weight) % U64
  }

  lemma MulMonotone(a: nat, b: nat, c: nat, d: nat)
    requires a <= b && c <= d
    ensures a * c <= b * d
  {
    assert a * c <= b * c;
    assert b * c <= b * d;
  }

  lemma CrossExact(load: nat, weight: nat)
    requires load <= U32 + 1 && weight < U32
    ensures Cross(load, weight) == load * weight
  {
    MulMonotone(load, U32 + 1, weight, U32 - 1);
    SmallMod(load * weight, U64);
  }

  /** The products of a load with all legal weights are computed without overflow if and only
      if the load is at most 2^32 + 1, that is, the server's gauge at most 2^32. */
  lemma ProductsFit(load: nat)
    ensures (forall w: u32 :: Cross(load, w) == Product(load, w)) <==> load <= U32 + 1
  {
    if load <= U32 + 1 {
      forall w: u32 ensures Cross(load, w) == Product(load, w) {
        CrossExact(load, w);
      }
    } else {
      var w: u32 := U32 - 1;
      MulMonotone(U32 + 2, load, w, w);
      assert Cross(load, w) < U64 <= Product(load, w);
    }
  }

  function Product(load: nat, weight: nat): nat {
    load * weight
  }

  lemma MulCancel(x: nat, y: nat, w: nat)
    requires w > 0
    ensures x * w <= y * w <==> x <= y
    ensures x * w < y * w <==> x < y
  {
    if x < y {
      MulAtLeast(y - x, w);
      assert (y - x) * w == y * w - x * w;
    } else if y < x {
      MulAtLeast(x - y, w);
      assert (x - y) * w == x * w - y * w;
    }
  }

  /** Comparing fractions by cross-multiplication is transitive. */
  lemma FractionsTransitive(la: nat, wa: nat, lb: nat, wb: nat, lc: nat, wc: nat)
    requires wa > 0 && wb > 0 && wc > 0
    requires Product(la, wb) <= Product(lb, wa) && Product(lb, wc) <= Product(lc, wb)
    ensures Product(la, wc) <= Product(lc, wa)
  {
    MulCancel(la * wb, lb * wa, wc);
    MulCancel(lb * wc, lc * wb, wa);
    assert (la * wb) * wc == (la * wc) * wb;
    assert (lb * wa) * wc == (lb * wc) * wa;
    assert (lc * wb) * wa == (lc * wa) * wb;
    MulCancel(la * wc, lc * wa, wb);
  }

  /** The comparator of the least-conn sort, for a snapshot of the loads. */
  predicate NotGreater(loads: seq<nat>, ws: seq<nat>, a: nat, b: nat) {
    a < |loads| && b < |loads| && |loads| == |ws| && Cross(loads[a], ws[b]) <= Cross(loads[b], ws[a])
  }

  function LoadOrder(loads: seq<nat>, ws: seq<nat>): Comparator {
    (a: nat, b: nat) => NotGreater(loads, ws, a, b)
  }

  /** Loads and weights for which no product overflows. */
  predicate Representable(loads: seq<nat>, ws: seq<nat>) {
    && |loads| == |ws|
    && (forall i :: 0 <= i < |ws| ==> 1 <= ws[i] < U32)
    && (forall i :: 0 <= i < |loads| ==> loads[i] <= U32 + 1)
  }

  lemma ComparesFractions(loads: seq<nat>, ws: seq<nat>, a: nat, b: nat)
    requires Representable(loads, ws) && a < |ws| && b < |ws|
    ensures NotGreater(loads, ws, a, b) <==> Product(loads[a], ws[b]) <= Product(loads[b], ws[a])
  {
    CrossExact(loads[a], ws[b]);
    CrossExact(loads[b], ws[a]);
  }

  /** The comparator is a total preorder, as `sort_by` demands of it. */
  lemma ComparatorIsTotalPreorder(loads: seq<nat>, ws: seq<nat>)
    requires Representable(loads, ws)
    ensures TotalPreorder(LoadOrder(loads, ws), |ws|)
  {
    var le := LoadOrder(loads, ws);
    forall a: nat, b: nat | a < |ws| && b < |ws| ensures le(a, b) || le(b, a) {
      ComparesFractions(loads, ws, a, b);
      ComparesFractions(loads, ws, b, a);
    }
    forall a: nat, b: nat, c: nat | a < |ws| && b < |ws| && c < |ws| && le(a, b) && le(b, c)
      ensures le(a, c)
    {
      ComparesFractions(loads, ws, a, b);
      ComparesFractions(loads, ws, b, c);
      ComparesFractions(loads, ws, a, c);
      FractionsTransitive(loads[a], ws[a], loads[b], ws[b], loads[c], ws[c]);
    }
  }

  /** The head of the least-conn order is the server with the least (in-flight + 1) / weight,
      and of several such servers the one with the lowest index. */
  lemma HeadIsLeastLoaded(loads: seq<nat>, ws: seq<nat>, order: seq<nat>, i: nat)
    requires Representable(loads, ws) && i < |ws|
    requires IsPermutation(order, |ws|) && InOrder(LoadOrder(loads, ws), order)
    ensures Product(loads[order[0]], ws[i]) <= Product(loads[i], ws[order[0]])
    ensures Product(loads[order[0]], ws[i]) == Product(loads[i], ws[order[0]]) ==> order[0] <= i
  {
    PermutationCovers(order, |ws|, i);
    HeadFirst(LoadOrder(loads, ws), order, i);
    ComparesFractions(loads, ws, order[0], i);
    ComparesFractions(loads, ws, i, order[0]);
  }

  // ---------------------------------------------------------------- the balancer

  /** The state of one named pool: the round-robin cursor and one gauge per server. */
  datatype Pool = Pool(cursor: nat, inflight: seq<nat>)

  /** An RAII guard: the pool it was taken from and the server it counts for. */
  datatype Guard = Guard(pool: string, idx: nat)

  function NewPool(u: Upstream): Pool {
    Pool(0, seq(|u.servers|, _ => 0))
  }

  function Gauge(p: Pool, i: nat): nat {
    if i < |p.inflight| then p.inflight[i] else 0
  }

  /** The snapshot the least-conn comparator works on. */
  function Loads(p: Pool, n: nat): seq<nat> {
    seq(n, i requires 0 <= i < n => Gauge(p, i) + 1)
  }

  /** One pool per name: an upstream whose name is already taken adds nothing. */
  function PoolsOf(us: seq<Upstream>): map<string, Pool> {
    if us == [] then map[]
    else
      var n := |us| - 1;
      var before := PoolsOf(us[..n]);
      if us[n].name in before then before else before[us[n].name := NewPool(us[n])]
  }

  /** So the first upstream of a name decides its pool, which starts idle. */
  lemma {:induction false} FirstUpstreamDecides(us: seq<Upstream>, k: nat)
    requires k < |us| && forall j :: 0 <= j < k ==> us[j].name != us[k].name
    ensures us[k].name in PoolsOf(us) && PoolsOf(us)[us[k].name] == NewPool(us[k])
    ensures NewPool(us[k]).cursor == 0 && |NewPool(us[k]).inflight| == |us[k].servers|
    ensures forall g :: g in NewPool(us[k]).inflight ==> g == 0
  {
    var n := |us| - 1;
    if k < n {
      FirstUpstreamDecides(us[..n], k);
    } else {
      NoOtherPools(us[..n], us[n].name);
    }
  }

  lemma {:induction false} NoOtherPools(us: seq<Upstream>, name: string)
    requires forall j :: 0 <= j < |us| ==> us[j].name != name
    ensures name !in PoolsOf(us)
  {
    if us != [] {
      NoOtherPools(us[..|us| - 1], name);
    }
  }

  lemma {:induction false} PoolsStartIdle(us: seq<Upstream>, name: string, i: nat)
    requires name in PoolsOf(us) && i < |PoolsOf(us)[name].inflight|
    ensures PoolsOf(us)[name].inflight[i] == 0
  {
    var n := |us| - 1;
    if name in PoolsOf(us[..n]) {
      PoolsStartIdle(us[..n], name, i);
    }
  }

  /** The named pool, or fresh state that nobody shares. */
  function PoolIn(pools: map<string, Pool>, u: Upstream): Pool {
    if u.name in pools then pools[u.name] else NewPool(u)
  }

  /** A request of this upstream takes a tick of the pool's cursor: round-robin, which is also the
      fallback for unknown strategies, with a choice to make. */
  predicate TakesTick(u: Upstream) {
    |u.servers| >= 2 && u.strategy != "ip-hash" && u.strategy != "least-conn"
  }

  /** Computing the candidates moves the cursor of a round-robin pool and nothing else. */
  function Drawn(pools: map<string, Pool>, u: Upstream): map<string, Pool> {
    if TakesTick(u) && u.name in pools
    then pools[u.name := pools[u.name].(cursor := (pools[u.name].cursor + 1) % U64)]
    else pools
  }

  /** The order a request should try the servers in: a permutation, sorted by load for least-conn
      and otherwise the ring from the owner of the client's hash or of the cursor's tick. */
  ghost predicate OrderFor(pools: map<string, Pool>, u: Upstream, clientHash: nat, order: seq<nat>) {
    && IsPermutation(order, |u.servers|)
    && (|u.servers| >= 2 && u.strategy == "least-conn" ==>
         var loads, ws := Loads(PoolIn(pools, u), |u.servers|), Weights(u);
         Representable(loads, ws) ==> InOrder(LoadOrder(loads, ws), order))
    && (|u.servers| >= 2 && u.strategy != "least-conn" ==>
         && Owns(Weights(u), order[0], Tick(pools, u, clientHash) % TotalWeight(u))
         && order == RingOrder(order[0], |u.servers|))
  }

  function Tick(pools: map<string, Pool>, u: Upstream, clientHash: nat): nat {
    if u.strategy == "ip-hash" then clientHash else PoolIn(pools, u).cursor
  }

  /** Where the order starts and how it goes on: the server that the client's hash or the pool's
      cursor falls to, then the others around the ring. */
  lemma OrderFollowsWeights(pools: map<string, Pool>, u: Upstream, clientHash: nat, order: seq<nat>)
    requires OrderFor(pools, u, clientHash, order) && |u.servers| >= 2 && u.strategy != "least-conn"
    ensures u.strategy == "ip-hash" ==> FallsTo(u, clientHash, order[0])
    ensures u.strategy != "ip-hash" ==> FallsTo(u, if u.name in pools then pools[u.name].cursor else 0, order[0])
    ensures forall k :: 0 <= k < |u.servers| ==> order[k] == (order[0] + k) % |u.servers|
  {
    OwnsIsFallsTo(u, Tick(pools, u, clientHash), order[0]);
  }

  /** A request that takes a tick goes first to the server it falls to, and moves the cursor on. */
  lemma FirstByTick(pools: map<string, Pool>, u: Upstream, clientHash: nat, order: seq<nat>)
    requires OrderFor(pools, u, clientHash, order) && TakesTick(u) && u.name in pools
    ensures |order| == |u.servers| && FallsTo(u, pools[u.name].cursor, order[0])
    ensures u.name in Drawn(pools, u) && Drawn(pools, u)[u.name].cursor == (pools[u.name].cursor + 1) % U64
  {
    OrderFollowsWeights(pools, u, clientHash, order);
  }

  lemma FallsToOne(u: Upstream, tick: nat, p: nat, q: nat)
    requires FallsTo(u, tick, p) && FallsTo(u, tick, q)
    ensures p == q
  {
    OwnsIsFallsTo(u, tick, p);
    OwnsIsFallsTo(u, tick, q);
    OwnerUnique(Weights(u), p, q, tick % TotalWeight(u));
  }

  /** A client's ip-hash order is the same whatever has happened to the pools meanwhile. */
  lemma IpHashIsSticky(
    before: map<string, Pool>, after: map<string, Pool>, u: Upstream, clientHash: nat, x: seq<nat>, y: seq<nat>)
    requires u.strategy == "ip-hash"
    requires OrderFor(before, u, clientHash, x) && OrderFor(after, u, clientHash, y)
    ensures x == y
  {
    if |u.servers| >= 2 {
      OrderFollowsWeights(before, u, clientHash, x);
      OrderFollowsWeights(after, u, clientHash, y);
      FallsToOne(u, clientHash, x[0], y[0]);
    }
  }

  /** How many of the hashes h, ..., h + n - 1 make server `i` the first candidate. */
  function HashedTo(u: Upstream, i: nat, h: nat, n: nat): nat {
    if n == 0 then 0 else HashedTo(u, i, h, n - 1) + if FallsTo(u, h + n - 1, i) then 1 else 0
  }

  lemma {:induction false} HashedIsShare(u: Upstream, i: nat, h: nat, n: nat)
    requires u.servers != []
    ensures Total(Weights(u)) > 0 && HashedTo(u, i, h, n) == Share(Weights(u), i, h, h + n)
  {
    TotalIsSum(u);
    if n > 0 {
      HashedIsShare(u, i, h, n - 1);
      OwnsIsFallsTo(u, h + n - 1, i);
    }
  }

  /** Of any W consecutive hashes exactly w_i make server `i` the first ip-hash candidate. */
  lemma IpHashIsProportional(u: Upstream, i: nat, h: nat)
    requires i < |u.servers|
    ensures HashedTo(u, i, h, SumOf(u.servers)) == Configured(u.servers[i])
  {
    TotalIsSum(u);
    HashedIsShare(u, i, h, SumOf(u.servers));
    FullRound(Weights(u), i, h);
    PrefixIsSum(u, i);
  }

  /** The requests in flight on a server: nothing for a pool or a server without a gauge. */
  function InFlight(pools: map<string, Pool>, u: Upstream, i: nat): nat {
    if u.name in pools && i < |pools[u.name].inflight| then pools[u.name].inflight[i] else 0
  }

  lemma LoadsCount(pools: map<string, Pool>, u: Upstream)
    ensures
      var loads := Loads(PoolIn(pools, u), |u.servers|);
      |loads| == |u.servers| && forall i :: 0 <= i < |u.servers| ==> loads[i] == InFlight(pools, u, i) + 1
  {
  }

  /** The least-conn order ascends in (in-flight + 1) / weight by the gauges as they are and the
      configured weights, equal servers in order of index. */
  lemma LeastConnOrder(pools: map<string, Pool>, u: Upstream, clientHash: nat, order: seq<nat>, j: nat, k: nat)
    requires OrderFor(pools, u, clientHash, order) && |u.servers| >= 2 && u.strategy == "least-conn"
    requires j < k < |u.servers| && forall i :: 0 <= i < |u.servers| ==> InFlight(pools, u, i) <= U32
    ensures
      var a, b := order[j], order[k];
      var first := (InFlight(pools, u, a) + 1) * Configured(u.servers[b]);
      var second := (InFlight(pools, u, b) + 1) * Configured(u.servers[a]);
      first <= second && (first == second ==> a < b)
  {
    var loads, ws := Loads(PoolIn(pools, u), |u.servers|), Weights(u);
    LoadsCount(pools, u);
    ComparesFractions(loads, ws, order[j], order[k]);
    ComparesFractions(loads, ws, order[k], order[j]);
    PrefixIsSum(u, order[j]);
    PrefixIsSum(u, order[k]);
    assert Before(LoadOrder(loads, ws), order[j], order[k]);
  }

  /** The first least-conn candidate has the least (in-flight + 1) / weight by the gauges as they
      are and the configured weights, and of several such servers it has the lowest index. */
  lemma LeastConnHead(pools: map<string, Pool>, u: Upstream, clientHash: nat, order: seq<nat>, i: nat)
    requires OrderFor(pools, u, clientHash, order) && |u.servers| >= 2 && u.strategy == "least-conn"
    requires i < |u.servers| && forall k :: 0 <= k < |u.servers| ==> InFlight(pools, u, k) <= U32
    ensures
      var h := order[0];
      var mine := (InFlight(pools, u, h) + 1) * Configured(u.servers[i]);
      var other := (InFlight(pools, u, i) + 1) * Configured(u.servers[h]);
      mine <= other && (mine == other ==> h <= i)
  {
    var loads, ws := Loads(PoolIn(pools, u), |u.servers|), Weights(u);
    LoadsCount(pools, u);
    HeadIsLeastLoaded(loads, ws, order, i);
    PrefixIsSum(u, i);
    PrefixIsSum(u, order[0]);
  }

  class Balancer {
    var pools: map<string, Pool>
    /** The guards taken and not yet dropped. */
    ghost var live: multiset<Guard>

    /** Each gauge is the number of its live guards (modulo the width of the atomic). */
    ghost predicate Valid()
      reads this
    {
      forall name, i :: name in pools && 0 <= i < |pools[name].inflight| ==>
        pools[name].inflight[i] == live[Guard(name, i)] % U64
    }

    /** All pools of a block: shared, inline and CONNECT upstreams, in that order. */
    constructor (us: seq<Upstream>)
      ensures Valid() && live == multiset{} && pools == PoolsOf(us)
    {
      var m := map[];
      for k := 0 to |us|
        invariant m == PoolsOf(us[..k])
      {
        assert us[..k + 1][..k] == us[..k];
        if us[k].name !in m {
          m := m[us[k].name := NewPool(us[k])];
        }
      }
      assert us[..|us|] == us;
      pools := m;
      live := multiset{};
      forall name, i | name in m && 0 <= i < |m[name].inflight| ensures m[name].inflight[i] == 0 {
        PoolsStartIdle(us, name, i);
      }
    }

    /** The servers in the order a request should try them. */
    method Candidates(u: Upstream, clientHash: nat) returns (order: seq<nat>)
      modifies this
      ensures live == old(live) && (old(Valid()) ==> Valid())
      ensures OrderFor(old(pools), u, clientHash, order) && pools == Drawn(old(pools), u)
    {
      var n := |u.servers|;
      if n == 0 {
        return [];
      }
      if n == 1 {
        return [0];
      }
      var pool := PoolIn(pools, u);
      PositiveTotal(u);
      if u.strategy == "least-conn" {
        var le := LoadOrder(Loads(pool, n), Weights(u));
        order := StableSort(le, n);
        StableSortIsPermutation(le, n);
        if Representable(Loads(pool, n), Weights(u)) {
          ComparatorIsTotalPreorder(Loads(pool, n), Weights(u));
          StableSortInOrder(le, n, n);
        }
      } else if u.strategy == "ip-hash" {
        var primary := IndexForPoint(u, clientHash % TotalWeight(u));
        order := RingOrder(primary, n);
        RingIsPermutation(primary, n);
      } else {
        var tick := pool.cursor;
        if u.name in pools {
          pools := pools[u.name := pool.(cursor := (tick + 1) % U64)];
        }
        var primary := IndexForPoint(u, tick % TotalWeight(u));
        order := RingOrder(primary, n);
        RingIsPermutation(primary, n);
      }
    }

    /** Counts a request in flight on server `idx`. */
    method Track(u: Upstream, idx: nat) returns (g: Guard)
      requires Valid()
      modifies this
      ensures Valid() && g == Guard(u.name, idx)
      ensures live == old(live) + multiset{g}
      ensures pools == AddTo(old(pools), g, 1)
    {
      g := Guard(u.name, idx);
      live := live + multiset{g};
      if u.name in pools && idx < |pools[u.name].inflight| {
        WrapAdd(live[g] - 1, 1);
        pools := AddTo(pools, g, 1);
      }
    }

    /** The drop of a guard. */
    method DropGuard(g: Guard)
      requires Valid() && live[g] > 0
      modifies this
      ensures Valid() && live == old(live) - multiset{g}
      ensures pools == AddTo(old(pools), g, U64 - 1)
    {
      live := live - multiset{g};
      if g.pool in pools && g.idx < |pools[g.pool].inflight| {
        WrapAdd(live[g] + 1, U64 - 1);
        ModShift(live[g], U64);
        pools := AddTo(pools, g, U64 - 1);
      }
    }

    /** The primary picks of `k` round-robin requests in a row. */
    method Draw(u: Upstream, clientHash: nat, k: nat) returns (picks: seq<nat>)
      requires |u.servers| >= 2 && u.strategy == "round-robin" && u.name in pools
      requires pools[u.name].cursor < U64
      modifies this
      ensures |picks| == k
      ensures forall j :: 0 <= j < k ==> FallsTo(u, (old(pools[u.name].cursor) + j) % U64, picks[j])
    {
      picks := [];
      ghost var c := pools[u.name].cursor;
      SmallMod(c, U64);
      for j := 0 to k
        invariant |picks| == j && u.name in pools
        invariant pools[u.name].cursor == (c + j) % U64
        invariant forall i :: 0 <= i < j ==> FallsTo(u, (c + i) % U64, picks[i])
      {
        ghost var before := pools;
        var order := Candidates(u, clientHash);
        FirstByTick(before, u, clientHash, order);
        WrapAdd(c + j, 1);
        picks := picks + [order[0]];
      }
    }
  }

  /** Adds to the gauge a guard counts for, if that gauge exists. */
  function AddTo(pools: map<string, Pool>, g: Guard, amount: nat): map<string, Pool> {
    if g.pool in pools && g.idx < |pools[g.pool].inflight| then
      var p := pools[g.pool];
      pools[g.pool := p.(inflight := p.inflight[g.idx := (p.inflight[g.idx] + amount) % U64])]
    else pools
  }

  lemma WrapAdd(a: nat, b: nat)
    ensures (a % U64 + b) % U64 == (a + b) % U64
  {
  }

  lemma PositiveTotal(u: Upstream)
    requires |u.servers| > 0
    ensures Total(Weights(u)) == TotalWeight(u) > 0
  {
    PrefixBounds(Weights(u), |u.servers|);
  }

  /** What one request adds to the gauges it takes back when its guard is dropped. */
  lemma TrackThenDrop(pools: map<string, Pool>, g: Guard)
    requires g.pool in pools && g.idx < |pools[g.pool].inflight| ==> pools[g.pool].inflight[g.idx] < U64
    ensures AddTo(AddTo(pools, g, 1), g, U64 - 1) == pools
  {
    if g.pool in pools && g.idx < |pools[g.pool].inflight| {
      var x := pools[g.pool].inflight[g.idx];
      WrapAdd(x + 1, U64 - 1);
      ModShift(x, U64);
      SmallMod(x, U64);
      var up := AddTo(pools, g, 1);
      assert up[g.pool].inflight[g.idx := x] == pools[g.pool].inflight;
      assert AddTo(up, g, U64 - 1)[g.pool] == pools[g.pool];
    }
  }

  // ---------------------------------------------------------------- fairness of round-robin

  function CountOf(s: seq<nat>, x: nat): nat {
    if s == [] then 0 else CountOf(s[..|s| - 1], x) + if s[|s| - 1] == x then 1 else 0
  }

  lemma {:induction false} CountIsPicks(ws: seq<nat>, i: nat, c: nat, picks: seq<nat>)
    requires Total(ws) > 0 && i < |ws|
    requires forall j :: 0 <= j < |picks| ==> Owns(ws, picks[j], ((c + j) % U64) % Total(ws))
    ensures CountOf(picks, i) == Picks(ws, i, U64, c, |picks|)
  {
    if picks != [] {
      var n := |picks| - 1;
      CountIsPicks(ws, i, c, picks[..n]);
      var p := ((c + n) % U64) % Total(ws);
      if Owns(ws, i, p) {
        OwnerUnique(ws, i, picks[n], p);
      }
    }
  }

  /** Weighted round-robin is exactly fair by the configured weights: in q * W + r consecutive
      picks that do not wrap the cursor, where W is their sum, server i comes first between q * w_i
      and q * w_i + min(w_i, r) times.  A weight of zero counts as one. */
  lemma RoundRobinIsFair(u: Upstream, i: nat, c: nat, picks: seq<nat>, q: nat, r: nat)
    requires i < |u.servers| && r < SumOf(u.servers)
    requires |picks| == q * SumOf(u.servers) + r && c + |picks| <= U64
    requires forall j :: 0 <= j < |picks| ==> FallsTo(u, (c + j) % U64, picks[j])
    ensures q * Configured(u.servers[i]) <= CountOf(picks, i)
    ensures CountOf(picks, i) <=
      q * Configured(u.servers[i]) + (if Configured(u.servers[i]) < r then Configured(u.servers[i]) else r)
  {
    var ws := Weights(u);
    TotalIsSum(u);
    PrefixIsSum(u, i);
    forall j | 0 <= j < |picks| ensures Owns(ws, picks[j], ((c + j) % U64) % Total(ws)) {
      OwnsIsFallsTo(u, (c + j) % U64, picks[j]);
    }
    CountIsPicks(ws, i, c, picks);
    PicksBeforeWrap(ws, i, U64, c, |picks|);
    Fair(ws, i, c, q, r);
  }

  /** With all weights at least one, as validation demands, these are the weights as written. */
  lemma WrittenWeightsAreFair(u: Upstream, i: nat, c: nat, picks: seq<nat>, q: nat, r: nat)
    requires forall j :: 0 <= j < |u.servers| ==> u.servers[j].weight >= 1
    requires i < |u.servers| && r < WrittenSum(u.servers)
    requires |picks| == q * WrittenSum(u.servers) + r && c + |picks| <= U64
    requires forall j :: 0 <= j < |picks| ==> FallsTo(u, (c + j) % U64, picks[j])
    ensures q * u.servers[i].weight <= CountOf(picks, i)
    ensures CountOf(picks, i) <= q * u.servers[i].weight + (if u.servers[i].weight < r then u.servers[i].weight else r)
  {
    NoZeroWeights(u.servers);
    RoundRobinIsFair(u, i, c, picks, q, r);
  }

  /** Every round of W picks, from every cursor value, gives each server its configured weight. */
  ghost predicate ExactFromEveryCursor(u: Upstream)
    requires |u.servers| > 0
  {
    PositiveTotal(u);
    forall i, c | 0 <= i < |u.servers| && 0 <= c < U64 ::
      Picks(Weights(u), i, U64, c, SumOf(u.servers)) == Configured(u.servers[i])
  }

  /** Across a wrap of the 64-bit cursor the exactness of full rounds survives if and only if
      the total weight divides 2^64. */
  lemma ExactAcrossWrap(u: Upstream)
    requires 2 <= |u.servers| <= U32
    ensures SumOf(u.servers) > 0
    ensures ExactFromEveryCursor(u) <==> U64 % SumOf(u.servers) == 0
  {
    var ws := Weights(u);
    TotalWeightFits(u);
    if U64 % TotalWeight(u) == 0 {
      forall i, c | 0 <= i < |u.servers| && 0 <= c < U64
        ensures Picks(ws, i, U64, c, TotalWeight(u)) == Configured(u.servers[i])
      {
        PrefixIsSum(u, i);
        ExactWhenAligned(ws, i, U64, c);
      }
    } else {
      var c := ShortWhenMisaligned(ws, U64);
      PrefixIsSum(u, |ws| - 1);
      assert Picks(ws, |ws| - 1, U64, c, TotalWeight(u)) != ws[|ws| - 1];
    }
  }
}
