/** Proxying with connect-failure failover (`dispatch_proxy` in src/handler.rs).

    The address filter and the upstream's answers are arbitrary functions of the server; the
    permutation property below is what makes a single answer per server enough, because no
    server is asked twice. */
module Failover {
  import opened Prelude
  import opened Sorting
  import opened Balance

  /** What `forward` reports for one server. */
  datatype Forwarded<R> = Response(body: R) | ConnectFailure | Failure(status: nat)

  /** A request's environment: the filter by address and the answers by server index. */
  datatype Env<!R> = Env(allowed: string -> bool, forward: nat -> Forwarded<R>)

  predicate Allowed<R>(u: Upstream, env: Env<R>, i: nat) {
    i < |u.servers| && env.allowed(u.servers[i].address)
  }

  /** Server `i` may be asked and gives an answer that ends the request. */
  predicate Final<R>(u: Upstream, env: Env<R>, i: nat) {
    Allowed(u, env, i) && !env.forward(i).ConnectFailure?
  }

  /** The first candidate with a final answer is the k-th. */
  predicate FirstFinal<R>(u: Upstream, env: Env<R>, order: seq<nat>, k: nat) {
    k < |order| && Final(u, env, order[k]) && forall j :: 0 <= j < k ==> !Final(u, env, order[j])
  }

  function Answer<R>(f: Forwarded<R>): Result<R, nat>
    requires !f.ConnectFailure?
  {
    match f
    case Response(body) => Ok(body)
    case Failure(status) => Err(status)
  }

  /** The status when every candidate is refused or unreachable: that of the last one. */
  function Exhausted<R>(u: Upstream, env: Env<R>, order: seq<nat>): nat {
    if order != [] && !Allowed(u, env, order[|order| - 1]) then FORBIDDEN else BAD_GATEWAY
  }

  /** The candidates that may be asked, in order. */
  function Permitted<R>(u: Upstream, env: Env<R>, order: seq<nat>): (r: seq<nat>)
    ensures forall i :: i in r <==> i in order && Allowed(u, env, i)
  {
    if order == [] then []
    else
      var n := |order| - 1;
      assert order == order[..n] + [order[n]];
      Permitted(u, env, order[..n]) + if Allowed(u, env, order[n]) then [order[n]] else []
  }

  lemma {:induction false} PermittedDistinct<R>(u: Upstream, env: Env<R>, order: seq<nat>)
    requires Distinct(order)
    ensures Distinct(Permitted(u, env, order))
  {
    if order != [] {
      var n := |order| - 1;
      PermittedDistinct(u, env, order[..n]);
      assert order[n] !in order[..n];
    }
  }

  /** One guarded attempt: the server's gauge is up by one while the answer is awaited and the
      guard is dropped whatever the answer is. */
  method Attempt<R>(b: Balancer, u: Upstream, idx: nat, env: Env<R>) returns (outcome: Forwarded<R>)
    requires b.Valid()
    modifies b
    ensures b.Valid() && b.live == old(b.live) && b.pools == old(b.pools)
    ensures outcome == env.forward(idx)
  {
    TrackThenDrop(b.pools, Guard(u.name, idx));
    var guard := b.Track(u, idx);
    outcome := env.forward(idx);
    assert b.live == old(b.live) + multiset{guard};
    b.DropGuard(guard);
    assert b.live == old(b.live);
  }

  /** The outcome of walking through `order`, with the servers actually contacted. */
  ghost predicate WalkedTo<R>(u: Upstream, env: Env<R>, order: seq<nat>, r: Result<R, nat>, tried: seq<nat>) {
    && (forall k: nat :: FirstFinal(u, env, order, k) ==>
         r == Answer(env.forward(order[k])) && tried == Permitted(u, env, order[..k + 1]))
    && ((forall k :: 0 <= k < |order| ==> !Final(u, env, order[k])) ==>
         r == Err(Exhausted(u, env, order)) && tried == Permitted(u, env, order))
  }

  lemma WalkEndsAt<R>(u: Upstream, env: Env<R>, order: seq<nat>, n: nat)
    requires FirstFinal(u, env, order, n)
    ensures WalkedTo(u, env, order, Answer(env.forward(order[n])), Permitted(u, env, order[..n + 1]))
  {
    assert forall k: nat :: FirstFinal(u, env, order, k) ==> k == n;
  }

  lemma PermittedStep<R>(u: Upstream, env: Env<R>, order: seq<nat>, n: nat)
    requires n < |order|
    ensures Permitted(u, env, order[..n + 1]) ==
            Permitted(u, env, order[..n]) + if Allowed(u, env, order[n]) then [order[n]] else []
  {
    assert order[..n + 1][..n] == order[..n];
  }

  method Walk<R>(b: Balancer, u: Upstream, order: seq<nat>, env: Env<R>) returns (r: Result<R, nat>, tried: seq<nat>)
    requires b.Valid() && InRange(u, order)
    modifies b
    ensures b.Valid() && b.live == old(b.live) && b.pools == old(b.pools)
    ensures WalkedTo(u, env, order, r, tried)
  {
    tried := [];
    var lastStatus := BAD_GATEWAY;
    for n := 0 to |order|
      invariant b.Valid() && b.live == old(b.live) && b.pools == old(b.pools)
      invariant forall j :: 0 <= j < n ==> !Final(u, env, order[j])
      invariant tried == Permitted(u, env, order[..n])
      invariant lastStatus == Exhausted(u, env, order[..n])
    {
      var idx := order[n];
      PermittedStep(u, env, order, n);
      if !env.allowed(u.servers[idx].address) {
        lastStatus := FORBIDDEN;
        continue;
      }
      var outcome := Attempt(b, u, idx, env);
      tried := tried + [idx];
      if !outcome.ConnectFailure? {
        WalkEndsAt(u, env, order, n);
        return Answer(outcome), tried;
      }
      lastStatus := BAD_GATEWAY;
    }
    assert order[..|order|] == order;
    r := Err(lastStatus);
  }

  /** Tries the candidates in balancer order: no server is contacted twice or against the
      filter, the first final answer ends the request, and the request leaves no gauge changed. */
  method DispatchProxy<R>(b: Balancer, u: Upstream, clientHash: nat, env: Env<R>)
    returns (r: Result<R, nat>, order: seq<nat>, tried: seq<nat>)
    requires b.Valid()
    modifies b
    ensures b.Valid() && b.live == old(b.live)
    ensures b.pools.Keys == old(b.pools).Keys
    ensures forall name :: name in b.pools ==> b.pools[name].inflight == old(b.pools)[name].inflight
    ensures OrderFor(old(b.pools), u, clientHash, order)
    ensures WalkedTo(u, env, order, r, tried)
    ensures Distinct(tried) && forall i :: i in tried ==> Allowed(u, env, i)
    ensures Delivered(u, env, order, r) && Contacted(u, env, order, tried)
  {
    order := b.Candidates(u, clientHash);
    r, tried := Walk(b, u, order, env);
    WalkMeans(u, env, order, r, tried);
  }

  /** What a walk through all servers means for the client and for the servers. */
  lemma WalkMeans<R>(u: Upstream, env: Env<R>, order: seq<nat>, r: Result<R, nat>, tried: seq<nat>)
    requires IsPermutation(order, |u.servers|) && WalkedTo(u, env, order, r, tried)
    ensures Distinct(tried) && forall i :: i in tried ==> Allowed(u, env, i)
    ensures Delivered(u, env, order, r) && Contacted(u, env, order, tried)
  {
    WalkIsClean(u, env, order, r, tried);
    WalkDelivers(u, env, order, r, tried);
    WalkContacts(u, env, order, r, tried);
  }

  /** Whatever a walk ends with, the servers contacted are distinct and allowed. */
  lemma WalkIsClean<R>(u: Upstream, env: Env<R>, order: seq<nat>, r: Result<R, nat>, tried: seq<nat>)
    requires Distinct(order)
    ensures WalkedTo(u, env, order, r, tried) ==>
      Distinct(tried) && forall i :: i in tried ==> i in order && Allowed(u, env, i)
  {
    if k :| 0 <= k < |order| && Final(u, env, order[k]) {
      var first := FirstFinalExists(u, env, order, k);
      PermittedDistinct(u, env, order[..first + 1]);
    } else {
      PermittedDistinct(u, env, order);
    }
  }

  // ---------------------------------------------------------------- what the client gets

  predicate InRange(u: Upstream, order: seq<nat>) {
    forall j :: 0 <= j < |order| ==> order[j] < |u.servers|
  }

  /** The k-th candidate is the first that the filter lets through and that can be connected to. */
  predicate Decides<R>(u: Upstream, env: Env<R>, order: seq<nat>, k: nat)
    requires InRange(u, order)
  {
    && k < |order|
    && env.allowed(u.servers[order[k]].address) && !env.forward(order[k]).ConnectFailure?
    && forall j :: 0 <= j < k ==>
         !env.allowed(u.servers[order[j]].address) || env.forward(order[j]).ConnectFailure?
  }

  /** The client gets the very answer of the deciding candidate, its response or its failure
      status.  Without one it gets 403 when the filter refused the last candidate, else 502. */
  ghost predicate Delivered<R>(u: Upstream, env: Env<R>, order: seq<nat>, r: Result<R, nat>)
    requires InRange(u, order)
  {
    && (forall k: nat :: Decides(u, env, order, k) ==>
         && (env.forward(order[k]).Response? ==> r == Ok(env.forward(order[k]).body))
         && (env.forward(order[k]).Failure? ==> r == Err(env.forward(order[k]).status)))
    && ((forall k: nat :: !Decides(u, env, order, k)) ==>
         r == Err(if order != [] && !env.allowed(u.servers[order[|order| - 1]].address) then 403 else 502))
  }

  /** The j-th candidate is let through and none before it decides. */
  predicate Asked<R>(u: Upstream, env: Env<R>, order: seq<nat>, j: nat)
    requires InRange(u, order)
  {
    && j < |order| && env.allowed(u.servers[order[j]].address)
    && forall k :: 0 <= k < j ==> !Decides(u, env, order, k)
  }

  /** Exactly the candidates let through up to the deciding one are contacted. */
  ghost predicate Contacted<R>(u: Upstream, env: Env<R>, order: seq<nat>, tried: seq<nat>)
    requires InRange(u, order)
  {
    forall i :: i in tried <==> exists j: nat :: Asked(u, env, order, j) && order[j] == i
  }

  lemma DecidesIsFirstFinal<R>(u: Upstream, env: Env<R>, order: seq<nat>, k: nat)
    requires InRange(u, order)
    ensures Decides(u, env, order, k) <==> FirstFinal(u, env, order, k)
  {
  }

  lemma AllowedPrefix<R>(u: Upstream, env: Env<R>, order: seq<nat>, n: nat, i: nat)
    requires InRange(u, order) && n <= |order|
    ensures i in Permitted(u, env, order[..n]) <==>
      exists j :: 0 <= j < n && order[j] == i && env.allowed(u.servers[order[j]].address)
  {
    if i in order[..n] {
      var j :| 0 <= j < n && order[..n][j] == i;
      assert order[j] == i;
    }
  }

  /** What a walk ends with is what the client is meant to get. */
  lemma WalkDelivers<R>(u: Upstream, env: Env<R>, order: seq<nat>, r: Result<R, nat>, tried: seq<nat>)
    requires InRange(u, order) && WalkedTo(u, env, order, r, tried)
    ensures Delivered(u, env, order, r)
  {
    forall k: nat ensures Decides(u, env, order, k) <==> FirstFinal(u, env, order, k) {
      DecidesIsFirstFinal(u, env, order, k);
    }
    if k: nat :| k < |order| && Final(u, env, order[k]) {
      var first := FirstFinalExists(u, env, order, k);
    }
  }

  lemma WalkContacts<R>(u: Upstream, env: Env<R>, order: seq<nat>, r: Result<R, nat>, tried: seq<nat>)
    requires InRange(u, order) && WalkedTo(u, env, order, r, tried)
    ensures Contacted(u, env, order, tried)
  {
    if k: nat :| k < |order| && Final(u, env, order[k]) {
      var first := FirstFinalExists(u, env, order, k);
      DecidesIsFirstFinal(u, env, order, first);
      ContactedUpTo(u, env, order, tried, first + 1);
    } else {
      assert forall k: nat :: !FirstFinal(u, env, order, k);
      assert order[..|order|] == order;
      ContactedUpTo(u, env, order, tried, |order|);
    }
  }

  lemma ContactedUpTo<R>(u: Upstream, env: Env<R>, order: seq<nat>, tried: seq<nat>, n: nat)
    requires InRange(u, order) && n <= |order| && tried == Permitted(u, env, order[..n])
    requires n < |order| ==> n > 0 && Decides(u, env, order, n - 1)
    requires forall k :: 0 <= k < n - 1 ==> !Final(u, env, order[k])
    ensures Contacted(u, env, order, tried)
  {
    AskedUpTo(u, env, order, n);
    forall i ensures i in tried <==> exists j: nat :: Asked(u, env, order, j) && order[j] == i {
      if i >= 0 {
        AllowedPrefix(u, env, order, n, i);
      }
    }
  }

  /** Before `n` nothing decides and, unless the order ends there, the candidate before `n` does. */
  lemma AskedUpTo<R>(u: Upstream, env: Env<R>, order: seq<nat>, n: nat)
    requires InRange(u, order) && n <= |order|
    requires n < |order| ==> n > 0 && Decides(u, env, order, n - 1)
    requires forall k :: 0 <= k < n - 1 ==> !Final(u, env, order[k])
    ensures forall j: nat :: Asked(u, env, order, j) <==> j < n && env.allowed(u.servers[order[j]].address)
  {
  }

  /** A response reaches the client exactly when the deciding candidate gave it. */
  lemma DeliveredIff<R>(u: Upstream, env: Env<R>, order: seq<nat>, r: Result<R, nat>, body: R)
    requires InRange(u, order) && Delivered(u, env, order, r)
    ensures r == Ok(body) <==> exists k: nat :: Decides(u, env, order, k) && env.forward(order[k]) == Response(body)
  {
    if r == Ok(body) {
      var k: nat :| Decides(u, env, order, k);
      assert env.forward(order[k]) == Response(body);
    }
  }

  lemma {:induction false} FirstFinalExists<R>(u: Upstream, env: Env<R>, order: seq<nat>, k: nat) returns (first: nat)
    requires k < |order| && Final(u, env, order[k])
    ensures first <= k && FirstFinal(u, env, order, first)
  {
    if j :| 0 <= j < k && Final(u, env, order[j]) {
      first := FirstFinalExists(u, env, order, j);
    } else {
      first := k;
    }
  }

  /** Failover is complete: whatever permutation the strategy produced, a request ends with a
      server's own answer if and only if some server of the pool is allowed and reachable. */
  lemma FailoverComplete<R>(u: Upstream, env: Env<R>, order: seq<nat>)
    requires IsPermutation(order, |u.servers|)
    ensures (exists i :: 0 <= i < |u.servers| && Final(u, env, i)) <==>
            (exists k: nat :: FirstFinal(u, env, order, k))
  {
    if i :| 0 <= i < |u.servers| && Final(u, env, i) {
      PermutationCovers(order, |u.servers|, i);
      var k :| 0 <= k < |order| && order[k] == i;
      var first := FirstFinalExists(u, env, order, k);
    }
    if k: nat :| FirstFinal(u, env, order, k) {
      assert Final(u, env, order[k]);
    }
  }

  /** When every server is allowed a failing request can only end with 502; when none is, only
      with 403 (and an empty pool always gives 502). */
  lemma ExhaustedStatus<R>(u: Upstream, env: Env<R>, order: seq<nat>)
    requires IsPermutation(order, |u.servers|)
    ensures (forall i :: 0 <= i < |u.servers| ==> Allowed(u, env, i)) ==> Exhausted(u, env, order) == BAD_GATEWAY
    ensures u.servers != [] && (forall i :: 0 <= i < |u.servers| ==> !Allowed(u, env, i)) ==>
      Exhausted(u, env, order) == FORBIDDEN
  {
  }
}
