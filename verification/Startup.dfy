/** The startup sequence of `Server::run` (src/server.rs): bind every socket, drop privileges,
    serve, and serve the listeners of ACME blocks only once their certificate was issued.

    The outcome of every bind, of the privilege drop and of every issuance is an arbitrary
    function, and the ACME managers are visited in an arbitrary order, as a hash map does. */
module Startup {

  // ---------------------------------------------------------------- configuration

  /** The listen protocols by family: "tcp" and "http"; "tls" and "https"; "quic", "h3" and
      "http3"; anything else, which is only warned about. */
  datatype Protocol = Tcp | Tls | Quic | Unknown

  datatype Ssl = NoSsl | Ssl(acmeEnabled: bool)
  datatype HttpBlock = HttpBlock(listen: seq<Protocol>, ssl: Ssl, http3: bool)

  /** `streams` and `mail` are the numbers of stream and mail listeners; `dropsPrivileges` says
      that a user is configured. */
  datatype Config = Config(http: seq<HttpBlock>, streams: nat, mail: nat, dropsPrivileges: bool)

  datatype Socket = Http(block: nat, listen: nat, protocol: Protocol) | Stream(n: nat) | Mail(n: nat)

  datatype Env = Env(bind: Socket -> bool, drop: bool, issue: nat -> bool)

  datatype Event =
    | Bound(socket: Socket) | BindFailed(socket: Socket)
    | Dropped | DropFailed
    | Served(socket: Socket)
    | Issued(block: nat) | IssueFailed(block: nat)

  predicate IsAcme(cfg: Config, b: nat) {
    b < |cfg.http| && cfg.http[b].ssl == Ssl(true)
  }

  /** What becomes of an HTTP socket. */
  datatype Role = NotBound | ServeNow | AwaitTls | QuicNow | AwaitQuic | QuicUnused

  function RoleOf(cfg: Config, s: Socket): Role {
    if !s.Http? || s.block >= |cfg.http| then NotBound
    else
      var block := cfg.http[s.block];
      match s.protocol
      case Tcp => ServeNow
      case Tls => if IsAcme(cfg, s.block) then AwaitTls else ServeNow
      case Quic =>
        if !block.http3 then QuicUnused
        else if IsAcme(cfg, s.block) then AwaitQuic
        else if block.ssl == NoSsl then QuicUnused
        else QuicNow
      case Unknown => NotBound
  }

  // ---------------------------------------------------------------- selecting from lists

  type Selector = Socket -> bool

  function Keep(ss: seq<Socket>, p: Selector): seq<Socket> {
    if ss == [] then []
    else
      var n := |ss| - 1;
      Keep(ss[..n], p) + if p(ss[n]) then [ss[n]] else []
  }

  lemma {:induction false} KeepMember(ss: seq<Socket>, p: Selector, s: Socket)
    ensures s in Keep(ss, p) <==> s in ss && p(s)
  {
    if ss != [] {
      var n := |ss| - 1;
      KeepMember(ss[..n], p, s);
      assert ss == ss[..n] + [ss[n]];
    }
  }

  lemma {:induction false} KeepCong(ss: seq<Socket>, p: Selector, q: Selector)
    requires forall i :: 0 <= i < |ss| ==> p(ss[i]) == q(ss[i])
    ensures Keep(ss, p) == Keep(ss, q)
  {
    if ss != [] {
      KeepCong(ss[..|ss| - 1], p, q);
    }
  }

  lemma {:induction false} KeepAppend(ss: seq<Socket>, ts: seq<Socket>, p: Selector)
    ensures Keep(ss + ts, p) == Keep(ss, p) + Keep(ts, p)
  {
    if ts == [] {
      assert ss + ts == ss;
    } else {
      var n := |ts| - 1;
      assert (ss + ts)[..|ss + ts| - 1] == ss + ts[..n];
      KeepAppend(ss, ts[..n], p);
    }
  }

  lemma {:induction false} KeepTwice(ss: seq<Socket>, p: Selector, q: Selector)
    ensures Keep(Keep(ss, p), q) == Keep(ss, s => p(s) && q(s))
  {
    if ss != [] {
      var n := |ss| - 1;
      KeepTwice(ss[..n], p, q);
      KeepAppend(Keep(ss[..n], p), if p(ss[n]) then [ss[n]] else [], q);
      assert p(ss[n]) ==> [ss[n]][..0] == [];
    }
  }

  function HasRole(cfg: Config, role: Role): Selector {
    s => RoleOf(cfg, s) == role
  }

  function IsBound(cfg: Config): Selector {
    s => RoleOf(cfg, s) != NotBound
  }

  function IsQuic(cfg: Config): Selector {
    s => RoleOf(cfg, s).QuicNow? || RoleOf(cfg, s).AwaitQuic? || RoleOf(cfg, s).QuicUnused?
  }

  function InBlock(b: nat): Selector {
    (s: Socket) => s.Http? && s.block == b
  }

  function NotInBlock(b: nat): Selector {
    (s: Socket) => !(s.Http? && s.block == b)
  }

  function NotInBlocks(bs: seq<nat>): Selector {
    (s: Socket) => !(s.Http? && s.block in bs)
  }

  // ---------------------------------------------------------------- the plan

  function BlockSockets(cfg: Config, b: nat, n: nat): seq<Socket>
    requires b < |cfg.http| && n <= |cfg.http[b].listen|
  {
    if n == 0 then [] else BlockSockets(cfg, b, n - 1) + [Http(b, n - 1, cfg.http[b].listen[n - 1])]
  }

  /** All listen directives of the first `b` blocks, in order. */
  function HttpSockets(cfg: Config, b: nat): seq<Socket>
    requires b <= |cfg.http|
  {
    if b == 0 then [] else HttpSockets(cfg, b - 1) + BlockSockets(cfg, b - 1, |cfg.http[b - 1].listen|)
  }

  function AllHttp(cfg: Config): seq<Socket> {
    HttpSockets(cfg, |cfg.http|)
  }

  function Streams(n: nat): seq<Socket> {
    if n == 0 then [] else Streams(n - 1) + [Stream(n - 1)]
  }

  function Mails(n: nat): seq<Socket> {
    if n == 0 then [] else Mails(n - 1) + [Mail(n - 1)]
  }

  function Binds(ss: seq<Socket>): (r: seq<Event>)
    ensures |r| == |ss|
  {
    seq(|ss|, i requires 0 <= i < |ss| => Bound(ss[i]))
  }

  function Serves(ss: seq<Socket>): (r: seq<Event>)
    ensures |r| == |ss|
  {
    seq(|ss|, i requires 0 <= i < |ss| => Served(ss[i]))
  }

  /** Every socket that is bound, in order. */
  function BindList(cfg: Config): seq<Socket> {
    Keep(AllHttp(cfg), IsBound(cfg)) + Streams(cfg.streams) + Mails(cfg.mail)
  }

  /** Every socket that is served before any certificate is issued, in order. */
  function ServedAtOnce(cfg: Config): seq<Socket> {
    Streams(cfg.streams) + Mails(cfg.mail)
      + Keep(AllHttp(cfg), HasRole(cfg, ServeNow)) + Keep(AllHttp(cfg), HasRole(cfg, QuicNow))
  }

  function Drops(cfg: Config): seq<Event> {
    if cfg.dropsPrivileges then [Dropped] else []
  }

  /** What one successful issuance sets free. */
  function SetFree(cfg: Config, b: nat): seq<Socket> {
    Keep(Keep(AllHttp(cfg), HasRole(cfg, AwaitTls)), InBlock(b))
      + Keep(Keep(AllHttp(cfg), HasRole(cfg, AwaitQuic)), InBlock(b))
  }

  function Issuances(cfg: Config, order: seq<nat>): seq<Event> {
    if order == [] then []
    else
      var n := |order| - 1;
      Issuances(cfg, order[..n]) + [Issued(order[n])] + Serves(SetFree(cfg, order[n]))
  }

  /** The events of a startup in which everything succeeds. */
  function Plan(cfg: Config, order: seq<nat>): seq<Event> {
    Binds(BindList(cfg)) + Drops(cfg) + Serves(ServedAtOnce(cfg)) + Issuances(cfg, order)
  }

  predicate NoRepeats(order: seq<nat>) {
    forall i, j :: 0 <= i < j < |order| ==> order[i] != order[j]
  }

  /** The blocks before the n-th are different blocks, and the n-th is none of them. */
  lemma FreshTurn(order: seq<nat>, n: nat)
    requires NoRepeats(order) && n < |order|
    ensures NoRepeats(order[..n]) && order[n] !in order[..n]
    ensures order[..n + 1] == order[..n] + [order[n]]
  {
  }

  /** A hash map yields each ACME block once. */
  predicate IsAcmeOrder(cfg: Config, order: seq<nat>) {
    && NoRepeats(order)
    && (forall b: nat :: b < |cfg.http| ==> (b in order <==> cfg.http[b].ssl == Ssl(true)))
    && (forall b :: b in order ==> b < |cfg.http|)
  }

  /** Failure event `f` stands where the plan has `e`. */
  predicate FailureOf(f: Event, e: Event) {
    match f
    case BindFailed(s) => e == Bound(s)
    case DropFailed => e == Dropped
    case IssueFailed(b) => e == Issued(b)
    case _ => false
  }

  /** The trace follows the plan to the end, or up to the first thing that fails. */
  predicate Follows(trace: seq<Event>, plan: seq<Event>, ok: bool) {
    if ok then trace == plan
    else
      var n := |trace| - 1;
      0 <= n < |plan| && trace[..n] == plan[..n] && FailureOf(trace[n], plan[n])
  }

  // ---------------------------------------------------------------- the code

  lemma FollowsLonger(trace: seq<Event>, plan: seq<Event>, more: seq<Event>)
    requires Follows(trace, plan, false)
    ensures Follows(trace, plan + more, false)
  {
    assert (plan + more)[..|trace| - 1] == plan[..|trace| - 1];
  }

  lemma BindsStep(ss: seq<Socket>, s: Socket)
    ensures Binds(ss + [s]) == Binds(ss) + [Bound(s)]
  {
  }

  /** A failed bind ends the trace where the plan goes on with that socket. */
  lemma FailedBindFollows(done: seq<Socket>, s: Socket, all: seq<Socket>)
    requires done + [s] <= all
    ensures Follows(Binds(done) + [BindFailed(s)], Binds(all), false)
  {
    var trace := Binds(done) + [BindFailed(s)];
    assert all[|done|] == s;
    assert trace[..|trace| - 1] == Binds(all)[..|trace| - 1];
  }

  lemma {:induction false} KeepPrefix(ss: seq<Socket>, n: nat, p: Selector)
    requires n < |ss|
    ensures Keep(ss[..n + 1], p) == Keep(ss[..n], p) + if p(ss[n]) then [ss[n]] else []
    ensures Keep(ss[..n + 1], p) <= Keep(ss, p)
  {
    assert ss[..n + 1][..n] == ss[..n];
    KeepAppend(ss[..n + 1], ss[n + 1..], p);
    assert ss == ss[..n + 1] + ss[n + 1..];
  }

  predicate AllBind(ss: seq<Socket>, env: Env) {
    forall i :: 0 <= i < |ss| ==> env.bind(ss[i])
  }

  lemma FailedHttpBind(cfg: Config, env: Env, all: seq<Socket>, n: nat)
    requires n < |all| && IsBound(cfg)(all[n]) && !env.bind(all[n])
    ensures Follows(Binds(Keep(all[..n], IsBound(cfg))) + [BindFailed(all[n])], Binds(Keep(all, IsBound(cfg))), false)
    ensures !AllBind(Keep(all, IsBound(cfg)), env)
  {
    var done := Keep(all[..n], IsBound(cfg));
    KeepPrefix(all, n, IsBound(cfg));
    FailedBindFollows(done, all[n], Keep(all, IsBound(cfg)));
    assert Keep(all, IsBound(cfg))[|done|] == all[n];
  }

  /** Where the first `n` listeners have been put. */
  predicate Sorted(cfg: Config, ss: seq<Socket>, now: seq<Socket>, deferred: seq<Socket>, quic: seq<Socket>) {
    && now == Keep(ss, HasRole(cfg, ServeNow))
    && deferred == Keep(ss, HasRole(cfg, AwaitTls))
    && quic == Keep(ss, IsQuic(cfg))
  }

  /** Files one more listener under its role. */
  method SortOne(cfg: Config, all: seq<Socket>, n: nat, now: seq<Socket>, deferred: seq<Socket>, quic: seq<Socket>)
    returns (now': seq<Socket>, deferred': seq<Socket>, quic': seq<Socket>)
    requires n < |all| && Sorted(cfg, all[..n], now, deferred, quic)
    ensures Sorted(cfg, all[..n + 1], now', deferred', quic')
  {
    KeepPrefix(all, n, HasRole(cfg, ServeNow));
    KeepPrefix(all, n, HasRole(cfg, AwaitTls));
    KeepPrefix(all, n, IsQuic(cfg));
    now', deferred', quic' := now, deferred, quic;
    match RoleOf(cfg, all[n]) {
      case NotBound =>
      case ServeNow => now' := now + [all[n]];
      case AwaitTls => deferred' := deferred + [all[n]];
      case _ => quic' := quic + [all[n]];
    }
  }

  /** Binds the HTTP listeners and sorts them into those to serve at once, those deferred and the
      QUIC sockets. */
  method BindHttp(cfg: Config, env: Env)
    returns (ok: bool, trace: seq<Event>, now: seq<Socket>, deferred: seq<Socket>, quic: seq<Socket>)
    ensures Follows(trace, Binds(Keep(AllHttp(cfg), IsBound(cfg))), ok)
    ensures ok <==> AllBind(Keep(AllHttp(cfg), IsBound(cfg)), env)
    ensures ok ==> Sorted(cfg, AllHttp(cfg), now, deferred, quic)
  {
    var all := AllHttp(cfg);
    trace, now, deferred, quic := [], [], [], [];
    for n := 0 to |all|
      invariant trace == Binds(Keep(all[..n], IsBound(cfg)))
      invariant AllBind(Keep(all[..n], IsBound(cfg)), env)
      invariant Sorted(cfg, all[..n], now, deferred, quic)
    {
      var s := all[n];
      if RoleOf(cfg, s) != NotBound && !env.bind(s) {
        FailedHttpBind(cfg, env, all, n);
        ok, trace := false, trace + [BindFailed(s)];
        return;
      }
      KeepPrefix(all, n, IsBound(cfg));
      now, deferred, quic := SortOne(cfg, all, n, now, deferred, quic);
      if RoleOf(cfg, s) != NotBound {
        BindsStep(Keep(all[..n], IsBound(cfg)), s);
        trace := trace + [Bound(s)];
      }
    }
    assert all[..|all|] == all;
    ok := true;
  }

  /** Binds further listeners in order. */
  method BindEach(ss: seq<Socket>, env: Env) returns (ok: bool, trace: seq<Event>)
    ensures Follows(trace, Binds(ss), ok)
    ensures ok <==> AllBind(ss, env)
  {
    trace := [];
    for n := 0 to |ss|
      invariant trace == Binds(ss[..n])
      invariant AllBind(ss[..n], env)
    {
      assert ss[..n + 1] == ss[..n] + [ss[n]];
      if !env.bind(ss[n]) {
        FailedBindFollows(ss[..n], ss[n], ss);
        return false, trace + [BindFailed(ss[n])];
      }
      BindsStep(ss[..n], ss[n]);
      trace := trace + [Bound(ss[n])];
    }
    assert ss[..|ss|] == ss;
    ok := true;
  }

  /** The element behind `kept` in a list that goes on with the rest of `all`, and the list with
      that element taken over or removed. */
  lemma Middle(kept: seq<Socket>, all: seq<Socket>, m: nat)
    requires m < |all|
    ensures
      var list := kept + all[m..];
      && list[|kept|] == all[m]
      && list == kept + [all[m]] + all[m + 1..]
      && list[..|kept|] + list[|kept| + 1..] == kept + all[m + 1..]
  {
    assert all[m..] == [all[m]] + all[m + 1..];
  }

  /** The first `m` deferred listeners have been dealt with: those of other blocks are the first
      `i` of `rest`, those of block `b` have been served. */
  ghost predicate Drained(deferred: seq<Socket>, b: nat, m: nat, rest: seq<Socket>, served: seq<Socket>, i: nat) {
    && m <= |deferred|
    && rest == Keep(deferred[..m], NotInBlock(b)) + deferred[m..]
    && served == Keep(deferred[..m], InBlock(b))
    && i == |Keep(deferred[..m], NotInBlock(b))|
  }

  lemma DrainStep(deferred: seq<Socket>, b: nat, m: nat, rest: seq<Socket>, served: seq<Socket>, i: nat)
    requires Drained(deferred, b, m, rest, served, i) && i < |rest|
    ensures InBlock(b)(rest[i]) ==>
      Drained(deferred, b, m + 1, rest[..i] + rest[i + 1..], served + [rest[i]], i)
    ensures !InBlock(b)(rest[i]) ==> Drained(deferred, b, m + 1, rest, served, i + 1)
  {
    var kept := Keep(deferred[..m], NotInBlock(b));
    KeepPrefix(deferred, m, InBlock(b));
    KeepPrefix(deferred, m, NotInBlock(b));
    Middle(kept, deferred, m);
  }

  /** Serves the deferred listeners of one block, removing them in place. */
  method Drain(deferred: seq<Socket>, b: nat) returns (rest: seq<Socket>, served: seq<Socket>)
    ensures served == Keep(deferred, InBlock(b))
    ensures rest == Keep(deferred, NotInBlock(b))
  {
    rest, served := deferred, [];
    var i := 0;
    ghost var m := 0;
    while i < |rest|
      invariant Drained(deferred, b, m, rest, served, i)
      decreases |rest| - i
    {
      DrainStep(deferred, b, m, rest, served, i);
      m := m + 1;
      if !InBlock(b)(rest[i]) {
        i := i + 1;
      } else {
        served := served + [rest[i]];
        rest := rest[..i] + rest[i + 1..];
      }
    }
    assert deferred[..m] == deferred;
  }

  lemma FollowsAfter(pre: seq<Event>, trace: seq<Event>, plan: seq<Event>, ok: bool)
    requires Follows(trace, plan, ok)
    ensures Follows(pre + trace, pre + plan, ok)
  {
    if !ok {
      var n := |trace| - 1;
      assert (pre + trace)[..|pre| + n] == pre + trace[..n];
      assert (pre + plan)[..|pre| + n] == pre + plan[..n];
    }
  }

  lemma BindsAppend(ss: seq<Socket>, ts: seq<Socket>)
    ensures Binds(ss + ts) == Binds(ss) + Binds(ts)
  {
  }

  lemma ServesAppend(ss: seq<Socket>, ts: seq<Socket>)
    ensures Serves(ss + ts) == Serves(ss) + Serves(ts)
  {
  }

  lemma AllBindAppend(ss: seq<Socket>, ts: seq<Socket>, env: Env)
    ensures AllBind(ss + ts, env) <==> AllBind(ss, env) && AllBind(ts, env)
  {
    if AllBind(ss + ts, env) {
      assert forall i :: 0 <= i < |ss| ==> (ss + ts)[i] == ss[i];
      assert forall i :: 0 <= i < |ts| ==> (ss + ts)[|ss| + i] == ts[i];
    }
  }

  /** Binds `ts` after `ss` was bound. */
  method BindMore(ghost ss: seq<Socket>, ts: seq<Socket>, sofar: seq<Event>, env: Env)
    returns (ok: bool, trace: seq<Event>)
    requires sofar == Binds(ss) && AllBind(ss, env)
    ensures Follows(trace, Binds(ss + ts), ok)
    ensures ok <==> AllBind(ss + ts, env)
  {
    var t;
    ok, t := BindEach(ts, env);
    trace := sofar + t;
    FollowsAfter(sofar, t, Binds(ts), ok);
    BindsAppend(ss, ts);
    AllBindAppend(ss, ts, env);
  }

  lemma LongerPlanFails(trace: seq<Event>, ss: seq<Socket>, ts: seq<Socket>, env: Env)
    requires Follows(trace, Binds(ss), false) && !AllBind(ss, env)
    ensures Follows(trace, Binds(ss + ts), false) && !AllBind(ss + ts, env)
  {
    BindsAppend(ss, ts);
    FollowsLonger(trace, Binds(ss), Binds(ts));
    AllBindAppend(ss, ts, env);
  }

  /** Binds everything: HTTP, stream and mail listeners. */
  method BindAll(cfg: Config, env: Env)
    returns (ok: bool, trace: seq<Event>, now: seq<Socket>, deferred: seq<Socket>, quic: seq<Socket>)
    ensures Follows(trace, Binds(BindList(cfg)), ok)
    ensures ok <==> AllBind(BindList(cfg), env)
    ensures ok ==> Sorted(cfg, AllHttp(cfg), now, deferred, quic)
  {
    ghost var http := Keep(AllHttp(cfg), IsBound(cfg));
    ok, trace, now, deferred, quic := BindHttp(cfg, env);
    if !ok {
      LongerPlanFails(trace, http, Streams(cfg.streams), env);
      LongerPlanFails(trace, http + Streams(cfg.streams), Mails(cfg.mail), env);
      return;
    }
    ok, trace := BindMore(http, Streams(cfg.streams), trace, env);
    if !ok {
      LongerPlanFails(trace, http + Streams(cfg.streams), Mails(cfg.mail), env);
      return;
    }
    ok, trace := BindMore(http + Streams(cfg.streams), Mails(cfg.mail), trace, env);
  }

  /** Sorts the bound QUIC sockets into those served at once and those that wait. */
  method SortQuic(cfg: Config, quic: seq<Socket>) returns (now: seq<Socket>, deferred: seq<Socket>)
    ensures now == Keep(quic, HasRole(cfg, QuicNow))
    ensures deferred == Keep(quic, HasRole(cfg, AwaitQuic))
  {
    now, deferred := [], [];
    for n := 0 to |quic|
      invariant now == Keep(quic[..n], HasRole(cfg, QuicNow))
      invariant deferred == Keep(quic[..n], HasRole(cfg, AwaitQuic))
    {
      KeepPrefix(quic, n, HasRole(cfg, QuicNow));
      KeepPrefix(quic, n, HasRole(cfg, AwaitQuic));
      if RoleOf(cfg, quic[n]) == AwaitQuic {
        deferred := deferred + [quic[n]];
      } else if RoleOf(cfg, quic[n]) == QuicNow {
        now := now + [quic[n]];
      }
    }
    assert quic[..|quic|] == quic;
  }

  lemma KeepQuicRole(cfg: Config, ss: seq<Socket>, role: Role)
    requires role == QuicNow || role == AwaitQuic
    ensures Keep(Keep(ss, IsQuic(cfg)), HasRole(cfg, role)) == Keep(ss, HasRole(cfg, role))
  {
    var p, q := IsQuic(cfg), HasRole(cfg, role);
    KeepTwice(ss, p, q);
    KeepCong(ss, s => p(s) && q(s), q);
  }

  /** Draining a block whose turn has not come finds all of its listeners, and leaves those of
      the blocks still to come. */
  lemma DrainTurn(ss: seq<Socket>, done: seq<nat>, b: nat)
    requires b !in done
    ensures Keep(Keep(ss, NotInBlocks(done)), InBlock(b)) == Keep(ss, InBlock(b))
    ensures Keep(Keep(ss, NotInBlocks(done)), NotInBlock(b)) == Keep(ss, NotInBlocks(done + [b]))
  {
    var p, q, r := NotInBlocks(done), InBlock(b), NotInBlock(b);
    KeepTwice(ss, p, q);
    KeepCong(ss, s => p(s) && q(s), q);
    KeepTwice(ss, p, r);
    KeepCong(ss, s => p(s) && r(s), NotInBlocks(done + [b]));
  }

  lemma {:induction false} IssuancesPrefix(cfg: Config, order: seq<nat>, n: nat)
    requires n <= |order|
    ensures Issuances(cfg, order[..n]) <= Issuances(cfg, order)
  {
    if n == |order| {
      assert order[..n] == order;
    } else {
      var m := |order| - 1;
      IssuancesPrefix(cfg, order[..m], n);
      assert order[..m][..n] == order[..n];
    }
  }

  lemma IssuancesStep(cfg: Config, order: seq<nat>, n: nat)
    requires n < |order|
    ensures Issuances(cfg, order[..n + 1]) ==
            Issuances(cfg, order[..n]) + [Issued(order[n])] + Serves(SetFree(cfg, order[n]))
    ensures Issuances(cfg, order[..n + 1]) <= Issuances(cfg, order)
  {
    assert order[..n + 1][..n] == order[..n];
    IssuancesPrefix(cfg, order, n + 1);
  }

  lemma FailedIssueFollows(cfg: Config, order: seq<nat>, n: nat)
    requires n < |order|
    ensures Follows(Issuances(cfg, order[..n]) + [IssueFailed(order[n])], Issuances(cfg, order), false)
  {
    IssuancesStep(cfg, order, n);
    var pre, plan := Issuances(cfg, order[..n]), Issuances(cfg, order);
    assert plan[..|pre| + 1] == pre + [Issued(order[n])];
    assert (pre + [IssueFailed(order[n])])[..|pre|] == pre == plan[..|pre|];
  }

  function AwaitTlsList(cfg: Config): seq<Socket> {
    Keep(AllHttp(cfg), HasRole(cfg, AwaitTls))
  }

  function AwaitQuicList(cfg: Config): seq<Socket> {
    Keep(AllHttp(cfg), HasRole(cfg, AwaitQuic))
  }

  lemma {:induction false} KeepAllFalse(ss: seq<Socket>, p: Selector)
    requires forall i :: 0 <= i < |ss| ==> !p(ss[i])
    ensures Keep(ss, p) == []
  {
    if ss != [] {
      KeepAllFalse(ss[..|ss| - 1], p);
    }
  }

  /** When every ACME block has had its turn nothing is left waiting. */
  lemma NothingLeft(cfg: Config, order: seq<nat>, role: Role)
    requires IsAcmeOrder(cfg, order) && (role == AwaitTls || role == AwaitQuic)
    ensures Keep(Keep(AllHttp(cfg), HasRole(cfg, role)), NotInBlocks(order)) == []
  {
    var waiting := Keep(AllHttp(cfg), HasRole(cfg, role));
    forall i | 0 <= i < |waiting| ensures !NotInBlocks(order)(waiting[i]) {
      KeepMember(AllHttp(cfg), HasRole(cfg, role), waiting[i]);
    }
    KeepAllFalse(waiting, NotInBlocks(order));
  }

  predicate AllIssue(order: seq<nat>, env: Env) {
    forall i :: 0 <= i < |order| ==> env.issue(order[i])
  }

  /** Serves what the issuance for block `b` sets free. */
  method ServeFreed(cfg: Config, ghost done: seq<nat>, b: nat, tls: seq<Socket>, quic: seq<Socket>)
    returns (served: seq<Event>, tlsLeft: seq<Socket>, quicLeft: seq<Socket>)
    requires b !in done
    requires tls == Keep(AwaitTlsList(cfg), NotInBlocks(done)) && quic == Keep(AwaitQuicList(cfg), NotInBlocks(done))
    ensures served == Serves(SetFree(cfg, b))
    ensures tlsLeft == Keep(AwaitTlsList(cfg), NotInBlocks(done + [b]))
    ensures quicLeft == Keep(AwaitQuicList(cfg), NotInBlocks(done + [b]))
  {
    DrainTurn(AwaitTlsList(cfg), done, b);
    DrainTurn(AwaitQuicList(cfg), done, b);
    var servedTls, servedQuic;
    tlsLeft, servedTls := Drain(tls, b);
    quicLeft, servedQuic := Drain(quic, b);
    ServesAppend(servedTls, servedQuic);
    served := Serves(servedTls) + Serves(servedQuic);
  }

  /** Issues certificates block by block and serves what each sets free; on success both lists of
      deferred listeners have been emptied. */
  method IssueAll(cfg: Config, env: Env, order: seq<nat>, tls: seq<Socket>, quic: seq<Socket>)
    returns (ok: bool, trace: seq<Event>, tlsLeft: seq<Socket>, quicLeft: seq<Socket>)
    requires IsAcmeOrder(cfg, order) && tls == AwaitTlsList(cfg) && quic == AwaitQuicList(cfg)
    ensures Follows(trace, Issuances(cfg, order), ok)
    ensures ok <==> AllIssue(order, env)
    ensures ok ==> tlsLeft == [] && quicLeft == []
  {
    trace, tlsLeft, quicLeft := [], tls, quic;
    KeepNone(tls);
    KeepNone(quic);
    for n := 0 to |order|
      invariant trace == Issuances(cfg, order[..n])
      invariant tlsLeft == Keep(AwaitTlsList(cfg), NotInBlocks(order[..n]))
      invariant quicLeft == Keep(AwaitQuicList(cfg), NotInBlocks(order[..n]))
      invariant AllIssue(order[..n], env)
    {
      var b := order[n];
      FreshTurn(order, n);
      if !env.issue(b) {
        FailedIssueFollows(cfg, order, n);
        return false, trace + [IssueFailed(b)], tlsLeft, quicLeft;
      }
      IssuancesStep(cfg, order, n);
      var served;
      served, tlsLeft, quicLeft := ServeFreed(cfg, order[..n], b, tlsLeft, quicLeft);
      trace := trace + [Issued(b)] + served;
    }
    assert order[..|order|] == order;
    NothingLeft(cfg, order, AwaitTls);
    NothingLeft(cfg, order, AwaitQuic);
    ok := true;
  }

  lemma {:induction false} KeepAllTrue(ss: seq<Socket>, p: Selector)
    requires forall i :: 0 <= i < |ss| ==> p(ss[i])
    ensures Keep(ss, p) == ss
  {
    if ss != [] {
      KeepAllTrue(ss[..|ss| - 1], p);
    }
  }

  lemma KeepNone(ss: seq<Socket>)
    ensures Keep(ss, NotInBlocks([])) == ss
  {
    KeepAllTrue(ss, NotInBlocks([]));
  }

  predicate Succeeds(cfg: Config, env: Env, order: seq<nat>) {
    && AllBind(BindList(cfg), env)
    && (cfg.dropsPrivileges ==> env.drop)
    && AllIssue(order, env)
  }

  /** The whole startup: it follows the plan, to the end exactly when everything succeeds. */
  method Run(cfg: Config, env: Env, order: seq<nat>) returns (ok: bool, trace: seq<Event>)
    requires IsAcmeOrder(cfg, order)
    ensures Follows(trace, Plan(cfg, order), ok)
    ensures ok <==> Succeeds(cfg, env, order)
  {
    var now, deferred, quic;
    ok, trace, now, deferred, quic := BindAll(cfg, env);
    ghost var binds, drops := Binds(BindList(cfg)), Drops(cfg);
    ghost var serves, issues := Serves(ServedAtOnce(cfg)), Issuances(cfg, order);
    PlanParts(cfg, order);
    if !ok {
      FollowsLonger(trace, binds, drops + serves + issues);
      return;
    }
    if cfg.dropsPrivileges {
      if !env.drop {
        trace := trace + [DropFailed];
        assert Follows([DropFailed], drops + serves + issues, false);
        FollowsAfter(binds, [DropFailed], drops + serves + issues, false);
        ok := false;
        return;
      }
      trace := trace + [Dropped];
    }
    assert trace == binds + drops;
    var quicNow, quicDeferred := SortQuic(cfg, quic);
    KeepQuicRole(cfg, AllHttp(cfg), QuicNow);
    KeepQuicRole(cfg, AllHttp(cfg), AwaitQuic);
    trace := trace + Serves(Streams(cfg.streams) + Mails(cfg.mail) + now + quicNow);
    var t;
    ghost var left, left';
    ok, t, left, left' := IssueAll(cfg, env, order, deferred, quicDeferred);
    FollowsAfter(trace, t, issues, ok);
    trace := trace + t;
  }

  lemma PlanParts(cfg: Config, order: seq<nat>)
    ensures Plan(cfg, order) ==
      Binds(BindList(cfg)) + (Drops(cfg) + Serves(ServedAtOnce(cfg)) + Issuances(cfg, order))
  {
  }

  // ---------------------------------------------------------------- order

  /** Binding comes before the drop, and the drop before serving and issuing. */
  function Rank(e: Event): nat {
    match e
    case Bound(_) => 0
    case BindFailed(_) => 0
    case Dropped => 1
    case DropFailed => 1
    case _ => 2
  }

  lemma {:induction false} IssuancesRank(cfg: Config, order: seq<nat>)
    ensures forall i :: 0 <= i < |Issuances(cfg, order)| ==> Rank(Issuances(cfg, order)[i]) == 2
  {
    if order != [] {
      IssuancesRank(cfg, order[..|order| - 1]);
    }
  }

  function BeforeIssuances(cfg: Config): seq<Event> {
    Binds(BindList(cfg)) + Drops(cfg) + Serves(ServedAtOnce(cfg))
  }

  lemma EarlyRank(cfg: Config, i: nat)
    requires i < |BeforeIssuances(cfg)|
    ensures
      var n := |BindList(cfg)|;
      && Rank(BeforeIssuances(cfg)[i]) == (if i < n then 0 else if cfg.dropsPrivileges && i == n then 1 else 2)
      && (i < n ==> BeforeIssuances(cfg)[i] == Bound(BindList(cfg)[i]))
      && (cfg.dropsPrivileges && i == n ==> BeforeIssuances(cfg)[i] == Dropped)
  {
    ThreeParts(Binds(BindList(cfg)), Drops(cfg), Serves(ServedAtOnce(cfg)), i);
  }

  lemma ThreeParts(a: seq<Event>, b: seq<Event>, c: seq<Event>, i: nat)
    requires i < |a + b + c|
    ensures (a + b + c)[i] ==
      if i < |a| then a[i] else if i < |a| + |b| then b[i - |a|] else c[i - |a| - |b|]
  {
  }

  /** The rank of every event of the plan, by position. */
  lemma PlanRank(cfg: Config, order: seq<nat>, i: nat)
    requires i < |Plan(cfg, order)|
    ensures
      var n := |BindList(cfg)|;
      && Rank(Plan(cfg, order)[i]) == (if i < n then 0 else if cfg.dropsPrivileges && i == n then 1 else 2)
      && (i < n ==> Plan(cfg, order)[i] == Bound(BindList(cfg)[i]))
      && (cfg.dropsPrivileges && i == n ==> Plan(cfg, order)[i] == Dropped)
  {
    var before := BeforeIssuances(cfg);
    assert Plan(cfg, order) == before + Issuances(cfg, order);
    assert |before| >= |BindList(cfg)| + |Drops(cfg)|;
    if i < |before| {
      EarlyRank(cfg, i);
    } else {
      IssuancesRank(cfg, order);
      assert Plan(cfg, order)[i] == Issuances(cfg, order)[i - |before|];
    }
  }

  lemma SameRank(trace: seq<Event>, plan: seq<Event>, ok: bool, i: nat)
    requires Follows(trace, plan, ok) && i < |trace|
    ensures i < |plan| && Rank(trace[i]) == Rank(plan[i])
  {
    if ok || i < |trace| - 1 {
      SameAsPlan(trace, plan, ok, i);
    }
  }

  /** In every startup, whatever fails, all binds precede the privilege drop and the drop precedes
      everything served or issued. */
  lemma StartupOrder(cfg: Config, order: seq<nat>, trace: seq<Event>, ok: bool, i: nat, j: nat)
    requires Follows(trace, Plan(cfg, order), ok) && i < j < |trace|
    ensures Rank(trace[i]) <= Rank(trace[j])
  {
    SameRank(trace, Plan(cfg, order), ok, i);
    SameRank(trace, Plan(cfg, order), ok, j);
    PlanRank(cfg, order, i);
    PlanRank(cfg, order, j);
  }

  /** Nothing is served or issued before every socket of the configuration is bound and, if a user
      is configured, the privileges are dropped. */
  lemma ServedOnlyAfterDrop(cfg: Config, order: seq<nat>, trace: seq<Event>, ok: bool, j: nat, i: nat)
    requires Follows(trace, Plan(cfg, order), ok) && j < |trace|
    ensures Rank(trace[j]) == 2 && i < |BindList(cfg)| ==> i < j && trace[i] == Bound(BindList(cfg)[i])
    ensures Rank(trace[j]) == 2 && cfg.dropsPrivileges && i == |BindList(cfg)| ==> i < j && trace[i] == Dropped
  {
    SameRank(trace, Plan(cfg, order), ok, j);
    PlanRank(cfg, order, j);
    if Rank(trace[j]) == 2 && (i < |BindList(cfg)| || (cfg.dropsPrivileges && i == |BindList(cfg)|)) {
      SameAsPlan(trace, Plan(cfg, order), ok, i);
      PlanRank(cfg, order, i);
    }
  }

  // ---------------------------------------------------------------- certificates first

  predicate Waits(cfg: Config, s: Socket) {
    RoleOf(cfg, s).AwaitTls? || RoleOf(cfg, s).AwaitQuic?
  }

  /** A TLS or QUIC listener of an ACME block. */
  predicate NeedsCertificate(cfg: Config, s: Socket) {
    && s.Http? && s.block < |cfg.http| && cfg.http[s.block].ssl == Ssl(true)
    && (s.protocol.Tls? || s.protocol.Quic?)
  }

  lemma {:induction false} FreedAfterIssue(cfg: Config, order: seq<nat>, j: nat) returns (i: nat)
    requires j < |Issuances(cfg, order)| && Issuances(cfg, order)[j].Served?
    ensures i < j && Issuances(cfg, order)[j].socket.Http?
    ensures Issuances(cfg, order)[i] == Issued(Issuances(cfg, order)[j].socket.block)
  {
    var n := |order| - 1;
    var before := Issuances(cfg, order[..n]);
    if j < |before| {
      i := FreedAfterIssue(cfg, order[..n], j);
    } else {
      i := |before|;
      var b := order[n];
      var s := Issuances(cfg, order)[j].socket;
      assert s == SetFree(cfg, b)[j - |before| - 1];
      KeepMember(AwaitTlsList(cfg), InBlock(b), s);
      KeepMember(AwaitQuicList(cfg), InBlock(b), s);
    }
  }

  lemma AtOnceDoesNotWait(cfg: Config, s: Socket)
    requires s in ServedAtOnce(cfg)
    ensures !NeedsCertificate(cfg, s)
  {
    KeepMember(AllHttp(cfg), HasRole(cfg, ServeNow), s);
    KeepMember(AllHttp(cfg), HasRole(cfg, QuicNow), s);
    StreamsAreStreams(cfg.streams, s);
    MailsAreMails(cfg.mail, s);
  }

  lemma {:induction false} StreamsAreStreams(n: nat, s: Socket)
    ensures s in Streams(n) <==> s.Stream? && s.n < n
  {
    if n > 0 {
      StreamsAreStreams(n - 1, s);
    }
  }

  lemma {:induction false} MailsAreMails(n: nat, s: Socket)
    ensures s in Mails(n) <==> s.Mail? && s.n < n
  {
    if n > 0 {
      MailsAreMails(n - 1, s);
    }
  }

  lemma EarlyServedAtOnce(cfg: Config, j: nat)
    requires j < |BeforeIssuances(cfg)| && BeforeIssuances(cfg)[j].Served?
    ensures BeforeIssuances(cfg)[j].socket in ServedAtOnce(cfg)
  {
    var k := j - |BindList(cfg)| - |Drops(cfg)|;
    assert BeforeIssuances(cfg)[j] == Serves(ServedAtOnce(cfg))[k] == Served(ServedAtOnce(cfg)[k]);
  }

  lemma EarlyNeedsNoCertificate(cfg: Config, j: nat)
    requires j < |BeforeIssuances(cfg)|
    ensures BeforeIssuances(cfg)[j].Served? ==> !NeedsCertificate(cfg, BeforeIssuances(cfg)[j].socket)
  {
    if BeforeIssuances(cfg)[j].Served? {
      EarlyServedAtOnce(cfg, j);
      AtOnceDoesNotWait(cfg, BeforeIssuances(cfg)[j].socket);
    }
  }

  lemma PlanSplit(cfg: Config, order: seq<nat>, j: nat)
    requires j < |Plan(cfg, order)|
    ensures
      var m := |BeforeIssuances(cfg)|;
      && (j < m ==> Plan(cfg, order)[j] == BeforeIssuances(cfg)[j])
      && (j >= m ==> j - m < |Issuances(cfg, order)| && Plan(cfg, order)[j] == Issuances(cfg, order)[j - m])
  {
    assert Plan(cfg, order) == BeforeIssuances(cfg) + Issuances(cfg, order);
  }

  lemma PlanServedAfterIssue(cfg: Config, order: seq<nat>, j: nat) returns (i: nat)
    requires j < |Plan(cfg, order)| && Plan(cfg, order)[j].Served? && NeedsCertificate(cfg, Plan(cfg, order)[j].socket)
    ensures i < j && Plan(cfg, order)[i] == Issued(Plan(cfg, order)[j].socket.block)
  {
    var m := |BeforeIssuances(cfg)|;
    PlanSplit(cfg, order, j);
    assert j >= m by {
      if j < m {
        EarlyNeedsNoCertificate(cfg, j);
      }
    }
    i := FreedAfterIssue(cfg, order, j - m);
    i := i + m;
    PlanSplit(cfg, order, i);
  }

  /** In every startup, whatever fails, a TLS or QUIC listener of an ACME block is served only
      after the certificate of that block was issued. */
  lemma ServedOnlyWithCertificate(cfg: Config, order: seq<nat>, trace: seq<Event>, ok: bool, j: nat)
    requires Follows(trace, Plan(cfg, order), ok) && j < |trace|
    ensures trace[j].Served? && NeedsCertificate(cfg, trace[j].socket) ==>
      exists i :: 0 <= i < j && trace[i] == Issued(trace[j].socket.block)
  {
    if trace[j].Served? && NeedsCertificate(cfg, trace[j].socket) {
      var plan := Plan(cfg, order);
      SameAsPlan(trace, plan, ok, j);
      var i := PlanServedAfterIssue(cfg, order, j);
      SameAsPlan(trace, plan, ok, i);
    }
  }

  lemma {:induction false} OccursAt(ss: seq<Socket>, s: Socket) returns (k: nat)
    requires Occurrences(ss, s) > 0
    ensures k < |ss| && ss[k] == s
  {
    var n := |ss| - 1;
    if ss[n] == s {
      k := n;
    } else {
      k := OccursAt(ss[..n], s);
    }
  }

  /** Everything that needs no certificate is served before the first issuance is even tried, so a
      plain HTTP listener is there to answer the authority's challenge. */
  lemma ServedBeforeIssuance(cfg: Config, order: seq<nat>, trace: seq<Event>, ok: bool, i: nat, s: Socket)
    requires Follows(trace, Plan(cfg, order), ok) && i < |trace| && (trace[i].Issued? || trace[i].IssueFailed?)
    requires ShouldServe(cfg, s) && !NeedsCertificate(cfg, s)
    ensures exists j :: 0 <= j < i && trace[j] == Served(s)
  {
    ShouldServeIff(cfg, s);
    AtOnceOccurrences(cfg, s);
    var k := OccursAt(ServedAtOnce(cfg), s);
    var j := |BindList(cfg)| + |Drops(cfg)| + k;
    ThreeParts(Binds(BindList(cfg)), Drops(cfg), Serves(ServedAtOnce(cfg)), j);
    assert BeforeIssuances(cfg)[j] == Served(s);
    PlanSplit(cfg, order, j);
    IssuedLate(cfg, order, trace, ok, i);
    SameAsPlan(trace, Plan(cfg, order), ok, j);
  }

  lemma IssuedLate(cfg: Config, order: seq<nat>, trace: seq<Event>, ok: bool, i: nat)
    requires Follows(trace, Plan(cfg, order), ok) && i < |trace| && (trace[i].Issued? || trace[i].IssueFailed?)
    ensures i >= |BeforeIssuances(cfg)|
  {
    var plan := Plan(cfg, order);
    assert i < |plan| && (plan[i].Issued? || plan[i].IssueFailed?) by {
      if ok || i < |trace| - 1 {
        SameAsPlan(trace, plan, ok, i);
      } else {
        assert FailureOf(trace[i], plan[i]);
      }
    }
    if i < |BeforeIssuances(cfg)| {
      PlanSplit(cfg, order, i);
      ThreeParts(Binds(BindList(cfg)), Drops(cfg), Serves(ServedAtOnce(cfg)), i);
    }
  }

  lemma SameAsPlan(trace: seq<Event>, plan: seq<Event>, ok: bool, i: nat)
    requires Follows(trace, plan, ok) && i < |trace| && (ok || i < |trace| - 1 || trace[i].Served?)
    ensures i < |plan| && trace[i] == plan[i]
  {
    if !ok {
      var n := |trace| - 1;
      assert trace[..n] == plan[..n];
      if i < n {
        assert trace[i] == trace[..n][i] == plan[..n][i];
      }
    }
  }

  // ---------------------------------------------------------------- each listener exactly once

  function ServedIn(trace: seq<Event>, s: Socket): nat {
    if trace == [] then 0
    else ServedIn(trace[..|trace| - 1], s) + if trace[|trace| - 1] == Served(s) then 1 else 0
  }

  lemma {:induction false} ServedInAppend(a: seq<Event>, b: seq<Event>, s: Socket)
    ensures ServedIn(a + b, s) == ServedIn(a, s) + ServedIn(b, s)
  {
    if b == [] {
      assert a + b == a;
    } else {
      assert (a + b)[..|a + b| - 1] == a + b[..|b| - 1];
      ServedInAppend(a, b[..|b| - 1], s);
    }
  }

  function Occurrences(ss: seq<Socket>, s: Socket): nat {
    if ss == [] then 0 else Occurrences(ss[..|ss| - 1], s) + if ss[|ss| - 1] == s then 1 else 0
  }

  lemma {:induction false} OccurrencesAppend(a: seq<Socket>, b: seq<Socket>, s: Socket)
    ensures Occurrences(a + b, s) == Occurrences(a, s) + Occurrences(b, s)
  {
    if b == [] {
      assert a + b == a;
    } else {
      assert (a + b)[..|a + b| - 1] == a + b[..|b| - 1];
      OccurrencesAppend(a, b[..|b| - 1], s);
    }
  }

  lemma {:induction false} ServedInServes(ss: seq<Socket>, s: Socket)
    ensures ServedIn(Serves(ss), s) == Occurrences(ss, s)
  {
    if ss != [] {
      var n := |ss| - 1;
      ServedInServes(ss[..n], s);
      assert Serves(ss)[..n] == Serves(ss[..n]);
    }
  }

  lemma {:induction false} NoneServed(trace: seq<Event>, s: Socket)
    requires forall i :: 0 <= i < |trace| ==> !trace[i].Served?
    ensures ServedIn(trace, s) == 0
  {
    if trace != [] {
      NoneServed(trace[..|trace| - 1], s);
    }
  }

  lemma {:induction false} OccurrencesKeep(ss: seq<Socket>, p: Selector, s: Socket)
    ensures Occurrences(Keep(ss, p), s) == if p(s) then Occurrences(ss, s) else 0
  {
    if ss != [] {
      var n := |ss| - 1;
      OccurrencesKeep(ss[..n], p, s);
      var last := if p(ss[n]) then [ss[n]] else [];
      OccurrencesAppend(Keep(ss[..n], p), last, s);
      assert p(ss[n]) ==> last[..0] == [];
    }
  }

  lemma {:induction false} BlockOccurrences(cfg: Config, b: nat, n: nat, s: Socket)
    requires b < |cfg.http| && n <= |cfg.http[b].listen|
    ensures Occurrences(BlockSockets(cfg, b, n), s) ==
      if s.Http? && s.block == b && s.listen < n && s.protocol == cfg.http[b].listen[s.listen] then 1 else 0
  {
    if n > 0 {
      BlockOccurrences(cfg, b, n - 1, s);
      var ss := BlockSockets(cfg, b, n);
      assert ss[..|ss| - 1] == BlockSockets(cfg, b, n - 1);
    }
  }

  /** A listen directive of the configuration. */
  predicate IsListener(cfg: Config, s: Socket) {
    s.Http? && s.block < |cfg.http| && s.listen < |cfg.http[s.block].listen|
      && s.protocol == cfg.http[s.block].listen[s.listen]
  }

  lemma {:induction false} HttpOccurrences(cfg: Config, b: nat, s: Socket)
    requires b <= |cfg.http|
    ensures Occurrences(HttpSockets(cfg, b), s) == if IsListener(cfg, s) && s.block < b then 1 else 0
  {
    if b > 0 {
      HttpOccurrences(cfg, b - 1, s);
      BlockOccurrences(cfg, b - 1, |cfg.http[b - 1].listen|, s);
      OccurrencesAppend(HttpSockets(cfg, b - 1), BlockSockets(cfg, b - 1, |cfg.http[b - 1].listen|), s);
    }
  }

  lemma {:induction false} StreamOccurrences(n: nat, s: Socket)
    ensures Occurrences(Streams(n), s) == if s.Stream? && s.n < n then 1 else 0
  {
    if n > 0 {
      StreamOccurrences(n - 1, s);
      assert Streams(n)[..|Streams(n)| - 1] == Streams(n - 1);
    }
  }

  lemma {:induction false} MailOccurrences(n: nat, s: Socket)
    ensures Occurrences(Mails(n), s) == if s.Mail? && s.n < n then 1 else 0
  {
    if n > 0 {
      MailOccurrences(n - 1, s);
      assert Mails(n)[..|Mails(n)| - 1] == Mails(n - 1);
    }
  }

  /** The listeners served before any issuance. */
  predicate ServesAtOnce(cfg: Config, s: Socket) {
    || (s.Stream? && s.n < cfg.streams)
    || (s.Mail? && s.n < cfg.mail)
    || (IsListener(cfg, s) && (RoleOf(cfg, s).ServeNow? || RoleOf(cfg, s).QuicNow?))
  }

  /** The listeners that wait for their block's certificate. */
  predicate ServesLater(cfg: Config, s: Socket) {
    IsListener(cfg, s) && Waits(cfg, s)
  }

  lemma AtOnceOccurrences(cfg: Config, s: Socket)
    ensures Occurrences(ServedAtOnce(cfg), s) == if ServesAtOnce(cfg, s) then 1 else 0
  {
    var now, quic := Keep(AllHttp(cfg), HasRole(cfg, ServeNow)), Keep(AllHttp(cfg), HasRole(cfg, QuicNow));
    OccurrencesAppend(Streams(cfg.streams) + Mails(cfg.mail) + now, quic, s);
    OccurrencesAppend(Streams(cfg.streams) + Mails(cfg.mail), now, s);
    OccurrencesAppend(Streams(cfg.streams), Mails(cfg.mail), s);
    StreamOccurrences(cfg.streams, s);
    MailOccurrences(cfg.mail, s);
    OccurrencesKeep(AllHttp(cfg), HasRole(cfg, ServeNow), s);
    OccurrencesKeep(AllHttp(cfg), HasRole(cfg, QuicNow), s);
    HttpOccurrences(cfg, |cfg.http|, s);
  }

  lemma SetFreeOccurrences(cfg: Config, b: nat, s: Socket)
    ensures Occurrences(SetFree(cfg, b), s) == if ServesLater(cfg, s) && s.block == b then 1 else 0
  {
    OccurrencesAppend(Keep(AwaitTlsList(cfg), InBlock(b)), Keep(AwaitQuicList(cfg), InBlock(b)), s);
    OccurrencesKeep(AwaitTlsList(cfg), InBlock(b), s);
    OccurrencesKeep(AwaitQuicList(cfg), InBlock(b), s);
    OccurrencesKeep(AllHttp(cfg), HasRole(cfg, AwaitTls), s);
    OccurrencesKeep(AllHttp(cfg), HasRole(cfg, AwaitQuic), s);
    HttpOccurrences(cfg, |cfg.http|, s);
  }

  lemma OneIssuanceServed(cfg: Config, b: nat, s: Socket)
    ensures ServedIn([Issued(b)] + Serves(SetFree(cfg, b)), s) == if ServesLater(cfg, s) && s.block == b then 1 else 0
  {
    ServedInAppend([Issued(b)], Serves(SetFree(cfg, b)), s);
    NoneServed([Issued(b)], s);
    ServedInServes(SetFree(cfg, b), s);
    SetFreeOccurrences(cfg, b, s);
  }

  lemma IssuancesSplit(cfg: Config, order: seq<nat>, s: Socket)
    requires order != []
    ensures
      var n := |order| - 1;
      ServedIn(Issuances(cfg, order), s) == ServedIn(Issuances(cfg, order[..n]), s)
        + ServedIn([Issued(order[n])] + Serves(SetFree(cfg, order[n])), s)
  {
    var n := |order| - 1;
    var before, one := Issuances(cfg, order[..n]), [Issued(order[n])] + Serves(SetFree(cfg, order[n]));
    assert Issuances(cfg, order) == before + one;
    ServedInAppend(before, one, s);
  }

  lemma {:induction false} IssuancesServed(cfg: Config, order: seq<nat>, s: Socket)
    requires NoRepeats(order)
    ensures ServedIn(Issuances(cfg, order), s) ==
      if ServesLater(cfg, s) && s.block in order then 1 else 0
  {
    if order != [] {
      var n := |order| - 1;
      FreshTurn(order, n);
      assert order[..n + 1] == order;
      IssuancesServed(cfg, order[..n], s);
      OneIssuanceServed(cfg, order[n], s);
      IssuancesSplit(cfg, order, s);
    }
  }

  lemma BindsServeNothing(cfg: Config, s: Socket)
    ensures ServedIn(Binds(BindList(cfg)) + Drops(cfg), s) == 0
  {
    NoneServed(Binds(BindList(cfg)) + Drops(cfg), s);
  }

  lemma PlanServed(cfg: Config, order: seq<nat>, s: Socket)
    ensures ServedIn(Plan(cfg, order), s) == Occurrences(ServedAtOnce(cfg), s) + ServedIn(Issuances(cfg, order), s)
  {
    ServedInAppend(BeforeIssuances(cfg), Issuances(cfg, order), s);
    ServedInAppend(Binds(BindList(cfg)) + Drops(cfg), Serves(ServedAtOnce(cfg)), s);
    BindsServeNothing(cfg, s);
    ServedInServes(ServedAtOnce(cfg), s);
  }

  /** ACME blocks get their turn. */
  lemma WaitingGetsTurn(cfg: Config, order: seq<nat>, s: Socket)
    requires IsAcmeOrder(cfg, order) && ServesLater(cfg, s)
    ensures s.block in order && !ServesAtOnce(cfg, s)
  {
    assert IsAcme(cfg, s.block);
  }

  lemma ServedCounts(cfg: Config, order: seq<nat>, s: Socket)
    requires NoRepeats(order)
    ensures ServedIn(Plan(cfg, order), s) ==
      (if ServesAtOnce(cfg, s) then 1 else 0) + (if ServesLater(cfg, s) && s.block in order then 1 else 0)
  {
    PlanServed(cfg, order, s);
    AtOnceOccurrences(cfg, s);
    IssuancesServed(cfg, order, s);
  }

  /** What a startup is meant to serve: every stream and mail listener, every TCP and TLS
      listener, and the QUIC listeners of blocks with HTTP/3 and an ssl section. */
  predicate ShouldServe(cfg: Config, s: Socket) {
    || (s.Stream? && s.n < cfg.streams)
    || (s.Mail? && s.n < cfg.mail)
    || (IsListener(cfg, s) &&
         (s.protocol.Tcp? || s.protocol.Tls?
          || (s.protocol.Quic? && cfg.http[s.block].http3 && cfg.http[s.block].ssl != NoSsl)))
  }

  lemma ShouldServeIff(cfg: Config, s: Socket)
    ensures ShouldServe(cfg, s) <==> ServesAtOnce(cfg, s) || ServesLater(cfg, s)
  {
  }

  /** A successful startup serves each listener that is to be served, deferred ones included,
      exactly once, and nothing else. */
  lemma EachServedExactlyOnce(cfg: Config, order: seq<nat>, s: Socket)
    requires IsAcmeOrder(cfg, order)
    ensures ServedIn(Plan(cfg, order), s) == if ShouldServe(cfg, s) then 1 else 0
  {
    ShouldServeIff(cfg, s);
    ServedCounts(cfg, order, s);
    if ServesLater(cfg, s) {
      WaitingGetsTurn(cfg, order, s);
    }
  }

  /** The plan binds every listener of known protocol, and every stream and mail listener, exactly
      once. */
  lemma EachBoundExactlyOnce(cfg: Config, s: Socket)
    ensures Occurrences(BindList(cfg), s) ==
      if || (s.Stream? && s.n < cfg.streams) || (s.Mail? && s.n < cfg.mail)
         || (IsListener(cfg, s) && !s.protocol.Unknown?) then 1 else 0
  {
    var http := Keep(AllHttp(cfg), IsBound(cfg));
    OccurrencesAppend(http + Streams(cfg.streams), Mails(cfg.mail), s);
    OccurrencesAppend(http, Streams(cfg.streams), s);
    StreamOccurrences(cfg.streams, s);
    MailOccurrences(cfg.mail, s);
    OccurrencesKeep(AllHttp(cfg), IsBound(cfg), s);
    HttpOccurrences(cfg, |cfg.http|, s);
  }
}
