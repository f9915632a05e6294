/** Configuration reload as a protocol (src/server.rs): the signal handler swaps the shared
    configuration and then broadcasts; certificate renewal replaces the files and then
    broadcasts; each accept loop, when its receiver fires, reads the configuration and rebuilds
    itself from its own block.

    The broadcast channel has capacity one: a receiver that missed messages is told that it
    lagged, which fires the reload arm too, and then still finds the newest message.  Whether an
    acceptor can be built from the certificate files at a given moment is an arbitrary outcome. */
module Reload {
  import opened Prelude

  /** What matters of an `[[http]]` block: its contents and whether it has an ssl section. */
  datatype Block = Block(settings: string, ssl: bool)
  type Config = seq<Block>

  /** The accept loops: plain TCP; TLS with the block's own certificate or the ACME manager's,
      whose acceptor the reload arm rebuilds; and QUIC with either, which it does not. */
  datatype Kind = Plain | StaticTls | AcmeTls | StaticQuic | AcmeQuic

  predicate IsTls(k: Kind) {
    k == StaticTls || k == AcmeTls
  }

  predicate IsQuic(k: Kind) {
    k == StaticQuic || k == AcmeQuic
  }

  predicate IsAcme(k: Kind) {
    k == AcmeTls || k == AcmeQuic
  }

  /** What an acceptor was built from: an issue of the ACME certificate, or a block's settings. */
  datatype Acceptor = Issued(cert: nat) | Configured(block: Block)

  /** `Starting`: spawned, acceptor not yet built.  `Notified`: the receiver has fired.
      `Read(v)`: holds a clone of the v-th configuration.  `Stopped`: the task has ended. */
  datatype Phase = Starting | Idle | Notified | Read(config: nat) | Stopped

  /** An accept loop.  `seen` is the last configuration it processed, `version` the one its block
      was taken from, `pos` its position in the channel, `acceptor` what it serves TLS with. */
  datatype Listener = Listener(
    kind: Kind, idx: nat, block: Block, pos: nat, phase: Phase, seen: nat, version: nat,
    acceptor: Option<Acceptor>)

  /** `history` is every configuration so far, the last one being current; `swapped` holds while
      the signal handler is between write and send; `renewed` are the blocks whose renewal task
      has written a new certificate and not yet sent. */
  datatype State = State(
    history: seq<Config>, tail: nat, swapped: bool, listeners: seq<Listener>,
    disk: map<nat, nat>, renewed: set<nat>)

  datatype Event =
    | Subscribe(kind: Kind, idx: nat)
    | Swap(config: Config)
    | Broadcast
    | Renew(idx: nat)
    | RenewalSend(idx: nat)
    | Start(l: nat, ok: bool)
    | Receive(l: nat)
    | ReadConfig(l: nat)
    | Install(l: nat, ok: bool)

  function DiskCert(s: State, idx: nat): nat {
    if idx in s.disk then s.disk[idx] else 0
  }

  function Current(s: State): nat
    requires s.history != []
  {
    |s.history| - 1
  }

  /** Listeners subscribe before the signal handler is spawned, that is, before any swap. */
  predicate Enabled(s: State, e: Event)
    requires s.history != []
  {
    match e
    case Subscribe(_, idx) => |s.history| == 1 && idx < |s.history[0]|
    case Swap(_) => !s.swapped
    case Broadcast => s.swapped
    case Renew(idx) => idx !in s.renewed
    case RenewalSend(idx) => idx in s.renewed
    case Start(l, _) => l < |s.listeners| && s.listeners[l].phase.Starting?
    case Receive(l) => l < |s.listeners| && s.listeners[l].phase.Idle? && s.listeners[l].pos < s.tail
    case ReadConfig(l) => l < |s.listeners| && s.listeners[l].phase.Notified?
    case Install(l, _) =>
      l < |s.listeners| && s.listeners[l].phase.Read? && s.listeners[l].phase.config < |s.history|
  }

  /** A lagging receiver skips to the newest message; otherwise it takes the one it waits for. */
  function NextPosition(pos: nat, tail: nat): nat
    requires pos < tail
  {
    if pos + 1 < tail then tail - 1 else tail
  }

  /** What an acceptor built now for this block would serve. */
  function Material(s: State, l: Listener, block: Block): Acceptor {
    if IsAcme(l.kind) then Issued(DiskCert(s, l.idx)) else Configured(block)
  }

  /** The listener after an attempt to build its acceptor: a failure leaves it without one. */
  function Build(s: State, l: Listener, block: Block, ok: bool): Listener {
    l.(acceptor := if ok then Some(Material(s, l, block)) else None)
  }

  /** The task's first steps.  A TLS loop goes on without an acceptor when its block has no ssl
      section or the build fails; a QUIC loop gives up. */
  function Started(s: State, l: Listener, ok: bool): Listener {
    var tried := if l.kind != Plain && l.block.ssl then Build(s, l, l.block, ok) else l;
    tried.(phase := if IsQuic(l.kind) && tried.acceptor.None? then Stopped else Idle)
  }

  /** The reload arm, with the v-th configuration in hand. */
  function Rebuilt(s: State, l: Listener, v: nat, ok: bool): Listener
    requires v < |s.history|
  {
    if l.idx < |s.history[v]| then
      var block := s.history[v][l.idx];
      var tried := if IsTls(l.kind) && block.ssl then Build(s, l, block, ok) else l;
      tried.(block := block, version := v, seen := v, phase := Idle)
    else l.(seen := v, phase := Idle)
  }

  function Update(s: State, l: nat, to: Listener): State
    requires l < |s.listeners|
  {
    s.(listeners := s.listeners[l := to])
  }

  function Fresh(kind: Kind, idx: nat, block: Block, pos: nat): Listener {
    Listener(kind, idx, block, pos, Starting, 0, 0, None)
  }

  function Step(s: State, e: Event): (r: State)
    requires s.history != []
    ensures r.history != []
  {
    if !Enabled(s, e) then s
    else match e
      case Subscribe(kind, idx) =>
        s.(listeners := s.listeners + [Fresh(kind, idx, s.history[0][idx], s.tail)])
      case Swap(config) => s.(history := s.history + [config], swapped := true)
      case Broadcast => s.(tail := s.tail + 1, swapped := false)
      case Renew(idx) => s.(disk := s.disk[idx := DiskCert(s, idx) + 1], renewed := s.renewed + {idx})
      case RenewalSend(idx) => s.(tail := s.tail + 1, renewed := s.renewed - {idx})
      case Start(l, ok) => Update(s, l, Started(s, s.listeners[l], ok))
      case Receive(l) =>
        Update(s, l, s.listeners[l].(phase := Notified, pos := NextPosition(s.listeners[l].pos, s.tail)))
      case ReadConfig(l) => Update(s, l, s.listeners[l].(phase := Read(Current(s))))
      case Install(l, ok) => Update(s, l, Rebuilt(s, s.listeners[l], s.listeners[l].phase.config, ok))
  }

  function After(start: Config, events: seq<Event>): (s: State)
    ensures s.history != []
  {
    if events == [] then State([start], 0, false, [], map[], {})
    else Step(After(start, events[..|events| - 1]), events[|events| - 1])
  }

  // ---------------------------------------------------------------- the invariant

  /** The listener's block is its own block of configuration `version`, which is the newest one it
      processed that has such a block. */
  predicate Provenance(s: State, l: Listener)
    requires s.history != []
  {
    && l.version <= l.seen < |s.history|
    && l.idx < |s.history[l.version]| && l.block == s.history[l.version][l.idx]
    && (l.idx < |s.history[l.seen]| ==> l.version == l.seen)
    && (l.phase.Read? ==> l.seen <= l.phase.config < |s.history|)
  }

  predicate Pending(s: State, l: Listener) {
    l.pos < s.tail || l.phase.Notified?
  }

  /** Nothing is lost: a notification is pending or being processed, or the signal handler is
      about to send one, or the listener has processed the current configuration. */
  predicate Informed(s: State, l: Listener)
    requires s.history != []
  {
    || l.phase.Stopped?
    || Pending(s, l)
    || s.swapped
    || (if l.phase.Read? then l.phase.config else l.seen) == Current(s)
  }

  /** The newest configuration the listener processed gives it an ssl section. */
  predicate SeenSsl(s: State, l: Listener) {
    l.seen < |s.history| && l.idx < |s.history[l.seen]| && s.history[l.seen][l.idx].ssl
  }

  /** The same for certificates: a TLS listener at rest whose last configuration gives it an ssl
      section serves what is on disk, if it has an acceptor, unless a notification is on its way. */
  predicate CertInformed(s: State, l: Listener) {
    IsTls(l.kind) && l.phase.Idle? && SeenSsl(s, l) ==>
      Pending(s, l) || l.idx in s.renewed || l.acceptor.None? || l.acceptor == Some(Material(s, l, l.block))
  }

  predicate SslAt(s: State, idx: nat, v: nat) {
    v < |s.history| && idx < |s.history[v]| && s.history[v][idx].ssl
  }

  /** Some configuration the listener can have processed gave it an ssl section. */
  predicate EverSsl(s: State, l: Listener) {
    exists v :: 0 <= v <= l.seen && SslAt(s, l.idx, v)
  }

  /** Only loops that had an ssl section have an acceptor, and QUIC loops end without one. */
  predicate AcceptorInv(s: State, l: Listener) {
    && (l.phase.Starting? || l.kind == Plain ==> l.acceptor == None)
    && (l.acceptor.Some? ==> EverSsl(s, l))
    && (IsQuic(l.kind) && !l.phase.Starting? ==> (l.acceptor.Some? <==> !l.phase.Stopped?))
    && (l.phase.Stopped? ==> IsQuic(l.kind))
  }

  predicate ListenerInv(s: State, l: Listener)
    requires s.history != []
  {
    l.pos <= s.tail && Provenance(s, l) && Informed(s, l) && CertInformed(s, l) && AcceptorInv(s, l)
  }

  predicate Inv(s: State) {
    && s.history != []
    && (s.swapped ==> |s.history| > 1)
    && forall k :: 0 <= k < |s.listeners| ==> ListenerInv(s, s.listeners[k])
  }

  /** The listener a step concerns, if it concerns only one. */
  function Own(e: Event): Option<nat> {
    match e
    case Start(l, _) => Some(l)
    case Receive(l) => Some(l)
    case ReadConfig(l) => Some(l)
    case Install(l, _) => Some(l)
    case _ => None
  }

  /** Configurations are only ever added. */
  lemma SslKept(s: State, t: State, l: Listener, m: Listener)
    requires s.history <= t.history && l.idx == m.idx && l.seen <= m.seen && EverSsl(s, l)
    ensures EverSsl(t, m)
  {
    var v :| 0 <= v <= l.seen && SslAt(s, l.idx, v);
    assert SslAt(t, m.idx, v);
  }

  /** A step that is not the listener's own keeps its part of the invariant. */
  lemma OthersKeepInv(s: State, e: Event, k: nat)
    requires Inv(s) && Enabled(s, e) && k < |s.listeners| && Own(e) != Some(k)
    ensures k < |Step(s, e).listeners| && Step(s, e).listeners[k] == s.listeners[k]
    ensures ListenerInv(Step(s, e), s.listeners[k])
  {
    var l := s.listeners[k];
    assert ListenerInv(s, l);
    if l.acceptor.Some? {
      SslKept(s, Step(s, e), l, l);
    }
  }

  lemma StartedKeepsInv(s: State, l: Listener, ok: bool)
    requires s.history != [] && ListenerInv(s, l) && l.phase.Starting?
    ensures ListenerInv(s, Started(s, l, ok))
  {
    if l.block.ssl {
      assert SslAt(s, l.idx, l.version);
    }
  }

  lemma RebuiltKeepsInv(s: State, l: Listener, ok: bool)
    requires s.history != [] && ListenerInv(s, l) && l.phase.Read?
    ensures ListenerInv(s, Rebuilt(s, l, l.phase.config, ok))
  {
    var v := l.phase.config;
    var m := Rebuilt(s, l, v, ok);
    if l.acceptor.Some? {
      SslKept(s, s, l, m);
    }
    if l.idx < |s.history[v]| && s.history[v][l.idx].ssl {
      assert SslAt(s, m.idx, v);
    }
  }

  /** The invariant of a listener does not mention the others. */
  lemma InvAlone(s: State, listeners: seq<Listener>, l: Listener)
    requires s.history != [] && ListenerInv(s, l)
    ensures ListenerInv(s.(listeners := listeners), l)
  {
    if l.acceptor.Some? {
      SslKept(s, s.(listeners := listeners), l, l);
    }
  }

  lemma OwnStepKeepsInv(s: State, e: Event, k: nat)
    requires Inv(s) && Enabled(s, e) && Own(e) == Some(k)
    ensures k < |Step(s, e).listeners| && ListenerInv(Step(s, e), Step(s, e).listeners[k])
  {
    var l := s.listeners[k];
    assert ListenerInv(s, l);
    var t := Step(s, e);
    match e {
      case Start(_, ok) => StartedKeepsInv(s, l, ok);
      case Install(_, ok) => RebuiltKeepsInv(s, l, ok);
      case Receive(_) => AwaitKeepsInv(s, l, l.(phase := Notified, pos := NextPosition(l.pos, s.tail)));
      case ReadConfig(_) => AwaitKeepsInv(s, l, l.(phase := Read(Current(s))));
    }
    InvAlone(s, t.listeners, t.listeners[k]);
  }

  /** Receiving and reading leave everything but the phase and the position alone. */
  lemma AwaitKeepsInv(s: State, l: Listener, m: Listener)
    requires s.history != [] && ListenerInv(s, l) && (l.phase.Idle? || l.phase.Notified?)
    requires m == l.(phase := m.phase, pos := m.pos) && m.pos <= s.tail
    requires m.phase == Notified || m.phase == Read(Current(s))
    ensures ListenerInv(s, m)
  {
    if l.acceptor.Some? {
      SslKept(s, s, l, m);
    }
  }

  lemma StepKeepsInv(s: State, e: Event)
    requires Inv(s)
    ensures Inv(Step(s, e))
  {
    if Enabled(s, e) {
      var t := Step(s, e);
      forall k | 0 <= k < |t.listeners| ensures ListenerInv(t, t.listeners[k]) {
        if k == |s.listeners| {
          assert e.Subscribe?;
        } else if Own(e) == Some(k) {
          OwnStepKeepsInv(s, e, k);
        } else {
          OthersKeepInv(s, e, k);
        }
      }
    }
  }

  /** The invariant holds in every interleaving. */
  lemma {:induction false} ReloadInvariant(start: Config, events: seq<Event>)
    ensures Inv(After(start, events))
  {
    if events != [] {
      var n := |events| - 1;
      ReloadInvariant(start, events[..n]);
      StepKeepsInv(After(start, events[..n]), events[n]);
    }
  }

  // ---------------------------------------------------------------- at rest

  /** The loop waits with nothing to receive, or has ended. */
  predicate AtRest(s: State, l: Listener) {
    l.phase.Stopped? || (l.phase.Idle? && l.pos == s.tail)
  }

  /** No sender is about to send and no listener has anything left to do. */
  predicate Quiescent(s: State) {
    && !s.swapped && s.renewed == {}
    && forall k :: 0 <= k < |s.listeners| ==> AtRest(s, s.listeners[k])
  }

  /** The outcome of the build that listener `k` attempts in a step, if it attempts one: a TLS or
      QUIC loop when it starts, a TLS loop when it reloads, given an ssl section. */
  function BuildIn(s: State, e: Event, k: nat): Option<bool>
    requires s.history != []
  {
    if !Enabled(s, e) || Own(e) != Some(k) then None
    else
      var l := s.listeners[k];
      match e
      case Start(_, ok) => if l.kind != Plain && l.block.ssl then Some(ok) else None
      case Install(_, ok) => if IsTls(l.kind) && SslAt(s, l.idx, l.phase.config) then Some(ok) else None
      case _ => None
  }

  /** The outcome of the last build that listener `k` attempted in a run. */
  function LastBuild(start: Config, events: seq<Event>, k: nat): Option<bool> {
    if events == [] then None
    else
      var n := |events| - 1;
      var now := BuildIn(After(start, events[..n]), events[n], k);
      if now.Some? then now else LastBuild(start, events[..n], k)
  }

  /** A listener that has started with an ssl section. */
  predicate StartedWithSsl(l: Listener) {
    IsTls(l.kind) && !l.phase.Starting? && l.block.ssl
  }

  /** A step changes a listener's acceptor only by a build, and gives a TLS loop an ssl section
      only together with one. */
  lemma StepBuilds(s: State, e: Event, k: nat)
    requires s.history != [] && k < |s.listeners|
    ensures k < |Step(s, e).listeners|
    ensures
      var l, m := s.listeners[k], Step(s, e).listeners[k];
      if BuildIn(s, e, k).Some? then m.acceptor.Some? <==> BuildIn(s, e, k).value
      else m.acceptor == l.acceptor && (StartedWithSsl(m) ==> StartedWithSsl(l))
  {
  }

  lemma NewcomerHasNothing(s: State, e: Event, k: nat)
    requires s.history != [] && |s.listeners| <= k < |Step(s, e).listeners|
    ensures BuildIn(s, e, k) == None
    ensures e.Subscribe? && k == |s.listeners| && |Step(s, e).listeners| == k + 1
    ensures
      var l := Step(s, e).listeners[k];
      && l.acceptor == None && l.phase.Starting? && l.pos == s.tail
      && l.kind == e.kind && l.idx == e.idx && l.block == s.history[0][e.idx]
  {
  }

  /** No listener is ever removed. */
  lemma ListenersStay(s: State, e: Event)
    requires s.history != []
    ensures |s.listeners| <= |Step(s, e).listeners|
  {
  }

  lemma {:induction false} NoBuildBeforeArrival(start: Config, events: seq<Event>, k: nat)
    requires |After(start, events).listeners| <= k
    ensures LastBuild(start, events, k) == None
  {
    if events != [] {
      var n := |events| - 1;
      ListenersStay(After(start, events[..n]), events[n]);
      NoBuildBeforeArrival(start, events[..n], k);
    }
  }

  /** In every run a listener has an acceptor exactly when the last build it attempted succeeded,
      and a TLS loop that has started with an ssl section has attempted one. */
  lemma {:induction false} AcceptorFollowsBuild(start: Config, events: seq<Event>, k: nat)
    requires k < |After(start, events).listeners|
    ensures
      var l := After(start, events).listeners[k];
      && (l.acceptor.Some? <==> LastBuild(start, events, k) == Some(true))
      && (StartedWithSsl(l) ==> LastBuild(start, events, k).Some?)
  {
    if events != [] {
      var n := |events| - 1;
      var s := After(start, events[..n]);
      if k < |s.listeners| {
        AcceptorFollowsBuild(start, events[..n], k);
        StepBuilds(s, events[n], k);
      } else {
        NewcomerHasNothing(s, events[n], k);
        NoBuildBeforeArrival(start, events[..n], k);
      }
    }
  }

  /** In every reachable state a listener has an acceptor exactly when the last build it attempted
      in the run succeeded; a TLS listener that never had an ssl section has none, and neither has
      a plain one; a QUIC loop runs exactly as long as it has one, and only QUIC loops give up. */
  lemma HasAcceptorIff(start: Config, events: seq<Event>, k: nat)
    requires k < |After(start, events).listeners|
    ensures
      var s := After(start, events);
      var l := s.listeners[k];
      && (l.acceptor.Some? <==> LastBuild(start, events, k) == Some(true))
      && (l.kind == Plain || !EverSsl(s, l) ==> l.acceptor == None)
      && (StartedWithSsl(l) ==> LastBuild(start, events, k).Some?)
      && ((l.kind == StaticQuic || l.kind == AcmeQuic) && !l.phase.Starting? ==>
           (l.acceptor.Some? <==> !l.phase.Stopped?))
      && (l.phase.Stopped? ==> (l.kind == StaticQuic || l.kind == AcmeQuic))
  {
    AcceptorFollowsBuild(start, events, k);
    ReloadInvariant(start, events);
    assert ListenerInv(After(start, events), After(start, events).listeners[k]);
  }

  /** At rest every running listener is up to date: it runs the current configuration's block at
      its own index, or, if that index is gone, the block of the newest configuration it processed
      that had one; and a TLS listener with an ssl section has tried to build its acceptor, and
      has one made from the current block and the certificate on disk if the last build succeeded
      and none at all if it failed. */
  lemma UpToDateAtRest(start: Config, events: seq<Event>, k: nat)
    requires Quiescent(After(start, events)) && k < |After(start, events).listeners|
    requires !After(start, events).listeners[k].phase.Stopped?
    ensures
      var s := After(start, events);
      var l := s.listeners[k];
      var c := s.history[Current(s)];
      var built := LastBuild(start, events, k);
      && l.seen == Current(s)
      && (l.idx < |c| ==> l.block == c[l.idx])
      && l.version < |s.history| && l.idx < |s.history[l.version]| && l.block == s.history[l.version][l.idx]
      && (IsTls(l.kind) && l.idx < |c| && c[l.idx].ssl ==>
           && built.Some?
           && (!built.value ==> l.acceptor == None)
           && (built.value && l.kind == StaticTls ==> l.acceptor == Some(Configured(c[l.idx])))
           && (built.value && l.kind == AcmeTls ==>
                l.acceptor == Some(Issued(if l.idx in s.disk then s.disk[l.idx] else 0))))
  {
    AcceptorFollowsBuild(start, events, k);
    ReloadInvariant(start, events);
    assert ListenerInv(After(start, events), After(start, events).listeners[k]);
  }

  /** A listener never goes back to an older configuration. */
  lemma VersionsNeverDecrease(s: State, e: Event, k: nat)
    requires Inv(s) && k < |s.listeners|
    ensures k < |Step(s, e).listeners|
    ensures s.listeners[k].seen <= Step(s, e).listeners[k].seen
    ensures s.listeners[k].version <= Step(s, e).listeners[k].version
  {
    assert ListenerInv(s, s.listeners[k]);
  }

  /** What a listener still has to do: rebuilds still due and steps of the one under way. */
  function Work(s: State, l: Listener): nat {
    if l.phase.Stopped? then 0
    else
      3 * (if l.pos >= s.tail then 0 else if l.pos + 1 == s.tail then 1 else 2) +
      match l.phase
      case Starting => 1
      case Read(_) => 1
      case Notified => 2
      case _ => 0
  }

  function OwnStep(s: State, k: nat): Event
    requires k < |s.listeners|
  {
    match s.listeners[k].phase
    case Starting => Start(k, true)
    case Notified => ReadConfig(k)
    case Read(_) => Install(k, true)
    case _ => Receive(k)
  }

  /** A listener has work left exactly when it is not at rest, and then it can take a step. */
  lemma ListenerComesToRest(s: State, k: nat)
    requires Inv(s) && k < |s.listeners|
    ensures Work(s, s.listeners[k]) <= 8
    ensures Work(s, s.listeners[k]) == 0 <==> AtRest(s, s.listeners[k])
    ensures Work(s, s.listeners[k]) > 0 <==> Enabled(s, OwnStep(s, k))
    ensures Own(OwnStep(s, k)) == Some(k)
  {
    assert ListenerInv(s, s.listeners[k]);
  }

  /** Whatever step a listener takes, and however a build turns out, brings it exactly one step
      closer to rest, unless the task ends: one missed message costs one reload, more than one,
      two, as the receiver is told that it lagged and then finds the newest. */
  lemma OwnStepReducesOwnWork(s: State, e: Event, k: nat)
    requires Inv(s) && Enabled(s, e) && Own(e) == Some(k)
    ensures k < |Step(s, e).listeners| && Work(Step(s, e), Step(s, e).listeners[k]) < Work(s, s.listeners[k])
    ensures !Step(s, e).listeners[k].phase.Stopped? ==>
      Work(Step(s, e), Step(s, e).listeners[k]) == Work(s, s.listeners[k]) - 1
    ensures Step(s, e) == s.(listeners := s.listeners[k := Step(s, e).listeners[k]])
  {
    assert ListenerInv(s, s.listeners[k]);
  }

  function TotalWork(s: State, ls: seq<Listener>): nat {
    if ls == [] then 0 else TotalWork(s, ls[..|ls| - 1]) + Work(s, ls[|ls| - 1])
  }

  lemma {:induction false} TotalWorkUpdate(s: State, t: State, ls: seq<Listener>, k: nat, l: Listener)
    requires k < |ls| && s.tail == t.tail
    ensures TotalWork(t, ls[k := l]) == TotalWork(s, ls) - Work(s, ls[k]) + Work(t, l)
  {
    var n := |ls| - 1;
    if k < n {
      TotalWorkUpdate(s, t, ls[..n], k, l);
      assert ls[k := l][..n] == ls[..n][k := l];
    } else {
      assert ls[k := l][..n] == ls[..n];
      TotalWorkSame(s, t, ls[..n]);
    }
  }

  lemma {:induction false} TotalWorkSame(s: State, t: State, ls: seq<Listener>)
    requires s.tail == t.tail
    ensures TotalWork(s, ls) == TotalWork(t, ls)
  {
    if ls != [] {
      TotalWorkSame(s, t, ls[..|ls| - 1]);
    }
  }

  lemma {:induction false} TotalWorkBound(s: State, n: nat)
    requires Inv(s) && n <= |s.listeners|
    ensures TotalWork(s, s.listeners[..n]) <= 8 * n
  {
    if n > 0 {
      TotalWorkBound(s, n - 1);
      ListenerComesToRest(s, n - 1);
      assert s.listeners[..n][..n - 1] == s.listeners[..n - 1];
    }
  }

  lemma {:induction false} WorkLeft(s: State, n: nat) returns (k: nat)
    requires n <= |s.listeners| && TotalWork(s, s.listeners[..n]) > 0
    ensures k < n && Work(s, s.listeners[k]) > 0
  {
    assert s.listeners[..n][..n - 1] == s.listeners[..n - 1];
    if Work(s, s.listeners[n - 1]) > 0 {
      k := n - 1;
    } else {
      k := WorkLeft(s, n - 1);
    }
  }

  /** A listener's own step takes the whole server closer to rest. */
  lemma OwnStepReducesWork(s: State, e: Event)
    requires Inv(s) && Enabled(s, e) && Own(e).Some?
    ensures
      var t := Step(s, e);
      && TotalWork(t, t.listeners) < TotalWork(s, s.listeners)
      && t.swapped == s.swapped && t.renewed == s.renewed && t.history == s.history && t.disk == s.disk
      && |t.listeners| == |s.listeners|
  {
    var k := Own(e).value;
    OwnStepReducesOwnWork(s, e, k);
    var t := Step(s, e);
    TotalWorkUpdate(s, t, s.listeners, k, t.listeners[k]);
  }

  /** Nobody can take a step of its own. */
  ghost predicate NobodyCanStep(s: State)
    requires s.history != []
  {
    forall e: Event :: Own(e).Some? ==> !Enabled(s, e)
  }

  /** Once no sender is about to send, the server is stuck exactly when it is at rest. */
  lemma StuckIsRest(s: State)
    requires Inv(s) && !s.swapped && s.renewed == {}
    ensures NobodyCanStep(s) <==> Quiescent(s)
  {
    if NobodyCanStep(s) {
      forall k | 0 <= k < |s.listeners| ensures AtRest(s, s.listeners[k]) {
        ListenerComesToRest(s, k);
        assert !Enabled(s, OwnStep(s, k));
      }
    }
    if Quiescent(s) {
      forall e: Event | Own(e).Some? ensures !Enabled(s, e) {
        if Enabled(s, e) {
          OwnStepReducesOwnWork(s, e, Own(e).value);
          ListenerComesToRest(s, Own(e).value);
          assert false;
        }
      }
    }
  }

  /** Only own steps of listeners, each possible when it is taken. */
  predicate Schedule(s: State, events: seq<Event>)
    requires s.history != []
    decreases |events|
  {
    events == [] ||
    (Own(events[0]).Some? && Enabled(s, events[0]) && Schedule(Step(s, events[0]), events[1..]))
  }

  /** The state reached from `s` by further steps. */
  function Further(s: State, events: seq<Event>): (t: State)
    requires s.history != []
    ensures t.history != []
    decreases |events|
  {
    if events == [] then s else Further(Step(s, events[0]), events[1..])
  }

  lemma AfterOne(start: Config, events: seq<Event>, e: Event)
    ensures After(start, events + [e]) == Step(After(start, events), e)
  {
    assert (events + [e])[..|events|] == events;
  }

  lemma FurtherOne(s: State, e: Event, more: seq<Event>)
    requires s.history != []
    ensures Further(s, [e] + more) == Further(Step(s, e), more)
  {
    assert ([e] + more)[1..] == more;
  }

  lemma {:induction false} AfterConcat(start: Config, events: seq<Event>, more: seq<Event>)
    ensures After(start, events + more) == Further(After(start, events), more)
    decreases |more|
  {
    if more == [] {
      assert events + more == events;
    } else {
      var e, rest, s := more[0], more[1..], After(start, events);
      calc {
        After(start, events + more);
        { assert events + more == (events + [e]) + rest; }
        After(start, (events + [e]) + rest);
        { AfterConcat(start, events + [e], rest); }
        Further(After(start, events + [e]), rest);
        { AfterOne(start, events, e); }
        Further(Step(s, e), rest);
        { FurtherOne(s, e, rest); assert [e] + rest == more; }
        Further(s, more);
      }
    }
  }

  /** Every schedule uses up work with every step and keeps the configuration and the disk. */
  lemma {:induction false} ScheduleUsesWork(s: State, events: seq<Event>)
    requires Inv(s) && !s.swapped && s.renewed == {} && Schedule(s, events)
    ensures
      var t := Further(s, events);
      && Inv(t) && !t.swapped && t.renewed == {} && t.history == s.history && t.disk == s.disk
      && |t.listeners| == |s.listeners|
      && |events| + TotalWork(t, t.listeners) <= TotalWork(s, s.listeners)
    decreases |events|
  {
    if events != [] {
      OwnStepReducesWork(s, events[0]);
      StepKeepsInv(s, events[0]);
      ScheduleUsesWork(Step(s, events[0]), events[1..]);
    }
  }

  /** Convergence for every schedule: once no sender is about to send, whatever order the
      listeners run in and however their builds turn out, they take at most eight steps each,
      keep the configuration and the certificates, and can go on exactly until all of them are at
      rest. */
  lemma EveryScheduleConverges(start: Config, events: seq<Event>, more: seq<Event>)
    requires !After(start, events).swapped && After(start, events).renewed == {}
    requires Schedule(After(start, events), more)
    ensures |more| <= 8 * |After(start, events).listeners|
    ensures
      var t := After(start, events + more);
      && t.history == After(start, events).history && t.disk == After(start, events).disk
      && (NobodyCanStep(t) <==> Quiescent(t))
  {
    var s := After(start, events);
    ReloadInvariant(start, events);
    ScheduleUsesWork(s, more);
    TotalWorkBound(s, |s.listeners|);
    assert s.listeners[..|s.listeners|] == s.listeners;
    AfterConcat(start, events, more);
    StuckIsRest(Further(s, more));
  }

  lemma {:induction false} RestFrom(s: State) returns (more: seq<Event>)
    requires Inv(s) && !s.swapped && s.renewed == {}
    ensures Schedule(s, more) && NobodyCanStep(Further(s, more))
    decreases TotalWork(s, s.listeners)
  {
    assert s.listeners[..|s.listeners|] == s.listeners;
    if TotalWork(s, s.listeners) == 0 {
      NoWorkIsRest(s, |s.listeners|);
      StuckIsRest(s);
      more := [];
    } else {
      var k := WorkLeft(s, |s.listeners|);
      var e := OwnStep(s, k);
      ListenerComesToRest(s, k);
      OwnStepReducesWork(s, e);
      StepKeepsInv(s, e);
      var rest := RestFrom(Step(s, e));
      more := [e] + rest;
      FurtherOne(s, e, rest);
      assert more[1..] == rest;
    }
  }

  lemma {:induction false} NoWorkIsRest(s: State, n: nat)
    requires Inv(s) && n <= |s.listeners| && TotalWork(s, s.listeners[..n]) == 0
    ensures forall k :: 0 <= k < n ==> AtRest(s, s.listeners[k])
  {
    if n > 0 {
      assert s.listeners[..n][..n - 1] == s.listeners[..n - 1];
      NoWorkIsRest(s, n - 1);
      ListenerComesToRest(s, n - 1);
    }
  }

  /** Such a schedule can always be completed: the server comes to rest with the same
      configuration and certificates, where every listener is up to date. */
  lemma ServerConverges(start: Config, events: seq<Event>) returns (more: seq<Event>)
    requires !After(start, events).swapped && After(start, events).renewed == {}
    ensures Schedule(After(start, events), more) && |more| <= 8 * |After(start, events).listeners|
    ensures Quiescent(After(start, events + more))
    ensures After(start, events + more).history == After(start, events).history
    ensures After(start, events + more).disk == After(start, events).disk
  {
    ReloadInvariant(start, events);
    more := RestFrom(After(start, events));
    EveryScheduleConverges(start, events, more);
    AfterConcat(start, events, more);
  }

  // ---------------------------------------------------------------- who picks up a renewal

  /** After it has started, no step ever changes the acceptor of a QUIC listener, although
      renewal announces that accept loops pick the new certificate up. */
  lemma QuicCertificateFrozen(s: State, e: Event, k: nat)
    requires s.history != [] && k < |s.listeners|
    requires s.listeners[k].kind == StaticQuic || s.listeners[k].kind == AcmeQuic
    requires !s.listeners[k].phase.Starting?
    ensures k < |Step(s, e).listeners|
    ensures Step(s, e).listeners[k].kind == s.listeners[k].kind && !Step(s, e).listeners[k].phase.Starting?
    ensures Step(s, e).listeners[k].acceptor == s.listeners[k].acceptor
  {
  }

  /** Every build of the run succeeds. */
  predicate BuildsSucceed(events: seq<Event>) {
    forall i :: 0 <= i < |events| ==>
      (events[i].Start? ==> events[i].ok) && (events[i].Install? ==> events[i].ok)
  }

  /** The run is over, in configuration `c`. */
  predicate EndsIn(start: Config, events: seq<Event>, c: Config) {
    var s := After(start, events);
    BuildsSucceed(events) && Quiescent(s) && s.history[Current(s)] == c
  }

  /** The listener serves the certificate on disk. */
  predicate Serves(s: State, l: Listener) {
    l.acceptor == Some(Issued(DiskCert(s, l.idx)))
  }

  /** In every run whose builds succeed and that comes to rest in configuration `c`, listeners of
      this kind and block index serve the certificate on disk. */
  ghost predicate RenewalReaches(kind: Kind, idx: nat, c: Config) {
    forall start: Config, events: seq<Event>, k: nat ::
      EndsIn(start, events, c) && k < |After(start, events).listeners| &&
      After(start, events).listeners[k].kind == kind && After(start, events).listeners[k].idx == idx ==>
        Serves(After(start, events), After(start, events).listeners[k])
  }

  /** Then the last build of every listener succeeded. */
  lemma {:induction false} BuildsSucceeded(start: Config, events: seq<Event>, k: nat)
    requires BuildsSucceed(events)
    ensures LastBuild(start, events, k) != Some(false)
  {
    if events != [] {
      var n := |events| - 1;
      BuildsSucceeded(start, events[..n], k);
      assert events[n].Start? ==> events[n].ok;
      assert events[n].Install? ==> events[n].ok;
    }
  }

  lemma Extend(start: Config, events: seq<Event>, e: Event, to: State) returns (longer: seq<Event>)
    requires BuildsSucceed(events) && Step(After(start, events), e) == to
    requires (e.Start? ==> e.ok) && (e.Install? ==> e.ok)
    ensures After(start, longer) == to && BuildsSucceed(longer)
  {
    longer := events + [e];
    assert longer[..|longer| - 1] == events;
  }

  /** The lone listener of a server with one unread message processes it. */
  lemma ReloadOnce(start: Config, events: seq<Event>, s: State, l: Listener) returns (longer: seq<Event>)
    requires BuildsSucceed(events) && After(start, events) == s && s.listeners == [l]
    requires l.phase.Idle? && l.pos + 1 == s.tail
    ensures BuildsSucceed(longer)
    ensures After(start, longer) ==
      s.(listeners := [Rebuilt(s, l.(pos := s.tail, phase := Read(Current(s))), Current(s), true)])
  {
    var m := l.(pos := s.tail, phase := Read(Current(s)));
    longer := ReadOnce(start, events, s, l);
    longer := Extend(start, longer, Install(0, true), s.(listeners := [Rebuilt(s, m, Current(s), true)]));
  }

  lemma ReadOnce(start: Config, events: seq<Event>, s: State, l: Listener) returns (longer: seq<Event>)
    requires BuildsSucceed(events) && After(start, events) == s && s.listeners == [l]
    requires l.phase.Idle? && l.pos + 1 == s.tail
    ensures BuildsSucceed(longer)
    ensures After(start, longer) == s.(listeners := [l.(pos := s.tail, phase := Read(Current(s)))])
  {
    var m := l.(pos := s.tail, phase := Notified);
    longer := Extend(start, events, Receive(0), s.(listeners := [m]));
    longer := Extend(start, longer, ReadConfig(0), s.(listeners := [m.(phase := Read(Current(s)))]));
  }

  /** A lone listener that has started from a block with an ssl section. */
  lemma StartOne(kind: Kind, idx: nat, start: Config) returns (events: seq<Event>, l: Listener)
    requires idx < |start| && start[idx].ssl
    ensures BuildsSucceed(events) && After(start, events) == State([start], 0, false, [l], map[], {})
    ensures l.kind == kind && l.idx == idx && l.phase.Idle? && l.pos == 0
    ensures IsAcme(kind) && l.acceptor.Some? ==> l.acceptor == Some(Issued(0))
    ensures !IsAcme(kind) && l.acceptor.Some? ==> l.acceptor.value.Configured?
  {
    l := Fresh(kind, idx, start[idx], 0);
    events := SubscribeOne(kind, idx, start);
    var s := State([start], 0, false, [l], map[], {});
    l := Started(s, l, true);
    events := Extend(start, events, Start(0, true), s.(listeners := [l]));
  }

  lemma SubscribeOne(kind: Kind, idx: nat, start: Config) returns (events: seq<Event>)
    requires idx < |start|
    ensures BuildsSucceed(events)
    ensures After(start, events) == State([start], 0, false, [Fresh(kind, idx, start[idx], 0)], map[], {})
  {
    var s := State([start], 0, false, [], map[], {});
    assert After(start, []) == s;
    events := Extend(start, [], Subscribe(kind, idx), s.(listeners := [Fresh(kind, idx, start[idx], 0)]));
  }

  /** The listener then sees configuration `c` replace the first one. */
  lemma MoveTo(kind: Kind, idx: nat, start: Config, c: Config) returns (events: seq<Event>, l: Listener)
    requires idx < |start| && start[idx].ssl
    ensures BuildsSucceed(events) && After(start, events) == State([start, c], 1, false, [l], map[], {})
    ensures l.kind == kind && l.idx == idx && l.phase.Idle? && l.pos == 1
    ensures IsAcme(kind) && l.acceptor.Some? ==> l.acceptor == Some(Issued(0))
    ensures !IsAcme(kind) && l.acceptor.Some? ==> l.acceptor.value.Configured?
  {
    var m;
    events, m := StartOne(kind, idx, start);
    var s := State([start], 0, false, [m], map[], {});
    events := Extend(start, events, Swap(c), s.(history := [start, c], swapped := true));
    s := State([start, c], 1, false, [m], map[], {});
    events := Extend(start, events, Broadcast, s);
    events := ReloadOnce(start, events, s, m);
    l := Rebuilt(s, m.(pos := 1, phase := Read(1)), 1, true);
  }

  /** A run to rest in configuration `c` after which a listener is not on the renewed
      certificate, whenever the reload arm has no reason to rebuild its acceptor. */
  lemma RenewalMissed(kind: Kind, idx: nat, c: Config) returns (start: Config, events: seq<Event>)
    requires !(kind == AcmeTls && idx < |c| && c[idx].ssl)
    ensures EndsIn(start, events, c)
    ensures
      var s := After(start, events);
      && |s.listeners| == 1 && s.listeners[0].kind == kind && s.listeners[0].idx == idx
      && DiskCert(s, idx) == 1 && !Serves(s, s.listeners[0])
  {
    start := seq(idx + 1, i => Block("", true));
    var l;
    events, l := MoveTo(kind, idx, start, c);
    var s := State([start, c], 1, false, [l], map[], {});
    events := Extend(start, events, Renew(idx), s.(disk := map[idx := 1], renewed := {idx}));
    s := State([start, c], 2, false, [l], map[idx := 1], {});
    events := Extend(start, events, RenewalSend(idx), s);
    events := ReloadOnce(start, events, s, l);
  }

  /** Which listeners a renewal reaches: those, and only those, that are ACME TLS loops whose
      block is still there and still has its ssl section in the configuration at rest. */
  lemma RenewalReachesIff(kind: Kind, idx: nat, c: Config)
    ensures RenewalReaches(kind, idx, c) <==> kind == AcmeTls && idx < |c| && c[idx].ssl
  {
    if kind == AcmeTls && idx < |c| && c[idx].ssl {
      forall start: Config, events: seq<Event>, k: nat
        | EndsIn(start, events, c) && k < |After(start, events).listeners| &&
          After(start, events).listeners[k].kind == kind && After(start, events).listeners[k].idx == idx
        ensures Serves(After(start, events), After(start, events).listeners[k])
      {
        HasAcceptorIff(start, events, k);
        UpToDateAtRest(start, events, k);
        BuildsSucceeded(start, events, k);
      }
    } else {
      var start, events := RenewalMissed(kind, idx, c);
      assert !Serves(After(start, events), After(start, events).listeners[0]);
    }
  }

  /** So a QUIC listener can stay on the old certificate whatever the configuration. */
  lemma RenewalMissesQuic(c: Config) returns (start: Config, events: seq<Event>)
    ensures EndsIn(start, events, c)
    ensures
      var s := After(start, events);
      |s.listeners| == 1 && s.listeners[0].kind == AcmeQuic && !Serves(s, s.listeners[0])
  {
    start, events := RenewalMissed(AcmeQuic, 0, c);
  }

  /** And so can a TLS listener whose block a reload has removed. */
  lemma RenewalMissesTls() returns (start: Config, events: seq<Event>)
    ensures EndsIn(start, events, [])
    ensures
      var s := After(start, events);
      |s.listeners| == 1 && s.listeners[0].kind == AcmeTls && !Serves(s, s.listeners[0])
  {
    start, events := RenewalMissed(AcmeTls, 0, []);
  }
}
