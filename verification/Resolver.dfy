/** The pinning DNS resolver (src/resolver.rs).

    A `resolve_checked` call is three atomic steps under the cache mutex or outside it: look
    the host up, vet a DNS answer, store it.  The model interleaves the steps of any number of
    concurrent calls with arbitrary DNS answers and an arbitrary monotone clock, and compares
    the cache with the plain history of what was stored. */
module Resolver {
  import opened Prelude
  import opened UpstreamFilter

  const MAX_CACHE_ENTRIES: nat := 4096

  datatype Entry = Entry(addrs: seq<Ip>, expires: int)

  type Cache = map<string, Entry>

  datatype Error = NotFound | PermissionDenied | ResolverFailure

  // ---------------------------------------------------------------- the atomic steps

  predicate Hit(c: Cache, host: string, now: int) {
    host in c && c[host].expires > now
  }

  /** `cached` removes an expired entry it comes across. */
  function AfterLookup(c: Cache, host: string, now: int): Cache {
    if Hit(c, host, now) then c else c - {host}
  }

  /** `store` empties a full cache before it inserts. */
  function AfterStore(c: Cache, host: string, addrs: seq<Ip>, expires: int): Cache {
    (if |c| >= MAX_CACHE_ENTRIES then map[] else c)[host := Entry(addrs, expires)]
  }

  predicate AllAllowed(addrs: seq<Ip>, nets: seq<Network>) {
    forall i :: 0 <= i < |addrs| ==> IpAllowed(addrs[i], nets)
  }

  /** What the checks let through: a non-empty answer all of whose addresses are allowed. */
  predicate Vetted(addrs: seq<Ip>, nets: seq<Network>) {
    addrs != [] && AllAllowed(addrs, nets)
  }

  function Vet(addrs: seq<Ip>, nets: seq<Network>): Result<seq<Ip>, Error> {
    if addrs == [] then Err(NotFound)
    else if AllAllowed(addrs, nets) then Ok(addrs)
    else Err(PermissionDenied)
  }

  lemma AllowedIsHarmless(addrs: seq<Ip>, nets: seq<Network>)
    ensures forall i :: 0 <= i < |addrs| ==> (IpAllowed(addrs[i], nets) <==> Harmless(addrs[i], nets))
  {
    forall i | 0 <= i < |addrs| ensures IpAllowed(addrs[i], nets) <==> Harmless(addrs[i], nets) {
      AllowedIff(addrs[i], nets);
    }
  }

  class PinningResolver {
    const nets: seq<Network>
    const ttl: nat
    var cache: Cache

    constructor (nets: seq<Network>, ttl: nat)
      ensures this.nets == nets && this.ttl == ttl && cache == map[]
    {
      this.nets, this.ttl, cache := nets, ttl, map[];
    }

    method Cached(host: string, now: int) returns (r: Option<seq<Ip>>)
      modifies this
      ensures r == if old(Hit(cache, host, now)) then Some(old(cache)[host].addrs) else None
      ensures cache == AfterLookup(old(cache), host, now)
    {
      if host in cache {
        if cache[host].expires > now {
          return Some(cache[host].addrs);
        }
        cache := cache - {host};
      }
      assert host !in old(cache) ==> cache == cache - {host};
      return None;
    }

    method Store(host: string, addrs: seq<Ip>, now: int)
      modifies this
      ensures cache == AfterStore(old(cache), host, addrs, now + ttl)
    {
      if |cache| >= MAX_CACHE_ENTRIES {
        cache := map[];
      }
      cache := cache[host := Entry(addrs, now + ttl)];
    }

    /** The checks between the DNS answer and the store. */
    method Check(addrs: seq<Ip>) returns (r: Result<seq<Ip>, Error>)
      ensures r == Vet(addrs, nets)
      ensures r == Ok(addrs) <==> addrs != [] && forall i :: 0 <= i < |addrs| ==> Harmless(addrs[i], nets)
      ensures r == Err(NotFound) <==> addrs == []
      ensures r == Err(PermissionDenied) <==> exists i :: 0 <= i < |addrs| && !Harmless(addrs[i], nets)
    {
      AllowedIsHarmless(addrs, nets);
      if addrs == [] {
        return Err(NotFound);
      }
      for i := 0 to |addrs|
        invariant forall j :: 0 <= j < i ==> IpAllowed(addrs[j], nets)
      {
        if !IpAllowed(addrs[i], nets) {
          return Err(PermissionDenied);
        }
      }
      return Ok(addrs);
    }

    /** A whole call without interference; `later` is the clock at the store. */
    method ResolveChecked(host: string, now: int, dns: Result<seq<Ip>, Error>, later: int)
      returns (r: Result<seq<Ip>, Error>)
      requires forall h :: h in cache ==> Vetted(cache[h].addrs, nets)
      modifies this
      ensures forall h :: h in cache ==> Vetted(cache[h].addrs, nets)
      ensures r.Ok? ==> Vetted(r.value, nets) && forall i :: 0 <= i < |r.value| ==> Harmless(r.value[i], nets)
      ensures old(Hit(cache, host, now)) ==> r == Ok(old(cache)[host].addrs) && cache == old(cache)
      ensures !old(Hit(cache, host, now)) && dns.Ok? ==> r == Vet(dns.value, nets)
      ensures !old(Hit(cache, host, now)) && r.Ok? ==> host in cache && cache[host] == Entry(r.value, later + ttl)
      ensures !old(Hit(cache, host, now)) && dns.Err? ==> r == dns
      ensures !old(Hit(cache, host, now)) ==>
        var looked := AfterLookup(old(cache), host, now);
        cache == if r.Ok? then AfterStore(looked, host, r.value, later + ttl) else looked
    {
      var hit := Cached(host, now);
      if hit.Some? {
        AllowedIsHarmless(hit.value, nets);
        return Ok(hit.value);
      }
      if dns.Err? {
        return dns;
      }
      r := Check(dns.value);
      if r.Ok? {
        AllowedIsHarmless(r.value, nets);
        Store(host, dns.value, later);
      }
    }
  }

  // ---------------------------------------------------------------- interleavings

  /** Where a call is: waiting for DNS, holding a vetted answer it has not stored, or done. */
  datatype Call =
    | Asking(host: string)
    | Storing(host: string, addrs: seq<Ip>)
    | Done(host: string, outcome: Result<seq<Ip>, Error>)

  datatype State = State(now: int, cache: Cache, calls: map<nat, Call>)

  datatype Event =
    | Tick(to: int)
    | Begin(call: nat, host: string)
    | Answer(call: nat, dns: Result<seq<Ip>, Error>)
    | Commit(call: nat)

  datatype Settings = Settings(nets: seq<Network>, ttl: nat)

  predicate Enabled(s: State, e: Event) {
    match e
    case Tick(to) => s.now <= to
    case Begin(call, _) => call !in s.calls
    case Answer(call, _) => call in s.calls && s.calls[call].Asking?
    case Commit(call) => call in s.calls && s.calls[call].Storing?
  }

  /** The step `e`; an event that is not enabled changes nothing. */
  function Step(cfg: Settings, s: State, e: Event): State {
    if !Enabled(s, e) then s
    else match e
    case Tick(to) => s.(now := to)
    case Begin(call, host) =>
      var next := if Hit(s.cache, host, s.now) then Done(host, Ok(s.cache[host].addrs)) else Asking(host);
      s.(cache := AfterLookup(s.cache, host, s.now), calls := s.calls[call := next])
    case Answer(call, dns) =>
      var host := s.calls[call].host;
      var next :=
        if dns.Err? then Done(host, dns)
        else match Vet(dns.value, cfg.nets)
          case Ok(addrs) => Storing(host, addrs)
          case Err(error) => Done(host, Err(error));
      s.(calls := s.calls[call := next])
    case Commit(call) =>
      var Storing(host, addrs) := s.calls[call];
      s.(cache := AfterStore(s.cache, host, addrs, s.now + cfg.ttl), calls := s.calls[call := Done(host, Ok(addrs))])
  }

  function Initial(start: int): State {
    State(start, map[], map[])
  }

  /** The state after a sequence of steps. */
  function After(cfg: Settings, start: int, events: seq<Event>): State {
    if events == [] then Initial(start)
    else Step(cfg, After(cfg, start, events[..|events| - 1]), events[|events| - 1])
  }

  // ---------------------------------------------------------------- vetting and size

  predicate CallVetted(call: Call, nets: seq<Network>) {
    match call
    case Asking(_) => true
    case Storing(_, addrs) => Vetted(addrs, nets)
    case Done(_, outcome) => outcome.Ok? ==> Vetted(outcome.value, nets)
  }

  predicate CacheSafe(c: Cache, nets: seq<Network>) {
    |c| <= MAX_CACHE_ENTRIES && forall h :: h in c ==> Vetted(c[h].addrs, nets)
  }

  predicate Safe(cfg: Settings, s: State) {
    CacheSafe(s.cache, cfg.nets) && forall c :: c in s.calls ==> CallVetted(s.calls[c], cfg.nets)
  }

  lemma LookupKeepsSafe(c: Cache, host: string, now: int, nets: seq<Network>)
    requires CacheSafe(c, nets)
    ensures CacheSafe(AfterLookup(c, host, now), nets)
  {
    SubsetSize((c - {host}).Keys, c.Keys);
  }

  lemma StoreKeepsSafe(c: Cache, host: string, addrs: seq<Ip>, expires: int, nets: seq<Network>)
    requires CacheSafe(c, nets) && Vetted(addrs, nets)
    ensures CacheSafe(AfterStore(c, host, addrs, expires), nets)
  {
    var kept: Cache := if |c| >= MAX_CACHE_ENTRIES then map[] else c;
    assert AfterStore(c, host, addrs, expires).Keys == kept.Keys + {host};
    assert |kept.Keys + {host}| <= |kept.Keys| + 1;
  }

  lemma StepIsSafe(cfg: Settings, s: State, e: Event)
    requires Safe(cfg, s)
    ensures Safe(cfg, Step(cfg, s, e))
  {
    if Enabled(s, e) {
      match e
      case Tick(_) =>
      case Begin(call, host) => LookupKeepsSafe(s.cache, host, s.now, cfg.nets);
      case Answer(call, dns) =>
      case Commit(call) =>
        assert CallVetted(s.calls[call], cfg.nets);
        StoreKeepsSafe(s.cache, s.calls[call].host, s.calls[call].addrs, s.now + cfg.ttl, cfg.nets);
    }
  }

  /** In every interleaving, every cached and every returned list is non-empty and wholly
      allowed, and the cache never holds more than its bound. */
  lemma {:induction false} AlwaysVetted(cfg: Settings, start: int, events: seq<Event>)
    ensures Safe(cfg, After(cfg, start, events)) && |After(cfg, start, events).cache| <= 4096
  {
    if events != [] {
      var n := |events| - 1;
      AlwaysVetted(cfg, start, events[..n]);
      StepIsSafe(cfg, After(cfg, start, events[..n]), events[n]);
    }
  }

  /** An address that the resolver holds or has handed out. */
  ghost predicate Exposed(s: State, ip: Ip) {
    || (exists h :: h in s.cache && ip in s.cache[h].addrs)
    || (exists c :: c in s.calls && s.calls[c].Storing? && ip in s.calls[c].addrs)
    || (exists c :: c in s.calls && s.calls[c].Done? && s.calls[c].outcome.Ok? && ip in s.calls[c].outcome.value)
  }

  /** The guarantee end to end: in every interleaving every address that is cached or returned,
      if it lies in a restricted range, is covered by the allowlist, itself or as the IPv4 address
      it embeds; with an empty allowlist none lies in such a range. */
  lemma NothingInternalEscapes(cfg: Settings, start: int, events: seq<Event>, ip: Ip)
    requires Exposed(After(cfg, start, events), ip)
    ensures Internal(ip) ==> Covered(ip, cfg.nets)
    ensures cfg.nets == [] ==> !Internal(ip)
  {
    AlwaysVetted(cfg, start, events);
    AllowedIff(ip, cfg.nets);
  }

  /** What becomes of a DNS answer: it is taken as it is exactly when it is non-empty and names no
      internal address outside the allowlist; so an answer of public addresses is never refused. */
  lemma AnswerJudged(cfg: Settings, s: State, call: nat, dns: Result<seq<Ip>, Error>)
    requires Enabled(s, Answer(call, dns))
    ensures
      var host := s.calls[call].host;
      Step(cfg, s, Answer(call, dns)).calls[call] ==
        if dns.Err? then Done(host, dns)
        else if dns.value == [] then Done(host, Err(NotFound))
        else if forall i :: 0 <= i < |dns.value| ==> Harmless(dns.value[i], cfg.nets) then Storing(host, dns.value)
        else Done(host, Err(PermissionDenied))
  {
    if dns.Ok? {
      AllowedIsHarmless(dns.value, cfg.nets);
    }
  }

  /** The three steps of one call without others in between do what a whole call does: a hit is
      returned, a miss asks DNS, and what DNS says is judged, stored and returned. */
  lemma CallAlone(cfg: Settings, s: State, call: nat, host: string, dns: Result<seq<Ip>, Error>)
    requires call !in s.calls
    ensures
      var asked := Step(cfg, s, Begin(call, host));
      var judged := Step(cfg, asked, Answer(call, dns));
      var done := Step(cfg, judged, Commit(call));
      if host in s.cache && s.cache[host].expires > s.now then
        asked.calls[call] == Done(host, Ok(s.cache[host].addrs)) && done.cache == s.cache
      else
        && asked.calls[call] == Asking(host)
        && done.calls[call] == Done(host, if dns.Ok? then Vet(dns.value, cfg.nets) else dns)
        && (done.calls[call].outcome.Ok? ==>
             host in done.cache && done.cache[host] == Entry(dns.value, s.now + cfg.ttl))
  {
    var asked := Step(cfg, s, Begin(call, host));
    if !Hit(s.cache, host, s.now) {
      AskedAlone(cfg, asked, call, host, dns);
    }
  }

  lemma AskedAlone(cfg: Settings, asked: State, call: nat, host: string, dns: Result<seq<Ip>, Error>)
    requires call in asked.calls && asked.calls[call] == Asking(host)
    ensures
      var judged := Step(cfg, asked, Answer(call, dns));
      var done := Step(cfg, judged, Commit(call));
      && done.calls[call] == Done(host, if dns.Ok? then Vet(dns.value, cfg.nets) else dns)
      && (done.calls[call].outcome.Ok? ==>
           host in done.cache && done.cache[host] == Entry(dns.value, asked.now + cfg.ttl))
  {
    if dns.Ok? && Vet(dns.value, cfg.nets).Ok? {
      var judged := Step(cfg, asked, Answer(call, dns));
      assert judged == asked.(calls := asked.calls[call := Storing(host, dns.value)]);
    }
  }

  // ---------------------------------------------------------------- the cache against history

  /** A stored answer and the time of the store. */
  datatype Pin = Pin(addrs: seq<Ip>, at: int)

  /** The reference: the last store for `host` that no full-cache clear has wiped since. */
  function LastStore(cfg: Settings, start: int, events: seq<Event>, host: string): Option<Pin>
  {
    if events == [] then None
    else
      var n := |events| - 1;
      var s := After(cfg, start, events[..n]);
      var before := LastStore(cfg, start, events[..n], host);
      if events[n].Commit? && Enabled(s, events[n]) then
        var Storing(h, addrs) := s.calls[events[n].call];
        if h == host then Some(Pin(addrs, s.now))
        else if |s.cache| >= 4096 then None
        else before
      else before
  }

  /** The simple meaning of a lookup: the last store, while it is younger than the ttl. */
  function Remembered(cfg: Settings, start: int, events: seq<Event>, host: string): Option<seq<Ip>>
  {
    match LastStore(cfg, start, events, host)
    case Some(pin) => if After(cfg, start, events).now < pin.at + cfg.ttl then Some(pin.addrs) else None
    case None => None
  }

  lemma {:induction false} CacheMatchesHistory(cfg: Settings, start: int, events: seq<Event>, host: string)
    ensures
      var s, last := After(cfg, start, events), LastStore(cfg, start, events, host);
      && (last.Some? ==> last.value.at <= s.now)
      && (host in s.cache ==> last.Some? && s.cache[host] == Entry(last.value.addrs, last.value.at + cfg.ttl))
      && (last.Some? && s.now < last.value.at + cfg.ttl ==> host in s.cache)
  {
    if events != [] {
      CacheMatchesHistory(cfg, start, events[..|events| - 1], host);
    }
  }

  /** The cache answers every lookup of every run as its history says: eager removal of expired
      entries is invisible, and a hit is always the last store for the host, made less than a
      ttl ago. */
  lemma LookupMeansHistory(cfg: Settings, start: int, events: seq<Event>, host: string)
    ensures
      var s := After(cfg, start, events);
      (if Hit(s.cache, host, s.now) then Some(s.cache[host].addrs) else None) == Remembered(cfg, start, events, host)
  {
    CacheMatchesHistory(cfg, start, events, host);
  }

  /** Step `e` stores for `host` or empties a full cache. */
  predicate Disturbs(s: State, e: Event, host: string) {
    e.Commit? && Enabled(s, e) && (s.calls[e.call].host == host || |s.cache| >= 4096)
  }

  predicate Undisturbed(cfg: Settings, start: int, events: seq<Event>, k: nat, host: string) {
    forall j :: k <= j < |events| ==> !Disturbs(After(cfg, start, events[..j]), events[j], host)
  }

  lemma {:induction false} LastStoreStays(cfg: Settings, start: int, events: seq<Event>, k: nat, host: string)
    requires k <= |events| && Undisturbed(cfg, start, events, k, host)
    ensures LastStore(cfg, start, events, host) == LastStore(cfg, start, events[..k], host)
  {
    var n := |events| - 1;
    if k == |events| {
      assert events[..k] == events;
    } else {
      assert events[..n][..k] == events[..k];
      forall j | k <= j < n ensures !Disturbs(After(cfg, start, events[..n][..j]), events[..n][j], host) {
        assert events[..n][..j] == events[..j];
      }
      LastStoreStays(cfg, start, events[..n], k, host);
      assert !Disturbs(After(cfg, start, events[..n]), events[n], host);
    }
  }

  /** Pinning: from the step that stores an answer for a host until the ttl has passed, another
      call stores for that host, or a full cache is emptied, every new call for the host
      returns the stored list, whatever DNS says meanwhile. */
  lemma PinnedUntilExpiry(cfg: Settings, start: int, events: seq<Event>, k: nat, call: nat)
    requires k < |events| && events[k].Commit? && Enabled(After(cfg, start, events[..k]), events[k])
    requires Undisturbed(cfg, start, events, k + 1, After(cfg, start, events[..k]).calls[events[k].call].host)
    requires After(cfg, start, events).now < After(cfg, start, events[..k]).now + cfg.ttl
    requires call !in After(cfg, start, events).calls
    ensures
      var Storing(host, addrs) := After(cfg, start, events[..k]).calls[events[k].call];
      Step(cfg, After(cfg, start, events), Begin(call, host)).calls[call] == Done(host, Ok(addrs))
  {
    var host := After(cfg, start, events[..k]).calls[events[k].call].host;
    assert events[..k + 1][..k] == events[..k];
    LastStoreStays(cfg, start, events, k + 1, host);
    CacheMatchesHistory(cfg, start, events, host);
  }
}
