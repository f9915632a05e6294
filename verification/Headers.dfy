/** Header hygiene at the proxy boundary (src/security/headers.rs) and the header assembly of
    `ProxyClient::forward` (src/proxy.rs), after section 7.6.1 of RFC 9110.

    A header map is a finite map from lower-case names to their values in order; the relative
    order of different names carries no meaning.  Client address, scheme and the trust decision
    are parameters. */
module Headers {
  import opened Prelude

  type Values = seq<string>
  type Map = map<string, Values>

  const HOP_BY_HOP: seq<string> :=
    ["connection", "keep-alive", "transfer-encoding", "te", "trailer", "upgrade",
     "proxy-authorization", "proxy-authenticate"]

  const NOMINATION_EXEMPT: seq<string> := ["host", "content-length"]

  const ATTRIBUTION: seq<string> :=
    ["x-forwarded-for", "forwarded", "x-real-ip", "x-forwarded-host", "x-forwarded-proto"]

  function Get(m: Map, name: string): Option<Values> {
    if name in m then Some(m[name]) else None
  }

  /** What a type-correct `HeaderMap` guarantees: legal names, each with at least one value. */
  predicate WellFormed(m: Map) {
    forall k :: k in m ==> ValidName(k) && m[k] != []
  }

  predicate IsTokenChar(c: char) {
    || 'a' <= c <= 'z' || 'A' <= c <= 'Z' || '0' <= c <= '9'
    || c in {'!', '#', '$', '%', '&', '\'', '*', '+', '-', '.', '^', '_', '`', '|', '~'}
  }

  /** `HeaderName::from_bytes` accepts the string. */
  predicate ValidName(s: string) {
    s != [] && forall i :: 0 <= i < |s| ==> IsTokenChar(s[i])
  }

  /** The delimiters of section 5.6.2 of RFC 9110, by code point. */
  predicate IsDelimiter(c: char) {
    var x := c as int;
    x == 34 || x == 40 || x == 41 || x == 44 || x == 47 || 58 <= x <= 64 || 91 <= x <= 93 || x == 123 || x == 125
  }

  lemma TokenCharIff(c: char)
    ensures IsTokenChar(c) <==> 33 <= c as int <= 126 && !IsDelimiter(c)
  {
  }

  /** Names are non-empty words of visible characters that are no delimiters. */
  lemma ValidNameIff(s: string)
    ensures ValidName(s) <==> s != "" && forall c :: c in s ==> 33 <= c as int <= 126 && !IsDelimiter(c)
  {
    forall c ensures IsTokenChar(c) <==> 33 <= c as int <= 126 && !IsDelimiter(c) {
      TokenCharIff(c);
    }
    assert forall i :: 0 <= i < |s| ==> s[i] in s;
  }

  /** `to_str` accepts the value: printable ASCII and tabs. */
  predicate Visible(v: string) {
    forall i :: 0 <= i < |v| ==> (' ' <= v[i] < 127 as char) || v[i] == '\t'
  }

  /** `HeaderValue::from_str` accepts the string: anything but control characters, tabs allowed. */
  predicate Legal(v: string) {
    forall i :: 0 <= i < |v| ==> (' ' <= v[i] && v[i] != 127 as char) || v[i] == '\t'
  }

  // ---------------------------------------------------------------- nominated names

  /** The comma-separated pieces of a value. */
  function Pieces(s: string): (r: seq<string>)
    ensures r != []
  {
    if s == [] then [[]]
    else
      var rest := Pieces(s[1..]);
      if s[0] == ',' then [[]] + rest else [[s[0]] + rest[0]] + rest[1..]
  }

  predicate IsBlank(c: char) {
    c == ' ' || c == '\t'
  }

  function TrimStart(s: string): string {
    if s != [] && IsBlank(s[0]) then TrimStart(s[1..]) else s
  }

  function TrimEnd(s: string): string {
    if s != [] && IsBlank(s[|s| - 1]) then TrimEnd(s[..|s| - 1]) else s
  }

  function Lower(s: string): string {
    seq(|s|, i requires 0 <= i < |s| => if 'A' <= s[i] <= 'Z' then s[i] + 32 as char else s[i])
  }

  /** The names one `Connection` value nominates, less the exempt ones. */
  function TokensOf(pieces: seq<string>): (r: seq<string>)
    ensures forall t :: t in r ==> t !in NOMINATION_EXEMPT
  {
    if pieces == [] then []
    else
      var t := Lower(TrimEnd(TrimStart(pieces[0])));
      (if t != [] && t !in NOMINATION_EXEMPT then [t] else []) + TokensOf(pieces[1..])
  }

  function TokensOfAll(values: Values): (r: seq<string>)
    ensures forall t :: t in r ==> t !in NOMINATION_EXEMPT
  {
    if values == [] then []
    else (if Visible(values[0]) then TokensOf(Pieces(values[0])) else []) + TokensOfAll(values[1..])
  }

  /** All names nominated by the `Connection` headers of a map. */
  function Nominated(m: Map): (r: seq<string>)
    ensures forall t :: t in r ==> t !in NOMINATION_EXEMPT
  {
    if "connection" in m then TokensOfAll(m["connection"]) else []
  }

  /** What remains after hop-by-hop stripping. */
  function Strip(m: Map): Map {
    map k | k in m && k !in Nominated(m) && k !in HOP_BY_HOP :: m[k]
  }

  // ---------------------------------------------------------------- the forwarding policy

  /** What `forward` knows besides the headers; `uriParses` says whether the upstream's address
      and the request's path make up a legal URI. */
  datatype Request = Request(
    client: string, scheme: string, trusted: bool, policyOn: bool, upstreamAddr: string, uriParses: bool)

  function VisibleOnly(values: Values): Values {
    if values == [] then []
    else (if Visible(values[0]) then [values[0]] else []) + VisibleOnly(values[1..])
  }

  function Join(values: Values): string {
    if values == [] then ""
    else if |values| == 1 then values[0]
    else values[0] + ", " + Join(values[1..])
  }

  /** The `X-Forwarded-For` text sent upstream. */
  function ForwardedFor(m: Map, r: Request): string {
    var prior := if r.trusted && "x-forwarded-for" in m then Join(VisibleOnly(m["x-forwarded-for"])) else "";
    if prior != "" then prior + ", " + r.client else r.client
  }

  function WithoutAttribution(m: Map): Map {
    map k | k in m && k !in ATTRIBUTION :: m[k]
  }

  function InsertIfLegal(m: Map, name: string, value: string): Map {
    if Legal(value) then m[name := [value]] else m
  }

  function DefaultTo(m: Map, name: string, value: string): Map {
    if name in m then m else InsertIfLegal(m, name, value)
  }

  /** `apply_forwarding_policy`. */
  function Policy(m: Map, r: Request, host: Option<string>): Map {
    var base := if r.trusted then m else WithoutAttribution(m);
    var m1 := InsertIfLegal(base, "x-forwarded-for", ForwardedFor(m, r));
    var m2 := DefaultTo(m1, "x-real-ip", r.client);
    var m3 := DefaultTo(m2, "x-forwarded-proto", r.scheme);
    if "x-forwarded-host" !in m3 && host.Some? then m3["x-forwarded-host" := [host.value]] else m3
  }

  function OriginalHost(m: Map): Option<string>
    requires WellFormed(m)
  {
    if "host" in m then Some(m["host"][0]) else None
  }

  /** The header map `forward` sends upstream, or the status it fails with. */
  function Assemble(m: Map, r: Request): Result<Map, nat>
    requires WellFormed(m)
  {
    var host := OriginalHost(m);
    var stripped := Strip(m) - {"content-length"};
    var sent := if r.policyOn then Policy(stripped, r, host) else stripped;
    if !r.uriParses then Err(BAD_GATEWAY)
    else if host.Some? then Ok(sent["host" := [host.value]])
    else if Legal(r.upstreamAddr) then Ok(sent["host" := [r.upstreamAddr]])
    else Err(BAD_GATEWAY)
  }

  // ---------------------------------------------------------------- the code, in place

  class HeaderMap {
    var entries: Map

    constructor (entries: Map)
      ensures this.entries == entries
    {
      this.entries := entries;
    }

    method Remove(name: string)
      modifies this
      ensures entries == old(entries) - {name}
    {
      entries := entries - {name};
    }

    method Insert(name: string, value: string)
      modifies this
      ensures entries == old(entries)[name := [value]]
    {
      entries := entries[name := [value]];
    }
  }

  /** The removal loop shared by nominated, hop-by-hop and attribution names. */
  method RemoveAll(h: HeaderMap, names: seq<string>)
    modifies h
    ensures h.entries == map k | k in old(h.entries) && k !in names :: old(h.entries)[k]
  {
    for n := 0 to |names|
      invariant h.entries == map k | k in old(h.entries) && k !in names[..n] :: old(h.entries)[k]
    {
      h.Remove(names[n]);
      assert names[..n + 1] == names[..n] + [names[n]];
    }
    assert names[..|names|] == names;
  }

  method StripHopByHop(h: HeaderMap)
    requires WellFormed(h.entries)
    modifies h
    ensures h.entries == Strip(old(h.entries))
  {
    var nominated := Nominated(h.entries);
    for n := 0 to |nominated|
      invariant h.entries == map k | k in old(h.entries) && k !in nominated[..n] :: old(h.entries)[k]
    {
      if ValidName(nominated[n]) {
        h.Remove(nominated[n]);
      }
      assert nominated[..n + 1] == nominated[..n] + [nominated[n]];
    }
    assert nominated[..|nominated|] == nominated;
    RemoveAll(h, HOP_BY_HOP);
  }

  method ApplyForwardingPolicy(h: HeaderMap, r: Request, host: Option<string>)
    modifies h
    ensures h.entries == Policy(old(h.entries), r, host)
  {
    var xff := ForwardedFor(h.entries, r);
    if !r.trusted {
      RemoveAll(h, ATTRIBUTION);
    }
    assert h.entries == if r.trusted then old(h.entries) else WithoutAttribution(old(h.entries));
    if Legal(xff) {
      h.Insert("x-forwarded-for", xff);
    }
    if "x-real-ip" !in h.entries {
      if Legal(r.client) {
        h.Insert("x-real-ip", r.client);
      }
    }
    if "x-forwarded-proto" !in h.entries {
      if Legal(r.scheme) {
        h.Insert("x-forwarded-proto", r.scheme);
      }
    }
    if "x-forwarded-host" !in h.entries {
      if host.Some? {
        h.Insert("x-forwarded-host", host.value);
      }
    }
  }

  /** The header part of `forward`: works on a clone, the request's own headers stay as they are. */
  method Forward(parts: HeaderMap, r: Request) returns (sent: Result<Map, nat>)
    requires WellFormed(parts.entries)
    ensures sent == Assemble(parts.entries, r)
  {
    if !r.uriParses {
      return Err(BAD_GATEWAY);
    }
    var headers := new HeaderMap(parts.entries);
    var host := OriginalHost(headers.entries);
    StripHopByHop(headers);
    headers.Remove("content-length");
    if r.policyOn {
      ApplyForwardingPolicy(headers, r, host);
    }
    var hostValue;
    if host.Some? {
      hostValue := host.value;
    } else if Legal(r.upstreamAddr) {
      hostValue := r.upstreamAddr;
    } else {
      return Err(BAD_GATEWAY);
    }
    headers.Insert("host", hostValue);
    return Ok(headers.entries);
  }

  // ---------------------------------------------------------------- what is guaranteed

  /** Stripping twice is stripping once: the nominations go with the `Connection` header. */
  lemma StripIdempotent(m: Map)
    ensures Strip(Strip(m)) == Strip(m)
  {
    assert "connection" in HOP_BY_HOP;
  }

  const STAMPED: seq<string> := ["x-forwarded-for", "x-real-ip", "x-forwarded-proto", "x-forwarded-host"]

  /** The policy touches nothing but attribution headers. */
  lemma PolicyFrame(m: Map, r: Request, host: Option<string>, k: string)
    requires k !in ATTRIBUTION
    ensures Get(Policy(m, r, host), k) == Get(m, k)
  {
    assert forall x :: x in STAMPED ==> x in ATTRIBUTION;
  }

  /** A control character other than a tab. */
  predicate IsControl(c: char) {
    c as int != 9 && (c as int < 32 || c as int == 127)
  }

  /** Exactly one Host is sent: the client's first one, or the upstream's address.  Assembly fails
      exactly when the URI does not parse, or there is no Host and the address is no legal one. */
  lemma ExactlyOneHost(m: Map, r: Request)
    requires WellFormed(m)
    ensures Assemble(m, r).Err? <==>
      || !r.uriParses
      || ("host" !in m && exists i :: 0 <= i < |r.upstreamAddr| && IsControl(r.upstreamAddr[i]))
    ensures Assemble(m, r).Err? ==> Assemble(m, r).error == 502
    ensures Assemble(m, r).Ok? ==>
      Get(Assemble(m, r).value, "host") == Some([if "host" in m then m["host"][0] else r.upstreamAddr])
  {
  }

  lemma HopByHopNames(k: string)
    requires k in HOP_BY_HOP
    ensures k !in ATTRIBUTION && k != "host"
  {
  }

  lemma NominatedNames(m: Map, k: string)
    requires k in Nominated(m)
    ensures k != "host" && k != "content-length"
  {
    assert "host" in NOMINATION_EXEMPT && "content-length" in NOMINATION_EXEMPT;
  }

  /** A header the policy adds carries the client address, the scheme or the original host. */
  predicate MadeByProxy(r: Request, host: Option<string>, values: Values) {
    values == [r.client] || values == [r.scheme] || (host.Some? && values == [host.value])
  }

  lemma InsertAdds(m: Map, name: string, value: string, k: string)
    ensures k in InsertIfLegal(m, name, value) && k !in m ==> k == name && InsertIfLegal(m, name, value)[k] == [value]
    ensures k in m && k != name ==> k in InsertIfLegal(m, name, value) && InsertIfLegal(m, name, value)[k] == m[k]
    ensures k in DefaultTo(m, name, value) && k !in m ==> k == name && DefaultTo(m, name, value)[k] == [value]
    ensures k in m ==> k in DefaultTo(m, name, value) && DefaultTo(m, name, value)[k] == m[k]
  {
  }

  /** What the policy adds to a map is one of the stamped headers, with a value of its own. */
  lemma PolicyAdds(m: Map, r: Request, host: Option<string>, k: string)
    requires k !in m && k in Policy(m, r, host)
    ensures k in STAMPED && MadeByProxy(r, host, Policy(m, r, host)[k])
  {
    var base := if r.trusted then m else WithoutAttribution(m);
    var m1 := InsertIfLegal(base, "x-forwarded-for", ForwardedFor(m, r));
    var m2 := DefaultTo(m1, "x-real-ip", r.client);
    InsertAdds(base, "x-forwarded-for", ForwardedFor(m, r), k);
    InsertAdds(m1, "x-real-ip", r.client, k);
    InsertAdds(m2, "x-forwarded-proto", r.scheme, k);
    assert k !in base;
  }

  /** No hop-by-hop header is sent, and no header the client nominated, other than those the
      proxy stamps itself. */
  lemma NothingHopByHopSurvives(m: Map, r: Request, k: string)
    requires WellFormed(m) && Assemble(m, r).Ok?
    requires
      || k == "connection" || k == "keep-alive" || k == "transfer-encoding" || k == "te" || k == "trailer"
      || k == "upgrade" || k == "proxy-authorization" || k == "proxy-authenticate"
      || (k in Nominated(m)
          && k !in {"x-forwarded-for", "x-real-ip", "x-forwarded-proto", "x-forwarded-host"})
    ensures k !in Assemble(m, r).value
  {
    if k in HOP_BY_HOP {
      HopByHopNames(k);
      PolicyFrame(Strip(m) - {"content-length"}, r, OriginalHost(m), k);
    } else {
      NominatedNotStamped(m, r, k);
    }
  }

  lemma NominatedNotStamped(m: Map, r: Request, k: string)
    requires WellFormed(m) && Assemble(m, r).Ok? && k in Nominated(m) && k !in STAMPED
    ensures k !in Assemble(m, r).value
  {
    NominatedNames(m, k);
    var stripped := Strip(m) - {"content-length"};
    if r.policyOn && k in Policy(stripped, r, OriginalHost(m)) {
      PolicyAdds(stripped, r, OriginalHost(m), k);
      assert false;
    }
  }

  /** A nominated header that is sent all the same carries only a value the proxy made. */
  lemma NominatedValueIsNotForwarded(m: Map, r: Request, k: string)
    requires WellFormed(m) && Assemble(m, r).Ok? && k in Nominated(m) && k in Assemble(m, r).value
    ensures r.policyOn && k in STAMPED
    ensures MadeByProxy(r, OriginalHost(m), Assemble(m, r).value[k])
  {
    NominatedNames(m, k);
    var stripped := Strip(m) - {"content-length"};
    assert k !in stripped;
    if r.policyOn {
      PolicyAdds(stripped, r, OriginalHost(m), k);
    }
  }

  lemma OrdinaryName(k: string)
    requires k !in {"connection", "keep-alive", "transfer-encoding", "te", "trailer", "upgrade"}
    requires k !in {"proxy-authorization", "proxy-authenticate", "host", "content-length"}
    ensures k !in HOP_BY_HOP && k !in NOMINATION_EXEMPT
    ensures k !in {"x-forwarded-for", "forwarded", "x-real-ip", "x-forwarded-host", "x-forwarded-proto"} ==>
      k !in ATTRIBUTION
  {
  }

  /** Every other header keeps all its values in their order. */
  lemma OthersPassThrough(m: Map, r: Request, k: string)
    requires WellFormed(m) && Assemble(m, r).Ok?
    requires k !in {"connection", "keep-alive", "transfer-encoding", "te", "trailer", "upgrade"}
    requires k !in {"proxy-authorization", "proxy-authenticate", "host", "content-length"} && k !in Nominated(m)
    requires r.policyOn ==>
      k !in {"x-forwarded-for", "forwarded", "x-real-ip", "x-forwarded-host", "x-forwarded-proto"}
    ensures Get(Assemble(m, r).value, k) == Get(m, k)
  {
    OrdinaryName(k);
    if r.policyOn {
      PolicyFrame(Strip(m) - {"content-length"}, r, OriginalHost(m), k);
    }
  }

  ghost predicate SameButAttribution(a: Map, b: Map) {
    forall k :: k !in ATTRIBUTION ==> Get(a, k) == Get(b, k)
  }

  lemma StripPreservesSameness(a: Map, b: Map)
    requires SameButAttribution(a, b)
    ensures SameButAttribution(Strip(a) - {"content-length"}, Strip(b) - {"content-length"})
  {
    assert Get(a, "connection") == Get(b, "connection");
  }

  lemma WithoutAttributionSame(a: Map, b: Map)
    requires SameButAttribution(a, b)
    ensures WithoutAttribution(a) == WithoutAttribution(b)
  {
    var x, y := WithoutAttribution(a), WithoutAttribution(b);
    forall k ensures k in x <==> k in y {
      assert k !in ATTRIBUTION ==> Get(a, k) == Get(b, k);
    }
    forall k | k in x ensures x[k] == y[k] {
      assert Get(a, k) == Get(b, k);
    }
  }

  /** Non-interference: with the policy on and an untrusted client, nothing the client puts in
      attribution headers reaches the upstream in any form. */
  lemma AttributionDoesNotInterfere(a: Map, b: Map, r: Request)
    requires WellFormed(a) && WellFormed(b) && SameButAttribution(a, b)
    requires r.policyOn && !r.trusted
    ensures Assemble(a, r) == Assemble(b, r)
  {
    assert Get(a, "host") == Get(b, "host");
    StripPreservesSameness(a, b);
    WithoutAttributionSame(Strip(a) - {"content-length"}, Strip(b) - {"content-length"});
  }

  lemma PolicyKeepsTrusted(m: Map, r: Request, host: Option<string>, k: string)
    requires r.trusted && k in m && k != "x-forwarded-for"
    ensures Get(Policy(m, r, host), k) == Get(m, k)
  {
  }

  lemma PolicyForwardedFor(m: Map, r: Request, host: Option<string>)
    requires Legal(ForwardedFor(m, r))
    ensures Get(Policy(m, r, host), "x-forwarded-for") == Some([ForwardedFor(m, r)])
  {
  }

  lemma VisibleAppend(a: string, b: string)
    requires Visible(a) && Visible(b)
    ensures Visible(a + ", " + b)
  {
  }

  lemma LegalAppend(a: string, b: string)
    requires Visible(a) && Legal(b)
    ensures Legal(a + ", " + b)
  {
  }

  /** From a trusted client the address is appended to the visible X-Forwarded-For values. */
  lemma TrustedForwardedForGrows(m: Map, r: Request)
    requires WellFormed(m) && Assemble(m, r).Ok? && r.policyOn && r.trusted && Legal(r.client)
    requires "x-forwarded-for" !in Nominated(m) && "x-forwarded-for" in m
    ensures
      var prior := Join(VisibleOnly(m["x-forwarded-for"]));
      Get(Assemble(m, r).value, "x-forwarded-for") == Some([if prior == "" then r.client else prior + ", " + r.client])
  {
    VisibleOnlyVisible(m["x-forwarded-for"]);
    JoinVisible(VisibleOnly(m["x-forwarded-for"]));
    var stripped := Strip(m) - {"content-length"};
    assert stripped["x-forwarded-for"] == m["x-forwarded-for"];
    LegalAppend(Join(VisibleOnly(m["x-forwarded-for"])), r.client);
    PolicyForwardedFor(stripped, r, OriginalHost(m));
  }

  /** Its other attribution headers are honoured as they came. */
  lemma TrustedAttributionKept(m: Map, r: Request, k: string)
    requires WellFormed(m) && Assemble(m, r).Ok? && r.policyOn && r.trusted
    requires k in ATTRIBUTION && k != "x-forwarded-for" && k in m && k !in Nominated(m)
    ensures Get(Assemble(m, r).value, k) == Get(m, k)
  {
    PolicyKeepsTrusted(Strip(m) - {"content-length"}, r, OriginalHost(m), k);
  }

  /** Joining adds each value behind a comma and a blank. */
  lemma {:induction false} JoinAppend(values: Values, v: string)
    ensures Join([v]) == v
    ensures values != [] ==> Join(values + [v]) == Join(values) + ", " + v
  {
    if |values| > 1 {
      JoinAppend(values[1..], v);
      assert (values + [v])[1..] == values[1..] + [v];
    } else if |values| == 1 {
      assert (values + [v])[1..] == [v];
    }
  }

  predicate Printable(v: string) {
    forall i :: 0 <= i < |v| ==> v[i] as int == 9 || 32 <= v[i] as int <= 126
  }

  lemma PrintableIsVisible(v: string)
    ensures Printable(v) <==> Visible(v)
  {
  }

  /** The values of printable ASCII and tabs are kept, in their order, and the others dropped. */
  lemma {:induction false} VisibleOnlyAppend(values: Values, v: string)
    ensures VisibleOnly(values + [v]) == VisibleOnly(values) + if Printable(v) then [v] else []
  {
    if values == [] {
      PrintableIsVisible(v);
      assert [v][1..] == [];
    } else {
      VisibleOnlyAppend(values[1..], v);
      assert (values + [v])[1..] == values[1..] + [v];
    }
  }

  lemma {:induction false} VisibleOnlyVisible(values: Values)
    ensures forall v :: v in VisibleOnly(values) ==> Visible(v)
  {
    if values != [] {
      VisibleOnlyVisible(values[1..]);
    }
  }

  lemma {:induction false} JoinVisible(values: Values)
    requires forall i :: 0 <= i < |values| ==> Visible(values[i])
    ensures Visible(Join(values))
  {
    if |values| > 1 {
      JoinVisible(values[1..]);
      VisibleAppend(values[0], Join(values[1..]));
    }
  }

  /** An attribution header of the client is used: it is trusted and did not nominate the header. */
  predicate Honoured(m: Map, r: Request, k: string) {
    r.trusted && k in m && k !in Nominated(m)
  }

  lemma PolicyStamps(m: Map, r: Request, host: Option<string>)
    requires Legal(r.client) && Legal(r.scheme)
    ensures !(r.trusted && "x-real-ip" in m) ==> Get(Policy(m, r, host), "x-real-ip") == Some([r.client])
    ensures !(r.trusted && "x-forwarded-proto" in m) ==>
      Get(Policy(m, r, host), "x-forwarded-proto") == Some([r.scheme])
  {
  }

  lemma PolicyStampsHost(m: Map, r: Request, host: Option<string>)
    ensures !(r.trusted && "x-forwarded-host" in m) ==>
      Get(Policy(m, r, host), "x-forwarded-host") == if host.Some? then Some([host.value]) else None
    ensures !(r.trusted && "forwarded" in m) ==> Get(Policy(m, r, host), "forwarded") == None
  {
  }

  /** Every attribution header that is not honoured is rewritten from the connection itself: the
      client's address, the scheme and the original host; `Forwarded` is dropped. */
  lemma AttributionRewritten(m: Map, r: Request)
    requires WellFormed(m) && Assemble(m, r).Ok? && r.policyOn && Legal(r.client) && Legal(r.scheme)
    ensures !Honoured(m, r, "x-forwarded-for") ==> Get(Assemble(m, r).value, "x-forwarded-for") == Some([r.client])
    ensures !Honoured(m, r, "x-real-ip") ==> Get(Assemble(m, r).value, "x-real-ip") == Some([r.client])
    ensures !Honoured(m, r, "x-forwarded-proto") ==> Get(Assemble(m, r).value, "x-forwarded-proto") == Some([r.scheme])
    ensures !Honoured(m, r, "x-forwarded-host") ==>
      Get(Assemble(m, r).value, "x-forwarded-host") == if "host" in m then Some([m["host"][0]]) else None
    ensures !Honoured(m, r, "forwarded") ==> Get(Assemble(m, r).value, "forwarded") == None
  {
    var stripped, host := Strip(m) - {"content-length"}, OriginalHost(m);
    PolicyStamps(stripped, r, host);
    PolicyStampsHost(stripped, r, host);
    if !Honoured(m, r, "x-forwarded-for") {
      assert ForwardedFor(stripped, r) == r.client;
      PolicyForwardedFor(stripped, r, host);
    }
  }

  // ---------------------------------------------------------------- parsing nominations

  /** `x` spells the lower-case name `y` in letters of either case. */
  predicate SpelledAs(x: string, y: string) {
    && |x| == |y|
    && forall i :: 0 <= i < |x| ==>
         !('A' <= y[i] <= 'Z') && (x[i] == y[i] || ('A' <= x[i] <= 'Z' && y[i] as int == x[i] as int + 32))
  }

  predicate AllBlank(s: string) {
    forall i :: 0 <= i < |s| ==> s[i] == ' ' || s[i] == '\t'
  }

  /** A nomination as a peer may write it: a name in any case with any blanks around it. */
  datatype Mention = Mention(before: string, spelling: string, after: string, name: string)

  predicate IsMention(m: Mention) {
    && AllBlank(m.before) && AllBlank(m.after) && SpelledAs(m.spelling, m.name) && m.spelling != []
    && (forall i :: 0 <= i < |m.spelling| ==> ' ' < m.spelling[i] < 127 as char && m.spelling[i] != ',')
  }

  function Written(m: Mention): string {
    m.before + m.spelling + m.after
  }

  /** The nominations of one value, with commas between them. */
  function Listed(ms: seq<Mention>): string {
    if ms == [] then ""
    else if |ms| == 1 then Written(ms[0])
    else Written(ms[0]) + "," + Listed(ms[1..])
  }

  /** The names nominated, in order: Host and Content-Length cannot be. */
  function NamesOf(ms: seq<Mention>): seq<string> {
    if ms == [] then []
    else (if ms[0].name == "host" || ms[0].name == "content-length" then [] else [ms[0].name]) + NamesOf(ms[1..])
  }

  /** A `Connection` line: a list of nominations, or a value that is not printable. */
  datatype Line = List(mentions: seq<Mention>) | Unprintable(value: string)

  predicate IsLine(l: Line) {
    match l
    case List(ms) => ms != [] && forall i :: 0 <= i < |ms| ==> IsMention(ms[i])
    case Unprintable(v) => !Printable(v)
  }

  function ValueOf(l: Line): string {
    match l
    case List(ms) => Listed(ms)
    case Unprintable(v) => v
  }

  function ValuesOf(lines: seq<Line>): Values {
    if lines == [] then [] else [ValueOf(lines[0])] + ValuesOf(lines[1..])
  }

  function NamesOfLines(lines: seq<Line>): seq<string> {
    if lines == [] then []
    else (match lines[0] case List(ms) => NamesOf(ms) case Unprintable(_) => []) + NamesOfLines(lines[1..])
  }

  lemma LowerOfSpelling(x: string, y: string)
    requires SpelledAs(x, y)
    ensures Lower(x) == y
  {
  }

  lemma {:induction false} PiecesOfFirst(x: string, rest: string)
    requires ',' !in x
    ensures Pieces(x + "," + rest) == [x] + Pieces(rest)
    ensures Pieces(x) == [x]
  {
    if x == [] {
      assert x + "," + rest == "," + rest;
      assert ("," + rest)[1..] == rest;
    } else {
      PiecesOfFirst(x[1..], rest);
      assert (x + "," + rest)[1..] == x[1..] + "," + rest;
      assert [x[0]] + x[1..] == x;
    }
  }

  lemma {:induction false} TrimBefore(pad: string, x: string)
    requires AllBlank(pad) && x != [] && !IsBlank(x[0])
    ensures TrimStart(pad + x) == x
  {
    if pad == [] {
      assert pad + x == x;
    } else {
      TrimBefore(pad[1..], x);
      assert (pad + x)[1..] == pad[1..] + x;
    }
  }

  lemma {:induction false} TrimAfter(x: string, pad: string)
    requires AllBlank(pad) && x != [] && !IsBlank(x[|x| - 1])
    ensures TrimEnd(x + pad) == x
  {
    if pad == [] {
      assert x + pad == x;
    } else {
      var n := |pad| - 1;
      TrimAfter(x, pad[..n]);
      assert (x + pad)[..|x + pad| - 1] == x + pad[..n];
    }
  }

  lemma MentionTrimmed(m: Mention)
    requires IsMention(m)
    ensures Lower(TrimEnd(TrimStart(Written(m)))) == m.name
    ensures ',' !in Written(m) && Visible(Written(m))
  {
    var rest := m.spelling + m.after;
    assert Written(m) == m.before + rest && rest[0] == m.spelling[0];
    TrimBefore(m.before, rest);
    TrimAfter(m.spelling, m.after);
    LowerOfSpelling(m.spelling, m.name);
  }

  lemma TokensOfMention(m: Mention, pieces: seq<string>)
    requires IsMention(m)
    ensures TokensOf([Written(m)] + pieces) == NamesOf([m]) + TokensOf(pieces)
  {
    MentionTrimmed(m);
    assert ([Written(m)] + pieces)[1..] == pieces;
    assert [m][1..] == [];
  }

  lemma {:induction false} TokensOfListed(ms: seq<Mention>)
    requires ms != [] && forall i :: 0 <= i < |ms| ==> IsMention(ms[i])
    ensures TokensOf(Pieces(Listed(ms))) == NamesOf(ms) && Visible(Listed(ms))
  {
    if |ms| == 1 {
      TokensOfOne(ms[0]);
      assert ms == [ms[0]];
    } else {
      TokensOfListed(ms[1..]);
      TokensOfMore(ms[0], Listed(ms[1..]));
      NamesOfCons(ms[0], ms[1..]);
      assert ms == [ms[0]] + ms[1..];
    }
  }

  lemma TokensOfOne(m: Mention)
    requires IsMention(m)
    ensures TokensOf(Pieces(Written(m))) == NamesOf([m]) && Visible(Written(m))
  {
    MentionTrimmed(m);
    PiecesOfFirst(Written(m), "");
    TokensOfMention(m, []);
    assert [Written(m)] + [] == [Written(m)];
  }

  lemma TokensOfMore(m: Mention, rest: string)
    requires IsMention(m) && Visible(rest)
    ensures TokensOf(Pieces(Written(m) + "," + rest)) == NamesOf([m]) + TokensOf(Pieces(rest))
    ensures Visible(Written(m) + "," + rest)
  {
    MentionTrimmed(m);
    PiecesOfFirst(Written(m), rest);
    TokensOfMention(m, Pieces(rest));
  }

  lemma NamesOfCons(m: Mention, ms: seq<Mention>)
    ensures NamesOf([m] + ms) == NamesOf([m]) + NamesOf(ms)
  {
    assert ([m] + ms)[1..] == ms && [m][1..] == [];
  }

  lemma {:induction false} TokensOfLines(lines: seq<Line>)
    requires forall i :: 0 <= i < |lines| ==> IsLine(lines[i])
    ensures TokensOfAll(ValuesOf(lines)) == NamesOfLines(lines)
  {
    if lines != [] {
      TokensOfLines(lines[1..]);
      assert ValuesOf(lines)[1..] == ValuesOf(lines[1..]);
      match lines[0]
      case List(ms) => TokensOfListed(ms);
      case Unprintable(v) => PrintableIsVisible(v);
    }
  }

  /** Connection lines nominate exactly the names they list, on every line, in letters of either
      case and with any blanks around them, except Host and Content-Length; a line that is not
      printable nominates nothing. */
  lemma NominationsParsed(m: Map, lines: seq<Line>)
    requires forall i :: 0 <= i < |lines| ==> IsLine(lines[i])
    requires "connection" in m && m["connection"] == ValuesOf(lines)
    ensures Nominated(m) == NamesOfLines(lines)
  {
    TokensOfLines(lines);
  }
}
