/** Filtering of upstream and CONNECT targets (src/security/upstream_filter.rs): the authority
    splitter, the restricted address ranges and the allowlist rule.

    CIDR containment is an arbitrary predicate per allowlisted network, and parsing of IP
    literals an arbitrary function. */
module UpstreamFilter {
  import opened Prelude

  // ---------------------------------------------------------------- splitting an authority

  function IndexOf(s: string, c: char): (i: nat)
    ensures i <= |s|
    ensures c !in s[..i]
    ensures i < |s| ==> s[i] == c
  {
    if s == [] || s[0] == c then 0
    else
      assert s == [s[0]] + s[1..];
      1 + IndexOf(s[1..], c)
  }

  function CountChar(s: string, c: char): nat {
    if s == [] then 0 else (if s[0] == c then 1 else 0) + CountChar(s[1..], c)
  }

  predicate IsDigit(c: char) {
    '0' <= c <= '9'
  }

  function DigitsValue(s: string): Option<nat> {
    if s == [] then Some(0)
    else
      var n := |s| - 1;
      var high := DigitsValue(s[..n]);
      if high.Some? && IsDigit(s[n]) then Some(high.value * 10 + (s[n] as int - '0' as int)) else None
  }

  /** `str::parse::<u16>`: an optional `+`, at least one digit, and a value below 2^16. */
  function ParseU16(s: string): Option<nat> {
    var digits := if |s| > 1 && s[0] == '+' then s[1..] else s;
    if digits == [] then None
    else match DigitsValue(digits)
      case Some(v) => if v < 0x1_0000 then Some(v) else None
      case None => None
  }

  /** `split_host_port`. */
  function SplitHostPort(addr: string): (string, Option<nat>) {
    if addr != [] && addr[0] == '[' then
      var rest := addr[1..];
      var end := IndexOf(rest, ']');
      if end < |rest| then
        var tail := rest[end + 1..];
        (rest[..end], if tail != [] && tail[0] == ':' then ParseU16(tail[1..]) else None)
      else (addr, None)
    else if CountChar(addr, ':') > 1 then (addr, None)
    else
      // At most one colon is left, so the last colon is the first.
      var at := IndexOf(addr, ':');
      if at < |addr| then
        match ParseU16(addr[at + 1..])
        case Some(p) => (addr[..at], Some(p))
        case None => (addr, None)
      else (addr, None)
  }

  /** Decimal digits of a number. */
  function Decimal(n: nat): (s: string)
    ensures s != [] && forall i :: 0 <= i < |s| ==> IsDigit(s[i])
  {
    var digit := ('0' as int + n % 10) as char;
    if n < 10 then [digit] else Decimal(n / 10) + [digit]
  }

  lemma {:induction false} DecimalValue(n: nat)
    ensures DigitsValue(Decimal(n)) == Some(n)
  {
    var s := Decimal(n);
    var m := |s| - 1;
    assert s[m] as int - '0' as int == n % 10;
    if n >= 10 {
      DecimalValue(n / 10);
      assert s[..m] == Decimal(n / 10);
    } else {
      assert s[..m] == [];
    }
  }

  lemma PortRoundTrip(p: nat)
    requires p < 0x1_0000
    ensures ParseU16(Decimal(p)) == Some(p)
  {
    DecimalValue(p);
    assert IsDigit(Decimal(p)[0]);
  }

  function Zeros(n: nat): string {
    if n == 0 then "" else Zeros(n - 1) + "0"
  }

  lemma {:induction false} ZerosAreZero(n: nat)
    ensures DigitsValue(Zeros(n)) == Some(0)
  {
    if n > 0 {
      ZerosAreZero(n - 1);
      assert Zeros(n)[..|Zeros(n)| - 1] == Zeros(n - 1);
    }
  }

  /** Digits in front that are worth nothing change nothing. */
  lemma {:induction false} ZerosAreNothing(z: string, t: string)
    requires DigitsValue(z) == Some(0)
    ensures DigitsValue(z + t) == DigitsValue(t)
  {
    if t == "" {
      assert z + t == z;
    } else {
      var m := |t| - 1;
      ZerosAreNothing(z, t[..m]);
      assert (z + t)[..|z + t| - 1] == z + t[..m];
    }
  }

  /** Every digit string is the decimal form of its value behind some zeros. */
  lemma {:induction false} ValueSpelling(s: string, v: nat) returns (n: nat)
    requires s != "" && DigitsValue(s) == Some(v)
    ensures s == Zeros(n) + Decimal(v)
  {
    var m := |s| - 1;
    var h := DigitsValue(s[..m]).value;
    var d := s[m] as int - '0' as int;
    assert v == h * 10 + d && s == s[..m] + [s[m]];
    if m == 0 {
      n := 0;
    } else {
      n := ValueSpelling(s[..m], h);
      if h == 0 {
        assert Zeros(n) + Decimal(0) == Zeros(n + 1);
        n := n + 1;
      } else {
        assert v / 10 == h && v % 10 == d;
        assert Decimal(v) == Decimal(h) + [s[m]];
      }
    }
  }

  /** The port parser reads exactly the 16-bit numbers in decimal, with any zeros and at most one
      plus sign in front. */
  lemma ParseU16Iff(s: string, v: nat)
    ensures ParseU16(s) == Some(v) <==> v < 65536 && exists n: nat :: IsSpelling(s, n, v)
  {
    if n: nat :| IsSpelling(s, n, v) {
      DecimalValue(v);
      ZerosAreZero(n);
      ZerosAreNothing(Zeros(n), Decimal(v));
      StartsWithDigit(n, v);
      assert s[0] == '+' ==> s[1..] == Zeros(n) + Decimal(v);
    }
    if ParseU16(s) == Some(v) {
      var digits := if |s| > 1 && s[0] == '+' then s[1..] else s;
      var n := ValueSpelling(digits, v);
      assert |s| > 1 && s[0] == '+' ==> s == "+" + digits;
      assert IsSpelling(s, n, v);
    }
  }

  predicate IsSpelling(s: string, n: nat, v: nat) {
    s == Zeros(n) + Decimal(v) || s == "+" + (Zeros(n) + Decimal(v))
  }

  lemma {:induction false} StartsWithDigit(n: nat, v: nat)
    ensures Zeros(n) + Decimal(v) != "" && IsDigit((Zeros(n) + Decimal(v))[0])
  {
    if n > 0 {
      StartsWithDigit(n - 1, v);
      assert n == 1 ==> Zeros(n) == "0";
      assert n > 1 ==> Zeros(n)[0] == Zeros(n - 1)[0];
    }
  }

  lemma {:induction false} CountIndex(s: string, c: char)
    ensures c !in s <==> CountChar(s, c) == 0
    ensures c !in s <==> IndexOf(s, c) == |s|
  {
    if s != [] {
      CountIndex(s[1..], c);
      assert s == [s[0]] + s[1..];
    }
  }

  lemma {:induction false} IndexOfConcat(h: string, c: char, t: string)
    requires c !in h
    ensures IndexOf(h + [c] + t, c) == |h|
    ensures CountChar(h + [c] + t, c) == 1 + CountChar(t, c)
  {
    var s := h + [c] + t;
    if h == [] {
      assert s == [c] + t;
      assert s[1..] == t;
    } else {
      assert s[1..] == h[1..] + [c] + t;
      IndexOfConcat(h[1..], c, t);
    }
  }

  predicate Unbracketed(s: string) {
    s == [] || s[0] != '['
  }

  /** `host:port`, for any spelling of the port the parser accepts, splits into its parts. */
  lemma SplitHostAndPort(host: string, digits: string)
    requires ':' !in host && Unbracketed(host) && ParseU16(digits).Some?
    ensures SplitHostPort(host + ":" + digits) == (host, ParseU16(digits))
  {
    var s := host + ":" + digits;
    ParsedHasNoColon(digits);
    CountIndex(digits, ':');
    IndexOfConcat(host, ':', digits);
    assert s[..|host|] == host && s[|host| + 1..] == digits;
  }

  lemma SplitAfterBracket(host: string, tail: string)
    requires ']' !in host
    ensures SplitHostPort("[" + host + "]" + tail) ==
            (host, if tail != [] && tail[0] == ':' then ParseU16(tail[1..]) else None)
  {
    var s := "[" + host + "]" + tail;
    var rest := host + [']'] + tail;
    assert s[1..] == rest;
    IndexOfConcat(host, ']', tail);
    assert rest[..|host|] == host;
    assert rest[|host| + 1..] == tail;
  }

  /** Bracketed hosts split at the first closing bracket, with and without a port. */
  lemma SplitBracketed(host: string, digits: string)
    requires ']' !in host
    ensures SplitHostPort("[" + host + "]:" + digits) == (host, ParseU16(digits))
    ensures SplitHostPort("[" + host + "]") == (host, None)
  {
    SplitAfterBracket(host, ":" + digits);
    assert "[" + host + "]" + (":" + digits) == "[" + host + "]:" + digits;
    assert (":" + digits)[1..] == digits;
    SplitAfterBracket(host, "");
    assert "[" + host + "]" + "" == "[" + host + "]";
  }

  /** An unbracketed authority without a colon, or with two or more, is all host. */
  lemma SplitBare(addr: string)
    requires Unbracketed(addr) && CountChar(addr, ':') != 1
    ensures SplitHostPort(addr) == (addr, None)
  {
    CountIndex(addr, ':');
  }

  /** Printing then splitting gives the parts back, for all four printed forms. */
  lemma SplitUndoesPrinting(host: string, p: nat)
    requires p < 0x1_0000
    ensures ':' !in host && Unbracketed(host) ==>
      SplitHostPort(host + ":" + Decimal(p)) == (host, Some(p)) && SplitHostPort(host) == (host, None)
    ensures ']' !in host ==>
      SplitHostPort("[" + host + "]:" + Decimal(p)) == (host, Some(p)) &&
      SplitHostPort("[" + host + "]") == (host, None)
  {
    PortRoundTrip(p);
    CountIndex(host, ':');
    if ':' !in host && Unbracketed(host) {
      SplitHostAndPort(host, Decimal(p));
      SplitBare(host);
    }
    if ']' !in host {
      SplitBracketed(host, Decimal(p));
    }
  }

  lemma {:induction false} ValueMeansDigits(s: string, i: nat)
    requires DigitsValue(s).Some? && i < |s|
    ensures IsDigit(s[i])
  {
    if i < |s| - 1 {
      ValueMeansDigits(s[..|s| - 1], i);
    }
  }

  lemma ParsedHasNoColon(digits: string)
    requires ParseU16(digits).Some?
    ensures ':' !in digits
  {
    var ds := if |digits| > 1 && digits[0] == '+' then digits[1..] else digits;
    forall i | 0 <= i < |ds| ensures ds[i] != ':' {
      ValueMeansDigits(ds, i);
    }
    assert digits == ds || digits == [digits[0]] + ds;
  }

  /** `addr` is printed from `host` and the port spelling `digits`, bracketed or not. */
  predicate Printed(addr: string, host: string, digits: string) {
    || (addr == host + ":" + digits && ':' !in host && Unbracketed(host))
    || (addr == "[" + host + "]:" + digits && ']' !in host)
  }

  /** The splitter reports a host and a port exactly for the authorities printed from them. */
  lemma SplitWithPortIff(addr: string, host: string, port: nat)
    ensures SplitHostPort(addr) == (host, Some(port)) <==>
            exists digits :: ParseU16(digits) == Some(port) && Printed(addr, host, digits)
  {
    if digits :| ParseU16(digits) == Some(port) && Printed(addr, host, digits) {
      if addr == host + ":" + digits && ':' !in host && Unbracketed(host) {
        SplitHostAndPort(host, digits);
      } else {
        SplitBracketed(host, digits);
      }
    }
    if SplitHostPort(addr) == (host, Some(port)) {
      var digits := PortSpelling(addr);
      assert ParseU16(digits) == Some(port) && Printed(addr, host, digits);
    }
  }

  lemma PortSpelling(addr: string) returns (digits: string)
    requires SplitHostPort(addr).1.Some?
    ensures ParseU16(digits) == SplitHostPort(addr).1 && Printed(addr, SplitHostPort(addr).0, digits)
  {
    if addr[0] == '[' {
      digits := BracketedPortSpelling(addr);
    } else {
      var at := IndexOf(addr, ':');
      digits := addr[at + 1..];
      CutAt(addr, at);
    }
  }

  lemma BracketedPortSpelling(addr: string) returns (digits: string)
    requires addr != [] && addr[0] == '[' && SplitHostPort(addr).1.Some?
    ensures ParseU16(digits) == SplitHostPort(addr).1 && Printed(addr, SplitHostPort(addr).0, digits)
  {
    var rest := addr[1..];
    var end := IndexOf(rest, ']');
    var host, tail := rest[..end], rest[end + 1..];
    assert SplitHostPort(addr).0 == host && tail != [] && tail[0] == ':';
    digits := tail[1..];
    CutAt(addr, 0);
    CutAt(rest, end);
    CutAt(tail, 0);
    JoinBracketed(addr, rest, host, tail, digits);
  }

  lemma CutAt(s: string, i: nat)
    requires i < |s|
    ensures s == s[..i] + [s[i]] + s[i + 1..]
  {
  }

  lemma JoinBracketed(addr: string, rest: string, host: string, tail: string, digits: string)
    requires addr == [] + ['['] + rest && rest == host + [']'] + tail && tail == [] + [':'] + digits
    ensures addr == "[" + host + "]:" + digits
  {
  }

  // ---------------------------------------------------------------- restricted ranges

  datatype V4 = V4(a: bv8, b: bv8, c: bv8, d: bv8)
  datatype V6 = V6(s0: bv16, s1: bv16, s2: bv16, s3: bv16, s4: bv16, s5: bv16, s6: bv16, s7: bv16)
  datatype Ip = Ip4(v4: V4) | Ip6(v6: V6)

  predicate RestrictedV4(ip: V4) {
    || ip.a == 10 || (ip.a == 172 && 16 <= ip.b <= 31) || (ip.a == 192 && ip.b == 168)  // private
    || ip.a == 127                                                                    // loopback
    || (ip.a == 169 && ip.b == 254)                                                   // link-local
    || 224 <= ip.a <= 239                                                             // multicast
    || ip == V4(255, 255, 255, 255)                                                   // broadcast
    || ip == V4(0, 0, 0, 0)                                                           // unspecified
    || (ip.a == 192 && ip.b == 0 && ip.c == 2)                                        // documentation
    || (ip.a == 198 && ip.b == 51 && ip.c == 100)
    || (ip.a == 203 && ip.b == 0 && ip.c == 113)
    || ip.a == 0                                                                      // this network
    || (ip.a == 100 && ip.b & 0xc0 == 64)                                             // CGNAT
  }

  /** `to_ipv4_mapped`: the IPv4 address inside ::ffff:a.b.c.d. */
  function Mapped(ip: V6): Option<V4> {
    if ip.s0 == 0 && ip.s1 == 0 && ip.s2 == 0 && ip.s3 == 0 && ip.s4 == 0 && ip.s5 == 0xffff
    then Some(V4((ip.s6 >> 8) as bv8, (ip.s6 & 0xff) as bv8, (ip.s7 >> 8) as bv8, (ip.s7 & 0xff) as bv8))
    else None
  }

  function MapInto(ip: V4): V6 {
    V6(0, 0, 0, 0, 0, 0xffff, ((ip.a as bv16) << 8) | (ip.b as bv16), ((ip.c as bv16) << 8) | (ip.d as bv16))
  }

  predicate RestrictedV6(ip: V6) {
    match Mapped(ip)
    case Some(v4) => RestrictedV4(v4)
    case None =>
      || ip == V6(0, 0, 0, 0, 0, 0, 0, 1)
      || ip.s0 & 0xff00 == 0xff00
      || ip == V6(0, 0, 0, 0, 0, 0, 0, 0)
      || ip.s0 & 0xfe00 == 0xfc00
      || ip.s0 & 0xffc0 == 0xfe80
  }

  predicate IsRestricted(ip: Ip) {
    match ip
    case Ip4(v4) => RestrictedV4(v4)
    case Ip6(v6) => RestrictedV6(v6)
  }

  type Network = Ip -> bool

  /** `ip_allowed`: public addresses pass, restricted ones only through the allowlist, where an
      IPv4-mapped address is matched in both spellings. */
  predicate IpAllowed(ip: Ip, nets: seq<Network>) {
    !IsRestricted(ip) ||
    var canonical := if ip.Ip6? && Mapped(ip.v6).Some? then Ip4(Mapped(ip.v6).value) else ip;
    exists k :: 0 <= k < |nets| && (nets[k](ip) || nets[k](canonical))
  }

  lemma MapIntoRoundTrip(ip: V4)
    ensures Mapped(MapInto(ip)) == Some(ip)
  {
    BytesRoundTrip(ip.a, ip.b);
    BytesRoundTrip(ip.c, ip.d);
  }

  lemma BytesRoundTrip(a: bv8, b: bv8)
    ensures var s := ((a as bv16) << 8) | (b as bv16); (s >> 8) as bv8 == a && (s & 0xff) as bv8 == b
  {
  }

  /** The IPv4-mapped spelling of an address is restricted exactly when the address is, and is
      allowed whenever the address is. */
  lemma MappedJudgedByV4(ip: V4, nets: seq<Network>)
    ensures IsRestricted(Ip6(MapInto(ip))) == IsRestricted(Ip4(ip))
    ensures IpAllowed(Ip4(ip), nets) ==> IpAllowed(Ip6(MapInto(ip)), nets)
  {
    MapIntoRoundTrip(ip);
  }

  /** Membership of a 32-bit address in base/bits. */
  function Word(ip: V4): bv32 {
    ((ip.a as bv32) << 24) | ((ip.b as bv32) << 16) | ((ip.c as bv32) << 8) | (ip.d as bv32)
  }

  /** The restricted IPv4 ranges as masks and bases: 0/8, 10/8, 100.64/10, 127/8, 169.254/16,
      172.16/12, 192.0.2/24, 192.168/16, 198.51.100/24, 203.0.113/24, 224/4, 255.255.255.255/32. */
  predicate InRestrictedBlock(w: bv32) {
    || w & 0xff000000 == 0x00000000
    || w & 0xff000000 == 0x0a000000
    || w & 0xffc00000 == 0x64400000
    || w & 0xff000000 == 0x7f000000
    || w & 0xffff0000 == 0xa9fe0000
    || w & 0xfff00000 == 0xac100000
    || w & 0xffffff00 == 0xc0000200
    || w & 0xffff0000 == 0xc0a80000
    || w & 0xffffff00 == 0xc6336400
    || w & 0xffffff00 == 0xcb007100
    || w & 0xf0000000 == 0xe0000000
    || w == 0xffffffff
  }

  /** The octet tests describe exactly the union of the twelve CIDR blocks. */
  lemma RestrictedIsBlockUnion(ip: V4)
    ensures RestrictedV4(ip) <==> InRestrictedBlock(Word(ip))
  {
  }

  /** An address embeds an IPv4 address exactly when it is the mapping of one. */
  lemma MappedIff(ip: V6)
    ensures Mapped(ip).Some? <==> exists v4 :: ip == MapInto(v4)
  {
    if Mapped(ip).Some? {
      WordRoundTrip(ip.s6);
      WordRoundTrip(ip.s7);
      assert ip == MapInto(Mapped(ip).value);
    } else {
      forall v4 ensures ip != MapInto(v4) {
        MapIntoRoundTrip(v4);
      }
    }
  }

  /** Restricted IPv6 addresses that do not embed an IPv4 address are :: and ::1 and those in
      fc00::/7, fe80::/10 and ff00::/8. */
  lemma RestrictedV6Ranges(ip: V6)
    requires forall v4 :: ip != MapInto(v4)
    ensures RestrictedV6(ip) <==>
      || ip == V6(0, 0, 0, 0, 0, 0, 0, 0) || ip == V6(0, 0, 0, 0, 0, 0, 0, 1)
      || 0xfc00 <= ip.s0 <= 0xfdff || 0xfe80 <= ip.s0 <= 0xfebf || 0xff00 <= ip.s0
  {
    MappedIff(ip);
    SegmentRanges(ip.s0);
  }

  lemma WordRoundTrip(s: bv16)
    ensures ((((s >> 8) as bv8) as bv16) << 8) | (((s & 0xff) as bv8) as bv16) == s
  {
  }

  lemma SegmentRanges(s: bv16)
    ensures s & 0xff00 == 0xff00 <==> 0xff00 <= s
    ensures s & 0xfe00 == 0xfc00 <==> 0xfc00 <= s <= 0xfdff
    ensures s & 0xffc0 == 0xfe80 <==> 0xfe80 <= s <= 0xfebf
  {
  }

  // ---------------------------------------------------------------- what the filter guarantees

  /** The IPv6 ranges that are restricted besides the embedded IPv4 ones: :: and ::1, fc00::/7,
      fe80::/10 and ff00::/8. */
  predicate InRestrictedRange(ip: V6) {
    || ip == V6(0, 0, 0, 0, 0, 0, 0, 0) || ip == V6(0, 0, 0, 0, 0, 0, 0, 1)
    || 0xfc00 <= ip.s0 <= 0xfdff || 0xfe80 <= ip.s0 <= 0xfebf || 0xff00 <= ip.s0
  }

  /** `ip` is this IPv4 address, as it is or embedded in an IPv6 address. */
  predicate Spells(ip: Ip, v4: V4) {
    ip == Ip4(v4) || ip == Ip6(MapInto(v4))
  }

  /** The address lies in a restricted range, in either spelling. */
  ghost predicate Internal(ip: Ip) {
    || (exists v4 :: Spells(ip, v4) && InRestrictedBlock(Word(v4)))
    || (ip.Ip6? && (forall v4 :: !Spells(ip, v4)) && InRestrictedRange(ip.v6))
  }

  /** Some network of the allowlist contains the address or the IPv4 address it embeds. */
  ghost predicate Covered(ip: Ip, nets: seq<Network>) {
    exists k :: 0 <= k < |nets| && (nets[k](ip) || exists v4 :: Spells(ip, v4) && nets[k](Ip4(v4)))
  }

  /** What an operator relies on: internal addresses are reached only through the allowlist. */
  ghost predicate Harmless(ip: Ip, nets: seq<Network>) {
    Internal(ip) ==> Covered(ip, nets)
  }

  lemma SpelledOnce(ip: Ip, a: V4, b: V4)
    requires Spells(ip, a) && Spells(ip, b)
    ensures a == b
  {
    MapIntoRoundTrip(a);
    MapIntoRoundTrip(b);
  }

  lemma EmbeddedIsSpelled(ip: V6)
    ensures Mapped(ip).Some? ==> Spells(Ip6(ip), Mapped(ip).value)
    ensures Mapped(ip).None? ==> forall v4 :: !Spells(Ip6(ip), v4)
  {
    MappedIff(ip);
    if Mapped(ip).Some? {
      var v4 :| ip == MapInto(v4);
      MapIntoRoundTrip(v4);
    }
  }

  lemma RestrictedIsInternal(ip: Ip)
    ensures IsRestricted(ip) <==> Internal(ip)
  {
    match ip
    case Ip4(v4) =>
      SpelledIsInternal(ip, v4);
    case Ip6(v6) =>
      EmbeddedIsSpelled(v6);
      if Mapped(v6).Some? {
        SpelledIsInternal(ip, Mapped(v6).value);
      } else {
        forall v4 ensures v6 != MapInto(v4) {
          assert !Spells(ip, v4);
        }
        RestrictedV6Ranges(v6);
      }
  }

  lemma SpelledIsInternal(ip: Ip, v4: V4)
    requires Spells(ip, v4)
    ensures Internal(ip) <==> RestrictedV4(v4)
  {
    RestrictedIsBlockUnion(v4);
    forall other | Spells(ip, other) ensures other == v4 {
      SpelledOnce(ip, other, v4);
    }
  }

  /** The filter passes exactly the addresses that are harmless: it refuses an internal address
      that no network of the allowlist covers, and nothing else. */
  lemma AllowedIff(ip: Ip, nets: seq<Network>)
    ensures IpAllowed(ip, nets) <==> Harmless(ip, nets)
  {
    RestrictedIsInternal(ip);
    if ip.Ip6? {
      EmbeddedIsSpelled(ip.v6);
    } else {
      assert Spells(ip, ip.v4);
    }
    forall a, b | Spells(ip, a) && Spells(ip, b) ensures a == b {
      SpelledOnce(ip, a, b);
    }
  }

  /** Loopback is refused in both spellings unless it is allowlisted; a public address never is. */
  lemma LoopbackNeedsAllowlist(nets: seq<Network>)
    ensures !IpAllowed(Ip4(V4(127, 0, 0, 1)), []) && !IpAllowed(Ip6(MapInto(V4(127, 0, 0, 1))), [])
    ensures !IpAllowed(Ip6(V6(0, 0, 0, 0, 0, 0, 0, 1)), [])
    ensures IpAllowed(Ip4(V4(93, 184, 216, 34)), nets) && IpAllowed(Ip6(MapInto(V4(93, 184, 216, 34))), nets)
  {
    MapIntoRoundTrip(V4(127, 0, 0, 1));
    MapIntoRoundTrip(V4(93, 184, 216, 34));
  }

  /** `is_upstream_allowed`: an IP literal is judged, a host name passes (and is judged again
      when it is resolved). */
  predicate UpstreamAllowed(addr: string, parseIp: string -> Option<Ip>, nets: seq<Network>) {
    match parseIp(SplitHostPort(addr).0)
    case Some(ip) => IpAllowed(ip, nets)
    case None => true
  }

  /** An upstream address is refused exactly when its host part is the literal of an internal
      address outside the allowlist. */
  lemma UpstreamAllowedIff(addr: string, parseIp: string -> Option<Ip>, nets: seq<Network>)
    ensures UpstreamAllowed(addr, parseIp, nets) <==>
      forall ip :: parseIp(SplitHostPort(addr).0) == Some(ip) ==> Harmless(ip, nets)
  {
    if parseIp(SplitHostPort(addr).0).Some? {
      AllowedIff(parseIp(SplitHostPort(addr).0).value, nets);
    }
  }

  /** A literal is judged the same in every printed form, whatever the port. */
  lemma LiteralJudgedInEveryForm(host: string, p: nat, parseIp: string -> Option<Ip>, nets: seq<Network>)
    requires p < 0x1_0000 && ']' !in host
    ensures UpstreamAllowed("[" + host + "]:" + Decimal(p), parseIp, nets) ==
            UpstreamAllowed("[" + host + "]", parseIp, nets)
    ensures Unbracketed(host) && CountChar(host, ':') != 1 ==>
            UpstreamAllowed(host, parseIp, nets) == UpstreamAllowed("[" + host + "]", parseIp, nets)
    ensures Unbracketed(host) && ':' !in host ==>
            UpstreamAllowed(host + ":" + Decimal(p), parseIp, nets) == UpstreamAllowed(host, parseIp, nets)
  {
    SplitUndoesPrinting(host, p);
    if Unbracketed(host) && CountChar(host, ':') != 1 {
      SplitBare(host);
    }
  }
}
