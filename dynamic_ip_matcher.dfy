/** The dynamic_remote_ip request matcher: it reads the client's address
    from the request's RemoteAddr, strips the port and any IPv6 zone, and
    matches when some range of the provider's current snapshot contains
    the address. */
module DynamicIPMatcher {
  import opened Wrappers
  import opened Strings
  import opened NetIP
  import opened HostPort
  import opened CloudflareSource

  // ---------------------------------------------------------------------
  // parseIPZoneFromString

  /** The host part of a remote address: the host net.SplitHostPort finds,
      or the whole text when SplitHostPort rejects it (no port, or an IPv6
      literal without brackets). */
  function PeerHost(address: string): (host: string)
    ensures SplitHostPort(address).None? ==> host == address
    ensures SplitHostPort(address).Some? ==>
      |address| > 0 && ':' !in SplitHostPort(address).value.port &&
      address == Bracketed(address[0] == '[', host) + ":" + SplitHostPort(address).value.port
    ensures ':' !in address ==> host == address
  {
    match SplitHostPort(address)
    case Some(hp) => hp.host
    case None => address
  }

  /** Everything from the first '%' (an IPv6 zone) is cut off, and the
      rest goes to netip.ParseAddr; an error names the text it was given. */
  function ParseHost(host: string): (r: Result<Addr, ParseError>)
    ensures r.Err? ==> r.error == BadAddr(CutBefore(host, '%'))
    ensures r.Ok? ==> ParseAddr(CutBefore(host, '%')) == Some(r.value)
  {
    var text := CutBefore(host, '%');
    match ParseAddr(text)
    case None => Err(BadAddr(text))
    case Some(ip) => Ok(ip)
  }

  /** parseIPZoneFromString: the peer's host, its zone cut off, parsed
      as an IP literal. */
  function ParseIPZoneFromString(address: string): (r: Result<Addr, ParseError>)
    ensures r.Ok? <==> ParseAddr(CutBefore(PeerHost(address), '%')).Some?
    ensures r.Ok? ==> ParseAddr(CutBefore(PeerHost(address), '%')) == Some(r.value)
    ensures r.Err? ==> r.error == BadAddr(CutBefore(PeerHost(address), '%'))
  {
    ParseHost(PeerHost(address))
  }

  /** A port never changes the address: host and port joined the way
      net.JoinHostPort joins them read back as the host alone. */
  lemma PortIgnored(host: string, port: string)
    requires '[' !in host && ']' !in host && '[' !in port && ']' !in port && ':' !in port
    ensures ParseIPZoneFromString(JoinHostPort(host, port)) == ParseHost(host)
  {
    JoinThenSplit(host, port);
  }

  /** A zone never changes the address: whatever follows the first '%' is
      dropped before parsing. */
  lemma ZoneIgnored(host: string, zone: string)
    requires '%' !in host
    ensures ParseHost(host + "%" + zone) == ParseHost(host)
  {
    var s := host + "%" + zone;
    assert s[|host|] == '%';
    var r := CutBefore(s, '%');
    assert |r| == |host|;
    assert s[..|host|] == host;
  }

  /** Text with no ':' has no port, so it is parsed whole. */
  lemma NoColonParsedWhole(address: string)
    requires ':' !in address
    ensures ParseIPZoneFromString(address) == ParseHost(address)
  {
  }

  /** An IPv6 literal without brackets (two or more ':' and no leading
      '[') is not split at its last ':' but parsed whole. */
  lemma BareIPv6ParsedWhole(address: string, i: nat, j: nat)
    requires i < j < |address| && address[i] == ':' && address[j] == ':'
    requires address[0] != '['
    ensures ParseIPZoneFromString(address) == ParseHost(address)
  {
  }

  /** The address a server records for a client (the address printed, a
      ':' and the port, with brackets around an IPv6 address) reads back
      as that address. */
  lemma RemoteAddrRoundTrip(a: Addr, port: string)
    requires AllDigits(port)
    ensures ParseIPZoneFromString(JoinHostPort(FormatAddr(a), port)) == Ok(a)
  {
    FormatAddrChars(a);
    PortIgnored(FormatAddr(a), port);
    AddrRoundTrip(a);
  }

  /** Port and zone together: a zoned host joined with a port reads back
      as the host without its zone. */
  lemma PortAndZoneIgnored(host: string, zone: string, port: string)
    requires '%' !in host
    requires '[' !in host && ']' !in host && '[' !in zone && ']' !in zone
    requires '[' !in port && ']' !in port && ':' !in port
    ensures ParseIPZoneFromString(JoinHostPort(host + "%" + zone, port)) == ParseHost(host)
  {
    PortIgnored(host + "%" + zone, port);
    ZoneIgnored(host, zone);
  }

  /** A host name is not an address: with no '.', ':' or '%' in it, the
      parse fails and names the host, with or without a port. */
  lemma HostNameRejected(name: string, port: string)
    requires forall k :: 0 <= k < |name| ==> !IsSpecial(name[k]) && name[k] != '[' && name[k] != ']'
    requires AllDigits(port)
    ensures ParseIPZoneFromString(name) == Err(BadAddr(name))
    ensures ParseIPZoneFromString(JoinHostPort(name, port)) == Err(BadAddr(name))
  {
    PortIgnored(name, port);
    NoColonParsedWhole(name);
    FirstSpecialSkips(name, []);
    assert name + [] == name;
  }

  // ---------------------------------------------------------------------
  // Matching

  /** Some range of `ranges` contains `ip`. */
  predicate AnyContains(ranges: seq<Prefix>, ip: Addr)
  {
    exists i :: 0 <= i < |ranges| && Contains(ranges[i], ip)
  }

  /** The first range that contains the address ends the scan, so only
      which ranges are present matters, not their order or repetition. */
  lemma MatchIgnoresOrder(xs: seq<Prefix>, ys: seq<Prefix>, ip: Addr)
    requires forall p :: p in xs <==> p in ys
    ensures AnyContains(xs, ip) <==> AnyContains(ys, ip)
  {
    if AnyContains(xs, ip) {
      var i :| 0 <= i < |xs| && Contains(xs[i], ip);
      assert xs[i] in ys;
    }
    if AnyContains(ys, ip) {
      var j :| 0 <= j < |ys| && Contains(ys[j], ip);
      assert ys[j] in xs;
    }
  }

  /** The snapshot is the IPv4 list followed by the IPv6 list: an address
      matches it when it matches either list, and an IPv4 address matches
      it exactly when it matches the IPv4 list, as long as the IPv6 list
      holds IPv6 ranges only. */
  lemma MatchSplitsByList(v4: seq<Prefix>, v6: seq<Prefix>, ip: Addr)
    ensures AnyContains(v4 + v6, ip) <==> AnyContains(v4, ip) || AnyContains(v6, ip)
    ensures ip.family == V4 && (forall k :: 0 <= k < |v6| ==> v6[k].addr.family == V6) ==>
      (AnyContains(v4 + v6, ip) <==> AnyContains(v4, ip))
  {
    var all := v4 + v6;
    if AnyContains(all, ip) {
      var i :| 0 <= i < |all| && Contains(all[i], ip);
      if i < |v4| {
        assert all[i] == v4[i];
      } else {
        assert all[i] == v6[i - |v4|];
      }
    }
    if AnyContains(v4, ip) {
      var i :| 0 <= i < |v4| && Contains(v4[i], ip);
      assert all[i] == v4[i];
    }
    if AnyContains(v6, ip) {
      var i :| 0 <= i < |v6| && Contains(v6[i], ip);
      assert all[|v4| + i] == v6[i];
    }
  }

  /** What the module loader hands back for the configured provider. */
  datatype LoadOutcome = Loaded(source: CloudflareIPRange) | LoadFailed(reason: string)

  class MatchDynamicRemoteIP {
    var providersRaw: Option<string>
    var providers: CloudflareIPRange?

    constructor (providersRaw: Option<string>)
      ensures this.providersRaw == providersRaw && providers == null
    {
      this.providersRaw := providersRaw;
      providers := null;
    }

    /** Provision: with a provider configured, load it; a loading error is
        returned and leaves the matcher without a provider. */
    method Provision(load: string -> LoadOutcome) returns (err: Option<string>)
      modifies this`providers
      ensures providersRaw.None? ==> err == None && providers == old(providers)
      ensures providersRaw.Some? && load(providersRaw.value).LoadFailed? ==>
        err == Some(load(providersRaw.value).reason) && providers == old(providers)
      ensures providersRaw.Some? && load(providersRaw.value).Loaded? ==>
        err == None && providers == load(providersRaw.value).source
    {
      if providersRaw.Some? {
        var val := load(providersRaw.value);
        if val.LoadFailed? {
          return Some(val.reason);
        }
        providers := val.source;
      }
      err := None;
    }

    /** Match: true exactly when the remote address parses, a provider is
        configured and some range of its current snapshot contains the
        address. */
    method Match(remoteAddr: string) returns (matched: bool)
      ensures matched <==>
        ParseIPZoneFromString(remoteAddr).Ok? && providers != null &&
        AnyContains(providers.ranges, ParseIPZoneFromString(remoteAddr).value)
    {
      var remoteIP := ParseIPZoneFromString(remoteAddr);
      if remoteIP.Err? {
        return false;
      }
      if providers == null {
        return false;
      }
      var cidrs := providers.GetIPRanges();
      var k := 0;
      while k < |cidrs|
        invariant 0 <= k <= |cidrs|
        invariant forall j :: 0 <= j < k ==> !Contains(cidrs[j], remoteIP.value)
      {
        if Contains(cidrs[k], remoteIP.value) {
          return true;
        }
        k := k + 1;
      }
      return false;
    }
  }

  /** Last known good, seen from a request: a refresh tick whose cycle
      fails changes no match decision. */
  method MatchAcrossFailedRefresh(m: MatchDynamicRemoteIP, net: Network, remoteAddr: string)
    returns (before: bool, after: bool)
    requires m.providers != null
    requires Cycle(net, EffectiveTimeout(m.providers.timeout)).Err?
    modifies m.providers`ranges
    ensures before == after
  {
    before := m.Match(remoteAddr);
    var _ := m.providers.Refresh(net);
    after := m.Match(remoteAddr);
  }
}
