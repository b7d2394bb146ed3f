/** Go's net.SplitHostPort and its inverse net.JoinHostPort: the port is
    whatever follows the last ':'; a host that itself holds colons (an IPv6
    literal) must be written in brackets. */
module HostPort {
  import opened Wrappers
  import opened Strings

  datatype HostPort = HostPort(host: string, port: string)

  /** net.SplitHostPort.  It fails (None) when there is no ':' at all, when
      an unbracketed host holds a ':', when a '[' is not closed by a ']'
      directly before the last ':', and on a stray '[' or ']'. */
  function SplitHostPort(hostport: string): (r: Option<HostPort>)
    ensures r.Some? ==> ':' !in r.value.port && '[' !in r.value.host && ']' !in r.value.host
    ensures r.Some? ==> |hostport| > 0 && hostport == Bracketed(hostport[0] == '[', r.value.host) + ":" + r.value.port
    ensures r.Some? && hostport[0] != '[' ==> ':' !in r.value.host
  {
    var i := LastIndexOf(hostport, ':');
    if i < 0 then None
    else if hostport[0] == '[' then
      var end := IndexOf(hostport, ']');
      if end < 0 || end + 1 != i then None
      else if '[' in hostport[1..] || ']' in hostport[end + 1..] then None
      else
        assert hostport == "[" + hostport[1..end] + "]" + ":" + hostport[i + 1..];
        assert hostport[1..end] <= hostport[1..];
        Some(HostPort(hostport[1..end], hostport[i + 1..]))
    else
      var host := hostport[..i];
      if ':' in host || '[' in hostport || ']' in hostport then None
      else
        assert hostport == host + ":" + hostport[i + 1..];
        Some(HostPort(host, hostport[i + 1..]))
  }

  function Bracketed(bracket: bool, host: string): string
  {
    if bracket then "[" + host + "]" else host
  }

  /** net.JoinHostPort: brackets around a host that holds a ':'. */
  function JoinHostPort(host: string, port: string): string
  {
    if ':' in host then "[" + host + "]:" + port else host + ":" + port
  }

  /** Splitting undoes joining, for any host and port free of brackets
      whose port holds no ':'. */
  lemma JoinThenSplit(host: string, port: string)
    requires '[' !in host && ']' !in host && '[' !in port && ']' !in port && ':' !in port
    ensures SplitHostPort(JoinHostPort(host, port)) == Some(HostPort(host, port))
  {
    if ':' in host {
      BracketedSplits(host, port);
    } else {
      PlainSplits(host, port);
    }
  }

  lemma PlainSplits(host: string, port: string)
    requires ':' !in host && '[' !in host && ']' !in host && '[' !in port && ']' !in port && ':' !in port
    ensures SplitHostPort(host + ":" + port) == Some(HostPort(host, port))
  {
    var s := host + ":" + port;
    assert s == host + [':'] + port;
    LastIndexOfAt(host, ':', port);
    assert s[0] != '[' by {
      assert s[0] == if host == [] then ':' else host[0];
    }
    assert s[..|host|] == host && s[|host| + 1..] == port;
  }

  lemma BracketedSplits(host: string, port: string)
    requires '[' !in host && ']' !in host && '[' !in port && ']' !in port && ':' !in port
    ensures SplitHostPort("[" + host + "]:" + port) == Some(HostPort(host, port))
  {
    var s := "[" + host + "]:" + port;
    var open := "[" + host;
    assert s == open + [']'] + ([':'] + port);
    assert s == (open + "]") + [':'] + port;
    LastIndexOfAt(open + "]", ':', port);
    IndexOfAt(open, ']', [':'] + port);
    var end := |host| + 1;
    assert s[0] == '[';
    assert s[1..] == host + "]" + [':'] + port;
    assert s[end + 1..] == [':'] + port;
    assert s[1..end] == host && s[end + 2..] == port;
  }
}
