/** The parts of Go's net/netip that the matcher and the range source rely
    on: parsing an IP literal (ParseAddr), parsing a CIDR prefix
    (ParsePrefix, section 3.1 of RFC 4632 and section 2.3 of RFC 4291) and
    the containment test Prefix.Contains.  An address is its family and its
    bits, most significant first; a prefix is an address and a length no
    larger than the family's width. */
module NetIP {
  import opened Wrappers
  import opened Strings
  import opened Bits

  datatype Family = V4 | V6

  function Width(f: Family): nat
  {
    match f
    case V4 => 32
    case V6 => 128
  }

  datatype IP = IP(family: Family, bits: seq<bool>)

  type Addr = ip: IP | |ip.bits| == Width(ip.family)
    witness IP(V4, seq(32, _ => false))

  datatype CIDR = CIDR(addr: Addr, length: nat)

  type Prefix = p: CIDR | p.length <= Width(p.addr.family)
    witness CIDR(IP(V4, seq(32, _ => false)), 0)

  /** What a failed parse reports: the text it was given. */
  datatype ParseError = BadAddr(text: string) | BadPrefix(text: string)

  lemma Pow2Widths()
    ensures Pow2(8) == 256 && Pow2(16) == 65536
  {
  }

  // ---------------------------------------------------------------------
  // IPv4 (section 2 of RFC 791 dotted quads, as netip reads them)

  /** One dotted-quad field: a canonical decimal numeral (no sign, no
      leading zero) whose value is at most 255. */
  predicate IsOctet(s: string)
  {
    IsCanonicalDecimal(s) && DecimalValue(s) <= 255
  }

  function OctetValues(fields: seq<string>): (vals: seq<nat>)
    requires forall k :: 0 <= k < |fields| ==> IsOctet(fields[k])
    ensures |vals| == |fields| && Below(vals, 256)
    ensures forall k :: 0 <= k < |fields| ==> IsOctet(fields[k]) && vals[k] == DecimalValue(fields[k])
  {
    if fields == [] then []
    else
      assert IsOctet(fields[0]);
      var rest := OctetValues(fields[1..]);
      var vals := [DecimalValue(fields[0])] + rest;
      assert forall k :: 1 <= k < |fields| ==> vals[k] == rest[k - 1] && fields[k] == fields[1..][k - 1];
      vals
  }

  /** The four octets of a dotted quad: exactly four '.'-separated fields,
      each an octet; anything else (an empty field, a fifth field, a sign,
      a leading zero, a value above 255, any other byte) is rejected. */
  function IPv4Octets(s: string): (r: Option<seq<nat>>)
    ensures r.Some? ==> |r.value| == 4 && Below(r.value, 256)
  {
    var fields := Split(s, '.');
    if |fields| == 4 && forall k :: 0 <= k < 4 ==> IsOctet(fields[k]) then Some(OctetValues(fields))
    else None
  }

  function FromOctets(octets: seq<nat>): Addr
    requires |octets| == 4
  {
    IP(V4, Chunks(octets, 8))
  }

  function ParseIPv4(s: string): Option<Addr>
  {
    match IPv4Octets(s)
    case None => None
    case Some(octets) => Some(FromOctets(octets))
  }

  function Octets(a: Addr): (octets: seq<nat>)
    requires a.family == V4
    ensures |octets| == 4 && Below(octets, 256)
  {
    Pow2Widths();
    ChunkValues(a.bits, 8, 4)
  }

  /** Dotted-quad text of an IPv4 address (netip's Addr.String). */
  function FormatIPv4(a: Addr): string
    requires a.family == V4
  {
    var o := Octets(a);
    Join([DecimalText(o[0]), DecimalText(o[1]), DecimalText(o[2]), DecimalText(o[3])], '.')
  }

  /** The numerals of four octets are octet fields free of '.' that read
      back as those octets. */
  lemma TextOctets(o: seq<nat>)
    requires |o| == 4 && Below(o, 256)
    ensures var fields := [DecimalText(o[0]), DecimalText(o[1]), DecimalText(o[2]), DecimalText(o[3])];
      (forall k :: 0 <= k < 4 ==> IsOctet(fields[k]) && '.' !in fields[k]) && OctetValues(fields) == o
  {
    var fields := [DecimalText(o[0]), DecimalText(o[1]), DecimalText(o[2]), DecimalText(o[3])];
    forall k | 0 <= k < 4 ensures IsOctet(fields[k]) && DecimalValue(fields[k]) == o[k] && '.' !in fields[k] {
      var f := DecimalText(o[k]);
      DecimalValueOfText(o[k]);
      assert forall j :: 0 <= j < |f| ==> f[j] != '.';
    }
    var vals := OctetValues(fields);
    assert forall k :: 0 <= k < 4 ==> vals[k] == o[k];
  }

  lemma {:induction false} IPv4RoundTrip(a: Addr)
    requires a.family == V4
    ensures ParseIPv4(FormatIPv4(a)) == Some(a)
  {
    var o := Octets(a);
    var fields := [DecimalText(o[0]), DecimalText(o[1]), DecimalText(o[2]), DecimalText(o[3])];
    var s := FormatIPv4(a);
    TextOctets(o);
    assert Split(s, '.') == fields by {
      SplitJoin(fields, '.');
    }
    assert FromOctets(o) == a by {
      Pow2Widths();
      ChunksOfChunkValues(a.bits, 8, 4);
    }
  }

  lemma OctetsOfFromOctets(o: seq<nat>)
    requires |o| == 4 && Below(o, 256)
    ensures Octets(FromOctets(o)) == o
  {
    Pow2Widths();
    ChunkValuesOfChunks(o, 8);
  }

  /** Each octet field is the numeral of its own value. */
  lemma OctetTexts(fields: seq<string>)
    requires |fields| == 4 && forall k :: 0 <= k < 4 ==> IsOctet(fields[k])
    ensures var o := OctetValues(fields);
      [DecimalText(o[0]), DecimalText(o[1]), DecimalText(o[2]), DecimalText(o[3])] == fields
  {
    var o := OctetValues(fields);
    forall k | 0 <= k < 4 ensures DecimalText(o[k]) == fields[k] {
      DecimalTextOfValue(fields[k]);
    }
  }

  /** Four octet fields print back as themselves once read. */
  lemma FieldsPrintBack(fields: seq<string>)
    requires |fields| == 4 && forall k :: 0 <= k < 4 ==> IsOctet(fields[k])
    ensures FormatIPv4(FromOctets(OctetValues(fields))) == Join(fields, '.')
  {
    var o := OctetValues(fields);
    OctetsOfFromOctets(o);
    OctetTexts(fields);
  }

  /** netip accepts exactly one spelling of each IPv4 address: the text
      that parsed is the text the address prints as. */
  lemma {:induction false} IPv4Canonical(s: string)
    requires ParseIPv4(s).Some?
    ensures FormatIPv4(ParseIPv4(s).value) == s
  {
    var fields := Split(s, '.');
    assert |fields| == 4 && forall k :: 0 <= k < 4 ==> IsOctet(fields[k]);
    assert ParseIPv4(s).value == FromOctets(OctetValues(fields));
    FieldsPrintBack(fields);
    JoinSplit(s, '.');
  }

  // ---------------------------------------------------------------------
  // IPv6 (section 2.2 of RFC 4291: hex groups, one "::", trailing dotted quad)

  /** How many hexadecimal digits `s` starts with, counting at most `limit`. */
  function LeadingHex(s: string, limit: nat): (n: nat)
    ensures n <= limit && n <= |s|
    ensures forall k :: 0 <= k < n ==> IsHexDigit(s[k])
    ensures n < limit && n < |s| ==> !IsHexDigit(s[n])
  {
    if limit == 0 || s == [] || !IsHexDigit(s[0]) then 0
    else 1 + LeadingHex(s[1..], limit - 1)
  }

  /** Where the group loop of netip's parseIPv6 stands: the text still to
      read, the 16-bit groups read so far and the group index at which a
      "::" was seen (-1 when none). */
  datatype V6State = V6State(rest: string, groups: seq<nat>, ellipsis: int)

  predicate GoodState(groups: seq<nat>, ellipsis: int)
  {
    |groups| <= 8 && -1 <= ellipsis <= |groups| && Below(groups, 65536)
  }

  /** The group loop: a run of one to four hex digits, then either the end,
      a ':' and more, a "::" (only once) or, in place of the last two
      groups, a dotted quad. Five hex digits, an empty group, a second "::"
      or a lone trailing ':' fail. */
  function V6Groups(s: string, groups: seq<nat>, ellipsis: int): (r: Option<V6State>)
    requires GoodState(groups, ellipsis)
    ensures r.Some? ==> GoodState(r.value.groups, r.value.ellipsis) && |groups| <= |r.value.groups|
    decreases |s|
  {
    if |groups| == 8 then Some(V6State(s, groups, ellipsis))
    else
      var n := LeadingHex(s, 5);
      if n == 0 || n == 5 then None
      else if n < |s| && s[n] == '.' then
        if ellipsis < 0 && |groups| != 6 then None
        else if |groups| + 2 > 8 then None
        else
          match IPv4Octets(s)
          case None => None
          case Some(o) => Some(V6State("", groups + [o[0] * 256 + o[1], o[2] * 256 + o[3]], ellipsis))
      else
        var gs := groups + [HexValue(s[..n])];
        assert HexValue(s[..n]) < 65536 by {
          HexValueBound(s[..n]);
          SmallHexPowers(n);
        }
        var rest := s[n..];
        if rest == [] then Some(V6State(rest, gs, ellipsis))
        else if rest[0] != ':' || |rest| == 1 then None
        else if rest[1] != ':' then V6Groups(rest[1..], gs, ellipsis)
        else if ellipsis >= 0 then None
        else if |rest| == 2 then Some(V6State("", gs, |gs|))
        else V6Groups(rest[2..], gs, |gs|)
  }

  lemma {:induction false} HexValueBound(s: string)
    requires AllHex(s)
    ensures HexValue(s) < Pow(16, |s|)
  {
    if s != [] {
      HexValueBound(s[..|s| - 1]);
    }
  }

  lemma SmallHexPowers(n: nat)
    requires n <= 4
    ensures Pow(16, n) <= 65536 && Pow(16, 4) == 65536
  {
    assert Pow(16, 1) == 16;
    assert Pow(16, 2) == 256;
    assert Pow(16, 3) == 4096;
  }

  function Zeros(n: nat): (z: seq<nat>)
    ensures |z| == n && Below(z, 1)
  {
    seq(n, _ => 0)
  }

  /** The end of parseIPv6: all text used, and either eight groups and no
      "::", or fewer groups and a "::" that stands for at least one group
      of zeros. */
  function ExpandV6(st: Option<V6State>): Option<Addr>
    requires st.Some? ==> GoodState(st.value.groups, st.value.ellipsis)
  {
    match st
    case None => None
    case Some(V6State(rest, gs, e)) =>
      if rest != [] then None
      else if |gs| < 8 then
        if e < 0 then None
        else Some(FromGroups(gs[..e] + Zeros(8 - |gs|) + gs[e..]))
      else if e >= 0 then None
      else Some(FromGroups(gs))
  }

  function FromGroups(groups: seq<nat>): Addr
    requires |groups| == 8
  {
    IP(V6, Chunks(groups, 16))
  }

  function ParseIPv6(s: string): Option<Addr>
  {
    if |s| >= 2 && s[0] == ':' && s[1] == ':' then
      if |s| == 2 then Some(FromGroups(Zeros(8)))
      else ExpandV6(V6Groups(s[2..], [], 0))
    else ExpandV6(V6Groups(s, [], -1))
  }

  function Groups(a: Addr): (groups: seq<nat>)
    requires a.family == V6
    ensures |groups| == 8 && Below(groups, 65536)
  {
    Pow2Widths();
    ChunkValues(a.bits, 16, 8)
  }

  function HexTexts(groups: seq<nat>): (hs: seq<string>)
    ensures |hs| == |groups|
    ensures forall k :: 0 <= k < |groups| ==> hs[k] == HexText(groups[k])
  {
    if groups == [] then [] else [HexText(groups[0])] + HexTexts(groups[1..])
  }

  /** The eight groups in lower-case hex, without "::" compression. */
  function FormatIPv6(a: Addr): string
    requires a.family == V6
  {
    Join(HexTexts(Groups(a)), ':')
  }

  lemma {:induction false} LeadingHexOf(t: string, rest: string, limit: nat)
    requires AllHex(t) && |t| < limit
    requires rest == [] || !IsHexDigit(rest[0])
    ensures LeadingHex(t + rest, limit) == |t|
  {
    if t != [] {
      assert (t + rest)[1..] == t[1..] + rest;
      LeadingHexOf(t[1..], rest, limit - 1);
    } else {
      assert t + rest == rest;
    }
  }

  /** One full group followed by ':' and more text: the loop records the
      group and carries on after the colon. */
  lemma V6GroupStep(g: nat, tail: string, done: seq<nat>)
    requires g < 65536 && |done| < 8 && Below(done, 65536)
    requires tail != [] && IsHexDigit(tail[0])
    ensures V6Groups(HexText(g) + [':'] + tail, done, -1) == V6Groups(tail, done + [g], -1)
  {
    var h := HexText(g);
    SmallHexPowers(4);
    HexTextShort(g, 4);
    HexValueOfText(g);
    var s := h + [':'] + tail;
    assert s == h + ([':'] + tail);
    LeadingHexOf(h, [':'] + tail, 5);
    assert s[..|h|] == h;
    assert s[|h|..] == [':'] + tail;
    assert s[|h|..][1..] == tail;
  }

  /** The last group, with nothing after it. */
  lemma V6GroupLast(g: nat, done: seq<nat>)
    requires g < 65536 && |done| < 8 && Below(done, 65536)
    ensures V6Groups(HexText(g), done, -1) == Some(V6State("", done + [g], -1))
  {
    var h := HexText(g);
    SmallHexPowers(4);
    HexTextShort(g, 4);
    HexValueOfText(g);
    assert h == h + [];
    LeadingHexOf(h, [], 5);
    assert h[..|h|] == h;
  }

  lemma {:induction false} V6GroupsOfFullText(groups: seq<nat>, k: nat)
    requires |groups| == 8 && k < 8 && Below(groups, 65536)
    ensures V6Groups(Join(HexTexts(groups[k..]), ':'), groups[..k], -1) == Some(V6State("", groups, -1))
    decreases 8 - k
  {
    assert groups[..k] + [groups[k]] == groups[..k + 1];
    if k == 7 {
      assert groups[k..] == [groups[k]];
      assert groups[..k + 1] == groups;
      assert Join(HexTexts(groups[k..]), ':') == HexText(groups[k]);
      V6GroupLast(groups[k], groups[..k]);
    } else {
      assert groups[k..][1..] == groups[k + 1..];
      JoinHexTexts(groups[k..]);
      V6GroupStep(groups[k], Join(HexTexts(groups[k + 1..]), ':'), groups[..k]);
      V6GroupsOfFullText(groups, k + 1);
    }
  }

  lemma JoinHexTexts(todo: seq<nat>)
    requires |todo| >= 2
    ensures Join(HexTexts(todo), ':') == HexText(todo[0]) + [':'] + Join(HexTexts(todo[1..]), ':')
    ensures IsHexDigit(Join(HexTexts(todo[1..]), ':')[0])
  {
    var hs := HexTexts(todo);
    var rest := HexTexts(todo[1..]);
    assert hs[1..] == rest;
    assert rest[0] == HexText(todo[1]);
    JoinStartsWith(rest, ':');
  }

  lemma JoinStartsWith(hs: seq<string>, sep: char)
    requires |hs| >= 1 && |hs[0]| >= 1
    ensures |Join(hs, sep)| >= 1 && Join(hs, sep)[0] == hs[0][0]
  {
  }

  lemma {:induction false} IPv6RoundTrip(a: Addr)
    requires a.family == V6
    ensures ParseIPv6(FormatIPv6(a)) == Some(a)
  {
    var g := Groups(a);
    var s := FormatIPv6(a);
    V6GroupsOfFullText(g, 0);
    assert g[0..] == g && g[..0] == [];
    assert s[0] == HexText(g[0])[0] by {
      assert HexTexts(g)[0] == HexText(g[0]);
      assert s == HexText(g[0]) + [':'] + Join(HexTexts(g)[1..], ':');
    }
    ChunksOfChunkValues(a.bits, 16, 8);
  }

  // ---------------------------------------------------------------------
  // Addresses and prefixes

  predicate IsSpecial(c: char) { c == '.' || c == ':' || c == '%' }

  /** The first '.', ':' or '%' of `s`, or ' ' when it has none: netip's
      ParseAddr picks the IPv4 reader on '.', the IPv6 reader on ':' and
      fails on '%' (a zone with no address) or on none of them. */
  function FirstSpecial(s: string): (c: char)
    ensures c == ' ' || IsSpecial(c)
  {
    if s == [] then ' '
    else if IsSpecial(s[0]) then s[0]
    else FirstSpecial(s[1..])
  }

  /** netip.ParseAddr on text without a zone.  A '%' is rejected here; at
      both places the core calls it that is also Go's outcome (the matcher
      cuts the zone off before parsing, and ParsePrefix refuses zones). */
  function ParseAddr(s: string): (r: Option<Addr>)
    ensures r.Some? && r.value.family == V4 ==> FirstSpecial(s) == '.'
    ensures r.Some? && r.value.family == V6 ==> FirstSpecial(s) == ':'
  {
    var c := FirstSpecial(s);
    if c == '.' then ParseIPv4(s)
    else if c == ':' then ParseIPv6(s)
    else None
  }

  function FormatAddr(a: Addr): string
  {
    if a.family == V4 then FormatIPv4(a) else FormatIPv6(a)
  }

  lemma {:induction false} FirstSpecialSkips(t: string, rest: string)
    requires forall k :: 0 <= k < |t| ==> !IsSpecial(t[k])
    ensures FirstSpecial(t + rest) == FirstSpecial(rest)
  {
    if t != [] {
      assert (t + rest)[1..] == t[1..] + rest;
      FirstSpecialSkips(t[1..], rest);
    } else {
      assert t + rest == rest;
    }
  }

  /** Every address prints as text that ParseAddr reads back as that address. */
  lemma {:induction false} AddrRoundTrip(a: Addr)
    ensures ParseAddr(FormatAddr(a)) == Some(a)
  {
    var s := FormatAddr(a);
    if a.family == V4 {
      var o := Octets(a);
      var d := DecimalText(o[0]);
      assert s == d + (['.'] + Join([DecimalText(o[1]), DecimalText(o[2]), DecimalText(o[3])], '.'));
      FirstSpecialSkips(d, ['.'] + Join([DecimalText(o[1]), DecimalText(o[2]), DecimalText(o[3])], '.'));
      IPv4RoundTrip(a);
    } else {
      var g := Groups(a);
      var h := HexText(g[0]);
      var tail := Join(HexTexts(g)[1..], ':');
      assert HexTexts(g)[0] == h;
      assert s == h + ([':'] + tail);
      FirstSpecialSkips(h, [':'] + tail);
      IPv6RoundTrip(a);
    }
  }

  /** Printed addresses use hex digits, '.' and ':' only, and an IPv4
      address no ':' at all; in particular neither a zone mark '%' nor a
      bracket ever appears. */
  lemma FormatAddrChars(a: Addr)
    ensures forall j :: 0 <= j < |FormatAddr(a)| ==>
      IsHexDigit(FormatAddr(a)[j]) || FormatAddr(a)[j] == '.' || FormatAddr(a)[j] == ':'
    ensures a.family == V4 ==> ':' !in FormatAddr(a)
    ensures '%' !in FormatAddr(a) && '[' !in FormatAddr(a) && ']' !in FormatAddr(a)
  {
    if a.family == V4 {
      var o := Octets(a);
      var fields := [DecimalText(o[0]), DecimalText(o[1]), DecimalText(o[2]), DecimalText(o[3])];
      JoinKeeps(fields, '.', c => IsDigit(c) || c == '.');
    } else {
      JoinKeeps(HexTexts(Groups(a)), ':', c => IsHexDigit(c) || c == ':');
    }
  }

  /** netip.ParsePrefix: the text after the last '/' is the length, a
      canonical decimal numeral (no sign, no leading zero) no larger than
      the family's width; the text before it must be an address without a
      zone.  A failure reports the whole text. */
  function ParsePrefix(s: string): (r: Result<Prefix, ParseError>)
    ensures r.Err? ==> r.error == BadPrefix(s)
    ensures r.Ok? ==> '/' in s
  {
    var i := LastIndexOf(s, '/');
    if i < 0 then Err(BadPrefix(s))
    else
      match ParseAddr(s[..i])
      case None => Err(BadPrefix(s))
      case Some(ip) =>
        var lengthText := s[i + 1..];
        if IsCanonicalDecimal(lengthText) && DecimalValue(lengthText) <= Width(ip.family) then
          Ok(CIDR(ip, DecimalValue(lengthText)))
        else Err(BadPrefix(s))
  }

  /** "address/length", the text netip's Prefix.String produces (with the
      IPv6 address written out in full). */
  function FormatPrefix(p: Prefix): string
  {
    FormatAddr(p.addr) + ['/'] + DecimalText(p.length)
  }

  lemma {:induction false} PrefixRoundTrip(p: Prefix)
    ensures ParsePrefix(FormatPrefix(p)) == Ok(p)
  {
    var a := FormatAddr(p.addr);
    var d := DecimalText(p.length);
    var s := FormatPrefix(p);
    assert '/' !in d;
    assert s[|a|] == '/';
    assert s[|a| + 1..] == d;
    assert LastIndexOf(s, '/') == |a|;
    assert s[..|a|] == a;
    AddrRoundTrip(p.addr);
    DecimalValueOfText(p.length);
  }

  /** What a successful ParsePrefix has read: an address before the last
      '/' and a canonical numeral, the length, after it. */
  lemma ParsePrefixParts(s: string, i: int)
    requires ParsePrefix(s).Ok? && i == LastIndexOf(s, '/')
    ensures 0 <= i < |s|
    ensures ParseAddr(s[..i]) == Some(ParsePrefix(s).value.addr)
    ensures IsCanonicalDecimal(s[i + 1..])
    ensures DecimalValue(s[i + 1..]) == ParsePrefix(s).value.length
  {
  }

  /** Text cut at a '/' into dotted-quad and canonical numeral is the
      printed form of the address and length it denotes. */
  lemma IPv4PrefixText(s: string, i: int, a: Addr, length: nat)
    requires 0 <= i < |s| && s[i] == '/'
    requires ParseIPv4(s[..i]) == Some(a)
    requires IsCanonicalDecimal(s[i + 1..]) && DecimalValue(s[i + 1..]) == length
    ensures a.family == V4 && FormatAddr(a) + ['/'] + DecimalText(length) == s
  {
    var head, tail := s[..i], s[i + 1..];
    assert a.family == V4 && FormatIPv4(a) == head by {
      IPv4Canonical(head);
    }
    assert FormatAddr(a) == head;
    assert DecimalText(length) == tail by {
      DecimalTextOfValue(tail);
    }
    assert s == head + ['/'] + tail;
  }

  /** An IPv4 prefix has one spelling: parsing then printing gives back
      the text. */
  lemma {:induction false} IPv4PrefixCanonical(s: string)
    requires ParsePrefix(s).Ok? && ParsePrefix(s).value.addr.family == V4
    ensures FormatPrefix(ParsePrefix(s).value) == s
  {
    var i := LastIndexOf(s, '/');
    var p := ParsePrefix(s).value;
    ParsePrefixParts(s, i);
    assert FirstSpecial(s[..i]) == '.';
    IPv4PrefixText(s, i, p.addr, p.length);
  }

  // ---------------------------------------------------------------------
  // Containment

  /** netip's Prefix.Contains: same family, and the first `length` bits of
      the address equal those of the prefix. */
  function Contains(p: Prefix, ip: Addr): (r: bool)
    ensures r ==> p.addr.family == ip.family
    ensures p.addr.family == ip.family && p.length == 0 ==> r
    ensures ip == p.addr ==> r
  {
    p.addr.family == ip.family && ip.bits[..p.length] == p.addr.bits[..p.length]
  }

  /** netip's Prefix.Masked: the bits past the length cleared. */
  function Masked(p: Prefix): Prefix
  {
    CIDR(IP(p.addr.family, p.addr.bits[..p.length] + seq(Width(p.addr.family) - p.length, _ => false)), p.length)
  }

  /** An address lies in a prefix exactly when it has the prefix's family
      and masking it to the prefix length gives the prefix's network. */
  lemma ContainsIffSameNetwork(p: Prefix, ip: Addr)
    ensures Contains(p, ip) <==> p.addr.family == ip.family && Masked(CIDR(ip, p.length)) == Masked(p)
  {
    if p.addr.family == ip.family && Masked(CIDR(ip, p.length)) == Masked(p) {
      assert ip.bits[..p.length] == Masked(CIDR(ip, p.length)).addr.bits[..p.length];
      assert p.addr.bits[..p.length] == Masked(p).addr.bits[..p.length];
    }
  }

  /** Containment never crosses families. */
  lemma CrossFamilyNeverContained(p: Prefix, ip: Addr)
    requires p.addr.family != ip.family
    ensures !Contains(p, ip)
  {
  }
}
