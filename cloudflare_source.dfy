/** The Cloudflare IP-range source: it downloads Cloudflare's two published
    CIDR lists (IPv4 and IPv6), keeps their concatenation as a snapshot in
    the field `ranges`, replaces that snapshot whenever a refresh cycle
    reports success, and serves it to the matcher.  A cycle reports
    success even when a body could not be read to its end: fetch never
    asks the line scanner whether it stopped on an error, so the lines
    that did arrive are taken as the whole list.  The class follows the
    code as written (FetchAsWritten, Cycle); the corrected reading, which
    fails on such bodies, is kept alongside (FetchResult, CorrectedCycle).

    The HTTP exchange is a parameter: a `Network` maps each request (the
    URL and the per-request timeout) to what came back, either nothing
    (connection, TLS or deadline failure) or a reply with a status code, the
    body bytes received and whether reading the body ended in an error. */
module CloudflareSource {
  import opened Wrappers
  import opened NetIP
  import opened LineScanner
  import opened Strings
  import opened Bits

  const IPv4Endpoint: string := "https://www.cloudflare.com/ips-v4"
  const IPv6Endpoint: string := "https://www.cloudflare.com/ips-v6"

  /** The endpoints of one refresh cycle, in the order they are fetched. */
  const Endpoints: seq<string> := [IPv4Endpoint, IPv6Endpoint]

  /** caddy.Duration: a signed 64-bit count of nanoseconds. */
  type Duration = d: int | -0x8000_0000_0000_0000 <= d < 0x8000_0000_0000_0000

  const Second: Duration := 1_000_000_000
  const Hour: Duration := 3600 * Second
  const DefaultTimeout: Duration := 15 * Second

  /** The timeout fetch uses: a zero setting means 15 seconds; any other
      value, negative ones included, is used as it is. */
  function EffectiveTimeout(timeout: Duration): (d: Duration)
    ensures d != 0
    ensures d < 0 <==> timeout < 0
    ensures d == timeout || (timeout == 0 && d == 15 * Second)
  {
    if timeout == 0 then DefaultTimeout else timeout
  }

  datatype Request = Request(url: string, timeout: Duration)

  datatype Response =
    | Unreachable
    | Reply(status: int, body: string, readFailed: bool)

  type Network = Request -> Response

  datatype FetchError =
    | Transport               // the GET itself failed or its deadline passed
    | Malformed(cause: ParseError)  // a body line is not a CIDR prefix
    | ScanFailed              // the body could not be read to its end (corrected reading only)

  /** Two partial results joined: the first error wins, otherwise the
      items of the first followed by those of the second. */
  function Both<T, E>(a: Result<seq<T>, E>, b: Result<seq<T>, E>): (r: Result<seq<T>, E>)
    ensures r.Ok? <==> a.Ok? && b.Ok?
    ensures r.Ok? ==> r.value == a.value + b.value
    ensures a.Err? ==> r == a
    ensures a.Ok? && b.Err? ==> r == b
  {
    match a
    case Err(e) => Err(e)
    case Ok(x) =>
      match b
      case Err(e) => Err(e)
      case Ok(y) => Ok(x + y)
  }

  lemma BothEmpty<T, E>(a: Result<seq<T>, E>)
    ensures Both(a, Ok([])) == a && Both(Ok([]), a) == a
  {
    if a.Ok? {
      assert a.value + [] == a.value && [] + a.value == a.value;
    }
  }

  lemma BothAssociative<T, E>(a: Result<seq<T>, E>, b: Result<seq<T>, E>, c: Result<seq<T>, E>)
    ensures Both(Both(a, b), c) == Both(a, Both(b, c))
  {
    if a.Ok? && b.Ok? && c.Ok? {
      assert (a.value + b.value) + c.value == a.value + (b.value + c.value);
    }
  }

  // ---------------------------------------------------------------------
  // The body-parsing loop of fetch, for any line parser; fetch itself
  // uses NetIP.ParsePrefix.

  /** One body line: an exactly empty line contributes nothing; any other
      line, whitespace-only ones included, goes to the parser. */
  function ParseLine<P, E>(parse: string -> Result<P, E>, line: string): Result<seq<P>, E>
  {
    if line == "" then Ok([])
    else
      match parse(line)
      case Err(e) => Err(e)
      case Ok(p) => Ok([p])
  }

  /** What the loop over the body's lines computes. */
  function ParseLines<P, E>(parse: string -> Result<P, E>, lines: seq<string>): Result<seq<P>, E>
  {
    if lines == [] then Ok([]) else Both(ParseLine(parse, lines[0]), ParseLines(parse, lines[1..]))
  }

  lemma {:induction false} ParseLinesAppend<P, E>(parse: string -> Result<P, E>, xs: seq<string>, ys: seq<string>)
    ensures ParseLines(parse, xs + ys) == Both(ParseLines(parse, xs), ParseLines(parse, ys))
  {
    if xs == [] {
      assert xs + ys == ys;
      match ParseLines(parse, ys)
      case Err(_) =>
      case Ok(v) => assert [] + v == v;
    } else {
      assert (xs + ys)[1..] == xs[1..] + ys;
      ParseLinesAppend(parse, xs[1..], ys);
      BothAssociative(ParseLine(parse, xs[0]), ParseLines(parse, xs[1..]), ParseLines(parse, ys));
    }
  }

  /** The lines the loop does not skip, in order. */
  function NonEmpty(lines: seq<string>): (r: seq<string>)
    ensures |r| <= |lines|
    ensures forall k :: 0 <= k < |r| ==> r[k] != ""
    ensures forall line :: line in r <==> line in lines && line != ""
  {
    if lines == [] then []
    else if lines[0] == "" then NonEmpty(lines[1..])
    else [lines[0]] + NonEmpty(lines[1..])
  }

  /** The loop succeeds exactly when every non-empty line parses. */
  lemma {:induction false} ParseLinesOk<P, E>(parse: string -> Result<P, E>, lines: seq<string>)
    ensures ParseLines(parse, lines).Ok? <==>
      forall k :: 0 <= k < |lines| && lines[k] != "" ==> parse(lines[k]).Ok?
  {
    if lines != [] {
      ParseLinesOk(parse, lines[1..]);
      if ParseLines(parse, lines).Ok? {
        forall k | 0 <= k < |lines| && lines[k] != ""
          ensures parse(lines[k]).Ok?
        {
          if k > 0 {
            assert lines[k] == lines[1..][k - 1];
          }
        }
      } else if lines[0] == "" || parse(lines[0]).Ok? {
        var k :| 0 <= k < |lines[1..]| && lines[1..][k] != "" && !parse(lines[1..][k]).Ok?;
        assert lines[k + 1] == lines[1..][k];
      }
    }
  }

  /** On success the loop yields one value per non-empty line, in line
      order. */
  lemma {:induction false} ParseLinesValues<P, E>(parse: string -> Result<P, E>, lines: seq<string>)
    requires ParseLines(parse, lines).Ok?
    ensures |ParseLines(parse, lines).value| == |NonEmpty(lines)|
    ensures forall k :: 0 <= k < |NonEmpty(lines)| ==>
      parse(NonEmpty(lines)[k]) == Ok(ParseLines(parse, lines).value[k])
  {
    if lines != [] {
      ParseLinesValues(parse, lines[1..]);
      if lines[0] != "" {
        var ps := ParseLines(parse, lines).value;
        var rest := ParseLines(parse, lines[1..]).value;
        assert ps == [parse(lines[0]).value] + rest;
        assert NonEmpty(lines) == [lines[0]] + NonEmpty(lines[1..]);
        forall k | 1 <= k < |ps|
          ensures parse(NonEmpty(lines)[k]) == Ok(ps[k])
        {
          assert ps[k] == rest[k - 1];
          assert NonEmpty(lines)[k] == NonEmpty(lines[1..])[k - 1];
        }
      }
    }
  }

  /** The first non-empty line that does not parse decides the outcome:
      its error is the result, and the values of earlier lines are
      dropped. */
  lemma {:induction false} FirstBadLineAborts<P, E>(parse: string -> Result<P, E>, lines: seq<string>, j: nat)
    requires j < |lines| && lines[j] != "" && parse(lines[j]).Err?
    requires forall k :: 0 <= k < j ==> lines[k] == "" || parse(lines[k]).Ok?
    ensures ParseLines(parse, lines) == Err(parse(lines[j]).error)
  {
    if j > 0 {
      assert forall k :: 0 <= k < j - 1 ==> lines[1..][k] == lines[k + 1];
      FirstBadLineAborts(parse, lines[1..], j - 1);
    }
  }

  /** A body of nothing but empty lines is an empty list, not an error. */
  lemma {:induction false} AllBlankIsEmpty<P, E>(parse: string -> Result<P, E>, lines: seq<string>)
    requires forall k :: 0 <= k < |lines| ==> lines[k] == ""
    ensures ParseLines(parse, lines) == Ok([])
  {
    if lines != [] {
      assert forall k :: 0 <= k < |lines| - 1 ==> lines[1..][k] == lines[k + 1];
      AllBlankIsEmpty(parse, lines[1..]);
    }
  }

  /** The loop itself: lines in order, empty ones skipped, the first
      error returned at once. */
  method ParseBody<P, E>(parse: string -> Result<P, E>, lines: seq<string>) returns (r: Result<seq<P>, E>)
    ensures r == ParseLines(parse, lines)
  {
    var values: seq<P> := [];
    var k := 0;
    while k < |lines|
      invariant 0 <= k <= |lines|
      invariant ParseLines(parse, lines[..k]) == Ok(values)
    {
      var line := lines[k];
      ParseLinesAppend(parse, lines[..k], [line]);
      assert lines[..k + 1] == lines[..k] + [line];
      assert [line][1..] == [];
      BothEmpty(ParseLine(parse, line));
      k := k + 1;
      if line == "" {
        assert values + [] == values;
        continue;
      }
      var parsed := parse(line);
      if parsed.Err? {
        assert lines == lines[..k] + lines[k..];
        ParseLinesAppend(parse, lines[..k], lines[k..]);
        return Err(parsed.error);
      }
      values := values + [parsed.value];
    }
    assert lines[..k] == lines;
    r := Ok(values);
  }

  predicate IsBlank(line: string)
  {
    forall k :: 0 <= k < |line| ==> line[k] == ' ' || line[k] == '\t' || line[k] == '\r'
  }

  /** A line of spaces or tabs is not skipped; it fails to parse, so the
      whole body is rejected. */
  lemma BlankLookingLineRejected(lines: seq<string>, j: nat)
    requires j < |lines| && lines[j] != "" && IsBlank(lines[j])
    ensures ParseLines(ParsePrefix, lines).Err?
  {
    assert '/' !in lines[j];
    ParseLinesOk(ParsePrefix, lines);
  }

  // ---------------------------------------------------------------------
  // One fetch and one cycle

  /** fetch(api) as evidently intended: every line the scanner yields must
      parse, and the scanner must also have reached the end of the body;
      a negative timeout is a deadline already passed. */
  function FetchResult(net: Network, req: Request): Result<seq<Prefix>, FetchError>
  {
    if req.timeout < 0 then Err(Transport)
    else
      match net(req)
      case Unreachable => Err(Transport)
      case Reply(_, body, readFailed) =>
        var scan := ScanLines(body);
        match ParseLines(ParsePrefix, scan.tokens)
        case Err(e) => Err(Malformed(e))
        case Ok(ps) => if readFailed || scan.tooLong then Err(ScanFailed) else Ok(ps)
  }

  /** fetch(api) exactly as written: it never asks the scanner whether it
      stopped on an error, so a body cut short still counts as a success
      with the prefixes of the lines that did arrive.  A negative timeout
      is a deadline already passed. */
  function FetchAsWritten(net: Network, req: Request): (r: Result<seq<Prefix>, FetchError>)
    ensures r == Err(Transport) <==> req.timeout < 0 || net(req).Unreachable?
    ensures r.Err? ==> r.error != ScanFailed
  {
    if req.timeout < 0 then Err(Transport)
    else
      match net(req)
      case Unreachable => Err(Transport)
      case Reply(_, body, _) => ReadBody(body)
  }

  /** The loop over the lines the scanner yields from `body`. */
  function ReadBody(body: string): (r: Result<seq<Prefix>, FetchError>)
    ensures r.Err? ==> r.error.Malformed?
  {
    match ParseLines(ParsePrefix, ScanLines(body).tokens)
    case Err(e) => Err(Malformed(e))
    case Ok(ps) => Ok(ps)
  }

  /** A successful fetch read the whole body and parsed every line of it. */
  lemma FetchSuccessIsWholeBody(net: Network, req: Request)
    requires FetchResult(net, req).Ok?
    ensures req.timeout >= 0 && net(req).Reply?
    ensures !net(req).readFailed && !ScanLines(net(req).body).tooLong
    ensures ParseLines(ParsePrefix, ScanLines(net(req).body).tokens) == Ok(FetchResult(net, req).value)
  {
  }

  /** The status code of a reply plays no part in either reading; as
      written, whether the body read failed plays none either. */
  lemma StatusIgnored(net1: Network, net2: Network, req: Request)
    requires net1(req).Reply? && net2(req).Reply? && net1(req).body == net2(req).body
    ensures FetchAsWritten(net1, req) == FetchAsWritten(net2, req)
    ensures net1(req).readFailed == net2(req).readFailed ==> FetchResult(net1, req) == FetchResult(net2, req)
  {
  }

  /** Where a read error cuts a body inside its last line, the as-written
      fetch parses the fragment that arrived: if the fragment is itself a
      prefix, it is returned as a success. */
  lemma TruncatedBodyAccepted(net: Network, req: Request, fragment: string)
    requires req.timeout >= 0 && net(req).Reply? && net(req).body == fragment && net(req).readFailed
    requires '\n' !in fragment && |fragment| < MaxTokenSize
    requires ParsePrefix(fragment).Ok?
    ensures FetchAsWritten(net, req) == Ok([ParsePrefix(fragment).value])
    ensures FetchResult(net, req) == Err(ScanFailed)
  {
    assert fragment != "";
    assert ScanLines(fragment).tokens == [fragment];
    var p := ParsePrefix(fragment).value;
    assert [fragment][1..] == [];
    assert ParseLine(ParsePrefix, fragment) == Ok([p]);
    BothEmpty(ParseLine(ParsePrefix, fragment));
    assert ParseLines(ParsePrefix, [fragment]) == Ok([p]);
  }

  /** The two readings of fetch differ only on bodies the scanner could
      not read to the end: every success of the corrected reading is a
      success of the as-written one, with the same prefixes. */
  lemma AsWrittenAgreesOnWholeBodies(net: Network, req: Request)
    ensures FetchResult(net, req).Ok? ==> FetchAsWritten(net, req) == FetchResult(net, req)
    ensures (net(req).Reply? && !net(req).readFailed && !ScanLines(net(req).body).tooLong) ==>
      FetchAsWritten(net, req) == FetchResult(net, req)
  {
  }

  lemma FirstLineFragmentText(a: Addr)
    requires a.family == V4 && Octets(a) == [104, 16, 0, 0]
    ensures FormatPrefix(CIDR(a, 1)) == "104.16.0.0/1"
  {
    assert FormatIPv4(a) == Join([DecimalText(104), DecimalText(16), DecimalText(0), DecimalText(0)], '.');
    assert DecimalText(104) == "104";
    assert DecimalText(16) == "16" && DecimalText(0) == "0" && DecimalText(1) == "1";
    assert Join(["104", "16", "0", "0"], '.') == "104.16.0.0";
  }

  lemma FirstLineFragmentIsOneLine(p: Prefix)
    requires p.addr.family == V4 && Octets(p.addr) == [104, 16, 0, 0] && p.length == 1
    ensures '\n' !in FormatPrefix(p) && |FormatPrefix(p)| < MaxTokenSize
  {
    FirstLineFragmentText(p.addr);
  }

  /** Cloudflare's IPv4 list starts with the line "104.16.0.0/13".  When
      reading the body fails after its first twelve bytes, what arrived is
      the text of the range 104.16.0.0/1 (FirstLineFragmentText): the
      as-written fetch returns that range as the whole list, while the
      corrected fetch reports the failure. */
  lemma TruncatedFirstLine(net: Network, req: Request, p: Prefix)
    requires p.addr.family == V4 && Octets(p.addr) == [104, 16, 0, 0] && p.length == 1
    requires req.timeout >= 0 && net(req) == Reply(200, FormatPrefix(p), true)
    ensures FetchAsWritten(net, req) == Ok([p])
    ensures FetchResult(net, req) == Err(ScanFailed)
  {
    FirstLineFragmentIsOneLine(p);
    PrefixRoundTrip(p);
    TruncatedBodyAccepted(net, req, FormatPrefix(p));
  }

  /** The range 104.16.0.0/1 holds addresses far outside Cloudflare's
      network, the private address 10.0.0.1 among them. */
  lemma TruncatedRangeCoversPrivateAddress()
    ensures Contains(CIDR(FromOctets([104, 16, 0, 0]), 1), FromOctets([10, 0, 0, 1]))
  {
    var network, peer := FromOctets([104, 16, 0, 0]), FromOctets([10, 0, 0, 1]);
    assert Pow2(7) == 128;
    TopBitClear(104, 8);
    TopBitClear(10, 8);
    ChunksFirstBit([104, 16, 0, 0], 8);
    ChunksFirstBit([10, 0, 0, 1], 8);
    assert network.bits[..1] == [network.bits[0]] == [peer.bits[0]] == peer.bits[..1];
  }

  /** All endpoints fetched in order with `fetch`, stopping at the first
      failure. */
  function FetchAll<E>(fetch: Request -> Result<seq<Prefix>, E>, apis: seq<string>, deadline: Duration): Result<seq<Prefix>, E>
  {
    if apis == [] then Ok([])
    else Both(fetch(Request(apis[0], deadline)), FetchAll(fetch, apis[1..], deadline))
  }

  /** The requests actually sent: every endpoint up to and including the
      first that fails. */
  function Attempts<E>(fetch: Request -> Result<seq<Prefix>, E>, apis: seq<string>, deadline: Duration): seq<Request>
  {
    if apis == [] then []
    else if fetch(Request(apis[0], deadline)).Err? then [Request(apis[0], deadline)]
    else [Request(apis[0], deadline)] + Attempts(fetch, apis[1..], deadline)
  }

  /** One more endpoint after a successful run of them: its result is
      appended, its request is sent, and if it fails nothing after it is
      requested and its error is the overall result. */
  lemma {:induction false} FetchAllStep<E>(fetch: Request -> Result<seq<Prefix>, E>, apis: seq<string>, k: nat, deadline: Duration)
    requires k < |apis| && FetchAll(fetch, apis[..k], deadline).Ok?
    ensures FetchAll(fetch, apis[..k + 1], deadline) ==
      Both(FetchAll(fetch, apis[..k], deadline), fetch(Request(apis[k], deadline)))
    ensures fetch(Request(apis[k], deadline)).Ok? ==>
      FetchAll(fetch, apis[..k + 1], deadline) ==
      Ok(FetchAll(fetch, apis[..k], deadline).value + fetch(Request(apis[k], deadline)).value)
    ensures fetch(Request(apis[k], deadline)).Err? ==>
      FetchAll(fetch, apis, deadline) == fetch(Request(apis[k], deadline))
    ensures Attempts(fetch, apis[..k + 1], deadline) == Attempts(fetch, apis[..k], deadline) + [Request(apis[k], deadline)]
    ensures fetch(Request(apis[k], deadline)).Err? ==>
      Attempts(fetch, apis, deadline) == Attempts(fetch, apis[..k + 1], deadline)
  {
    if k > 0 {
      assert apis[..k + 1][1..] == apis[1..][..k];
      assert apis[..k][1..] == apis[1..][..k - 1];
      FetchAllStep(fetch, apis[1..], k - 1, deadline);
      BothAssociative(fetch(Request(apis[0], deadline)), FetchAll(fetch, apis[1..][..k - 1], deadline),
        fetch(Request(apis[k], deadline)));
    } else {
      assert apis[..1] == [apis[0]];
      assert apis[..1][1..] == [];
      BothEmpty(fetch(Request(apis[0], deadline)));
    }
  }

  /** Two endpoints, all or nothing: both must succeed, the results come
      in endpoint order, and a failure of the first means the second is
      never requested. */
  lemma TwoEndpoints<E>(fetch: Request -> Result<seq<Prefix>, E>, first: string, second: string, deadline: Duration)
    ensures var a := fetch(Request(first, deadline));
      var b := fetch(Request(second, deadline));
      var all := FetchAll(fetch, [first, second], deadline);
      && (all.Ok? <==> a.Ok? && b.Ok?)
      && (all.Ok? ==> all.value == a.value + b.value)
      && (a.Err? ==> all == a && Attempts(fetch, [first, second], deadline) == [Request(first, deadline)])
      && (a.Ok? ==> Attempts(fetch, [first, second], deadline) == [Request(first, deadline), Request(second, deadline)])
      && (a.Ok? && b.Err? ==> all == b)
  {
    assert [first, second][1..] == [second] && [second][1..] == [];
    BothEmpty(fetch(Request(second, deadline)));
    assert FetchAll(fetch, [second], deadline) == fetch(Request(second, deadline));
    assert Attempts(fetch, [second], deadline) == [Request(second, deadline)];
  }

  /** fetch as written, as a value, for one state of the network. */
  function Fetcher(net: Network): Request -> Result<seq<Prefix>, FetchError>
  {
    req => FetchAsWritten(net, req)
  }

  /** One refresh cycle as written: both of Cloudflare's lists. */
  function Cycle(net: Network, deadline: Duration): Result<seq<Prefix>, FetchError>
  {
    FetchAll(Fetcher(net), Endpoints, deadline)
  }

  /** All or nothing over the two fetches: the cycle succeeds only when
      both fetches do, and then yields the IPv4 list followed by the IPv6
      list; when the IPv4 fetch fails its error is the result and the IPv6
      list is never requested. */
  lemma CycleAllOrNothing(net: Network, deadline: Duration)
    ensures var v4 := FetchAsWritten(net, Request(IPv4Endpoint, deadline));
      var v6 := FetchAsWritten(net, Request(IPv6Endpoint, deadline));
      && (Cycle(net, deadline).Ok? <==> v4.Ok? && v6.Ok?)
      && (Cycle(net, deadline).Ok? ==> Cycle(net, deadline).value == v4.value + v6.value)
      && (v4.Err? ==> Cycle(net, deadline) == Err(v4.error) && Attempts(Fetcher(net), Endpoints, deadline) == [Request(IPv4Endpoint, deadline)])
      && (v4.Ok? ==> Attempts(Fetcher(net), Endpoints, deadline) == [Request(IPv4Endpoint, deadline), Request(IPv6Endpoint, deadline)])
      && (v4.Ok? && v6.Err? ==> Cycle(net, deadline) == Err(v6.error))
  {
    TwoEndpoints(Fetcher(net), IPv4Endpoint, IPv6Endpoint, deadline);
  }

  /** With a negative timeout every request is already past its deadline,
      so no cycle ever succeeds. */
  lemma NegativeTimeoutNeverRefreshes(net: Network, timeout: Duration)
    requires timeout < 0
    ensures Cycle(net, EffectiveTimeout(timeout)) == Err(Transport)
    ensures CorrectedCycle(net, EffectiveTimeout(timeout)) == Err(Transport)
  {
  }

  /** A read failure on the IPv4 body before its first byte: as written
      the IPv4 list counts as empty, so the cycle succeeds with the IPv6
      list alone and a tick installs a snapshot without a single IPv4
      range; the corrected cycle fails and the snapshot is kept. */
  lemma IPv4ReadFailureInstallsIPv6Only(net: Network, deadline: Duration, ranges: seq<Prefix>)
    requires deadline >= 0
    requires net(Request(IPv4Endpoint, deadline)).Reply?
    requires net(Request(IPv4Endpoint, deadline)).body == "" && net(Request(IPv4Endpoint, deadline)).readFailed
    requires FetchAsWritten(net, Request(IPv6Endpoint, deadline)).Ok?
    ensures Install(ranges, Cycle(net, deadline)) == FetchAsWritten(net, Request(IPv6Endpoint, deadline)).value
    ensures CorrectedCycle(net, deadline) == Err(ScanFailed)
    ensures Install(ranges, CorrectedCycle(net, deadline)) == ranges
  {
    var v4 := Request(IPv4Endpoint, deadline);
    assert ScanLines("").tokens == [];
    assert FetchAsWritten(net, v4) == Ok([]);
    assert FetchResult(net, v4) == Err(ScanFailed);
    CycleAllOrNothing(net, deadline);
    CorrectedCycleAllOrNothing(net, deadline);
  }

  /** fetch as evidently intended, as a value. */
  function CorrectedFetcher(net: Network): Request -> Result<seq<Prefix>, FetchError>
  {
    req => FetchResult(net, req)
  }

  /** The refresh cycle as evidently intended: a list that could not be
      read to its end fails the cycle. */
  function CorrectedCycle(net: Network, deadline: Duration): Result<seq<Prefix>, FetchError>
  {
    FetchAll(CorrectedFetcher(net), Endpoints, deadline)
  }

  lemma CorrectedCycleAllOrNothing(net: Network, deadline: Duration)
    ensures var v4 := FetchResult(net, Request(IPv4Endpoint, deadline));
      var v6 := FetchResult(net, Request(IPv6Endpoint, deadline));
      && (CorrectedCycle(net, deadline).Ok? <==> v4.Ok? && v6.Ok?)
      && (CorrectedCycle(net, deadline).Ok? ==> CorrectedCycle(net, deadline).value == v4.value + v6.value)
      && (v4.Err? ==> CorrectedCycle(net, deadline) == Err(v4.error))
      && (v4.Ok? && v6.Err? ==> CorrectedCycle(net, deadline) == Err(v6.error))
  {
    TwoEndpoints(CorrectedFetcher(net), IPv4Endpoint, IPv6Endpoint, deadline);
  }

  /** A corrected cycle succeeds only when both bodies were read to their
      end, and then it agrees with the cycle as written: the two differ
      only where a body was cut short. */
  lemma CorrectedCycleReadsWholeBodies(net: Network, deadline: Duration)
    requires CorrectedCycle(net, deadline).Ok?
    ensures forall api :: api in Endpoints ==>
      net(Request(api, deadline)).Reply? && !net(Request(api, deadline)).readFailed &&
      !ScanLines(net(Request(api, deadline)).body).tooLong
    ensures Cycle(net, deadline) == CorrectedCycle(net, deadline)
  {
    CorrectedCycleAllOrNothing(net, deadline);
    CycleAllOrNothing(net, deadline);
    FetchSuccessIsWholeBody(net, Request(IPv4Endpoint, deadline));
    FetchSuccessIsWholeBody(net, Request(IPv6Endpoint, deadline));
    AsWrittenAgreesOnWholeBodies(net, Request(IPv4Endpoint, deadline));
    AsWrittenAgreesOnWholeBodies(net, Request(IPv6Endpoint, deadline));
  }

  // ---------------------------------------------------------------------
  // The refresh loop

  /** What the loop waits for: a tick of the ticker, with the network as
      it is at that moment, or the cancellation of its context. */
  datatype Event = Tick(net: Network) | Cancelled

  /** The snapshot after a cycle: the new list when the cycle succeeded,
      the previous snapshot untouched when it failed. */
  function Install<E>(ranges: seq<Prefix>, outcome: Result<seq<Prefix>, E>): seq<Prefix>
  {
    match outcome
    case Ok(latest) => latest
    case Err(_) => ranges
  }

  /** The refresh cycle as a value, for a fixed per-request timeout. */
  function Cycles(deadline: Duration): Network -> Result<seq<Prefix>, FetchError>
  {
    net => Cycle(net, deadline)
  }

  /** The snapshot after the loop has handled `events`, each tick running
      `cycle` and cancellation ending the loop. */
  function AfterEvents<E>(cycle: Network -> Result<seq<Prefix>, E>, ranges: seq<Prefix>, events: seq<Event>): seq<Prefix>
    decreases |events|
  {
    if events == [] then ranges
    else
      match events[0]
      case Cancelled => ranges
      case Tick(net) => AfterEvents(cycle, Install(ranges, cycle(net)), events[1..])
  }

  /** Last known good: when every tick's cycle fails, the snapshot the
      loop started with is still the one served. */
  lemma {:induction false} FailedTicksKeepSnapshot<E>(cycle: Network -> Result<seq<Prefix>, E>, ranges: seq<Prefix>, events: seq<Event>)
    requires forall k :: 0 <= k < |events| && events[k].Tick? ==> cycle(events[k].net).Err?
    ensures AfterEvents(cycle, ranges, events) == ranges
    decreases |events|
  {
    if events != [] && events[0].Tick? {
      assert forall k :: 0 <= k < |events| - 1 ==> events[1..][k] == events[k + 1];
      FailedTicksKeepSnapshot(cycle, ranges, events[1..]);
    }
  }

  /** The latest successful tick decides the snapshot, when no
      cancellation comes before it. */
  lemma {:induction false} LatestSuccessWins<E>(cycle: Network -> Result<seq<Prefix>, E>, ranges: seq<Prefix>, events: seq<Event>, i: nat)
    requires i < |events| && events[i].Tick? && cycle(events[i].net).Ok?
    requires forall k :: 0 <= k < i ==> events[k].Tick?
    requires forall k :: i < k < |events| && events[k].Tick? ==> cycle(events[k].net).Err?
    ensures AfterEvents(cycle, ranges, events) == cycle(events[i].net).value
    decreases i
  {
    var next := Install(ranges, cycle(events[0].net));
    assert forall k :: 0 <= k < |events| - 1 ==> events[1..][k] == events[k + 1];
    if i == 0 {
      FailedTicksKeepSnapshot(cycle, next, events[1..]);
    } else {
      LatestSuccessWins(cycle, next, events[1..], i - 1);
    }
  }

  /** What the loop leaves is either the snapshot it started with or the
      complete result of one successful cycle, never a mixture of ticks.
      (With the cycle as written, that result can itself lack a list whose
      body was cut short: IPv4ReadFailureInstallsIPv6Only.) */
  lemma {:induction false} SnapshotIsWholeCycle<E>(cycle: Network -> Result<seq<Prefix>, E>, ranges: seq<Prefix>, events: seq<Event>)
    ensures var after := AfterEvents(cycle, ranges, events);
      after == ranges ||
      exists k :: 0 <= k < |events| && events[k].Tick? && cycle(events[k].net) == Ok(after)
    decreases |events|
  {
    if events != [] && events[0].Tick? {
      var outcome := cycle(events[0].net);
      var next := Install(ranges, outcome);
      SnapshotIsWholeCycle(cycle, next, events[1..]);
      var after := AfterEvents(cycle, next, events[1..]);
      if after != next {
        var k :| 0 <= k < |events[1..]| && events[1..][k].Tick? && cycle(events[1..][k].net) == Ok(after);
        assert events[k + 1] == events[1..][k];
      } else if outcome.Ok? {
        assert cycle(events[0].net) == Ok(after);
      }
    }
  }

  // ---------------------------------------------------------------------
  // The module

  class CloudflareIPRange {
    var interval: Duration
    var timeout: Duration
    var ranges: seq<Prefix>

    constructor (interval: Duration, timeout: Duration)
      ensures this.interval == interval && this.timeout == timeout && ranges == []
    {
      this.interval := interval;
      this.timeout := timeout;
      ranges := [];
    }

    /** fetch(api): one GET, then the body read line by line. */
    method Fetch(net: Network, api: string) returns (r: Result<seq<Prefix>, FetchError>, req: Request)
      ensures req.url == api
      ensures timeout == 0 ==> req.timeout == 15 * Second
      ensures timeout != 0 ==> req.timeout == timeout
      ensures r == FetchAsWritten(net, req)
    {
      var deadline := timeout;
      if deadline == 0 {
        deadline := DefaultTimeout;
      }
      req := Request(api, deadline);
      if deadline < 0 {
        return Err(Transport), req;
      }
      var resp := net(req);
      if resp.Unreachable? {
        return Err(Transport), req;
      }
      var scan := ScanLines(resp.body);
      var parsed := ParseBody(ParsePrefix, scan.tokens);
      if parsed.Err? {
        return Err(Malformed(parsed.error)), req;
      }
      r := Ok(parsed.value);
    }

    /** getPrefixes: both lists, all or nothing; the requests it sent come
        back alongside. */
    method GetPrefixes(net: Network) returns (r: Result<seq<Prefix>, FetchError>, requests: seq<Request>)
      ensures r == Cycle(net, EffectiveTimeout(timeout))
      ensures requests == Attempts(Fetcher(net), Endpoints, EffectiveTimeout(timeout))
      ensures forall k :: 0 <= k < |requests| ==> requests[k].timeout == EffectiveTimeout(timeout)
      ensures r.Ok? <==>
        FetchAsWritten(net, Request(IPv4Endpoint, EffectiveTimeout(timeout))).Ok? &&
        FetchAsWritten(net, Request(IPv6Endpoint, EffectiveTimeout(timeout))).Ok?
      ensures r.Ok? ==> (r.value ==
        FetchAsWritten(net, Request(IPv4Endpoint, EffectiveTimeout(timeout))).value +
        FetchAsWritten(net, Request(IPv6Endpoint, EffectiveTimeout(timeout))).value)
    {
      ghost var deadline := EffectiveTimeout(timeout);
      var apis := [IPv4Endpoint, IPv6Endpoint];
      var full: seq<Prefix> := [];
      requests := [];
      var k := 0;
      CycleAllOrNothing(net, deadline);
      while k < |apis|
        invariant 0 <= k <= |apis|
        invariant FetchAll(Fetcher(net), apis[..k], deadline) == Ok(full)
        invariant requests == Attempts(Fetcher(net), apis[..k], deadline)
      {
        var prefixes, req := Fetch(net, apis[k]);
        assert req == Request(apis[k], deadline);
        assert prefixes == Fetcher(net)(req);
        FetchAllStep(Fetcher(net), apis, k, deadline);
        requests := requests + [req];
        if prefixes.Err? {
          r := Err(prefixes.error);
          return;
        }
        full := full + prefixes.value;
        k := k + 1;
      }
      assert apis[..k] == apis;
      r := Ok(full);
    }

    /** Provision: one cycle at start-up; a failure is logged and the
        snapshot stays as it was, and provisioning itself never fails. */
    method Provision(net: Network) returns (err: Option<FetchError>)
      modifies this`ranges
      ensures err == None
      ensures ranges == Install(old(ranges), Cycle(net, EffectiveTimeout(timeout)))
    {
      var initialRanges, _ := GetPrefixes(net);
      if initialRanges.Ok? {
        ranges := initialRanges.value;
      }
      err := None;
    }

    /** One tick of refreshLoop: a successful cycle replaces the snapshot,
        a failed one leaves it as it was. */
    method Refresh(net: Network) returns (requests: seq<Request>)
      modifies this`ranges
      ensures Cycle(net, EffectiveTimeout(timeout)).Ok? ==> ranges == Cycle(net, EffectiveTimeout(timeout)).value
      ensures Cycle(net, EffectiveTimeout(timeout)).Err? ==> ranges == old(ranges)
      ensures requests == Attempts(Fetcher(net), Endpoints, EffectiveTimeout(timeout))
    {
      var newRanges;
      newRanges, requests := GetPrefixes(net);
      if newRanges.Err? {
        return;
      }
      ranges := newRanges.value;
    }

    /** refreshLoop: default the interval, start the ticker, then handle
        ticks until cancellation.  A negative interval makes
        time.NewTicker panic before any tick. */
    method RefreshLoop(events: seq<Event>) returns (panicked: bool)
      modifies this`interval, this`ranges
      ensures old(interval) == 0 ==> interval == Hour
      ensures old(interval) != 0 ==> interval == old(interval)
      ensures panicked <==> old(interval) < 0
      ensures panicked ==> ranges == old(ranges)
      ensures !panicked ==> ranges == AfterEvents(Cycles(EffectiveTimeout(timeout)), old(ranges), events)
    {
      if interval == 0 {
        interval := Hour;
      }
      if interval <= 0 {
        return true;
      }
      ghost var deadline := EffectiveTimeout(timeout);
      var k := 0;
      while k < |events|
        invariant 0 <= k <= |events|
        invariant interval > 0 && interval == old(if interval == 0 then Hour else interval)
        invariant AfterEvents(Cycles(deadline), old(ranges), events) == AfterEvents(Cycles(deadline), ranges, events[k..])
      {
        assert events[k..][1..] == events[k + 1..];
        match events[k]
        case Cancelled =>
          return false;
        case Tick(net) =>
          var _ := Refresh(net);
        k := k + 1;
      }
      return false;
    }

    /** GetIPRanges: the current snapshot, read without changing anything. */
    method GetIPRanges() returns (r: seq<Prefix>)
      ensures r == ranges
    {
      r := ranges;
    }
  }
}
