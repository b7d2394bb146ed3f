# caddy-cf in Dafny

A model of the two Caddy plugins of caddy-cf, with proofs about them.

- `CloudflareIPRange` (the `http.ip_sources.cloudflare` module) downloads
  Cloudflare's published CIDR lists, one for IPv4 and one for IPv6. It
  keeps their concatenation as a snapshot and replaces that snapshot
  whenever a refresh cycle reports success; a failed cycle leaves it as it
  was. It serves the snapshot on request. A cycle also reports success
  when a body could not be read to its end: the lines that did arrive are
  taken as the whole list (see Findings).
- `MatchDynamicRemoteIP` (the `http.matchers.dynamic_remote_ip` matcher)
  reads the client's address from a request's `RemoteAddr`. It strips the
  port and any IPv6 zone (section 11 of RFC 4007). It matches when some
  range of the provider's current snapshot contains the address.

Files, one module each:

| file | module | models |
|---|---|---|
| `wrappers.dfy` | `Wrappers` | `Option` and `Result` |
| `strings.dfy` | `Strings` | index search, `strings.Cut`, split/join, decimal and hex numerals |
| `bits.dfy` | `Bits` | big-endian bit strings and their values |
| `netip.dfy` | `NetIP` | `net/netip`: `ParseAddr`, `ParsePrefix`, printing, `Prefix.Contains` |
| `hostport.dfy` | `HostPort` | `net.SplitHostPort` and `net.JoinHostPort` |
| `scanner.dfy` | `LineScanner` | `bufio.Scanner` with the `ScanLines` split and its 64 KiB token limit |
| `cloudflare_source.dfy` | `CloudflareSource` | `plugins/cloudflare_source.go` |
| `dynamic_ip_matcher.dfy` | `DynamicIPMatcher` | `plugins/dynamic_ip_matcher.go` |

An address is a family (IPv4 or IPv6) and a bit string of 32 or 128 bits.
A prefix is an address and a length no larger than the family's width, as
in section 3.1 of RFC 4632 and section 2.3 of RFC 4291. A prefix contains
an address when both are of the same family and the first `length` bits
agree. Text is read the way `net/netip` reads it: dotted quads with no
leading zeros, and IPv6 text as in section 2.2 of RFC 4291, with `::`
and an embedded dotted quad.

The HTTP exchange is a parameter. A `Network` maps a request (URL and
timeout) to `Unreachable` or to a `Reply` with a status code, the body
bytes that arrived, and whether reading the body ended in an error.
`CloudflareIPRange` is a class whose methods update `ranges` (and
`interval`) in place. `Fetch` and `GetPrefixes` are methods proved equal
to the specification functions `FetchAsWritten` and `Cycle`, which follow
the code as written and whose properties are lemmas. The loop over the
body's lines is the method `ParseBody`, proved equal to `ParseLines`;
`GetPrefixes` loops over the two endpoints. The corrected reading of
`fetch` (`FetchResult`, `CorrectedCycle`) is kept alongside for the
finding below. The refresh loop is a method over a finite
sequence of events: ticks, each carrying the network as it is at that
moment, and cancellation. `parseIPZoneFromString` is a function, and
`Match` is a read-only method with a loop.

Durations are defaulted only when they are exactly zero, as the code has
it: a negative timeout is used as it is, so every request is already past
its deadline and no cycle ever succeeds (`NegativeTimeoutNeverRefreshes`);
a negative interval makes `time.NewTicker` panic before the first tick
(`RefreshLoop`).

## Model

| member | source | states |
|---|---|---|
| `CloudflareSource.CloudflareIPRange.constructor` | plugins/cloudflare_source.go:30-38 | a new source holds the configured interval and timeout and an empty snapshot |
| `CloudflareSource.EffectiveTimeout` | plugins/cloudflare_source.go:103-106 | the timeout used is never zero, is negative exactly when the setting is, and is the setting itself unless that was zero, when it is 15 s |
| `CloudflareSource.FetchAsWritten` | plugins/cloudflare_source.go:102-135 | `Transport` exactly when the deadline has already passed or no reply came; never a scan error, whatever happened to the body read |
| `CloudflareSource.ReadBody` | plugins/cloudflare_source.go:121-134 | reading a body fails only with a line that is not a prefix |
| `CloudflareSource.CloudflareIPRange.Fetch` | plugins/cloudflare_source.go:102-135 | the request goes to `api`; its timeout is 15 s when the setting is zero and the setting itself otherwise; the result is `FetchAsWritten` |
| `CloudflareSource.ParseBody` | plugins/cloudflare_source.go:121-134 | the loop over the body's lines computes `ParseLines` |
| `CloudflareSource.ParseLinesAppend` | plugins/cloudflare_source.go:123-133 | parsing two runs of lines one after the other is their join: first error wins, otherwise the values concatenate |
| `CloudflareSource.ParseLinesOk` | plugins/cloudflare_source.go:123-131 | the loop succeeds if and only if every non-empty line parses |
| `CloudflareSource.ParseLinesValues` | plugins/cloudflare_source.go:121-134 | on success there is one value per non-empty line, in line order |
| `CloudflareSource.FirstBadLineAborts` | plugins/cloudflare_source.go:128-131 | the first non-empty line that fails decides the result: its error, with earlier values dropped |
| `CloudflareSource.AllBlankIsEmpty` | plugins/cloudflare_source.go:125-127 | a body of empty lines gives an empty list, not an error |
| `CloudflareSource.BlankLookingLineRejected` | plugins/cloudflare_source.go:124-131 | a line of spaces or tabs is not skipped, so the body is rejected |
| `CloudflareSource.FetchSuccessIsWholeBody` | plugins/cloudflare_source.go:115-134 | a success of the corrected fetch had a reply, read it to the end with no overlong line, and parsed every line |
| `CloudflareSource.StatusIgnored` | plugins/cloudflare_source.go:115-123 | the reply's status code plays no part in either reading; as written, neither does a failed body read |
| `CloudflareSource.TruncatedBodyAccepted` | plugins/cloudflare_source.go:122-134 | as written, a body cut off inside a line whose fragment is itself a prefix is accepted as that prefix |
| `CloudflareSource.AsWrittenAgreesOnWholeBodies` | plugins/cloudflare_source.go:122-134 | the as-written and corrected fetch agree whenever the body was read to its end, and on every corrected success |
| `CloudflareSource.TruncatedFirstLine` | plugins/cloudflare_source.go:122-134 | the cut-off first line "104.16.0.0/1" is returned as the whole list as written, and reported as a failure when corrected |
| `CloudflareSource.TruncatedRangeCoversPrivateAddress` | plugins/cloudflare_source.go:128 | the range 104.16.0.0/1 contains 10.0.0.1 |
| `CloudflareSource.FetchAllStep` | plugins/cloudflare_source.go:92-98 | one more endpoint after a successful run appends its values and its request; its failure is the overall result and nothing after it is requested |
| `CloudflareSource.TwoEndpoints` | plugins/cloudflare_source.go:90-100 | two endpoints combine all or nothing, in order, and a failing first one means the second is never requested |
| `CloudflareSource.CycleAllOrNothing` | plugins/cloudflare_source.go:90-100 | a cycle succeeds if and only if both fetches do, yields the IPv4 list then the IPv6 list, and skips the IPv6 request after an IPv4 failure |
| `CloudflareSource.NegativeTimeoutNeverRefreshes` | plugins/cloudflare_source.go:103-117 | a negative timeout is not defaulted, so every cycle, as written or corrected, fails with a transport error |
| `CloudflareSource.IPv4ReadFailureInstallsIPv6Only` | plugins/cloudflare_source.go:74-99 | as written, an IPv4 body whose read fails before its first byte counts as an empty list, so a tick installs the IPv6 list alone; the corrected cycle fails and keeps the snapshot |
| `CloudflareSource.CorrectedCycleAllOrNothing` | plugins/cloudflare_source.go:90-100 | the corrected cycle is all or nothing over the two corrected fetches, IPv4 list first |
| `CloudflareSource.CorrectedCycleReadsWholeBodies` | plugins/cloudflare_source.go:90-134 | a corrected cycle succeeds only when both bodies were read to their end, and then it equals the cycle as written |
| `CloudflareSource.CloudflareIPRange.GetPrefixes` | plugins/cloudflare_source.go:90-100 | the result is `Cycle`; the requests sent are `Attempts`, all with the effective timeout; success if and only if both as-written fetches succeed, with the IPv4 list first |
| `CloudflareSource.CloudflareIPRange.Provision` | plugins/cloudflare_source.go:47-63 | never an error; the snapshot becomes the cycle's list on success and stays as it was on failure |
| `CloudflareSource.CloudflareIPRange.Refresh` | plugins/cloudflare_source.go:74-82 | a tick replaces the snapshot with the new list on success and leaves it unchanged on failure; nothing else is written |
| `CloudflareSource.CloudflareIPRange.RefreshLoop` | plugins/cloudflare_source.go:65-88 | a zero interval becomes one hour and others stay; a negative interval panics before any tick; otherwise the snapshot is `AfterEvents` of the events |
| `CloudflareSource.FailedTicksKeepSnapshot` | plugins/cloudflare_source.go:74-79 | last known good: if every tick fails, the snapshot is the one the loop started with |
| `CloudflareSource.LatestSuccessWins` | plugins/cloudflare_source.go:72-87 | the snapshot is the list of the latest successful tick |
| `CloudflareSource.SnapshotIsWholeCycle` | plugins/cloudflare_source.go:72-87 | the snapshot is the starting one or the complete result of one successful tick, never a mix of ticks (as written, that result may lack a list whose body was cut short) |
| `CloudflareSource.CloudflareIPRange.GetIPRanges` | plugins/cloudflare_source.go:137-141 | returns the current snapshot and changes nothing |
| `NetIP.ParsePrefix` | plugins/cloudflare_source.go:128 | a failure reports the whole line; a success needs a '/' in the line |
| `NetIP.PrefixRoundTrip` | plugins/cloudflare_source.go:128 | every prefix, printed, parses back to itself |
| `NetIP.IPv4PrefixCanonical` | plugins/cloudflare_source.go:128 | an IPv4 prefix line that parses is the canonical text of its prefix |
| `NetIP.IPv6RoundTrip` | plugins/dynamic_ip_matcher.go:78 | every IPv6 address, printed in full, parses back to itself |
| `NetIP.ParseAddr` | plugins/dynamic_ip_matcher.go:78 | an IPv4 result means the first '.', ':' or '%' of the text is a '.', an IPv6 result that it is a ':' |
| `NetIP.AddrRoundTrip` | plugins/dynamic_ip_matcher.go:78 | every address, printed, parses back to itself |
| `NetIP.Contains` | plugins/dynamic_ip_matcher.go:65 | containment implies the same family; a length-0 prefix contains every address of its family; a prefix contains its own address |
| `NetIP.ContainsIffSameNetwork` | plugins/dynamic_ip_matcher.go:65 | containment is same family and same network after masking to the prefix length |
| `NetIP.CrossFamilyNeverContained` | plugins/dynamic_ip_matcher.go:65 | a prefix never contains an address of the other family |
| `LineScanner.ScanRaw` | plugins/cloudflare_source.go:122-124 | tokens are the raw lines with one trailing '\r' dropped, up to the first line too long for the buffer, where scanning stops |
| `LineScanner.ScanUnlines` | plugins/cloudflare_source.go:122-124 | lines written each with a '\n' scan back to exactly those lines |
| `HostPort.SplitHostPort` | plugins/dynamic_ip_matcher.go:73 | a split gives a port without ':' and a host without brackets, and the address is the host (bracketed when it began with '['), a ':' and the port |
| `HostPort.JoinThenSplit` | plugins/dynamic_ip_matcher.go:73 | splitting undoes joining |
| `Strings.CutBefore` | plugins/dynamic_ip_matcher.go:77 | the text before the first '%': a prefix of the input without '%', the whole input when it has none |
| `DynamicIPMatcher.PeerHost` | plugins/dynamic_ip_matcher.go:73-76 | when the address splits, it is the host (bracketed if it began with '['), a ':' and a port without ':'; otherwise, and whenever it has no ':', the host is the whole address |
| `DynamicIPMatcher.ParseIPZoneFromString` | plugins/dynamic_ip_matcher.go:72-79 | succeeds exactly when the peer host cut at its first '%' is an IP literal, with that address; otherwise an error naming the cut text |
| `DynamicIPMatcher.ParseHost` | plugins/dynamic_ip_matcher.go:77-78 | the address parsed from the text before the first '%', or an error naming that text |
| `DynamicIPMatcher.PortIgnored` | plugins/dynamic_ip_matcher.go:73-78 | a host joined with a port reads as the host alone |
| `DynamicIPMatcher.ZoneIgnored` | plugins/dynamic_ip_matcher.go:77 | a zone never changes the result |
| `DynamicIPMatcher.PortAndZoneIgnored` | plugins/dynamic_ip_matcher.go:72-79 | a zoned host with a port reads as the host without zone or port |
| `DynamicIPMatcher.NoColonParsedWhole` | plugins/dynamic_ip_matcher.go:73-76 | text with no ':' is parsed whole |
| `DynamicIPMatcher.BareIPv6ParsedWhole` | plugins/dynamic_ip_matcher.go:73-76 | unbracketed text with two ':' is parsed whole |
| `DynamicIPMatcher.RemoteAddrRoundTrip` | plugins/dynamic_ip_matcher.go:72-79 | an address printed with a port, as a server records a peer, reads back as that address |
| `DynamicIPMatcher.HostNameRejected` | plugins/dynamic_ip_matcher.go:72-79 | a name without '.', ':' or '%' is an error naming it, with or without a port |
| `DynamicIPMatcher.MatchIgnoresOrder` | plugins/dynamic_ip_matcher.go:63-69 | only which ranges are present decides a match, not their order or repetition |
| `DynamicIPMatcher.MatchSplitsByList` | plugins/dynamic_ip_matcher.go:63-69 | the snapshot matches when either list does; an IPv4 address is judged by the IPv4 list alone when the IPv6 list holds IPv6 ranges only |
| `DynamicIPMatcher.MatchDynamicRemoteIP.constructor` | plugins/dynamic_ip_matcher.go:26-30 | a new matcher has no provider |
| `DynamicIPMatcher.MatchDynamicRemoteIP.Provision` | plugins/dynamic_ip_matcher.go:39-49 | with no provider configured, nothing changes; a loading error is returned and leaves the provider unset; otherwise the loaded source becomes the provider |
| `DynamicIPMatcher.MatchDynamicRemoteIP.Match` | plugins/dynamic_ip_matcher.go:51-70 | true if and only if the address parses, a provider is set and some range of its snapshot contains the address |
| `DynamicIPMatcher.MatchAcrossFailedRefresh` | plugins/dynamic_ip_matcher.go:63-69 | a tick whose cycle fails changes no match decision |

## Left out

- The HTTP request itself (`http.NewRequestWithContext`, `http.DefaultClient.Do`, `context.WithTimeout` on the module's context): a `Network` parameter stands for it. A negative timeout is modelled as a deadline already passed. The fixed URLs never make the request fail to build.
- Cancellation of the module's context while a fetch is under way: it makes `Do` or the body read fail, which the `Network` reply covers.
- The goroutine, `time.Ticker`, the `select` and the `sync.RWMutex`: the refresh loop is a sequential method over a finite list of events, and a tick is atomic. `select` may pick either ready case; the event list fixes one order.
- The panic of `time.NewTicker` on a negative interval is a `panicked` result, not a crash.
- zap logging: side effects only.
- Caddy plumbing: `init`, `CaddyModule`, both `UnmarshalCaddyfile` methods and `main.go`.
- `ctx.LoadModule` is a parameter returning a loaded source or an error. The type assertion to `IPRangeSource` is not modelled: the provider is always a `CloudflareIPRange`.
- Error texts: errors are values (`Transport`, `Malformed`, `BadAddr`, `BadPrefix`) carrying the offending text, not Go's messages. `ScanFailed` is not an error the code returns: only the corrected reading (`FetchResult`) produces it.
- `nil` and empty slices are both the empty sequence.
- `NetIP.ParseAddr` rejects zones. Both call sites behave as in Go: the matcher cuts the zone off first, and `netip.ParsePrefix` rejects zones anyway.
- Printing: IPv6 addresses are printed in full, without the `::` compression of RFC 5952, so the round trips are about that form.
- `LineScanner.ScanRaw`: an unterminated final line of exactly 65536 bytes is treated as too long; the buffer growth of `bufio.Scanner` is not modelled.
- `CloudflareSource.CloudflareIPRange.Provision` does not start the refresh loop; `RefreshLoop` models what that goroutine does.
- Leading zeros in the prefix length ("/08") are rejected, as `netip.ParsePrefix` does in current Go releases.

## Findings

| source | as written | input that shows it | evidently intended | confidence | as-written member | corrected member |
|---|---|---|---|---|---|---|
| plugins/cloudflare_source.go:122-134 | `fetch` never checks `scanner.Err()`; when the body read fails, or a line reaches 64 KiB, scanning stops and the prefixes read so far come back with no error | a reply whose body fails after "104.16.0.0/1", the first 12 bytes of "104.16.0.0/13": `fetch` returns [104.16.0.0/1], a range that holds 10.0.0.1 | a scan that stopped on an error makes `fetch` fail, so the previous snapshot is kept | high (not executed) | `CloudflareSource.TruncatedFirstLine` | `CloudflareSource.FetchSuccessIsWholeBody` |
| plugins/cloudflare_source.go:74-134 | a cycle whose IPv4 body read fails at once still succeeds, with an empty IPv4 list, and the tick installs it | an IPv4 reply whose body read fails before its first byte, and a good IPv6 list: the snapshot becomes the IPv6 list alone, so no IPv4 client matches | the cycle fails and the previous snapshot is kept | high (not executed) | `CloudflareSource.IPv4ReadFailureInstallsIPv6Only` | `CloudflareSource.CorrectedCycleReadsWholeBodies` |
