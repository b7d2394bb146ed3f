/** Go's bufio.Scanner with its default ScanLines split and default buffer
    limit, as `for scanner.Scan() { scanner.Text() }` sees a response
    body: the tokens it yields, and whether it then stopped on a line too
    long for its buffer. */
module LineScanner {
  import opened Strings

  /** bufio.MaxScanTokenSize: a line and its '\n' must fit in this many bytes. */
  const MaxTokenSize: nat := 65536

  /** `data` cut at every '\n'; a final '\n' does not open another line,
      and text after the last '\n' is a line of its own. */
  function RawLines(data: string): (lines: seq<string>)
    ensures forall k :: 0 <= k < |lines| ==> '\n' !in lines[k]
    decreases |data|
  {
    if data == [] then []
    else
      var i := IndexOf(data, '\n');
      if i < 0 then [data]
      else
        var rest := RawLines(data[i + 1..]);
        var lines := [data[..i]] + rest;
        assert forall k :: 1 <= k < |lines| ==> lines[k] == rest[k - 1];
        lines
  }

  /** ScanLines drops one '\r' that ends a line. */
  function DropCR(line: string): string
  {
    if |line| > 0 && line[|line| - 1] == '\r' then line[..|line| - 1] else line
  }

  datatype Scan = Scan(tokens: seq<string>, tooLong: bool)

  /** The tokens of the raw lines up to the first one too long for the
      buffer; scanning stops there with bufio.ErrTooLong. */
  function ScanRaw(raw: seq<string>): (s: Scan)
    ensures |s.tokens| <= |raw|
    ensures forall k :: 0 <= k < |s.tokens| ==> s.tokens[k] == DropCR(raw[k]) && |raw[k]| < MaxTokenSize
    ensures s.tooLong ==> |s.tokens| < |raw| && |raw[|s.tokens|]| >= MaxTokenSize
    ensures !s.tooLong ==> |s.tokens| == |raw|
  {
    if raw == [] then Scan([], false)
    else if |raw[0]| >= MaxTokenSize then Scan([], true)
    else
      var rest := ScanRaw(raw[1..]);
      var tokens := [DropCR(raw[0])] + rest.tokens;
      assert forall k :: 1 <= k < |raw| ==> raw[k] == raw[1..][k - 1];
      assert forall k :: 1 <= k < |tokens| ==> tokens[k] == rest.tokens[k - 1];
      Scan(tokens, rest.tooLong)
  }

  function ScanLines(data: string): Scan
  {
    ScanRaw(RawLines(data))
  }

  /** A body written as lines, each ended by '\n', scans back to exactly
      those lines when none is too long, none holds a '\n' and none ends
      in '\r'. */
  function Unlines(lines: seq<string>): string
  {
    if lines == [] then [] else lines[0] + "\n" + Unlines(lines[1..])
  }

  lemma {:induction false} ScanUnlines(lines: seq<string>)
    requires forall k :: 0 <= k < |lines| ==> '\n' !in lines[k] && |lines[k]| < MaxTokenSize
    requires forall k :: 0 <= k < |lines| ==> lines[k] == [] || lines[k][|lines[k]| - 1] != '\r'
    ensures ScanLines(Unlines(lines)) == Scan(lines, false)
  {
    if lines != [] {
      var data := Unlines(lines);
      var l, rest := lines[0], Unlines(lines[1..]);
      assert data == l + ['\n'] + rest;
      IndexOfAt(l, '\n', rest);
      assert data[..|l|] == l && data[|l| + 1..] == rest;
      assert RawLines(data) == [l] + RawLines(rest);
      ScanUnlines(lines[1..]);
      assert DropCR(l) == l;
      assert ScanRaw([l] + RawLines(rest)).tokens == [l] + ScanRaw(RawLines(rest)).tokens by {
        assert ([l] + RawLines(rest))[1..] == RawLines(rest);
      }
    }
  }
}
