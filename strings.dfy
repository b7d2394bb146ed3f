/** Byte-string helpers shared by the parsers: searching for one byte
    (Go's strings.IndexByte / strings.LastIndexByte), strings.Cut, splitting
    on a separator, and decimal and hexadecimal numerals.  A Go string is a
    sequence of bytes; here every `char` stands for one byte. */
module Strings {

  /** Index of the first `c` in `s`, or -1. */
  function IndexOf(s: string, c: char): (i: int)
    ensures -1 <= i < |s|
    ensures i >= 0 ==> s[i] == c && c !in s[..i]
    ensures i < 0 ==> c !in s
  {
    if s == [] then -1
    else if s[0] == c then 0
    else
      var j := IndexOf(s[1..], c);
      if j < 0 then -1
      else
        assert s[..j + 1] == [s[0]] + s[1..][..j];
        j + 1
  }

  /** Index of the last `c` in `s`, or -1. */
  function LastIndexOf(s: string, c: char): (i: int)
    ensures -1 <= i < |s|
    ensures i >= 0 ==> s[i] == c && c !in s[i + 1..]
    ensures i < 0 ==> c !in s
  {
    if s == [] then -1
    else if s[|s| - 1] == c then |s| - 1
    else
      var j := LastIndexOf(s[..|s| - 1], c);
      assert j >= 0 ==> s[j + 1..] == s[..|s| - 1][j + 1..] + [s[|s| - 1]];
      assert s == s[..|s| - 1] + [s[|s| - 1]];
      j
  }

  /** The first `c` of `a + [c] + b` is the one after `a` when `a` holds none. */
  lemma {:induction false} IndexOfAt(a: string, c: char, b: string)
    requires c !in a
    ensures IndexOf(a + [c] + b, c) == |a|
    decreases |a|
  {
    if a != [] {
      assert (a + [c] + b)[1..] == a[1..] + [c] + b;
      IndexOfAt(a[1..], c, b);
    }
  }

  /** The last `c` of `a + [c] + b` is the one before `b` when `b` holds none. */
  lemma {:induction false} LastIndexOfAt(a: string, c: char, b: string)
    requires c !in b
    ensures LastIndexOf(a + [c] + b, c) == |a|
    decreases |b|
  {
    var s := a + [c] + b;
    if b != [] {
      assert s[..|s| - 1] == a + [c] + b[..|b| - 1];
      LastIndexOfAt(a, c, b[..|b| - 1]);
    }
  }

  /** The text before the first `sep` (all of `s` when there is none):
      the first result of Go's strings.Cut. */
  function CutBefore(s: string, sep: char): (r: string)
    ensures sep !in r
    ensures r <= s
    ensures sep !in s ==> r == s
    ensures sep in s ==> |r| < |s| && s[|r|] == sep
  {
    var i := IndexOf(s, sep);
    if i < 0 then s else s[..i]
  }

  /** `s` cut at every `sep`; always at least one field. */
  function Split(s: string, sep: char): (fields: seq<string>)
    ensures |fields| >= 1
    decreases |s|
  {
    var i := IndexOf(s, sep);
    if i < 0 then [s]
    else
      [s[..i]] + Split(s[i + 1..], sep)
  }

  /** The inverse of Split: the fields glued back together with `sep`. */
  function Join(fields: seq<string>, sep: char): string
    requires |fields| >= 1
  {
    if |fields| == 1 then fields[0] else fields[0] + [sep] + Join(fields[1..], sep)
  }

  lemma {:induction false} JoinSplit(s: string, sep: char)
    ensures Join(Split(s, sep), sep) == s
    decreases |s|
  {
    var i := IndexOf(s, sep);
    if i >= 0 {
      var head, tail := s[..i], s[i + 1..];
      var fields := Split(s, sep);
      assert fields == [head] + Split(tail, sep);
      assert fields[1..] == Split(tail, sep);
      JoinSplit(tail, sep);
      assert Join(fields, sep) == head + [sep] + tail;
      assert s == head + [sep] + tail;
    }
  }

  lemma {:induction false} SplitJoin(fields: seq<string>, sep: char)
    requires |fields| >= 1
    requires forall k :: 0 <= k < |fields| ==> sep !in fields[k]
    ensures Split(Join(fields, sep), sep) == fields
  {
    if |fields| > 1 {
      var head, rest := fields[0], Join(fields[1..], sep);
      var s := head + [sep] + rest;
      assert s == Join(fields, sep);
      assert s[..|head|] == head;
      assert s[|head|] == sep;
      assert IndexOf(s, sep) == |head|;
      assert s[|head| + 1..] == rest;
      SplitJoin(fields[1..], sep);
      assert Split(s, sep) == [head] + Split(rest, sep);
    }
  }

  /** Joining keeps a character class: when the separator and every
      character of every field belong to it, so does every character of
      the result. */
  lemma {:induction false} JoinKeeps(fields: seq<string>, sep: char, ok: char -> bool)
    requires |fields| >= 1 && ok(sep)
    requires forall k, j :: 0 <= k < |fields| && 0 <= j < |fields[k]| ==> ok(fields[k][j])
    ensures forall j :: 0 <= j < |Join(fields, sep)| ==> ok(Join(fields, sep)[j])
    decreases |fields|
  {
    if |fields| > 1 {
      assert forall k :: 0 <= k < |fields| - 1 ==> fields[1..][k] == fields[k + 1];
      JoinKeeps(fields[1..], sep, ok);
      var s, rest := Join(fields, sep), Join(fields[1..], sep);
      assert s == fields[0] + [sep] + rest;
      forall j | 0 <= j < |s|
        ensures ok(s[j])
      {
        if j < |fields[0]| {
          assert s[j] == fields[0][j];
        } else if j > |fields[0]| {
          assert s[j] == rest[j - |fields[0]| - 1];
        }
      }
    }
  }

  // ---------------------------------------------------------------------
  // Decimal numerals

  predicate IsDigit(c: char) { '0' <= c <= '9' }

  predicate AllDigits(s: string) { forall k :: 0 <= k < |s| ==> IsDigit(s[k]) }

  /** A decimal numeral without sign, underscores or leading zeros:
      "0" or a non-zero digit followed by digits. */
  predicate IsCanonicalDecimal(s: string)
  {
    |s| > 0 && AllDigits(s) && (s[0] == '0' ==> |s| == 1)
  }

  function DigitValue(c: char): nat
    requires IsDigit(c)
  {
    (c as int) - ('0' as int)
  }

  function DigitChar(d: nat): (c: char)
    requires d < 10
    ensures IsDigit(c) && DigitValue(c) == d
  {
    ('0' as int + d) as char
  }

  /** The value of a digit string, read left to right as val*10 + digit. */
  function DecimalValue(s: string): nat
    requires AllDigits(s)
  {
    if s == [] then 0
    else DecimalValue(s[..|s| - 1]) * 10 + DigitValue(s[|s| - 1])
  }

  /** The canonical decimal numeral of `n` (Go's strconv.Itoa). */
  function DecimalText(n: nat): (s: string)
    ensures IsCanonicalDecimal(s)
  {
    if n < 10 then [DigitChar(n)]
    else
      var s := DecimalText(n / 10) + [DigitChar(n % 10)];
      assert s[0] == DecimalText(n / 10)[0];
      s
  }

  lemma {:induction false} DecimalValueOfText(n: nat)
    ensures DecimalValue(DecimalText(n)) == n
  {
    if n >= 10 {
      DecimalValueOfText(n / 10);
      var s := DecimalText(n);
      assert s[..|s| - 1] == DecimalText(n / 10);
    }
  }

  lemma {:induction false} LeadingNonZero(s: string)
    requires |s| > 0 && AllDigits(s) && s[0] != '0'
    ensures DecimalValue(s) >= 1
  {
    if |s| > 1 {
      LeadingNonZero(s[..|s| - 1]);
    }
  }

  /** A canonical numeral is the text of its own value: reading and
      printing a decimal numeral are mutually inverse. */
  lemma {:induction false} DecimalTextOfValue(s: string)
    requires IsCanonicalDecimal(s)
    ensures DecimalText(DecimalValue(s)) == s
  {
    if |s| > 1 {
      var init := s[..|s| - 1];
      LeadingNonZero(init);
      DecimalTextOfValue(init);
      var v := DecimalValue(s);
      assert v / 10 == DecimalValue(init);
      assert v % 10 == DigitValue(s[|s| - 1]);
      assert s == init + [s[|s| - 1]];
    }
  }

  // ---------------------------------------------------------------------
  // Hexadecimal numerals

  predicate IsHexDigit(c: char)
  {
    '0' <= c <= '9' || 'a' <= c <= 'f' || 'A' <= c <= 'F'
  }

  predicate AllHex(s: string) { forall k :: 0 <= k < |s| ==> IsHexDigit(s[k]) }

  function HexDigitValue(c: char): (v: nat)
    requires IsHexDigit(c)
    ensures v < 16
  {
    if '0' <= c <= '9' then (c as int) - ('0' as int)
    else if 'a' <= c <= 'f' then (c as int) - ('a' as int) + 10
    else (c as int) - ('A' as int) + 10
  }

  function HexDigitChar(d: nat): (c: char)
    requires d < 16
    ensures IsHexDigit(c) && HexDigitValue(c) == d && c != ':' && c != '.'
  {
    if d < 10 then ('0' as int + d) as char else ('a' as int + d - 10) as char
  }

  function HexValue(s: string): nat
    requires AllHex(s)
  {
    if s == [] then 0
    else HexValue(s[..|s| - 1]) * 16 + HexDigitValue(s[|s| - 1])
  }

  /** Lower-case hexadecimal text of `n` without leading zeros. */
  function HexText(n: nat): (s: string)
    ensures |s| >= 1 && AllHex(s)
  {
    if n < 16 then [HexDigitChar(n)]
    else HexText(n / 16) + [HexDigitChar(n % 16)]
  }

  lemma {:induction false} HexValueOfText(n: nat)
    ensures HexValue(HexText(n)) == n
  {
    if n >= 16 {
      HexValueOfText(n / 16);
      var s := HexText(n);
      assert s[..|s| - 1] == HexText(n / 16);
    }
  }

  function Pow(base: nat, e: nat): nat
  {
    if e == 0 then 1 else base * Pow(base, e - 1)
  }

  /** A number below 16^len has at most `len` hexadecimal digits. */
  lemma {:induction false} HexTextShort(n: nat, len: nat)
    requires 1 <= len && n < Pow(16, len)
    ensures |HexText(n)| <= len
  {
    if n >= 16 {
      assert len > 1;
      HexTextShort(n / 16, len - 1);
    }
  }
}
