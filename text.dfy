/** The Python string operations the file tools rely on: `str.strip`,
    `str.splitlines`, `str.join`, `str.split` on one character, and the
    decimal rendering of an `int` in an f-string, each with the law that
    makes it usable (what it removes, what it round-trips with). */
module Text {

  /** Python's `str.isspace` for one character. */
  predicate IsWhitespace(c: char)
  {
    || c == '\t' || c == '\n' || c == '\U{0B}' || c == '\U{0C}' || c == '\r'
    || ('\U{1C}' <= c <= '\U{1F}') || c == ' ' || c == '\U{85}' || c == '\U{A0}'
    || c == '\U{1680}' || ('\U{2000}' <= c <= '\U{200A}') || c == '\U{2028}'
    || c == '\U{2029}' || c == '\U{202F}' || c == '\U{205F}' || c == '\U{3000}'
  }

  predicate AllWhitespace(s: string)
  {
    forall i :: 0 <= i < |s| ==> IsWhitespace(s[i])
  }

  /** Python's `s.lstrip()`: the suffix left after dropping leading whitespace. */
  function StripLeft(s: string): (r: string)
    ensures |r| <= |s| && r == s[|s| - |r|..]
    ensures forall i :: 0 <= i < |s| - |r| ==> IsWhitespace(s[i])
    ensures r == [] || !IsWhitespace(r[0])
  {
    if s != [] && IsWhitespace(s[0]) then
      var r := StripLeft(s[1..]);
      assert forall i :: 1 <= i < |s| ==> s[i] == s[1..][i - 1];
      r
    else s
  }

  /** Python's `s.rstrip()`: the prefix left after dropping trailing whitespace. */
  function StripRight(s: string): (r: string)
    ensures |r| <= |s| && r == s[..|r|]
    ensures forall i :: |r| <= i < |s| ==> IsWhitespace(s[i])
    ensures r == [] || !IsWhitespace(r[|r| - 1])
  {
    if s != [] && IsWhitespace(s[|s| - 1]) then
      var r := StripRight(s[..|s| - 1]);
      assert forall i :: 0 <= i < |s| - 1 ==> s[i] == s[..|s| - 1][i];
      r
    else s
  }

  /** Python's `s.strip()`. */
  function Strip(s: string): string
  {
    StripRight(StripLeft(s))
  }

  /** `s.strip() == ""` holds exactly when every character is whitespace. */
  lemma StripEmptyIffAllWhitespace(s: string)
    ensures Strip(s) == [] <==> AllWhitespace(s)
  {
    var l := StripLeft(s);
    if !AllWhitespace(s) {
      var i :| 0 <= i < |s| && !IsWhitespace(s[i]);
      assert i >= |s| - |l|;
    }
  }

  /** A character at which Python's `str.splitlines` ends a line. */
  predicate IsLineBoundary(c: char)
  {
    || c == '\n' || c == '\r' || c == '\U{0B}' || c == '\U{0C}'
    || c == '\U{1C}' || c == '\U{1D}' || c == '\U{1E}'
    || c == '\U{85}' || c == '\U{2028}' || c == '\U{2029}'
  }

  predicate NoLineBoundary(s: string)
  {
    forall i :: 0 <= i < |s| ==> !IsLineBoundary(s[i])
  }

  /** Index of the first line boundary in `s`, or `|s|` when there is none. */
  function LineEnd(s: string): (k: nat)
    ensures k <= |s| && NoLineBoundary(s[..k])
    ensures k < |s| ==> IsLineBoundary(s[k])
  {
    if s == [] || IsLineBoundary(s[0]) then 0
    else
      var k := LineEnd(s[1..]);
      assert s[..k + 1] == [s[0]] + s[1..][..k];
      k + 1
  }

  /** Python's `s.splitlines()`: lines without their terminators, `\r\n`
      counting as one terminator, and no empty line after a final terminator. */
  function SplitLines(s: string): (lines: seq<string>)
    ensures forall i :: 0 <= i < |lines| ==> NoLineBoundary(lines[i])
    ensures lines == [] <==> s == []
    decreases |s|
  {
    if s == [] then []
    else
      var k := LineEnd(s);
      if k == |s| then [s]
      else
        var next := if s[k] == '\r' && k + 1 < |s| && s[k + 1] == '\n' then k + 2 else k + 1;
        [s[..k]] + SplitLines(s[next..])
  }

  /** Every line followed by a newline: the usual shape of a text file. */
  function Terminated(lines: seq<string>): string
  {
    if lines == [] then [] else lines[0] + "\n" + Terminated(lines[1..])
  }

  /** Python's `sep.join(parts)`. */
  function Join(parts: seq<string>, sep: string): string
  {
    if |parts| == 0 then []
    else if |parts| == 1 then parts[0]
    else parts[0] + sep + Join(parts[1..], sep)
  }

  /** A line with no boundary followed by `\n` is split off as one line. */
  lemma SplitLinesStep(line: string, rest: string)
    requires NoLineBoundary(line)
    ensures SplitLines(line + "\n" + rest) == [line] + SplitLines(rest)
  {
    var s := line + "\n" + rest;
    LineEndIs(s, |line|);
    assert s[..|line|] == line;
    assert s[|line| + 1..] == rest;
  }

  lemma LineEndIs(s: string, k: nat)
    requires k < |s| && NoLineBoundary(s[..k]) && IsLineBoundary(s[k])
    ensures LineEnd(s) == k
  {
  }

  /** Splitting a file of newline-terminated lines gives back those lines. */
  lemma {:induction false} SplitLinesTerminated(lines: seq<string>)
    requires forall i :: 0 <= i < |lines| ==> NoLineBoundary(lines[i])
    ensures SplitLines(Terminated(lines)) == lines
  {
    if lines != [] {
      SplitLinesTerminated(lines[1..]);
      SplitLinesStep(lines[0], Terminated(lines[1..]));
    }
  }

  /** Splitting lines joined by `\n` gives them back, provided the last line
      is not empty (a trailing empty line is dropped by `splitlines`). */
  lemma {:induction false} SplitLinesJoin(lines: seq<string>)
    requires forall i :: 0 <= i < |lines| ==> NoLineBoundary(lines[i])
    requires lines != [] ==> lines[|lines| - 1] != []
    ensures SplitLines(Join(lines, "\n")) == lines
  {
    if |lines| == 1 {
      assert LineEnd(lines[0]) == |lines[0]|;
    } else if |lines| > 1 {
      SplitLinesJoin(lines[1..]);
      SplitLinesStep(lines[0], Join(lines[1..], "\n"));
    }
  }

  /** Index of the first `c` in `s`, or `|s|` when there is none. */
  function IndexOf(s: string, c: char): (k: nat)
    ensures k <= |s| && c !in s[..k]
    ensures k < |s| ==> s[k] == c
  {
    if s == [] || s[0] == c then 0
    else
      var k := IndexOf(s[1..], c);
      assert s[..k + 1] == [s[0]] + s[1..][..k];
      k + 1
  }

  /** Python's `s.split(c)` for a one-character separator. */
  function SplitOn(s: string, c: char): (parts: seq<string>)
    ensures |parts| >= 1
    decreases |s|
  {
    var k := IndexOf(s, c);
    if k == |s| then [s] else [s[..k]] + SplitOn(s[k + 1..], c)
  }

  /** Splitting on `c` undoes joining with `c`, when no part contains `c`. */
  lemma {:induction false} SplitOnJoin(parts: seq<string>, c: char)
    requires |parts| >= 1
    requires forall i :: 0 <= i < |parts| ==> c !in parts[i]
    ensures SplitOn(Join(parts, [c]), c) == parts
  {
    if |parts| == 1 {
      IndexOfAbsent(parts[0], c);
    } else {
      SplitOnJoin(parts[1..], c);
      SplitOnStep(parts[0], Join(parts[1..], [c]), c);
    }
  }

  /** A part free of `c` followed by `c` is split off as one part. */
  lemma SplitOnStep(part: string, rest: string, c: char)
    requires c !in part
    ensures SplitOn(part + [c] + rest, c) == [part] + SplitOn(rest, c)
  {
    var s := part + [c] + rest;
    IndexOfPrefix(part, [c] + rest, c);
    assert part + [c] + rest == part + ([c] + rest);
    assert s[..|part|] == part;
    assert s[|part| + 1..] == rest;
  }

  lemma IndexOfAbsent(s: string, c: char)
    requires c !in s
    ensures IndexOf(s, c) == |s|
  {
  }

  lemma IndexOfPrefix(s: string, rest: string, c: char)
    requires c !in s && rest != [] && rest[0] == c
    ensures IndexOf(s + rest, c) == |s|
  {
    var t := s + rest;
    assert t[..|s|] == s && t[|s|] == c;
    assert forall i :: 0 <= i < |s| ==> t[..|s|][i] == t[i];
  }

  /** The character for one decimal digit. */
  function DigitChar(d: nat): (c: char)
    requires d < 10
    ensures '0' <= c <= '9'
  {
    ('0' as int + d) as char
  }

  predicate AllDigits(s: string)
  {
    forall i :: 0 <= i < |s| ==> '0' <= s[i] <= '9'
  }

  /** What Python's `str(n)` (and `f"{n}"`) gives for a non-negative `n`:
      decimal digits, with no leading zero. */
  function Decimal(n: nat): (r: string)
    ensures |r| >= 1 && AllDigits(r)
    ensures r[0] == '0' ==> n == 0
  {
    if n < 10 then [DigitChar(n)] else Decimal(n / 10) + [DigitChar(n % 10)]
  }

  /** The number a string of decimal digits denotes. */
  function DecimalValue(s: string): nat
    requires AllDigits(s)
  {
    if s == [] then 0
    else DecimalValue(s[..|s| - 1]) * 10 + (s[|s| - 1] as int - '0' as int)
  }

  /** Reading back a rendered number gives the number. */
  lemma {:induction false} DecimalRoundTrip(n: nat)
    ensures DecimalValue(Decimal(n)) == n
  {
    if n >= 10 {
      DecimalRoundTrip(n / 10);
      var r := Decimal(n);
      assert r[..|r| - 1] == Decimal(n / 10);
    }
  }

  /** Python's `f"{s:>w}"`: `s` right-aligned in a field of width `w`,
      never truncated. */
  function PadLeft(s: string, w: nat): (r: string)
    ensures |r| == if |s| < w then w else |s|
    ensures r[|r| - |s|..] == s
    ensures forall i :: 0 <= i < |r| - |s| ==> r[i] == ' '
  {
    if |s| < w then seq(w - |s|, _ => ' ') + s else s
  }
}
