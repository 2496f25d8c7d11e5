/** What `read_file` returns for a file's content: the empty-file sentinel,
    the offset error, or a page of lines numbered in `cat -n` style. */
module Reader {
  import opened Wrappers
  import opened Text

  /** Longest line content shown; longer lines are cut. */
  const MaxLineLength: nat := 2000

  /** Width of the right-aligned line-number field. */
  const NumberWidth: nat := 6

  const EmptySentinel := "System reminder: File exists but has empty contents"

  function NotFoundMessage(path: string): string
  {
    "Error: File '" + path + "' not found"
  }

  function OffsetMessage(offset: nat, lineCount: nat): string
  {
    "Error: Line offset " + Decimal(offset) + " exceeds file length (" + Decimal(lineCount) + " lines)"
  }

  /** `not content or content.strip() == ""`. */
  predicate IsBlank(content: string)
  {
    content == [] || Strip(content) == []
  }

  /** A line cut to at most `MaxLineLength` characters. */
  function Truncate(line: string): (r: string)
    ensures |r| <= MaxLineLength && |r| <= |line|
    ensures r == line[..|r|]
    ensures |line| <= MaxLineLength ==> r == line
    ensures |r| == if |line| > MaxLineLength then MaxLineLength else |line|
  {
    if |line| > MaxLineLength then line[..MaxLineLength] else line
  }

  /** `f"{number:6d}\t{line}"`. */
  function FormatLine(number: nat, line: string): string
  {
    PadLeft(Decimal(number), NumberWidth) + "\t" + line
  }

  /** The last line index (exclusive) of a page: `min(offset + limit, n)`. */
  function PageEnd(offset: nat, limit: int, lineCount: nat): int
  {
    if offset + limit < lineCount then offset + limit else lineCount
  }

  /** Lines `start .. end - 1`, truncated and numbered from 1; empty when
      `end <= start` (a limit of zero or less). */
  function Page(lines: seq<string>, start: nat, end: int): (page: seq<string>)
    requires start <= |lines| && end <= |lines|
    ensures |page| == if end > start then end - start else 0
  {
    seq(if end > start then end - start else 0,
        k requires 0 <= k < end - start => FormatLine(start + k + 1, Truncate(lines[start + k])))
  }

  /** The text `read_file` returns once the content has been looked up
      (`None` when the path is in neither the workspace nor on disk). */
  function Read(content: Option<string>, path: string, offset: nat, limit: int): string
  {
    match content
    case None => NotFoundMessage(path)
    case Some(c) =>
      if IsBlank(c) then EmptySentinel
      else
        var lines := SplitLines(c);
        if offset >= |lines| then OffsetMessage(offset, |lines|)
        else Join(Page(lines, offset, PageEnd(offset, limit, |lines|)), "\n")
  }

  /** `Read` on content that is not blank: the offset error or a page. */
  lemma ReadNotBlank(c: string, path: string, offset: nat, limit: int)
    requires !IsBlank(c)
    ensures var lines := SplitLines(c);
      Read(Some(c), path, offset, limit) ==
        if offset >= |lines| then OffsetMessage(offset, |lines|)
        else Join(Page(lines, offset, PageEnd(offset, limit, |lines|)), "\n")
  {
  }

  /** Drops the leading spaces of a line. */
  function DropSpaces(s: string): (r: string)
    ensures r == [] || r[0] != ' '
  {
    if s != [] && s[0] == ' ' then DropSpaces(s[1..]) else s
  }

  /** Reads a numbered line back into its number and its content: the
      inverse of `FormatLine`. */
  function ParseNumberedLine(x: string): Option<(nat, string)>
  {
    var rest := DropSpaces(x);
    var k := IndexOf(rest, '\t');
    if k == 0 || k == |rest| || !AllDigits(rest[..k]) then None
    else Some((DecimalValue(rest[..k]), rest[k + 1..]))
  }

  /** Dropping a run of `m` leading spaces that is not followed by another
      space leaves the rest of the text. */
  lemma {:induction false} DropSpacesPadding(x: string, m: nat)
    requires m <= |x| && (m == |x| || x[m] != ' ')
    requires forall i :: 0 <= i < m ==> x[i] == ' '
    ensures DropSpaces(x) == x[m..]
  {
    if m > 0 {
      DropSpacesPadding(x[1..], m - 1);
      assert x[1..][m - 1..] == x[m..];
    }
  }

  /** Parsing a numbered line gives back the number and the content. */
  lemma ParseFormatLine(number: nat, line: string)
    ensures ParseNumberedLine(FormatLine(number, line)) == Some((number, line))
  {
    var d := Decimal(number);
    DropNumberPadding(d, line);
    SplitAtTab(d, line);
    DecimalRoundTrip(number);
  }

  lemma DropNumberPadding(d: string, line: string)
    requires |d| >= 1 && d[0] != ' '
    ensures DropSpaces(PadLeft(d, NumberWidth) + "\t" + line) == d + "\t" + line
  {
    var padded := PadLeft(d, NumberWidth);
    var x := padded + "\t" + line;
    var m := |padded| - |d|;
    assert x[m] == padded[m] == d[0];
    assert x[m..] == padded[m..] + "\t" + line;
    DropSpacesPadding(x, m);
  }

  lemma SplitAtTab(d: string, line: string)
    requires |d| >= 1 && AllDigits(d)
    ensures var rest := d + "\t" + line;
      IndexOf(rest, '\t') == |d| && rest[..|d|] == d && rest[|d| + 1..] == line
  {
    assert '\t' !in d by {
      forall i | 0 <= i < |d| ensures d[i] != '\t' { }
    }
    assert d + "\t" + line == d + ("\t" + line);
    IndexOfPrefix(d, "\t" + line, '\t');
  }

  /** A numbered line of a line without boundaries holds no newline. */
  lemma FormatLineNoNewline(number: nat, line: string)
    requires NoLineBoundary(line)
    ensures '\n' !in FormatLine(number, line)
  {
    var d := Decimal(number);
    var padded := PadLeft(d, NumberWidth);
    var m := |padded| - |d|;
    forall i | 0 <= i < |padded| ensures padded[i] != '\n' {
      if i >= m {
        assert padded[i] == padded[m..][i - m] == d[i - m];
      }
    }
    assert '\n' !in padded;
    assert '\n' !in line by {
      forall i | 0 <= i < |line| ensures line[i] != '\n' {
        assert !IsLineBoundary(line[i]);
      }
    }
  }

  /** A blank file reads as the sentinel, never as empty text. */
  lemma ReadBlank(c: string, path: string, offset: nat, limit: int)
    requires AllWhitespace(c)
    ensures Read(Some(c), path, offset, limit) == EmptySentinel != []
  {
    StripEmptyIffAllWhitespace(c);
  }

  /** On a file that is not blank, `read_file` reports the offset error
      exactly when the offset is at or past the last line. */
  lemma ReadOffsetError(c: string, path: string, offset: nat, limit: int)
    requires !AllWhitespace(c)
    ensures var n := |SplitLines(c)|;
      n >= 1 &&
      (Read(Some(c), path, offset, limit) == OffsetMessage(offset, n) <==> offset >= n)
  {
    StripEmptyIffAllWhitespace(c);
    if offset < |SplitLines(c)| {
      ReadBeforeEnd(c, path, offset, limit);
    } else {
      ReadNotBlank(c, path, offset, limit);
    }
  }

  /** With an offset before the last line, the result is a page. */
  lemma ReadBeforeEnd(c: string, path: string, offset: nat, limit: int)
    requires !IsBlank(c) && offset < |SplitLines(c)|
    ensures Read(Some(c), path, offset, limit) != OffsetMessage(offset, |SplitLines(c)|)
  {
    var lines := SplitLines(c);
    var n := |lines|;
    var page := Page(lines, offset, PageEnd(offset, limit, n));
    ReadNotBlank(c, path, offset, limit);
    PageIsNotOffsetMessage(page, Truncate(lines[offset]), offset, n);
  }

  /** A page never reads as the offset error: it is empty, or it starts with
      a space or a digit of the first line number. */
  lemma PageIsNotOffsetMessage(page: seq<string>, first: string, offset: nat, n: nat)
    requires page != [] ==> page[0] == FormatLine(offset + 1, first)
    ensures Join(page, "\n") != OffsetMessage(offset, n)
  {
    var msg := OffsetMessage(offset, n);
    assert msg[0] == 'E';
    if page != [] {
      var d := Decimal(offset + 1);
      var padded := PadLeft(d, NumberWidth);
      assert Join(page, "\n")[0] == page[0][0] == padded[0];
      assert padded[0] == ' ' || padded[0] == d[0];
    }
  }

  /** A page of a file that is not blank splits back into exactly
      `min(offset + limit, n) - offset` lines. The `k`-th is the number
      `offset + k + 1` right-aligned in a field of `NumberWidth`, a tab, and
      the (truncated) content of line `offset + k`; it parses back to both. */
  lemma ReadPage(c: string, path: string, offset: nat, limit: int)
    requires !AllWhitespace(c)
    requires offset < |SplitLines(c)| && limit >= 1
    ensures var lines := SplitLines(c);
      var out := SplitOn(Read(Some(c), path, offset, limit), '\n');
      && |out| == PageEnd(offset, limit, |lines|) - offset
      && forall k :: 0 <= k < |out| ==>
           && out[k] == PadLeft(Decimal(offset + k + 1), NumberWidth) + "\t" + Truncate(lines[offset + k])
           && ParseNumberedLine(out[k]) == Some((offset + k + 1, Truncate(lines[offset + k])))
  {
    StripEmptyIffAllWhitespace(c);
    var lines := SplitLines(c);
    var end := PageEnd(offset, limit, |lines|);
    var page := Page(lines, offset, end);
    ReadNotBlank(c, path, offset, limit);
    PageHasNoNewline(lines, offset, end);
    SplitOnJoin(page, '\n');
    PageParses(lines, offset, end);
    PageFormat(lines, offset, end);
  }

  lemma PageFormat(lines: seq<string>, start: nat, end: int)
    requires start <= |lines| && end <= |lines|
    ensures var page := Page(lines, start, end);
      forall k :: 0 <= k < |page| ==>
        page[k] == PadLeft(Decimal(start + k + 1), NumberWidth) + "\t" + Truncate(lines[start + k])
  {
    var page := Page(lines, start, end);
    forall k | 0 <= k < |page|
      ensures page[k] == PadLeft(Decimal(start + k + 1), NumberWidth) + "\t" + Truncate(lines[start + k])
    {
      assert page[k] == FormatLine(start + k + 1, Truncate(lines[start + k]));
    }
  }

  lemma PageHasNoNewline(lines: seq<string>, start: nat, end: int)
    requires start <= |lines| && end <= |lines|
    requires forall i :: 0 <= i < |lines| ==> NoLineBoundary(lines[i])
    ensures var page := Page(lines, start, end);
      forall k :: 0 <= k < |page| ==> '\n' !in page[k]
  {
    var page := Page(lines, start, end);
    forall k | 0 <= k < |page| ensures '\n' !in page[k] {
      var line := lines[start + k];
      var t := Truncate(line);
      assert NoLineBoundary(t) by {
        forall i | 0 <= i < |t| ensures !IsLineBoundary(t[i]) {
          assert t[i] == line[i];
        }
      }
      FormatLineNoNewline(start + k + 1, t);
    }
  }

  lemma PageParses(lines: seq<string>, start: nat, end: int)
    requires start <= |lines| && end <= |lines|
    ensures var page := Page(lines, start, end);
      forall k :: 0 <= k < |page| ==>
        ParseNumberedLine(page[k]) == Some((start + k + 1, Truncate(lines[start + k])))
  {
    var page := Page(lines, start, end);
    forall k | 0 <= k < |page|
      ensures ParseNumberedLine(page[k]) == Some((start + k + 1, Truncate(lines[start + k])))
    {
      ParseFormatLine(start + k + 1, Truncate(lines[start + k]));
    }
  }

  /** Write-then-read: reading from the top, with a limit that covers the
      file, a file of newline-terminated lines of at most 2000 characters
      shows every one of those lines, numbered from 1 in a right-aligned
      field of `NumberWidth`. */
  lemma WriteThenRead(lines: seq<string>, path: string, limit: int)
    requires forall i :: 0 <= i < |lines| ==> NoLineBoundary(lines[i]) && |lines[i]| <= MaxLineLength
    requires !AllWhitespace(Terminated(lines))
    requires limit >= |lines|
    ensures var out := SplitOn(Read(Some(Terminated(lines)), path, 0, limit), '\n');
      && |out| == |lines|
      && forall i :: 0 <= i < |lines| ==>
           && out[i] == PadLeft(Decimal(i + 1), NumberWidth) + "\t" + lines[i]
           && ParseNumberedLine(out[i]) == Some((i + 1, lines[i]))
  {
    SplitLinesTerminated(lines);
    ReadWholeFile(Terminated(lines), lines, path, limit);
  }

  /** The same round trip for a file whose last line has no final newline. */
  lemma WriteThenReadUnterminated(lines: seq<string>, path: string, limit: int)
    requires forall i :: 0 <= i < |lines| ==> NoLineBoundary(lines[i]) && |lines[i]| <= MaxLineLength
    requires lines != [] && lines[|lines| - 1] != []
    requires !AllWhitespace(Join(lines, "\n"))
    requires limit >= |lines|
    ensures var out := SplitOn(Read(Some(Join(lines, "\n")), path, 0, limit), '\n');
      && |out| == |lines|
      && forall i :: 0 <= i < |lines| ==>
           && out[i] == PadLeft(Decimal(i + 1), NumberWidth) + "\t" + lines[i]
           && ParseNumberedLine(out[i]) == Some((i + 1, lines[i]))
  {
    SplitLinesJoin(lines);
    ReadWholeFile(Join(lines, "\n"), lines, path, limit);
  }

  /** Reading a whole file whose lines all fit shows each line unchanged. */
  lemma ReadWholeFile(c: string, lines: seq<string>, path: string, limit: int)
    requires SplitLines(c) == lines && !AllWhitespace(c)
    requires forall i :: 0 <= i < |lines| ==> |lines[i]| <= MaxLineLength
    requires limit >= |lines|
    ensures var out := SplitOn(Read(Some(c), path, 0, limit), '\n');
      && |out| == |lines|
      && forall i :: 0 <= i < |lines| ==>
           && out[i] == PadLeft(Decimal(i + 1), NumberWidth) + "\t" + lines[i]
           && ParseNumberedLine(out[i]) == Some((i + 1, lines[i]))
  {
    assert lines != [] by {
      StripEmptyIffAllWhitespace(c);
    }
    ReadPage(c, path, 0, limit);
  }

  /** A limit of zero or less shows an empty page: the empty string. */
  lemma ReadNonPositiveLimit(c: string, path: string, offset: nat, limit: int)
    requires !AllWhitespace(c)
    requires offset < |SplitLines(c)| && limit <= 0
    ensures Read(Some(c), path, offset, limit) == ""
  {
    StripEmptyIffAllWhitespace(c);
    ReadNotBlank(c, path, offset, limit);
  }

  /** The offset-boundary example: a file of five lines `c`. */
  lemma FiveLinesSplit(c: string)
    requires c == "a\nb\nc\nd\ne"
    ensures SplitLines(c) == ["a", "b", "c", "d", "e"]
  {
    var lines := ["a", "b", "c", "d", "e"];
    assert Join(lines[4..], "\n") == "e";
    assert Join(lines[3..], "\n") == "d\ne";
    assert Join(lines[2..], "\n") == "c\nd\ne";
    assert Join(lines[1..], "\n") == "b\nc\nd\ne";
    assert Join(lines, "\n") == c;
    SplitLinesJoin(lines);
  }

  /** The five-line file is not blank: it starts with a letter. */
  lemma FiveLinesNotBlank(c: string)
    requires c == "a\nb\nc\nd\ne"
    ensures !IsBlank(c)
  {
    assert !IsWhitespace(c[0]);
    StripEmptyIffAllWhitespace(c);
  }

  /** Offset 5 on a five-line file is past the end. */
  lemma OffsetPastEndExample(c: string, path: string)
    requires c == "a\nb\nc\nd\ne"
    ensures Read(Some(c), path, 5, 2000) == OffsetMessage(5, 5)
  {
    FiveLinesSplit(c);
    FiveLinesNotBlank(c);
    ReadNotBlank(c, path, 5, 2000);
  }

  /** Offset 4 on a five-line file shows just the fifth line, numbered 5. */
  lemma LastLineExample(c: string, path: string)
    requires c == "a\nb\nc\nd\ne"
    ensures Read(Some(c), path, 4, 10) == "     5\te"
  {
    FiveLinesSplit(c);
    FiveLinesNotBlank(c);
    var lines := ["a", "b", "c", "d", "e"];
    var page := Page(lines, 4, PageEnd(4, 10, 5));
    ReadNotBlank(c, path, 4, 10);
    FifthLine();
    assert page == [FormatLine(5, "e")];
  }

  lemma FifthLine()
    ensures FormatLine(5, "e") == "     5\te"
  {
    assert Decimal(5) == "5";
    assert PadLeft("5", NumberWidth) == "     5";
  }
}
