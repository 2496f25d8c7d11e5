/** Substring search, counting and replacement with the semantics of Python's
    `in`, `str.find`, `str.count` and `str.replace`: occurrences are taken
    left to right and never overlap, and the empty pattern occurs at every
    position (before each character and at the end). */
module Occurrences {

  /** `pat` occurs in `s` starting at index `i`. */
  predicate OccursAt(s: string, pat: string, i: int)
  {
    0 <= i && i + |pat| <= |s| && s[i..i + |pat|] == pat
  }

  /** Python's `pat in s`. */
  predicate Contains(s: string, pat: string)
  {
    exists i :: 0 <= i <= |s| && OccursAt(s, pat, i)
  }

  /** An occurrence at `i + 1` in `s` is an occurrence at `i` in `s[1..]`. */
  lemma OccursAtTail(s: string, pat: string, i: int)
    requires |s| > 0 && i >= 0
    ensures OccursAt(s, pat, i + 1) <==> OccursAt(s[1..], pat, i)
  {
    if 0 <= i && i + 1 + |pat| <= |s| {
      assert s[1..][i..i + |pat|] == s[i + 1..i + 1 + |pat|];
    }
  }

  /** Python's `s.find(pat)`: the leftmost occurrence, or -1. */
  function Find(s: string, pat: string): (i: int)
    ensures i == -1 || OccursAt(s, pat, i)
    ensures i == -1 <==> !Contains(s, pat)
    ensures forall j :: 0 <= j < i ==> !OccursAt(s, pat, j)
    decreases |s|
  {
    if |s| < |pat| then
      assert forall j :: !OccursAt(s, pat, j);
      -1
    else if s[..|pat|] == pat then
      0
    else
      var k := Find(s[1..], pat);
      assert !OccursAt(s, pat, 0);
      assert forall j | j >= 0 :: OccursAt(s, pat, j + 1) <==> OccursAt(s[1..], pat, j) by {
        forall j | j >= 0 ensures OccursAt(s, pat, j + 1) <==> OccursAt(s[1..], pat, j) {
          OccursAtTail(s, pat, j);
        }
      }
      if k < 0 then
        assert forall j :: !OccursAt(s, pat, j) by {
          forall j ensures !OccursAt(s, pat, j) {
            if j > 0 { assert !OccursAt(s[1..], pat, j - 1); }
          }
        }
        -1
      else
        assert forall j :: 0 <= j < k + 1 ==> !OccursAt(s, pat, j) by {
          forall j | 0 < j < k + 1 ensures !OccursAt(s, pat, j) {
            assert !OccursAt(s[1..], pat, j - 1);
          }
        }
        k + 1
  }

  /** Python's `s.count(pat)` for a non-empty pattern: scan left to right and
      resume after each match, so occurrences never overlap. */
  function CountNonEmpty(s: string, pat: string): nat
    requires pat != []
    decreases |s|
  {
    if |s| < |pat| then 0
    else if s[..|pat|] == pat then 1 + CountNonEmpty(s[|pat|..], pat)
    else CountNonEmpty(s[1..], pat)
  }

  /** Python's `s.count(pat)`; the empty pattern is counted `len(s) + 1` times. */
  function Count(s: string, pat: string): nat
  {
    if pat == [] then |s| + 1 else CountNonEmpty(s, pat)
  }

  /** Python's `s.replace(pat, rep)` for a non-empty pattern. */
  function ReplaceAllNonEmpty(s: string, pat: string, rep: string): string
    requires pat != []
    decreases |s|
  {
    if |s| < |pat| then s
    else if s[..|pat|] == pat then rep + ReplaceAllNonEmpty(s[|pat|..], pat, rep)
    else [s[0]] + ReplaceAllNonEmpty(s[1..], pat, rep)
  }

  /** `rep` before every character of `s` and once at the end: what Python's
      `s.replace("", rep)` produces. */
  function Interleave(s: string, rep: string): string
  {
    if s == [] then rep else rep + [s[0]] + Interleave(s[1..], rep)
  }

  /** Python's `s.replace(pat, rep)`. */
  function ReplaceAll(s: string, pat: string, rep: string): string
  {
    if pat == [] then Interleave(s, rep) else ReplaceAllNonEmpty(s, pat, rep)
  }

  /** Python's `s.replace(pat, rep, 1)`. */
  function ReplaceFirst(s: string, pat: string, rep: string): string
    decreases |s|
  {
    if pat == [] then rep + s
    else if |s| < |pat| then s
    else if s[..|pat|] == pat then rep + s[|pat|..]
    else [s[0]] + ReplaceFirst(s[1..], pat, rep)
  }

  /** `pat` is found exactly when it is counted at least once. */
  lemma {:induction false} CountPositiveIffContains(s: string, pat: string)
    ensures Count(s, pat) > 0 <==> Contains(s, pat)
    decreases |s|
  {
    if pat == [] {
      assert OccursAt(s, pat, 0);
    } else if |s| < |pat| {
      assert Find(s, pat) == -1;
    } else if s[..|pat|] == pat {
      assert OccursAt(s, pat, 0);
    } else {
      CountPositiveIffContains(s[1..], pat);
      assert Find(s, pat) == -1 <==> Find(s[1..], pat) == -1;
    }
  }

  /** Replacing the first occurrence splices `rep` in at the leftmost match
      and keeps everything around it; with no match the string is unchanged. */
  lemma {:induction false} ReplaceFirstSplices(s: string, pat: string, rep: string)
    ensures ReplaceFirst(s, pat, rep) ==
      var i := Find(s, pat);
      if i < 0 then s else s[..i] + rep + s[i + |pat|..]
    decreases |s|
  {
    if pat == [] || |s| < |pat| || s[..|pat|] == pat {
      ReplaceFirstAtStart(s, pat, rep);
    } else {
      ReplaceFirstSplices(s[1..], pat, rep);
      var k := Find(s[1..], pat);
      ReplaceFirstStep(s, pat, rep, k);
      FindStep(s, pat);
    }
  }

  /** The cases of ReplaceFirstSplices decided at the first position. */
  lemma ReplaceFirstAtStart(s: string, pat: string, rep: string)
    requires pat == [] || |s| < |pat| || s[..|pat|] == pat
    ensures ReplaceFirst(s, pat, rep) ==
      var i := Find(s, pat);
      if i < 0 then s else s[..i] + rep + s[i + |pat|..]
  {
    if pat == [] || |s| >= |pat| {
      assert Find(s, pat) == 0;
      assert s[..0] == [];
    }
  }

  /** With no match at the first position, `find` looks one further. */
  lemma FindStep(s: string, pat: string)
    requires pat != [] && |s| >= |pat| && s[..|pat|] != pat
    ensures Find(s, pat) == var k := Find(s[1..], pat); if k < 0 then -1 else k + 1
  {
  }

  /** One step of ReplaceFirstSplices: no match at 0, so the leftmost match
      of `s` is one past the leftmost match of `s[1..]`. */
  lemma ReplaceFirstStep(s: string, pat: string, rep: string, k: int)
    requires pat != [] && |s| >= |pat| && s[..|pat|] != pat
    requires k == -1 || OccursAt(s[1..], pat, k)
    requires ReplaceFirst(s[1..], pat, rep) ==
      if k < 0 then s[1..] else s[1..][..k] + rep + s[1..][k + |pat|..]
    ensures ReplaceFirst(s, pat, rep) ==
      if k < 0 then s else s[..k + 1] + rep + s[k + 1 + |pat|..]
  {
    var tail := s[1..];
    assert ReplaceFirst(s, pat, rep) == [s[0]] + ReplaceFirst(tail, pat, rep);
    if k >= 0 {
      assert OccursAt(tail, pat, k);
      var before, after := tail[..k], tail[k + |pat|..];
      assert [s[0]] + before == s[..k + 1];
      assert after == s[k + 1 + |pat|..];
      assert [s[0]] + (before + rep + after) == ([s[0]] + before) + rep + after;
    } else {
      assert [s[0]] + tail == s;
    }
  }

  /** With no occurrence, replace-all is the identity. */
  lemma {:induction false} ReplaceAllNoMatch(s: string, pat: string, rep: string)
    requires Count(s, pat) == 0
    ensures ReplaceAll(s, pat, rep) == s
    decreases |s|
  {
    if |s| >= |pat| {
      assert s[..|pat|] != pat;
      ReplaceAllNoMatch(s[1..], pat, rep);
      assert [s[0]] + s[1..] == s;
    }
  }

  /** When the pattern is counted once (non-overlapping), replace-all and replace-first agree. */
  lemma {:induction false} ReplaceAllSingleIsReplaceFirst(s: string, pat: string, rep: string)
    requires Count(s, pat) == 1
    ensures ReplaceAll(s, pat, rep) == ReplaceFirst(s, pat, rep)
    decreases |s|
  {
    if pat == [] {
      assert s == [];
    } else if s[..|pat|] == pat {
      ReplaceAllNoMatch(s[|pat|..], pat, rep);
    } else {
      ReplaceAllSingleIsReplaceFirst(s[1..], pat, rep);
    }
  }

  lemma {:induction false} InterleaveLength(s: string, rep: string)
    ensures |Interleave(s, rep)| == |s| + (|s| + 1) * |rep|
  {
    if s != [] {
      InterleaveLength(s[1..], rep);
    }
  }

  /** Each replacement changes the length by `|rep| - |pat|`. */
  lemma {:induction false} ReplaceAllLength(s: string, pat: string, rep: string)
    ensures |ReplaceAll(s, pat, rep)| == |s| + Count(s, pat) * (|rep| - |pat|)
    decreases |s|
  {
    if pat == [] {
      InterleaveLength(s, rep);
    } else if |s| < |pat| {
    } else if s[..|pat|] == pat {
      ReplaceAllLength(s[|pat|..], pat, rep);
      var c := CountNonEmpty(s[|pat|..], pat);
      assert (1 + c) * (|rep| - |pat|) == (|rep| - |pat|) + c * (|rep| - |pat|);
    } else {
      ReplaceAllLength(s[1..], pat, rep);
    }
  }

  lemma {:induction false} InterleaveEmpty(s: string)
    ensures Interleave(s, "") == s
  {
    if s != [] {
      InterleaveEmpty(s[1..]);
      assert [s[0]] + s[1..] == s;
    }
  }

  /** Replacing a pattern by itself changes nothing. */
  lemma {:induction false} ReplaceAllSelf(s: string, pat: string)
    ensures ReplaceAll(s, pat, pat) == s
    decreases |s|
  {
    if pat == [] {
      InterleaveEmpty(s);
    } else if |s| < |pat| {
    } else if s[..|pat|] == pat {
      ReplaceAllSelf(s[|pat|..], pat);
      assert s[..|pat|] + s[|pat|..] == s;
    } else {
      ReplaceAllSelf(s[1..], pat);
      assert [s[0]] + s[1..] == s;
    }
  }
}
