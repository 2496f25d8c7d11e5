/** The decision `edit_file` makes on the in-memory files: refuse (missing
    file, missing string, ambiguous string) or compute the new content. */
module Editing {
  import opened Occurrences
  import Text

  datatype EditResult =
    | FileNotFound
    | StringNotFound
    | Ambiguous(occurrences: nat)
    | Replaced(content: string)

  /** The outcome of editing `path` in `files`: the file must exist and hold
      `oldString`; unless `replaceAll` is set, `oldString` must be counted once
      (non-overlapping, as Python's `str.count` counts), and then only the
      leftmost occurrence is replaced. */
  function Edit(files: map<string, string>, path: string, oldString: string,
                newString: string, replaceAll: bool): (r: EditResult)
    ensures r.FileNotFound? <==> path !in files
    ensures r.StringNotFound? <==> path in files && !Contains(files[path], oldString)
    ensures r.Ambiguous? <==>
      path in files && !replaceAll && Count(files[path], oldString) > 1
    ensures r.Ambiguous? ==> r.occurrences == Count(files[path], oldString)
    ensures r.Replaced? && replaceAll ==>
      r.content == ReplaceAll(files[path], oldString, newString)
    ensures r.Replaced? && !replaceAll ==>
      var s := files[path];
      var i := Find(s, oldString);
      && Count(s, oldString) == 1
      && 0 <= i && r.content == s[..i] + newString + s[i + |oldString|..]
  {
    if path !in files then FileNotFound
    else
      var content := files[path];
      CountPositiveIffContains(content, oldString);
      if !Contains(content, oldString) then StringNotFound
      else if !replaceAll && Count(content, oldString) > 1 then
        Ambiguous(Count(content, oldString))
      else if !replaceAll && Count(content, oldString) == 0 then StringNotFound
      else if replaceAll then Replaced(ReplaceAll(content, oldString, newString))
      else
        ReplaceFirstSplices(content, oldString, newString);
        Replaced(ReplaceFirst(content, oldString, newString))
  }

  /** The text `edit_file` returns for each outcome. On success it is the
      generic update notice; the replacement count is not reported. */
  function EditMessage(path: string, oldString: string, r: EditResult): string
  {
    match r
    case FileNotFound => "Error: File '" + path + "' not found"
    case StringNotFound => "Error: String not found in file: '" + oldString + "'"
    case Ambiguous(n) =>
      "Error: String '" + oldString + "' appears " + Text.Decimal(n)
      + " times in file. Use replace_all=True to replace all instances, or provide a more specific string with surrounding context."
    case Replaced(_) => "Updated file " + path
  }

  /** When the string is counted once (non-overlapping), both modes of `edit_file` agree. */
  lemma EditModesAgreeOnUniqueMatch(files: map<string, string>, path: string,
                                    oldString: string, newString: string)
    requires path in files && Count(files[path], oldString) == 1
    ensures Edit(files, path, oldString, newString, true)
         == Edit(files, path, oldString, newString, false)
    ensures Edit(files, path, oldString, newString, true).Replaced?
  {
    CountPositiveIffContains(files[path], oldString);
    ReplaceAllSingleIsReplaceFirst(files[path], oldString, newString);
    ReplaceFirstSplices(files[path], oldString, newString);
  }

  /** Replacing a string by itself leaves the content as it was. */
  lemma EditSelfIsIdentity(files: map<string, string>, path: string,
                           oldString: string, replaceAll: bool)
    requires Edit(files, path, oldString, oldString, replaceAll).Replaced?
    ensures Edit(files, path, oldString, oldString, replaceAll).content == files[path]
  {
    var s := files[path];
    if replaceAll {
      ReplaceAllSelf(s, oldString);
    } else {
      SpliceSelf(s, oldString, Find(s, oldString));
    }
  }

  /** Splicing an occurrence of `pat` back in for itself gives `s`. */
  lemma SpliceSelf(s: string, pat: string, i: int)
    requires OccursAt(s, pat, i)
    ensures s[..i] + pat + s[i + |pat|..] == s
  {
    assert s[..i] + s[i..i + |pat|] + s[i + |pat|..] == s;
  }

  /** A replace-all edit changes the length by the count times the length
      difference between the two strings. */
  lemma EditAllLength(files: map<string, string>, path: string,
                      oldString: string, newString: string)
    requires Edit(files, path, oldString, newString, true).Replaced?
    ensures |Edit(files, path, oldString, newString, true).content|
         == |files[path]| + Count(files[path], oldString) * (|newString| - |oldString|)
  {
    ReplaceAllLength(files[path], oldString, newString);
  }

  /** The example of an ambiguous edit: "ab ab" holds "ab" twice, so a
      single replacement is refused with the count, and replace-all gives
      "X X". */
  lemma AmbiguousExample()
    ensures Edit(map["f" := "ab ab"], "f", "ab", "X", false) == Ambiguous(2)
    ensures Edit(map["f" := "ab ab"], "f", "ab", "X", true) == Replaced("X X")
  {
    var s := "ab ab";
    assert s[..2] == "ab" && s[2..] == " ab";
    assert " ab"[..2][0] == ' ' && " ab"[1..] == "ab";
    assert "ab"[..2] == "ab" && "ab"[2..] == "";
    assert CountNonEmpty("", "ab") == 0;
    assert CountNonEmpty("ab", "ab") == 1;
    assert CountNonEmpty(" ab", "ab") == 1;
    assert Count(s, "ab") == 2;
    assert ReplaceAllNonEmpty("ab", "ab", "X") == "X";
    assert ReplaceAllNonEmpty(" ab", "ab", "X") == " X";
    assert ReplaceAll(s, "ab", "X") == "X X";
  }

  /** The uniqueness guard counts non-overlapping occurrences: "aa" occurs
      in "aaa" at positions 0 and 1, but is counted once, so a single edit
      goes through and replaces the leftmost occurrence. */
  lemma OverlappingRepeatExample()
    ensures OccursAt("aaa", "aa", 0) && OccursAt("aaa", "aa", 1)
    ensures Count("aaa", "aa") == 1
    ensures Edit(map["f" := "aaa"], "f", "aa", "X", false) == Replaced("Xa")
  {
    var s := "aaa";
    assert s[..2] == "aa" && s[2..] == "a";
    assert s[1..3] == "aa";
    assert CountNonEmpty("a", "aa") == 0;
    assert Count(s, "aa") == 1;
    assert Find(s, "aa") == 0;
  }
}
