# Virtual filesystem and todo tools of deepagents, modelled in Dafny

The deep-research agent keeps its working memory in a workspace. The
workspace holds a dictionary from file path to file content and a list of
todo items. Five tools touch it:

- `ls` lists the paths.
- `read_file` shows a page of a file. The lines are numbered in `cat -n`
  style. It returns a sentinel for a blank file and an error for an offset
  past the end.
- `write_file` creates or overwrites a path.
- `edit_file` replaces an exact substring. It refuses a missing file or a
  missing string. Unless `replace_all` is set, it also refuses a string that
  occurs more than once.
- `write_todos` replaces the whole todo list.

The model has one module per concern:

- `Occurrences` (occurrences.dfy) defines Python's `in`, `str.find`,
  `str.count` and `str.replace` (all occurrences, or the first only).
  Occurrences are non-overlapping and taken left to right. The empty pattern
  occurs before every character and at the end, as in Python.
- `Text` (text.dfy) defines `str.strip`, `str.splitlines` with Python's full
  set of line boundaries (`\r\n` counts as one), `str.join`, `str.split` on
  one character, the decimal rendering of a number, and right alignment in
  a field.
- `Todos` (todos.dfy) defines the todo item with a closed status type, and
  Python's `repr` of the list, which the todo tool echoes.
- `Reader` (reader.dfy) holds `Read`, the text `read_file` returns for
  looked-up content, and the laws of the page it shows.
- `Editing` (editing.dfy) holds `Edit`, the decision `edit_file` takes
  (refuse, or the new content), and `EditMessage`, the text it returns.
- `Tools` (tools.dfy) holds the `Workspace` class. Its fields are `paths`,
  `files` and `todos`. `paths` keeps the keys in first-insertion order, as a
  Python dict does. The class has the five tools as `Ls` and as methods that
  update the fields in place.

Four behaviours of the code worth knowing, each modelled as written:

- On success, `edit_file` returns `Updated file <path>`. The message with
  the replacement count is built at `src/deepagents/tools.py:160` but never
  returned.
- `edit_file` accepts an empty `old_string`. Python's semantics then apply:
  it is found everywhere, and it is counted `len(content) + 1` times.
- `read_file` accepts any `limit`. A limit of zero or less gives an empty
  page, and so an empty string (`Reader.ReadNonPositiveLimit`).
- The uniqueness guard of `edit_file` uses Python's `str.count`
  (src/deepagents/tools.py:150), which counts non-overlapping occurrences.
  A string whose repeats overlap (`"aa"` in `"aaa"`) is counted once and
  passes the guard. The leftmost occurrence is then replaced.

## Model

| member | source | states |
|---|---|---|
| `Tools.Workspace.constructor` | src/deepagents/tools.py:103 | a fresh workspace has no files and no todos |
| `Tools.Workspace.Ls` | src/deepagents/tools.py:30-32 | returns every path in the file map and nothing else, each path once, as many paths as there are files, without changing anything |
| `Tools.Workspace.WriteTodos` | src/deepagents/tools.py:16-27 | the stored list becomes exactly the given list (the old one is discarded, no merge), the files are untouched, and the message is "Updated todo list to " followed by the list's repr |
| `Tools.Workspace.ReadFile` | src/deepagents/tools.py:36-88 | returns `Reader.Read` of the workspace content, or of the disk fallback when the path is not in the workspace, and changes nothing; offset and limit default to 0 and 2000 |
| `Tools.Workspace.NumberLines` | src/deepagents/tools.py:75-86 | the loop builds exactly the page of lines `start .. end-1`, each truncated and numbered from 1 |
| `Tools.Workspace.WriteFile` | src/deepagents/tools.py:103-123 | afterwards the path holds exactly the content whatever it held before; every other path keeps its presence and value; a new path is appended to the listing order; the message is "Updated file <path>" |
| `Tools.Workspace.EditFile` | src/deepagents/tools.py:136-168 | a refused edit leaves the file map unchanged; a successful one installs the new content at the path only; the set of paths never changes; the message is the one `EditMessage` gives; `replace_all` defaults to false |
| `Tools.DistinctCardinality` | src/deepagents/tools.py:32 | a list of paths without repetition is as long as its set, which is why the listing has one entry per file |
| `Editing.Edit` | src/deepagents/tools.py:138-165 | "file not found" exactly when the path is absent; "string not found" exactly when the file does not contain the string; "ambiguous", carrying the occurrence count, exactly when `replace_all` is off and the string occurs more than once; otherwise, without `replace_all`, the string is counted once (non-overlapping) and the new content is the old one with that occurrence spliced out for the new string; with `replace_all` it is the all-occurrences replacement |
| `Editing.EditModesAgreeOnUniqueMatch` | src/deepagents/tools.py:157-165 | when the string is counted once (non-overlapping), the edit succeeds and both modes give the same content |
| `Editing.EditSelfIsIdentity` | src/deepagents/tools.py:157-168 | a successful edit that replaces a string by itself leaves the file as it was |
| `Editing.SpliceSelf` | src/deepagents/tools.py:162-164 | putting an occurrence back in for itself gives the original content |
| `Editing.EditAllLength` | src/deepagents/tools.py:157-159 | a replace-all edit changes the file's length by the occurrence count times the difference in length of the two strings |
| `Editing.OverlappingRepeatExample` | src/deepagents/tools.py:149-164 | "aa" occurs in "aaa" at positions 0 and 1 but is counted once, so a single edit is not refused and gives "Xa" |
| `Editing.AmbiguousExample` | src/deepagents/tools.py:149-160 | on "ab ab", replacing "ab" once is refused with count 2, and replacing all gives "X X" |
| `Occurrences.Find` | src/deepagents/tools.py:145 | the leftmost occurrence, with no occurrence before it, or -1 exactly when the pattern is not contained |
| `Occurrences.OccursAtTail` | src/deepagents/tools.py:145 | an occurrence one position further in a string is an occurrence in its tail |
| `Occurrences.CountPositiveIffContains` | src/deepagents/tools.py:145-154 | the non-overlapping count is positive exactly when the pattern is contained, so the "appears 0 times" branch can never be taken |
| `Occurrences.ReplaceFirstSplices` | src/deepagents/tools.py:162-164 | replace-first puts the replacement at the leftmost occurrence and keeps the text before and after it; with no occurrence the string is unchanged |
| `Occurrences.ReplaceFirstAtStart` | src/deepagents/tools.py:162-164 | when the string is empty, too short or starts with the pattern, replace-first splices at position 0 or leaves the string as it is |
| `Occurrences.ReplaceFirstStep` | src/deepagents/tools.py:162-164 | with no match at the start, replace-first keeps the first character and splices one position later |
| `Occurrences.ReplaceAllNoMatch` | src/deepagents/tools.py:158 | with no occurrence, replace-all is the identity |
| `Occurrences.ReplaceAllSingleIsReplaceFirst` | src/deepagents/tools.py:157-165 | with exactly one occurrence, replace-all equals replace-first |
| `Occurrences.InterleaveLength` | src/deepagents/tools.py:158 | replacing the empty pattern adds the replacement once per character and once more |
| `Occurrences.ReplaceAllLength` | src/deepagents/tools.py:158-159 | the length after replace-all is the old length plus count times the length difference |
| `Occurrences.InterleaveEmpty` | src/deepagents/tools.py:158 | replacing the empty pattern by the empty string changes nothing |
| `Occurrences.ReplaceAllSelf` | src/deepagents/tools.py:158 | replacing a pattern by itself changes nothing |
| `Reader.Truncate` | src/deepagents/tools.py:80-82 | a shown line is the first 2000 characters of a longer line, and the whole line when it fits |
| `Reader.Page` | src/deepagents/tools.py:67-77 | a page has `end - start` lines, or none when `end <= start` |
| `Reader.ReadBlank` | src/deepagents/tools.py:60-62 | a blank (empty or whitespace-only) file reads as the sentinel "System reminder: File exists but has empty contents", never as empty text |
| `Reader.ReadOffsetError` | src/deepagents/tools.py:64-73 | a file that is not blank has at least one line, and it reads as "Error: Line offset … exceeds file length (n lines)" exactly when the offset is at or past its line count |
| `Reader.ReadBeforeEnd` | src/deepagents/tools.py:68-88 | on content that is not blank, an offset before the last line never reads as the offset error |
| `Reader.PageIsNotOffsetMessage` | src/deepagents/tools.py:71-88 | a page, empty or starting with a right-aligned number, can never be mistaken for the offset error |
| `Reader.ReadPage` | src/deepagents/tools.py:64-88 | for an offset before the end and a limit of at least 1, a page splits on newlines into exactly `min(offset + limit, n) - offset` lines; the k-th is exactly the number `offset + k + 1` right-aligned in 6 columns, a tab, and the truncated content of line `offset + k`, and it parses back to that number and content |
| `Reader.PageFormat` | src/deepagents/tools.py:84-86 | the k-th line of a page is the number `start + k + 1` right-aligned in 6 columns, a tab, and the truncated line |
| `Reader.PageHasNoNewline` | src/deepagents/tools.py:76-86 | no line of a page holds a newline |
| `Reader.PageParses` | src/deepagents/tools.py:76-86 | the k-th line of a page parses to the number `start + k + 1` and the truncated line |
| `Reader.WriteThenRead` | src/deepagents/tools.py:65-88 | a file of newline-terminated lines of at most 2000 characters, read from the top with a covering limit, shows each line exactly as its 1-based number right-aligned in 6 columns, a tab and the line |
| `Reader.WriteThenReadUnterminated` | src/deepagents/tools.py:65-88 | the same for a file whose last line is not empty and has no final newline |
| `Reader.ReadWholeFile` | src/deepagents/tools.py:65-88 | any file that is not blank and whose lines fit in 2000 characters, read from the top with a covering limit, shows each of its lines in that exact numbered form |
| `Reader.ReadNonPositiveLimit` | src/deepagents/tools.py:67-88 | with an offset before the end, a limit of zero or less reads as the empty string |
| `Reader.ParseFormatLine` | src/deepagents/tools.py:84-86 | a numbered line (number right-aligned in 6 columns, tab, content) parses back to its number and its content |
| `Reader.FormatLineNoNewline` | src/deepagents/tools.py:86-88 | a numbered line holds no newline, so joining the page with newlines keeps its lines apart |
| `Reader.DropSpaces` | src/deepagents/tools.py:86 | dropping the alignment spaces leaves text that does not start with a space |
| `Reader.DropSpacesPadding` | src/deepagents/tools.py:86 | dropping the alignment spaces of a padded field gives back the field |
| `Reader.DropNumberPadding` | src/deepagents/tools.py:86 | dropping the spaces before a rendered number leaves the number, the tab and the content |
| `Reader.SplitAtTab` | src/deepagents/tools.py:86 | the first tab of a numbered line follows its digits |
| `Reader.FiveLinesSplit` | src/deepagents/tools.py:65 | "a\nb\nc\nd\ne" splits into five lines |
| `Reader.FiveLinesNotBlank` | src/deepagents/tools.py:61 | "a\nb\nc\nd\ne" is not blank |
| `Reader.OffsetPastEndExample` | src/deepagents/tools.py:72-73 | on a five-line file, offset 5 gives the offset error for 5 lines |
| `Reader.LastLineExample` | src/deepagents/tools.py:68-88 | on a five-line file, offset 4 with limit 10 gives exactly "     5\te" |
| `Reader.FifthLine` | src/deepagents/tools.py:86 | line 5 with content "e" renders as five spaces, "5", a tab and "e" |
| `Text.StripLeft` | src/deepagents/tools.py:61 | the result is a suffix, everything dropped is whitespace, and it does not start with whitespace |
| `Text.StripRight` | src/deepagents/tools.py:61 | the result is a prefix, everything dropped is whitespace, and it does not end with whitespace |
| `Text.StripEmptyIffAllWhitespace` | src/deepagents/tools.py:61 | `content.strip() == ""` holds exactly when every character is whitespace |
| `Text.LineEnd` | src/deepagents/tools.py:65 | the first line boundary, with none before it |
| `Text.SplitLines` | src/deepagents/tools.py:65 | no line holds a line boundary, and there are no lines exactly when the content is empty |
| `Text.SplitLinesStep` | src/deepagents/tools.py:65 | a line without boundaries followed by a newline splits off as one line |
| `Text.LineEndIs` | src/deepagents/tools.py:65 | the first boundary is where the boundary-free prefix stops |
| `Text.SplitLinesTerminated` | src/deepagents/tools.py:65 | splitting newline-terminated lines gives back exactly those lines |
| `Text.SplitLinesJoin` | src/deepagents/tools.py:65 | splitting lines joined by newlines gives them back when the last line is not empty |
| `Text.IndexOf` | src/deepagents/tools.py:88 | the first occurrence of a character, with none before it |
| `Text.SplitOn` | src/deepagents/tools.py:88 | splitting always yields at least one part |
| `Text.SplitOnJoin` | src/deepagents/tools.py:88 | splitting on newlines undoes the newline join of lines without newlines |
| `Text.SplitOnStep` | src/deepagents/tools.py:88 | a part without the separator, followed by the separator, splits off as one part |
| `Text.IndexOfAbsent` | src/deepagents/tools.py:88 | a character that is absent is found at the end |
| `Text.IndexOfPrefix` | src/deepagents/tools.py:88 | the first separator is the one that follows a separator-free prefix |
| `Text.DigitChar` | src/deepagents/tools.py:86 | a digit renders as a character from '0' to '9' |
| `Text.Decimal` | src/deepagents/tools.py:86 | a number renders as one or more decimal digits, without a leading zero |
| `Text.DecimalRoundTrip` | src/deepagents/tools.py:73 | reading a rendered number back gives the number |
| `Text.PadLeft` | src/deepagents/tools.py:86 | the field is 6 wide or as wide as the number, ends with the number, and is filled with spaces before it |
| `Todos.StatusNameInjective` | src/deepagents/tools.py:24 | different statuses are written differently in the todo message |
| `Todos.HexValue` | src/deepagents/tools.py:24 | the value of a hexadecimal digit renders back as that digit |
| `Todos.EscapeChar` | src/deepagents/tools.py:24 | a character of a string's repr is either itself or an escape starting with a backslash |
| `Todos.Repr` | src/deepagents/tools.py:24 | a string's repr is enclosed in matching single or double quotes |
| `Todos.UnescapeChar` | src/deepagents/tools.py:24 | unescaping the escape of one character gives back that character |
| `Todos.UnescapeShort` | src/deepagents/tools.py:24 | a quote, backslash, tab, newline or carriage return escaped with one backslash reads back as itself |
| `Todos.UnescapeHex` | src/deepagents/tools.py:24 | a character escaped as `\xhh` reads back as itself |
| `Todos.UnescapeEscapeBody` | src/deepagents/tools.py:24 | unescaping the body of a repr gives back the string, whichever quote was chosen |
| `Todos.ReprInjective` | src/deepagents/tools.py:24 | different todo texts have different reprs, so the message names each item's text unambiguously |

## Left out

- Disk fallback of `read_file` (src/deepagents/tools.py:47-58). Resolving a relative path against the current directory, checking that it exists and decoding it are not modelled. `Tools.Workspace.ReadFile` takes a `disk` parameter: the text the disk lookup yields for the path, or `None` when there is no such file or reading it fails.
- Disk mirroring in `write_file` and `edit_file` (src/deepagents/tools.py:106-115, 169-177). It is best effort, its failures are swallowed, and it never changes the result.
- LangGraph and LangChain wrapping (`@tool`, `Command`, `ToolMessage`, `InjectedState`, the tool call id). Each tool updates the `Workspace` fields directly and returns its message text.
- Concurrency. Each tool call is one atomic step on the workspace.
- `Tools.Workspace.ReadFile`: `offset` is a natural number. A negative offset in the source indexes from the end of the line list, or raises once it is past the start.
- `Todos.EscapeChar`: escapes backslash, the chosen quote, tab, newline, carriage return, and (as `\xhh`) the C0/C1 control characters, DEL, U+00A0 and U+00AD. Python's `repr` also escapes other non-printable characters above U+00FF (for example U+2028) as `\uXXXX`, and those above U+FFFF as `\UXXXXXXXX`. The Unicode printability table is not modelled.
- `Todos.Todo`: `Todo` is declared in deepagents/state.py, which is not part of this model. The model assumes a dictionary with exactly the keys `content` (a string) and `status` (one of "pending", "in_progress", "completed"), in that order. `Todos.Status`, `Todos.StatusName`, `Todos.TodoRepr` and the message of `Tools.Workspace.WriteTodos` rest on that assumption. The closed `Status` type cannot hold any other status. The model does not say what happens to one.
- `deepagents/prompts.py` is not part of this model.
