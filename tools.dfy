/** The agent's workspace: the in-memory files and the todo list, changed
    only through the tools below. */
module Tools {
  import opened Wrappers
  import opened Text
  import opened Todos
  import Reader
  import Editing

  predicate Distinct(s: seq<string>)
  {
    forall i, j :: 0 <= i < j < |s| ==> s[i] != s[j]
  }

  /** A list without repetitions has as many elements as its set. */
  lemma {:induction false} DistinctCardinality(s: seq<string>)
    requires Distinct(s)
    ensures |set x | x in s| == |s|
  {
    if s != [] {
      DistinctCardinality(s[1..]);
      assert (set x | x in s) == {s[0]} + (set x | x in s[1..]);
      assert s[0] !in s[1..];
    }
  }

  class Workspace {
    /** The file paths in the order they were first written, as a Python
        dictionary keeps its keys. */
    var paths: seq<string>
    /** Each path's content. */
    var files: map<string, string>
    var todos: seq<Todo>

    /** `paths` lists every key of `files` once. */
    ghost predicate Valid()
      reads this
    {
      && Distinct(paths)
      && (forall p :: p in paths <==> p in files)
    }

    constructor ()
      ensures Valid() && paths == [] && files == map[] && todos == []
    {
      paths, files, todos := [], map[], [];
    }

    /** `ls`: every path in the workspace, each once, in the order the paths
        were first written. */
    function Ls(): (r: seq<string>)
      reads this
      requires Valid()
      ensures forall p :: p in r <==> p in files
      ensures Distinct(r) && |r| == |files|
      ensures r == paths
    {
      DistinctCardinality(paths);
      assert (set x | x in paths) == files.Keys;
      paths
    }

    /** `write_todos`: the stored list becomes exactly the given one. */
    method WriteTodos(newTodos: seq<Todo>) returns (msg: string)
      requires Valid()
      modifies this`todos
      ensures Valid()
      ensures todos == newTodos
      ensures msg == UpdatedMessage(newTodos)
    {
      todos := newTodos;
      msg := UpdatedMessage(newTodos);
    }

    /** `read_file`: the workspace content of `path`, or else what the disk
        fallback yields for it (`disk`, `None` when there is no such file or
        it cannot be read), shown as `Reader.Read` describes. By default the
        first 2000 lines are shown. */
    method ReadFile(path: string, disk: Option<string>, offset: nat := 0, limit: int := 2000)
      returns (r: string)
      ensures r == Reader.Read(if path in files then Some(files[path]) else disk, path, offset, limit)
    {
      var content: string;
      if path in files {
        content := files[path];
      } else if disk.Some? {
        content := disk.value;
      } else {
        return Reader.NotFoundMessage(path);
      }
      ghost var found := if path in files then Some(files[path]) else disk;
      assert found == Some(content);
      if Reader.IsBlank(content) {
        return Reader.EmptySentinel;
      }
      var lines := SplitLines(content);
      var startIdx := offset;
      var endIdx := Reader.PageEnd(startIdx, limit, |lines|);
      if startIdx >= |lines| {
        return Reader.OffsetMessage(offset, |lines|);
      }
      var resultLines := NumberLines(lines, startIdx, endIdx);
      r := Join(resultLines, "\n");
    }

    /** The numbering loop of `read_file`: lines `startIdx .. endIdx - 1`,
        each cut to `MaxLineLength` characters and prefixed with its number. */
    static method NumberLines(lines: seq<string>, startIdx: nat, endIdx: int)
      returns (resultLines: seq<string>)
      requires startIdx <= |lines| && endIdx <= |lines|
      ensures resultLines == Reader.Page(lines, startIdx, endIdx)
    {
      resultLines := [];
      var i := startIdx;
      while i < endIdx
        invariant startIdx <= i <= |lines| && i <= (if endIdx > startIdx then endIdx else startIdx)
        invariant resultLines == Reader.Page(lines, startIdx, i)
      {
        var lineContent := lines[i];
        if |lineContent| > Reader.MaxLineLength {
          lineContent := lineContent[..Reader.MaxLineLength];
        }
        assert lineContent == Reader.Truncate(lines[i]);
        var lineNumber := i + 1;
        resultLines := resultLines + [Reader.FormatLine(lineNumber, lineContent)];
        assert resultLines == Reader.Page(lines, startIdx, i + 1);
        i := i + 1;
      }
    }

    /** `write_file`: `path` holds `content` afterwards, whatever it held
        before; no other path changes. */
    method WriteFile(path: string, content: string) returns (msg: string)
      requires Valid()
      modifies this`paths, this`files
      ensures Valid()
      ensures path in files && files[path] == content
      ensures forall p :: p != path ==> (p in files <==> p in old(files))
      ensures forall p :: p != path && p in files ==> files[p] == old(files)[p]
      ensures paths == if path in old(files) then old(paths) else old(paths) + [path]
      ensures msg == "Updated file " + path
    {
      if path !in files {
        paths := paths + [path];
      }
      files := files[path := content];
      msg := "Updated file " + path;
    }

    /** `edit_file`: applies `Editing.Edit` to the workspace. A refused edit
        changes nothing; a successful one changes only `path`. By default only
        a string that is counted once is replaced. */
    method EditFile(path: string, oldString: string, newString: string, replaceAll: bool := false)
      returns (msg: string)
      requires Valid()
      modifies this`files
      ensures Valid()
      ensures var r := Editing.Edit(old(files), path, oldString, newString, replaceAll);
        && (if r.Replaced? then files == old(files)[path := r.content] else files == old(files))
        && msg == Editing.EditMessage(path, oldString, r)
      ensures files.Keys == old(files).Keys
      ensures forall p :: p != path && p in files ==> files[p] == old(files)[p]
    {
      var r := Editing.Edit(files, path, oldString, newString, replaceAll);
      if r.Replaced? {
        files := files[path := r.content];
      }
      msg := Editing.EditMessage(path, oldString, r);
    }
  }
}
