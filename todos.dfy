/** The agent's plan: a list of todo items, and the text Python's `repr`
    gives that list, which the todo tool echoes back in its message. */
module Todos {
  import Text

  /** The three states of a todo item. Any state may follow any other: the
      tool stores whatever list it is given. */
  datatype Status = Pending | InProgress | Completed

  datatype Todo = Todo(content: string, status: Status)

  /** The literal a status is written as. */
  function StatusName(s: Status): string
  {
    match s
    case Pending => "pending"
    case InProgress => "in_progress"
    case Completed => "completed"
  }

  lemma StatusNameInjective(a: Status, b: Status)
    requires StatusName(a) == StatusName(b)
    ensures a == b
  {
  }

  /** Lower-case hexadecimal digit, as in Python's `\xhh` escapes. */
  function HexDigit(d: nat): char
    requires d < 16
  {
    if d < 10 then ('0' as int + d) as char else ('a' as int + d - 10) as char
  }

  predicate IsHexDigit(c: char)
  {
    '0' <= c <= '9' || 'a' <= c <= 'f'
  }

  function HexValue(c: char): (d: nat)
    requires IsHexDigit(c)
    ensures d < 16 && HexDigit(d) == c
  {
    if c <= '9' then c as int - '0' as int else c as int - 'a' as int + 10
  }

  /** The characters Python's `repr` writes as `\xhh`: the C0 and C1 control
      characters other than tab, newline and carriage return, DEL, the
      no-break space and the soft hyphen. */
  predicate IsHexEscaped(c: char)
  {
    (c < ' ' && c != '\t' && c != '\n' && c != '\r') || ('\U{7F}' <= c <= '\U{A0}') || c == '\U{AD}'
  }

  /** How `repr` writes one character inside a literal quoted with `q`. */
  function EscapeChar(c: char, q: char): (r: string)
    ensures |r| >= 1 && (r[0] == '\\' || r == [c])
  {
    if c == q || c == '\\' then ['\\', c]
    else if c == '\t' then "\\t"
    else if c == '\n' then "\\n"
    else if c == '\r' then "\\r"
    else if IsHexEscaped(c) then
      ['\\', 'x', HexDigit(c as int / 16), HexDigit(c as int % 16)]
    else [c]
  }

  function EscapeBody(s: string, q: char): string
  {
    if s == [] then [] else EscapeChar(s[0], q) + EscapeBody(s[1..], q)
  }

  /** Python's `repr` of a string: single quotes unless the string contains
      a single quote and no double quote. */
  function Repr(s: string): (r: string)
    ensures |r| >= 2 && r[0] == r[|r| - 1] && (r[0] == '\'' || r[0] == '"')
  {
    var q := if '\'' in s && '"' !in s then '"' else '\'';
    [q] + EscapeBody(s, q) + [q]
  }

  /** Reads the escapes of a string literal's body back into characters. */
  function Unescape(s: string): string
    decreases |s|
  {
    if s == [] then []
    else if s[0] == '\\' && |s| >= 2 then
      if s[1] == 't' then ['\t'] + Unescape(s[2..])
      else if s[1] == 'n' then ['\n'] + Unescape(s[2..])
      else if s[1] == 'r' then ['\r'] + Unescape(s[2..])
      else if s[1] == 'x' && |s| >= 4 && IsHexDigit(s[2]) && IsHexDigit(s[3]) then
        [(HexValue(s[2]) * 16 + HexValue(s[3])) as char] + Unescape(s[4..])
      else [s[1]] + Unescape(s[2..])
    else [s[0]] + Unescape(s[1..])
  }

  lemma UnescapeChar(c: char, q: char, rest: string)
    requires q == '\'' || q == '"'
    ensures Unescape(EscapeChar(c, q) + rest) == [c] + Unescape(rest)
  {
    if c == q || c == '\\' || c == '\t' || c == '\n' || c == '\r' {
      UnescapeShort(c, q, rest);
    } else if IsHexEscaped(c) {
      UnescapeHex(c, rest);
    } else {
      assert EscapeChar(c, q) == [c];
      assert ([c] + rest)[1..] == rest;
    }
  }

  lemma UnescapeShort(c: char, q: char, rest: string)
    requires q == '\'' || q == '"'
    requires c == q || c == '\\' || c == '\t' || c == '\n' || c == '\r'
    ensures Unescape(EscapeChar(c, q) + rest) == [c] + Unescape(rest)
  {
    var s := EscapeChar(c, q) + rest;
    assert s[2..] == rest;
  }

  lemma UnescapeHex(c: char, rest: string)
    requires IsHexEscaped(c)
    ensures Unescape(['\\', 'x', HexDigit(c as int / 16), HexDigit(c as int % 16)] + rest)
         == [c] + Unescape(rest)
  {
    var hi, lo := c as int / 16, c as int % 16;
    var s := ['\\', 'x', HexDigit(hi), HexDigit(lo)] + rest;
    assert HexValue(HexDigit(hi)) == hi && HexValue(HexDigit(lo)) == lo;
    assert s[4..] == rest;
  }

  /** Unescaping undoes escaping, whichever quote was chosen. */
  lemma {:induction false} UnescapeEscapeBody(s: string, q: char)
    requires q == '\'' || q == '"'
    ensures Unescape(EscapeBody(s, q)) == s
  {
    if s != [] {
      UnescapeEscapeBody(s[1..], q);
      UnescapeChar(s[0], q, EscapeBody(s[1..], q));
    }
  }

  /** Different strings have different `repr`s, so the todo message names
      each item's text unambiguously. */
  lemma ReprInjective(a: string, b: string)
    requires Repr(a) == Repr(b)
    ensures a == b
  {
    var r := Repr(a);
    var qa := if '\'' in a && '"' !in a then '"' else '\'';
    var qb := if '\'' in b && '"' !in b then '"' else '\'';
    assert r[1..|r| - 1] == EscapeBody(a, qa);
    assert Repr(b)[1..|r| - 1] == EscapeBody(b, qb);
    UnescapeEscapeBody(a, qa);
    UnescapeEscapeBody(b, qb);
  }

  /** Python's `repr` of one todo dictionary. */
  function TodoRepr(t: Todo): string
  {
    "{'content': " + Repr(t.content) + ", 'status': '" + StatusName(t.status) + "'}"
  }

  /** Python's `repr` of a list of todos. */
  function TodoListRepr(todos: seq<Todo>): string
  {
    "[" + Text.Join(seq(|todos|, i requires 0 <= i < |todos| => TodoRepr(todos[i])), ", ") + "]"
  }

  /** The message the todo tool reports. */
  function UpdatedMessage(todos: seq<Todo>): string
  {
    "Updated todo list to " + TodoListRepr(todos)
  }
}
