/** The two lexical extractors of `LuaObfuscator`: `extractVariables`
    (three global regular-expression scans) and `extractStrings` (a
    line-by-line scan for quoted literals). Each regular expression is a
    hand-written scanner that reproduces JavaScript's `exec` semantics: the
    leftmost match at or after `lastIndex`, and the next search resuming where
    the previous match ended. */
module Lexer {
  import opened Wrappers
  import opened Text
  import opened Reserved

  /** End of the run of word characters that starts at `i`. */
  function WordEnd(s: string, i: nat): (j: nat)
    requires i <= |s|
    ensures i <= j <= |s|
    ensures forall k :: i <= k < j ==> IsWordChar(s[k])
    ensures j < |s| ==> !IsWordChar(s[j])
    decreases |s| - i
  {
    if i < |s| && IsWordChar(s[i]) then WordEnd(s, i + 1) else i
  }

  /** End of the run of white space that starts at `i`. */
  function SpaceEnd(s: string, i: nat): (j: nat)
    requires i <= |s|
    ensures i <= j <= |s|
    ensures forall k :: i <= k < j ==> IsSpace(s[k])
    ensures j < |s| ==> !IsSpace(s[j])
    decreases |s| - i
  {
    if i < |s| && IsSpace(s[i]) then SpaceEnd(s, i + 1) else i
  }

  lemma WordSliceIsIdentifier(s: string, w: nat, e: nat)
    requires w < e <= |s| && IsIdentStart(s[w])
    requires forall k :: w <= k < e ==> IsWordChar(s[k])
    ensures IsIdentifier(s[w..e])
  {
    forall k | 0 <= k < e - w ensures IsWordChar(s[w..e][k]) {
      assert s[w..e][k] == s[w + k];
    }
  }

  // ---------------------------------------------------------------- extractVariables

  /** The three patterns of `extractVariables`:
      `local\s+([a-zA-Z_][a-zA-Z0-9_]*)`, `function\s+([a-zA-Z_][a-zA-Z0-9_]*)`
      and `([a-zA-Z_][a-zA-Z0-9_]*)\s*=`. */
  datatype Pattern = LocalDecl | FunctionDecl | Assignment

  /** A successful `exec`: the captured name and the new `lastIndex`. */
  datatype Match = Match(name: string, end: nat)

  /** `keyword\s+([a-zA-Z_][a-zA-Z0-9_]*)` matched at exactly `i`. The keyword
      is not anchored to a word boundary, so `nonlocal x` matches too. */
  function KeywordMatchAt(code: string, i: nat, keyword: string): (m: Option<Match>)
    requires i <= |code|
    ensures m.Some? ==> i < m.value.end <= |code| && IsIdentifier(m.value.name)
  {
    if OccursAt(code, keyword, i) then
      var w := SpaceEnd(code, i + |keyword|);
      if w > i + |keyword| && w < |code| && IsIdentStart(code[w]) then
        var e := WordEnd(code, w);
        WordSliceIsIdentifier(code, w, e);
        Some(Match(code[w..e], e))
      else
        None
    else
      None
  }

  /** `([a-zA-Z_][a-zA-Z0-9_]*)\s*=` matched at exactly `i`. The capture may
      start inside a word (after a digit) and `=` may be the first half of `==`. */
  function AssignmentMatchAt(code: string, i: nat): (m: Option<Match>)
    requires i <= |code|
    ensures m.Some? ==> i < m.value.end <= |code| && IsIdentifier(m.value.name)
  {
    if i < |code| && IsIdentStart(code[i]) then
      var e := WordEnd(code, i);
      var w := SpaceEnd(code, e);
      if w < |code| && code[w] == '=' then
        WordSliceIsIdentifier(code, i, e);
        Some(Match(code[i..e], w + 1))
      else
        None
    else
      None
  }

  function MatchAt(code: string, i: nat, pattern: Pattern): (m: Option<Match>)
    requires i <= |code|
    ensures m.Some? ==> i < m.value.end <= |code| && IsIdentifier(m.value.name)
  {
    match pattern
    case LocalDecl => KeywordMatchAt(code, i, "local")
    case FunctionDecl => KeywordMatchAt(code, i, "function")
    case Assignment => AssignmentMatchAt(code, i)
  }

  /** `pattern.exec(code)` with `lastIndex == i`: the leftmost match at or after `i`. */
  function NextMatch(code: string, i: nat, pattern: Pattern): (m: Option<Match>)
    requires i <= |code|
    ensures m.Some? ==> i < m.value.end <= |code| && IsIdentifier(m.value.name)
    decreases |code| - i
  {
    var here := MatchAt(code, i, pattern);
    if here.Some? then here
    else if i < |code| then NextMatch(code, i + 1, pattern)
    else None
  }

  /** The names captured by the successive `exec` calls of a loop that starts at `i`. */
  function CapturesFrom(code: string, i: nat, pattern: Pattern): (r: seq<string>)
    requires i <= |code|
    ensures forall k :: 0 <= k < |r| ==> IsIdentifier(r[k])
    decreases |code| - i
  {
    match NextMatch(code, i, pattern)
    case None => []
    case Some(m) => [m.name] + CapturesFrom(code, m.end, pattern)
  }

  function Captures(code: string, pattern: Pattern): seq<string> {
    CapturesFrom(code, 0, pattern)
  }

  /** `Set.prototype.add` on an insertion-ordered set: a name already present keeps its place. */
  function Insert(acc: seq<string>, name: string): seq<string> {
    if name in acc then acc else acc + [name]
  }

  /** The local and function loops: every captured name that is not reserved joins the set. */
  function AddDeclared(r: Reserve, acc: seq<string>, names: seq<string>): seq<string>
    decreases |names|
  {
    if names == [] then acc
    else AddDeclared(r, if r.Has(names[0]) then acc else Insert(acc, names[0]), names[1..])
  }

  /** The text holds `local <name>` or `function <name>` (a substring test, so
      `local xs` counts as declaring `x`). */
  predicate Declared(code: string, name: string) {
    Contains(code, "local " + name) || Contains(code, "function " + name)
  }

  /** The assignment loop: a captured name joins only when it is neither
      reserved, nor already present, nor declared anywhere in the text. */
  function AddAssigned(r: Reserve, code: string, acc: seq<string>, names: seq<string>): seq<string>
    decreases |names|
  {
    if names == [] then acc
    else
      var n := names[0];
      AddAssigned(r, code, if !r.Has(n) && n !in acc && !Declared(code, n) then acc + [n] else acc, names[1..])
  }

  /** What `extractVariables` returns, in the set's insertion order. */
  function VariablesOf(r: Reserve, code: string): seq<string> {
    var declared := AddDeclared(r, AddDeclared(r, [], Captures(code, LocalDecl)), Captures(code, FunctionDecl));
    AddAssigned(r, code, declared, Captures(code, Assignment))
  }

  lemma {:induction false} AddDeclaredMembers(r: Reserve, acc: seq<string>, names: seq<string>)
    requires Distinct(acc)
    ensures Distinct(AddDeclared(r, acc, names))
    ensures forall x :: x in AddDeclared(r, acc, names) <==> x in acc || (x in names && !r.Has(x))
    decreases |names|
  {
    if names != [] {
      var next := if r.Has(names[0]) then acc else Insert(acc, names[0]);
      assert Distinct(next);
      AddDeclaredMembers(r, next, names[1..]);
      assert names == [names[0]] + names[1..];
    }
  }

  lemma {:induction false} AddAssignedMembers(r: Reserve, code: string, acc: seq<string>, names: seq<string>)
    requires Distinct(acc)
    ensures Distinct(AddAssigned(r, code, acc, names))
    ensures forall x :: x in AddAssigned(r, code, acc, names) <==>
      x in acc || (x in names && !r.Has(x) && !Declared(code, x))
    decreases |names|
  {
    if names != [] {
      var n := names[0];
      var next := if !r.Has(n) && n !in acc && !Declared(code, n) then acc + [n] else acc;
      assert Distinct(next);
      AddAssignedMembers(r, code, next, names[1..]);
      assert names == [n] + names[1..];
    }
  }

  /** `extractVariables` yields distinct, non-reserved identifiers: exactly the
      local and function names, plus the assigned names that the text never
      declares with `local ` or `function `. */
  lemma VariablesOfMembers(r: Reserve, code: string)
    ensures Distinct(VariablesOf(r, code))
    ensures forall v :: v in VariablesOf(r, code) <==>
      && !r.Has(v)
      && (|| v in Captures(code, LocalDecl)
          || v in Captures(code, FunctionDecl)
          || (v in Captures(code, Assignment) && !Declared(code, v)))
    ensures forall v :: v in VariablesOf(r, code) ==> IsIdentifier(v)
  {
    var locals := AddDeclared(r, [], Captures(code, LocalDecl));
    AddDeclaredMembers(r, [], Captures(code, LocalDecl));
    var declared := AddDeclared(r, locals, Captures(code, FunctionDecl));
    AddDeclaredMembers(r, locals, Captures(code, FunctionDecl));
    AddAssignedMembers(r, code, declared, Captures(code, Assignment));
  }

  /** `extractVariables` (three `exec` loops filling one `Set`). */
  method ExtractVariables(r: Reserve, code: string) returns (variables: seq<string>)
    ensures variables == VariablesOf(r, code)
    ensures Distinct(variables)
    ensures forall v :: v in variables ==> !r.Has(v) && IsIdentifier(v)
  {
    variables := [];

    var lastIndex := 0;
    while true
      invariant lastIndex <= |code|
      invariant AddDeclared(r, variables, CapturesFrom(code, lastIndex, LocalDecl))
             == AddDeclared(r, [], Captures(code, LocalDecl))
      decreases |code| - lastIndex
    {
      var m := NextMatch(code, lastIndex, LocalDecl);
      if m.None? {
        break;
      }
      var varName := m.value.name;
      if !(varName in r.keywords) && !(varName in r.globals) {
        variables := Insert(variables, varName);
      }
      lastIndex := m.value.end;
    }

    ghost var locals := variables;
    lastIndex := 0;
    while true
      invariant lastIndex <= |code|
      invariant AddDeclared(r, variables, CapturesFrom(code, lastIndex, FunctionDecl))
             == AddDeclared(r, locals, Captures(code, FunctionDecl))
      decreases |code| - lastIndex
    {
      var m := NextMatch(code, lastIndex, FunctionDecl);
      if m.None? {
        break;
      }
      var funcName := m.value.name;
      if !(funcName in r.keywords) && !(funcName in r.globals) {
        variables := Insert(variables, funcName);
      }
      lastIndex := m.value.end;
    }

    ghost var declared := variables;
    lastIndex := 0;
    while true
      invariant lastIndex <= |code|
      invariant AddAssigned(r, code, variables, CapturesFrom(code, lastIndex, Assignment))
             == AddAssigned(r, code, declared, Captures(code, Assignment))
      decreases |code| - lastIndex
    {
      var m := NextMatch(code, lastIndex, Assignment);
      if m.None? {
        break;
      }
      var varName := m.value.name;
      if !(varName in r.keywords) && !(varName in r.globals) && varName !in variables {
        if !Contains(code, "local " + varName) && !Contains(code, "function " + varName) {
          variables := variables + [varName];
        }
      }
      lastIndex := m.value.end;
    }
    VariablesOfMembers(r, code);
  }

  // ---------------------------------------------------------------- extractStrings

  /** Index of the closing quote `q` of a literal whose body starts at `k`,
      following `[^q\\]*(\\.[^q\\]*)*q`: a backslash takes the next character
      with it unless that is a line terminator (which `.` does not match). */
  function ClosingQuote(line: string, k: nat, q: char): (j: Option<nat>)
    requires k <= |line|
    ensures j.Some? ==> k <= j.value < |line| && line[j.value] == q
    decreases |line| - k
  {
    if k == |line| then None
    else if line[k] == q then Some(k)
    else if line[k] == '\\' then
      if k + 1 < |line| && !IsLineTerminator(line[k + 1]) then ClosingQuote(line, k + 2, q) else None
    else ClosingQuote(line, k + 1, q)
  }

  /** A matched literal: its body (escapes left as written) and the new `lastIndex`. */
  datatype Literal = Literal(body: string, end: nat)

  predicate IsQuote(c: char) {
    c == '"' || c == '\''
  }

  /** `"([^"\\]*(\\.[^"\\]*)*)"|'([^'\\]*(\\.[^'\\]*)*)'` matched at exactly `i`. */
  function LiteralAt(line: string, i: nat): (m: Option<Literal>)
    requires i <= |line|
    ensures m.Some? ==>
      i < m.value.end <= |line| && IsQuote(line[i]) && OccursAt(line, [line[i]] + m.value.body + [line[i]], i)
  {
    if i < |line| && IsQuote(line[i]) then
      match ClosingQuote(line, i + 1, line[i])
      case Some(j) =>
        assert line[i..j + 1] == [line[i]] + line[i + 1..j] + [line[i]];
        Some(Literal(line[i + 1..j], j + 1))
      case None => None
    else
      None
  }

  function NextLiteral(line: string, i: nat): (m: Option<Literal>)
    requires i <= |line|
    ensures m.Some? ==> i < m.value.end <= |line|
    decreases |line| - i
  {
    var here := LiteralAt(line, i);
    if here.Some? then here
    else if i < |line| then NextLiteral(line, i + 1)
    else None
  }

  /** `"` + body + `"` or `'` + body + `'` occurs in the line. */
  predicate QuotedIn(line: string, body: string) {
    Contains(line, "\"" + body + "\"") || Contains(line, "'" + body + "'")
  }

  lemma {:induction false} NextLiteralQuoted(line: string, i: nat)
    requires i <= |line|
    ensures NextLiteral(line, i).Some? ==> QuotedIn(line, NextLiteral(line, i).value.body)
    decreases |line| - i
  {
    var here := LiteralAt(line, i);
    if here.Some? {
      var q := [line[i]];
      assert OccursAt(line, q + here.value.body + q, i);
      if line[i] == '"' {
        assert q + here.value.body + q == "\"" + here.value.body + "\"";
      } else {
        assert q + here.value.body + q == "'" + here.value.body + "'";
      }
    } else if i < |line| {
      NextLiteralQuoted(line, i + 1);
    }
  }

  /** The non-empty literal bodies found by the `exec` loop from `i` on (an
      empty match such as `""` still moves `lastIndex` past itself). */
  function LiteralsFrom(line: string, i: nat): (r: seq<string>)
    requires i <= |line|
    ensures forall k :: 0 <= k < |r| ==> r[k] != ""
    decreases |line| - i
  {
    match NextLiteral(line, i)
    case None => []
    case Some(m) => (if m.body != "" then [m.body] else []) + LiteralsFrom(line, m.end)
  }

  /** Every literal collected from a line stands quoted in that line. */
  lemma {:induction false} LiteralsFromQuoted(line: string, i: nat)
    requires i <= |line|
    ensures forall k :: 0 <= k < |LiteralsFrom(line, i)| ==> QuotedIn(line, LiteralsFrom(line, i)[k])
    decreases |line| - i
  {
    var m := NextLiteral(line, i);
    if m.Some? {
      NextLiteralQuoted(line, i);
      LiteralsFromQuoted(line, m.value.end);
    }
  }

  /** A line whose trimmed form starts with `--`. */
  predicate IsCommentLine(line: string) {
    StartsWith(Trim(line), "--")
  }

  function LineLiterals(line: string): seq<string> {
    if IsCommentLine(line) then [] else LiteralsFrom(line, 0)
  }

  /** The lists `f` gives for the elements, concatenated in order. */
  function FlatMap<T>(f: T -> seq<string>, xs: seq<T>): seq<string>
    decreases |xs|
  {
    if xs == [] then [] else f(xs[0]) + FlatMap(f, xs[1..])
  }

  lemma {:induction false} FlatMapSnoc<T>(f: T -> seq<string>, xs: seq<T>, x: T)
    ensures FlatMap(f, xs + [x]) == FlatMap(f, xs) + f(x)
    decreases |xs|
  {
    if xs == [] {
      assert ([x])[1..] == [];
    } else {
      assert (xs + [x])[0] == xs[0];
      assert (xs + [x])[1..] == xs[1..] + [x];
      FlatMapSnoc(f, xs[1..], x);
      AppendAssoc(f(xs[0]), FlatMap(f, xs[1..]), f(x));
    }
  }

  /** The literals of every line, in order. */
  function LiteralsOfLines(lines: seq<string>): seq<string> {
    FlatMap(LineLiterals, lines)
  }

  /** `body` was collected from `line`: the line is not a comment and shows it quoted. */
  predicate CollectedFrom(line: string, body: string) {
    !IsCommentLine(line) && QuotedIn(line, body)
  }

  lemma LineLiteralsQuoted(line: string)
    ensures forall s :: s in LineLiterals(line) ==> s != "" && CollectedFrom(line, s)
  {
    if !IsCommentLine(line) {
      LiteralsFromQuoted(line, 0);
    }
  }

  /** Every collected literal is non-empty and stands quoted on a line that is not a comment. */
  lemma {:induction false} LiteralsOfLinesOrigin(lines: seq<string>)
    ensures forall s :: s in LiteralsOfLines(lines) ==>
      s != "" && exists j :: 0 <= j < |lines| && CollectedFrom(lines[j], s)
    decreases |lines|
  {
    if lines != [] {
      LiteralsOfLinesOrigin(lines[1..]);
      LineLiteralsQuoted(lines[0]);
      forall s | s in LiteralsOfLines(lines)
        ensures s != "" && exists j :: 0 <= j < |lines| && CollectedFrom(lines[j], s)
      {
        if s in LineLiterals(lines[0]) {
          assert CollectedFrom(lines[0], s);
        } else {
          assert s in LiteralsOfLines(lines[1..]);
          var j :| 0 <= j < |lines[1..]| && CollectedFrom(lines[1..][j], s);
          assert lines[j + 1] == lines[1..][j];
        }
      }
    }
  }

  /** What `extractStrings` returns: every non-empty literal body, duplicates
      included, in order, from the lines that are not comments. */
  function StringsOf(code: string): seq<string> {
    LiteralsOfLines(Split(code, '\n'))
  }

  lemma LiteralsOfLinesSnoc(lines: seq<string>, line: string)
    ensures LiteralsOfLines(lines + [line]) == LiteralsOfLines(lines) + LineLiterals(line)
  {
    FlatMapSnoc(LineLiterals, lines, line);
  }

  lemma LiteralsOfLinesStep(lines: seq<string>, n: nat)
    requires n < |lines|
    ensures LiteralsOfLines(lines[..n + 1]) == LiteralsOfLines(lines[..n]) + LineLiterals(lines[n])
  {
    assert lines[..n + 1] == lines[..n] + [lines[n]];
    LiteralsOfLinesSnoc(lines[..n], lines[n]);
  }

  /** A comment line in front of the text contributes no literal. */
  lemma CommentLineIgnored(comment: string, rest: string)
    requires '\n' !in comment && IsCommentLine(comment)
    ensures StringsOf(comment + "\n" + rest) == StringsOf(rest)
  {
    var tail := Split(rest, '\n');
    SplitAfter(comment, '\n', rest);
    assert Split(comment + "\n" + rest, '\n') == [comment] + tail;
    assert ([comment] + tail)[1..] == tail;
    calc {
      LiteralsOfLines([comment] + tail);
      LineLiterals(comment) + LiteralsOfLines(tail);
      LiteralsOfLines(tail);
    }
  }

  /** The `exec` loop over one line: the non-empty literal bodies in order. */
  method ScanLiterals(line: string) returns (found: seq<string>)
    ensures found == LiteralsFrom(line, 0)
  {
    found := [];
    var lastIndex := 0;
    while true
      invariant lastIndex <= |line|
      invariant found + LiteralsFrom(line, lastIndex) == LiteralsFrom(line, 0)
      decreases |line| - lastIndex
    {
      var m := NextLiteral(line, lastIndex);
      if m.None? {
        break;
      }
      var str := m.value.body;
      ghost var taken := if str != "" then [str] else [];
      ghost var before := found;
      assert LiteralsFrom(line, lastIndex) == taken + LiteralsFrom(line, m.value.end);
      AppendAssoc(found, taken, LiteralsFrom(line, m.value.end));
      if str != "" {
        found := found + [str];
      }
      assert found == before + taken;
      lastIndex := m.value.end;
    }
  }

  /** One line of `extractStrings`: nothing from a comment line, otherwise the `exec` loop. */
  method LineStrings(line: string) returns (found: seq<string>)
    ensures found == LineLiterals(line)
  {
    found := [];
    if !IsCommentLine(line) {
      found := ScanLiterals(line);
    }
  }

  /** The loop over the lines of `extractStrings`, skipping comment lines. */
  method ScanLines(lines: seq<string>) returns (strings: seq<string>)
    ensures strings == LiteralsOfLines(lines)
  {
    strings := [];
    for li := 0 to |lines|
      invariant strings == LiteralsOfLines(lines[..li])
    {
      var found := LineStrings(lines[li]);
      LiteralsOfLinesStep(lines, li);
      strings := strings + found;
    }
    assert lines[..|lines|] == lines;
  }

  /** `extractStrings`: the text split at line feeds, then scanned line by line. */
  method ExtractStrings(code: string) returns (strings: seq<string>)
    ensures strings == StringsOf(code)
  {
    strings := ScanLines(Split(code, '\n'));
  }
}
