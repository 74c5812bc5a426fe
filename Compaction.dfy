/** The `compactCode` step of `obfuscate`: a global replace of `\s+` by a
    space, then a global replace of `\n\s*` by a line feed, then `trim`.
    The first replace already turns every line feed into a space, so the second
    never matches and the result is one line; a Lua `--` comment then runs to
    the end of the whole program. `CompactAsWritten` is that behaviour, and
    `CompactCode` is the line-preserving compaction the second replace was
    evidently meant to give, which the rest of the model uses. */
module Compaction {
  import opened Text
  import opened Lexer

  /** No two consecutive white-space characters. */
  predicate NoDoubleSpace(s: string) {
    forall i, j :: 0 <= i < |s| && 0 <= j < |s| && j == i + 1 ==> !(IsSpace(s[i]) && IsSpace(s[j]))
  }

  /** The characters of `s` that are not white space, in order. */
  function NonSpace(s: string): string
    decreases |s|
  {
    if s == [] then [] else (if IsSpace(s[0]) then [] else [s[0]]) + NonSpace(s[1..])
  }

  lemma {:induction false} NonSpaceAppend(a: string, b: string)
    ensures NonSpace(a + b) == NonSpace(a) + NonSpace(b)
    decreases |a|
  {
    if a == [] {
      assert a + b == b;
    } else {
      NonSpaceAppend(a[1..], b);
      var first := if IsSpace(a[0]) then [] else [a[0]];
      assert (a + b)[0] == a[0] && (a + b)[1..] == a[1..] + b;
      assert NonSpace(a + b) == first + NonSpace(a[1..] + b);
      assert NonSpace(a) == first + NonSpace(a[1..]);
    }
  }

  lemma {:induction false} NonSpaceOfSpace(s: string)
    requires AllSpace(s)
    ensures NonSpace(s) == []
    decreases |s|
  {
    if s != [] {
      NonSpaceOfSpace(s[1..]);
    }
  }

  /** The global replace of `\s+` by a space: every run of white space becomes one space. */
  function CollapseSpace(s: string): (r: string)
    ensures forall i :: 0 <= i < |r| && IsSpace(r[i]) ==> r[i] == ' '
    ensures NoDoubleSpace(r)
    ensures NonSpace(r) == NonSpace(s)
    ensures r == [] <==> s == []
    ensures r != [] ==> (IsSpace(r[0]) <==> IsSpace(s[0]))
    ensures r != [] && !IsSpace(s[0]) ==> r[0] == s[0]
    decreases |s|
  {
    if s == [] then []
    else if IsSpace(s[0]) then
      var e := SpaceEnd(s, 0);
      var rest := CollapseSpace(s[e..]);
      NonSpaceAppend(s[..e], s[e..]);
      NonSpaceOfSpace(s[..e]);
      NonSpaceAppend(" ", rest);
      NoDoubleCons(' ', rest);
      assert s == s[..e] + s[e..];
      " " + rest
    else
      var rest := CollapseSpace(s[1..]);
      NonSpaceAppend([s[0]], rest);
      NoDoubleCons(s[0], rest);
      [s[0]] + rest
  }

  /** A character put in front of a text without double white space keeps it
      so, unless both are white space. */
  lemma NoDoubleCons(c: char, rest: string)
    requires NoDoubleSpace(rest)
    requires rest != [] && IsSpace(c) ==> !IsSpace(rest[0])
    ensures NoDoubleSpace([c] + rest)
  {
    var s := [c] + rest;
    forall i, j | 0 <= i < |s| && 0 <= j < |s| && j == i + 1
      ensures !(IsSpace(s[i]) && IsSpace(s[j]))
    {
      if i > 0 {
        assert s[i] == rest[i - 1] && s[j] == rest[j - 1];
      }
    }
  }

  /** The global replace of `\n\s*` by a line feed: a line feed swallows the white space after it. */
  function DropIndent(s: string): string
    decreases |s|
  {
    if s == [] then []
    else if s[0] == '\n' then "\n" + DropIndent(s[SpaceEnd(s, 1)..])
    else [s[0]] + DropIndent(s[1..])
  }

  lemma {:induction false} DropIndentNoLineFeed(s: string)
    requires '\n' !in s
    ensures DropIndent(s) == s
    decreases |s|
  {
    if s != [] {
      DropIndentNoLineFeed(s[1..]);
    }
  }

  /** The compaction as the source writes it. */
  /** One line, with no doubled white space and none at either end. */
  predicate Compacted(r: string) {
    && '\n' !in r && NoDoubleSpace(r)
    && (r != [] ==> !IsSpace(r[0]) && !IsSpace(r[|r| - 1]))
  }

  function CompactAsWritten(s: string): string {
    Trim(DropIndent(CollapseSpace(s)))
  }

  /** `Trim` returns a slice of its argument. */
  lemma TrimIsSlice(s: string) returns (k: nat, n: nat)
    ensures k + n <= |s| && Trim(s) == s[k..k + n]
    ensures AllSpace(s[..k]) && AllSpace(s[k + n..])
  {
    var t := TrimStart(s);
    k := |s| - |t|;
    n := |TrimEnd(t)|;
    TrimmedSlice(s, k, t);
    TrailingSpace(s, k, t);
  }

  /** Trimming the end of a suffix leaves a slice of the whole. */
  lemma TrimmedSlice(s: string, k: nat, t: string)
    requires k <= |s| && t == s[k..]
    ensures TrimEnd(t) == s[k..k + |TrimEnd(t)|]
  {
  }

  /** What trimming the end of a suffix drops is the white space at the end of the whole. */
  lemma TrailingSpace(s: string, k: nat, t: string)
    requires k <= |s| && t == s[k..]
    ensures AllSpace(s[k + |TrimEnd(t)|..])
  {
    var n := |TrimEnd(t)|;
    assert t[n..] == s[k + n..];
  }

  lemma CollapseNoLineFeed(s: string)
    ensures '\n' !in CollapseSpace(s)
  {
  }

  /** Trimming keeps every non-space character and adds neither a line feed nor double white space. */
  lemma TrimShape(c: string)
    ensures NonSpace(Trim(c)) == NonSpace(c)
    ensures NoDoubleSpace(c) ==> NoDoubleSpace(Trim(c))
    ensures '\n' !in c ==> '\n' !in Trim(c)
  {
    TrimKeepsNonSpace(c);
    TrimKeepsOneLine(c);
  }

  lemma TrimKeepsNonSpace(c: string)
    ensures NonSpace(Trim(c)) == NonSpace(c)
  {
    var k, n := TrimIsSlice(c);
    TrimNonSpace(c, k, n);
  }

  lemma TrimKeepsOneLine(c: string)
    ensures NoDoubleSpace(c) ==> NoDoubleSpace(Trim(c))
    ensures '\n' !in c ==> '\n' !in Trim(c)
  {
    var k, n := TrimIsSlice(c);
    SliceShape(c, k, k + n);
  }

  /** Dropping all-space text from both ends keeps the non-space characters. */
  lemma TrimNonSpace(c: string, k: nat, n: nat)
    requires k + n <= |c|
    requires AllSpace(c[..k]) && AllSpace(c[k + n..])
    ensures NonSpace(c[k..k + n]) == NonSpace(c)
  {
    var x, m, y := c[..k], c[k..k + n], c[k + n..];
    assert c[k..] == m + y;
    assert c == x + c[k..];
    NonSpaceAppend(x, c[k..]);
    NonSpaceAppend(m, y);
    NonSpaceOfSpace(x);
    NonSpaceOfSpace(y);
  }

  lemma SliceShape(c: string, i: nat, j: nat)
    requires i <= j <= |c|
    ensures NoDoubleSpace(c) ==> NoDoubleSpace(c[i..j])
    ensures '\n' !in c ==> '\n' !in c[i..j]
  {
    assert forall k :: 0 <= k < j - i ==> c[i..j][k] == c[i + k];
  }

  /** The compacted body holds no line feed, no two consecutive white-space
      characters and no white space at either end, and it keeps every other
      character of the input in order. */
  lemma CompactAsWrittenShape(s: string)
    ensures var r := CompactAsWritten(s);
      '\n' !in r && NoDoubleSpace(r)
      && (r != [] ==> !IsSpace(r[0]) && !IsSpace(r[|r| - 1]))
      && NonSpace(r) == NonSpace(s)
  {
    var c := CollapseSpace(s);
    CollapseNoLineFeed(s);
    DropIndentNoLineFeed(c);
    TrimShape(c);
  }

  /** A comment on the first line swallows the code on the next one: whatever
      the next line holds (`-- c` then `x`, say), the compacted text is one
      line, that line is a comment, and the next line's characters are inside it. */
  lemma CommentSwallowsNextLine(comment: string, next: string)
    requires StartsWith(comment, "--")
    ensures var r := CompactAsWritten(comment + "\n" + next);
      Split(r, '\n') == [r] && IsCommentLine(r)
      && NonSpace(r) == NonSpace(comment) + NonSpace(next)
  {
    var s := comment + "\n" + next;
    var r := CompactAsWritten(s);
    assert StartsWith(s, "--") by {
      assert s[..2] == comment[..2];
    }
    assert Split(r, '\n') == [r] by {
      CompactAsWrittenShape(s);
      SplitNoSeparator(r, '\n');
    }
    assert IsCommentLine(r) by {
      AsWrittenComment(s);
    }
    assert NonSpace(r) == NonSpace(comment) + NonSpace(next) by {
      CompactAsWrittenShape(s);
      NonSpaceAcrossLine(comment, next);
    }
  }

  lemma NonSpaceAcrossLine(a: string, b: string)
    ensures NonSpace(a + "\n" + b) == NonSpace(a) + NonSpace(b)
  {
    AppendAssoc(a, "\n", b);
    NonSpaceAppend(a, "\n" + b);
    NonSpaceAfterSpace('\n', b);
  }

  lemma NonSpaceAfterSpace(c: char, b: string)
    requires IsSpace(c)
    ensures NonSpace([c] + b) == NonSpace(b)
  {
    assert ([c] + b)[1..] == b;
  }

  /** A text starting with `--` compacts to a comment line. */
  lemma AsWrittenComment(s: string)
    requires StartsWith(s, "--")
    ensures IsCommentLine(CompactAsWritten(s))
  {
    var c := CollapseSpace(s);
    var r := CompactAsWritten(s);
    CollapseNoLineFeed(s);
    DropIndentNoLineFeed(c);
    assert r == Trim(c);
    LeadingDashesTrim(s);
    CollapsedDashes(s);
    assert StartsWith(r, "--");
    CompactAsWrittenShape(s);
    TrimOfTrimmed(r);
  }

  lemma LeadingDashesTrim(s: string)
    requires StartsWith(s, "--")
    ensures StartsWith(Trim(s), "--")
  {
    assert !IsSpace(s[0]);
    assert TrimStart(s) == s;
    DashesTrimEnd(s);
  }

  // ---------------------------------------------------------------- line-preserving compaction

  /** One line compacted: white-space runs collapsed to a space, then trimmed. */
  function CompactLine(line: string): string {
    Trim(CollapseSpace(line))
  }

  /** The blank lines dropped, the others compacted. */
  function CompactLines(lines: seq<string>): seq<string>
    decreases |lines|
  {
    if lines == [] then []
    else (if AllSpace(lines[0]) then [] else [CompactLine(lines[0])]) + CompactLines(lines[1..])
  }

  /** The corrected compaction: the compacted non-blank lines, one per line. */
  function CompactCode(s: string): string {
    Join(CompactLines(Split(s, '\n')), "\n")
  }

  /** A compacted line is non-empty exactly when the line is not blank, keeps
      every other character, has no line feed, no double white space and no
      white space at either end. */
  lemma CompactLineShape(line: string)
    ensures var r := CompactLine(line);
      (r == [] <==> AllSpace(line))
      && '\n' !in r && NoDoubleSpace(r)
      && (r != [] ==> !IsSpace(r[0]) && !IsSpace(r[|r| - 1]))
      && NonSpace(r) == NonSpace(line)
  {
    var c := CollapseSpace(line);
    CollapseNoLineFeed(line);
    TrimShape(c);
    AllSpaceIffNoNonSpace(line);
    AllSpaceIffNoNonSpace(c);
  }

  lemma {:induction false} AllSpaceIffNoNonSpace(s: string)
    ensures AllSpace(s) <==> NonSpace(s) == []
    decreases |s|
  {
    if s != [] {
      AllSpaceIffNoNonSpace(s[1..]);
      if AllSpace(s[1..]) && IsSpace(s[0]) {
        assert AllSpace(s);
      }
    }
  }

  /** Non-empty, on one line, trimmed and free of double white space. */
  predicate CompactShaped(r: string) {
    r != [] && '\n' !in r && NoDoubleSpace(r) && !IsSpace(r[0]) && !IsSpace(r[|r| - 1])
  }

  /** Every line of `ls` is compact-shaped. */
  predicate AllShaped(ls: seq<string>)
    decreases |ls|
  {
    ls != [] ==> CompactShaped(ls[0]) && AllShaped(ls[1..])
  }

  /** Every compacted line is non-empty, trimmed and free of double white space. */
  lemma {:induction false} CompactLinesShape(lines: seq<string>)
    ensures AllShaped(CompactLines(lines))
    decreases |lines|
  {
    if lines != [] {
      CompactLinesShape(lines[1..]);
      var r, rest := CompactLines(lines), CompactLines(lines[1..]);
      if AllSpace(lines[0]) {
        assert r == rest;
      } else {
        CompactLineShaped(lines[0]);
        assert r[0] == CompactLine(lines[0]) && r[1..] == rest;
      }
    }
  }

  /** No compact-shaped line holds a line feed. */
  lemma {:induction false} ShapedNoLineFeed(ls: seq<string>)
    requires AllShaped(ls)
    ensures forall i :: 0 <= i < |ls| ==> '\n' !in ls[i]
    decreases |ls|
  {
    if ls != [] {
      ShapedNoLineFeed(ls[1..]);
      forall i | 1 <= i < |ls|
        ensures '\n' !in ls[i]
      {
        assert ls[i] == ls[1..][i - 1];
      }
    }
  }

  lemma CompactLineShaped(line: string)
    requires !AllSpace(line)
    ensures CompactShaped(CompactLine(line))
  {
    CompactLineShape(line);
  }

  /** The corrected compaction keeps the line structure: splitting its result
      gives exactly the compacted non-blank lines, so no line's comment can
      reach into the next line. */
  lemma CompactCodeLines(s: string)
    ensures CompactLines(Split(s, '\n')) == [] ==> CompactCode(s) == ""
    ensures CompactLines(Split(s, '\n')) != [] ==> Split(CompactCode(s), '\n') == CompactLines(Split(s, '\n'))
  {
    var ls := CompactLines(Split(s, '\n'));
    CompactLinesShape(Split(s, '\n'));
    ShapedNoLineFeed(ls);
    if ls != [] {
      SplitJoin(ls, '\n');
    }
  }

  /** Compacting a line never makes it a comment and never stops it being one. */
  lemma CompactLineComment(line: string)
    ensures IsCommentLine(CompactLine(line)) <==> IsCommentLine(line)
  {
    var c := CollapseSpace(line);
    var r := CompactLine(line);
    TrimOfTrimmed(r);
    assert IsCommentLine(r) == StartsWith(Trim(c), "--");
    CollapsedDashes(line);
  }

  /** A trimmed text trims to itself. */
  lemma TrimOfTrimmed(x: string)
    requires x != [] ==> !IsSpace(x[0]) && !IsSpace(x[|x| - 1])
    ensures Trim(x) == x
  {
    if x != [] {
      assert TrimStart(x) == x;
      assert TrimEnd(x) == x;
    }
  }

  /** The trimmed collapsed line starts with `--` exactly when the trimmed line does. */
  lemma CollapsedDashes(line: string)
    ensures StartsWith(Trim(CollapseSpace(line)), "--") <==> StartsWith(Trim(line), "--")
  {
    var t := TrimStart(line);
    var c := CollapseSpace(line);
    TrimStartCollapse(line);
    DashesTrimEnd(TrimStart(c));
    assert StartsWith(Trim(c), "--") <==> StartsWith(CollapseSpace(t), "--");
    DashesCollapse(t);
    DashesTrimEnd(t);
  }

  /** Trimming the front of a collapsed line is collapsing its trimmed front. */
  lemma TrimStartCollapse(line: string)
    ensures TrimStart(CollapseSpace(line)) == CollapseSpace(TrimStart(line))
  {
    var t := TrimStart(line);
    var k := |line| - |t|;
    if k > 0 {
      SpaceEndAt(line, 0, k);
      assert line[k..] == t;
      TrimStartOfCollapsed(t);
    } else {
      assert t == line;
      TrimStartOfCollapsed(t);
    }
  }

  /** A collapsed text that starts with a non-space, after at most one space, trims to itself. */
  lemma TrimStartOfCollapsed(t: string)
    requires t != [] ==> !IsSpace(t[0])
    ensures TrimStart(" " + CollapseSpace(t)) == CollapseSpace(t)
    ensures TrimStart(CollapseSpace(t)) == CollapseSpace(t)
  {
    TrimStartAfterSpace(CollapseSpace(t));
  }

  lemma TrimStartAfterSpace(r: string)
    requires r != [] ==> !IsSpace(r[0])
    ensures TrimStart(" " + r) == r && TrimStart(r) == r
  {
    TrimStartSpace(r);
  }

  /** A leading space is dropped. */
  lemma TrimStartSpace(r: string)
    ensures TrimStart(" " + r) == TrimStart(r)
  {
    assert (" " + r)[1..] == r;
  }

  lemma {:induction false} SpaceEndAt(s: string, i: nat, e: nat)
    requires i <= e <= |s|
    requires forall k :: i <= k < e ==> IsSpace(s[k])
    requires e == |s| || !IsSpace(s[e])
    ensures SpaceEnd(s, i) == e
    decreases e - i
  {
    if i < e {
      SpaceEndAt(s, i + 1, e);
    }
  }

  /** A text starting with a non-space starts with `--` exactly when its collapsed form does. */
  lemma DashesCollapse(t: string)
    requires t != [] ==> !IsSpace(t[0])
    ensures StartsWith(CollapseSpace(t), "--") <==> StartsWith(t, "--")
  {
    var r := CollapseSpace(t);
    Dashes(r);
    Dashes(t);
    if |t| >= 2 {
      var rest := CollapseSpace(t[1..]);
      assert r == [t[0]] + rest;
      assert rest != [] && (rest[0] == '-' <==> t[1] == '-');
    } else if t != [] {
      assert r == [t[0]] + CollapseSpace(t[1..]);
    }
  }

  /** A text starts with `--` exactly when its first two characters are dashes. */
  lemma Dashes(x: string)
    ensures StartsWith(x, "--") <==> |x| >= 2 && x[0] == '-' && x[1] == '-'
  {
    if |x| >= 2 && x[0] == '-' && x[1] == '-' {
      assert x[..2] == "--";
    }
  }

  /** Dropping trailing white space neither creates nor removes a leading `--`. */
  lemma DashesTrimEnd(x: string)
    ensures StartsWith(TrimEnd(x), "--") <==> StartsWith(x, "--")
  {
    if StartsWith(x, "--") {
      TrimEndKeeps(x, 1);
    }
  }

  /** Dropping trailing white space keeps every character up to the last non-space one. */
  lemma TrimEndKeeps(x: string, i: nat)
    requires i < |x| && !IsSpace(x[i])
    ensures i < |TrimEnd(x)|
  {
    var r := TrimEnd(x);
    forall j | |r| <= j < |x|
      ensures IsSpace(x[j])
    {
      assert x[|r|..][j - |r|] == x[j];
    }
  }
}
