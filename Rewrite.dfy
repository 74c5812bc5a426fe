/** The two global replaces of `obfuscate` and the insertion-ordered `Map`
    they iterate over: `\bname\b` → replacement for every renamed identifier, and
    `["']name["']` → encoding for every collected literal. */
module Rewrite {
  import opened Text
  import opened Lexer

  // ---------------------------------------------------------------- whole-word replace

  /** `\bname\b` matches at `i`. An identifier starts and ends with word
      characters, so the two boundaries only look outside the occurrence. */
  predicate WordMatchAt(s: string, name: string, i: nat) {
    OccursAt(s, name, i)
    && (i == 0 || !IsWordChar(s[i - 1]))
    && (i + |name| == |s| || !IsWordChar(s[i + |name|]))
  }

  /** `s.replace(/\bname\b/g, repl)` from position `i` on; the regular expression
      always looks at the original text, and a match resumes after itself. */
  function ReplaceWordFrom(s: string, name: string, repl: string, i: nat): string
    requires name != [] && i <= |s|
    decreases |s| - i
  {
    if i == |s| then []
    else if WordMatchAt(s, name, i) then repl + ReplaceWordFrom(s, name, repl, i + |name|)
    else [s[i]] + ReplaceWordFrom(s, name, repl, i + 1)
  }

  function ReplaceWord(s: string, name: string, repl: string): string
    requires IsIdentifier(name)
  {
    ReplaceWordFrom(s, name, repl, 0)
  }

  /** The text cut into maximal runs of word characters and single other characters. */
  function TokensFrom(s: string, i: nat): seq<string>
    requires i <= |s|
    decreases |s| - i
  {
    if i == |s| then []
    else if IsWordChar(s[i]) then [s[i..WordEnd(s, i)]] + TokensFrom(s, WordEnd(s, i))
    else [[s[i]]] + TokensFrom(s, i + 1)
  }

  function Tokens(s: string): seq<string> {
    TokensFrom(s, 0)
  }

  /** Every token equal to `name` replaced by `repl`, every other token kept. */
  function Substitute(ts: seq<string>, name: string, repl: string): seq<string> {
    seq(|ts|, k requires 0 <= k < |ts| => if ts[k] == name then repl else ts[k])
  }

  lemma SubstituteCons(t: string, ts: seq<string>, name: string, repl: string)
    ensures Substitute([t] + ts, name, repl) == [if t == name then repl else t] + Substitute(ts, name, repl)
  {
  }

  lemma ConcatCons(x: string, rest: seq<string>)
    ensures Concat([x] + rest) == x + Concat(rest)
  {
    assert ([x] + rest)[1..] == rest;
  }

  /** The tokens put back together give the text. */
  lemma {:induction false} TokensConcat(s: string, i: nat)
    requires i <= |s|
    ensures Concat(TokensFrom(s, i)) == s[i..]
    decreases |s| - i
  {
    if i < |s| {
      if IsWordChar(s[i]) {
        var j := WordEnd(s, i);
        TokensConcat(s, j);
        WordTokenConcat(s, i, j);
      } else {
        TokensConcat(s, i + 1);
        OtherTokenConcat(s, i);
      }
    }
  }

  lemma WordTokenConcat(s: string, i: nat, j: nat)
    requires i < |s| && IsWordChar(s[i]) && j == WordEnd(s, i)
    requires Concat(TokensFrom(s, j)) == s[j..]
    ensures Concat(TokensFrom(s, i)) == s[i..]
  {
    assert TokensFrom(s, i) == [s[i..j]] + TokensFrom(s, j);
    ConcatCons(s[i..j], TokensFrom(s, j));
    assert s[i..] == s[i..j] + s[j..];
  }

  lemma OtherTokenConcat(s: string, i: nat)
    requires i < |s| && !IsWordChar(s[i])
    requires Concat(TokensFrom(s, i + 1)) == s[i + 1..]
    ensures Concat(TokensFrom(s, i)) == s[i..]
  {
    ConcatCons([s[i]], TokensFrom(s, i + 1));
    assert s[i..] == [s[i]] + s[i + 1..];
  }

  /** A run of word characters that ends at `e` ends the word that starts at `i`. */
  lemma {:induction false} WordEndAt(s: string, i: nat, e: nat)
    requires i <= e <= |s|
    requires forall k :: i <= k < e ==> IsWordChar(s[k])
    requires e == |s| || !IsWordChar(s[e])
    ensures WordEnd(s, i) == e
    decreases e - i
  {
    if i < e {
      WordEndAt(s, i + 1, e);
    }
  }

  /** Inside a word nothing matches: the rest of the word is copied. */
  lemma {:induction false} InsideWord(s: string, name: string, repl: string, j: nat, e: nat)
    requires name != [] && j <= e <= |s|
    requires j < e ==> !WordMatchAt(s, name, j)
    requires forall k :: j <= k < e ==> IsWordChar(s[k])
    ensures ReplaceWordFrom(s, name, repl, j) == s[j..e] + ReplaceWordFrom(s, name, repl, e)
    decreases e - j
  {
    if j < e {
      var rest := ReplaceWordFrom(s, name, repl, e);
      assert ReplaceWordFrom(s, name, repl, j) == [s[j]] + ReplaceWordFrom(s, name, repl, j + 1);
      InsideWord(s, name, repl, j + 1, e);
      AppendAssoc([s[j]], s[j + 1..e], rest);
      assert s[j..e] == [s[j]] + s[j + 1..e];
    }
  }

  /** The replace agrees with substituting whole tokens, from any position
      where a token starts. */
  lemma {:induction false} ReplaceWordFromTokens(s: string, name: string, repl: string, i: nat)
    requires IsIdentifier(name) && i <= |s|
    requires i == 0 || i == |s| || !IsWordChar(s[i - 1]) || !IsWordChar(s[i])
    ensures ReplaceWordFrom(s, name, repl, i) == Concat(Substitute(TokensFrom(s, i), name, repl))
    decreases |s| - i, 1
  {
    if i < |s| {
      if !IsWordChar(s[i]) {
        OtherTokenStep(s, name, repl, i);
      } else {
        WordTokenStep(s, name, repl, i);
      }
    }
  }

  /** A single non-word character is copied and matches nothing. */
  lemma {:induction false} OtherTokenStep(s: string, name: string, repl: string, i: nat)
    requires IsIdentifier(name) && i < |s| && !IsWordChar(s[i])
    ensures ReplaceWordFrom(s, name, repl, i) == Concat(Substitute(TokensFrom(s, i), name, repl))
    decreases |s| - i, 0
  {
    assert IsWordChar(name[0]);
    assert !WordMatchAt(s, name, i);
    assert [s[i]] != name;
    var rest := TokensFrom(s, i + 1);
    assert TokensFrom(s, i) == [[s[i]]] + rest;
    assert ReplaceWordFrom(s, name, repl, i) == [s[i]] + ReplaceWordFrom(s, name, repl, i + 1);
    ReplaceWordFromTokens(s, name, repl, i + 1);
    SubstituteCons([s[i]], rest, name, repl);
    ConcatCons([s[i]], Substitute(rest, name, repl));
  }

  /** A whole word is replaced when it equals `name` and copied otherwise. */
  lemma {:induction false} WordTokenStep(s: string, name: string, repl: string, i: nat)
    requires IsIdentifier(name) && i < |s| && IsWordChar(s[i])
    requires i == 0 || !IsWordChar(s[i - 1])
    ensures ReplaceWordFrom(s, name, repl, i) == Concat(Substitute(TokensFrom(s, i), name, repl))
    decreases |s| - i, 0
  {
    var e := WordEnd(s, i);
    var word := s[i..e];
    var replaced := if word == name then repl else word;
    WordStep(s, name, repl, i);
    ReplaceWordFromTokens(s, name, repl, e);
    assert TokensFrom(s, i) == [word] + TokensFrom(s, e);
    SubstituteCons(word, TokensFrom(s, e), name, repl);
    ConcatCons(replaced, Substitute(TokensFrom(s, e), name, repl));
  }

  /** From the start of a word the replace emits the word, or `repl` when the word is `name`. */
  lemma WordStep(s: string, name: string, repl: string, i: nat)
    requires IsIdentifier(name) && i < |s| && IsWordChar(s[i])
    requires i == 0 || !IsWordChar(s[i - 1])
    ensures var e := WordEnd(s, i);
      ReplaceWordFrom(s, name, repl, i)
      == (if s[i..e] == name then repl else s[i..e]) + ReplaceWordFrom(s, name, repl, e)
  {
    var e := WordEnd(s, i);
    if s[i..e] == name {
      WordStepMatch(s, name, repl, i);
    } else {
      WordStepOther(s, name, repl, i);
    }
  }

  lemma WordStepMatch(s: string, name: string, repl: string, i: nat)
    requires IsIdentifier(name) && i < |s| && IsWordChar(s[i])
    requires i == 0 || !IsWordChar(s[i - 1])
    requires s[i..WordEnd(s, i)] == name
    ensures ReplaceWordFrom(s, name, repl, i) == repl + ReplaceWordFrom(s, name, repl, WordEnd(s, i))
  {
    assert WordMatchAt(s, name, i);
    assert WordEnd(s, i) == i + |name|;
  }

  lemma WordStepOther(s: string, name: string, repl: string, i: nat)
    requires IsIdentifier(name) && i < |s| && IsWordChar(s[i])
    requires i == 0 || !IsWordChar(s[i - 1])
    requires s[i..WordEnd(s, i)] != name
    ensures ReplaceWordFrom(s, name, repl, i) == s[i..WordEnd(s, i)] + ReplaceWordFrom(s, name, repl, WordEnd(s, i))
  {
    NoMatchAtOtherWord(s, name, i);
    InsideWord(s, name, repl, i, WordEnd(s, i));
  }

  /** `\bname\b` does not match at the start of a word that differs from `name`. */
  lemma NoMatchAtOtherWord(s: string, name: string, i: nat)
    requires IsIdentifier(name) && i < |s|
    requires s[i..WordEnd(s, i)] != name
    ensures !WordMatchAt(s, name, i)
  {
    if WordMatchAt(s, name, i) {
      forall k | i <= k < i + |name|
        ensures IsWordChar(s[k])
      {
        assert s[k] == name[k - i];
      }
      WordEndAt(s, i, i + |name|);
    }
  }

  /** `\bname\b` replaces exactly the maximal identifier-character runs equal to
      `name`: a longer word that merely contains `name` is left alone. */
  lemma ReplaceWordByTokens(s: string, name: string, repl: string)
    requires IsIdentifier(name)
    ensures ReplaceWord(s, name, repl) == Concat(Substitute(Tokens(s), name, repl))
    ensures Concat(Tokens(s)) == s
  {
    ReplaceWordFromTokens(s, name, repl, 0);
    TokensConcat(s, 0);
  }

  /** Without a whole-word occurrence the text is unchanged. */
  lemma {:induction false} ReplaceWordAbsent(s: string, name: string, repl: string, i: nat)
    requires name != [] && i <= |s|
    requires forall k :: i <= k <= |s| ==> !WordMatchAt(s, name, k)
    ensures ReplaceWordFrom(s, name, repl, i) == s[i..]
    decreases |s| - i
  {
    if i < |s| {
      ReplaceWordAbsent(s, name, repl, i + 1);
      assert s[i..] == [s[i]] + s[i + 1..];
    }
  }

  // ---------------------------------------------------------------- quoted-literal replace

  /** `["']name["']` matches at `i`: either quote on each side, not necessarily the same. */
  predicate QuotedMatchAt(s: string, name: string, i: nat) {
    i + |name| + 2 <= |s| && IsQuote(s[i]) && OccursAt(s, name, i + 1) && IsQuote(s[i + |name| + 1])
  }

  /** The text that replaces one match when `String.prototype.replace` is given a
      replacement string and a pattern without capture groups: `$$` stands for `$`,
      `$&` for the match, `` $` `` for the text before it and `$'` for the text after
      it; any other `$`, a group reference such as `$1` included, stands for itself. */
  function Substitution(repl: string, matched: string, before: string, after: string): string
    decreases |repl|
  {
    if repl == [] then []
    else if repl[0] == '$' && |repl| >= 2 && repl[1] in "$&`'" then
      (match repl[1]
        case '$' => "$"
        case '&' => matched
        case '`' => before
        case _ => after) + Substitution(repl[2..], matched, before, after)
    else [repl[0]] + Substitution(repl[1..], matched, before, after)
  }

  /** A replacement without `$` is inserted as it stands. */
  lemma {:induction false} SubstitutionPlain(repl: string, matched: string, before: string, after: string)
    requires '$' !in repl
    ensures Substitution(repl, matched, before, after) == repl
    decreases |repl|
  {
    if repl != [] {
      assert '$' !in repl[1..];
      SubstitutionPlain(repl[1..], matched, before, after);
      assert repl == [repl[0]] + repl[1..];
    }
  }

  /** A doubled `$` inside a quoted replacement comes out single: `"$$"` gives `"$"`. */
  lemma QuotedDollars(matched: string, before: string, after: string)
    ensures Substitution("\"$$\"", matched, before, after) == "\"$\""
  {
    var q := "\"";
    assert "\"$$\""[1..] == "$$\"";
    assert "$$\""[2..] == q;
    assert Substitution(q, matched, before, after) == q by {
      assert q[1..] == [];
    }
  }

  /** `s.replace(/["']name["']/g, repl)` from position `i` on, with `name` escaped
      so that it matches literally; each match is replaced by `repl` with its `$`
      patterns expanded against the match and the whole of `s`. */
  function ReplaceQuotedFrom(s: string, name: string, repl: string, i: nat): string
    requires i <= |s|
    decreases |s| - i
  {
    if i == |s| then []
    else if QuotedMatchAt(s, name, i) then
      var j := i + |name| + 2;
      Substitution(repl, s[i..j], s[..i], s[j..]) + ReplaceQuotedFrom(s, name, repl, j)
    else [s[i]] + ReplaceQuotedFrom(s, name, repl, i + 1)
  }

  function ReplaceQuoted(s: string, name: string, repl: string): string {
    ReplaceQuotedFrom(s, name, repl, 0)
  }

  /** Without a quoted occurrence the text is unchanged. */
  lemma {:induction false} ReplaceQuotedAbsent(s: string, name: string, repl: string, i: nat)
    requires i <= |s|
    requires forall k :: i <= k <= |s| ==> !QuotedMatchAt(s, name, k)
    ensures ReplaceQuotedFrom(s, name, repl, i) == s[i..]
    decreases |s| - i
  {
    if i < |s| {
      ReplaceQuotedAbsent(s, name, repl, i + 1);
      assert s[i..] == [s[i]] + s[i + 1..];
    }
  }

  /** The replace leaves the text before a match alone and puts the expansion of
      `repl` where the quoted occurrence was, with the match, the text before it and
      the text after it as the expansion's three parts; it accepts `"name'` as well
      as `"name"`. */
  lemma {:induction false} ReplaceQuotedSplice(a: string, q1: char, name: string, q2: char, b: string, repl: string)
    requires IsQuote(q1) && IsQuote(q2)
    requires forall k :: 0 <= k < |a| ==> !QuotedMatchAt(a + [q1] + name + [q2] + b, name, k)
    ensures ReplaceQuoted(a + [q1] + name + [q2] + b, name, repl)
      == a + Substitution(repl, [q1] + name + [q2], a, b)
           + ReplaceQuotedFrom(a + [q1] + name + [q2] + b, name, repl, |a| + |name| + 2)
  {
    var s := a + [q1] + name + [q2] + b;
    SpliceParts(a, q1, name, q2, b);
    FirstMatchReplaced(s, name, repl, |a|);
  }

  /** How `a`, the quoted name and `b` sit in their concatenation. */
  lemma SpliceParts(a: string, q1: char, name: string, q2: char, b: string)
    requires IsQuote(q1) && IsQuote(q2)
    ensures var s := a + [q1] + name + [q2] + b;
      && QuotedMatchAt(s, name, |a|)
      && s[..|a|] == a && s[|a|..|a| + |name| + 2] == [q1] + name + [q2] && s[|a| + |name| + 2..] == b
  {
    var s := a + [q1] + name + [q2] + b;
    assert s[|a| + 1..|a| + 1 + |name|] == name;
    assert s[..|a|] == a;
    assert s[|a|..|a| + |name| + 2] == [q1] + name + [q2];
    assert s[|a| + |name| + 2..] == b;
  }

  /** The text before the first match is copied, and the match is replaced. */
  lemma FirstMatchReplaced(s: string, name: string, repl: string, i: nat)
    requires QuotedMatchAt(s, name, i)
    requires forall k :: 0 <= k < i ==> !QuotedMatchAt(s, name, k)
    ensures ReplaceQuoted(s, name, repl)
      == s[..i] + Substitution(repl, s[i..i + |name| + 2], s[..i], s[i + |name| + 2..])
           + ReplaceQuotedFrom(s, name, repl, i + |name| + 2)
  {
    var j := i + |name| + 2;
    PrefixCopied(s, name, repl, 0, i);
    AppendAssoc(s[..i], Substitution(repl, s[i..j], s[..i], s[j..]), ReplaceQuotedFrom(s, name, repl, j));
  }

  lemma {:induction false} PrefixCopied(s: string, name: string, repl: string, i: nat, j: nat)
    requires i <= j <= |s|
    requires forall k :: i <= k < j ==> !QuotedMatchAt(s, name, k)
    ensures ReplaceQuotedFrom(s, name, repl, i) == s[i..j] + ReplaceQuotedFrom(s, name, repl, j)
    decreases j - i
  {
    if i < j {
      var rest := ReplaceQuotedFrom(s, name, repl, j);
      assert ReplaceQuotedFrom(s, name, repl, i) == [s[i]] + ReplaceQuotedFrom(s, name, repl, i + 1);
      PrefixCopied(s, name, repl, i + 1, j);
      AppendAssoc([s[i]], s[i + 1..j], rest);
      assert s[i..j] == [s[i]] + s[i + 1..j];
    }
  }

  // ---------------------------------------------------------------- insertion-ordered map

  /** A JavaScript `Map` as its entries in insertion order. */
  type Entries = seq<(string, string)>

  function Keys(m: Entries): seq<string> {
    seq(|m|, i requires 0 <= i < |m| => m[i].0)
  }

  /** Where `x` sits in `s`. */
  function IndexOf(s: seq<string>, x: string): (i: nat)
    requires x in s
    ensures i < |s| && s[i] == x
    decreases |s|
  {
    if s[0] == x then 0 else 1 + IndexOf(s[1..], x)
  }

  /** `Map.prototype.set`: an existing key keeps its place and takes the new
      value; a new key is appended. */
  function MapSet(m: Entries, k: string, v: string): (r: Entries)
    requires Distinct(Keys(m))
    ensures Keys(r) == Insert(Keys(m), k) && Distinct(Keys(r))
    ensures forall i :: 0 <= i < |r| && r[i].0 == k ==> r[i].1 == v
    ensures forall i :: 0 <= i < |r| && r[i].0 != k ==> i < |m| && r[i] == m[i]
  {
    if k in Keys(m) then
      var j := IndexOf(Keys(m), k);
      var r := m[j := (k, v)];
      assert Keys(r) == Keys(m);
      forall i | 0 <= i < |r| && r[i].0 == k
        ensures r[i] == (k, v)
      {
        assert Keys(m)[i] == Keys(m)[j];
        assert i == j;
      }
      r
    else
      var r := m + [(k, v)];
      assert Keys(r) == Keys(m) + [k];
      assert forall i :: 0 <= i < |m| ==> r[i].0 == Keys(m)[i] != k;
      r
  }

  /** Setting a key the map does not hold appends the entry. */
  lemma MapSetNew(m: Entries, k: string, v: string)
    requires Distinct(Keys(m)) && k !in Keys(m)
    ensures MapSet(m, k, v) == m + [(k, v)]
    ensures Keys(m + [(k, v)]) == Keys(m) + [k]
  {
    assert Keys(m + [(k, v)]) == Keys(m) + [k];
  }

  /** The `forEach` over the variable map: each entry's whole-word replace in insertion order. */
  function RenameAll(code: string, m: Entries): string
    requires forall i :: 0 <= i < |m| ==> IsIdentifier(m[i].0)
    decreases |m|
  {
    if m == [] then code else RenameAll(ReplaceWord(code, m[0].0, m[0].1), m[1..])
  }

  /** The `forEach` over the string map: each entry's quoted replace in insertion order. */
  function ReplaceLiterals(code: string, m: Entries): string
    decreases |m|
  {
    if m == [] then code else ReplaceLiterals(ReplaceQuoted(code, m[0].0, m[0].1), m[1..])
  }
}
