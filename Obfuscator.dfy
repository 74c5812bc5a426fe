/** `LuaObfuscator`: the set of names issued so far, the two reserved sets,
    the random source, and the stages that `obfuscate` threads one text
    buffer through. */
module Obfuscator {
  import opened Wrappers
  import opened Text
  import opened Reserved
  import opened Entropy
  import opened Lexer
  import opened Encoders
  import opened Rewrite
  import opened Lines
  import opened Compaction
  import opened Fragments

  /** `ObfuscationOptions`: which stages run. */
  datatype Options = Options(
    obfuscateVariables: bool,
    obfuscateStrings: bool,
    obfuscateControlFlow: bool,
    insertDeadCode: bool,
    compactCode: bool,
    antiDebug: bool,
    runtimeChecks: bool,
    encryptCode: bool,
    selfModifying: bool,
    environmentDetection: bool)

  // ---------------------------------------------------------------- synthetic names

  /** The alphabet of the characters after the prefix: the lower-case letters,
      the upper-case letters, then the digits and `_`, as one 63-character string. */
  const NameChars: string := LowerCase + UpperCase + DigitsAndUnderscore

  const LowerCase: string := "abcdefghijklmnopqrstuvwxyz"
  const UpperCase: string := "ABCDEFGHIJKLMNOPQRSTUVWXYZ"
  const DigitsAndUnderscore: string := "0123456789_"

  /** The default and only prefix the engine passes. */
  const DefaultPrefix: string := "_"

  /** How many candidates the name generator draws before it gives up. */
  const MaxAttempts: nat := 1000

  predicate FromAlphabet(body: string) {
    forall i :: 0 <= i < |body| ==> IsWordChar(body[i])
  }

  /** The alphabet holds 63 characters, all of them `[a-zA-Z0-9_]`. */
  lemma NameCharsAreWordChars()
    ensures |NameChars| == 63
    ensures FromAlphabet(NameChars)
  {
    LowerCaseAreWordChars();
    UpperCaseAreWordChars();
    DigitsAreWordChars();
    AlphabetAppend(LowerCase, UpperCase);
    AlphabetAppend(LowerCase + UpperCase, DigitsAndUnderscore);
  }

  lemma AlphabetAppend(a: string, b: string)
    requires FromAlphabet(a) && FromAlphabet(b)
    ensures FromAlphabet(a + b)
  {
    assert forall i :: |a| <= i < |a + b| ==> (a + b)[i] == b[i - |a|];
  }

  lemma LowerCaseAreWordChars()
    ensures |LowerCase| == 26 && FromAlphabet(LowerCase)
  {
  }

  lemma UpperCaseAreWordChars()
    ensures |UpperCase| == 26 && FromAlphabet(UpperCase)
  {
  }

  lemma DigitsAreWordChars()
    ensures |DigitsAndUnderscore| == 11 && FromAlphabet(DigitsAndUnderscore)
  {
  }

  /** The characters a candidate's draws select: the first draw fixes the
      length 6 + floor(r * 6), each later draw one character of the alphabet. */
  function CandidateBody(draws: nat -> Draw, start: nat): (body: string)
    ensures 6 <= |body| <= 11 && FromAlphabet(body)
  {
    NameCharsAreWordChars();
    var body := DrawnChars(NameChars, draws, start);
    assert forall i :: 0 <= i < |body| ==> body[i] == NameChars[Scaled(draws(start + 1 + i), 63)];
    body
  }

  /** The same draws read against any alphabet. */
  function DrawnChars(alphabet: string, draws: nat -> Draw, start: nat): (body: string)
    requires |alphabet| > 0
    ensures |body| == 6 + Scaled(draws(start), 6)
    ensures forall i :: 0 <= i < |body| ==> body[i] == alphabet[Scaled(draws(start + 1 + i), |alphabet|)]
  {
    var length := 6 + Scaled(draws(start), 6);
    seq(length, i requires 0 <= i < length => alphabet[Scaled(draws(start + 1 + i), |alphabet|)])
  }

  /** Characters taken one per draw after the length draw, as many as it says, are the drawn characters. */
  lemma DrawnBody(alphabet: string, draws: nat -> Draw, start: nat, from: nat, chars: string)
    requires |alphabet| > 0
    requires from == start + 1 && |chars| == 6 + Scaled(draws(start), 6)
    requires forall j :: 0 <= j < |chars| ==> chars[j] == alphabet[Scaled(draws(from + j), |alphabet|)]
    ensures chars == DrawnChars(alphabet, draws, start)
  {
    var body := DrawnChars(alphabet, draws, start);
    forall j | 0 <= j < |chars|
      ensures chars[j] == body[j]
    {
      assert from + j == start + 1 + j;
    }
  }

  /** The prefix and the drawn characters, with `_` put in front when they do
      not start with `[a-zA-Z_]`. */
  function Candidate(prefix: string, body: string): string {
    var name := prefix + body;
    if name != [] && IsIdentStart(name[0]) then name else "_" + name
  }

  /** A name the engine issues: `_` and 6 to 11 characters of `[a-zA-Z0-9_]`. */
  predicate IsSynthName(name: string) {
    7 <= |name| <= 12 && name[0] == '_' && FromAlphabet(name[1..])
  }

  /** Every candidate starts with a letter or `_`; with the default prefix it is
      `_` and the drawn characters, a Lua identifier. */
  lemma CandidateShape(prefix: string, body: string)
    requires 6 <= |body| <= 11 && FromAlphabet(body)
    ensures var name := Candidate(prefix, body); name != [] && IsIdentStart(name[0])
    ensures prefix == DefaultPrefix ==> Candidate(prefix, body) == "_" + body
    ensures prefix == DefaultPrefix ==> IsSynthName(Candidate(prefix, body)) && IsIdentifier(Candidate(prefix, body))
  {
    if prefix == DefaultPrefix {
      var name := "_" + body;
      assert name[1..] == body;
      assert name[0] == '_';
      assert forall i :: 1 <= i < |name| ==> name[i] == body[i - 1];
    }
  }

  /** A synthetic name is a Lua identifier and holds no line feed. */
  lemma SynthNameIsIdentifier(name: string)
    requires IsSynthName(name)
    ensures IsIdentifier(name) && '\n' !in name
  {
    assert forall i :: 1 <= i < |name| ==> name[i] == name[1..][i - 1];
  }

  /** The technique `obfuscateString` applies for index `k`. */
  function Technique(k: nat, s: string): (text: string)
    ensures IsEncodingOf(s, text)
  {
    if k == 0 then CharCodeForm(s) else if k == 1 then SplitForm(s) else MixedForm(s)
  }

  /** A line `insertDeadCode` can return for the seven names it drew. */
  ghost predicate IsDeadCodeLine(line: string, names: seq<string>) {
    |names| == 7 && exists pick: nat :: pick < 7 && IsSnippet(line, names, pick)
  }

  /** Snippet number `pick` of `insertDeadCode`, for some values pasted into it. */
  ghost predicate IsSnippet(line: string, names: seq<string>, pick: nat)
    requires |names| == 7 && pick < 7
  {
    exists small: nat, flag: bool, number: NumberText, large: nat ::
      small < 100 && large < 1000 && line == DeadCodeSnippets(names, small, flag, number, large)[pick]
  }

  /** A line `obfuscateControlFlow` can insert for the one name it drew. */
  ghost predicate IsDummyLine(line: string, names: seq<string>) {
    |names| == 1 && exists flag: bool, value: nat :: value < 100 && line == DummyCondition(flag, names[0], value)
  }

  lemma NumberTextOneLine(number: NumberText)
    ensures '\n' !in number
  {
  }

  predicate AllSynth(names: seq<string>) {
    forall i :: 0 <= i < |names| ==> IsSynthName(names[i])
  }

  /** The names issued for one line of a pass: none when nothing was inserted,
      otherwise the `width` names the inserted line was `made` from. */
  ghost predicate ExtraIssued(extra: Option<string>, names: seq<string>, width: nat, made: (string, seq<string>) -> bool) {
    if extra.None? then names == [] else |names| == width && made(extra.value, names)
  }

  /** The names a pass issued, in order: those of each line's extra in turn. */
  ghost predicate ExtrasIssued(extras: seq<Option<string>>, names: seq<string>, width: nat, made: (string, seq<string>) -> bool)
    decreases |extras|
  {
    if extras == [] then names == []
    else
      var last := extras[|extras| - 1];
      var k := if last.None? then 0 else width;
      && k <= |names|
      && ExtraIssued(last, names[|names| - k..], width, made)
      && ExtrasIssued(extras[..|extras| - 1], names[..|names| - k], width, made)
  }

  lemma ExtrasIssuedSnoc(extras: seq<Option<string>>, names: seq<string>, extra: Option<string>, more: seq<string>,
                         width: nat, made: (string, seq<string>) -> bool)
    requires ExtrasIssued(extras, names, width, made) && ExtraIssued(extra, more, width, made)
    ensures ExtrasIssued(extras + [extra], names + more, width, made)
  {
    var all := names + more;
    assert (extras + [extra])[..|extras|] == extras;
    assert all[|all| - |more|..] == more;
    assert all[..|all| - |more|] == names;
  }

  /** Which lines a pass inserted after: the turn of line `i` starts with the
      draw at position `at[i]`, the turns' draws come one after another, and an
      extra follows line `i` exactly when its draw exceeds `threshold` and the
      line is eligible. */
  ghost predicate Rolled(draws: nat -> Draw, lines: seq<string>, extras: seq<Option<string>>, at: seq<nat>,
                         threshold: real, eligible: string -> bool)
    decreases |lines|
  {
    && |at| == |extras| == |lines|
    && (lines != [] ==>
          var k := |lines| - 1;
          && (extras[k].Some? <==> draws(at[k]) > threshold && eligible(lines[k]))
          && (k > 0 ==> at[k - 1] < at[k])
          && Rolled(draws, lines[..k], extras[..k], at[..k], threshold, eligible))
  }

  /** Line by line: the positions increase, and line `i` has an extra exactly
      when the draw at `at[i]` exceeds the threshold and the line is eligible. */
  lemma {:induction false} RolledLines(draws: nat -> Draw, lines: seq<string>, extras: seq<Option<string>>, at: seq<nat>,
                                       threshold: real, eligible: string -> bool)
    requires Rolled(draws, lines, extras, at, threshold, eligible)
    ensures forall i, j :: 0 <= i < j < |at| ==> at[i] < at[j]
    ensures forall i :: 0 <= i < |at| ==> (extras[i].Some? <==> draws(at[i]) > threshold && eligible(lines[i]))
    decreases |lines|
  {
    if lines != [] {
      var k := |lines| - 1;
      RolledLines(draws, lines[..k], extras[..k], at[..k], threshold, eligible);
      assert forall i :: 0 <= i < k ==> at[..k][i] == at[i] && extras[..k][i] == extras[i] && lines[..k][i] == lines[i];
      if k > 0 {
        assert at[k - 1] < at[k];
        assert forall i :: 0 <= i < k ==> at[i] <= at[k - 1];
      }
    }
  }

  lemma RolledSnoc(draws: nat -> Draw, lines: seq<string>, i: nat, extras: seq<Option<string>>, at: seq<nat>,
                   threshold: real, eligible: string -> bool, extra: Option<string>, a: nat)
    requires i < |lines| && Rolled(draws, lines[..i], extras, at, threshold, eligible)
    requires at != [] ==> at[|at| - 1] < a
    requires extra.Some? <==> draws(a) > threshold && eligible(lines[i])
    ensures Rolled(draws, lines[..i + 1], extras + [extra], at + [a], threshold, eligible)
  {
    assert lines[..i + 1][..i] == lines[..i];
    assert (extras + [extra])[..i] == extras;
    assert (at + [a])[..i] == at;
  }

  /** What a line-insertion pass has done over its first `|extras|` lines:
      each extra fits its line, the names were issued extra by extra, and the
      extras follow the draws. */
  ghost predicate PassSoFar(draws: nat -> Draw, lines: seq<string>, extras: seq<Option<string>>, names: seq<string>,
                            at: seq<nat>, threshold: real, eligible: string -> bool, width: nat,
                            made: (string, seq<string>) -> bool)
  {
    && |extras| <= |lines|
    && ExtrasFit(lines, extras, eligible)
    && ExtrasIssued(extras, names, width, made)
    && Rolled(draws, lines[..|extras|], extras, at, threshold, eligible)
  }

  /** One more line of a line-insertion pass: its turn drew at `a` and issued `more`. */
  lemma PassStep(draws: nat -> Draw, lines: seq<string>, extras: seq<Option<string>>, names: seq<string>,
                 at: seq<nat>, threshold: real, eligible: string -> bool, width: nat,
                 made: (string, seq<string>) -> bool, extra: Option<string>, more: seq<string>, a: nat)
    requires PassSoFar(draws, lines, extras, names, at, threshold, eligible, width, made)
    requires |extras| < |lines| && (at != [] ==> at[|at| - 1] < a)
    requires extra.Some? <==> draws(a) > threshold && eligible(lines[|extras|])
    requires extra.Some? ==> '\n' !in extra.value
    requires ExtraIssued(extra, more, width, made)
    ensures PassSoFar(draws, lines, extras + [extra], names + more, at + [a], threshold, eligible, width, made)
    ensures Expand(lines[..|extras| + 1], extras + [extra]) == Expand(lines[..|extras|], extras) + [lines[|extras|]] + Extra(extra)
  {
    var i := |extras|;
    ExpandStep(lines, i, extras, extra);
    ExtrasFitSnoc(lines, extras, extra, eligible);
    ExtrasIssuedSnoc(extras, names, extra, more, width, made);
    RolledSnoc(draws, lines, i, extras, at, threshold, eligible, extra, a);
  }

  /** A pass that has gone over every line of `input` inserted its extras there. */
  lemma PassDone(draws: nat -> Draw, input: string, extras: seq<Option<string>>, names: seq<string>,
                 at: seq<nat>, threshold: real, eligible: string -> bool, width: nat,
                 made: (string, seq<string>) -> bool)
    requires PassSoFar(draws, Split(input, '\n'), extras, names, at, threshold, eligible, width, made)
    requires |extras| == |Split(input, '\n')|
    ensures LinesInserted(input, Join(Expand(Split(input, '\n'), extras), "\n"), extras, eligible)
    ensures ExtrasIssued(extras, names, width, made)
    ensures Rolled(draws, Split(input, '\n'), extras, at, threshold, eligible)
  {
    var lines := Split(input, '\n');
    assert lines[..|extras|] == lines;
    PassInserted(input, extras, eligible);
  }

  /** The positions in `at` lie in `[lo, hi)`; with increasing positions the
      first and the last one decide. */
  ghost predicate DrawnBetween(at: seq<nat>, lo: nat, hi: nat) {
    at != [] ==> lo <= at[0] && at[|at| - 1] < hi
  }

  /** One more line of a line-insertion pass. */
  lemma ExpandStep(lines: seq<string>, i: nat, extras: seq<Option<string>>, extra: Option<string>)
    requires i < |lines| && |extras| == i
    ensures Expand(lines[..i + 1], extras + [extra]) == Expand(lines[..i], extras) + [lines[i]] + Extra(extra)
  {
    var pre := lines[..i];
    assert lines[..i + 1] == pre + [lines[i]];
    ExpandSnoc(pre, extras, lines[i], extra);
  }

  // ---------------------------------------------------------------- what each stage does

  /** A switched-on layer is put in front of the buffer. */
  function Prepend(on: bool, fragment: string, rest: string): string {
    if on then fragment + rest else rest
  }

  /** What step 1 did: the names each fragment drew, the fragments, and the buffer after it. */
  datatype Layers = Layers(
    antiNames: seq<string>, runtimeNames: seq<string>, envNames: seq<string>,
    env: string, runtime: string, anti: string, layered: string)

  /** The three protection layers: each switched-on fragment, over three
      consecutive names, is put in front, so the environment detection comes
      first, then the runtime checks, then the anti-debug code. */
  ghost predicate Layered(o: Options, code: string, l: Layers) {
    && (if o.antiDebug then |l.antiNames| == 3 && l.anti == AntiDebugCode(l.antiNames[0], l.antiNames[1], l.antiNames[2])
        else l.antiNames == [])
    && (if o.runtimeChecks then |l.runtimeNames| == 3 && l.runtime == RuntimeChecks(l.runtimeNames[0], l.runtimeNames[1], l.runtimeNames[2])
        else l.runtimeNames == [])
    && (if o.environmentDetection then |l.envNames| == 3 && l.env == EnvironmentDetection(l.envNames[0], l.envNames[1], l.envNames[2])
        else l.envNames == [])
    && l.layered == Prepend(o.environmentDetection, l.env, Prepend(o.runtimeChecks, l.runtime, Prepend(o.antiDebug, l.anti, code)))
  }

  function Values(m: Entries): seq<string> {
    seq(|m|, i requires 0 <= i < |m| => m[i].1)
  }

  /** The variable stage: every extracted variable is mapped to its own
      synthetic name and replaced as a whole word, in extraction order. */
  ghost predicate Renamed(reserve: Reserve, input: string, renames: Entries, output: string) {
    && Keys(renames) == VariablesOf(reserve, input)
    && (forall i :: 0 <= i < |renames| ==> IsIdentifier(renames[i].0) && IsSynthName(renames[i].1))
    && Distinct(Values(renames))
    && output == RenameAll(input, renames)
  }

  /** The string stage, its literals encoded from the draw at `start` on: the
      table is the string map of the extracted literals, and the quoted
      occurrences of its keys are replaced in the table's order. */
  ghost predicate LiteralsEncoded(input: string, table: Entries, output: string, draws: nat -> Draw, start: nat) {
    && StringTable(table, StringsOf(input), draws, start)
    && output == ReplaceLiterals(input, table)
  }

  /** What steps 2 and 3 did: the renaming map, the literal table and the
      position of the string stage's first draw, with the buffer after each. */
  datatype Rewrites = Rewrites(renames: Entries, renamed: string, stringFrom: nat, table: Entries, literalsDone: string)

  /** What steps 4 and 5 did: the lines each inserted, the names each issued,
      the positions of the draws deciding each line, and the buffer after each. */
  datatype Insertions = Insertions(
    flowExtras: seq<Option<string>>, flowNames: seq<string>, flowAt: seq<nat>, flowed: string,
    deadExtras: seq<Option<string>>, deadNames: seq<string>, deadAt: seq<nat>, padded: string)

  /** What steps 6 and 7 did: the key and names the wrappers drew, the buffer after each, and the final body. */
  datatype Wrapping = Wrapping(
    key: nat, encryptNames: seq<string>, encrypted: string,
    wrapNames: seq<string>, wrapped: string, body: string)

  /** What steps 2 to 7 did. */
  datatype Stages = Stages(rewrites: Rewrites, insertions: Insertions, wrapping: Wrapping)


  /** The encryption wrapper over its three names, `[key, table, decryptor]` in
      the order they are drawn being `[decryptor, table, key]`. */
  ghost predicate Encrypted(input: string, key: nat, names: seq<string>, output: string) {
    && 1 <= key <= 255 && |names| == 3
    && output == EncryptionWrapper(names[2], names[1], names[0], key, XorCodes(input, key))
  }

  /** The self-modifying wrapper over the input cut into 100-character chunks. */
  ghost predicate SelfModified(input: string, names: seq<string>, output: string) {
    && |names| == 3
    && output == SelfModifyingCode(names[2], names[1], names[0], ChunkArrays(Pieces(input, 100)))
  }

  /** Steps 2 and 3 from `input`; a stage that is switched off passes its input
      through and issues no name. */
  ghost predicate Rewritten(o: Options, reserve: Reserve, draws: nat -> Draw, input: string, w: Rewrites) {
    && (if o.obfuscateVariables then Renamed(reserve, input, w.renames, w.renamed)
        else w.renamed == input && w.renames == [])
    && (if o.obfuscateStrings then LiteralsEncoded(w.renamed, w.table, w.literalsDone, draws, w.stringFrom)
        else w.literalsDone == w.renamed)
  }

  /** The control-flow pass from `input`: each eligible line whose draw exceeds
      0.8 is followed by a dummy condition over the one name issued for it. */
  ghost predicate FlowInserted(draws: nat -> Draw, input: string, output: string,
                               extras: seq<Option<string>>, names: seq<string>, at: seq<nat>) {
    && LinesInserted(input, output, extras, ControlFlowEligible)
    && ExtrasIssued(extras, names, 1, IsDummyLine)
    && Rolled(draws, Split(input, '\n'), extras, at, 0.8, ControlFlowEligible)
  }

  /** The dead-code pass from `input`: each eligible line whose draw exceeds 0.9
      is followed by a dead-code line over the seven names issued for it. */
  ghost predicate DeadInserted(draws: nat -> Draw, input: string, output: string,
                               extras: seq<Option<string>>, names: seq<string>, at: seq<nat>) {
    && LinesInserted(input, output, extras, DeadCodeEligible)
    && ExtrasIssued(extras, names, 7, IsDeadCodeLine)
    && Rolled(draws, Split(input, '\n'), extras, at, 0.9, DeadCodeEligible)
  }

  /** Steps 4 and 5 from `input`. */
  ghost predicate Inserted(o: Options, draws: nat -> Draw, input: string, n: Insertions) {
    && (if o.obfuscateControlFlow then FlowInserted(draws, input, n.flowed, n.flowExtras, n.flowNames, n.flowAt)
        else n.flowed == input && n.flowNames == [])
    && (if o.insertDeadCode then DeadInserted(draws, n.flowed, n.padded, n.deadExtras, n.deadNames, n.deadAt)
        else n.padded == n.flowed && n.deadNames == [])
  }

  /** Steps 6 and 7 from `input`; the compaction is the one the engine runs. */
  ghost predicate Wrapped(o: Options, input: string, w: Wrapping) {
    && (if o.encryptCode then Encrypted(input, w.key, w.encryptNames, w.encrypted)
        else w.encrypted == input && w.encryptNames == [])
    && (if o.selfModifying then SelfModified(w.encrypted, w.wrapNames, w.wrapped)
        else w.wrapped == w.encrypted && w.wrapNames == [])
    && (if o.compactCode then w.body == CompactAsWritten(w.wrapped) else w.body == w.wrapped)
  }

  /** Steps 2 to 7 in their fixed order, starting from `input`. */
  ghost predicate StagesDone(o: Options, reserve: Reserve, draws: nat -> Draw, input: string, s: Stages) {
    && Rewritten(o, reserve, draws, input, s.rewrites)
    && Inserted(o, draws, s.rewrites.literalsDone, s.insertions)
    && Wrapped(o, s.insertions.padded, s.wrapping)
  }

  /** `before` followed by the names the three layers issued, in the order
      they were drawn: the anti-debug code's, the runtime checks', then the
      environment detection's. */
  function LayersIssued(before: seq<string>, l: Layers): seq<string> {
    before + l.antiNames + l.runtimeNames + l.envNames
  }

  /** `before` followed by the names steps 2 to 7 issued, in the order they
      were drawn: the variables' new names, the inserted lines', then the
      wrappers'. */
  function StagesIssued(before: seq<string>, s: Stages): seq<string> {
    before + Values(s.rewrites.renames) + s.insertions.flowNames + s.insertions.deadNames
      + s.wrapping.encryptNames + s.wrapping.wrapNames
  }

  /** Names issued after `before` are what follows it. */
  lemma GrewBy(before: seq<string>, issued: seq<string>)
    requires before <= issued
    ensures issued == before + issued[|before|..]
  {
  }

  /** A map whose values were issued from position `|before|` on, and nothing
      else was issued, extends the record by exactly its values. */
  lemma TookAll(m: Entries, before: seq<string>, issued: seq<string>)
    requires before <= issued && |issued| == |before| + |m| && TookIssued(m, issued, |before|)
    ensures issued == before + Values(m)
  {
    forall i | |before| <= i < |issued|
      ensures issued[i] == (before + Values(m))[i]
    {
      assert m[i - |before|].1 == issued[i];
    }
  }

  /** The names a map took as its values, issued one after another from
      position `n` on, are pairwise distinct. */
  lemma RenamesFresh(m: Entries, issued: seq<string>, n: nat)
    requires Distinct(issued) && TookIssued(m, issued, n)
    ensures Distinct(Values(m))
  {
    forall i, j | 0 <= i < j < |m|
      ensures Values(m)[i] != Values(m)[j]
    {
      assert Values(m)[i] == issued[n + i] && Values(m)[j] == issued[n + j];
    }
  }

  lemma InsertElems(acc: seq<string>, name: string)
    ensures Elems(Insert(acc, name)) == Elems(acc) + {name}
  {
  }

  /** The map's values are the names issued from position `n` on, all synthetic. */
  ghost predicate TookIssued(m: Entries, issued: seq<string>, n: nat) {
    && n + |m| <= |issued|
    && forall j :: 0 <= j < |m| ==> m[j].1 == issued[n + j] && IsSynthName(m[j].1)
  }

  lemma TookIssuedSnoc(m: Entries, issued: seq<string>, n: nat, k: string, v: string)
    requires TookIssued(m, issued, n) && n + |m| == |issued| && IsSynthName(v)
    ensures TookIssued(m + [(k, v)], issued + [v], n)
  {
    var m', issued' := m + [(k, v)], issued + [v];
    forall j | 0 <= j < |m'|
      ensures m'[j].1 == issued'[n + j] && IsSynthName(m'[j].1)
    {
      if j < |m| {
        assert m'[j] == m[j] && issued'[n + j] == issued[n + j];
      }
    }
  }

  /** Every key of a map whose keys are identifiers is an identifier. */
  lemma KeysIdentifiers(m: Entries)
    requires forall v :: v in Keys(m) ==> IsIdentifier(v)
    ensures forall i :: 0 <= i < |m| ==> IsIdentifier(m[i].0)
  {
    forall i | 0 <= i < |m|
      ensures IsIdentifier(m[i].0)
    {
      assert Keys(m)[i] == m[i].0;
    }
  }

  /** The distinct literals of `xs` in the order they first occur: the keys a
      `Map` ends up with when the literals are set in it one after another. */
  function Dedup(xs: seq<string>): (r: seq<string>)
    ensures Distinct(r) && Elems(r) == Elems(xs)
    decreases |xs|
  {
    if xs == [] then []
    else
      var init, x := xs[..|xs| - 1], xs[|xs| - 1];
      var d := Dedup(init);
      InsertElems(d, x);
      assert xs == init + [x];
      Insert(d, x)
  }

  /** Where `x` last occurs in `xs`. */
  function LastIndex(xs: seq<string>, x: string): (i: nat)
    requires x in xs
    ensures i < |xs| && xs[i] == x
    ensures forall j :: i < j < |xs| ==> xs[j] != x
    decreases |xs|
  {
    if xs[|xs| - 1] == x then |xs| - 1
    else
      var init := xs[..|xs| - 1];
      assert x in init by {
        var k :| 0 <= k < |xs| && xs[k] == x;
        assert init[k] == x;
      }
      var i := LastIndex(init, x);
      assert forall j :: i < j < |init| ==> xs[j] == init[j];
      i
  }

  /** The encoding the string loop leaves under `x` when literal `k` of `xs`
      takes the draw at `start + k`: the one drawn at `x`'s last occurrence. */
  function DrawnEncoding(draws: nat -> Draw, start: nat, xs: seq<string>, x: string): string
    requires x in xs
  {
    Technique(Scaled(draws(start + LastIndex(xs, x)), 3), x)
  }

  /** The string map after the literals `xs` were encoded and set in it in
      turn: one entry per distinct literal in the order of first occurrence,
      each holding the encoding drawn at the literal's last occurrence. */
  ghost predicate StringTable(m: Entries, xs: seq<string>, draws: nat -> Draw, start: nat) {
    && Keys(m) == Dedup(xs)
    && forall j :: 0 <= j < |m| ==> m[j].0 in xs && m[j].1 == DrawnEncoding(draws, start, xs, m[j].0)
  }

  /** A string map keys every literal once and maps it to an encoding of itself. */
  lemma StringTableEncodes(m: Entries, xs: seq<string>, draws: nat -> Draw, start: nat)
    requires StringTable(m, xs, draws, start)
    ensures Distinct(Keys(m)) && Elems(Keys(m)) == Elems(xs)
    ensures forall j :: 0 <= j < |m| ==> IsEncodingOf(m[j].0, m[j].1)
  {
  }

  lemma StringTableSnoc(m: Entries, xs: seq<string>, draws: nat -> Draw, start: nat, k: string, v: string)
    requires StringTable(m, xs, draws, start) && v == Technique(Scaled(draws(start + |xs|), 3), k)
    ensures StringTable(MapSet(m, k, v), xs + [k], draws, start)
  {
    var xs' := xs + [k];
    var r := MapSet(m, k, v);
    assert Keys(r) == Dedup(xs') by {
      assert xs'[..|xs|] == xs;
    }
    forall j | 0 <= j < |r|
      ensures r[j].0 in xs' && r[j].1 == DrawnEncoding(draws, start, xs', r[j].0)
    {
      if r[j].0 != k {
        OldEntryKept(m, xs, draws, start, k, r[j]);
      } else {
        assert LastIndex(xs', k) == |xs|;
      }
    }
  }

  /** An entry of the map other than the new key keeps the encoding drawn at its last occurrence. */
  lemma OldEntryKept(m: Entries, xs: seq<string>, draws: nat -> Draw, start: nat, k: string, e: (string, string))
    requires StringTable(m, xs, draws, start) && e in m && e.0 != k
    ensures e.0 in xs + [k] && e.1 == DrawnEncoding(draws, start, xs + [k], e.0)
  {
    LastIndexSnoc(xs, k, e.0);
  }

  /** Appending another literal leaves the last occurrence of `x` where it was. */
  lemma LastIndexSnoc(xs: seq<string>, k: string, x: string)
    requires x in xs && x != k
    ensures x in xs + [k] && LastIndex(xs + [k], x) == LastIndex(xs, x)
  {
    assert (xs + [k])[..|xs|] == xs;
  }

  /** The second loop of the variable stage: each entry replaced as a whole word, in order. */
  method RenameEach(code: string, m: Entries) returns (text: string)
    requires forall i :: 0 <= i < |m| ==> IsIdentifier(m[i].0)
    ensures text == RenameAll(code, m)
  {
    text := code;
    for i := 0 to |m|
      invariant RenameAll(text, m[i..]) == RenameAll(code, m)
    {
      assert m[i..][1..] == m[i + 1..];
      text := ReplaceWord(text, m[i].0, m[i].1);
    }
    assert m[|m|..] == [];
  }

  /** The second loop of the string stage: each entry's quoted occurrences replaced, in order. */
  method ReplaceEach(code: string, m: Entries) returns (text: string)
    ensures text == ReplaceLiterals(code, m)
  {
    text := code;
    for i := 0 to |m|
      invariant ReplaceLiterals(text, m[i..]) == ReplaceLiterals(code, m)
    {
      assert m[i..][1..] == m[i + 1..];
      text := ReplaceQuoted(text, m[i].0, m[i].1);
    }
    assert m[|m|..] == [];
  }

  // ---------------------------------------------------------------- the engine

  class LuaObfuscator {
    var usedNames: set<string>
    const luaKeywords: set<string>
    const robloxGlobals: set<string>
    const random: MathRandom
    /** The names issued since `usedNames` was last cleared, in order. */
    ghost var issued: seq<string>

    /** `usedNames` records exactly the names issued, each issued once and
        none of them reserved. */
    ghost predicate Valid()
      reads this
    {
      && usedNames == Elems(issued)
      && Distinct(issued)
      && (forall i :: 0 <= i < |issued| ==> !Reserved(issued[i]))
    }

    /** The object's two reserved sets are the registry's. */
    ghost predicate Registry() {
      Reserves() == Standard
    }

    /** The two sets, as the passes consult them. */
    function Reserves(): Reserve {
      Reserve(luaKeywords, robloxGlobals)
    }

    /** `luaKeywords.has(name) || robloxGlobals.has(name)` */
    predicate Reserved(name: string) {
      name in luaKeywords || name in robloxGlobals
    }

    /** The names issued so far extend `before`. */
    ghost predicate Grew(before: seq<string>)
      reads this
    {
      before <= issued
    }

    constructor (random: MathRandom)
      ensures Valid() && Registry() && usedNames == {} && issued == [] && this.random == random
    {
      usedNames := {};
      luaKeywords := LuaKeywords;
      robloxGlobals := RobloxGlobals;
      this.random := random;
      issued := [];
    }

    /** One candidate: the length draw, one draw per character, then the `_` fix-up. */
    method DrawCandidate(prefix: string) returns (name: string)
      modifies random
      ensures name == Candidate(prefix, CandidateBody(random.draws, old(random.next)))
      ensures random.next == old(random.next) + 1 + |CandidateBody(random.draws, old(random.next))|
    {
      ghost var start := random.next;
      var length := random.Below(6);
      length := 6 + length;
      NameCharsAreWordChars();
      ghost var from := random.next;
      var chars := DrawChars(NameChars, length);
      name := prefix + chars;
      DrawnBody(NameChars, random.draws, start, from, chars);
      if !(name != [] && IsIdentStart(name[0])) {
        name := "_" + name;
      }
    }

    /** The character loop: `count` draws, each picking one character of `alphabet`. */
    method DrawChars(alphabet: string, count: nat) returns (chars: string)
      requires |alphabet| > 0
      modifies random
      ensures random.next == old(random.next) + count && |chars| == count
      ensures forall j :: 0 <= j < count ==> chars[j] == alphabet[Scaled(random.draws(old(random.next) + j), |alphabet|)]
    {
      chars := [];
      for i := 0 to count
        invariant random.next == old(random.next) + i && |chars| == i
        invariant forall j :: 0 <= j < i ==> chars[j] == alphabet[Scaled(random.draws(old(random.next) + j), |alphabet|)]
      {
        var k := random.Below(|alphabet|);
        chars := chars + [alphabet[k]];
      }
    }

    /** `generateObfuscatedName`: candidates are drawn until one is neither
        issued nor reserved; that one is recorded and returned. After
        `MaxAttempts` collisions the generator reports exhaustion. */
    method GenerateObfuscatedName(prefix: string) returns (r: Outcome<string>)
      requires Valid()
      modifies this, random
      ensures Valid() && random.next >= old(random.next)
      ensures r.Ok? ==> && r.value !in old(usedNames) && !Reserved(r.value)
                        && usedNames == old(usedNames) + {r.value}
                        && issued == old(issued) + [r.value]
                        && (exists body :: 6 <= |body| <= 11 && FromAlphabet(body) && r.value == Candidate(prefix, body))
      ensures r.NamesExhausted? ==> usedNames == old(usedNames) && issued == old(issued)
    {
      var attempts := 0;
      while attempts < MaxAttempts
        invariant Valid() && random.next >= old(random.next)
        invariant usedNames == old(usedNames) && issued == old(issued)
      {
        ghost var body := CandidateBody(random.draws, random.next);
        var name := DrawCandidate(prefix);
        if !(name in usedNames || name in luaKeywords || name in robloxGlobals) {
          usedNames := usedNames + {name};
          issued := issued + [name];
          return Ok(name);
        }
        attempts := attempts + 1;
      }
      return NamesExhausted;
    }

    /** A name with the default prefix: a fresh synthetic identifier. */
    method FreshName() returns (r: Outcome<string>)
      requires Valid()
      modifies this, random
      ensures Valid() && random.next >= old(random.next)
      ensures r.Ok? ==> && r.value !in old(usedNames) && !Reserved(r.value) && IsSynthName(r.value)
                        && usedNames == old(usedNames) + {r.value}
                        && issued == old(issued) + [r.value]
      ensures r.NamesExhausted? ==> usedNames == old(usedNames) && issued == old(issued)
    {
      r := GenerateObfuscatedName(DefaultPrefix);
      if r.Ok? {
        var body :| 6 <= |body| <= 11 && FromAlphabet(body) && r.value == Candidate(DefaultPrefix, body);
        CandidateShape(DefaultPrefix, body);
      }
    }

    /** Three fresh names in a row, as every protection fragment draws them. */
    method FreshNames3() returns (r: Outcome<(string, string, string)>)
      requires Valid()
      modifies this, random
      ensures Valid() && Grew(old(issued))
      ensures r.Ok? ==> (|issued| == |old(issued)| + 3
        && r.value == (issued[|old(issued)|], issued[|old(issued)| + 1], issued[|old(issued)| + 2]))
    {
      var a :- FreshName();
      var b :- FreshName();
      var c :- FreshName();
      r := Ok((a, b, c));
    }

    /** `generateAntiDebugCode` */
    method GenerateAntiDebugCode() returns (r: Outcome<string>)
      requires Valid()
      modifies this, random
      ensures Valid() && Grew(old(issued))
      ensures r.Ok? ==> var n := |old(issued)|;
        |issued| == n + 3 && r.value == AntiDebugCode(issued[n], issued[n + 1], issued[n + 2])
    {
      var names :- FreshNames3();
      r := Ok(AntiDebugCode(names.0, names.1, names.2));
    }

    /** `generateRuntimeChecks` */
    method GenerateRuntimeChecks() returns (r: Outcome<string>)
      requires Valid()
      modifies this, random
      ensures Valid() && Grew(old(issued))
      ensures r.Ok? ==> var n := |old(issued)|;
        |issued| == n + 3 && r.value == RuntimeChecks(issued[n], issued[n + 1], issued[n + 2])
    {
      var names :- FreshNames3();
      r := Ok(RuntimeChecks(names.0, names.1, names.2));
    }

    /** `generateEnvironmentDetection` */
    method GenerateEnvironmentDetection() returns (r: Outcome<string>)
      requires Valid()
      modifies this, random
      ensures Valid() && Grew(old(issued))
      ensures r.Ok? ==> var n := |old(issued)|;
        |issued| == n + 3 && r.value == EnvironmentDetection(issued[n], issued[n + 1], issued[n + 2])
    {
      var names :- FreshNames3();
      r := Ok(EnvironmentDetection(names.0, names.1, names.2));
    }

    /** `generateEncryptionWrapper`: the key floor(r * 255) + 1 is drawn first,
        then the names of the decryptor, the table and the key. */
    method GenerateEncryptionWrapper(code: string) returns (r: Outcome<string>)
      requires Valid()
      modifies this, random
      ensures Valid() && Grew(old(issued))
      ensures r.Ok? ==> var n := |old(issued)|;
        var key := Scaled(random.draws(old(random.next)), 255) + 1;
        |issued| == n + 3
        && r.value == EncryptionWrapper(issued[n + 2], issued[n + 1], issued[n], key, XorCodes(code, key))
    {
      var key := random.Below(255);
      key := key + 1;
      var encrypted := SimpleXorEncrypt(code, key);
      assert encrypted == XorCodes(code, key);
      var names :- FreshNames3();
      var decryptVar, encryptedVar, keyVar := names.0, names.1, names.2;
      r := Ok(EncryptionWrapper(keyVar, encryptedVar, decryptVar, key, encrypted));
    }

    /** `generateSelfModifyingCode`: the names of the loader, the decoder and
        the table, then the code cut into 100-character chunks. */
    method GenerateSelfModifyingCode(code: string) returns (r: Outcome<string>)
      requires Valid()
      modifies this, random
      ensures Valid() && Grew(old(issued))
      ensures r.Ok? ==> var n := |old(issued)|;
        |issued| == n + 3
        && r.value == SelfModifyingCode(issued[n + 2], issued[n + 1], issued[n], ChunkArrays(Pieces(code, 100)))
    {
      var names :- FreshNames3();
      var funcVar, modifyVar, chunksVar := names.0, names.1, names.2;
      var chunks := ChunkCode(code, 100);
      r := Ok(SelfModifyingCode(chunksVar, modifyVar, funcVar, ChunkArrays(chunks)));
    }

    /** `obfuscateString`: one draw picks the technique. */
    method ObfuscateString(str: string) returns (text: string)
      modifies random
      ensures random.next == old(random.next) + 1
      ensures text == Technique(Scaled(random.draws(old(random.next)), 3), str)
      ensures IsEncodingOf(str, text)
    {
      var technique := random.Below(3);
      if technique == 0 {
        text := CharCodeForm(str);
      } else if technique == 1 {
        text := SplitTechnique(str);
      } else {
        text := MixedTechnique(str);
      }
    }

    /** `obfuscateVariable`: a reserved name stays, any other gets a fresh name. */
    method ObfuscateVariable(name: string) returns (r: Outcome<string>)
      requires Valid()
      modifies this, random
      ensures Valid() && Grew(old(issued))
      ensures Reserved(name) ==> r == Ok(name) && issued == old(issued) && random.next == old(random.next)
      ensures !Reserved(name) && r.Ok? ==> issued == old(issued) + [r.value] && r.value !in old(usedNames) && IsSynthName(r.value)
    {
      if name in luaKeywords || name in robloxGlobals {
        return Ok(name);
      }
      r := FreshName();
    }

    /** The first three snippets' draws: a name and floor(r * 100), then
        `r > 0.5` and a name, then a name. */
    method DeadCodeHead() returns (r: Outcome<(string, nat, bool, string, string)>)
      requires Valid()
      modifies this, random
      ensures Valid() && Grew(old(issued)) && random.next >= old(random.next)
      ensures r.Ok? ==> r.value.1 < 100 && issued == old(issued) + [r.value.0, r.value.3, r.value.4]
      ensures r.Ok? ==> AllSynth([r.value.0, r.value.3, r.value.4])
    {
      var n0 :- FreshName();
      var small := random.Below(100);
      var flag := random.Above(0.5);
      var n1 :- FreshName();
      var n2 :- FreshName();
      r := Ok((n0, small, flag, n1, n2));
    }

    /** The last four snippets' draws: a name and a printed draw, a name and
        floor(r * 1000), then two names. */
    method DeadCodeTail() returns (r: Outcome<(string, NumberText, string, nat, string, string)>)
      requires Valid()
      modifies this, random
      ensures Valid() && Grew(old(issued)) && random.next >= old(random.next)
      ensures r.Ok? ==> r.value.3 < 1000 && issued == old(issued) + [r.value.0, r.value.2, r.value.4, r.value.5]
      ensures r.Ok? ==> AllSynth([r.value.0, r.value.2, r.value.4, r.value.5])
    {
      var n3 :- FreshName();
      var draw := random.Next();
      var number := random.numberText(draw);
      var n4 :- FreshName();
      var large := random.Below(1000);
      var n5 :- FreshName();
      var n6 :- FreshName();
      r := Ok((n3, number, n4, large, n5, n6));
    }

    /** `insertDeadCode`: all seven snippets are built, in order (so seven
        names and the values pasted into them are drawn), then one is picked. */
    method InsertDeadCode() returns (r: Outcome<string>)
      requires Valid()
      modifies this, random
      ensures Valid() && Grew(old(issued)) && random.next >= old(random.next)
      ensures r.Ok? ==> var n := |old(issued)|;
        |issued| == n + 7 && IsDeadCodeLine(r.value, issued[n..]) && '\n' !in r.value
    {
      ghost var start := issued;
      var head :- DeadCodeHead();
      ghost var mid := issued;
      var tail :- DeadCodeTail();
      var names := [head.0, head.3, head.4, tail.0, tail.2, tail.4, tail.5];
      assert issued == start + names;
      assert issued[|start|..] == names;
      var snippets := DeadCodeSnippets(names, head.1, head.2, tail.1, tail.3);
      var pick := random.Below(|snippets|);
      r := Ok(snippets[pick]);
      forall i | 0 <= i < 7
        ensures '\n' !in names[i]
      {
        SynthNameIsIdentifier(names[i]);
      }
      NumberTextOneLine(tail.1);
      SnippetsOneLine(names, head.1, head.2, tail.1, tail.3);
      assert IsSnippet(r.value, names, pick);
    }

    /** One line of `obfuscateControlFlow`: the `> 0.8` draw comes first; an
        eligible line then gets a dummy condition over a fresh name,
        `r > 0.5` and floor(r * 100). */
    method ControlFlowLine(line: string) returns (r: Outcome<Option<string>>)
      requires Valid()
      modifies this, random
      ensures Valid() && Grew(old(issued)) && random.next > old(random.next)
      ensures r.Ok? ==> (r.value.Some? <==> random.draws(old(random.next)) > 0.8 && ControlFlowEligible(line))
      ensures r.Ok? ==> ExtraIssued(r.value, issued[|old(issued)|..], 1, IsDummyLine)
      ensures r.Ok? && r.value.Some? ==> '\n' !in r.value.value
    {
      var roll := random.Above(0.8);
      if roll && ControlFlowEligible(line) {
        var condition :- DummyLine();
        return Ok(Some(condition));
      }
      return Ok(None);
    }

    /** The dummy condition itself: a fresh name, `r > 0.5`, floor(r * 100). */
    method DummyLine() returns (r: Outcome<string>)
      requires Valid()
      modifies this, random
      ensures Valid() && Grew(old(issued)) && random.next >= old(random.next)
      ensures r.Ok? ==> |issued| == |old(issued)| + 1
      ensures r.Ok? ==> exists flag, value :: value < 100 && r.value == DummyCondition(flag, issued[|old(issued)|], value)
      ensures r.Ok? ==> '\n' !in r.value && IsDummyLine(r.value, issued[|old(issued)|..])
    {
      var dummyVar :- FreshName();
      var dummyCondition := random.Above(0.5);
      var value := random.Below(100);
      SynthNameIsIdentifier(dummyVar);
      DummyConditionShape(dummyCondition, dummyVar, value);
      r := Ok(DummyCondition(dummyCondition, dummyVar, value));
    }

    /** `obfuscateControlFlow`: every line is pushed in order, each followed by
        the dummy condition its draws produce, if any. */
    method ObfuscateControlFlow(code: string) returns (r: Outcome<string>, ghost extras: seq<Option<string>>,
                                           ghost names: seq<string>, ghost at: seq<nat>)
      requires Valid()
      modifies this, random
      ensures Valid() && Grew(old(issued))
      ensures r.Ok? ==> && |extras| == |Split(code, '\n')|
                        && r.value == Join(Expand(Split(code, '\n'), extras), "\n")
                        && issued == old(issued) + names
                        && FlowInserted(random.draws, code, r.value, extras, names, at)
                        && DrawnBetween(at, old(random.next), random.next)
    {
      var lines := Split(code, '\n');
      var obfuscatedLines: seq<string>;
      obfuscatedLines, extras, names, at :- ControlFlowPass(lines);
      PassDone(random.draws, code, extras, names, at, 0.8, ControlFlowEligible, 1, IsDummyLine);
      r := Ok(Join(obfuscatedLines, "\n"));
    }

    /** The loop of `obfuscateControlFlow`: each line is pushed, then its extra if one was drawn. */
    method ControlFlowPass(lines: seq<string>) returns (r: Outcome<seq<string>>, ghost extras: seq<Option<string>>,
                                                  ghost names: seq<string>, ghost at: seq<nat>)
      requires Valid()
      modifies this, random
      ensures Valid() && Grew(old(issued))
      ensures r.Ok? ==> && |extras| == |lines| && r.value == Expand(lines, extras)
                        && issued == old(issued) + names
                        && PassSoFar(random.draws, lines, extras, names, at, 0.8, ControlFlowEligible, 1, IsDummyLine)
                        && DrawnBetween(at, old(random.next), random.next)
    {
      var obfuscatedLines: seq<string> := [];
      extras, names, at := [], [], [];
      for i := 0 to |lines|
        invariant Valid() && Grew(old(issued)) && random.next >= old(random.next)
        invariant |extras| == i && obfuscatedLines == Expand(lines[..i], extras)
        invariant issued == old(issued) + names
        invariant PassSoFar(random.draws, lines, extras, names, at, 0.8, ControlFlowEligible, 1, IsDummyLine)
        invariant DrawnBetween(at, old(random.next), random.next)
      {
        ghost var before, a := issued, random.next;
        var extra :- ControlFlowLine(lines[i]);
        PassStep(random.draws, lines, extras, names, at, 0.8, ControlFlowEligible, 1, IsDummyLine, extra, issued[|before|..], a);
        GrewBy(before, issued);
        AppendAssoc(old(issued), names, issued[|before|..]);
        obfuscatedLines := obfuscatedLines + [lines[i]] + Extra(extra);
        extras, names, at := extras + [extra], names + issued[|before|..], at + [a];
      }
      assert lines[..|lines|] == lines;
      r := Ok(obfuscatedLines);
    }

    /** One line of the dead-code stage: the `> 0.9` draw comes first; an
        eligible line then gets one `insertDeadCode` line. */
    method DeadCodeLine(line: string) returns (r: Outcome<Option<string>>)
      requires Valid()
      modifies this, random
      ensures Valid() && Grew(old(issued)) && random.next > old(random.next)
      ensures r.Ok? ==> (r.value.Some? <==> random.draws(old(random.next)) > 0.9 && DeadCodeEligible(line))
      ensures r.Ok? ==> ExtraIssued(r.value, issued[|old(issued)|..], 7, IsDeadCodeLine)
      ensures r.Ok? && r.value.Some? ==> '\n' !in r.value.value
    {
      var roll := random.Above(0.9);
      if roll && DeadCodeEligible(line) {
        var snippet :- InsertDeadCode();
        return Ok(Some(snippet));
      }
      return Ok(None);
    }

    /** The dead-code stage of `obfuscate`: every line is pushed in order, each
        followed by a dead-code line if its draws say so. */
    method DeadCodeStage(code: string) returns (r: Outcome<string>, ghost extras: seq<Option<string>>,
                                           ghost names: seq<string>, ghost at: seq<nat>)
      requires Valid()
      modifies this, random
      ensures Valid() && Grew(old(issued))
      ensures r.Ok? ==> && |extras| == |Split(code, '\n')|
                        && r.value == Join(Expand(Split(code, '\n'), extras), "\n")
                        && issued == old(issued) + names
                        && DeadInserted(random.draws, code, r.value, extras, names, at)
                        && DrawnBetween(at, old(random.next), random.next)
    {
      var lines := Split(code, '\n');
      var obfuscatedLines: seq<string>;
      obfuscatedLines, extras, names, at :- DeadCodePass(lines);
      PassDone(random.draws, code, extras, names, at, 0.9, DeadCodeEligible, 7, IsDeadCodeLine);
      r := Ok(Join(obfuscatedLines, "\n"));
    }

    /** The loop of the dead-code pass: each line is pushed, then its extra if one was drawn. */
    method DeadCodePass(lines: seq<string>) returns (r: Outcome<seq<string>>, ghost extras: seq<Option<string>>,
                                                  ghost names: seq<string>, ghost at: seq<nat>)
      requires Valid()
      modifies this, random
      ensures Valid() && Grew(old(issued))
      ensures r.Ok? ==> && |extras| == |lines| && r.value == Expand(lines, extras)
                        && issued == old(issued) + names
                        && PassSoFar(random.draws, lines, extras, names, at, 0.9, DeadCodeEligible, 7, IsDeadCodeLine)
                        && DrawnBetween(at, old(random.next), random.next)
    {
      var obfuscatedLines: seq<string> := [];
      extras, names, at := [], [], [];
      for i := 0 to |lines|
        invariant Valid() && Grew(old(issued)) && random.next >= old(random.next)
        invariant |extras| == i && obfuscatedLines == Expand(lines[..i], extras)
        invariant issued == old(issued) + names
        invariant PassSoFar(random.draws, lines, extras, names, at, 0.9, DeadCodeEligible, 7, IsDeadCodeLine)
        invariant DrawnBetween(at, old(random.next), random.next)
      {
        ghost var before, a := issued, random.next;
        var extra :- DeadCodeLine(lines[i]);
        PassStep(random.draws, lines, extras, names, at, 0.9, DeadCodeEligible, 7, IsDeadCodeLine, extra, issued[|before|..], a);
        GrewBy(before, issued);
        AppendAssoc(old(issued), names, issued[|before|..]);
        obfuscatedLines := obfuscatedLines + [lines[i]] + Extra(extra);
        extras, names, at := extras + [extra], names + issued[|before|..], at + [a];
      }
      assert lines[..|lines|] == lines;
      r := Ok(obfuscatedLines);
    }

    /** The variable stage of `obfuscate`: each extracted variable gets
        `obfuscateVariable`'s name, set in a `Map` in extraction order; then
        each entry is replaced as a whole word, in the map's order. */
    method RenameVariables(code: string) returns (r: Outcome<string>, ghost renames: Entries)
      requires Valid()
      modifies this, random
      ensures Valid() && Grew(old(issued))
      ensures r.Ok? ==> && Renamed(Reserves(), code, renames, r.value)
                        && TookIssued(renames, issued, |old(issued)|)
                        && issued == old(issued) + Values(renames)
    {
      renames := [];
      var variables := ExtractVariables(Reserves(), code);
      ghost var before := issued;
      ghost var n := |issued|;
      var variableMap :- BuildVariableMap(variables);
      TookAll(variableMap, before, issued);
      RenamesFresh(variableMap, issued, n);
      KeysIdentifiers(variableMap);
      var obfuscatedCode := RenameEach(code, variableMap);
      renames := variableMap;
      r := Ok(obfuscatedCode);
    }

    /** The first loop of the variable stage: one `obfuscateVariable` per
        variable, each set in the map under that variable. */
    method BuildVariableMap(variables: seq<string>) returns (r: Outcome<Entries>)
      requires Valid() && Distinct(variables)
      requires forall v :: v in variables ==> !Reserved(v) && IsIdentifier(v)
      modifies this, random
      ensures Valid() && Grew(old(issued))
      ensures r.Ok? ==> && Keys(r.value) == variables && |issued| == |old(issued)| + |variables|
                        && TookIssued(r.value, issued, |old(issued)|)
    {
      ghost var n := |issued|;
      var variableMap: Entries := [];
      for i := 0 to |variables|
        invariant Valid() && Grew(old(issued))
        invariant |variableMap| == i && |issued| == n + i
        invariant Keys(variableMap) == variables[..i]
        invariant TookIssued(variableMap, issued, n)
      {
        ghost var before := issued;
        var newName :- ObfuscateVariable(variables[i]);
        assert variables[i] !in variables[..i];
        MapSetNew(variableMap, variables[i], newName);
        TookIssuedSnoc(variableMap, before, n, variables[i], newName);
        variableMap := MapSet(variableMap, variables[i], newName);
        assert variables[..i + 1] == variables[..i] + [variables[i]];
      }
      assert variables[..|variables|] == variables;
      r := Ok(variableMap);
    }

    /** The string stage of `obfuscate`: every extracted literal, duplicates
        included, is encoded and set in a `Map` (a later duplicate keeps the
        first place and takes the later encoding); then each entry's quoted
        occurrences are replaced, in the map's order. */
    method ObfuscateStrings(code: string) returns (text: string, ghost table: Entries)
      modifies random
      ensures random.next == old(random.next) + |StringsOf(code)|
      ensures LiteralsEncoded(code, table, text, random.draws, old(random.next))
    {
      var strings := ExtractStrings(code);
      var stringMap := BuildStringMap(strings);
      text := ReplaceEach(code, stringMap);
      table := stringMap;
    }

    /** The first loop of the string stage: one `obfuscateString` per literal,
        each set in the map under that literal. */
    method BuildStringMap(strings: seq<string>) returns (stringMap: Entries)
      modifies random
      ensures random.next == old(random.next) + |strings|
      ensures StringTable(stringMap, strings, random.draws, old(random.next))
    {
      stringMap := [];
      for i := 0 to |strings|
        invariant random.next == old(random.next) + i
        invariant StringTable(stringMap, strings[..i], random.draws, old(random.next))
      {
        stringMap := EncodeInto(stringMap, strings[..i], strings[i], old(random.next));
        assert strings[..i + 1] == strings[..i] + [strings[i]];
      }
      assert strings[..|strings|] == strings;
    }

    /** One turn of that loop: the literal encoded and set in the map. */
    method EncodeInto(m: Entries, xs: seq<string>, str: string, ghost start: nat) returns (m': Entries)
      requires StringTable(m, xs, random.draws, start) && random.next == start + |xs|
      modifies random
      ensures random.next == old(random.next) + 1
      ensures StringTable(m', xs + [str], random.draws, start)
    {
      var encoded := ObfuscateString(str);
      StringTableSnoc(m, xs, random.draws, start, str, encoded);
      m' := MapSet(m, str, encoded);
    }

    /** Step 1 of `obfuscate`: the anti-debug, runtime-check and environment
        fragments, each put in front of the buffer when switched on. */
    method AddLayers(code: string, o: Options) returns (r: Outcome<string>, ghost l: Layers)
      requires Valid()
      modifies this, random
      ensures Valid() && Grew(old(issued))
      ensures r.Ok? ==> && issued == LayersIssued(old(issued), l)
                        && Layered(o, code, l) && r.value == l.layered
    {
      l := Layers([], [], [], "", "", "", code);
      var withAnti: string, withRuntime: string, layered: string;
      ghost var antiNames: seq<string>, runtimeNames: seq<string>, envNames: seq<string>;
      ghost var anti: string, runtime: string, env: string;
      withAnti, antiNames, anti :- AntiDebugLayer(code, o.antiDebug);
      withRuntime, runtimeNames, runtime :- RuntimeLayer(withAnti, o.runtimeChecks);
      layered, envNames, env :- EnvironmentLayer(withRuntime, o.environmentDetection);
      l := Layers(antiNames, runtimeNames, envNames, env, runtime, anti, layered);
      r := Ok(layered);
    }

    /** The anti-debug fragment in front of `code` when the option is on. */
    method AntiDebugLayer(code: string, on: bool) returns (r: Outcome<string>, ghost names: seq<string>, ghost fragment: string)
      requires Valid()
      modifies this, random
      ensures Valid() && Grew(old(issued))
      ensures r.Ok? ==> && issued == old(issued) + names && r.value == Prepend(on, fragment, code)
                        && if on then |names| == 3 && fragment == AntiDebugCode(names[0], names[1], names[2]) else names == []
    {
      names, fragment := [], "";
      if !on {
        return Ok(code), names, fragment;
      }
      ghost var before := issued;
      var text :- GenerateAntiDebugCode();
      names, fragment := issued[|before|..], text;
      r := Ok(text + code);
    }

    /** The runtime-check fragment in front of `code` when the option is on. */
    method RuntimeLayer(code: string, on: bool) returns (r: Outcome<string>, ghost names: seq<string>, ghost fragment: string)
      requires Valid()
      modifies this, random
      ensures Valid() && Grew(old(issued))
      ensures r.Ok? ==> && issued == old(issued) + names && r.value == Prepend(on, fragment, code)
                        && if on then |names| == 3 && fragment == RuntimeChecks(names[0], names[1], names[2]) else names == []
    {
      names, fragment := [], "";
      if !on {
        return Ok(code), names, fragment;
      }
      ghost var before := issued;
      var text :- GenerateRuntimeChecks();
      names, fragment := issued[|before|..], text;
      r := Ok(text + code);
    }

    /** The environment-detection fragment in front of `code` when the option is on. */
    method EnvironmentLayer(code: string, on: bool) returns (r: Outcome<string>, ghost names: seq<string>, ghost fragment: string)
      requires Valid()
      modifies this, random
      ensures Valid() && Grew(old(issued))
      ensures r.Ok? ==> && issued == old(issued) + names && r.value == Prepend(on, fragment, code)
                        && if on then |names| == 3 && fragment == EnvironmentDetection(names[0], names[1], names[2]) else names == []
    {
      names, fragment := [], "";
      if !on {
        return Ok(code), names, fragment;
      }
      ghost var before := issued;
      var text :- GenerateEnvironmentDetection();
      names, fragment := issued[|before|..], text;
      r := Ok(text + code);
    }

    /** `obfuscate`: the name registry is cleared, the stages run in their
        fixed order over one buffer, and the header is put in front. The
        header's kind is decided on the input, and `timestamp` stands for the
        clock reading `new Date().toISOString()`. Afterwards the registry
        holds exactly the names this run issued; with compaction on, the body
        is one line with no doubled and no surrounding white space. */
    method Obfuscate(code: string, o: Options, timestamp: string) returns (r: Outcome<string>, ghost l: Layers, ghost s: Stages)
      modifies this, random
      ensures Valid()
      ensures r.Ok? ==> && Layered(o, code, l) && StagesDone(o, Reserves(), random.draws, l.layered, s)
                        && r.value == Header(IsRobloxScript(code), timestamp) + s.wrapping.body
                        && issued == StagesIssued(LayersIssued([], l), s) && usedNames == Elems(issued)
                        && (o.compactCode ==> Compacted(s.wrapping.body))
    {
      usedNames := {};
      issued := [];
      var isRoblox := IsRobloxScript(code);
      var header := Header(isRoblox, timestamp);
      var body: string;
      l := Layers([], [], [], "", "", "", "");
      s := Stages(Rewrites([], "", 0, [], ""), Insertions([], [], [], "", [], [], [], ""), Wrapping(0, [], "", [], "", ""));
      body, l, s :- Run(code, o);
      r := Ok(header + body);
    }

    /** Steps 1 to 7 over one buffer. */
    method Run(code: string, o: Options) returns (r: Outcome<string>, ghost l: Layers, ghost s: Stages)
      requires Valid()
      modifies this, random
      ensures Valid()
      ensures r.Ok? ==> && Layered(o, code, l) && StagesDone(o, Reserves(), random.draws, l.layered, s)
                        && r.value == s.wrapping.body
                        && issued == StagesIssued(LayersIssued(old(issued), l), s)
                        && (o.compactCode ==> Compacted(s.wrapping.body))
    {
      l := Layers([], [], [], "", "", "", "");
      s := Stages(Rewrites([], "", 0, [], ""), Insertions([], [], [], "", [], [], [], ""), Wrapping(0, [], "", [], "", ""));
      var layered: string;
      layered, l :- AddLayers(code, o);
      var body: string;
      body, s :- Transform(layered, o);
      r := Ok(body);
    }

    /** Steps 2 to 7 over the layered buffer. */
    method Transform(layered: string, o: Options) returns (r: Outcome<string>, ghost s: Stages)
      requires Valid()
      modifies this, random
      ensures Valid()
      ensures r.Ok? ==> && StagesDone(o, Reserves(), random.draws, layered, s) && r.value == s.wrapping.body
                        && issued == StagesIssued(old(issued), s)
                        && (o.compactCode ==> Compacted(s.wrapping.body))
    {
      s := Stages(Rewrites([], "", 0, [], ""), Insertions([], [], [], "", [], [], [], ""), Wrapping(0, [], "", [], "", ""));
      var literalsDone: string;
      ghost var w: Rewrites;
      literalsDone, w :- Rewrite(layered, o);
      var padded: string;
      ghost var n: Insertions;
      padded, n :- Insert(literalsDone, o);
      var body: string;
      ghost var p: Wrapping;
      body, p :- Wrap(padded, o);
      s := Stages(w, n, p);
      r := Ok(body);
    }

    /** Steps 2 and 3. */
    method Rewrite(input: string, o: Options) returns (r: Outcome<string>, ghost w: Rewrites)
      requires Valid()
      modifies this, random
      ensures Valid()
      ensures r.Ok? ==> && Rewritten(o, Reserves(), random.draws, input, w) && r.value == w.literalsDone
                        && issued == old(issued) + Values(w.renames)
    {
      w := Rewrites([], "", 0, [], "");
      var renamed: string;
      ghost var renames: Entries;
      renamed, renames :- VariableStage(input, o.obfuscateVariables);
      ghost var from := random.next;
      var literalsDone, table := StringStage(renamed, o.obfuscateStrings);
      w := Rewrites(renames, renamed, from, table, literalsDone);
      r := Ok(literalsDone);
    }

    /** Steps 4 and 5. */
    method Insert(input: string, o: Options) returns (r: Outcome<string>, ghost n: Insertions)
      requires Valid()
      modifies this, random
      ensures Valid()
      ensures r.Ok? ==> && Inserted(o, random.draws, input, n) && r.value == n.padded
                        && issued == old(issued) + n.flowNames + n.deadNames
    {
      n := Insertions([], [], [], "", [], [], [], "");
      var flowed: string;
      ghost var flowExtras: seq<Option<string>>, flowNames: seq<string>, flowAt: seq<nat>;
      flowed, flowExtras, flowNames, flowAt :- FlowStage(input, o.obfuscateControlFlow);
      var padded: string;
      ghost var deadExtras: seq<Option<string>>, deadNames: seq<string>, deadAt: seq<nat>;
      padded, deadExtras, deadNames, deadAt :- PaddingStage(flowed, o.insertDeadCode);
      n := Insertions(flowExtras, flowNames, flowAt, flowed, deadExtras, deadNames, deadAt, padded);
      r := Ok(padded);
    }

    /** Steps 6 and 7; step 7 is the engine's compaction as written. */
    method Wrap(input: string, o: Options) returns (r: Outcome<string>, ghost w: Wrapping)
      requires Valid()
      modifies this, random
      ensures Valid()
      ensures r.Ok? ==> && Wrapped(o, input, w) && r.value == w.body
                        && issued == old(issued) + w.encryptNames + w.wrapNames
                        && (o.compactCode ==> Compacted(w.body))
    {
      w := Wrapping(0, [], "", [], "", "");
      var encrypted: string;
      ghost var key: nat, encryptNames: seq<string>;
      encrypted, key, encryptNames :- EncryptStage(input, o.encryptCode);
      var wrapped: string;
      ghost var wrapNames: seq<string>;
      wrapped, wrapNames :- SelfModifyingStage(encrypted, o.selfModifying);
      var body := wrapped;
      if o.compactCode {
        body := CompactAsWritten(wrapped);
        CompactAsWrittenShape(wrapped);
      }
      w := Wrapping(key, encryptNames, encrypted, wrapNames, wrapped, body);
      r := Ok(body);
    }

    /** Step 2: the variable stage when switched on. */
    method VariableStage(code: string, on: bool) returns (r: Outcome<string>, ghost renames: Entries)
      requires Valid()
      modifies this, random
      ensures Valid() && Grew(old(issued))
      ensures r.Ok? ==> && issued == old(issued) + Values(renames)
                        && if on then Renamed(Reserves(), code, renames, r.value) && TookIssued(renames, issued, |old(issued)|)
                           else r.value == code && renames == []
    {
      renames := [];
      if !on {
        return Ok(code), renames;
      }
      r, renames := RenameVariables(code);
    }

    /** Step 3: the string stage when switched on. */
    method StringStage(code: string, on: bool) returns (text: string, ghost table: Entries)
      modifies random
      ensures if on then LiteralsEncoded(code, table, text, random.draws, old(random.next)) else text == code
    {
      text, table := code, [];
      if on {
        text, table := ObfuscateStrings(code);
      }
    }

    /** Step 4: the control-flow stage when switched on. */
    method FlowStage(code: string, on: bool)
      returns (r: Outcome<string>, ghost extras: seq<Option<string>>, ghost names: seq<string>, ghost at: seq<nat>)
      requires Valid()
      modifies this, random
      ensures Valid() && Grew(old(issued))
      ensures r.Ok? ==> && issued == old(issued) + names
                        && if on then FlowInserted(random.draws, code, r.value, extras, names, at)
                                      && DrawnBetween(at, old(random.next), random.next)
                           else r.value == code && names == []
    {
      extras, names, at := [], [], [];
      if !on {
        return Ok(code), extras, names, at;
      }
      r, extras, names, at := ObfuscateControlFlow(code);
    }

    /** Step 5: the dead-code stage when switched on. */
    method PaddingStage(code: string, on: bool)
      returns (r: Outcome<string>, ghost extras: seq<Option<string>>, ghost names: seq<string>, ghost at: seq<nat>)
      requires Valid()
      modifies this, random
      ensures Valid() && Grew(old(issued))
      ensures r.Ok? ==> && issued == old(issued) + names
                        && if on then DeadInserted(random.draws, code, r.value, extras, names, at)
                                      && DrawnBetween(at, old(random.next), random.next)
                           else r.value == code && names == []
    {
      extras, names, at := [], [], [];
      if !on {
        return Ok(code), extras, names, at;
      }
      r, extras, names, at := DeadCodeStage(code);
    }

    /** Step 6, first half: the encryption wrapper when switched on. */
    method EncryptStage(code: string, on: bool) returns (r: Outcome<string>, ghost key: nat, ghost names: seq<string>)
      requires Valid()
      modifies this, random
      ensures Valid() && Grew(old(issued))
      ensures r.Ok? ==> && issued == old(issued) + names
                        && if on then Encrypted(code, key, names, r.value) && key == Scaled(random.draws(old(random.next)), 255) + 1
                           else r.value == code && names == []
    {
      key, names := 0, [];
      if !on {
        return Ok(code), key, names;
      }
      ghost var before := issued;
      ghost var k := random.next;
      r := GenerateEncryptionWrapper(code);
      if r.Ok? {
        key := Scaled(random.draws(k), 255) + 1;
        names := issued[|before|..];
        GrewBy(before, issued);
      }
    }

    /** Step 6, second half: the self-modifying wrapper when switched on. */
    method SelfModifyingStage(code: string, on: bool) returns (r: Outcome<string>, ghost names: seq<string>)
      requires Valid()
      modifies this, random
      ensures Valid() && Grew(old(issued))
      ensures r.Ok? ==> && issued == old(issued) + names
                        && if on then SelfModified(code, names, r.value) else r.value == code && names == []
    {
      names := [];
      if !on {
        return Ok(code), names;
      }
      ghost var before := issued;
      r := GenerateSelfModifyingCode(code);
      if r.Ok? {
        names := issued[|before|..];
        GrewBy(before, issued);
      }
    }
  }
}
