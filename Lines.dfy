/** The two line-insertion passes (control-flow noise and dead code) share one
    shape: the text is split at line feeds, every original line is pushed in
    order, and an extra line may be pushed right after an eligible one. */
module Lines {
  import opened Wrappers
  import opened Text

  /** `line.trim() && !line.trim().startsWith('--')`: the dead-code pass may insert after it. */
  predicate DeadCodeEligible(line: string) {
    Trim(line) != "" && !StartsWith(Trim(line), "--")
  }

  /** The control-flow pass also skips lines whose trimmed form starts with `local`. */
  predicate ControlFlowEligible(line: string) {
    DeadCodeEligible(line) && !StartsWith(Trim(line), "local")
  }

  function Extra(x: Option<string>): seq<string> {
    if x.Some? then [x.value] else []
  }

  /** Which output lines were inserted, for a given choice of extras. */
  function InsertedMask(extras: seq<Option<string>>): seq<bool>
    decreases |extras|
  {
    if extras == [] then [] else [false] + (if extras[0].Some? then [true] else []) + InsertedMask(extras[1..])
  }

  /** The pushed lines: each original line followed by its extra, if any. */
  function Expand(lines: seq<string>, extras: seq<Option<string>>): (r: seq<string>)
    requires |extras| == |lines|
    ensures |r| == |InsertedMask(extras)|
    decreases |lines|
  {
    if lines == [] then [] else [lines[0]] + Extra(extras[0]) + Expand(lines[1..], extras[1..])
  }

  /** The lines whose mask entry is false. */
  function Kept(xs: seq<string>, mask: seq<bool>): seq<string>
    requires |xs| == |mask|
    decreases |xs|
  {
    if xs == [] then [] else (if mask[0] then [] else [xs[0]]) + Kept(xs[1..], mask[1..])
  }

  lemma {:induction false} KeptAppend(a: seq<string>, ma: seq<bool>, b: seq<string>, mb: seq<bool>)
    requires |a| == |ma| && |b| == |mb|
    ensures Kept(a + b, ma + mb) == Kept(a, ma) + Kept(b, mb)
    decreases |a|
  {
    if a == [] {
      assert a + b == b && ma + mb == mb;
    } else {
      KeptAppend(a[1..], ma[1..], b, mb);
      var first := if ma[0] then [] else [a[0]];
      assert (a + b)[1..] == a[1..] + b;
      assert (ma + mb)[1..] == ma[1..] + mb;
      assert Kept(a + b, ma + mb) == first + Kept(a[1..] + b, ma[1..] + mb);
      assert Kept(a, ma) == first + Kept(a[1..], ma[1..]);
    }
  }

  /** Removing the inserted lines gives back the original lines, unchanged and in order. */
  lemma {:induction false} RemovingInsertedRestores(lines: seq<string>, extras: seq<Option<string>>)
    requires |extras| == |lines|
    ensures Kept(Expand(lines, extras), InsertedMask(extras)) == lines
    decreases |lines|
  {
    if lines != [] {
      RemovingInsertedRestores(lines[1..], extras[1..]);
      var head := [lines[0]] + Extra(extras[0]);
      var headMask := [false] + (if extras[0].Some? then [true] else []);
      KeptAppend(head, headMask, Expand(lines[1..], extras[1..]), InsertedMask(extras[1..]));
      assert Kept(head, headMask) == [lines[0]];
    }
  }

  /** An inserted line always comes right after an original line that the pass found eligible. */
  lemma {:induction false} InsertedFollowEligible(lines: seq<string>, extras: seq<Option<string>>, eligible: string -> bool)
    requires |extras| == |lines|
    requires forall i :: 0 <= i < |lines| && extras[i].Some? ==> eligible(lines[i])
    ensures forall k :: 0 <= k < |InsertedMask(extras)| && InsertedMask(extras)[k] ==>
      0 < k && !InsertedMask(extras)[k - 1] && eligible(Expand(lines, extras)[k - 1])
    decreases |lines|
  {
    if lines != [] {
      var rest := Expand(lines[1..], extras[1..]);
      var restMask := InsertedMask(extras[1..]);
      assert forall i :: 0 <= i < |lines| - 1 && extras[1..][i].Some? ==> eligible(lines[1..][i]) by {
        forall i | 0 <= i < |lines| - 1 && extras[1..][i].Some?
          ensures eligible(lines[1..][i])
        {
          assert extras[1..][i] == extras[i + 1] && lines[1..][i] == lines[i + 1];
        }
      }
      InsertedFollowEligible(lines[1..], extras[1..], eligible);
      var h := if extras[0].Some? then 2 else 1;
      var out := Expand(lines, extras);
      var mask := InsertedMask(extras);
      assert out == [lines[0]] + Extra(extras[0]) + rest;
      assert mask == [false] + (if extras[0].Some? then [true] else []) + restMask;
      forall k | 0 <= k < |mask| && mask[k]
        ensures 0 < k && !mask[k - 1] && eligible(out[k - 1])
      {
        if k >= h {
          assert mask[k] == restMask[k - h];
          assert k - h > 0;
          assert mask[k - 1] == restMask[k - h - 1] && out[k - 1] == rest[k - h - 1];
        }
      }
    }
  }

  /** With no line feed in any pushed line, splitting the joined text gives the pushed lines back. */
  lemma ExpandSplits(lines: seq<string>, extras: seq<Option<string>>)
    requires |extras| == |lines| && |lines| >= 1
    requires forall i :: 0 <= i < |lines| ==> '\n' !in lines[i]
    requires forall i :: 0 <= i < |extras| && extras[i].Some? ==> '\n' !in extras[i].value
    ensures Split(Join(Expand(lines, extras), "\n"), '\n') == Expand(lines, extras)
  {
    ExpandNoNewline(lines, extras);
    SplitJoin(Expand(lines, extras), '\n');
  }

  lemma {:induction false} ExpandNoNewline(lines: seq<string>, extras: seq<Option<string>>)
    requires |extras| == |lines|
    requires forall i :: 0 <= i < |lines| ==> '\n' !in lines[i]
    requires forall i :: 0 <= i < |extras| && extras[i].Some? ==> '\n' !in extras[i].value
    ensures |lines| >= 1 ==> |Expand(lines, extras)| >= 1
    ensures forall k :: 0 <= k < |Expand(lines, extras)| ==> '\n' !in Expand(lines, extras)[k]
    decreases |lines|
  {
    if lines != [] {
      ExpandNoNewline(lines[1..], extras[1..]);
    }
  }

  /** One more line pushed: the expansion grows by that line and its extra. */
  lemma {:induction false} ExpandSnoc(lines: seq<string>, extras: seq<Option<string>>, line: string, extra: Option<string>)
    requires |extras| == |lines|
    ensures Expand(lines + [line], extras + [extra]) == Expand(lines, extras) + [line] + Extra(extra)
    decreases |lines|
  {
    if lines == [] {
      assert lines + [line] == [line] && extras + [extra] == [extra];
    } else {
      ExpandSnoc(lines[1..], extras[1..], line, extra);
      assert (lines + [line])[1..] == lines[1..] + [line];
      assert (extras + [extra])[1..] == extras[1..] + [extra];
    }
  }

  /** A line-insertion pass: the output's lines are the input's lines, each
      followed by at most one inserted line, and only after an eligible one. */
  ghost predicate LinesInserted(input: string, output: string, extras: seq<Option<string>>, eligible: string -> bool) {
    var lines := Split(input, '\n');
    && |extras| == |lines|
    && Split(output, '\n') == Expand(lines, extras)
    && Kept(Split(output, '\n'), InsertedMask(extras)) == lines
    && (forall j :: 0 <= j < |lines| && extras[j].Some? ==> eligible(lines[j]))
  }

  /** The extras chosen so far each follow an eligible line and hold no line
      feed; stated extra by extra from the last one back. */
  ghost predicate ExtrasFit(lines: seq<string>, extras: seq<Option<string>>, eligible: string -> bool)
    requires |extras| <= |lines|
    decreases |extras|
  {
    extras != [] ==>
      var k := |extras| - 1;
      && (extras[k].Some? ==> eligible(lines[k]) && '\n' !in extras[k].value)
      && ExtrasFit(lines, extras[..k], eligible)
  }

  /** `ExtrasFit`, extra by extra. */
  lemma {:induction false} ExtrasFitAll(lines: seq<string>, extras: seq<Option<string>>, eligible: string -> bool)
    requires |extras| <= |lines| && ExtrasFit(lines, extras, eligible)
    ensures forall j :: 0 <= j < |extras| && extras[j].Some? ==> eligible(lines[j]) && '\n' !in extras[j].value
    decreases |extras|
  {
    if extras != [] {
      var k := |extras| - 1;
      ExtrasFitAll(lines, extras[..k], eligible);
      assert forall j :: 0 <= j < k ==> extras[..k][j] == extras[j];
    }
  }

  lemma ExtrasFitSnoc(lines: seq<string>, extras: seq<Option<string>>, extra: Option<string>, eligible: string -> bool)
    requires |extras| < |lines| && ExtrasFit(lines, extras, eligible)
    requires extra.Some? ==> eligible(lines[|extras|]) && '\n' !in extra.value
    ensures ExtrasFit(lines, extras + [extra], eligible)
  {
    assert (extras + [extra])[..|extras|] == extras;
  }

  /** A pass that pushed every line of the input, each with an extra that fits,
      and joined the pushed lines with line feeds, inserted lines as specified. */
  lemma PassInserted(input: string, extras: seq<Option<string>>, eligible: string -> bool)
    requires |extras| == |Split(input, '\n')| && ExtrasFit(Split(input, '\n'), extras, eligible)
    ensures LinesInserted(input, Join(Expand(Split(input, '\n'), extras), "\n"), extras, eligible)
  {
    var lines := Split(input, '\n');
    ExtrasFitAll(lines, extras, eligible);
    ExpandSplits(lines, extras);
    RemovingInsertedRestores(lines, extras);
  }
}
