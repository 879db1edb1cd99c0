/**
 * The diagnostic parser `parse_cargo_output`: it reads the text `cargo check`
 * printed and counts error and warning lines by substring tests.
 */
module Diagnostics {
  import opened Text

  /** An `(errors, warnings)` pair as the parser returns it. */
  datatype Counts = Counts(errors: nat, warnings: nat)

  const ErrorMarker: string := "error:"
  const WarningMarker: string := "warning:"

  function Add(a: Counts, b: Counts): Counts {
    Counts(a.errors + b.errors, a.warnings + b.warnings)
  }

  /** What one line adds: the error test comes first, the warning test only when it fails. */
  function LineCounts(line: string): Counts {
    if Contains(line, ErrorMarker) then Counts(1, 0)
    else if Contains(line, WarningMarker) then Counts(0, 1)
    else Counts(0, 0)
  }

  /** The counts of a sequence of lines: the sum of what each line adds. */
  function CountLines(lines: seq<string>): Counts {
    if lines == [] then Counts(0, 0)
    else Add(CountLines(lines[..|lines| - 1]), LineCounts(lines[|lines| - 1]))
  }

  /** The value `parse_cargo_output(output)` returns. */
  function Parse(output: string): Counts {
    CountLines(SplitLines(output))
  }

  /** `parse_cargo_output`: one pass over the lines, bumping one counter per matching line. */
  method ParseCargoOutput(output: string) returns (errors: nat, warnings: nat)
    ensures Counts(errors, warnings) == Parse(output)
    ensures output == "" ==> errors == 0 && warnings == 0
    ensures errors + warnings <= |SplitLines(output)|
  {
    var lines := SplitLines(output);
    errors, warnings := 0, 0;
    var i := 0;
    while i < |lines|
      invariant 0 <= i <= |lines|
      invariant Counts(errors, warnings) == CountLines(lines[..i])
    {
      assert lines[..i + 1][..i] == lines[..i];
      if Contains(lines[i], ErrorMarker) {
        errors := errors + 1;
      } else if Contains(lines[i], WarningMarker) {
        warnings := warnings + 1;
      }
      i := i + 1;
    }
    assert lines[..i] == lines;
    CountLinesBound(lines);
  }

  // ---------------------------------------------------------------------------
  // Properties of one line

  /**
   * A line counts as an error exactly when `error:` occurs in it, and as a
   * warning exactly when `error:` does not occur and `warning:` does; it never
   * counts as both.
   */
  lemma LineCountsSpec(line: string)
    ensures LineCounts(line).errors + LineCounts(line).warnings <= 1
    ensures LineCounts(line).errors == 1 <==> exists i :: OccursAt(line, ErrorMarker, i)
    ensures LineCounts(line).warnings == 1 <==>
      (!exists i :: OccursAt(line, ErrorMarker, i)) && exists i :: OccursAt(line, WarningMarker, i)
  {
    ContainsIffOccurs(line, ErrorMarker);
    ContainsIffOccurs(line, WarningMarker);
  }

  // ---------------------------------------------------------------------------
  // Properties of a sequence of lines

  /** Every line adds at most one to `errors + warnings`. */
  lemma {:induction false} CountLinesBound(lines: seq<string>)
    ensures CountLines(lines).errors + CountLines(lines).warnings <= |lines|
  {
    if lines != [] {
      CountLinesBound(lines[..|lines| - 1]);
    }
  }

  /** Counting is additive over concatenation. */
  lemma {:induction false} CountLinesAppend(a: seq<string>, b: seq<string>)
    ensures CountLines(a + b) == Add(CountLines(a), CountLines(b))
    decreases |b|
  {
    if b == [] {
      assert a + b == a;
    } else {
      var b' := b[..|b| - 1];
      var ab := a + b;
      assert ab != [];
      assert ab[..|ab| - 1] == a + b';
      assert ab[|ab| - 1] == b[|b| - 1];
      assert CountLines(ab) == Add(CountLines(a + b'), LineCounts(b[|b| - 1]));
      CountLinesAppend(a, b');
      assert CountLines(b) == Add(CountLines(b'), LineCounts(b[|b| - 1]));
    }
  }

  /** Counting does not depend on the order of the lines. */
  lemma {:induction false} CountLinesPermutation(a: seq<string>, b: seq<string>)
    requires multiset(a) == multiset(b)
    ensures CountLines(a) == CountLines(b)
    decreases |a|
  {
    if a == [] {
      assert |b| == |multiset(b)| == 0;
    } else {
      var n := |a| - 1;
      var x := a[n];
      assert a == a[..n] + [x];
      assert x in multiset(b);
      var j :| 0 <= j < |b| && b[j] == x;
      var b' := b[..j] + b[j + 1..];
      assert b == b[..j] + [x] + b[j + 1..];
      assert multiset(a[..n]) == multiset(a) - multiset{x};
      assert multiset(b') == multiset(b) - multiset{x};
      CountLinesPermutation(a[..n], b');
      CountLinesRemove(b, j);
    }
  }

  /** Removing the line at `j` takes away exactly what that line adds. */
  lemma {:induction false} CountLinesRemove(b: seq<string>, j: nat)
    requires j < |b|
    ensures CountLines(b) == Add(CountLines(b[..j] + b[j + 1..]), LineCounts(b[j]))
  {
    var n := |b| - 1;
    var b0 := b[..n];
    var rest := b[..j] + b[j + 1..];
    assert CountLines(b) == Add(CountLines(b0), LineCounts(b[n]));
    if j == n {
      assert rest == b0;
    } else {
      var rest0 := b0[..j] + b0[j + 1..];
      assert rest0 == b[..j] + b[j + 1..n];
      assert b0[j] == b[j];
      assert rest == rest0 + [b[n]];
      CountLinesSnoc(rest0, b[n]);
      CountLinesRemove(b0, j);
    }
  }

  /** One more line adds what that line contributes. */
  lemma CountLinesSnoc(a: seq<string>, x: string)
    ensures CountLines(a + [x]) == Add(CountLines(a), LineCounts(x))
  {
    assert (a + [x])[..|a|] == a;
  }

  /** The indices of the lines that satisfy `f`. */
  ghost function Matching(lines: seq<string>, f: string -> bool): set<nat> {
    set i: nat | i < |lines| && f(lines[i])
  }

  /** Extending the lines by one adds its index exactly when it satisfies `f`. */
  lemma MatchingSnoc(lines: seq<string>, f: string -> bool)
    requires lines != []
    ensures var n := |lines| - 1;
      |Matching(lines, f)| == |Matching(lines[..n], f)| + (if f(lines[n]) then 1 else 0)
  {
    var n := |lines| - 1;
    var init := lines[..n];
    var last := if f(lines[n]) then {n} else {};
    forall i: nat ensures i in Matching(lines, f) <==> i in Matching(init, f) + last {
      if i < n { assert init[i] == lines[i]; }
    }
    assert Matching(lines, f) == Matching(init, f) + last;
    assert n !in Matching(init, f);
  }

  /** The indices of the lines `error:` occurs in. */
  ghost function ErrorLines(lines: seq<string>): set<nat> {
    Matching(lines, l => LineCounts(l).errors == 1)
  }

  /** The indices of the lines `warning:` occurs in and `error:` does not. */
  ghost function WarningLines(lines: seq<string>): set<nat> {
    Matching(lines, l => LineCounts(l).warnings == 1)
  }

  /**
   * The counts are the numbers of error lines and of warning-only lines,
   * and no line is in both (what one line adds is `LineCountsSpec`).
   */
  lemma {:induction false} CountLinesByIndex(lines: seq<string>)
    ensures CountLines(lines).errors == |ErrorLines(lines)|
    ensures CountLines(lines).warnings == |WarningLines(lines)|
    ensures ErrorLines(lines) !! WarningLines(lines)
  {
    if lines != [] {
      var n := |lines| - 1;
      CountLinesByIndex(lines[..n]);
      MatchingSnoc(lines, l => LineCounts(l).errors == 1);
      MatchingSnoc(lines, l => LineCounts(l).warnings == 1);
    }
    forall i | i in ErrorLines(lines) ensures i !in WarningLines(lines) {
      LineCountsSpec(lines[i]);
    }
  }

  // ---------------------------------------------------------------------------
  // Properties of whole outputs

  /** Empty output has no lines and counts `(0, 0)`. */
  lemma ParseEmpty()
    ensures Parse("") == Counts(0, 0)
  {
  }

  /** The counts of a newline-terminated text are the counts of its lines. */
  lemma ParseTerminated(lines: seq<string>)
    requires forall i :: 0 <= i < |lines| ==> IsLine(lines[i])
    ensures Parse(Terminated(lines)) == CountLines(lines)
  {
    SplitLinesTerminated(lines);
  }

  /**
   * A line that starts with `error:` is one error, whatever else it says: a
   * compiler summary such as `error: could not compile ... due to 3 previous
   * errors; 2 warnings emitted` adds one error and no warnings.
   */
  lemma ErrorPrefixLine(rest: string)
    ensures LineCounts(ErrorMarker + rest) == Counts(1, 0)
  {
    var l := ErrorMarker + rest;
    assert l[..|ErrorMarker|] == ErrorMarker;
    assert OccursAt(l, ErrorMarker, 0);
    ContainsAt(l, ErrorMarker, 0);
  }

  /** A line without a `:` can hold neither marker, so it adds nothing. */
  lemma NoColonCountsNothing(line: string)
    requires ':' !in line
    ensures LineCounts(line) == Counts(0, 0)
  {
    assert ErrorMarker[5] == ':' && WarningMarker[7] == ':';
    NotContainsMissingChar(line, ErrorMarker, ':');
    NotContainsMissingChar(line, WarningMarker, ':');
  }

  /** A line with both markers is an error line and not a warning line. */
  lemma ErrorTakesPrecedence(line: string, i: int, j: int)
    requires OccursAt(line, ErrorMarker, i) && OccursAt(line, WarningMarker, j)
    ensures LineCounts(line) == Counts(1, 0)
  {
    ContainsAt(line, ErrorMarker, i);
  }
}
