/**
 * The Python string built-ins the driver relies on: `str.isspace`,
 * `str.strip`, `str.split()` (no argument), `str.splitlines`, the substring
 * test `p in s`, and `os.path.basename` on POSIX paths.
 */
module Text {

  /** Python's `str.isspace` for one character (Unicode White_Space as CPython defines it). */
  predicate IsSpace(c: char) {
    ('\t' <= c <= '\r') || ('\U{1c}' <= c <= '\U{1f}') || c == ' ' ||
    c == '\U{85}' || c == '\U{a0}' || c == '\U{1680}' ||
    ('\U{2000}' <= c <= '\U{200a}') || c == '\U{2028}' || c == '\U{2029}' ||
    c == '\U{202f}' || c == '\U{205f}' || c == '\U{3000}'
  }

  /** The line boundaries recognised by Python's `str.splitlines`. */
  predicate IsLineBreak(c: char) {
    ('\n' <= c <= '\r') || ('\U{1c}' <= c <= '\U{1e}') ||
    c == '\U{85}' || c == '\U{2028}' || c == '\U{2029}'
  }

  // ---------------------------------------------------------------------------
  // str.strip()

  /** Length of the run of whitespace that starts `s` (what `s.lstrip()` drops). */
  function LeadingSpaces(s: string): (i: nat)
    ensures i <= |s|
    ensures forall k :: 0 <= k < i ==> IsSpace(s[k])
    ensures i < |s| ==> !IsSpace(s[i])
  {
    if s != [] && IsSpace(s[0]) then 1 + LeadingSpaces(s[1..]) else 0
  }

  /** Start of the run of whitespace that ends `s`, not reaching below `lo` (what `s.rstrip()` drops). */
  function TrailingStart(s: string, lo: nat): (j: nat)
    requires lo <= |s|
    ensures lo <= j <= |s|
    ensures forall k :: j <= k < |s| ==> IsSpace(s[k])
    ensures lo < j ==> !IsSpace(s[j - 1])
  {
    if lo < |s| && IsSpace(s[|s| - 1]) then TrailingStart(s[..|s| - 1], lo) else |s|
  }

  /** `s.strip()`: `s` without its leading and trailing whitespace. */
  function Strip(s: string): (r: string)
    ensures r == [] || (!IsSpace(r[0]) && !IsSpace(r[|r| - 1]))
    ensures r == [] <==> forall k :: 0 <= k < |s| ==> IsSpace(s[k])
  {
    var i := LeadingSpaces(s);
    s[i..TrailingStart(s, i)]
  }

  /** Stripping removes only whitespace from the two ends: `s` is `Strip(s)` padded by whitespace. */
  lemma StripIsInfix(s: string)
    ensures var r, i := Strip(s), LeadingSpaces(s);
      i + |r| <= |s| && s[i..i + |r|] == r &&
      (forall k :: 0 <= k < i ==> IsSpace(s[k])) &&
      (forall k :: i + |r| <= k < |s| ==> IsSpace(s[k]))
  {
  }

  // ---------------------------------------------------------------------------
  // str.split() with no separator

  /** A token of `str.split()`: non-empty and free of whitespace. */
  predicate IsToken(t: string) {
    t != [] && forall k :: 0 <= k < |t| ==> !IsSpace(t[k])
  }

  /** Length of the run of non-whitespace characters that starts `s`. */
  function TokenEnd(s: string): (k: nat)
    ensures k <= |s|
    ensures forall i :: 0 <= i < k ==> !IsSpace(s[i])
    ensures k < |s| ==> IsSpace(s[k])
  {
    if s == [] || IsSpace(s[0]) then 0 else 1 + TokenEnd(s[1..])
  }

  /** `s.split()`: the maximal whitespace-free runs of `s`, in order. */
  function SplitWhitespace(s: string): (tokens: seq<string>)
    ensures forall i :: 0 <= i < |tokens| ==> IsToken(tokens[i])
    decreases |s|
  {
    var t := s[LeadingSpaces(s)..];
    if t == [] then []
    else
      var k := TokenEnd(t);
      assert 0 < k && IsToken(t[..k]);
      var rest := SplitWhitespace(t[k..]);
      [t[..k]] + rest
  }

  /** `" ".join(tokens)`. */
  function JoinSpaced(tokens: seq<string>): string {
    if tokens == [] then ""
    else if |tokens| == 1 then tokens[0]
    else tokens[0] + " " + JoinSpaced(tokens[1..])
  }

  /** Splitting undoes joining with single spaces: `" ".join(ts).split() == ts`. */
  lemma {:induction false} SplitJoinSpaced(tokens: seq<string>)
    requires forall i :: 0 <= i < |tokens| ==> IsToken(tokens[i])
    ensures SplitWhitespace(JoinSpaced(tokens)) == tokens
  {
    if tokens == [] {
      assert LeadingSpaces("") == 0;
    } else if |tokens| == 1 {
      var t0 := tokens[0];
      assert IsToken(t0);
      SplitWholeToken(t0);
    } else {
      var tail := tokens[1..];
      assert forall i :: 0 <= i < |tail| ==> IsToken(tail[i]) by {
        forall i | 0 <= i < |tail| ensures IsToken(tail[i]) {
          assert tail[i] == tokens[i + 1];
        }
      }
      assert JoinSpaced(tokens) == tokens[0] + " " + JoinSpaced(tail);
      SplitTokenThenSpace(tokens[0], JoinSpaced(tail));
      SplitJoinSpaced(tail);
      assert tokens == [tokens[0]] + tail;
    }
  }

  /** A single token splits to itself. */
  lemma SplitWholeToken(t: string)
    requires IsToken(t)
    ensures SplitWhitespace(t) == [t]
  {
    assert t[..|t|] == t;
    assert t[|t|..] == [];
    SplitEmpty();
    SplitAtToken(t, |t|);
  }

  lemma SplitEmpty()
    ensures SplitWhitespace([]) == []
  {
    assert LeadingSpaces([]) == 0;
  }

  /** `(t + " " + rest).split()` starts with the token `t`. */
  lemma SplitTokenThenSpace(t: string, rest: string)
    requires IsToken(t)
    ensures SplitWhitespace(t + " " + rest) == [t] + SplitWhitespace(rest)
  {
    var s := t + " " + rest;
    assert s[..|t|] == t;
    assert s[|t|..] == " " + rest;
    SplitAtToken(s, |t|);
    SplitLeadingSpace(rest);
  }

  /** A token that starts `s` is the first element of `s.split()`. */
  lemma SplitAtToken(s: string, n: nat)
    requires 0 < n <= |s|
    requires forall k :: 0 <= k < n ==> !IsSpace(s[k])
    requires n < |s| ==> IsSpace(s[n])
    ensures SplitWhitespace(s) == [s[..n]] + SplitWhitespace(s[n..])
  {
    assert LeadingSpaces(s) == 0 && s[0..] == s;
    TokenEndOfPrefix(s, n);
  }

  /** Leading whitespace does not change `s.split()`. */
  lemma SplitLeadingSpace(r: string)
    ensures SplitWhitespace(" " + r) == SplitWhitespace(r)
  {
    assert (" " + r)[1..] == r;
    assert LeadingSpaces(" " + r) == 1 + LeadingSpaces(r);
    assert (" " + r)[1 + LeadingSpaces(r)..] == r[LeadingSpaces(r)..];
  }

  lemma {:induction false} TokenEndOfPrefix(s: string, n: nat)
    requires n <= |s|
    requires forall k :: 0 <= k < n ==> !IsSpace(s[k])
    requires n < |s| ==> IsSpace(s[n])
    ensures TokenEnd(s) == n
  {
    if n > 0 {
      TokenEndOfPrefix(s[1..], n - 1);
    }
  }

  /** Every character of `g` is whitespace. */
  predicate AllSpace(g: string) {
    forall k :: 0 <= k < |g| ==> IsSpace(g[k])
  }

  /** The whitespace runs around and between the parts of `s.split()`, in order. */
  function Gaps(s: string): (gaps: seq<string>)
    decreases |s|
  {
    var i := LeadingSpaces(s);
    var t := s[i..];
    if t == [] then [s]
    else [s[..i]] + Gaps(t[TokenEnd(t)..])
  }

  /** `gaps[0] + tokens[0] + gaps[1] + ... + tokens[n - 1] + gaps[n]`. */
  function Interleave(gaps: seq<string>, tokens: seq<string>): string
    requires |gaps| == |tokens| + 1
    decreases |tokens|
  {
    if tokens == [] then gaps[0]
    else gaps[0] + tokens[0] + Interleave(gaps[1..], tokens[1..])
  }

  /** There is one more gap than there are parts. */
  lemma {:induction false} GapsLength(s: string)
    ensures |Gaps(s)| == |SplitWhitespace(s)| + 1
    decreases |s|
  {
    var t := s[LeadingSpaces(s)..];
    if t != [] {
      GapsLength(t[TokenEnd(t)..]);
    }
  }

  /** A text with a part splits into a gap, that part, and a shorter rest that starts with whitespace if at all. */
  lemma SplitFirst(s: string) returns (g: string, x: string, rest: string)
    requires s[LeadingSpaces(s)..] != []
    ensures s == g + x + rest && |rest| < |s|
    ensures AllSpace(g) && (rest != [] ==> IsSpace(rest[0]))
    ensures SplitWhitespace(s) == [x] + SplitWhitespace(rest)
    ensures Gaps(s) == [g] + Gaps(rest)
  {
    var i := LeadingSpaces(s);
    var t := s[i..];
    var k := TokenEnd(t);
    g, x, rest := s[..i], t[..k], t[k..];
    assert s == g + t && t == x + rest;
  }

  /**
   * `split()` loses only whitespace: `s` is its parts with whitespace runs
   * around and between them.
   */
  lemma {:induction false} SplitWhitespaceCovers(s: string)
    ensures |Gaps(s)| == |SplitWhitespace(s)| + 1
    ensures Interleave(Gaps(s), SplitWhitespace(s)) == s
    decreases |s|
  {
    GapsLength(s);
    if s[LeadingSpaces(s)..] != [] {
      var g, x, rest := SplitFirst(s);
      SplitWhitespaceCovers(rest);
      InterleaveCons(g, Gaps(rest), x, SplitWhitespace(rest));
    }
  }

  lemma InterleaveCons(g: string, gaps: seq<string>, x: string, tokens: seq<string>)
    requires |gaps| == |tokens| + 1
    ensures Interleave([g] + gaps, [x] + tokens) == g + x + Interleave(gaps, tokens)
  {
    assert ([g] + gaps)[1..] == gaps;
    assert ([x] + tokens)[1..] == tokens;
  }

  /** Every gap is whitespace. */
  lemma {:induction false} GapsAreSpace(s: string)
    ensures forall i :: 0 <= i < |Gaps(s)| ==> AllSpace(Gaps(s)[i])
    decreases |s|
  {
    if s[LeadingSpaces(s)..] != [] {
      var g, x, rest := SplitFirst(s);
      GapsAreSpace(rest);
    } else {
      assert AllSpace(s);
    }
  }

  /** Every gap between two parts is non-empty. */
  lemma {:induction false} InnerGapsNonEmpty(s: string)
    ensures |Gaps(s)| == |SplitWhitespace(s)| + 1
    ensures forall i :: 0 < i < |SplitWhitespace(s)| ==> Gaps(s)[i] != []
    decreases |s|
  {
    GapsLength(s);
    if s[LeadingSpaces(s)..] != [] {
      var g, x, rest := SplitFirst(s);
      InnerGapsNonEmpty(rest);
      if SplitWhitespace(rest) != [] {
        assert rest != [] by { SplitEmpty(); }
        assert Gaps(rest)[0] != [];
      }
    }
  }

  // ---------------------------------------------------------------------------
  // str.splitlines()

  /** Index of the first line boundary in `s`, or `|s|` when there is none. */
  function LineEnd(s: string): (k: nat)
    ensures k <= |s|
    ensures forall i :: 0 <= i < k ==> !IsLineBreak(s[i])
    ensures k < |s| ==> IsLineBreak(s[k])
  {
    if s == [] || IsLineBreak(s[0]) then 0 else 1 + LineEnd(s[1..])
  }

  /** Width of the boundary at `k`: `"\r\n"` is one boundary of two characters. */
  function BreakWidth(s: string, k: nat): (w: nat)
    requires k < |s|
    ensures 1 <= w <= 2 && k + w <= |s|
    ensures w == 2 <==> s[k] == '\r' && k + 1 < |s| && s[k + 1] == '\n'
  {
    if s[k] == '\r' && k + 1 < |s| && s[k + 1] == '\n' then 2 else 1
  }

  /** A line as `splitlines` yields it: free of line boundaries. */
  predicate IsLine(l: string) {
    forall k :: 0 <= k < |l| ==> !IsLineBreak(l[k])
  }

  /**
   * `s.splitlines()`: the text between line boundaries, boundaries dropped;
   * a final boundary does not start an extra empty line, and `""` has no lines.
   */
  function SplitLines(s: string): (lines: seq<string>)
    ensures |lines| <= |s|
    ensures forall i :: 0 <= i < |lines| ==> IsLine(lines[i])
    decreases |s|
  {
    if s == [] then []
    else
      var k := LineEnd(s);
      if k == |s| then [s]
      else [s[..k]] + SplitLines(s[k + BreakWidth(s, k)..])
  }

  /** Each line followed by `"\n"`, as a text file with a newline after every line. */
  function Terminated(lines: seq<string>): string {
    if lines == [] then "" else lines[0] + "\n" + Terminated(lines[1..])
  }

  /** Splitting undoes newline termination: `"".join(l + "\n" for l in ls).splitlines() == ls`. */
  lemma {:induction false} SplitLinesTerminated(lines: seq<string>)
    requires forall i :: 0 <= i < |lines| ==> IsLine(lines[i])
    ensures SplitLines(Terminated(lines)) == lines
  {
    if lines != [] {
      var s := Terminated(lines);
      var l0 := lines[0];
      assert s[..|l0|] == l0;
      assert s[|l0|] == '\n';
      LineEndOfPrefix(s, |l0|);
      assert BreakWidth(s, |l0|) == 1;
      assert s[|l0| + 1..] == Terminated(lines[1..]);
      SplitLinesTerminated(lines[1..]);
    }
  }

  lemma {:induction false} LineEndOfPrefix(s: string, n: nat)
    requires n < |s|
    requires forall k :: 0 <= k < n ==> !IsLineBreak(s[k])
    requires IsLineBreak(s[n])
    ensures LineEnd(s) == n
  {
    if n > 0 {
      LineEndOfPrefix(s[1..], n - 1);
    }
  }

  /** A line boundary as it appears in the text: one boundary character, or `"\r\n"`. */
  predicate IsBoundary(b: string) {
    (|b| == 1 && IsLineBreak(b[0])) || (|b| == 2 && b[0] == '\r' && b[1] == '\n')
  }

  /** The boundary after each line of `s.splitlines()`; empty after a last line that has none. */
  function LineBreaks(s: string): seq<string>
    decreases |s|
  {
    if s == [] then []
    else
      var k := LineEnd(s);
      if k == |s| then [[]]
      else
        var w := BreakWidth(s, k);
        [s[k..k + w]] + LineBreaks(s[k + w..])
  }

  /** `lines[0] + breaks[0] + lines[1] + breaks[1] + ...`. */
  function Rejoin(lines: seq<string>, breaks: seq<string>): string
    requires |lines| == |breaks|
    decreases |lines|
  {
    if lines == [] then []
    else lines[0] + breaks[0] + Rejoin(lines[1..], breaks[1..])
  }

  /** Every line has its own boundary entry. */
  lemma {:induction false} LineBreaksLength(s: string)
    ensures |LineBreaks(s)| == |SplitLines(s)|
    decreases |s|
  {
    if s != [] {
      var l, b, rest := SplitLinesFirst(s);
      LineBreaksLength(rest);
    }
  }

  /**
   * A non-empty text is a first line, its boundary and a shorter rest; the
   * boundary is "\r" alone only when no "\n" follows, and it is empty only at
   * the end of a text whose last line is not empty.
   */
  lemma SplitLinesFirst(s: string) returns (l: string, b: string, rest: string)
    requires s != []
    ensures s == l + b + rest && |rest| < |s|
    ensures IsLine(l)
    ensures b == [] ==> rest == [] && l != []
    ensures b != [] ==> IsBoundary(b)
    ensures b == ['\r'] ==> rest == [] || rest[0] != '\n'
    ensures SplitLines(s) == [l] + SplitLines(rest)
    ensures LineBreaks(s) == [b] + LineBreaks(rest)
  {
    var k := LineEnd(s);
    if k == |s| {
      l, b, rest := s, [], [];
    } else {
      var w := BreakWidth(s, k);
      l, b, rest := s[..k], s[k..k + w], s[k + w..];
      assert s == l + b + rest;
    }
  }

  lemma RejoinCons(l: string, lines: seq<string>, b: string, breaks: seq<string>)
    requires |lines| == |breaks|
    ensures Rejoin([l] + lines, [b] + breaks) == l + b + Rejoin(lines, breaks)
  {
    assert ([l] + lines)[1..] == lines;
    assert ([b] + breaks)[1..] == breaks;
  }

  /**
   * `splitlines()` loses only the boundaries: `s` is each line followed by its
   * boundary, in order.
   */
  lemma {:induction false} SplitLinesCovers(s: string)
    ensures |LineBreaks(s)| == |SplitLines(s)|
    ensures Rejoin(SplitLines(s), LineBreaks(s)) == s
    decreases |s|
  {
    LineBreaksLength(s);
    if s != [] {
      var l, b, rest := SplitLinesFirst(s);
      SplitLinesCovers(rest);
      RejoinCons(l, SplitLines(rest), b, LineBreaks(rest));
    }
  }

  /** Every non-empty entry is one boundary. */
  lemma {:induction false} LineBreaksAreBoundaries(s: string)
    ensures forall i :: 0 <= i < |LineBreaks(s)| && LineBreaks(s)[i] != [] ==> IsBoundary(LineBreaks(s)[i])
    decreases |s|
  {
    if s != [] {
      var l, b, rest := SplitLinesFirst(s);
      LineBreaksAreBoundaries(rest);
    }
  }

  /**
   * Only the last entry can be empty, when the text does not end in a
   * boundary; then that unterminated last line is non-empty and still counts.
   */
  lemma {:induction false} UnterminatedLastLine(s: string)
    ensures |LineBreaks(s)| == |SplitLines(s)|
    ensures forall i :: 0 <= i < |LineBreaks(s)| && LineBreaks(s)[i] == [] ==>
      i == |LineBreaks(s)| - 1 && SplitLines(s)[i] != []
    decreases |s|
  {
    LineBreaksLength(s);
    if s != [] {
      var l, b, rest := SplitLinesFirst(s);
      UnterminatedLastLine(rest);
      if b == [] {
        assert LineBreaks(rest) == [];
      }
    }
  }

  /** A `"\r"` boundary is never directly followed by a `"\n"`: `"\r\n"` is one boundary. */
  lemma {:induction false} LoneCarriageReturn(s: string)
    ensures |LineBreaks(s)| == |SplitLines(s)|
    ensures var ls, bs := SplitLines(s), LineBreaks(s);
      forall i :: 0 <= i < |bs| && bs[i] == ['\r'] ==>
        var after := Rejoin(ls[i + 1..], bs[i + 1..]);
        after == [] || after[0] != '\n'
    decreases |s|
  {
    LineBreaksLength(s);
    if s != [] {
      var l, b, rest := SplitLinesFirst(s);
      LoneCarriageReturn(rest);
      SplitLinesCovers(rest);
      var ls, bs := SplitLines(s), LineBreaks(s);
      var ls', bs' := SplitLines(rest), LineBreaks(rest);
      forall i | 0 <= i < |bs| && bs[i] == ['\r']
        ensures var after := Rejoin(ls[i + 1..], bs[i + 1..]); after == [] || after[0] != '\n'
      {
        if i == 0 {
          DropCons(l, ls', 0);
          DropCons(b, bs', 0);
        } else {
          DropCons(l, ls', i);
          DropCons(b, bs', i);
          assert bs'[i - 1] == bs[i];
        }
      }
    }
  }

  lemma DropCons<T>(x: T, xs: seq<T>, i: nat)
    requires i <= |xs|
    ensures ([x] + xs)[i + 1..] == xs[i..]
  {
  }

  // ---------------------------------------------------------------------------
  // The substring test `p in s`

  /** `p` occurs in `s` starting at index `i`. */
  ghost predicate OccursAt(s: string, p: string, i: int) {
    0 <= i && i + |p| <= |s| && s[i..i + |p|] == p
  }

  /** Python's `p in s` for strings. */
  predicate Contains(s: string, p: string)
    decreases |s|
  {
    |p| <= |s| && (s[..|p|] == p || Contains(s[1..], p))
  }

  /** `Contains` holds exactly when `p` occurs somewhere in `s`. */
  lemma {:induction false} ContainsIffOccurs(s: string, p: string)
    ensures Contains(s, p) <==> exists i :: OccursAt(s, p, i)
    decreases |s|
  {
    if |p| <= |s| {
      if s[..|p|] == p {
        assert OccursAt(s, p, 0);
      } else {
        ContainsIffOccurs(s[1..], p);
        forall i | OccursAt(s, p, i) ensures OccursAt(s[1..], p, i - 1) {
          assert s[1..][i - 1..i - 1 + |p|] == s[i..i + |p|];
        }
        if Contains(s[1..], p) {
          var i :| OccursAt(s[1..], p, i);
          assert s[i + 1..i + 1 + |p|] == s[1..][i..i + |p|];
          assert OccursAt(s, p, i + 1);
        }
      }
    }
  }

  /** Every character of an occurring pattern is a character of `s`. */
  lemma OccursChars(s: string, p: string, i: int)
    ensures OccursAt(s, p, i) ==> forall k :: 0 <= k < |p| ==> p[k] in s
  {
    if OccursAt(s, p, i) {
      forall k | 0 <= k < |p| ensures p[k] in s {
        assert s[i + k] == s[i..i + |p|][k];
      }
    }
  }

  /** A pattern with a character that `s` lacks is not in `s`. */
  lemma NotContainsMissingChar(s: string, p: string, c: char)
    requires c in p && c !in s
    ensures !Contains(s, p)
  {
    ContainsIffOccurs(s, p);
    forall i ensures !OccursAt(s, p, i) {
      OccursChars(s, p, i);
    }
  }

  /** A witness occurrence establishes `p in s`. */
  lemma ContainsAt(s: string, p: string, i: int)
    requires OccursAt(s, p, i)
    ensures Contains(s, p)
  {
    ContainsIffOccurs(s, p);
  }

  // ---------------------------------------------------------------------------
  // os.path.basename (POSIX)

  /** `p.rfind('/') + 1`: where the part after the last `'/'` begins. */
  function BaseStart(p: string): (k: nat)
    ensures k <= |p|
    ensures forall i :: k <= i < |p| ==> p[i] != '/'
    ensures 0 < k ==> p[k - 1] == '/'
  {
    if p == [] then 0
    else if p[|p| - 1] == '/' then |p|
    else BaseStart(p[..|p| - 1])
  }

  /** `os.path.basename(p)`: the part of `p` after its last `'/'`. */
  function Basename(p: string): (b: string)
    ensures '/' !in b
  {
    p[BaseStart(p)..]
  }
}
