/** Text primitives shared by the response parser: the character classes of
    JavaScript regular expressions, trim(), split('\n'), case-insensitive
    comparison and a leftmost-position search that stands for String.match. */
module Strings {

  datatype Option<T> = None | Some(value: T)

  /** JavaScript's WhiteSpace and LineTerminator characters: exactly what
      String.prototype.trim removes and what the class \s matches. */
  predicate IsSpace(c: char) {
    c == ' ' || c == '\t' || c == '\n' || c == '\r' || c == '\U{000B}' || c == '\U{000C}'
    || c == '\U{00A0}' || c == '\U{1680}' || ('\U{2000}' <= c <= '\U{200A}')
    || c == '\U{2028}' || c == '\U{2029}' || c == '\U{202F}' || c == '\U{205F}'
    || c == '\U{3000}' || c == '\U{FEFF}'
  }

  /** The class \d: ASCII digits only. */
  predicate IsDigit(c: char) { '0' <= c <= '9' }

  /** The class [A-Z] under the i flag: ASCII letters only. */
  predicate IsAsciiLetter(c: char) { 'A' <= c <= 'Z' || 'a' <= c <= 'z' }

  predicate NotNewline(c: char) { c != '\n' }

  /** The canonical case a regular expression with the i flag (and without u)
      compares characters under, for the characters that occur in the
      parser's patterns: ASCII letters fold to upper case and the Greek small
      delta to the capital delta (the Δ of ΔH, ΔS, ΔG). A text character that
      is not ASCII never folds onto an ASCII pattern character, so comparing
      folds is exact for these patterns. */
  function Fold(c: char): (f: char)
    ensures IsAsciiLetter(c) ==> 'A' <= f <= 'Z'
    ensures f == 'P' <==> (c == 'P' || c == 'p')
  {
    if 'a' <= c <= 'z' then (c as int - 32) as char
    else if c == 'δ' then 'Δ'
    else c
  }

  predicate SameChar(p: char, c: char, ignoreCase: bool) {
    if ignoreCase then Fold(p) == Fold(c) else p == c
  }

  /** The pattern text `pat` occurs in `s` at position `q`. */
  predicate MatchAt(s: string, q: nat, pat: string, ignoreCase: bool) {
    q + |pat| <= |s| && forall k :: 0 <= k < |pat| ==> SameChar(pat[k], s[q + k], ignoreCase)
  }

  /** A match inside a slice is a match in the whole text. */
  lemma MatchInSlice(s: string, p: nat, b: nat, j: nat, i: nat, pat: string, ignoreCase: bool)
    requires p <= b <= |s| && i == p + j
    requires MatchAt(s[p..b], j, pat, ignoreCase)
    ensures MatchAt(s, i, pat, ignoreCase)
  {
    forall k | 0 <= k < |pat| ensures SameChar(pat[k], s[i + k], ignoreCase) {
      assert s[p..b][j + k] == s[i + k];
    }
  }

  /** A match in s[d..] is a match at the shifted place in s, and back. */
  lemma MatchShift(s: string, d: nat, y: nat, i: nat, pat: string, ignoreCase: bool)
    requires d <= |s| && i == d + y
    ensures MatchAt(s, i, pat, ignoreCase) == MatchAt(s[d..], y, pat, ignoreCase)
  {
    if i + |pat| <= |s| {
      forall k | 0 <= k < |pat|
        ensures SameChar(pat[k], s[i + k], ignoreCase) == SameChar(pat[k], s[d..][y + k], ignoreCase)
      {
      }
    }
  }

  /** The end of the longest run of characters satisfying `p` that starts at
      `i`: a greedy `p*` in a regular expression. */
  function Span(s: string, i: nat, p: char -> bool): (j: nat)
    requires i <= |s|
    ensures i <= j <= |s|
    ensures j < |s| ==> !p(s[j])
    decreases |s| - i
  {
    if i < |s| && p(s[i]) then Span(s, i + 1, p) else i
  }

  /** Every character of the run satisfies `p`. */
  lemma {:induction false} SpanRun(s: string, i: nat, p: char -> bool)
    requires i <= |s|
    ensures forall k :: i <= k < Span(s, i, p) ==> p(s[k])
    decreases |s| - i
  {
    if i < |s| && p(s[i]) {
      SpanRun(s, i + 1, p);
    }
  }

  /** A run that reaches the end of the string spans all of it. */
  lemma SpanToEnd(s: string, i: nat, p: char -> bool)
    requires i <= |s|
    requires forall k :: i <= k < |s| ==> p(s[k])
    ensures Span(s, i, p) == |s|
  {
  }

  /** The leftmost position in [from, n) at which the matcher `m` succeeds,
      with what it yields there. String.prototype.match without the g flag
      tries positions from left to right and takes the first that matches. */
  function Leftmost<T(==)>(n: nat, from: nat, m: nat -> Option<T>): (r: Option<(nat, T)>)
    requires from <= n
    ensures r.Some? ==> from <= r.value.0 < n && m(r.value.0) == Some(r.value.1)
    ensures r.Some? ==> forall j :: from <= j < r.value.0 ==> m(j).None?
    ensures r.None? ==> forall j :: from <= j < n ==> m(j).None?
    decreases n - from
  {
    if from == n then None
    else if m(from).Some? then Some((from, m(from).value))
    else Leftmost(n, from + 1, m)
  }

  /** A matcher for the literal `pat` that yields the position just after it. */
  function Occurrence(s: string, pat: string, ignoreCase: bool): nat -> Option<nat> {
    (q: nat) => if MatchAt(s, q, pat, ignoreCase) then Some(q + |pat|) else None
  }

  /** String.prototype.includes (case-sensitive). */
  predicate Contains(s: string, pat: string) {
    Leftmost(|s|, 0, Occurrence(s, pat, false)).Some?
  }

  lemma ContainsSpec(s: string, pat: string)
    requires |pat| > 0
    ensures Contains(s, pat) <==> exists q :: 0 <= q < |s| && MatchAt(s, q, pat, false)
  {
    var r := Leftmost(|s|, 0, Occurrence(s, pat, false));
    if Contains(s, pat) {
      assert MatchAt(s, r.value.0, pat, false);
    } else {
      forall q | 0 <= q < |s| ensures !MatchAt(s, q, pat, false) {
        assert Occurrence(s, pat, false)(q).None?;
      }
    }
  }

  // ---- trim -------------------------------------------------------------

  function TrimStart(s: string): (r: string)
    ensures |r| <= |s| && r == s[|s| - |r|..]
    ensures forall k :: 0 <= k < |s| - |r| ==> IsSpace(s[k])
    ensures r == [] || !IsSpace(r[0])
  {
    SpanRun(s, 0, IsSpace);
    s[Span(s, 0, IsSpace)..]
  }

  function TrimEnd(s: string): (r: string)
    ensures |r| <= |s| && r == s[..|r|]
    ensures forall k :: |r| <= k < |s| ==> IsSpace(s[k])
    ensures r == [] || !IsSpace(r[|r| - 1])
    decreases |s|
  {
    if |s| > 0 && IsSpace(s[|s| - 1]) then TrimEnd(s[..|s| - 1]) else s
  }

  /** Neither end is white space. */
  predicate Trimmed(s: string) {
    s == [] || (!IsSpace(s[0]) && !IsSpace(s[|s| - 1]))
  }

  /** Everything of s before a and from b on is white space. */
  predicate SpaceOutside(s: string, a: nat, b: nat)
    requires a <= b <= |s|
  {
    (forall k :: 0 <= k < a ==> IsSpace(s[k])) && forall k :: b <= k < |s| ==> IsSpace(s[k])
  }

  /** String.prototype.trim: drops leading and trailing white space. */
  function Trim(s: string): (r: string)
    ensures |r| <= |s|
    ensures Trimmed(r)
    ensures exists a, b :: 0 <= a <= b <= |s| && r == s[a..b] && SpaceOutside(s, a, b)
    ensures r == [] <==> forall k :: 0 <= k < |s| ==> IsSpace(s[k])
  {
    var t := TrimStart(s);
    var r := TrimEnd(t);
    assert r != [] ==> r[0] == t[0] && s[|s| - |t|] == t[0];
    var a := |s| - |t|;
    assert r == s[a..a + |r|];
    assert SpaceOutside(s, a, a + |r|) by {
      forall k | a + |r| <= k < |s| ensures IsSpace(s[k]) { assert s[k] == t[k - a]; }
    }
    r
  }

  /** A string that starts and ends with a non-space character is its own trim. */
  lemma TrimOfTrimmed(s: string)
    requires s == [] || (!IsSpace(s[0]) && !IsSpace(s[|s| - 1]))
    ensures Trim(s) == s
  {
    if s != [] {
      assert Span(s, 0, IsSpace) == 0;
      assert TrimStart(s) == s;
    }
  }

  lemma TrimIdempotent(s: string)
    ensures Trim(Trim(s)) == Trim(s)
  {
    TrimOfTrimmed(Trim(s));
  }

  // ---- split('\n') ------------------------------------------------------

  /** String.prototype.split('\n'): the pieces between line breaks, always at
      least one (the empty string splits into [""]). */
  function SplitLines(s: string): (r: seq<string>)
    ensures |r| >= 1
    ensures forall k :: 0 <= k < |r| ==> '\n' !in r[k]
    decreases |s|
  {
    var i := Span(s, 0, NotNewline);
    SpanRun(s, 0, NotNewline);
    assert '\n' !in s[..i] by {
      forall k | 0 <= k < i ensures s[..i][k] != '\n' { assert NotNewline(s[k]); }
    }
    if i == |s| then [s] else [s[..i]] + SplitLines(s[i + 1..])
  }

  /** Array.prototype.join('\n'), the inverse of SplitLines. */
  function JoinLines(ls: seq<string>): string
    requires |ls| >= 1
    decreases |ls|
  {
    if |ls| == 1 then ls[0] else ls[0] + "\n" + JoinLines(ls[1..])
  }

  lemma {:induction false} JoinSplitLines(s: string)
    ensures JoinLines(SplitLines(s)) == s
    decreases |s|
  {
    var i := Span(s, 0, NotNewline);
    if i < |s| {
      JoinSplitLines(s[i + 1..]);
      assert s == s[..i] + "\n" + s[i + 1..];
    }
  }

  lemma {:induction false} SplitJoinLines(ls: seq<string>)
    requires |ls| >= 1
    requires forall k :: 0 <= k < |ls| ==> '\n' !in ls[k]
    ensures SplitLines(JoinLines(ls)) == ls
    decreases |ls|
  {
    if |ls| == 1 {
      SplitOneLine(ls[0]);
    } else {
      SplitLinesCons(ls[0], JoinLines(ls[1..]));
      SplitJoinLines(ls[1..]);
    }
  }

  /** A line followed by a break: the split peels the line off. */
  lemma SplitLinesCons(x: string, t: string)
    requires '\n' !in x
    ensures SplitLines(x + "\n" + t) == [x] + SplitLines(t)
  {
    var s := x + "\n" + t;
    assert forall k :: 0 <= k < |x| ==> NotNewline(s[k]) by {
      forall k | 0 <= k < |x| ensures NotNewline(s[k]) { assert s[k] == x[k]; }
    }
    assert s[|x|] == '\n';
    SpanStopsAt(s, 0, |x|, NotNewline);
    assert s[..|x|] == x;
    assert s[|x| + 1..] == t;
  }

  /** If every character in [i, e) satisfies `p` and the one at `e` does not,
      the run from `i` ends at `e`. */
  lemma {:induction false} SpanStopsAt(s: string, i: nat, e: nat, p: char -> bool)
    requires i <= e < |s|
    requires forall k :: i <= k < e ==> p(s[k])
    requires !p(s[e])
    ensures Span(s, i, p) == e
    decreases e - i
  {
    if i < e { SpanStopsAt(s, i + 1, e, p); }
  }

  lemma {:induction false} JoinAppend(a: seq<string>, b: seq<string>)
    requires |a| >= 1 && |b| >= 1
    ensures JoinLines(a + b) == JoinLines(a) + "\n" + JoinLines(b)
    decreases |a|
  {
    if |a| == 1 {
      assert (a + b)[1..] == b;
    } else {
      assert (a + b)[1..] == a[1..] + b;
      JoinAppend(a[1..], b);
    }
  }

  /** Splitting text joined at a line break splits each side separately. */
  lemma SplitLinesAppend(x: string, y: string)
    ensures SplitLines(x + "\n" + y) == SplitLines(x) + SplitLines(y)
  {
    var la, lb := SplitLines(x), SplitLines(y);
    JoinSplitLines(x);
    JoinSplitLines(y);
    JoinAppend(la, lb);
    SplitJoinLines(la + lb);
  }

  /** A line with no break in it splits into itself. */
  lemma SplitOneLine(x: string)
    requires '\n' !in x
    ensures SplitLines(x) == [x]
  {
    assert forall k :: 0 <= k < |x| ==> NotNewline(x[k]) by {
      forall k | 0 <= k < |x| ensures NotNewline(x[k]) { assert x[k] in x; }
    }
  }

  /** Array.prototype.filter followed by map: keeps the items that satisfy
      `keep`, in order, and rewrites each with `f`. */
  function Select(xs: seq<string>, keep: string -> bool, f: string -> string): (r: seq<string>)
    ensures |r| <= |xs|
    ensures forall y :: y in r ==> exists x :: x in xs && keep(x) && y == f(x)
    decreases |xs|
  {
    if xs == [] then []
    else
      var rest := Select(xs[1..], keep, f);
      assert forall y :: y in rest ==> exists x :: x in xs && keep(x) && y == f(x) by {
        forall y | y in rest ensures exists x :: x in xs && keep(x) && y == f(x) {
          var x :| x in xs[1..] && keep(x) && y == f(x);
          assert x in xs;
        }
      }
      if keep(xs[0]) then [f(xs[0])] + rest else rest
  }

  /** Filtering and mapping distribute over concatenation, so the items keep
      the order of the lines they came from. */
  lemma {:induction false} SelectAppend(a: seq<string>, b: seq<string>, keep: string -> bool, f: string -> string)
    ensures Select(a + b, keep, f) == Select(a, keep, f) + Select(b, keep, f)
    decreases |a|
  {
    if a == [] {
      assert a + b == b;
    } else {
      assert (a + b)[0] == a[0] && (a + b)[1..] == a[1..] + b;
      SelectAppend(a[1..], b, keep, f);
      var h := if keep(a[0]) then [f(a[0])] else [];
      assert Select(a, keep, f) == h + Select(a[1..], keep, f);
      assert Select(a + b, keep, f) == h + Select(a[1..] + b, keep, f);
      assert h + (Select(a[1..], keep, f) + Select(b, keep, f)) == (h + Select(a[1..], keep, f)) + Select(b, keep, f);
    }
  }

  /** When every item is kept, the result is the item-wise image. */
  lemma {:induction false} SelectAllKept(xs: seq<string>, keep: string -> bool, f: string -> string)
    requires forall k :: 0 <= k < |xs| ==> keep(xs[k])
    ensures |Select(xs, keep, f)| == |xs|
    ensures forall k :: 0 <= k < |xs| ==> Select(xs, keep, f)[k] == f(xs[k])
    decreases |xs|
  {
    if xs != [] {
      SelectAllKept(xs[1..], keep, f);
    }
  }

  /** When no item is kept, the result is empty. */
  lemma {:induction false} SelectNoneKept(xs: seq<string>, keep: string -> bool, f: string -> string)
    requires forall k :: 0 <= k < |xs| ==> !keep(xs[k])
    ensures Select(xs, keep, f) == []
    decreases |xs|
  {
    if xs != [] {
      SelectNoneKept(xs[1..], keep, f);
    }
  }
}
