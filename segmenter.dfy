/** The first stage of parsePossibilities: content.split(/POSSIBILITY\s*\d+:/i)
    followed by .slice(1). The split scans left to right, cuts at each marker
    it meets and resumes right after it. */
module Segmenter {
  import opened Strings
  import opened Patterns

  /** A sticky matcher for the separator of a text of length n: a match at q
      ends after q and within the text. */
  ghost predicate Separates(n: nat, m: nat -> Option<nat>) {
    forall q: nat :: m(q).Some? ==> q < m(q).value <= n
  }

  /** Two matches of `m` never overlap. */
  ghost predicate NonOverlapping(m: nat -> Option<nat>) {
    forall q: nat, j: nat :: m(q).Some? && q < j < m(q).value ==> m(j).None?
  }

  lemma MarkersSeparate(s: string)
    ensures Separates(|s|, Markers(s)) && NonOverlapping(Markers(s))
  {
    forall q: nat ensures Markers(s)(q) == MarkerAt(s, q) {
    }
    forall q: nat, j: nat | Markers(s)(q).Some? && q < j < Markers(s)(q).value ensures Markers(s)(j).None? {
      MarkersDoNotOverlap(s, q, j);
    }
  }

  /** The splitting loop of String.prototype.split with a regular expression
      separator, from position p: the pieces of s[p..] between the matches of
      `m`, the piece before the first match included. */
  function SplitFrom(s: string, p: nat, m: nat -> Option<nat>): (r: seq<string>)
    requires p <= |s| && Separates(|s|, m)
    ensures |r| >= 1
    decreases |s| - p
  {
    match Leftmost(|s|, p, m)
    case None => [s[p..]]
    case Some((q, e)) => [s[p..q]] + SplitFrom(s, e, m)
  }

  /** The sections parsePossibilities works on; empty content has none. The
      alternative split of the source is never taken: .slice(1) yields an
      array, and every array is truthy. */
  function Segments(content: string): seq<string> {
    if content == "" then [] else MarkerSplit(content, 0)[1..]
  }

  /** content.split(/POSSIBILITY\s*\d+:/i), from position p. */
  function MarkerSplit(s: string, p: nat): seq<string>
    requires p <= |s|
  {
    MarkersSeparate(s);
    SplitFrom(s, p, Markers(s))
  }

  /** The number of positions in [p, n) at which `m` matches, counted one
      position at a time. */
  function Count(n: nat, p: nat, m: nat -> Option<nat>): nat
    decreases n - p
  {
    if p >= n then 0 else (if m(p).Some? then 1 else 0) + Count(n, p + 1, m)
  }

  /** The number of places a marker starts in s. */
  function MarkerCount(s: string): nat {
    Count(|s|, 0, Markers(s))
  }

  lemma {:induction false} CountNone(n: nat, a: nat, b: nat, m: nat -> Option<nat>)
    requires a <= b <= n
    requires forall j :: a <= j < b ==> m(j).None?
    ensures Count(n, a, m) == Count(n, b, m)
    decreases b - a
  {
    if a < b {
      CountNone(n, a + 1, b, m);
    }
  }

  lemma {:induction false} CountZeroIff(n: nat, p: nat, m: nat -> Option<nat>)
    requires p <= n
    ensures Count(n, p, m) == 0 <==> forall j :: p <= j < n ==> m(j).None?
    decreases n - p
  {
    if p < n {
      CountZeroIff(n, p + 1, m);
    }
  }

  /** The split finds every match when matches never overlap: the
      left-to-right scan passes over none of them. */
  lemma {:induction false} SplitCount(s: string, p: nat, m: nat -> Option<nat>)
    requires p <= |s| && Separates(|s|, m) && NonOverlapping(m)
    ensures |SplitFrom(s, p, m)| == 1 + Count(|s|, p, m)
    decreases |s| - p
  {
    match Leftmost(|s|, p, m)
    case None =>
      CountNone(|s|, p, |s|, m);
    case Some((q, e)) =>
      CountNone(|s|, p, q, m);
      CountNone(|s|, q + 1, e, m);
      SplitCount(s, e, m);
  }

  /** One section per marker in the content. */
  lemma SegmentCount(content: string)
    ensures |Segments(content)| == MarkerCount(content)
  {
    if content != "" {
      MarkersSeparate(content);
      SplitCount(content, 0, Markers(content));
    }
  }

  /** No marker, no sections: the reason chemyLogic reports that no
      possibilities were found. */
  lemma NoSegmentsIffNoMarker(content: string)
    ensures Segments(content) == [] <==> forall q :: 0 <= q < |content| ==> MarkerAt(content, q).None?
  {
    SegmentCount(content);
    CountZeroIff(|content|, 0, Markers(content));
    assert forall q :: 0 <= q < |content| ==> Markers(content)(q) == MarkerAt(content, q);
  }

  // ---- sections hold no marker ---------------------------------------------

  /** A run inside s[p..b] that stops before the end of the slice stops at
      the same place in s. */
  lemma SpanInSlice(s: string, p: nat, b: nat, i: nat, k: nat, f: char -> bool)
    requires p <= b <= |s| && i <= b - p && k == p + i
    requires Span(s[p..b], i, f) < b - p
    ensures Span(s, k, f) == p + Span(s[p..b], i, f)
  {
    var t := s[p..b];
    var j := Span(t, i, f);
    var e := p + j;
    SpanRun(t, i, f);
    assert forall x :: k <= x < e ==> f(s[x]) by {
      forall x | k <= x < e ensures f(s[x]) { assert t[x - p] == s[x]; }
    }
    assert t[j] == s[e];
    SpanStopsAt(s, k, e, f);
  }

  /** A marker inside a slice is a marker of the whole text. */
  lemma MarkerInSlice(s: string, p: nat, b: nat, j: nat, i: nat)
    requires p <= b <= |s| && i == p + j
    requires MarkerAt(s[p..b], j).Some?
    ensures MarkerAt(s, i).Some?
  {
    MatchInSlice(s, p, b, j, i, MarkerWord, true);
    TailInSlice(s, p, b, j + |MarkerWord|, i + |MarkerWord|);
  }

  lemma TailInSlice(s: string, p: nat, b: nat, j: nat, i: nat)
    requires p <= b <= |s| && j <= b - p && i == p + j
    requires MarkerTail(s[p..b], j).Some?
    ensures MarkerTail(s, i).Some?
  {
    var t := s[p..b];
    var a := Span(t, j, IsSpace);
    var d := Span(t, a, IsDigit);
    SpanInSlice(s, p, b, j, i, IsSpace);
    SpanInSlice(s, p, b, a, p + a, IsDigit);
    assert t[d] == s[p + d];
  }

  /** No marker starts anywhere in t. */
  ghost predicate MarkerFree(t: string) {
    forall j: nat :: MarkerAt(t, j).None?
  }

  lemma MarkerFreePiece(s: string, p: nat, q: nat)
    requires p <= q <= |s|
    requires forall j :: p <= j < q ==> Markers(s)(j).None?
    ensures MarkerFree(s[p..q])
  {
    forall j: nat ensures MarkerAt(s[p..q], j).None? {
      assert Markers(s)(p + j) == MarkerAt(s, p + j);
      if MarkerAt(s[p..q], j).Some? {
        MarkerInSlice(s, p, q, j, p + j);
        assert false;
      }
    }
  }

  lemma {:induction false} SplitMarkerFree(s: string, p: nat)
    requires p <= |s|
    ensures forall i :: 0 <= i < |MarkerSplit(s, p)| ==> MarkerFree(MarkerSplit(s, p)[i])
    decreases |s| - p
  {
    MarkersSeparate(s);
    var r := MarkerSplit(s, p);
    assert r == SplitFrom(s, p, Markers(s));
    match Leftmost(|s|, p, Markers(s))
    case None =>
      MarkerFreePiece(s, p, |s|);
      assert r == [s[p..]] && s[p..] == s[p..|s|];
    case Some((q, e)) =>
      MarkerFreePiece(s, p, q);
      SplitMarkerFree(s, e);
      assert r == [s[p..q]] + MarkerSplit(s, e);
  }

  /** No section contains a marker of its own. */
  lemma SegmentsMarkerFree(content: string)
    ensures forall i :: 0 <= i < |Segments(content)| ==> MarkerFree(Segments(content)[i])
  {
    if content != "" {
      SplitMarkerFree(content, 0);
    }
  }

  // ---- text before the first marker is dropped ---------------------------

  lemma {:induction false} SpanShift(s: string, d: nat, i: nat, k: nat, f: char -> bool)
    requires k == d + i && k <= |s|
    ensures Span(s, k, f) == d + Span(s[d..], i, f)
    decreases |s| - k
  {
    if k < |s| {
      assert s[d..][i] == s[k];
      if f(s[k]) {
        SpanShift(s, d, i + 1, k + 1, f);
      }
    }
  }

  function Shifted(o: Option<nat>, d: nat): Option<nat> {
    match o
    case None => None
    case Some(e) => Some(e + d)
  }

  /** Matching a marker only looks to the right: a marker of s[d..] is one of
      s at the shifted place, and back. */
  lemma MarkerShift(s: string, d: nat, y: nat, k: nat)
    requires d <= |s| && k == d + y
    ensures MarkerAt(s, k) == Shifted(MarkerAt(s[d..], y), d)
  {
    MatchShift(s, d, y, k, MarkerWord, true);
    if MatchAt(s[d..], y, MarkerWord, true) {
      TailShift(s, d, y + |MarkerWord|, k + |MarkerWord|);
    }
  }

  lemma TailShift(s: string, d: nat, i: nat, k: nat)
    requires k == d + i && k <= |s|
    ensures MarkerTail(s, k) == Shifted(MarkerTail(s[d..], i), d)
  {
    var c := s[d..];
    SpanShift(s, d, i, k, IsSpace);
    var a := Span(c, i, IsSpace);
    SpanShift(s, d, a, d + a, IsDigit);
    var b := Span(c, a, IsDigit);
    if b < |c| {
      assert s[d + b] == c[b];
    }
  }

  /** Read from position d on, `m` is `mc` shifted by d. */
  ghost predicate ShiftedBy(m: nat -> Option<nat>, mc: nat -> Option<nat>, d: nat) {
    forall y: nat :: ShiftedAt(m, mc, d, y)
  }

  ghost predicate ShiftedAt(m: nat -> Option<nat>, mc: nat -> Option<nat>, d: nat, y: nat) {
    m(d + y) == Shifted(mc(y), d)
  }

  lemma MarkerShiftApplied(s: string, d: nat, y: nat)
    requires d <= |s|
    ensures ShiftedAt(Markers(s), Markers(s[d..]), d, y)
  {
    MarkerShift(s, d, y, d + y);
  }

  /** The marker matcher of s, read from d on, is that of s[d..] shifted. */
  lemma MarkersShift(s: string, d: nat)
    requires d <= |s|
    ensures ShiftedBy(Markers(s), Markers(s[d..]), d)
  {
    forall y: nat ensures ShiftedAt(Markers(s), Markers(s[d..]), d, y) {
      MarkerShiftApplied(s, d, y);
    }
  }

  lemma {:induction false} LeftmostSkip(n: nat, a: nat, b: nat, m: nat -> Option<nat>)
    requires a <= b <= n
    requires forall j :: a <= j < b ==> m(j).None?
    ensures Leftmost(n, a, m) == Leftmost(n, b, m)
    decreases b - a
  {
    if a < b {
      LeftmostSkip(n, a + 1, b, m);
    }
  }

  lemma {:induction false} LeftmostShift(n: nat, d: nat, x: nat, m: nat -> Option<nat>, mc: nat -> Option<nat>)
    requires x <= n
    requires ShiftedBy(m, mc, d)
    ensures var r := Leftmost(n, x, mc);
            Leftmost(n + d, d + x, m) == if r.None? then None else Some((d + r.value.0, d + r.value.1))
    decreases n - x
  {
    assert ShiftedAt(m, mc, d, x);
    if x < n && mc(x).None? {
      LeftmostShift(n, d, x + 1, m, mc);
    }
  }

  lemma SuffixSlice(s: string, d: nat, a: nat, b: nat)
    requires d + a <= d + b <= |s|
    ensures s[d..][a..b] == s[d + a..d + b]
  {
  }

  lemma {:induction false} SplitShift(s: string, d: nat, c: string, x: nat, m: nat -> Option<nat>, mc: nat -> Option<nat>)
    requires d <= |s| && s[d..] == c && x <= |c|
    requires Separates(|s|, m) && Separates(|c|, mc)
    requires ShiftedBy(m, mc, d)
    ensures SplitFrom(s, d + x, m) == SplitFrom(c, x, mc)
    decreases |c| - x
  {
    LeftmostShift(|c|, d, x, m, mc);
    assert |s| == |c| + d;
    match Leftmost(|c|, x, mc)
    case None =>
      SplitShiftLast(s, d, c, x, m, mc);
    case Some((q, e)) =>
      SplitShiftPiece(s, d, c, x, m, mc, q, e);
      SplitShift(s, d, c, e, m, mc);
  }

  /** Without a further match both splits end with the same last piece. */
  lemma SplitShiftLast(s: string, d: nat, c: string, x: nat, m: nat -> Option<nat>, mc: nat -> Option<nat>)
    requires d <= |s| && s[d..] == c && x <= |c|
    requires Separates(|s|, m) && Separates(|c|, mc)
    requires Leftmost(|c|, x, mc).None? && Leftmost(|s|, d + x, m).None?
    ensures SplitFrom(s, d + x, m) == SplitFrom(c, x, mc)
  {
    assert SplitFrom(s, d + x, m) == [s[d + x..]];
    SuffixSlice(s, d, x, |c|);
  }

  /** A match cuts the same piece off both splits. */
  lemma SplitShiftPiece(s: string, d: nat, c: string, x: nat, m: nat -> Option<nat>, mc: nat -> Option<nat>, q: nat, e: nat)
    requires d <= |s| && s[d..] == c && x <= |c|
    requires Separates(|s|, m) && Separates(|c|, mc)
    requires Leftmost(|c|, x, mc) == Some((q, e)) && Leftmost(|s|, d + x, m) == Some((d + q, d + e))
    ensures x <= q < e <= |c|
    ensures SplitFrom(s, d + x, m) == [c[x..q]] + SplitFrom(s, d + e, m)
    ensures SplitFrom(c, x, mc) == [c[x..q]] + SplitFrom(c, e, mc)
  {
    SplitStep(c, x, mc, q, e);
    SplitStep(s, d + x, m, d + q, d + e);
    SuffixSlice(s, d, x, q);
  }

  /** One turn of the split: the piece up to the match, then the rest. */
  lemma SplitStep(s: string, p: nat, m: nat -> Option<nat>, q: nat, e: nat)
    requires p <= |s| && Separates(|s|, m)
    requires Leftmost(|s|, p, m) == Some((q, e))
    ensures p <= q < e <= |s|
    ensures SplitFrom(s, p, m) == [s[p..q]] + SplitFrom(s, e, m)
  {
  }

  /** When the first marker of s is at d, ending at e, the sections are the
      pieces of the split from e on. */
  lemma FirstMarkerAt(s: string, d: nat, e: nat)
    requires d <= |s| && MarkerAt(s, d) == Some(e)
    requires forall j :: 0 <= j < d ==> MarkerAt(s, j).None?
    ensures Segments(s) == MarkerSplit(s, e)
  {
    var m := Markers(s);
    MarkersSeparate(s);
    assert m(d) == Some(e);
    assert forall j :: 0 <= j < d ==> m(j).None?;
    LeftmostSkip(|s|, 0, d, m);
    assert MarkerSplit(s, 0) == [s[0..d]] + MarkerSplit(s, e);
  }

  lemma MarkerSplitShift(s: string, d: nat, x: nat)
    requires d + x <= |s|
    ensures MarkerSplit(s, d + x) == MarkerSplit(s[d..], x)
  {
    MarkersSeparate(s);
    MarkersSeparate(s[d..]);
    MarkersShift(s, d);
    SplitShift(s, d, s[d..], x, Markers(s), Markers(s[d..]));
  }

  /** Whatever precedes the first marker does not reach the sections: they
      are the sections of the text from the first marker on. */
  lemma PrefixDropped(content: string, d: nat)
    requires d <= |content| && MarkerAt(content, d).Some?
    requires forall j :: 0 <= j < d ==> MarkerAt(content, j).None?
    ensures Segments(content) == Segments(content[d..])
  {
    var c := content[d..];
    MarkerShift(content, d, 0, d);
    var e0 := MarkerAt(c, 0).value;
    FirstMarkerAt(c, 0, e0);
    FirstMarkerAt(content, d, d + e0);
    MarkerSplitShift(content, d, e0);
  }

  /** What the first section holds: when the first marker of content is at
      d and ends at e, and the next marker starts at n (or there is none and
      n is the end), the first section is content[e..n], and the remaining
      sections are those of the text from n on. */
  lemma FirstSection(content: string, d: nat, e: nat, n: nat)
    requires d <= |content| && MarkerAt(content, d) == Some(e)
    requires forall j :: 0 <= j < d ==> MarkerAt(content, j).None?
    requires e <= n <= |content|
    requires n == |content| || MarkerAt(content, n).Some?
    requires forall j :: e <= j < n ==> MarkerAt(content, j).None?
    ensures |Segments(content)| >= 1 && Segments(content)[0] == content[e..n]
    ensures n == |content| ==> Segments(content) == [content[e..]]
    ensures n < |content| ==> Segments(content)[1..] == Segments(content[n..])
  {
    FirstMarkerAt(content, d, e);
    if n == |content| {
      LastPiece(content, e);
    } else {
      NextPiece(content, e, n);
    }
  }

  /** With no marker from e on, the split from e is the rest of the text. */
  lemma LastPiece(content: string, e: nat)
    requires e <= |content|
    requires forall j :: e <= j < |content| ==> MarkerAt(content, j).None?
    ensures MarkerSplit(content, e) == [content[e..]]
  {
    var m := Markers(content);
    MarkersSeparate(content);
    assert forall j :: e <= j < |content| ==> m(j).None?;
    LeftmostSkip(|content|, e, |content|, m);
  }

  /** With the next marker at n, the split from e is content[e..n] followed
      by the sections of the text from n on. */
  lemma NextPiece(content: string, e: nat, n: nat)
    requires e <= n < |content| && MarkerAt(content, n).Some?
    requires forall j :: e <= j < n ==> MarkerAt(content, j).None?
    ensures MarkerSplit(content, e) == [content[e..n]] + Segments(content[n..])
  {
    var e2 := MarkerAt(content, n).value;
    CutAtMarker(content, e, n, e2);
    SectionsFrom(content, n, e2);
  }

  /** One turn of the marker split, when the next marker starts at n. */
  lemma CutAtMarker(content: string, e: nat, n: nat, e2: nat)
    requires e <= n < |content| && MarkerAt(content, n) == Some(e2)
    requires forall j :: e <= j < n ==> MarkerAt(content, j).None?
    ensures MarkerSplit(content, e) == [content[e..n]] + MarkerSplit(content, e2)
  {
    var m := Markers(content);
    MarkersSeparate(content);
    assert m(n) == Some(e2);
    assert forall j :: e <= j < n ==> m(j).None?;
    LeftmostSkip(|content|, e, n, m);
    SplitStep(content, e, m, n, e2);
  }

  /** The sections of the text from a marker at n on are the pieces of the
      split after that marker. */
  lemma SectionsFrom(content: string, n: nat, e2: nat)
    requires n < |content| && MarkerAt(content, n) == Some(e2)
    ensures Segments(content[n..]) == MarkerSplit(content, e2)
  {
    var c := content[n..];
    assert MarkerAt(c, 0).Some? && e2 == n + MarkerAt(c, 0).value by {
      MarkerShift(content, n, 0, n);
    }
    var e0 := MarkerAt(c, 0).value;
    assert Segments(c) == MarkerSplit(c, e0) by {
      FirstMarkerAt(c, 0, e0);
    }
    assert MarkerSplit(content, n + e0) == MarkerSplit(c, e0) by {
      MarkerSplitShift(content, n, e0);
    }
  }
}
