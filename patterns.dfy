/** The regular expressions of the response parser, each written out as a
    matcher that is tried at one position. In every pattern here a greedy run
    is followed by a character outside its class, so backtracking into the
    run can never rescue a failed match: the matchers below take each run at
    its longest and decide. The searches use Leftmost, as String.match does. */
module Patterns {
  import opened Strings

  const MarkerWord := "POSSIBILITY"

  /** /POSSIBILITY\s*\d+:/i tried at position q: where the match ends. */
  function MarkerAt(s: string, q: nat): (r: Option<nat>)
    ensures r.Some? ==> q + |MarkerWord| + 2 <= r.value <= |s|
  {
    if !MatchAt(s, q, MarkerWord, true) then None else MarkerTail(s, q + |MarkerWord|)
  }

  /** The \s*\d+: that follows the word, from position i. */
  function MarkerTail(s: string, i: nat): (r: Option<nat>)
    requires i <= |s|
    ensures r.Some? ==> i + 2 <= r.value <= |s|
  {
    var a := Span(s, i, IsSpace);
    var b := Span(s, a, IsDigit);
    if a < b < |s| && s[b] == ':' then Some(b + 1) else None
  }

  function Markers(s: string): nat -> Option<nat> {
    (q: nat) => MarkerAt(s, q)
  }

  /** A marker starts with a character that folds to 'P' and no later
      character of it does, so two markers never overlap. */
  lemma MarkersDoNotOverlap(s: string, q: nat, j: nat)
    requires MarkerAt(s, q).Some?
    requires q < j < MarkerAt(s, q).value
    ensures MarkerAt(s, j).None?
  {
    var a := Span(s, q + |MarkerWord|, IsSpace);
    var b := Span(s, a, IsDigit);
    SpanRun(s, q + |MarkerWord|, IsSpace);
    SpanRun(s, a, IsDigit);
    assert Fold(s[j]) != 'P' by {
      if j < q + |MarkerWord| {
        var m := j - q;
        assert SameChar(MarkerWord[m], s[q + m], true);
        assert MarkerWord[m] != 'P' && MarkerWord[m] != 'p';
      } else if j < a {
        assert IsSpace(s[j]);
      } else if j < b {
        assert IsDigit(s[j]);
      } else {
        assert s[j] == ':';
      }
    }
    assert !SameChar(MarkerWord[0], s[j], true);
  }

  /** The lookahead \n[A-Z][A-Z ]+: under the i flag: a line break, a letter,
      at least one more letter or space, and a colon. */
  predicate HeaderAt(s: string, c: nat) {
    c + 2 <= |s| && s[c] == '\n' && IsAsciiLetter(s[c + 1]) &&
    var e := Span(s, c + 2, IsHeaderChar);
    c + 2 < e < |s| && s[e] == ':'
  }

  predicate IsHeaderChar(c: char) { IsAsciiLetter(c) || c == ' ' }

  function Headers(s: string): nat -> Option<nat> {
    (c: nat) => if HeaderAt(s, c) then Some(c) else None
  }

  /** Where the lazy body of a section stops: the first position from `start`
      at which the header lookahead holds, or the end of the text ($). */
  function SectionEnd(s: string, start: nat): (e: nat)
    requires start <= |s|
    ensures start <= e <= |s|
    ensures e < |s| ==> HeaderAt(s, e)
    ensures forall c :: start <= c < e ==> !HeaderAt(s, c)
  {
    match Leftmost(|s|, start, Headers(s))
    case None =>
      assert forall c :: start <= c < |s| ==> !HeaderAt(s, c) by {
        forall c | start <= c < |s| ensures !HeaderAt(s, c) { assert Headers(s)(c).None?; }
      }
      |s|
    case Some((e, _)) =>
      assert forall c :: start <= c < e ==> !HeaderAt(s, c) by {
        forall c | start <= c < e ensures !HeaderAt(s, c) { assert Headers(s)(c).None?; }
      }
      e
  }

  /** `q` is the first place where `pat` occurs, ignoring case. */
  predicate FirstAt(s: string, pat: string, q: nat) {
    MatchAt(s, q, pat, true) && forall j :: 0 <= j < q ==> !MatchAt(s, j, pat, true)
  }

  /** Where `pat` occurs first, ignoring case. */
  function FirstOccurrence(s: string, pat: string): (r: Option<nat>)
    ensures r.Some? ==> FirstAt(s, pat, r.value)
    ensures r.None? ==> forall q: nat :: !MatchAt(s, q, pat, true)
  {
    match Leftmost(|s| + 1, 0, Occurrence(s, pat, true))
    case None =>
      assert forall q: nat :: !MatchAt(s, q, pat, true) by {
        forall q: nat ensures !MatchAt(s, q, pat, true) {
          if q <= |s| { assert Occurrence(s, pat, true)(q).None?; }
        }
      }
      None
    case Some((q, _)) =>
      assert Occurrence(s, pat, true)(q).Some?;
      assert forall j :: 0 <= j < q ==> !MatchAt(s, j, pat, true) by {
        forall j | 0 <= j < q ensures !MatchAt(s, j, pat, true) {
          assert Occurrence(s, pat, true)(j).None?;
        }
      }
      Some(q)
  }

  /** extractSection: the trimmed text between the first "name:" (ignoring
      case, anywhere in the text) and the next header line or the end; "" when
      the name does not occur. */
  function ExtractSection(text: string, name: string): (r: string)
    ensures Trimmed(r)
    ensures (forall q: nat :: !MatchAt(text, q, name + ":", true)) ==> r == ""
  {
    match FirstOccurrence(text, name + ":")
    case None => ""
    case Some(q) => SectionFrom(text, q + |name| + 1)
  }

  /** The trimmed body of a section whose label ends at `start`. */
  function SectionFrom(text: string, start: nat): string
    requires start <= |text|
  {
    Trim(text[start..SectionEnd(text, start)])
  }

  /** The section ends at `e`: the first header position from `start`, or the end. */
  predicate EndsSection(s: string, start: nat, e: nat) {
    start <= e <= |s| && (e == |s| || HeaderAt(s, e)) && forall c :: start <= c < e ==> !HeaderAt(s, c)
  }

  lemma FirstIsUnique(s: string, pat: string, q1: nat, q2: nat)
    requires FirstAt(s, pat, q1) && FirstAt(s, pat, q2)
    ensures q1 == q2
  {
  }

  lemma FirstOccurrenceIs(s: string, pat: string, q: nat)
    requires FirstAt(s, pat, q)
    ensures FirstOccurrence(s, pat) == Some(q)
  {
    var r := FirstOccurrence(s, pat);
    assert r.Some?;
    FirstIsUnique(s, pat, r.value, q);
  }

  lemma SectionEndIs(s: string, start: nat, e: nat)
    requires EndsSection(s, start, e)
    ensures SectionEnd(s, start) == e
  {
    var e' := SectionEnd(s, start);
    assert EndsSection(s, start, e');
  }

  lemma {:induction false} SectionSpec(text: string, name: string, q: nat, e: nat)
    requires FirstAt(text, name + ":", q)
    requires EndsSection(text, q + |name| + 1, e)
    ensures ExtractSection(text, name) == Trim(text[q + |name| + 1..e])
  {
    FirstOccurrenceIs(text, name + ":", q);
    SectionEndIs(text, q + |name| + 1, e);
    SectionAt(text, name, q, e);
  }

  lemma SectionAt(text: string, name: string, q: nat, e: nat)
    requires FirstOccurrence(text, name + ":") == Some(q)
    requires SectionEnd(text, q + |name| + 1) == e
    ensures ExtractSection(text, name) == Trim(text[q + |name| + 1..e])
  {
    SectionFromIs(text, q + |name| + 1, e);
    ExtractSectionIs(text, name, q);
  }

  lemma SectionFromIs(text: string, start: nat, e: nat)
    requires start <= |text|
    requires SectionEnd(text, start) == e
    ensures SectionFrom(text, start) == Trim(text[start..e])
  {
  }

  lemma ExtractSectionIs(text: string, name: string, q: nat)
    requires FirstOccurrence(text, name + ":") == Some(q)
    ensures ExtractSection(text, name) == SectionFrom(text, q + |name| + 1)
  {
  }

  /** extractValue: /name\s*([^\n]+)/i. After the first occurrence of the
      name, \s* may cross line breaks; the value is the rest of the line that
      holds the first non-space character, trimmed. When only white space
      follows, the match either fails or captures white space, and both give
      "". No later occurrence can match then, since it would lie inside that
      white space. */
  function ExtractValue(text: string, name: string): (r: string)
    ensures '\n' !in r
    ensures Trimmed(r)
    ensures (forall q: nat :: !MatchAt(text, q, name, true)) ==> r == ""
  {
    ValueAfter(text, NameEnd(text, name))
  }

  /** Where the first occurrence of the name ends; the end of the text when
      there is none, where nothing is left to read. */
  function NameEnd(text: string, name: string): (i: nat)
    ensures i <= |text|
  {
    match FirstOccurrence(text, name)
    case None => |text|
    case Some(q) => q + |name|
  }

  /** The value read after a name that ends at `i`. */
  function ValueAfter(text: string, i: nat): (r: string)
    requires i <= |text|
    ensures '\n' !in r
    ensures Trimmed(r)
  {
    var w := Span(text, i, IsSpace);
    if w == |text| then "" else LineRest(text, w)
  }

  /** The rest of the line from w on, trimmed. */
  function LineRest(text: string, w: nat): (r: string)
    requires w < |text|
    ensures '\n' !in r
    ensures Trimmed(r)
  {
    var e := Span(text, w, NotNewline);
    var line := text[w..e];
    SpanRun(text, w, NotNewline);
    assert '\n' !in line by {
      forall k | 0 <= k < |line| ensures line[k] != '\n' { assert NotNewline(text[w + k]); }
    }
    var r := Trim(line);
    assert '\n' !in r by {
      TrimIsInfix(line);
    }
    r
  }

  /** Trim(s) is a piece of s. */
  lemma TrimIsInfix(s: string)
    ensures forall c :: c in Trim(s) ==> c in s
  {
    var t := TrimStart(s);
    assert forall c :: c in TrimEnd(t) ==> c in t;
    assert forall c :: c in t ==> c in s;
  }

  /** When the first occurrence of the name is at q, the value is the rest of
      the line holding the first non-space character after it, trimmed and
      never empty; it is "" when only white space follows. */
  lemma {:induction false} ValueSpec(text: string, name: string, q: nat, i: nat)
    requires FirstAt(text, name, q) && i == q + |name|
    ensures i <= |text|
    ensures Span(text, i, IsSpace) == |text| ==> ExtractValue(text, name) == ""
    ensures Span(text, i, IsSpace) < |text| ==>
              ExtractValue(text, name) == Trim(text[Span(text, i, IsSpace)..Span(text, Span(text, i, IsSpace), NotNewline)])
              && ExtractValue(text, name) != ""
  {
    FirstOccurrenceIs(text, name, q);
    assert NameEnd(text, name) == i;
    ValueAfterSpec(text, i);
  }

  lemma ValueAfterSpec(text: string, i: nat)
    requires i <= |text|
    ensures var w := Span(text, i, IsSpace);
            && (w == |text| ==> ValueAfter(text, i) == "")
            && (w < |text| ==>
                  (ValueAfter(text, i) == Trim(text[w..Span(text, w, NotNewline)]) && ValueAfter(text, i) != ""))
  {
    var w := Span(text, i, IsSpace);
    if w < |text| {
      var e := Span(text, w, NotNewline);
      var line := text[w..e];
      assert line[0] == text[w];
      assert !(forall k :: 0 <= k < |line| ==> IsSpace(line[k]));
    }
  }

  /** The class [\d.-]. */
  predicate IsNumChar(c: char) { IsDigit(c) || c == '.' || c == '-' }

  predicate AllNumChars(s: string) {
    forall k :: 0 <= k < |s| ==> IsNumChar(s[k])
  }

  /** /param:\s*([\d.-]+)/i tried at q: the numeric token. */
  function ThermoAt(s: string, param: string, q: nat): (r: Option<string>)
    ensures r.Some? ==> |r.value| >= 1 && AllNumChars(r.value)
  {
    if !MatchAt(s, q, param + ":", true) then None
    else
      var w := Span(s, q + |param| + 1, IsSpace);
      var e := Span(s, w, IsNumChar);
      if w < e then
        SpanRun(s, w, IsNumChar);
        assert AllNumChars(s[w..e]) by {
          forall k | 0 <= k < e - w ensures IsNumChar(s[w..e][k]) { assert IsNumChar(s[w + k]); }
        }
        Some(s[w..e])
      else None
  }

  /** The thermodynamic pattern matches at q and at no earlier position. */
  predicate ThermoFirst(s: string, param: string, q: nat) {
    ThermoAt(s, param, q).Some? && forall j :: 0 <= j < q ==> ThermoAt(s, param, j).None?
  }

  /** extractThermodynamicValue: the token of the first place where
      "param:" is followed, after optional white space, by a number. */
  function ExtractThermoToken(text: string, param: string): (r: Option<string>)
    ensures r.Some? ==> |r.value| >= 1 && AllNumChars(r.value)
    ensures r.Some? ==> exists q :: 0 <= q < |text| && ThermoFirst(text, param, q) && ThermoAt(text, param, q) == r
    ensures r.None? <==> forall q :: 0 <= q < |text| ==> ThermoAt(text, param, q).None?
  {
    var m := (q: nat) => ThermoAt(text, param, q);
    match Leftmost(|text|, 0, m)
    case None =>
      assert forall q :: 0 <= q < |text| ==> ThermoAt(text, param, q).None? by {
        forall q | 0 <= q < |text| ensures ThermoAt(text, param, q).None? { assert m(q).None?; }
      }
      None
    case Some((q, t)) =>
      assert m(q) == ThermoAt(text, param, q) == Some(t);
      assert forall j :: 0 <= j < q ==> ThermoAt(text, param, j).None? by {
        forall j | 0 <= j < q ensures ThermoAt(text, param, j).None? { assert m(j).None?; }
      }
      assert ThermoFirst(text, param, q);
      Some(t)
  }

  /** When the pattern first matches at q, the extracted token is the one
      captured there. */
  lemma ThermoTokenAt(text: string, param: string, q: nat)
    requires q < |text| && ThermoFirst(text, param, q)
    ensures ExtractThermoToken(text, param) == ThermoAt(text, param, q)
  {
    var r := ExtractThermoToken(text, param);
    assert r.Some?;
    var p :| 0 <= p < |text| && ThermoFirst(text, param, p) && ThermoAt(text, param, p) == r;
    assert !(p < q) && !(q < p);
  }

  /** /pH:\s*([\d.-]+(?:\s*-\s*[\d.-]+)?)/i tried at q: the captured range.
      The optional tail needs white space before its dash, since a dash right
      after the first token would already belong to that token. */
  function PhAt(s: string, q: nat): (r: Option<string>)
    ensures r.Some? ==> |r.value| >= 1
  {
    if !MatchAt(s, q, "pH:", true) then None
    else
      var w := Span(s, q + 3, IsSpace);
      var e1 := Span(s, w, IsNumChar);
      if e1 == w then None
      else
        var a := Span(s, e1, IsSpace);
        if a < |s| && s[a] == '-' then
          var b := Span(s, a + 1, IsSpace);
          var e2 := Span(s, b, IsNumChar);
          if b < e2 then Some(s[w..e2]) else Some(s[w..e1])
        else Some(s[w..e1])
  }

  /** The pH pattern matches at q and at no earlier position. */
  predicate PhFirst(s: string, q: nat) {
    PhAt(s, q).Some? && forall j :: 0 <= j < q ==> PhAt(s, j).None?
  }

  /** The captured pH text of the first place where the pattern matches. */
  function ExtractPhToken(text: string): (r: Option<string>)
    ensures r.Some? ==> |r.value| >= 1
    ensures r.Some? ==> exists q :: 0 <= q < |text| && PhFirst(text, q) && PhAt(text, q) == r
    ensures r.None? <==> forall q :: 0 <= q < |text| ==> PhAt(text, q).None?
  {
    var m := (q: nat) => PhAt(text, q);
    match Leftmost(|text|, 0, m)
    case None =>
      assert forall q :: 0 <= q < |text| ==> PhAt(text, q).None? by {
        forall q | 0 <= q < |text| ensures PhAt(text, q).None? { assert m(q).None?; }
      }
      None
    case Some((q, t)) =>
      assert m(q) == PhAt(text, q) == Some(t);
      assert forall j :: 0 <= j < q ==> PhAt(text, j).None? by {
        forall j | 0 <= j < q ensures PhAt(text, j).None? { assert m(j).None?; }
      }
      assert PhFirst(text, q);
      Some(t)
  }

  /** When the pH pattern first matches at q, the extracted text is the one
      captured there. */
  lemma PhTokenAt(text: string, q: nat)
    requires q < |text| && PhFirst(text, q)
    ensures ExtractPhToken(text) == PhAt(text, q)
  {
    var r := ExtractPhToken(text);
    assert r.Some?;
    var p :| 0 <= p < |text| && PhFirst(text, p) && PhAt(text, p) == r;
    assert !(p < q) && !(q < p);
  }
}
