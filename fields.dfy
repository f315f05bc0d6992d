/** The field normalisers of the response parser: the line lists, the
    thermodynamic values with their synthesised fallbacks, the reaction
    conditions with the pH range expansion, and the generated metrics. */
module Fields {
  import opened Strings
  import opened Decimal
  import opened Patterns

  /** s.endsWith(suffix) */
  predicate EndsWith(s: string, suffix: string) {
    |suffix| <= |s| && s[|s| - |suffix|..] == suffix
  }

  // ---- lists: section.split('\n').filter(keep).map(f) --------------------

  function LineItems(section: string, keep: string -> bool, f: string -> string): seq<string> {
    Select(SplitLines(section), keep, f)
  }

  /** Items follow the order of the lines they come from. */
  lemma LineItemsAppend(a: string, b: string, keep: string -> bool, f: string -> string)
    ensures LineItems(a + "\n" + b, keep, f) == LineItems(a, keep, f) + LineItems(b, keep, f)
  {
    SplitLinesAppend(a, b);
    SelectAppend(SplitLines(a), SplitLines(b), keep, f);
  }

  /** A single line gives one item when it is kept and none otherwise. */
  lemma LineItemsOne(x: string, keep: string -> bool, f: string -> string)
    requires '\n' !in x
    ensures LineItems(x, keep, f) == if keep(x) then [f(x)] else []
  {
    SplitOneLine(x);
  }

  /** An absent section is "", whose only line is "". */
  lemma LineItemsEmpty(keep: string -> bool, f: string -> string)
    requires !keep("")
    ensures LineItems("", keep, f) == []
  {
    SplitOneLine("");
  }

  // ---- extractMaterials, extractEquipment -------------------------------

  /** line.startsWith('-') */
  predicate IsDashLine(line: string) { |line| > 0 && line[0] == '-' }

  /** line.substring(1).trim(); substring(1) of "" is "". */
  function DashItem(line: string): (r: string)
    ensures Trimmed(r)
    ensures |line| > 0 ==> |r| < |line|
  {
    Trim(if line == "" then "" else line[1..])
  }

  /** The items of the dash lines of a section, in line order. */
  function DashItems(section: string): (r: seq<string>)
    ensures forall k :: 0 <= k < |r| ==> Trimmed(r[k])
    ensures forall y :: y in r ==> exists x :: x in SplitLines(section) && IsDashLine(x) && y == DashItem(x)
  {
    var r := LineItems(section, IsDashLine, DashItem);
    assert forall k :: 0 <= k < |r| ==> Trimmed(r[k]) by {
      forall k | 0 <= k < |r| ensures Trimmed(r[k]) {
        assert r[k] in r;
      }
    }
    r
  }

  function ExtractMaterials(text: string): (r: seq<string>)
    ensures forall k :: 0 <= k < |r| ==> Trimmed(r[k])
  {
    DashItems(ExtractSection(text, "MATERIALS"))
  }

  function ExtractEquipment(text: string): (r: seq<string>)
    ensures forall k :: 0 <= k < |r| ==> Trimmed(r[k])
  {
    DashItems(ExtractSection(text, "EQUIPMENT"))
  }

  /** A dash line gives its trimmed remainder, any other line nothing. */
  lemma DashLine(x: string)
    requires '\n' !in x
    ensures DashItems(x) == if IsDashLine(x) then [Trim(x[1..])] else []
  {
    LineItemsOne(x, IsDashLine, DashItem);
  }

  /** Without the label the list is empty: the "Materials not specified" and
      "Standard equipment" placeholders are never used. */
  lemma NoMaterialsSection(text: string)
    requires forall q: nat :: !MatchAt(text, q, "MATERIALS:", true)
    ensures ExtractMaterials(text) == []
  {
    assert "MATERIALS" + ":" == "MATERIALS:";
    LineItemsEmpty(IsDashLine, DashItem);
  }

  lemma NoEquipmentSection(text: string)
    requires forall q: nat :: !MatchAt(text, q, "EQUIPMENT:", true)
    ensures ExtractEquipment(text) == []
  {
    assert "EQUIPMENT" + ":" == "EQUIPMENT:";
    LineItemsEmpty(IsDashLine, DashItem);
  }

  // ---- extractProcedure -------------------------------------------------

  /** /^\d+\./ */
  predicate IsNumbered(line: string) {
    var d := Span(line, 0, IsDigit);
    0 < d < |line| && line[d] == '.'
  }

  // line.replace(/^\d+\.\s*/, ""): drops the number, its point and the
  // white space after them; a line without a number is left alone.
  function StripNumber(line: string): (r: string)
    ensures IsNumbered(line) ==> |r| < |line| && r == line[|line| - |r|..] && IsDigit(line[0])
    ensures IsNumbered(line) ==> r == [] || !IsSpace(r[0])
    ensures !IsNumbered(line) ==> r == line
  {
    if IsNumbered(line) then line[Span(line, Span(line, 0, IsDigit) + 1, IsSpace)..] else line
  }

  /** \s* */
  predicate AllSpace(w: string) {
    forall k :: 0 <= k < |w| ==> IsSpace(w[k])
  }

  /** The digits, the point and all the white space after it are what is
      removed: the rest of the line, from its first non-space, is kept. */
  lemma StripNumberOf(n: string, w: string, x: string)
    requires |n| >= 1 && AllDigits(n)
    requires AllSpace(w)
    requires x == [] || !IsSpace(x[0])
    ensures StripNumber(n + "." + w + x) == x
  {
    var line := n + "." + w + x;
    assert forall k :: 0 <= k < |n| ==> line[k] == n[k];
    assert line[|n|] == '.';
    SpanStopsAt(line, 0, |n|, IsDigit);
    assert IsNumbered(line);
    var e := |n| + 1 + |w|;
    assert forall k :: |n| + 1 <= k < e ==> line[k] == w[k - |n| - 1];
    if x == [] {
      SpanToEnd(line, |n| + 1, IsSpace);
    } else {
      assert line[e] == x[0];
      SpanStopsAt(line, |n| + 1, e, IsSpace);
    }
    assert line[e..] == x;
  }

  /** Every numbered line has that shape, so StripNumberOf covers them all. */
  lemma NumberedForm(line: string)
    requires IsNumbered(line)
    ensures exists n, w :: |n| >= 1 && AllDigits(n) && AllSpace(w) && line == n + "." + w + StripNumber(line)
  {
    var d := Span(line, 0, IsDigit);
    var e := Span(line, d + 1, IsSpace);
    DigitRun(line, 0);
    SpanRun(line, d + 1, IsSpace);
    var n, w := line[..d], line[d + 1..e];
    assert AllSpace(w) by {
      forall k | 0 <= k < |w| ensures IsSpace(w[k]) { assert w[k] == line[d + 1 + k]; }
    }
    assert StripNumber(line) == line[e..];
    CutAtPoint(line, d, e);
  }

  lemma CutAtPoint(line: string, d: nat, e: nat)
    requires d < e <= |line| && line[d] == '.'
    ensures line == line[..d] + "." + line[d + 1..e] + line[e..]
  {
    assert line[d..d + 1] == ".";
    assert line == line[..d] + line[d..d + 1] + line[d + 1..e] + line[e..];
  }

  function ProcedureSteps(section: string): (r: seq<string>)
    ensures forall y :: y in r ==> exists x :: x in SplitLines(section) && IsNumbered(x) && y == StripNumber(x)
  {
    LineItems(section, IsNumbered, StripNumber)
  }

  function ExtractProcedure(text: string): (r: seq<string>)
    ensures forall k :: 0 <= k < |r| ==> r[k] == [] || !IsSpace(r[k][0])
  {
    var r := ProcedureSteps(ExtractSection(text, "PROCEDURE"));
    assert forall k :: 0 <= k < |r| ==> r[k] == [] || !IsSpace(r[k][0]) by {
      forall k | 0 <= k < |r| ensures r[k] == [] || !IsSpace(r[k][0]) {
        assert r[k] in r;
      }
    }
    r
  }

  /** A numbered line gives its text after the number; others give nothing. */
  lemma ProcedureLine(x: string)
    requires '\n' !in x
    ensures ProcedureSteps(x) == if IsNumbered(x) then [StripNumber(x)] else []
  {
    LineItemsOne(x, IsNumbered, StripNumber);
  }

  lemma NoProcedureSection(text: string)
    requires forall q: nat :: !MatchAt(text, q, "PROCEDURE:", true)
    ensures ExtractProcedure(text) == []
  {
    assert "PROCEDURE" + ":" == "PROCEDURE:";
    LineItemsEmpty(IsNumbered, StripNumber);
  }

  // ---- extractAlternatives ----------------------------------------------

  /** line.trim() && /^\d+\./.test(line) */
  predicate IsRouteLine(line: string) { Trim(line) != "" && IsNumbered(line) }

  // line.replace(/^\d+\.\s*/, "").trim()
  function RouteItem(line: string): (r: string)
    ensures Trimmed(r)
  {
    Trim(StripNumber(line))
  }

  function ExtractAlternatives(text: string): (r: seq<string>)
    ensures forall k :: 0 <= k < |r| ==> Trimmed(r[k])
    ensures forall y :: y in r ==>
      exists x :: x in SplitLines(ExtractSection(text, "ALTERNATIVE SYNTHESIS ROUTES")) && IsNumbered(x) && y == RouteItem(x)
  {
    var section := ExtractSection(text, "ALTERNATIVE SYNTHESIS ROUTES");
    if section == "" then []
    else
      var r := LineItems(section, IsRouteLine, RouteItem);
      assert forall k :: 0 <= k < |r| ==> Trimmed(r[k]) by {
        forall k | 0 <= k < |r| ensures Trimmed(r[k]) {
          assert r[k] in r;
        }
      }
      r
  }

  /** Without an "ALTERNATIVE SYNTHESIS ROUTES:" label there are no routes. */
  lemma NoAlternativesSection(text: string)
    requires forall q: nat :: !MatchAt(text, q, "ALTERNATIVE SYNTHESIS ROUTES:", true)
    ensures ExtractAlternatives(text) == []
  {
    assert "ALTERNATIVE SYNTHESIS ROUTES" + ":" == "ALTERNATIVE SYNTHESIS ROUTES:";
  }

  /** The blank-line test is implied by the numbering test: a numbered line
      starts with a digit, so its trim is never empty. */
  lemma RouteLineIsNumbered(line: string)
    ensures IsRouteLine(line) <==> IsNumbered(line)
  {
    if IsNumbered(line) {
      assert IsDigit(line[0]);
      assert !IsSpace(line[0]);
    }
  }

  // ---- extractList ------------------------------------------------------

  /** item && !item.includes(sectionName), applied to the trimmed line. */
  function ListKeep(name: string): string -> bool {
    line => Trim(line) != "" && !Contains(Trim(line), name)
  }

  function ListItems(section: string, name: string): (r: seq<string>)
    ensures forall k :: 0 <= k < |r| ==> r[k] != "" && Trimmed(r[k]) && !Contains(r[k], name)
  {
    var r := LineItems(section, ListKeep(name), Trim);
    assert forall k :: 0 <= k < |r| ==> r[k] != "" && Trimmed(r[k]) && !Contains(r[k], name) by {
      forall k | 0 <= k < |r| ensures r[k] != "" && Trimmed(r[k]) && !Contains(r[k], name) {
        assert r[k] in r;
      }
    }
    r
  }

  /** extractList: the trimmed non-empty lines of the section that do not
      mention its name. */
  function ExtractList(text: string, name: string): (r: seq<string>)
    ensures forall k :: 0 <= k < |r| ==> r[k] != "" && Trimmed(r[k]) && !Contains(r[k], name)
  {
    ListItems(ExtractSection(text, name), name)
  }

  /** A safety line written as a dash item keeps its dash. */
  lemma DashRetained(x: string, name: string)
    requires '\n' !in x && IsDashLine(x)
    requires !Contains(Trim(x), name)
    ensures ListItems(x, name) == [Trim(x)]
    ensures Trim(x)[0] == '-'
  {
    assert !IsSpace(x[0]);
    assert Span(x, 0, IsSpace) == 0;
    assert TrimStart(x) == x;
    LineItemsOne(x, ListKeep(name), Trim);
  }

  lemma NoListSection(text: string, name: string)
    requires forall q: nat :: !MatchAt(text, q, name + ":", true)
    ensures ExtractList(text, name) == []
  {
    assert ExtractSection(text, name) == "";
    LineItemsEmpty(ListKeep(name), Trim);
  }

  // ---- thermodynamics ---------------------------------------------------

  datatype ThermoParam = DeltaH | DeltaS | DeltaG | Keq

  function Symbol(p: ThermoParam): string {
    match p
    case DeltaH => "ΔH"
    case DeltaS => "ΔS"
    case DeltaG => "ΔG"
    case Keq => "Keq"
  }

  /** The unit generateThermodynamicValue appends. */
  function Unit(p: ThermoParam): string {
    match p
    case DeltaH => " kJ/mol"
    case DeltaS => " J/K·mol"
    case DeltaG => " kJ/mol"
    case Keq => ""
  }

  /** The bounds of a synthesised value in hundredths. Math.random() lies in
      [0, 1); toFixed(2) may round onto the open end, so both are closed. */
  function Low(p: ThermoParam): int {
    match p
    case DeltaH => -50000
    case DeltaS => 5000
    case DeltaG => -40000
    case Keq => 100
  }

  function High(p: ThermoParam): int {
    match p
    case DeltaH => -10000
    case DeltaS => 20000
    case DeltaG => -5000
    case Keq => 10100
  }

  /** The synthesised value in hundredths, chosen by the draw `d`. */
  function Hundredths(p: ThermoParam, d: nat): (v: int)
    ensures Low(p) <= v <= High(p)
  {
    match p
    case DeltaH => -(10000 + d % 40001)
    case DeltaS => 5000 + d % 15001
    case DeltaG => -(5000 + d % 35001)
    case Keq => 100 + d % 10001
  }

  /** Every value of the range can be drawn. */
  lemma HundredthsCover(p: ThermoParam, v: int)
    requires Low(p) <= v <= High(p)
    ensures exists d: nat :: Hundredths(p, d) == v
  {
    var d: nat := match p
      case DeltaH => -v - 10000
      case DeltaS => v - 5000
      case DeltaG => -v - 5000
      case Keq => v - 100;
    assert Hundredths(p, d) == v;
  }

  /** generateThermodynamicValue: the value to two decimals and its unit. */
  function Synthesised(p: ThermoParam, d: nat): (r: string)
    ensures EndsWith(r, Unit(p))
  {
    FormatFixed(Hundredths(p, d), 2) + Unit(p)
  }

  /** A synthesised value reads back, before its unit, as the drawn number
      with two decimals. */
  lemma SynthesisedReadsBack(p: ThermoParam, d: nat)
    ensures var s := Synthesised(p, d);
            EndsWith(s, Unit(p)) && ParseFixed(s[..|s| - |Unit(p)|]) == Some((Hundredths(p, d), 2))
  {
    var f := FormatFixed(Hundredths(p, d), 2);
    var s := f + Unit(p);
    assert s[..|s| - |Unit(p)|] == f;
    assert s[|s| - |Unit(p)|..] == Unit(p);
    FixedRoundTrip(Hundredths(p, d), 2);
  }

  datatype Thermo = Thermo(name: string, value: string)

  /** extractThermodynamicValue(text, param) || generateThermodynamicValue(param):
      the token is never empty, so it always wins when present. */
  function ThermoValue(text: string, p: ThermoParam, d: nat): (r: string)
    ensures r != ""
  {
    SynthesisedReadsBack(p, d);
    match ExtractThermoToken(text, Symbol(p))
    case Some(t) => t
    case None => Synthesised(p, d)
  }

  /** parseThermodynamics: ΔH, ΔS, ΔG and Keq in that order. */
  function ParseThermodynamics(text: string, draw: ThermoParam -> nat): (r: seq<Thermo>)
    ensures |r| == 4
    ensures r[0].name == "ΔH" && r[1].name == "ΔS" && r[2].name == "ΔG" && r[3].name == "Keq"
    ensures r[0].value != "" && r[1].value != "" && r[2].value != "" && r[3].value != ""
  {
    [ Thermo("ΔH", ThermoValue(text, DeltaH, draw(DeltaH))),
      Thermo("ΔS", ThermoValue(text, DeltaS, draw(DeltaS))),
      Thermo("ΔG", ThermoValue(text, DeltaG, draw(DeltaG))),
      Thermo("Keq", ThermoValue(text, Keq, draw(Keq))) ]
  }

  /** A value taken from the text is the bare numeric token; otherwise it is
      synthesised in range. For ΔH, ΔS and ΔG the two are told apart by the
      unit, which only a synthesised value carries. */
  lemma ThermoValueSpec(text: string, p: ThermoParam, d: nat)
    ensures var v := ThermoValue(text, p, d);
            match ExtractThermoToken(text, Symbol(p))
            case Some(t) => v == t && v != "" && AllNumChars(v)
            case None =>
              var s := v[..|v| - |Unit(p)|];
              EndsWith(v, Unit(p)) && ParseFixed(s) == Some((Hundredths(p, d), 2))
    ensures p != Keq ==> (EndsWith(ThermoValue(text, p, d), Unit(p)) <==> ExtractThermoToken(text, Symbol(p)).None?)
  {
    SynthesisedReadsBack(p, d);
    var v := ThermoValue(text, p, d);
    if ExtractThermoToken(text, Symbol(p)).Some? && p != Keq {
      var u := Unit(p);
      assert u[0] == ' ';
      if |u| <= |v| {
        assert IsNumChar(v[|v| - |u|]);
        assert v[|v| - |u|..][0] == v[|v| - |u|];
      }
    }
  }

  /** A synthesised equilibrium constant has no unit, so it looks like a
      number taken from the text. */
  lemma KeqLooksExtracted(d: nat)
    ensures AllNumChars(Synthesised(Keq, d))
  {
    var f := FormatFixed(Hundredths(Keq, d), 2);
    assert Synthesised(Keq, d) == f + "";
    assert f + "" == f;
    FixedIsNumeric(Hundredths(Keq, d), 2);
  }

  /** toFixed writes only a sign, digits and a point. */
  lemma FixedIsNumeric(v: int, places: nat)
    requires places >= 1
    ensures AllNumChars(FormatFixed(v, places))
  {
    var a: nat := if v < 0 then -v else v;
    var (whole, frac) := DivMod(a, Pow10(places));
    var sign := if v < 0 then "-" else "";
    var w, f := NatToString(whole), PadDigits(frac, places);
    var s := sign + w + "." + f;
    assert FormatFixed(v, places) == s;
    forall k | 0 <= k < |s| ensures IsNumChar(s[k]) {
      if k < |sign| {
        assert s[k] == '-';
      } else if k < |sign| + |w| {
        assert s[k] == w[k - |sign|];
      } else if k > |sign| + |w| {
        assert s[k] == f[k - |sign| - |w| - 1];
      }
    }
  }

  // ---- pH ---------------------------------------------------------------

  const DefaultPH := "6.5-8.2"

  predicate ZeroDigits(s: string) {
    forall k :: 0 <= k < |s| ==> s[k] == '0'
  }

  /** parseFloat of a captured token, in tenths, where the number it reads is
      exact to one decimal and its integer part is below 10^9; None where
      parseFloat gives NaN or a value this integer model does not cover. */
  function ParseTenths(t: string): (r: Option<nat>)
    ensures r.Some? ==> |t| > 0 && (IsDigit(t[0]) || t[0] == '.')
    ensures r.Some? ==> r.value < 10000000000
  {
    var i := Span(t, 0, IsDigit);
    var dot := i < |t| && t[i] == '.';
    var j := if dot then Span(t, i + 1, IsDigit) else i;
    DigitRun(t, 0);
    DotDigits(t, i);
    var frac := if dot then t[i + 1..j] else "";
    if i == 0 && frac == "" then None
    else if |frac| > 1 && !ZeroDigits(frac[1..]) then None
    else
      var whole := DigitsValue(t[..i]);
      if whole >= 1000000000 then None
      else Some(whole * 10 + (if frac == "" then 0 else DigitValue(frac[0])))
  }

  lemma DotDigits(t: string, i: nat)
    requires i <= |t|
    ensures i < |t| ==> AllDigits(t[i + 1..Span(t, i + 1, IsDigit)])
  {
    if i < |t| { DigitRun(t, i + 1); }
  }

  /** `${(v - 0.2).toFixed(1)}-${(v + 0.2).toFixed(1)}` for v tenths. */
  function ExpandPH(v: int): (r: string)
    ensures exists lo, hi :: r == lo + "-" + hi && ParseFixed(lo) == Some((v - 2, 1)) && ParseFixed(hi) == Some((v + 2, 1))
  {
    FixedRoundTrip(v - 2, 1);
    FixedRoundTrip(v + 2, 1);
    FormatFixed(v - 2, 1) + "-" + FormatFixed(v + 2, 1)
  }

  /** extractPHValue. `phFloat` stands for the floating-point formatting of a
      token outside the integer model. */
  function ExtractPH(text: string, phFloat: string -> string): (r: string)
    ensures ExtractPhToken(text).None? ==> r == DefaultPH
    ensures ExtractPhToken(text).Some? && '-' in ExtractPhToken(text).value ==> r == ExtractPhToken(text).value
  {
    match ExtractPhToken(text)
    case None => DefaultPH
    case Some(t) =>
      if '-' in t then t
      else
        match ParseTenths(t)
        case Some(v) => ExpandPH(v)
        case None => phFloat(t)
  }

  /** ParseTenths reads back a one-decimal rendering. */
  lemma TenthsRoundTrip(v: nat)
    requires v < 10000000000
    ensures ParseTenths(FormatFixed(v, 1)) == Some(v)
  {
    var (q, m) := DivMod(v, 10);
    var whole, frac := NatToString(q), PadDigits(m, 1);
    LocateFixedParts(false, whole, frac);
    var t := FormatFixed(v, 1);
    assert t == whole + "." + frac;
    NatToStringValue(q);
    assert t[..|whole|] == whole;
    assert t[|whole| + 1] == frac[0];
    ParseTenthsOf(t, |whole|);
  }

  /** ParseTenths of `whole.d`, a numeral, a point and one digit. */
  lemma ParseTenthsOf(t: string, i: nat)
    requires 0 < i && i + 2 == |t| && Span(t, 0, IsDigit) == i && t[i] == '.' && IsDigit(t[i + 1])
    requires AllDigits(t[..i]) && DigitsValue(t[..i]) < 1000000000
    ensures ParseTenths(t) == Some(DigitsValue(t[..i]) * 10 + DigitValue(t[i + 1]))
  {
    assert Span(t, i + 2, IsDigit) == i + 2;
    assert Span(t, i + 1, IsDigit) == |t|;
    assert t[i + 1..|t|] == [t[i + 1]];
  }

  /** The one-decimal rendering of a number below 10: digit, point, digit. */
  lemma FormatSmall(v: nat)
    requires v < 100
    ensures FormatFixed(v, 1) == [DigitChar(v / 10), '.', DigitChar(v % 10)]
  {
    assert NatToString(v / 10) == [DigitChar(v / 10)];
    assert PadDigits(v % 10, 1) == PadDigits(v / 100, 0) + [DigitChar(v % 10)];
  }

  /** A one-decimal rendering has no dash. */
  lemma NoDashInTenths(v: nat)
    ensures '-' !in FormatFixed(v, 1)
  {
    var (q, m) := DivMod(v, 10);
    var whole, frac := NatToString(q), PadDigits(m, 1);
    var t := whole + "." + frac;
    assert FormatFixed(v, 1) == t;
    forall k | 0 <= k < |t| ensures t[k] != '-' {
      if k < |whole| {
        assert t[k] == whole[k];
      } else if k > |whole| {
        assert t[k] == frac[k - |whole| - 1];
      }
    }
  }

  /** A single captured value v becomes the range v-0.2 to v+0.2. */
  lemma SingleValueExpands(text: string, v: nat, phFloat: string -> string)
    requires v < 10000000000
    requires ExtractPhToken(text) == Some(FormatFixed(v, 1))
    ensures ExtractPH(text, phFloat) == ExpandPH(v)
  {
    NoDashInTenths(v);
    TenthsRoundTrip(v);
  }

  /** Both ends of an expanded range read back with one decimal. */
  lemma ExpandedEnds(v: int)
    ensures var lo, hi := FormatFixed(v - 2, 1), FormatFixed(v + 2, 1);
            ExpandPH(v) == lo + "-" + hi
            && ParseFixed(lo) == Some((v - 2, 1)) && ParseFixed(hi) == Some((v + 2, 1))
  {
    FixedRoundTrip(v - 2, 1);
    FixedRoundTrip(v + 2, 1);
  }

  /** The example the parser is written for: "7.0" becomes "6.8-7.2". */
  lemma SevenExpands()
    ensures ParseTenths("7.0") == Some(70)
    ensures ExpandPH(70) == "6.8-7.2"
  {
    SevenReads();
    SevenWidens();
  }

  lemma SevenReads()
    ensures ParseTenths("7.0") == Some(70)
  {
    TenthsRoundTrip(70);
    FormatSmall(70);
    assert DigitChar(7) == '7' && DigitChar(0) == '0';
  }

  lemma SevenWidens()
    ensures ExpandPH(70) == "6.8-7.2"
  {
    SmallTenths(68, '6', '8');
    SmallTenths(72, '7', '2');
    assert ExpandPH(70) == FormatFixed(68, 1) + "-" + FormatFixed(72, 1);
  }

  lemma SmallTenths(v: nat, a: char, b: char)
    requires v < 100 && a == DigitChar(v / 10) && b == DigitChar(v % 10)
    ensures FormatFixed(v, 1) == [a, '.', b]
  {
    FormatSmall(v);
  }

  /** "pH: 7.0" captures the token "7.0". */
  lemma SevenToken()
    ensures ExtractPhToken("pH: 7.0") == Some("7.0")
  {
    var s := "pH: 7.0";
    assert MatchAt(s, 0, "pH:", true);
    assert Span(s, 3, IsSpace) == 4 by { SpanStopsAt(s, 3, 4, IsSpace); }
    assert Span(s, 4, IsNumChar) == 7 by { SpanToEnd(s, 4, IsNumChar); }
    assert Span(s, 7, IsSpace) == 7;
    assert s[4..7] == "7.0";
    assert PhAt(s, 0) == Some("7.0");
    PhTokenAt(s, 0);
  }

  /** The same example on the text: "pH: 7.0" gives the range "6.8-7.2",
      whatever the float rendering would do. */
  lemma SevenText(phFloat: string -> string)
    ensures ExtractPH("pH: 7.0", phFloat) == "6.8-7.2"
  {
    SevenToken();
    SevenExpands();
    assert '-' !in "7.0";
  }

  // ---- conditions -------------------------------------------------------

  datatype Conditions = Conditions(temperature: string, pressure: string, pH: string, catalyst: string)

  /** extractValue(text, tag) || fallback */
  function ConditionField(text: string, tag: string, fallback: string): (r: string)
    ensures fallback != "" ==> r != ""
    ensures '\n' !in fallback ==> '\n' !in r
  {
    var v := ExtractValue(text, tag);
    if v == "" then fallback else v
  }

  /** parseConditions */
  function ParseConditions(text: string, phFloat: string -> string): (r: Conditions)
    ensures r.temperature != "" && r.pressure != "" && r.catalyst != ""
  {
    Conditions(
      ConditionField(text, "Temperature:", "25-30°C"),
      ConditionField(text, "Pressure:", "1 atm"),
      ExtractPH(text, phFloat),
      ConditionField(text, "Catalyst:", "None"))
  }

  /** Without the label the fallback is used. */
  lemma ConditionAbsent(text: string, tag: string, fallback: string)
    requires forall q: nat :: !MatchAt(text, q, tag, true)
    ensures ConditionField(text, tag, fallback) == fallback
  {
  }

  /** With the label first at q, the field is the trimmed rest of the line
      holding the next non-space character, or the fallback when only white
      space follows. */
  lemma ConditionFound(text: string, tag: string, fallback: string, q: nat, i: nat)
    requires FirstAt(text, tag, q) && i == q + |tag|
    ensures i <= |text|
    ensures Span(text, i, IsSpace) == |text| ==> ConditionField(text, tag, fallback) == fallback
    ensures Span(text, i, IsSpace) < |text| ==>
              ConditionField(text, tag, fallback) == Trim(text[Span(text, i, IsSpace)..Span(text, Span(text, i, IsSpace), NotNewline)])
  {
    ValueSpec(text, tag, q, i);
  }

  // ---- generateMetrics --------------------------------------------------

  /** The Math.random() calls of generateMetrics, one per field. */
  datatype MetricSite = YieldSite | EfficiencySite | CostSite | TimeSite
                      | AtomEconomySite | EnergyEfficiencySite | CostIndexSite

  datatype Metrics = Metrics(reactionYield: nat, efficiency: nat, cost: string, time: string,
                             atomEconomy: nat, energyEfficiency: string, costIndex: string)

  const CostIndexes: seq<string> := ["Low", "Medium", "High"]

  /** `s` is a numeral whose value lies in [lo, hi]. */
  predicate NumeralIn(s: string, lo: nat, hi: nat) {
    |s| >= 1 && AllDigits(s) && lo <= DigitsValue(s) <= hi
  }

  /** `$${Math.floor(Math.random() * 900 + 100)}` */
  function CostText(d: nat): string {
    "$" + NatToString(100 + d % 900)
  }

  /** `${Math.floor(Math.random() * 23 + 1)}h` */
  function TimeText(d: nat): string {
    NatToString(1 + d % 23) + "h"
  }

  /** `${Math.floor(Math.random() * 20 + 75)}%` */
  function PercentText(d: nat): string {
    NatToString(75 + d % 20) + "%"
  }

  /** A dollar sign, then the numeral of a whole number of dollars in [100, 999]. */
  lemma CostTextRange(d: nat)
    ensures |CostText(d)| >= 2 && CostText(d)[0] == '$' && NumeralIn(CostText(d)[1..], 100, 999)
  {
    var v := 100 + d % 900;
    NatToStringValue(v);
    assert CostText(d)[1..] == NatToString(v);
  }

  /** The numeral of a number of hours in [1, 23], then "h". */
  lemma TimeTextRange(d: nat)
    ensures var r := TimeText(d); |r| >= 2 && r[|r| - 1] == 'h' && NumeralIn(r[..|r| - 1], 1, 23)
  {
    var v := 1 + d % 23;
    NatToStringValue(v);
    assert TimeText(d)[..|NatToString(v)|] == NatToString(v);
  }

  /** The numeral of a percentage in [75, 94], then "%". */
  lemma PercentTextRange(d: nat)
    ensures var r := PercentText(d); |r| >= 2 && r[|r| - 1] == '%' && NumeralIn(r[..|r| - 1], 75, 94)
  {
    var v := 75 + d % 20;
    NatToStringValue(v);
    assert PercentText(d)[..|NatToString(v)|] == NatToString(v);
  }

  /** generateMetrics: each field is Math.floor(Math.random() * n + base),
      with the draw at each site reduced to one of its n outcomes. */
  function GenerateMetrics(pick: MetricSite -> nat): (m: Metrics)
    ensures 75 <= m.reactionYield <= 94 && 75 <= m.efficiency <= 94 && 70 <= m.atomEconomy <= 89
    ensures m.costIndex in CostIndexes
  {
    Metrics(
      75 + pick(YieldSite) % 20,
      75 + pick(EfficiencySite) % 20,
      CostText(pick(CostSite)),
      TimeText(pick(TimeSite)),
      70 + pick(AtomEconomySite) % 20,
      PercentText(pick(EnergyEfficiencySite)),
      CostIndexes[pick(CostIndexSite) % 3])
  }

  /** The text fields of every generated record are numerals in their ranges
      with their signs. */
  lemma MetricsInRange(pick: MetricSite -> nat)
    ensures var m := GenerateMetrics(pick);
            && |m.cost| >= 2 && m.cost[0] == '$' && NumeralIn(m.cost[1..], 100, 999)
            && |m.time| >= 2 && m.time[|m.time| - 1] == 'h' && NumeralIn(m.time[..|m.time| - 1], 1, 23)
            && |m.energyEfficiency| >= 2 && m.energyEfficiency[|m.energyEfficiency| - 1] == '%'
            && NumeralIn(m.energyEfficiency[..|m.energyEfficiency| - 1], 75, 94)
  {
    CostTextRange(pick(CostSite));
    TimeTextRange(pick(TimeSite));
    PercentTextRange(pick(EnergyEfficiencySite));
  }

  /** The draws that make generateMetrics produce the given values. */
  function MetricPick(y: nat, e: nat, c: nat, h: nat, a: nat, ee: nat, ci: nat): MetricSite -> nat
    requires 75 <= y && 75 <= e && 100 <= c && 1 <= h && 70 <= a && 75 <= ee
  {
    (s: MetricSite) =>
      match s
      case YieldSite => y - 75
      case EfficiencySite => e - 75
      case CostSite => c - 100
      case TimeSite => h - 1
      case AtomEconomySite => a - 70
      case EnergyEfficiencySite => ee - 75
      case CostIndexSite => ci
  }

  lemma SmallMod(x: nat, n: nat)
    requires x < n
    ensures x % n == x
  {
  }

  /** A draw d that is v - base gives v back. */
  lemma BaseCover(v: nat, base: nat, n: nat, d: nat)
    requires base <= v < base + n && d + base == v
    ensures base + d % n == v
  {
    SmallMod(d, n);
  }

  lemma CostCover(c: nat, d: nat)
    requires 100 <= c <= 999 && d + 100 == c
    ensures CostText(d) == "$" + NatToString(c)
  {
    BaseCover(c, 100, 900, d);
  }

  lemma TimeCover(h: nat, d: nat)
    requires 1 <= h <= 23 && d + 1 == h
    ensures TimeText(d) == NatToString(h) + "h"
  {
    BaseCover(h, 1, 23, d);
  }

  lemma PercentCover(ee: nat, d: nat)
    requires 75 <= ee <= 94 && d + 75 == ee
    ensures PercentText(d) == NatToString(ee) + "%"
  {
    BaseCover(ee, 75, 20, d);
  }

  /** Every combination of values in those ranges can be generated. */
  lemma MetricsCover(y: nat, e: nat, c: nat, h: nat, a: nat, ee: nat, ci: nat)
    requires 75 <= y <= 94 && 75 <= e <= 94 && 100 <= c <= 999 && 1 <= h <= 23
    requires 70 <= a <= 89 && 75 <= ee <= 94 && ci < 3
    ensures GenerateMetrics(MetricPick(y, e, c, h, a, ee, ci)) ==
              Metrics(y, e, "$" + NatToString(c), NatToString(h) + "h", a, NatToString(ee) + "%", CostIndexes[ci])
  {
    var pick := MetricPick(y, e, c, h, a, ee, ci);
    BaseCover(y, 75, 20, pick(YieldSite));
    BaseCover(e, 75, 20, pick(EfficiencySite));
    BaseCover(a, 70, 20, pick(AtomEconomySite));
    CostCover(c, pick(CostSite));
    TimeCover(h, pick(TimeSite));
    PercentCover(ee, pick(EnergyEfficiencySite));
    SmallMod(pick(CostIndexSite), 3);
  }
}
