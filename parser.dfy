/** parsePossibilities: one chat completion becomes an ordered list of
    Possibility records, one per "POSSIBILITY n:" marker. */
module Parser {
  import opened Strings
  import opened Decimal
  import opened Patterns
  import opened Segmenter
  import opened Fields

  /** The places where one record calls Math.random. */
  datatype Site = ThermoSite(param: ThermoParam) | MetricsSite(metric: MetricSite)

  /** What the parser takes from its surroundings: `rand(i, site)` is the
      draw made at `site` while building record i, and `phFloat` is the
      floating-point rendering of a pH token outside the integer model. */
  datatype Ambient = Ambient(rand: (nat, Site) -> nat, phFloat: string -> string)

  datatype Possibility = Possibility(
    title: string,
    name: string,
    reaction: string,
    explanation: string,
    alternatives: seq<string>,
    thermodynamics: seq<Thermo>,
    conditions: Conditions,
    metrics: Metrics,
    safety: seq<string>,
    materials: seq<string>,
    equipment: seq<string>,
    procedure: seq<string>)

  /** `s || fallback` for a string s. */
  function OrElse(s: string, fallback: string): string {
    if s == "" then fallback else s
  }

  function ThermoDraws(env: Ambient, index: nat): ThermoParam -> nat {
    p => env.rand(index, ThermoSite(p))
  }

  function MetricDraws(env: Ambient, index: nat): MetricSite -> nat {
    m => env.rand(index, MetricsSite(m))
  }

  const NoRoutes := "No alternative routes provided"

  /** The record built from the section at `index`. */
  function ParseSection(section: string, index: nat, env: Ambient): (r: Possibility)
    ensures r.title == "Possibility " + NatToString(index + 1)
    ensures r.name != "" && r.reaction != "" && r.explanation != ""
    ensures ExtractSection(section, "REACTION NAME") == "" ==> r.name == "Reaction " + NatToString(index + 1)
    ensures ExtractSection(section, "REACTION NAME") != "" ==> r.name == ExtractSection(section, "REACTION NAME")
    ensures ExtractSection(section, "REACTION EQUATION") == "" ==> r.reaction == "No equation"
    ensures ExtractSection(section, "REACTION EQUATION") != "" ==> r.reaction == ExtractSection(section, "REACTION EQUATION")
    ensures ExtractSection(section, "MECHANISM") == "" ==> r.explanation == "No mechanism"
    ensures ExtractSection(section, "MECHANISM") != "" ==> r.explanation == ExtractSection(section, "MECHANISM")
    ensures |r.alternatives| >= 1
    ensures ExtractAlternatives(section) == [] ==> r.alternatives == [NoRoutes]
    ensures ExtractAlternatives(section) != [] ==> r.alternatives == ExtractAlternatives(section)
    ensures |r.thermodynamics| == 4
    ensures r.thermodynamics == ParseThermodynamics(section, ThermoDraws(env, index))
    ensures r.conditions == ParseConditions(section, env.phFloat)
    ensures r.metrics == GenerateMetrics(MetricDraws(env, index))
    ensures r.safety == ExtractList(section, "SAFETY CONSIDERATIONS")
    ensures r.materials == ExtractMaterials(section)
    ensures r.equipment == ExtractEquipment(section)
    ensures r.procedure == ExtractProcedure(section)
  {
    var alternatives := ExtractAlternatives(section);
    Possibility(
      "Possibility " + NatToString(index + 1),
      OrElse(ExtractSection(section, "REACTION NAME"), "Reaction " + NatToString(index + 1)),
      OrElse(ExtractSection(section, "REACTION EQUATION"), "No equation"),
      OrElse(ExtractSection(section, "MECHANISM"), "No mechanism"),
      if |alternatives| > 0 then alternatives else [NoRoutes],
      ParseThermodynamics(section, ThermoDraws(env, index)),
      ParseConditions(section, env.phFloat),
      GenerateMetrics(MetricDraws(env, index)),
      ExtractList(section, "SAFETY CONSIDERATIONS"),
      ExtractMaterials(section),
      ExtractEquipment(section),
      ExtractProcedure(section))
  }

  /** parsePossibilities: one record per section, in order. */
  function ParsePossibilities(content: string, env: Ambient): (r: seq<Possibility>)
    ensures |r| == |Segments(content)| == MarkerCount(content)
    ensures content == "" ==> r == []
  {
    var sections := Segments(content);
    SegmentCount(content);
    seq(|sections|, i requires 0 <= i < |sections| => ParseSection(sections[i], i, env))
  }

  /** Record i is built from section i, numbered i. */
  lemma RecordAt(content: string, env: Ambient, i: nat)
    requires i < |ParsePossibilities(content, env)|
    ensures ParsePossibilities(content, env)[i] == ParseSection(Segments(content)[i], i, env)
  {
  }

  /** Without a marker there are no records. */
  lemma NoMarkerNoRecords(content: string, env: Ambient)
    ensures ParsePossibilities(content, env) == [] <==> forall q :: 0 <= q < |content| ==> MarkerAt(content, q).None?
  {
    NoSegmentsIffNoMarker(content);
  }

  /** Text before the first marker has no effect on the records. */
  lemma PreambleIgnored(content: string, d: nat, env: Ambient)
    requires d <= |content| && MarkerAt(content, d).Some?
    requires forall j :: 0 <= j < d ==> MarkerAt(content, j).None?
    ensures ParsePossibilities(content, env) == ParsePossibilities(content[d..], env)
  {
    PrefixDropped(content, d);
  }

  /** Every record is numbered by its position, so no two share a title. */
  lemma TitlesDistinct(content: string, env: Ambient, i: nat, j: nat)
    requires i < j < |ParsePossibilities(content, env)|
    ensures ParsePossibilities(content, env)[i].title != ParsePossibilities(content, env)[j].title
  {
    RecordTitle(content, env, i);
    RecordTitle(content, env, j);
    TitleNumbers(i, j);
  }

  lemma TitleNumbers(i: nat, j: nat)
    requires i != j
    ensures "Possibility " + NatToString(i + 1) != "Possibility " + NatToString(j + 1)
  {
    if "Possibility " + NatToString(i + 1) == "Possibility " + NatToString(j + 1) {
      PrefixCancel("Possibility ", NatToString(i + 1), NatToString(j + 1));
      NatToStringInjective(i + 1, j + 1);
    }
  }

  /** Record i is titled "Possibility i+1". */
  lemma RecordTitle(content: string, env: Ambient, i: nat)
    requires i < |ParsePossibilities(content, env)|
    ensures ParsePossibilities(content, env)[i].title == "Possibility " + NatToString(i + 1)
  {
    RecordAt(content, env, i);
  }

  lemma PrefixCancel(pre: string, a: string, b: string)
    requires pre + a == pre + b
    ensures a == b
  {
    assert a == (pre + a)[|pre|..];
    assert b == (pre + b)[|pre|..];
  }

  /** The metrics of record i depend on the draws alone, never on the text. */
  lemma MetricsIgnoreText(c1: string, c2: string, env: Ambient, i: nat)
    requires i < |ParsePossibilities(c1, env)| && i < |ParsePossibilities(c2, env)|
    ensures ParsePossibilities(c1, env)[i].metrics == ParsePossibilities(c2, env)[i].metrics
    ensures ParsePossibilities(c1, env)[i].metrics == GenerateMetrics(MetricDraws(env, i))
  {
    RecordAt(c1, env, i);
    RecordAt(c2, env, i);
  }

  /** The first record is built from the text between the first marker and
      the next one (or the end). */
  lemma FirstRecord(content: string, env: Ambient, d: nat, e: nat, n: nat)
    requires d <= |content| && MarkerAt(content, d) == Some(e)
    requires forall j :: 0 <= j < d ==> MarkerAt(content, j).None?
    requires e <= n <= |content|
    requires n == |content| || MarkerAt(content, n).Some?
    requires forall j :: e <= j < n ==> MarkerAt(content, j).None?
    ensures |ParsePossibilities(content, env)| >= 1
    ensures ParsePossibilities(content, env)[0] == ParseSection(content[e..n], 0, env)
  {
    FirstSection(content, d, e, n);
    RecordAt(content, env, 0);
  }
}
