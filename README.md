# AI-Chemy front-end core, modelled in Dafny

AI-Chemy is a chemistry assistant. A language model answers a question with one or more
"POSSIBILITY n:" blocks. The chemistry provider splits the answer at those markers and
turns each block into a structured record with these fields:

- title, reaction name, equation and mechanism;
- alternative routes;
- four thermodynamic values;
- reaction conditions, including a pH range;
- randomly generated metrics;
- safety, materials, equipment and procedure lists.

The provider also keeps the chat history and the error state. A second provider, the
research lab, generates a research paper on a topic, keeps the five most recent papers and
lays the paper out as a paginated PDF.

The project models both providers and proves what each step promises:

- **The regular expressions.** Each one is written out as an explicit matcher:
  - the marker `POSSIBILITY\s*\d+:` under the `i` flag;
  - the lazy section body up to the lookahead `\n[A-Z][A-Z ]+:`;
  - `label\s*([^\n]+)`;
  - the thermodynamic and pH tokens.

  These are proved against the leftmost-match semantics of `String.match`.
- **The segmenter.** It models `split(marker).slice(1)` and is proved to give one section
  per marker, each section free of markers, with the preamble ignored. The first section is
  proved to be the text between the first marker and the next. The remaining sections are
  proved to be those of the text from that next marker on.
- **Each field extractor.** Each is proved to give items drawn from the right lines. Names,
  routes, materials, equipment and safety items are trimmed. Procedure steps are stripped on
  the left only, as the code does, so "1. Mix " gives the step "Mix ".
  Line splitting is proved to distribute over concatenation, so items keep their order.
  Each is also proved to give the empty list when its section is missing.
- **The random fallbacks.** An oracle replaces `Math.random`. Every fallback is proved to
  stay inside its closed range, and each range is proved to be fully reachable. A
  synthesised thermodynamic value is proved to read back as the number it was formatted
  from.
- **The pH expansion.** A single value v is widened to `(v-0.2)-(v+0.2)`, worked in tenths.
  Parsing a formatted value is proved to give the value back.
- **The two providers.** They are classes whose methods are proved against the full new
  state. This includes:
  - the "accepted exactly when the reply holds a marker" rule;
  - the 5-entry history, proved to hold the five newest papers, newest first;
  - the PDF pagination loop, proved against a closed form (page and height of line i, page
    count).

Modules, in dependency order:

- `Strings`: trim, `\s`, case folding, `split('\n')`, includes.
- `Decimal`: decimal numerals and `toFixed`.
- `Patterns`: the regular expressions.
- `Segmenter`: the marker split.
- `Fields`: the field extractors and generators.
- `Parser`: the record and parsePossibilities.
- `Chemy`: the chemistry provider.
- `Research`: the research lab provider.

Surroundings are parameters:

- **Random draws.** `Math.random` is the `rand` oracle in `Parser.Ambient`. At each call site
  a draw is reduced modulo the number of outcomes at that site.
- **The backend reply.** It is `Chemy.Reply` or `Research.Outcome`.
- **Clock readings.** Timestamps, dates and ids are string parameters.
- **The PDF library's line split.** `splitTextToSize` is the method parameter `lines`.
- **Float rendering of unusual pH tokens.** It is `phFloat`.

Where the code does something other than what it appears to intend, the model follows the
code:

- **List placeholders.** A reader would expect a missing safety, materials, equipment or
  procedure list to fall back to its placeholder entry, such as "Materials not specified".
  In the code each fallback is written
  `list || [placeholder]` (frontend/src/chemycontext.jsx:128, 253, 260, 267). An empty
  JavaScript array is truthy, so the placeholder is never produced, and a missing section
  gives `[]`. `Fields.NoMaterialsSection`, `Fields.NoEquipmentSection`,
  `Fields.NoProcedureSection` and `Fields.NoListSection` state this.
- **Safety items.** The prompt template asks for safety points as `- item` lines
  (frontend/src/chemycontext.jsx:41-44), the same format as materials and equipment, whose
  extractors drop the dash (frontend/src/chemycontext.jsx:253, 260). A reader would expect
  "- Wear gloves" to give the item "Wear gloves". The safety extractor trims lines but
  keeps the leading dash (frontend/src/chemycontext.jsx:242-247), so the item is
  "- Wear gloves". `Fields.DashRetained` states this.
- **Unit asymmetry.** Extracted thermodynamic values are bare numeric tokens, while
  synthesised ones carry a unit. The model keeps this difference. `Fields.ThermoValueSpec`
  tells the two apart for ΔH, ΔS and ΔG. `Fields.KeqLooksExtracted` shows that for Keq
  they cannot be told apart.
- **The "N/A" fallback.** The fallback of generateThermodynamicValue
  (frontend/src/chemycontext.jsx:311) can never be reached, because all four symbols are
  keys of the table.

## Model

| member | source | states |
|---|---|---|
| Strings.Trim | frontend/src/chemycontext.jsx:234 | the result is a slice of the input with only JavaScript white space outside it, and neither of its ends is white space; it is empty exactly when the input is all white space |
| Strings.TrimIdempotent | frontend/src/chemycontext.jsx:142 | trimming an already trimmed string changes nothing |
| Strings.SplitLines | frontend/src/chemycontext.jsx:140 | split('\n') gives at least one piece, and no piece holds a line break |
| Strings.JoinSplitLines | frontend/src/chemycontext.jsx:140 | joining the pieces of split('\n') with line breaks gives back the text |
| Strings.SplitJoinLines | frontend/src/chemycontext.jsx:140 | splitting lines joined by line breaks gives back those lines |
| Strings.SplitOneLine | frontend/src/chemycontext.jsx:140 | a text without a line break splits into itself alone |
| Strings.SplitLinesCons | frontend/src/chemycontext.jsx:140 | the first piece of x + "\n" + t is x when x holds no break, and the rest are the pieces of t |
| Strings.SplitLinesAppend | frontend/src/chemycontext.jsx:140 | the lines of x + "\n" + y are the lines of x followed by the lines of y |
| Strings.Select | frontend/src/chemycontext.jsx:140-142 | filter-then-map keeps at most as many items, each the image of a kept line |
| Strings.SelectAppend | frontend/src/chemycontext.jsx:140-142 | filter-then-map distributes over concatenation, so item order follows line order |
| Strings.ContainsSpec | frontend/src/chemycontext.jsx:246 | includes(name) holds exactly when name occurs at some position, compared case-sensitively |
| Strings.Leftmost | frontend/src/chemycontext.jsx:233 | a match search returns the first position, in range, before which nothing matches; none means no position matches |
| Decimal.NatToString | frontend/src/chemycontext.jsx:120 | a template-literal integer is a non-empty digit string with no leading zero |
| Decimal.NatToStringValue | frontend/src/chemycontext.jsx:120 | the numeral's digits read back as the number |
| Decimal.NatToStringInjective | frontend/src/chemycontext.jsx:120 | different numbers give different numerals |
| Decimal.FormatFixed | frontend/src/chemycontext.jsx:306-309 | toFixed(places) of the exact decimal v * 10^-places; its shape is given by FixedShape and its value by FixedRoundTrip |
| Decimal.FixedShape | frontend/src/chemycontext.jsx:306-309 | the output has a '-' exactly for a negative value, then a shortest whole numeral, a point and exactly `places` digits |
| Decimal.FixedRoundTrip | frontend/src/chemycontext.jsx:306-309 | toFixed(places) of an exact fixed-point value parses back as that value with that many places |
| Patterns.MarkerAt | frontend/src/chemycontext.jsx:112 | a marker match at q ends after the word POSSIBILITY, its digits and the colon, inside the text |
| Patterns.MarkersDoNotOverlap | frontend/src/chemycontext.jsx:112 | no marker starts inside another one |
| Patterns.SectionEnd | frontend/src/chemycontext.jsx:233 | the lazy body stops at the first header lookahead after the label, or at the end of the text |
| Patterns.FirstOccurrence | frontend/src/chemycontext.jsx:233 | String.match finds the leftmost case-insensitive occurrence of the label, or reports that none exists |
| Patterns.ExtractSection | frontend/src/chemycontext.jsx:232-235 | the section text is trimmed, and is empty when "name:" occurs nowhere |
| Patterns.SectionSpec | frontend/src/chemycontext.jsx:233-234 | given the first label occurrence and the first header after it, the section is exactly the trimmed text between them |
| Patterns.ExtractValue | frontend/src/chemycontext.jsx:237-240 | the value is trimmed, never spans a line break, and is empty when the label occurs nowhere |
| Patterns.ValueSpec | frontend/src/chemycontext.jsx:238-239 | at the first label occurrence, the value is the trimmed rest of that line after the white space following the label |
| Patterns.ExtractThermoToken | frontend/src/chemycontext.jsx:299-302 | a found token is a non-empty run of digits, dots and minus signs, captured at a position where the pattern matches and no earlier position matches; none exactly when no "param:" token occurs |
| Patterns.ThermoAt | frontend/src/chemycontext.jsx:300 | the pattern tried at one position captures a non-empty run of digits, dots and minus signs |
| Patterns.ThermoTokenAt | frontend/src/chemycontext.jsx:299-302 | when the pattern first matches at q, the result is the token captured at q |
| Patterns.PhAt | frontend/src/chemycontext.jsx:289 | the pH pattern tried at one position captures a non-empty text |
| Patterns.ExtractPhToken | frontend/src/chemycontext.jsx:289 | a found pH token is non-empty and captured at the leftmost position where the pattern matches; none exactly when no "pH:" token occurs |
| Patterns.PhTokenAt | frontend/src/chemycontext.jsx:289 | when the pH pattern first matches at q, the result is the text captured at q |
| Segmenter.Segments | frontend/src/chemycontext.jsx:109-114 | no sections for empty content; otherwise the pieces of the marker split after the first one (its contents are given by FirstSection) |
| Segmenter.SegmentCount | frontend/src/chemycontext.jsx:112 | split(marker).slice(1) yields exactly one section per marker |
| Segmenter.NoSegmentsIffNoMarker | frontend/src/chemycontext.jsx:112 | there are no sections exactly when no marker occurs |
| Segmenter.SegmentsMarkerFree | frontend/src/chemycontext.jsx:112 | no section contains a marker |
| Segmenter.PrefixDropped | frontend/src/chemycontext.jsx:112 | the text before the first marker does not change the sections |
| Segmenter.MarkerSplitShift | frontend/src/chemycontext.jsx:112 | splitting from an offset equals splitting the suffix at that offset |
| Segmenter.FirstSection | frontend/src/chemycontext.jsx:112 | the first section is exactly the text between the end of the first marker and the start of the next one (or the end of the text); the other sections are those of the text from that next marker on, and there are none when no marker follows |
| Segmenter.LastPiece | frontend/src/chemycontext.jsx:112 | with no marker from a position on, the split from there is the rest of the text alone |
| Segmenter.NextPiece | frontend/src/chemycontext.jsx:112 | with the next marker at n, the split from e is the text from e to n followed by the sections of the text from n on |
| Segmenter.CutAtMarker | frontend/src/chemycontext.jsx:112 | one cut of the split: the piece up to the next marker, then the split after that marker |
| Segmenter.SectionsFrom | frontend/src/chemycontext.jsx:112 | the sections of a text that starts with a marker are the split pieces after that marker |
| Fields.LineItemsAppend | frontend/src/chemycontext.jsx:244-246 | line items of x + "\n" + y are those of x followed by those of y |
| Fields.LineItemsOne | frontend/src/chemycontext.jsx:244-246 | a single line gives its one item when kept, and nothing otherwise |
| Fields.DashItems | frontend/src/chemycontext.jsx:251-253 | every item is trimmed and is the trimmed remainder of a line starting with '-' |
| Fields.DashLine | frontend/src/chemycontext.jsx:251-253 | a single line gives [trim(line.substring(1))] exactly when it starts with '-' |
| Fields.ExtractMaterials | frontend/src/chemycontext.jsx:249-254 | every material is trimmed |
| Fields.NoMaterialsSection | frontend/src/chemycontext.jsx:249-253 | without a MATERIALS: label the list is empty; the placeholder is never produced |
| Fields.ExtractEquipment | frontend/src/chemycontext.jsx:256-261 | every equipment item is trimmed |
| Fields.NoEquipmentSection | frontend/src/chemycontext.jsx:256-260 | without an EQUIPMENT: label the list is empty; the placeholder is never produced |
| Fields.StripNumber | frontend/src/chemycontext.jsx:267 | on a numbered line the result is a proper suffix that does not start with white space; any other line is unchanged |
| Fields.StripNumberOf | frontend/src/chemycontext.jsx:267 | digits, a point, white space and then text x, where x does not start with white space, strip to exactly x |
| Fields.NumberedForm | frontend/src/chemycontext.jsx:266-267 | every numbered line is digits, a point, white space and then what StripNumber keeps |
| Fields.ProcedureSteps | frontend/src/chemycontext.jsx:265-267 | every step is a numbered line with its number stripped |
| Fields.ExtractProcedure | frontend/src/chemycontext.jsx:263-268 | no step starts with white space |
| Fields.ProcedureLine | frontend/src/chemycontext.jsx:265-267 | a single line gives one step exactly when it is numbered |
| Fields.NoProcedureSection | frontend/src/chemycontext.jsx:263-267 | without a PROCEDURE: label the list is empty; the placeholder is never produced |
| Fields.ExtractAlternatives | frontend/src/chemycontext.jsx:136-143 | every route is trimmed and comes from a numbered line of the "ALTERNATIVE SYNTHESIS ROUTES" section, with its number stripped |
| Fields.NoAlternativesSection | frontend/src/chemycontext.jsx:137-138 | without an "ALTERNATIVE SYNTHESIS ROUTES:" label there are no routes |
| Fields.RouteLineIsNumbered | frontend/src/chemycontext.jsx:141 | a line passes the route filter exactly when it is numbered; the non-blank test adds nothing |
| Fields.ListItems | frontend/src/chemycontext.jsx:244-246 | every item is non-empty, trimmed and does not contain the section name |
| Fields.ExtractList | frontend/src/chemycontext.jsx:242-247 | every safety item is non-empty, trimmed and does not contain the section name |
| Fields.DashRetained | frontend/src/chemycontext.jsx:244-246 | a "- item" line is kept whole, leading dash included |
| Fields.NoListSection | frontend/src/chemycontext.jsx:242-246 | without the section label the list is empty, so the placeholder at line 128 is never produced |
| Fields.Hundredths | frontend/src/chemycontext.jsx:306-309 | a synthesised value lies in its symbol's closed range, in hundredths |
| Fields.HundredthsCover | frontend/src/chemycontext.jsx:306-309 | every value in the range is produced by some draw |
| Fields.Synthesised | frontend/src/chemycontext.jsx:304-311 | the generated value ends with its symbol's unit |
| Fields.SynthesisedReadsBack | frontend/src/chemycontext.jsx:306-309 | a synthesised value carries its unit, and the part before the unit parses as the drawn number with two places |
| Fields.ThermoValue | frontend/src/chemycontext.jsx:272-275 | extracted-or-generated never gives an empty value |
| Fields.ParseThermodynamics | frontend/src/chemycontext.jsx:270-277 | exactly four entries ΔH, ΔS, ΔG, Keq in that order, each with a non-empty value |
| Fields.ThermoValueSpec | frontend/src/chemycontext.jsx:272-275 | the value is the extracted token when there is one, and otherwise the synthesised number with its unit; for ΔH, ΔS and ΔG it ends with the unit exactly when nothing was extracted |
| Fields.KeqLooksExtracted | frontend/src/chemycontext.jsx:309 | a synthesised Keq has no unit and looks like an extracted token |
| Fields.ExtractPH | frontend/src/chemycontext.jsx:288-297 | no pH token gives "6.5-8.2"; a token containing '-' is returned verbatim |
| Fields.TenthsRoundTrip | frontend/src/chemycontext.jsx:295 | parseFloat of a one-decimal numeral gives back its value in tenths |
| Fields.NoDashInTenths | frontend/src/chemycontext.jsx:293 | a formatted non-negative value contains no '-', so it takes the widening branch |
| Fields.SingleValueExpands | frontend/src/chemycontext.jsx:292-296 | a single one-decimal value v is widened to (v-0.2)-(v+0.2) |
| Fields.ParseTenths | frontend/src/chemycontext.jsx:295 | a reading needs a digit or a point at the token's start and stays below 10^10 tenths |
| Fields.ExpandPH | frontend/src/chemycontext.jsx:296 | the range is two numerals joined by '-', which parse back with one decimal as v-0.2 and v+0.2 |
| Fields.ExpandedEnds | frontend/src/chemycontext.jsx:296 | both ends of a widened range parse back as v-0.2 and v+0.2 |
| Fields.SevenExpands | frontend/src/chemycontext.jsx:295-296 | the token "7.0" reads as 70 tenths and widens to "6.8-7.2" |
| Fields.SevenReads | frontend/src/chemycontext.jsx:295 | parseFloat of "7.0" gives 70 tenths |
| Fields.SevenWidens | frontend/src/chemycontext.jsx:296 | 70 tenths widen to "6.8-7.2" |
| Fields.SevenToken | frontend/src/chemycontext.jsx:289 | the text "pH: 7.0" captures the token "7.0" |
| Fields.SevenText | frontend/src/chemycontext.jsx:288-297 | the text "pH: 7.0" gives the range "6.8-7.2", whatever the float rendering |
| Fields.ConditionField | frontend/src/chemycontext.jsx:281-284 | a condition with a non-empty fallback is never empty, and never spans lines |
| Fields.ParseConditions | frontend/src/chemycontext.jsx:279-286 | temperature, pressure and catalyst are never empty |
| Fields.ConditionAbsent | frontend/src/chemycontext.jsx:281-284 | a missing label gives the fallback |
| Fields.ConditionFound | frontend/src/chemycontext.jsx:281-284 | a present label gives the trimmed rest of its line, or the fallback when that is empty |
| Fields.GenerateMetrics | frontend/src/chemycontext.jsx:314-324 | yield and efficiency in 75..94, atom economy in 70..89, cost index Low, Medium or High |
| Fields.MetricsInRange | frontend/src/chemycontext.jsx:318-321 | cost is "$" and a numeral in 100..999, time a numeral in 1..23 and "h", energy efficiency a numeral in 75..94 and "%" |
| Fields.CostCover | frontend/src/chemycontext.jsx:318 | the draw c - 100 gives the cost: "$" followed by the numeral of c |
| Fields.TimeCover | frontend/src/chemycontext.jsx:319 | the draw h - 1 gives the time: the numeral of h followed by "h" |
| Fields.PercentCover | frontend/src/chemycontext.jsx:321 | the draw e - 75 gives the energy efficiency: the numeral of e followed by "%" |
| Fields.MetricsCover | frontend/src/chemycontext.jsx:314-324 | every combination of values in those ranges is produced by some draws |
| Parser.ParseSection | frontend/src/chemycontext.jsx:116-133 | title "Possibility i+1"; name, equation and mechanism are the extracted sections when non-empty and their fallbacks otherwise; the routes are the extracted ones, or the placeholder when none; four thermodynamic entries; conditions, metrics, safety, materials, equipment and procedure are the corresponding extractors' results for this section and record index |
| Parser.ParsePossibilities | frontend/src/chemycontext.jsx:109-116 | one record per marker, and none for empty content |
| Parser.RecordAt | frontend/src/chemycontext.jsx:116 | record i is built from section i with index i |
| Parser.FirstRecord | frontend/src/chemycontext.jsx:111-116 | the first record is ParseSection, with index 0, of the text between the first marker and the next marker or the end |
| Parser.NoMarkerNoRecords | frontend/src/chemycontext.jsx:110-116 | there are no records exactly when the text holds no marker |
| Parser.PreambleIgnored | frontend/src/chemycontext.jsx:112 | dropping the text before the first marker gives the same records |
| Parser.TitlesDistinct | frontend/src/chemycontext.jsx:120 | no two records share a title |
| Parser.RecordTitle | frontend/src/chemycontext.jsx:120 | record i is titled "Possibility i+1" |
| Parser.MetricsIgnoreText | frontend/src/chemycontext.jsx:127 | a record's metrics depend only on the draws, not on the text |
| Chemy.AlternatesAppend | frontend/src/chemycontext.jsx:166-198 | appending a user message and a non-user reply keeps the history alternating |
| Chemy.ChemyProvider.constructor | frontend/src/chemycontext.jsx:49-54 | an empty, idle provider that satisfies the invariant |
| Chemy.ChemyProvider.ChemyLogic | frontend/src/chemycontext.jsx:145-203 | appends the user message and then the reply or error message; a string reply with records replaces possibilities and lastResponse and clears the error; otherwise the error is "Error: " plus the reason, and possibilities and lastResponse are kept; loading ends false; the invariant is kept |
| Chemy.ChemyProvider.ClearHistory | frontend/src/chemycontext.jsx:205-211 | history, lastResponse, error, possibilities and selection are all reset |
| Chemy.ChemyProvider.SelectPossibility | frontend/src/chemycontext.jsx:53 | sets the selection and nothing else |
| Chemy.AcceptedIffMarker | frontend/src/chemycontext.jsx:180-183 | a reply is accepted exactly when it holds a marker |
| Research.Remember | frontend/src/researchlab.jsx:129 | the new paper comes first, followed by at most four earlier ones in order; at most five in all |
| Research.RememberAllBounded | frontend/src/researchlab.jsx:129 | the history never exceeds five papers |
| Research.RememberAllRecent | frontend/src/researchlab.jsx:129 | after a run of generations the history is the five newest papers, newest first |
| Research.FindById | frontend/src/researchlab.jsx:200 | a found paper is in the history with that id; none exactly when no entry has the id |
| Research.FindByIdFirst | frontend/src/researchlab.jsx:200 | find returns the earliest entry with the id |
| Research.PageCount | frontend/src/researchlab.jsx:170-182 | a document always has at least one page |
| Research.Step | frontend/src/researchlab.jsx:175-181 | a new page starts exactly when y has passed 280, and the line then goes at y = 20 |
| Research.YInRange | frontend/src/researchlab.jsx:175-181 | every line is drawn between y = 20 and y = 280 |
| Research.NextLine | frontend/src/researchlab.jsx:175-181 | consecutive lines are 7 apart on the same page, or the next starts a new page at 20 exactly when y + 7 would pass 280 |
| Research.Paginate | frontend/src/researchlab.jsx:170-182 | line i is placed at page PageOf(i) and height YOf(i); the final page counter is PageCount(n) |
| Research.Footers | frontend/src/researchlab.jsx:185-189 | one "Page p of N" footer at y = 285 for each page, in order |
| Research.Layout | frontend/src/researchlab.jsx:152-192 | title "Research Paper: topic", the paginated body, the footers, and the file name with the topic's first 20 characters |
| Research.ResearchProvider.constructor | frontend/src/researchlab.jsx:78-82 | an idle provider with no paper, no error and an empty history |
| Research.ResearchProvider.PdfLoaded | frontend/src/researchlab.jsx:85-94 | the PDF library becomes ready |
| Research.ResearchProvider.GenerateResearchPaper | frontend/src/researchlab.jsx:96-138 | a blank topic sets "Please enter a research topic" and changes nothing else; success stores the paper, clears the error and pushes it onto the 5-entry history; failure sets the failure message and keeps paper and history; loading ends false |
| Research.ResearchProvider.LoadFromHistory | frontend/src/researchlab.jsx:199-204 | selects the paper with that id when the history has one, and otherwise changes nothing |
| Research.ResearchProvider.DownloadPdf | frontend/src/researchlab.jsx:140-197 | without a paper or a ready library, sets the error and gives no document; otherwise gives the laid-out document and leaves the error as it was |

## Left out

- Network, backend and storage. The `backend.chat`, `backend.save_material` and
  `backend.get_materials` calls and `localStorage` are I/O; their results are parameters.
  confirmMaterial and loadMaterials only forward data to them, so they are not modelled.
- Prompts. The prompt texts are constants sent to the backend and are not modelled.
- React concurrency. Each provider method is one atomic step. The updates a React state
  setter queues while an `await` is pending are not modelled, and neither are interleaved
  calls.
- Clocks. `new Date().toISOString()` and `Date.now()` are string parameters.
- jsPDF. `splitTextToSize`, fonts, metadata and drawing are not modelled; the split lines
  are a parameter. The "Failed to create PDF" catch (frontend/src/researchlab.jsx:193-196)
  is not modelled, because it depends on the library throwing.
- Script loading. `PdfLoaded` stands for the script's onload; the DOM is not modelled.
- Fields.GenerateMetrics: does not model the floating-point edge where `Math.random()`
  returns 1 - 2^-53, because draws are integers reduced modulo the number of outcomes. At
  that draw yield, efficiency and energy efficiency can round up to 95
  (frontend/src/chemycontext.jsx:316, 317 and 321), and atom economy to 90
  (frontend/src/chemycontext.jsx:320).
- Fields.Hundredths: float rounding in `toFixed(2)` is modelled as a uniform choice of
  hundredths in the closed range; the exact distribution of `Math.random` is not.
- Fields.ExtractPH: parseFloat and toFixed(1) are modelled exactly only for the tokens that
  `Fields.ParseTenths` accepts. Such a token starts with digits, an optional point and more
  digits, with at least one digit in all. It has at most one significant decimal and a
  whole part below 10^9. Trailing text is ignored, as parseFloat ignores it, so "1.2.3"
  reads as 1.2. Other tokens without a '-', such as "7.25", "." or "0.05", go through the
  `phFloat` parameter. A token containing '-' is returned as it is.
- Research.Layout: `substring(0, 20)` counts UTF-16 code units; the model counts characters.
- Research.ResearchProvider.GenerateResearchPaper: a failed generation returns None instead
  of rethrowing the error to its caller.
- The UI components (chat box, tabs, composer and lab views) only display provider state;
  they are not part of this model.
- The alternative split at frontend/src/chemycontext.jsx:113-114 is never evaluated, because
  `slice(1)` always returns an array, which is truthy. It is therefore left out.
