/** The research-paper provider: a topic-guarded generation step that keeps
    the five most recent papers, selection from that history, and the PDF
    export's page layout. */
module Research {
  import opened Strings
  import opened Decimal

  datatype Paper = Paper(content: string, topic: string, date: string, id: string)

  /** What awaiting backend.chat gives: the paper's text, or a rejection. */
  datatype Outcome = Generated(content: string) | Failed

  const BlankTopic := "Please enter a research topic"
  const GenerationFailed := "Failed to generate research paper. Please try again."
  const NothingToDownload := "No research paper to download or PDF library not loaded"

  function Min(a: nat, b: nat): nat { if a <= b then a else b }

  // ---- history ----------------------------------------------------------

  /** [paper, ...prev.slice(0, 4)] */
  function Remember(h: seq<Paper>, p: Paper): (r: seq<Paper>)
    ensures |r| == Min(|h| + 1, 5) && r[0] == p
    ensures forall k :: 1 <= k < |r| ==> r[k] == h[k - 1]
  {
    [p] + h[..Min(4, |h|)]
  }

  function Reverse(s: seq<Paper>): (r: seq<Paper>)
    ensures |r| == |s|
  {
    if s == [] then [] else Reverse(s[1..]) + [s[0]]
  }

  /** The history after generating `ps` in order, starting from `h`. */
  function RememberAll(h: seq<Paper>, ps: seq<Paper>): seq<Paper>
    decreases |ps|
  {
    if ps == [] then h else RememberAll(Remember(h, ps[0]), ps[1..])
  }

  /** The history is never longer than five. */
  lemma {:induction false} RememberAllBounded(h: seq<Paper>, ps: seq<Paper>)
    requires |h| <= 5
    ensures |RememberAll(h, ps)| <= 5
    decreases |ps|
  {
    if ps != [] {
      RememberAllBounded(Remember(h, ps[0]), ps[1..]);
    }
  }

  /** The history holds the five most recent papers, newest first. */
  lemma {:induction false} RememberAllRecent(h: seq<Paper>, ps: seq<Paper>)
    ensures var all := Reverse(ps) + h;
            RememberAll(h, ps) == if |ps| == 0 then h else all[..Min(|all|, 5)]
    decreases |ps|
  {
    if ps != [] {
      var h1 := Remember(h, ps[0]);
      var rest := ps[1..];
      RememberAllRecent(h1, rest);
      var all := Reverse(ps) + h;
      assert Reverse(ps) == Reverse(rest) + [ps[0]];
      var all1 := Reverse(rest) + h1;
      var n := Min(|all|, 5);
      if rest == [] {
        assert RememberAll(h, ps) == h1;
        assert all == [ps[0]] + h;
        assert h1 == all[..n];
      } else {
        assert RememberAll(h, ps) == all1[..Min(|all1|, 5)];
        var m := Min(|all1|, 5);
        assert m == n by {
          assert |all1| == |rest| + Min(|h| + 1, 5);
          assert |all| == |rest| + 1 + |h|;
        }
        forall k | 0 <= k < n ensures all1[k] == all[k] {
          if k < |rest| {
            assert all1[k] == Reverse(rest)[k];
            assert all[k] == Reverse(rest)[k];
          } else {
            assert all1[k] == h1[k - |rest|];
            assert all[k] == ([ps[0]] + h)[k - |rest|];
          }
        }
      }
    }
  }

  /** history.find(item => item.id === id) */
  function FindById(h: seq<Paper>, id: string): (r: Option<Paper>)
    ensures r.Some? ==> r.value in h && r.value.id == id
    ensures r.None? <==> forall k :: 0 <= k < |h| ==> h[k].id != id
    decreases |h|
  {
    if h == [] then None
    else if h[0].id == id then Some(h[0])
    else FindById(h[1..], id)
  }

  /** find returns the earliest entry with that id. */
  lemma {:induction false} FindByIdFirst(h: seq<Paper>, id: string, k: nat)
    requires k < |h| && h[k].id == id
    requires forall j :: 0 <= j < k ==> h[j].id != id
    ensures FindById(h, id) == Some(h[k])
    decreases k
  {
    if k > 0 {
      FindByIdFirst(h[1..], id, k - 1);
    }
  }

  // ---- PDF layout -------------------------------------------------------

  /** One doc.text call: a line drawn at height y of a page. */
  datatype Placement = Placement(page: nat, y: nat, line: string)

  datatype PdfDoc = PdfDoc(title: string, body: seq<Placement>, footers: seq<Placement>, fileName: string)

  /** Page 1 starts at y = 30 and takes 36 lines (the 37th would start at
      282); every later page starts at y = 20 and takes 38 (the 39th would
      start at 286). */
  const FirstPageLines: nat := 36
  const PageLines: nat := 38

  /** The page line i lands on. */
  function PageOf(i: nat): (p: nat)
    ensures p >= 1
  {
    if i < FirstPageLines then 1 else 2 + (i - FirstPageLines) / PageLines
  }

  /** The height line i is drawn at. */
  function YOf(i: nat): nat {
    if i < FirstPageLines then 30 + 7 * i else 20 + 7 * ((i - FirstPageLines) % PageLines)
  }

  /** The number of pages n lines take; at least one, even for none. */
  function PageCount(n: nat): (c: nat)
    ensures c >= 1
  {
    if n <= FirstPageLines then 1 else 2 + (n - FirstPageLines - 1) / PageLines
  }

  /** The value of y before line i is drawn. */
  function YBefore(i: nat): nat {
    if i == 0 then 30 else YOf(i - 1) + 7
  }

  /** One turn of the loop: a new page starts exactly when y has passed 280,
      and the line then goes at the top of it. */
  lemma Step(i: nat)
    ensures YBefore(i) > 280 ==> PageOf(i) == PageCount(i) + 1 && YOf(i) == 20
    ensures YBefore(i) <= 280 ==> PageOf(i) == PageCount(i) && YOf(i) == YBefore(i)
    ensures PageCount(i + 1) == PageOf(i)
  {
    if i >= FirstPageLines + 1 {
      var j := i - FirstPageLines;
      var q, r := (j - 1) / PageLines, (j - 1) % PageLines;
      assert j - 1 == q * PageLines + r;
      if r == PageLines - 1 {
        assert j == (q + 1) * PageLines;
        assert j / PageLines == q + 1 && j % PageLines == 0;
      } else {
        assert j == q * PageLines + (r + 1);
        assert j / PageLines == q && j % PageLines == r + 1;
      }
    }
  }

  /** Every line sits between y = 20 and y = 280. */
  lemma YInRange(i: nat)
    ensures 20 <= YOf(i) <= 280
  {
  }

  /** Lines go down a page 7 units at a time, and a page ends exactly when
      the next line would pass 280. */
  lemma NextLine(i: nat)
    ensures PageOf(i + 1) == PageOf(i) || PageOf(i + 1) == PageOf(i) + 1
    ensures PageOf(i + 1) == PageOf(i) + 1 <==> YOf(i) + 7 > 280
    ensures PageOf(i + 1) == PageOf(i) ==> YOf(i + 1) == YOf(i) + 7
    ensures PageOf(i + 1) == PageOf(i) + 1 ==> YOf(i + 1) == 20
  {
    Step(i);
    Step(i + 1);
  }

  /** The text loop of downloadPDF over splitText: where each line goes, and
      the final page counter. */
  method Paginate(lines: seq<string>) returns (placed: seq<Placement>, pages: nat)
    ensures |placed| == |lines|
    ensures forall i :: 0 <= i < |lines| ==> placed[i] == Placement(PageOf(i), YOf(i), lines[i])
    ensures pages == PageCount(|lines|)
  {
    var y: nat := 30;
    var page: nat := 1;
    placed := [];
    for i := 0 to |lines|
      invariant |placed| == i
      invariant forall k :: 0 <= k < i ==> placed[k] == Placement(PageOf(k), YOf(k), lines[k])
      invariant y == YBefore(i) && page == PageCount(i)
    {
      Step(i);
      if y > 280 {
        y := 20;
        page := page + 1;
      }
      placed := placed + [Placement(page, y, lines[i])];
      y := y + 7;
    }
    pages := page;
  }

  /** `Page ${p} of ${page}` */
  function FooterText(p: nat, n: nat): string {
    "Page " + NatToString(p) + " of " + NatToString(n)
  }

  /** The footer loop: one footer per page, pages 1 to n in order. */
  method Footers(n: nat) returns (fs: seq<Placement>)
    ensures |fs| == n
    ensures forall k :: 0 <= k < n ==> fs[k] == Placement(k + 1, 285, FooterText(k + 1, n))
  {
    fs := [];
    var p := 1;
    while p <= n
      invariant 1 <= p <= n + 1 && |fs| == p - 1
      invariant forall k :: 0 <= k < p - 1 ==> fs[k] == Placement(k + 1, 285, FooterText(k + 1, n))
    {
      fs := fs + [Placement(p, 285, FooterText(p, n))];
      p := p + 1;
    }
  }

  /** The laid-out document for a paper whose text splits into `lines`. */
  method Layout(paper: Paper, lines: seq<string>) returns (doc: PdfDoc)
    ensures doc.title == "Research Paper: " + paper.topic
    ensures |doc.body| == |lines|
    ensures forall i :: 0 <= i < |lines| ==> doc.body[i] == Placement(PageOf(i), YOf(i), lines[i])
    ensures |doc.footers| == PageCount(|lines|)
    ensures forall k :: 0 <= k < |doc.footers| ==>
              doc.footers[k] == Placement(k + 1, 285, FooterText(k + 1, PageCount(|lines|)))
    ensures doc.fileName == "research_paper_" + paper.topic[..Min(20, |paper.topic|)] + ".pdf"
  {
    var placed, pages := Paginate(lines);
    var footers := Footers(pages);
    doc := PdfDoc("Research Paper: " + paper.topic, placed, footers,
                  "research_paper_" + paper.topic[..Min(20, |paper.topic|)] + ".pdf");
  }

  // ---- the provider -----------------------------------------------------

  class ResearchProvider {
    var isLoading: bool
    var researchPaper: Option<Paper>
    var error: Option<string>
    var history: seq<Paper>
    var isPDFReady: bool

    ghost predicate Valid()
      reads this
    {
      |history| <= 5
    }

    constructor ()
      ensures Valid()
      ensures !isLoading && researchPaper == None && error == None && history == [] && !isPDFReady
    {
      isLoading := false;
      researchPaper := None;
      error := None;
      history := [];
      isPDFReady := false;
    }

    /** The script's onload (or an already loaded library) marks jsPDF ready. */
    method PdfLoaded()
      requires Valid()
      modifies this`isPDFReady
      ensures Valid() && isPDFReady
    {
      isPDFReady := true;
    }

    /** generateResearchPaper(topic): `outcome` is what the backend gives,
        `date` and `id` the two readings of the clock. */
    method GenerateResearchPaper(topic: string, outcome: Outcome, date: string, id: string)
      returns (r: Option<Paper>)
      requires Valid()
      modifies this
      ensures Valid() && isPDFReady == old(isPDFReady)
      ensures Trim(topic) == "" ==>
                && r == None && error == Some(BlankTopic)
                && researchPaper == old(researchPaper) && history == old(history)
                && isLoading == old(isLoading)
      ensures Trim(topic) != "" ==> !isLoading
      ensures Trim(topic) != "" && outcome.Generated? ==>
                && r == Some(Paper(outcome.content, topic, date, id))
                && researchPaper == r && error == None
                && history == Remember(old(history), r.value)
      ensures Trim(topic) != "" && outcome.Failed? ==>
                && r == None && error == Some(GenerationFailed)
                && researchPaper == old(researchPaper) && history == old(history)
    {
      if Trim(topic) == "" {
        error := Some(BlankTopic);
        return None;
      }
      isLoading := true;
      error := None;
      match outcome {
        case Generated(content) =>
          var paper := Paper(content, topic, date, id);
          researchPaper := Some(paper);
          history := Remember(history, paper);
          r := Some(paper);
        case Failed =>
          error := Some(GenerationFailed);
          r := None;
      }
      isLoading := false;
    }

    /** loadFromHistory(id) */
    method LoadFromHistory(id: string)
      requires Valid()
      modifies this`researchPaper
      ensures Valid()
      ensures researchPaper == if FindById(history, id).Some? then FindById(history, id) else old(researchPaper)
    {
      var found := FindById(history, id);
      if found.Some? {
        researchPaper := found;
      }
    }

    /** downloadPDF with jsPDF's splitTextToSize(content, 180) given as
        `lines`: the document it would save, or the error. */
    method DownloadPdf(lines: seq<string>) returns (doc: Option<PdfDoc>)
      requires Valid()
      modifies this`error
      ensures Valid()
      ensures researchPaper.None? || !isPDFReady ==> doc == None && error == Some(NothingToDownload)
      ensures researchPaper.Some? && isPDFReady ==>
                && doc.Some? && error == old(error)
                && doc.value.title == "Research Paper: " + researchPaper.value.topic
                && |doc.value.body| == |lines|
                && (forall i :: 0 <= i < |lines| ==> doc.value.body[i] == Placement(PageOf(i), YOf(i), lines[i]))
                && |doc.value.footers| == PageCount(|lines|)
                && (forall k :: 0 <= k < |doc.value.footers| ==>
                      doc.value.footers[k] == Placement(k + 1, 285, FooterText(k + 1, PageCount(|lines|))))
                && doc.value.fileName == "research_paper_" + researchPaper.value.topic[..Min(20, |researchPaper.value.topic|)] + ".pdf"
    {
      if researchPaper.None? || !isPDFReady {
        error := Some(NothingToDownload);
        return None;
      }
      var d := Layout(researchPaper.value, lines);
      doc := Some(d);
    }
  }
}
