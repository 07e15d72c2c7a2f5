/**
 * The response-sheet engine's entry points: which exam pattern a sheet belongs to, the whole
 * parse from page to scorecard, and the questions shown for one section.
 */
module ResponseSheet {
  import opened Wrappers
  import opened Strings
  import opened SheetTypes
  import BaseUrl
  import CandidateInfoExtraction
  import QuestionExtraction
  import Scoring

  // ---------------------------------------------------------------------------
  // Exam pattern

  /** The candidate's lower-cased subject line, "" when no candidate record was found. */
  function SubjectLine(info: Option<CandidateInfo>): string {
    if info.Some? then Lower(info.value.subject) else ""
  }

  /** The page belongs to the RRB NTPC pattern. */
  predicate IsRrbSheet(info: Option<CandidateInfo>, html: string) {
    var subject := SubjectLine(info);
    Contains(subject, "rrb") || Contains(subject, "ntpc") || Contains(html, "rrb.digialm.com")
  }

  /** `detectExamType`: RRB NTPC when the subject names RRB or NTPC or the page mentions the RRB host; SSC CGL Mains otherwise. */
  function DetectExamType(info: Option<CandidateInfo>, html: string): (cfg: ExamConfig)
    ensures cfg == RrbNtpc || cfg == SscCgl
    ensures cfg == RrbNtpc <==> IsRrbSheet(info, html)
  {
    if IsRrbSheet(info, html) then RrbNtpc else SscCgl
  }

  /** Detection ignores the case of the subject line. */
  lemma DetectIgnoresSubjectCase(c: CandidateInfo, html: string)
    ensures DetectExamType(Some(c), html) == DetectExamType(Some(c.(subject := Lower(c.subject))), html)
  {
    LowerIdempotent(c.subject);
  }

  /** A page whose base URL fell back to the RRB host is always scored on the RRB NTPC pattern. */
  lemma RrbHostMeansRrbPattern(info: Option<CandidateInfo>, html: string)
    requires BaseUrl.ExtractBaseUrl(html) == BaseUrl.RrbHost
    ensures DetectExamType(info, html) == RrbNtpc
  {
    assert !StartsWith(BaseUrl.RrbHost, BaseUrl.SscHost) by {
      assert BaseUrl.RrbHost[8] != BaseUrl.SscHost[8];
    }
  }

  // ---------------------------------------------------------------------------
  // The whole parse

  /** `parseSSCHtml`: the page's text gives the base URL and the exam type, its parsed document the candidate and the questions. */
  function ParseSscHtml(html: string, doc: Document): (d: ScorecardData)
    ensures d.baseUrl == BaseUrl.ExtractBaseUrl(html)
    ensures d.candidateInfo == CandidateInfoExtraction.ExtractCandidateInfo(doc.tables)
    ensures d.examConfig == DetectExamType(d.candidateInfo, html)
    ensures d.questions == QuestionExtraction.ExtractQuestions(doc.questionCells, d.baseUrl)
    ensures |d.questions| == |QuestionExtraction.CompleteCells(doc.questionCells)|
    ensures d == Scoring.CalculateScorecard(d.questions, d.baseUrl, d.candidateInfo, d.examConfig)
  {
    var baseUrl := BaseUrl.ExtractBaseUrl(html);
    var info := CandidateInfoExtraction.ExtractCandidateInfo(doc.tables);
    var cfg := DetectExamType(info, html);
    var questions := QuestionExtraction.ExtractQuestions(doc.questionCells, baseUrl);
    QuestionExtraction.NumberFromLength(doc.questionCells, 0);
    Scoring.CalculateScorecard(questions, baseUrl, info, cfg)
  }

  /** Extracted questions are numbered 1, 2, ... and are marked correct only when a positive option was chosen. */
  lemma ExtractedQuestionsWellFormed(cells: seq<QuestionCell>, baseUrl: string)
    ensures Scoring.WellFormed(QuestionExtraction.ExtractQuestions(cells, baseUrl))
  {
    var qs := QuestionExtraction.ExtractQuestions(cells, baseUrl);
    QuestionExtraction.ExtractQuestionsNumbers(cells, baseUrl);
    forall k | 0 <= k < |qs| ensures Scoring.CorrectIsChosen(qs[k]) && qs[k].questionNumber == k + 1 {
      var c := QuestionExtraction.CompleteCells(cells)[k];
      assert qs[k] == QuestionExtraction.QuestionOf(c, k + 1, baseUrl);
    }
  }

  /** On a parsed sheet no section result has a negative count. */
  lemma ParsedCountsNonNegative(html: string, doc: Document)
    ensures var d := ParseSscHtml(html, doc);
            forall k :: 0 <= k < |d.sections| ==> d.sections[k].correct >= 0 && d.sections[k].wrong >= 0 && d.sections[k].skipped >= 0
  {
    var d := ParseSscHtml(html, doc);
    ExtractedQuestionsWellFormed(doc.questionCells, d.baseUrl);
    Scoring.BuiltInRangesOrdered();
    Scoring.ScorecardCountsNonNegative(d.questions, d.baseUrl, d.candidateInfo, d.examConfig);
  }

  /** Whatever the page, correct + wrong + skipped over the counted sections is the pattern's question count. */
  lemma ParsedTotals(html: string, doc: Document)
    ensures var d := ParseSscHtml(html, doc);
            d.totalCorrect + d.totalWrong + d.totalSkipped == (if d.examConfig == RrbNtpc then 100 else 130)
  {
    var d := ParseSscHtml(html, doc);
    Scoring.ScorecardTotals(d.questions, d.baseUrl, d.candidateInfo, d.examConfig);
    Scoring.CglMainsCountedSize();
    Scoring.RrbNtpcCountedSize();
  }

  /** A page without a single complete question cell scores nothing and counts every question as skipped. */
  lemma EmptySheetAllSkipped(html: string, doc: Document)
    requires forall k :: 0 <= k < |doc.questionCells| ==> !QuestionExtraction.IsComplete(doc.questionCells[k])
    ensures var d := ParseSscHtml(html, doc);
            d.questions == [] && d.totalCorrect == 0 && d.totalWrong == 0 && d.totalScore == 0.0
            && d.totalSkipped == (if d.examConfig == RrbNtpc then 100 else 130)
  {
    var d := ParseSscHtml(html, doc);
    QuestionExtraction.NoCompleteCells(doc.questionCells);
    assert |d.questions| == 0;
    Scoring.ScorecardOfNoQuestions(d.baseUrl, d.candidateInfo, d.examConfig);
    Scoring.CglMainsCountedSize();
    Scoring.RrbNtpcCountedSize();
  }

  // ---------------------------------------------------------------------------
  // The questions of one section, for display

  /** Index of the first section of the pattern with the given part label. */
  function FindPart(secs: seq<SectionConfig>, part: string): (r: Option<nat>)
    ensures r.None? <==> forall k :: 0 <= k < |secs| ==> secs[k].part != part
    ensures r.Some? ==> r.value < |secs| && secs[r.value].part == part
    ensures r.Some? ==> forall k :: 0 <= k < r.value ==> secs[k].part != part
  {
    if |secs| == 0 then None
    else if secs[0].part == part then Some(0)
    else
      var r := FindPart(secs[1..], part);
      if r.Some? then Some(r.value + 1) else None
  }

  /** `getQuestionsForSection`: the questions in the range of the first section with that part, none for an unknown part. */
  function GetQuestionsForSection(d: ScorecardData, part: string): (r: seq<QuestionResult>)
    ensures (forall k :: 0 <= k < |d.examConfig.sections| ==> d.examConfig.sections[k].part != part) ==> r == []
    ensures forall k :: 0 <= k < |d.examConfig.sections| && d.examConfig.sections[k].part == part
                        && (forall j :: 0 <= j < k ==> d.examConfig.sections[j].part != part) ==>
              r == Scoring.SectionQuestions(d.questions, d.examConfig.sections[k])
              && forall q :: q in r <==> q in d.questions && Scoring.InSection(q, d.examConfig.sections[k])
    ensures forall q :: q in r ==> q in d.questions
    ensures forall q :: q in r ==> exists k :: 0 <= k < |d.examConfig.sections| && d.examConfig.sections[k].part == part
                                                && Scoring.InSection(q, d.examConfig.sections[k])
  {
    var i := FindPart(d.examConfig.sections, part);
    if i.None? then [] else Scoring.SectionQuestions(d.questions, d.examConfig.sections[i.value])
  }

  /** The section view keeps document order: viewing two runs of questions is viewing each run in turn. */
  lemma SectionViewKeepsOrder(d: ScorecardData, part: string, a: seq<QuestionResult>, b: seq<QuestionResult>)
    requires d.questions == a + b
    ensures GetQuestionsForSection(d, part)
            == GetQuestionsForSection(d.(questions := a), part) + GetQuestionsForSection(d.(questions := b), part)
  {
    var i := FindPart(d.examConfig.sections, part);
    if i.Some? {
      Scoring.SectionQuestionsAppend(a, b, d.examConfig.sections[i.value]);
    }
  }

  /**
   * The questions shown for a section have the correct and answered counts of the breakdown
   * the scorecard reports for it: a counted section's entry in `sections`, or the qualifying
   * result when it is the last qualifying section.
   */
  lemma SectionViewMatchesBreakdown(qs: seq<QuestionResult>, baseUrl: string, info: Option<CandidateInfo>, cfg: ExamConfig, k: nat)
    requires k < |cfg.sections|
    requires forall j :: 0 <= j < k ==> cfg.sections[j].part != cfg.sections[k].part
    ensures var d := Scoring.CalculateScorecard(qs, baseUrl, info, cfg);
            var shown := GetQuestionsForSection(d, cfg.sections[k].part);
            !cfg.sections[k].qualifying ==>
              exists j :: 0 <= j < |d.sections| && d.sections[j].part == cfg.sections[k].part
                          && Scoring.CountCorrect(shown) == d.sections[j].correct
                          && Scoring.CountAnswered(shown) == d.sections[j].correct + d.sections[j].wrong
    ensures var d := Scoring.CalculateScorecard(qs, baseUrl, info, cfg);
            var shown := GetQuestionsForSection(d, cfg.sections[k].part);
            cfg.sections[k].qualifying && (forall k' :: k < k' < |cfg.sections| ==> !cfg.sections[k'].qualifying) ==>
              d.qualifyingSection.Some?
              && Scoring.CountCorrect(shown) == d.qualifyingSection.value.correct
              && Scoring.CountAnswered(shown) == d.qualifyingSection.value.correct + d.qualifyingSection.value.wrong
  {
    if cfg.sections[k].qualifying {
      if forall k' :: k < k' < |cfg.sections| ==> !cfg.sections[k'].qualifying {
        QualifyingViewMatches(qs, baseUrl, info, cfg, k);
      }
    } else {
      CountedViewMatches(qs, baseUrl, info, cfg, k);
    }
  }

  /** A counted section's view matches its entry among the scorecard's sections. */
  lemma CountedViewMatches(qs: seq<QuestionResult>, baseUrl: string, info: Option<CandidateInfo>, cfg: ExamConfig, k: nat)
    requires k < |cfg.sections| && !cfg.sections[k].qualifying
    requires forall j :: 0 <= j < k ==> cfg.sections[j].part != cfg.sections[k].part
    ensures var d := Scoring.CalculateScorecard(qs, baseUrl, info, cfg);
            var shown := GetQuestionsForSection(d, cfg.sections[k].part);
            exists j :: 0 <= j < |d.sections| && d.sections[j].part == cfg.sections[k].part
                        && Scoring.CountCorrect(shown) == d.sections[j].correct
                        && Scoring.CountAnswered(shown) == d.sections[j].correct + d.sections[j].wrong
  {
    var d := Scoring.CalculateScorecard(qs, baseUrl, info, cfg);
    var sec := cfg.sections[k];
    FirstPartView(d, k);
    var j := Scoring.CountedIndex(cfg.sections, k);
    Scoring.ScoreSectionsCounted(qs, cfg.sections);
    assert d.sections[j] == Scoring.ScoreSection(qs, sec);
  }

  /** The view of the first section with a part is that section's range filter. */
  lemma FirstPartView(d: ScorecardData, k: nat)
    requires k < |d.examConfig.sections|
    requires forall j :: 0 <= j < k ==> d.examConfig.sections[j].part != d.examConfig.sections[k].part
    ensures GetQuestionsForSection(d, d.examConfig.sections[k].part) == Scoring.SectionQuestions(d.questions, d.examConfig.sections[k])
  {
  }

  /** The last qualifying section's view matches the scorecard's qualifying result. */
  lemma QualifyingViewMatches(qs: seq<QuestionResult>, baseUrl: string, info: Option<CandidateInfo>, cfg: ExamConfig, k: nat)
    requires k < |cfg.sections| && cfg.sections[k].qualifying
    requires forall k' :: k < k' < |cfg.sections| ==> !cfg.sections[k'].qualifying
    requires forall j :: 0 <= j < k ==> cfg.sections[j].part != cfg.sections[k].part
    ensures var d := Scoring.CalculateScorecard(qs, baseUrl, info, cfg);
            var shown := GetQuestionsForSection(d, cfg.sections[k].part);
            d.qualifyingSection.Some?
            && Scoring.CountCorrect(shown) == d.qualifyingSection.value.correct
            && Scoring.CountAnswered(shown) == d.qualifyingSection.value.correct + d.qualifyingSection.value.wrong
  {
    FirstPartView(Scoring.CalculateScorecard(qs, baseUrl, info, cfg), k);
    Scoring.ScoreSectionsQualifying(qs, cfg.sections, k);
  }

}
