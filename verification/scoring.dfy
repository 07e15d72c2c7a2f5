/**
 * Scoring: each section of the exam pattern takes the extracted questions whose overall number
 * falls in its range, counts the correct and the answered ones, and scores
 * `correct * marksPerCorrect - wrong * negativePerWrong`, rounded to two decimals. A qualifying
 * section is scored but kept apart; the totals add up the other sections only.
 *
 * Marks are exact reals: JavaScript's binary floating point is not modelled, only its
 * `Math.round(x * 100) / 100` rounding rule.
 */
module Scoring {
  import opened Wrappers
  import opened SheetTypes

  // ---------------------------------------------------------------------------
  // Rounding to cents

  /** A whole number of cents. */
  predicate IsCents(x: real) {
    (100.0 * x).Floor as real == 100.0 * x
  }

  /** `Math.round(x * 100) / 100`: `Math.round` rounds halves up, i.e. it is `floor(y + 0.5)`. */
  function Round2(x: real): (r: real)
    ensures IsCents(r)
    ensures x - 0.005 < r <= x + 0.005
  {
    ((100.0 * x + 0.5).Floor as real) / 100.0
  }

  /** The rounded value is the only whole number of cents within half a cent, rounding up at the midpoint. */
  lemma Round2Unique(x: real, r: real)
    requires IsCents(r) && x - 0.005 < r <= x + 0.005
    ensures r == Round2(x)
  {
    var m := (100.0 * r).Floor;
    var n := (100.0 * x + 0.5).Floor;
    assert 100.0 * x - 0.5 < m as real <= 100.0 * x + 0.5;
    assert m == n;
  }

  /** A whole number of cents is left unchanged by rounding. */
  lemma Round2Cents(n: int)
    ensures Round2(n as real / 100.0) == n as real / 100.0
  {
    assert 100.0 * (n as real / 100.0) + 0.5 == n as real + 0.5;
    assert (n as real + 0.5).Floor == n;
  }

  /** Rounding twice is rounding once: a section score re-rounded inside the total is unchanged. */
  lemma Round2Idempotent(x: real)
    ensures Round2(Round2(x)) == Round2(x)
  {
    Round2Cents((100.0 * x + 0.5).Floor);
  }

  /** Rounding is monotone. */
  lemma Round2Monotone(x: real, y: real)
    requires x <= y
    ensures Round2(x) <= Round2(y)
  {
    assert (100.0 * x + 0.5).Floor <= (100.0 * y + 0.5).Floor;
  }

  // ---------------------------------------------------------------------------
  // The questions of one section

  /** The question's overall number lies in the section's inclusive range. */
  predicate InSection(q: QuestionResult, sec: SectionConfig) {
    sec.start <= q.questionNumber <= sec.end
  }

  /** `questions.filter(q => q.questionNumber >= start && q.questionNumber <= end)`. */
  function SectionQuestions(qs: seq<QuestionResult>, sec: SectionConfig): (r: seq<QuestionResult>)
    ensures |r| <= |qs|
    ensures forall q :: q in r <==> q in qs && InSection(q, sec)
  {
    if |qs| == 0 then []
    else (if InSection(qs[0], sec) then [qs[0]] else []) + SectionQuestions(qs[1..], sec)
  }

  /** Filtering distributes over concatenation: document order is kept. */
  lemma {:induction false} SectionQuestionsAppend(a: seq<QuestionResult>, b: seq<QuestionResult>, sec: SectionConfig)
    ensures SectionQuestions(a + b, sec) == SectionQuestions(a, sec) + SectionQuestions(b, sec)
  {
    if |a| == 0 {
      assert a + b == b;
    } else {
      assert (a + b)[1..] == a[1..] + b;
      SectionQuestionsAppend(a[1..], b, sec);
    }
  }

  /** Attempted: the status says "Answered" or a positive option was chosen. */
  predicate IsAnswered(q: QuestionResult) {
    q.status == "Answered" || (q.chosenOption.Some? && q.chosenOption.value > 0)
  }

  function CountCorrect(qs: seq<QuestionResult>): (n: nat)
    ensures n <= |qs|
  {
    if |qs| == 0 then 0 else (if qs[0].isCorrect then 1 else 0) + CountCorrect(qs[1..])
  }

  function CountAnswered(qs: seq<QuestionResult>): (n: nat)
    ensures n <= |qs|
  {
    if |qs| == 0 then 0 else (if IsAnswered(qs[0]) then 1 else 0) + CountAnswered(qs[1..])
  }

  /** A question marked correct had a positive option chosen, so it also counts as answered. */
  predicate CorrectIsChosen(q: QuestionResult) {
    q.isCorrect ==> q.chosenOption.Some? && q.chosenOption.value > 0
  }

  /** No two questions share an overall number. */
  predicate DistinctNumbers(qs: seq<QuestionResult>) {
    forall i, j :: 0 <= i < j < |qs| ==> qs[i].questionNumber != qs[j].questionNumber
  }

  /** What question extraction guarantees and scoring relies on. */
  predicate WellFormed(qs: seq<QuestionResult>) {
    DistinctNumbers(qs) && forall k :: 0 <= k < |qs| ==> CorrectIsChosen(qs[k])
  }

  /** Correct answers are among the answered ones. */
  lemma {:induction false} CorrectAmongAnswered(qs: seq<QuestionResult>)
    requires forall k :: 0 <= k < |qs| ==> CorrectIsChosen(qs[k])
    ensures CountCorrect(qs) <= CountAnswered(qs)
  {
    if |qs| > 0 {
      assert CorrectIsChosen(qs[0]);
      assert forall k :: 0 <= k < |qs| - 1 ==> qs[1..][k] == qs[k + 1];
      CorrectAmongAnswered(qs[1..]);
    }
  }

  /** The overall numbers of the answered questions of `qs` in the section. */
  function AnsweredNumbers(qs: seq<QuestionResult>, sec: SectionConfig): (s: set<int>)
    ensures forall n :: n in s ==> sec.start <= n <= sec.end
  {
    if |qs| == 0 then {}
    else (if InSection(qs[0], sec) && IsAnswered(qs[0]) then {qs[0].questionNumber} else {}) + AnsweredNumbers(qs[1..], sec)
  }

  /** A number no question of `qs` carries is not among its answered numbers. */
  lemma {:induction false} AnsweredNumbersFrom(qs: seq<QuestionResult>, sec: SectionConfig, n: int)
    requires forall k :: 0 <= k < |qs| ==> qs[k].questionNumber != n
    ensures n !in AnsweredNumbers(qs, sec)
  {
    if |qs| > 0 {
      assert forall k :: 0 <= k < |qs| - 1 ==> qs[1..][k] == qs[k + 1];
      AnsweredNumbersFrom(qs[1..], sec, n);
    }
  }

  /** With distinct numbers, the answered questions of a section are counted by their numbers. */
  lemma {:induction false} AnsweredCountIsNumbers(qs: seq<QuestionResult>, sec: SectionConfig)
    requires DistinctNumbers(qs)
    ensures CountAnswered(SectionQuestions(qs, sec)) == |AnsweredNumbers(qs, sec)|
  {
    if |qs| > 0 {
      var tail := qs[1..];
      assert DistinctNumbers(tail) by {
        forall i, j | 0 <= i < j < |tail| ensures tail[i].questionNumber != tail[j].questionNumber {
          assert tail[i] == qs[i + 1] && tail[j] == qs[j + 1];
        }
      }
      AnsweredCountIsNumbers(tail, sec);
      forall k | 0 <= k < |tail| ensures tail[k].questionNumber != qs[0].questionNumber {
        assert tail[k] == qs[k + 1];
      }
      AnsweredNumbersFrom(tail, sec, qs[0].questionNumber);
      if InSection(qs[0], sec) {
        var r := SectionQuestions(qs, sec);
        assert r == [qs[0]] + SectionQuestions(tail, sec);
        assert r[0] == qs[0] && r[1..] == SectionQuestions(tail, sec);
      } else {
        assert SectionQuestions(qs, sec) == SectionQuestions(tail, sec);
      }
    }
  }

  /** The whole numbers from `lo` to `hi`. */
  function Interval(lo: int, hi: int): (s: set<int>)
    ensures forall n :: n in s <==> lo <= n <= hi
    decreases hi - lo
  {
    if hi < lo then {} else Interval(lo, hi - 1) + {hi}
  }

  lemma {:induction false} IntervalSize(lo: int, hi: int)
    requires lo <= hi + 1
    ensures |Interval(lo, hi)| == hi - lo + 1
    decreases hi - lo
  {
    if lo <= hi {
      IntervalSize(lo, hi - 1);
      assert hi !in Interval(lo, hi - 1);
    }
  }

  lemma SubsetSize(a: set<int>, b: set<int>)
    requires a <= b
    ensures |a| <= |b|
  {
    assert b == a + (b - a);
    assert a * (b - a) == {};
  }

  /**
   * With distinct question numbers a section can have no more answered questions than
   * it has numbers, so neither `wrong` nor `skipped` can go negative.
   */
  lemma AnsweredFitsSection(qs: seq<QuestionResult>, sec: SectionConfig)
    requires DistinctNumbers(qs)
    requires sec.start <= sec.end + 1
    ensures CountAnswered(SectionQuestions(qs, sec)) <= sec.end - sec.start + 1
  {
    AnsweredCountIsNumbers(qs, sec);
    IntervalSize(sec.start, sec.end);
    SubsetSize(AnsweredNumbers(qs, sec), Interval(sec.start, sec.end));
  }

  // ---------------------------------------------------------------------------
  // One section

  /** The raw score of a section before rounding. */
  function RawScore(correct: int, wrong: int, sec: SectionConfig): real {
    correct as real * sec.marksPerCorrect - wrong as real * sec.negativePerWrong
  }

  /** The result of one section of the exam pattern. */
  function ScoreSection(qs: seq<QuestionResult>, sec: SectionConfig): (r: SectionResult)
    ensures r.part == sec.part && r.subject == sec.subject && r.maxMarks == sec.maxMarks
    ensures r.marksPerCorrect == sec.marksPerCorrect && r.negativePerWrong == sec.negativePerWrong
    ensures r.totalQuestions == sec.end - sec.start + 1
    ensures r.correct + r.wrong + r.skipped == r.totalQuestions
    ensures 0 <= r.correct <= |qs|
    ensures r.correct == CountCorrect(SectionQuestions(qs, sec))
    ensures r.correct + r.wrong == CountAnswered(SectionQuestions(qs, sec))
    ensures IsCents(r.score)
    ensures RawScore(r.correct, r.wrong, sec) - 0.005 < r.score <= RawScore(r.correct, r.wrong, sec) + 0.005
  {
    var inSection := SectionQuestions(qs, sec);
    var correct := CountCorrect(inSection);
    var answered := CountAnswered(inSection);
    var wrong := answered - correct;
    SectionResult(
      part := sec.part,
      subject := sec.subject,
      totalQuestions := sec.end - sec.start + 1,
      correct := correct,
      wrong := wrong,
      skipped := sec.end - sec.start + 1 - answered,
      marksPerCorrect := sec.marksPerCorrect,
      negativePerWrong := sec.negativePerWrong,
      maxMarks := sec.maxMarks,
      score := Round2(RawScore(correct, wrong, sec)))
  }

  /** On well-formed questions and a non-empty range, no count of a section result is negative. */
  lemma ScoreSectionCountsNonNegative(qs: seq<QuestionResult>, sec: SectionConfig)
    requires WellFormed(qs)
    requires sec.start <= sec.end + 1
    ensures var r := ScoreSection(qs, sec); r.correct >= 0 && r.wrong >= 0 && r.skipped >= 0
  {
    var inSection := SectionQuestions(qs, sec);
    forall k | 0 <= k < |inSection| ensures CorrectIsChosen(inSection[k]) {
      assert inSection[k] in qs;
    }
    CorrectAmongAnswered(inSection);
    AnsweredFitsSection(qs, sec);
  }

  /** A section of well-formed questions answered correctly throughout has nothing wrong or skipped and scores its full marks. */
  lemma ScoreSectionAllCorrect(qs: seq<QuestionResult>, sec: SectionConfig)
    requires WellFormed(qs)
    requires sec.start <= sec.end + 1
    requires ScoreSection(qs, sec).correct == sec.end - sec.start + 1
    ensures ScoreSection(qs, sec).wrong == 0 && ScoreSection(qs, sec).skipped == 0
    ensures ScoreSection(qs, sec).score == Round2((sec.end - sec.start + 1) as real * sec.marksPerCorrect)
  {
    ScoreSectionCountsNonNegative(qs, sec);
    var r := ScoreSection(qs, sec);
    assert r.score == Round2(RawScore(r.correct, r.wrong, sec));
    assert r.wrong == 0;
    assert r.wrong as real * sec.negativePerWrong == 0.0;
    assert r.correct as real == (sec.end - sec.start + 1) as real;
    assert RawScore(r.correct, r.wrong, sec) == (sec.end - sec.start + 1) as real * sec.marksPerCorrect;
  }

  // ---------------------------------------------------------------------------
  // The scorecard

  /**
   * The loop over the exam pattern's sections: the non-qualifying results in order, and
   * the result of the last qualifying section seen.
   */
  function ScoreSections(qs: seq<QuestionResult>, secs: seq<SectionConfig>): (r: (seq<SectionResult>, Option<SectionResult>))
    ensures |r.0| <= |secs|
  {
    if |secs| == 0 then ([], None)
    else
      var prev := ScoreSections(qs, secs[..|secs| - 1]);
      var sec := secs[|secs| - 1];
      var result := ScoreSection(qs, sec);
      if sec.qualifying then (prev.0, Some(result)) else (prev.0 + [result], prev.1)
  }

  /** The sections that count towards the totals, in order. */
  function Counted(secs: seq<SectionConfig>): (r: seq<SectionConfig>)
    ensures |r| <= |secs|
  {
    if |secs| == 0 then []
    else Counted(secs[..|secs| - 1]) + (if secs[|secs| - 1].qualifying then [] else [secs[|secs| - 1]])
  }

  /** The counted sections are exactly the non-qualifying ones. */
  lemma {:induction false} CountedMembers(secs: seq<SectionConfig>)
    ensures forall s :: s in Counted(secs) <==> s in secs && !s.qualifying
  {
    if |secs| > 0 {
      var init := secs[..|secs| - 1];
      CountedMembers(init);
      assert secs == init + [secs[|secs| - 1]];
    }
  }

  /** A non-qualifying section of the pattern has a place among the counted ones. */
  lemma CountedIndex(secs: seq<SectionConfig>, k: nat) returns (j: nat)
    requires k < |secs| && !secs[k].qualifying
    ensures j < |Counted(secs)| && Counted(secs)[j] == secs[k]
  {
    CountedMembers(secs);
    assert secs[k] in Counted(secs);
    j :| 0 <= j < |Counted(secs)| && Counted(secs)[j] == secs[k];
  }

  /** The k-th counted result is the score of the k-th counted section. */
  lemma {:induction false} ScoreSectionsCounted(qs: seq<QuestionResult>, secs: seq<SectionConfig>)
    ensures |ScoreSections(qs, secs).0| == |Counted(secs)|
    ensures forall k :: 0 <= k < |Counted(secs)| ==> ScoreSections(qs, secs).0[k] == ScoreSection(qs, Counted(secs)[k])
  {
    if |secs| > 0 {
      ScoreSectionsCounted(qs, secs[..|secs| - 1]);
    }
  }

  /** The qualifying result is that of the last qualifying section. */
  lemma {:induction false} ScoreSectionsQualifying(qs: seq<QuestionResult>, secs: seq<SectionConfig>, k: int)
    requires 0 <= k < |secs| && secs[k].qualifying
    requires forall k' :: k < k' < |secs| ==> !secs[k'].qualifying
    ensures ScoreSections(qs, secs).1 == Some(ScoreSection(qs, secs[k]))
  {
    var init := secs[..|secs| - 1];
    if k < |secs| - 1 {
      assert init[k] == secs[k];
      assert forall k' :: k < k' < |init| ==> init[k'] == secs[k'];
      ScoreSectionsQualifying(qs, init, k);
    }
  }

  /** Without a qualifying section there is no qualifying result. */
  lemma {:induction false} ScoreSectionsNoQualifying(qs: seq<QuestionResult>, secs: seq<SectionConfig>)
    requires forall k :: 0 <= k < |secs| ==> !secs[k].qualifying
    ensures ScoreSections(qs, secs).1.None?
  {
    if |secs| > 0 {
      var init := secs[..|secs| - 1];
      assert forall k :: 0 <= k < |init| ==> init[k] == secs[k];
      ScoreSectionsNoQualifying(qs, init);
    }
  }

  function SumCorrect(rs: seq<SectionResult>): int {
    if |rs| == 0 then 0 else SumCorrect(rs[..|rs| - 1]) + rs[|rs| - 1].correct
  }

  function SumWrong(rs: seq<SectionResult>): int {
    if |rs| == 0 then 0 else SumWrong(rs[..|rs| - 1]) + rs[|rs| - 1].wrong
  }

  function SumSkipped(rs: seq<SectionResult>): int {
    if |rs| == 0 then 0 else SumSkipped(rs[..|rs| - 1]) + rs[|rs| - 1].skipped
  }

  function SumScore(rs: seq<SectionResult>): real {
    if |rs| == 0 then 0.0 else SumScore(rs[..|rs| - 1]) + rs[|rs| - 1].score
  }

  function SumMaxMarks(rs: seq<SectionResult>): real {
    if |rs| == 0 then 0.0 else SumMaxMarks(rs[..|rs| - 1]) + rs[|rs| - 1].maxMarks
  }

  /** The number of questions the sections span. */
  function SumSizes(secs: seq<SectionConfig>): int {
    if |secs| == 0 then 0 else SumSizes(secs[..|secs| - 1]) + Size(secs[|secs| - 1])
  }

  function SumMaxOf(secs: seq<SectionConfig>): real {
    if |secs| == 0 then 0.0 else SumMaxOf(secs[..|secs| - 1]) + secs[|secs| - 1].maxMarks
  }

  /** `calculateScorecard`. */
  function CalculateScorecard(qs: seq<QuestionResult>, baseUrl: string, info: Option<CandidateInfo>, cfg: ExamConfig): (d: ScorecardData)
    ensures d.questions == qs && d.baseUrl == baseUrl && d.candidateInfo == info && d.examConfig == cfg
    ensures |d.sections| <= |cfg.sections|
    ensures d.totalCorrect == SumCorrect(d.sections) && d.totalWrong == SumWrong(d.sections)
    ensures d.totalSkipped == SumSkipped(d.sections) && d.totalMaxMarks == SumMaxMarks(d.sections)
    ensures IsCents(d.totalScore)
    ensures SumScore(d.sections) - 0.005 < d.totalScore <= SumScore(d.sections) + 0.005
  {
    var scored := ScoreSections(qs, cfg.sections);
    var sections := scored.0;
    ScorecardData(
      candidateInfo := info,
      sections := sections,
      questions := qs,
      totalCorrect := SumCorrect(sections),
      totalWrong := SumWrong(sections),
      totalSkipped := SumSkipped(sections),
      totalScore := Round2(SumScore(sections)),
      totalMaxMarks := SumMaxMarks(sections),
      qualifyingSection := scored.1,
      baseUrl := baseUrl,
      examConfig := cfg)
  }

  /**
   * The scorecard reports the non-qualifying sections' results in pattern order, and as its
   * qualifying result that of the last qualifying section, none when there is none.
   */
  lemma ScorecardSections(qs: seq<QuestionResult>, baseUrl: string, info: Option<CandidateInfo>, cfg: ExamConfig)
    ensures var d := CalculateScorecard(qs, baseUrl, info, cfg);
            |d.sections| == |Counted(cfg.sections)|
            && forall k :: 0 <= k < |Counted(cfg.sections)| ==> d.sections[k] == ScoreSection(qs, Counted(cfg.sections)[k])
    ensures (forall k :: 0 <= k < |cfg.sections| ==> !cfg.sections[k].qualifying) ==>
              CalculateScorecard(qs, baseUrl, info, cfg).qualifyingSection.None?
    ensures forall k :: 0 <= k < |cfg.sections| && cfg.sections[k].qualifying
                        && (forall k' :: k < k' < |cfg.sections| ==> !cfg.sections[k'].qualifying) ==>
              CalculateScorecard(qs, baseUrl, info, cfg).qualifyingSection == Some(ScoreSection(qs, cfg.sections[k]))
  {
    var secs := cfg.sections;
    ScoreSectionsCounted(qs, secs);
    if forall k :: 0 <= k < |secs| ==> !secs[k].qualifying {
      ScoreSectionsNoQualifying(qs, secs);
    }
    forall k | 0 <= k < |secs| && secs[k].qualifying && (forall k' :: k < k' < |secs| ==> !secs[k'].qualifying)
      ensures CalculateScorecard(qs, baseUrl, info, cfg).qualifyingSection == Some(ScoreSection(qs, secs[k]))
    {
      ScoreSectionsQualifying(qs, secs, k);
    }
  }

  /** Appending one result adds its counts and marks to the sums. */
  lemma SumsSnoc(rs: seq<SectionResult>, r: SectionResult)
    ensures SumCorrect(rs + [r]) == SumCorrect(rs) + r.correct
    ensures SumWrong(rs + [r]) == SumWrong(rs) + r.wrong
    ensures SumSkipped(rs + [r]) == SumSkipped(rs) + r.skipped
    ensures SumMaxMarks(rs + [r]) == SumMaxMarks(rs) + r.maxMarks
    ensures SumScore(rs + [r]) == SumScore(rs) + r.score
  {
    assert (rs + [r])[..|rs|] == rs;
  }

  /** Per section, correct + wrong + skipped is the section's size; summed, the totals cover the counted sections. */
  lemma {:induction false} CountsCoverSections(qs: seq<QuestionResult>, secs: seq<SectionConfig>)
    ensures var rs := ScoreSections(qs, secs).0;
            SumCorrect(rs) + SumWrong(rs) + SumSkipped(rs) == SumSizes(Counted(secs))
            && SumMaxMarks(rs) == SumMaxOf(Counted(secs))
  {
    if |secs| > 0 {
      var init := secs[..|secs| - 1];
      var sec := secs[|secs| - 1];
      CountsCoverSections(qs, init);
      var prev := ScoreSections(qs, init).0;
      if !sec.qualifying {
        var r := ScoreSection(qs, sec);
        assert ScoreSections(qs, secs).0 == prev + [r];
        SumsSnoc(prev, r);
        var c := Counted(secs);
        assert c == Counted(init) + [sec];
        assert c[..|c| - 1] == Counted(init);
      } else {
        assert ScoreSections(qs, secs).0 == prev;
        assert Counted(secs) == Counted(init);
      }
    }
  }

  /** The scorecard's totals account for every question of every counted section exactly once. */
  lemma ScorecardTotals(qs: seq<QuestionResult>, baseUrl: string, info: Option<CandidateInfo>, cfg: ExamConfig)
    ensures var d := CalculateScorecard(qs, baseUrl, info, cfg);
            d.totalCorrect + d.totalWrong + d.totalSkipped == SumSizes(Counted(cfg.sections))
            && d.totalMaxMarks == SumMaxOf(Counted(cfg.sections))
  {
    CountsCoverSections(qs, cfg.sections);
  }

  /** On well-formed questions and a pattern without inverted ranges, no counted section has a negative count. */
  lemma ScorecardCountsNonNegative(qs: seq<QuestionResult>, baseUrl: string, info: Option<CandidateInfo>, cfg: ExamConfig)
    requires WellFormed(qs)
    requires RangesOrdered(cfg.sections)
    ensures var d := CalculateScorecard(qs, baseUrl, info, cfg);
            forall k :: 0 <= k < |d.sections| ==> d.sections[k].correct >= 0 && d.sections[k].wrong >= 0 && d.sections[k].skipped >= 0
  {
    var rs := ScoreSections(qs, cfg.sections).0;
    ScoreSectionsCounted(qs, cfg.sections);
    CountedMembers(cfg.sections);
    forall k | 0 <= k < |rs|
      ensures rs[k].correct >= 0 && rs[k].wrong >= 0 && rs[k].skipped >= 0
    {
      var sec := Counted(cfg.sections)[k];
      assert sec in cfg.sections;
      ScoreSectionCountsNonNegative(qs, sec);
    }
  }

  /** A section with no questions has nothing correct or wrong and scores zero. */
  lemma EmptySectionScoresZero(sec: SectionConfig)
    ensures var r := ScoreSection([], sec); r.correct == 0 && r.wrong == 0 && r.score == 0.0
  {
    assert SectionQuestions([], sec) == [];
    assert RawScore(0, 0, sec) == 0.0;
    Round2Cents(0);
  }

  /** Scoring no questions gives every counted section zero correct, zero wrong and a zero score. */
  lemma {:induction false} NoQuestionsScoreZero(secs: seq<SectionConfig>)
    ensures var rs := ScoreSections([], secs).0;
            SumCorrect(rs) == 0 && SumWrong(rs) == 0 && SumScore(rs) == 0.0
  {
    if |secs| > 0 {
      var init := secs[..|secs| - 1];
      var sec := secs[|secs| - 1];
      NoQuestionsScoreZero(init);
      var prev := ScoreSections([], init).0;
      if !sec.qualifying {
        var r := ScoreSection([], sec);
        assert ScoreSections([], secs).0 == prev + [r];
        EmptySectionScoresZero(sec);
        SumsSnoc(prev, r);
      } else {
        assert ScoreSections([], secs).0 == prev;
      }
    }
  }

  /** A scorecard without questions has nothing correct or wrong and a zero total, every question being skipped. */
  lemma ScorecardOfNoQuestions(baseUrl: string, info: Option<CandidateInfo>, cfg: ExamConfig)
    ensures var d := CalculateScorecard([], baseUrl, info, cfg);
            d.totalCorrect == 0 && d.totalWrong == 0 && d.totalScore == 0.0
            && d.totalSkipped == SumSizes(Counted(cfg.sections))
  {
    NoQuestionsScoreZero(cfg.sections);
    CountsCoverSections([], cfg.sections);
    Round2Cents(0);
  }

  /** Appending a section extends the counted ones by it unless it is qualifying. */
  lemma CountedSnoc(secs: seq<SectionConfig>, s: SectionConfig)
    ensures Counted(secs + [s]) == Counted(secs) + (if s.qualifying then [] else [s])
    ensures SumSizes(secs + [s]) == SumSizes(secs) + Size(s)
  {
    assert (secs + [s])[..|secs|] == secs;
  }

  /** The size of one section. */
  function Size(s: SectionConfig): int {
    s.end - s.start + 1
  }

  /** Four counted sections followed by a qualifying one span the first four's questions. */
  lemma FourCountedThenQualifying(a: SectionConfig, b: SectionConfig, c: SectionConfig, d: SectionConfig, e: SectionConfig)
    requires !a.qualifying && !b.qualifying && !c.qualifying && !d.qualifying && e.qualifying
    ensures SumSizes(Counted([a, b, c, d, e])) == Size(a) + Size(b) + Size(c) + Size(d)
  {
    CountedSnoc([], a);
    assert [] + [a] == [a];
    CountedSnoc([a], b);
    assert [a] + [b] == [a, b];
    CountedSnoc([a, b], c);
    assert [a, b] + [c] == [a, b, c];
    CountedSnoc([a, b, c], d);
    assert [a, b, c] + [d] == [a, b, c, d];
    assert Counted([a, b, c, d]) == [a, b, c, d];
    assert SumSizes([a, b, c, d]) == Size(a) + Size(b) + Size(c) + Size(d);
    CountedSnoc([a, b, c, d], e);
    assert [a, b, c, d] + [e] == [a, b, c, d, e];
    assert Counted([a, b, c, d, e]) == [a, b, c, d] + [];
    assert [a, b, c, d] + [] == [a, b, c, d];
  }

  /** Three counted sections span all their questions. */
  lemma ThreeCounted(a: SectionConfig, b: SectionConfig, c: SectionConfig)
    requires !a.qualifying && !b.qualifying && !c.qualifying
    ensures SumSizes(Counted([a, b, c])) == Size(a) + Size(b) + Size(c)
  {
    CountedSnoc([], a);
    assert [] + [a] == [a];
    CountedSnoc([a], b);
    assert [a] + [b] == [a, b];
    CountedSnoc([a, b], c);
    assert [a, b] + [c] == [a, b, c];
  }

  /** The SSC CGL Mains pattern counts sections A to D, 30 + 30 + 45 + 25 = 130 questions; the qualifying section E is apart. */
  lemma CglMainsCountedSize()
    ensures SumSizes(Counted(CglMainsSections)) == 130
  {
    var c := CglMainsSections;
    assert c == [c[0], c[1], c[2], c[3], c[4]];
    FourCountedThenQualifying(c[0], c[1], c[2], c[3], c[4]);
  }

  /** The RRB NTPC pattern counts all three sections, 30 + 30 + 40 = 100 questions. */
  lemma RrbNtpcCountedSize()
    ensures SumSizes(Counted(RrbNtpcSections)) == 100
  {
    var n := RrbNtpcSections;
    assert n == [n[0], n[1], n[2]];
    ThreeCounted(n[0], n[1], n[2]);
  }

  /** No section of the pattern has its end before its start. */
  predicate RangesOrdered(secs: seq<SectionConfig>) {
    forall k :: 0 <= k < |secs| ==> secs[k].start <= secs[k].end
  }

  lemma BuiltInRangesOrdered()
    ensures RangesOrdered(CglMainsSections) && RangesOrdered(RrbNtpcSections)
  {
    var c := CglMainsSections;
    assert c[0].start <= c[0].end && c[1].start <= c[1].end && c[2].start <= c[2].end;
    assert c[3].start <= c[3].end && c[4].start <= c[4].end;
    var n := RrbNtpcSections;
    assert n[0].start <= n[0].end && n[1].start <= n[1].end && n[2].start <= n[2].end;
  }

  /** A worked section of the RRB NTPC pattern: one right and one wrong answer score 1 - 1/3, shown as 0.67. */
  lemma OneRightOneWrong()
    ensures Round2(RawScore(1, 1, RrbNtpcSections[0])) == 0.67
  {
    assert RawScore(1, 1, RrbNtpcSections[0]) == 2.0 / 3.0;
    assert (100.0 * (2.0 / 3.0) + 0.5).Floor == 67;
  }
}
