/**
 * The static exam catalog: every supported exam with its ordered subjects, lookups by id
 * and by category, and the derivation of absolute question-number ranges from subject sizes.
 */
module ExamCatalog {
  import opened Wrappers

  /** One subject of an exam; `isQualifying` is false where the catalog leaves the flag out. */
  datatype SubjectConfig = SubjectConfig(
    name: string,
    part: string,
    totalQuestions: int,
    maxMarks: real,
    correctMarks: real,
    negativeMarks: real,
    isQualifying: bool)

  datatype ExamConfig = ExamConfig(
    id: string,
    name: string,
    category: string,
    totalQuestions: int,
    maxMarks: real,
    subjects: seq<SubjectConfig>)

  datatype ExamCategory = ExamCategory(id: string, labelText: string, emoji: string)

  /** A subject placed at absolute question numbers `start..end` (both inclusive). */
  datatype SubjectRange = SubjectRange(
    part: string,
    subject: string,
    start: int,
    end: int,
    correctMarks: real,
    negativeMarks: real,
    maxMarks: real,
    isQualifying: bool)

  function Subject(name: string, part: string, total: int, maxMarks: real, correct: real, negative: real): SubjectConfig {
    SubjectConfig(name, part, total, maxMarks, correct, negative, false)
  }

  const ExamCategories: seq<ExamCategory> := [
    ExamCategory("SSC", "SSC Exams", "\U{1F3DB}\U{FE0F}"),
    ExamCategory("RAILWAY", "Railway Exams", "\U{1F682}"),
    ExamCategory("IB", "Intelligence Bureau", "\U{1F575}\U{FE0F}"),
    ExamCategory("BANK", "Bank Exams", "\U{1F3E6}"),
    ExamCategory("POLICE", "Police Exams", "\U{1F694}")
  ]

  const SscCglPre := ExamConfig("SSC_CGL_PRE", "SSC CGL Tier-I", "SSC", 100, 200.0, [
    Subject("General Intelligence & Reasoning", "A", 25, 50.0, 2.0, 0.5),
    Subject("General Awareness", "B", 25, 50.0, 2.0, 0.5),
    Subject("Quantitative Aptitude", "C", 25, 50.0, 2.0, 0.5),
    Subject("English Comprehension", "D", 25, 50.0, 2.0, 0.5)])

  const SscCglMains := ExamConfig("SSC_CGL_MAINS", "SSC CGL Tier-II", "SSC", 150, 390.0, [
    Subject("Mathematical Abilities", "A", 30, 90.0, 3.0, 1.0),
    Subject("Reasoning & General Intelligence", "B", 30, 90.0, 3.0, 1.0),
    Subject("English Language & Comprehension", "C", 45, 135.0, 3.0, 1.0),
    Subject("General Awareness", "D", 25, 75.0, 3.0, 0.5),
    SubjectConfig("Computer Knowledge", "E", 20, 60.0, 3.0, 0.5, true)])

  const SscChslPre := ExamConfig("SSC_CHSL_PRE", "SSC CHSL Tier-I", "SSC", 100, 200.0, [
    Subject("General Intelligence", "A", 25, 50.0, 2.0, 0.5),
    Subject("General Awareness", "B", 25, 50.0, 2.0, 0.5),
    Subject("Quantitative Aptitude", "C", 25, 50.0, 2.0, 0.5),
    Subject("English Language", "D", 25, 50.0, 2.0, 0.5)])

  const SscChslMains := ExamConfig("SSC_CHSL_MAINS", "SSC CHSL Tier-II", "SSC", 135, 405.0, [
    Subject("Mathematical Abilities", "A", 30, 90.0, 3.0, 1.0),
    Subject("Reasoning & General Intelligence", "B", 30, 90.0, 3.0, 1.0),
    Subject("English Language & Comprehension", "C", 45, 135.0, 3.0, 1.0),
    Subject("General Awareness", "D", 30, 90.0, 3.0, 1.0)])

  const SscCpoPre := ExamConfig("SSC_CPO_PRE", "SSC CPO Paper-I", "SSC", 200, 200.0, [
    Subject("General Intelligence & Reasoning", "A", 50, 50.0, 1.0, 0.25),
    Subject("General Knowledge & Awareness", "B", 50, 50.0, 1.0, 0.25),
    Subject("Quantitative Aptitude", "C", 50, 50.0, 1.0, 0.25),
    Subject("English Comprehension", "D", 50, 50.0, 1.0, 0.25)])

  const SscCpoMains := ExamConfig("SSC_CPO_MAINS", "SSC CPO Paper-II", "SSC", 200, 200.0, [
    Subject("English Language & Comprehension", "A", 200, 200.0, 1.0, 0.25)])

  const SscMts := ExamConfig("SSC_MTS", "SSC MTS", "SSC", 90, 90.0, [
    Subject("Numerical & Mathematical Ability", "A", 20, 20.0, 1.0, 0.25),
    Subject("Reasoning Ability & Problem Solving", "B", 20, 20.0, 1.0, 0.25),
    Subject("General Awareness", "C", 25, 25.0, 1.0, 0.25),
    Subject("English Language & Comprehension", "D", 25, 25.0, 1.0, 0.25)])

  const SscGdConstable := ExamConfig("SSC_GD_CONSTABLE", "SSC GD Constable", "SSC", 80, 160.0, [
    Subject("General Intelligence & Reasoning", "A", 20, 40.0, 2.0, 0.5),
    Subject("General Knowledge & Awareness", "B", 20, 40.0, 2.0, 0.5),
    Subject("Elementary Mathematics", "C", 20, 40.0, 2.0, 0.5),
    Subject("English/Hindi", "D", 20, 40.0, 2.0, 0.5)])

  const SscSteno := ExamConfig("SSC_STENO", "SSC Stenographer", "SSC", 200, 200.0, [
    Subject("General Intelligence & Reasoning", "A", 50, 50.0, 1.0, 0.25),
    Subject("General Awareness", "B", 50, 50.0, 1.0, 0.25),
    Subject("English Language & Comprehension", "C", 100, 100.0, 1.0, 0.25)])

  const RrbNtpcCbt1 := ExamConfig("RRB_NTPC_CBT1", "RRB NTPC CBT-1", "RAILWAY", 100, 100.0, [
    Subject("Mathematics", "A", 30, 30.0, 1.0, 0.333),
    Subject("General Intelligence & Reasoning", "B", 30, 30.0, 1.0, 0.333),
    Subject("General Awareness", "C", 40, 40.0, 1.0, 0.333)])

  const RrbNtpcCbt2 := ExamConfig("RRB_NTPC_CBT2", "RRB NTPC CBT-2", "RAILWAY", 120, 120.0, [
    Subject("Mathematics", "A", 35, 35.0, 1.0, 0.333),
    Subject("General Intelligence & Reasoning", "B", 35, 35.0, 1.0, 0.333),
    Subject("General Awareness", "C", 50, 50.0, 1.0, 0.333)])

  const RrbGroupD := ExamConfig("RRB_GROUP_D", "RRB Group D", "RAILWAY", 100, 100.0, [
    Subject("Mathematics", "A", 25, 25.0, 1.0, 0.333),
    Subject("General Intelligence & Reasoning", "B", 30, 30.0, 1.0, 0.333),
    Subject("General Science", "C", 25, 25.0, 1.0, 0.333),
    Subject("General Awareness & Current Affairs", "D", 20, 20.0, 1.0, 0.333)])

  const RrbJeCbt1 := ExamConfig("RRB_JE_CBT1", "RRB JE CBT-1", "RAILWAY", 100, 100.0, [
    Subject("Mathematics", "A", 30, 30.0, 1.0, 0.333),
    Subject("General Intelligence & Reasoning", "B", 25, 25.0, 1.0, 0.333),
    Subject("General Awareness", "C", 15, 15.0, 1.0, 0.333),
    Subject("General Science", "D", 30, 30.0, 1.0, 0.333)])

  const RrbAlpCbt1 := ExamConfig("RRB_ALP_CBT1", "RRB ALP CBT-1", "RAILWAY", 75, 75.0, [
    Subject("Mathematics", "A", 20, 20.0, 1.0, 0.333),
    Subject("General Intelligence & Reasoning", "B", 25, 25.0, 1.0, 0.333),
    Subject("General Science", "C", 20, 20.0, 1.0, 0.333),
    Subject("General Awareness", "D", 10, 10.0, 1.0, 0.333)])

  const IbAcio := ExamConfig("IB_ACIO", "IB ACIO Tier-I", "IB", 100, 100.0, [
    Subject("General Awareness", "A", 25, 25.0, 1.0, 0.25),
    Subject("Quantitative Aptitude", "B", 25, 25.0, 1.0, 0.25),
    Subject("Logical/Analytical Ability", "C", 25, 25.0, 1.0, 0.25),
    Subject("English Language", "D", 25, 25.0, 1.0, 0.25)])

  const IbSa := ExamConfig("IB_SA", "IB Security Assistant", "IB", 100, 100.0, [
    Subject("General Awareness", "A", 25, 25.0, 1.0, 0.25),
    Subject("Quantitative Aptitude", "B", 25, 25.0, 1.0, 0.25),
    Subject("Logical/Analytical Ability", "C", 25, 25.0, 1.0, 0.25),
    Subject("English Language", "D", 25, 25.0, 1.0, 0.25)])

  const IbpsPoPre := ExamConfig("IBPS_PO_PRE", "IBPS PO Prelims", "BANK", 100, 100.0, [
    Subject("English Language", "A", 30, 30.0, 1.0, 0.25),
    Subject("Quantitative Aptitude", "B", 35, 35.0, 1.0, 0.25),
    Subject("Reasoning Ability", "C", 35, 35.0, 1.0, 0.25)])

  const IbpsPoMains := ExamConfig("IBPS_PO_MAINS", "IBPS PO Mains", "BANK", 155, 200.0, [
    Subject("Reasoning & Computer Aptitude", "A", 45, 60.0, 1.33, 0.25),
    Subject("English Language", "B", 35, 40.0, 1.14, 0.25),
    Subject("Data Analysis & Interpretation", "C", 35, 60.0, 1.71, 0.25),
    Subject("General/Economy/Banking Awareness", "D", 40, 40.0, 1.0, 0.25)])

  const IbpsClerkPre := ExamConfig("IBPS_CLERK_PRE", "IBPS Clerk Prelims", "BANK", 100, 100.0, [
    Subject("English Language", "A", 30, 30.0, 1.0, 0.25),
    Subject("Numerical Ability", "B", 35, 35.0, 1.0, 0.25),
    Subject("Reasoning Ability", "C", 35, 35.0, 1.0, 0.25)])

  const IbpsClerkMains := ExamConfig("IBPS_CLERK_MAINS", "IBPS Clerk Mains", "BANK", 190, 200.0, [
    Subject("General/Financial Awareness", "A", 50, 50.0, 1.0, 0.25),
    Subject("General English", "B", 40, 40.0, 1.0, 0.25),
    Subject("Reasoning Ability & Computer Aptitude", "C", 50, 60.0, 1.2, 0.25),
    Subject("Quantitative Aptitude", "D", 50, 50.0, 1.0, 0.25)])

  const SbiPoPre := ExamConfig("SBI_PO_PRE", "SBI PO Prelims", "BANK", 100, 100.0, [
    Subject("English Language", "A", 30, 30.0, 1.0, 0.25),
    Subject("Quantitative Aptitude", "B", 35, 35.0, 1.0, 0.25),
    Subject("Reasoning Ability", "C", 35, 35.0, 1.0, 0.25)])

  const SbiClerkPre := ExamConfig("SBI_CLERK_PRE", "SBI Clerk Prelims", "BANK", 100, 100.0, [
    Subject("English Language", "A", 30, 30.0, 1.0, 0.25),
    Subject("Numerical Ability", "B", 35, 35.0, 1.0, 0.25),
    Subject("Reasoning Ability", "C", 35, 35.0, 1.0, 0.25)])

  const DelhiPoliceConstable := ExamConfig("DELHI_POLICE_CONSTABLE", "Delhi Police Constable", "POLICE", 100, 100.0, [
    Subject("General Knowledge/Current Affairs", "A", 25, 25.0, 1.0, 0.25),
    Subject("Reasoning", "B", 25, 25.0, 1.0, 0.25),
    Subject("Numerical Ability", "C", 25, 25.0, 1.0, 0.25),
    Subject("Computer Awareness", "D", 25, 25.0, 1.0, 0.25)])

  const DelhiPoliceHeadConstable := ExamConfig("DELHI_POLICE_HEAD_CONSTABLE", "Delhi Police Head Constable", "POLICE", 100, 100.0, [
    Subject("General Knowledge/Current Affairs", "A", 25, 25.0, 1.0, 0.25),
    Subject("Reasoning/Quantitative Aptitude", "B", 25, 25.0, 1.0, 0.25),
    Subject("English Language", "C", 25, 25.0, 1.0, 0.25),
    Subject("Computer Fundamentals", "D", 25, 25.0, 1.0, 0.25)])

  /** The catalog, in the order the exams are listed. */
  const ExamConfigs: seq<ExamConfig> := [
    SscCglPre, SscCglMains, SscChslPre, SscChslMains, SscCpoPre, SscCpoMains, SscMts,
    SscGdConstable, SscSteno,
    RrbNtpcCbt1, RrbNtpcCbt2, RrbGroupD, RrbJeCbt1, RrbAlpCbt1,
    IbAcio, IbSa,
    IbpsPoPre, IbpsPoMains, IbpsClerkPre, IbpsClerkMains, SbiPoPre, SbiClerkPre,
    DelhiPoliceConstable, DelhiPoliceHeadConstable
  ]

  // ---------------------------------------------------------------------------
  // Lookups

  /** The exams of `exams` whose category is `categoryId`, in order (`Array.prototype.filter`). */
  function ExamsInCategory(exams: seq<ExamConfig>, categoryId: string): (r: seq<ExamConfig>)
    ensures |r| <= |exams|
    ensures forall e :: e in r <==> e in exams && e.category == categoryId
  {
    if |exams| == 0 then []
    else (if exams[0].category == categoryId then [exams[0]] else []) + ExamsInCategory(exams[1..], categoryId)
  }

  /** Filtering a concatenation is concatenating the filtered parts: the filter keeps catalog order. */
  lemma {:induction false} ExamsInCategoryAppend(a: seq<ExamConfig>, b: seq<ExamConfig>, categoryId: string)
    ensures ExamsInCategory(a + b, categoryId) == ExamsInCategory(a, categoryId) + ExamsInCategory(b, categoryId)
  {
    if |a| == 0 {
      assert a + b == b;
    } else {
      assert (a + b)[1..] == a[1..] + b;
      ExamsInCategoryAppend(a[1..], b, categoryId);
    }
  }

  function GetExamsByCategory(categoryId: string): (r: seq<ExamConfig>)
    ensures forall e :: e in r <==> e in ExamConfigs && e.category == categoryId
  {
    ExamsInCategory(ExamConfigs, categoryId)
  }

  /** Index of the first exam of `exams` whose id is `examId`. */
  function FindExamIndex(exams: seq<ExamConfig>, examId: string): (r: Option<nat>)
    ensures r.None? <==> forall i :: 0 <= i < |exams| ==> exams[i].id != examId
    ensures r.Some? ==> r.value < |exams| && exams[r.value].id == examId
    ensures r.Some? ==> forall j :: 0 <= j < r.value ==> exams[j].id != examId
  {
    if |exams| == 0 then None
    else if exams[0].id == examId then Some(0)
    else
      var r := FindExamIndex(exams[1..], examId);
      if r.Some? then Some(r.value + 1) else None
  }

  /** The first exam of `exams` whose id is `examId` (`Array.prototype.find`). */
  function FindExam(exams: seq<ExamConfig>, examId: string): (r: Option<ExamConfig>)
    ensures r.None? <==> forall i :: 0 <= i < |exams| ==> exams[i].id != examId
    ensures r.Some? ==> exists i :: 0 <= i < |exams| && exams[i] == r.value && r.value.id == examId
                          && forall j :: 0 <= j < i ==> exams[j].id != examId
  {
    var k := FindExamIndex(exams, examId);
    if k.Some? then Some(exams[k.value]) else None
  }

  function GetExamConfig(examId: string): (r: Option<ExamConfig>)
    ensures r.None? <==> forall e :: e in ExamConfigs ==> e.id != examId
    ensures r.Some? ==> r.value in ExamConfigs && r.value.id == examId
  {
    FindExam(ExamConfigs, examId)
  }

  // ---------------------------------------------------------------------------
  // Question-number ranges

  /** Sum of the subjects' question counts. */
  function SumQuestions(subjects: seq<SubjectConfig>): int {
    if |subjects| == 0 then 0 else subjects[0].totalQuestions + SumQuestions(subjects[1..])
  }

  /** The range subject `s` occupies when placed at question number `start`. */
  function Place(s: SubjectConfig, start: int): SubjectRange {
    SubjectRange(s.part, s.name, start, start + s.totalQuestions - 1,
                 s.correctMarks, s.negativeMarks, s.maxMarks, s.isQualifying)
  }

  /** The i-th range carries the i-th subject's data. */
  predicate CopiesSubject(r: SubjectRange, s: SubjectConfig) {
    && r.part == s.part && r.subject == s.name
    && r.correctMarks == s.correctMarks && r.negativeMarks == s.negativeMarks
    && r.maxMarks == s.maxMarks && r.isQualifying == s.isQualifying
    && r.end - r.start + 1 == s.totalQuestions
  }

  /** Each range begins where the previous one ended. */
  predicate Contiguous(ranges: seq<SubjectRange>) {
    forall i :: 0 <= i < |ranges| - 1 ==> ranges[i + 1].start == ranges[i].end + 1
  }

  /** The running-cursor map of `getSubjectRanges`, with the cursor at `cursor`. */
  function RangesFrom(subjects: seq<SubjectConfig>, cursor: int): (r: seq<SubjectRange>)
    ensures |r| == |subjects|
    ensures forall i :: 0 <= i < |r| ==> CopiesSubject(r[i], subjects[i])
    ensures |r| > 0 ==> r[0].start == cursor
    ensures Contiguous(r)
    ensures |r| > 0 ==> r[|r| - 1].end == cursor + SumQuestions(subjects) - 1
  {
    if |subjects| == 0 then []
    else
      var first := Place(subjects[0], cursor);
      [first] + RangesFrom(subjects[1..], first.end + 1)
  }

  /** `getSubjectRanges`: absolute ranges 1.., one per subject, in subject order. */
  function GetSubjectRanges(exam: ExamConfig): (r: seq<SubjectRange>)
    ensures |r| == |exam.subjects|
    ensures forall i :: 0 <= i < |r| ==> CopiesSubject(r[i], exam.subjects[i])
    ensures |r| > 0 ==> r[0].start == 1
    ensures Contiguous(r)
    ensures |r| > 0 ==> r[|r| - 1].end == SumQuestions(exam.subjects)
  {
    RangesFrom(exam.subjects, 1)
  }

  predicate PositiveCounts(subjects: seq<SubjectConfig>) {
    forall i :: 0 <= i < |subjects| ==> subjects[i].totalQuestions > 0
  }

  /** With positive counts, contiguous ranges are strictly ordered, hence pairwise disjoint. */
  lemma {:induction false} RangesDisjoint(ranges: seq<SubjectRange>, i: int, j: int)
    requires Contiguous(ranges)
    requires forall k :: 0 <= k < |ranges| ==> ranges[k].start <= ranges[k].end
    requires 0 <= i < j < |ranges|
    ensures ranges[i].end < ranges[j].start
    decreases j - i
  {
    if j > i + 1 {
      RangesDisjoint(ranges, i, j - 1);
    }
  }

  /** A contiguous list of non-empty ranges covers start..end of the whole list exactly once. */
  lemma {:induction false} ContiguousPartition(r: seq<SubjectRange>, n: int)
    requires Contiguous(r)
    requires forall k :: 0 <= k < |r| ==> r[k].start <= r[k].end
    requires |r| > 0 && r[0].start <= n <= r[|r| - 1].end
    ensures exists i :: 0 <= i < |r| && r[i].start <= n <= r[i].end
    ensures forall i, j :: 0 <= i < j < |r| ==> !(r[i].start <= n <= r[i].end && r[j].start <= n <= r[j].end)
  {
    forall i, j | 0 <= i < j < |r|
      ensures !(r[i].start <= n <= r[i].end && r[j].start <= n <= r[j].end)
    {
      RangesDisjoint(r, i, j);
    }
    Covers(r, n, 0);
  }

  /** The ranges of an exam whose subjects all have questions cover 1..total exactly once. */
  lemma RangesPartition(exam: ExamConfig, n: int)
    requires PositiveCounts(exam.subjects)
    requires 1 <= n <= SumQuestions(exam.subjects)
    ensures exists i :: 0 <= i < |GetSubjectRanges(exam)| && GetSubjectRanges(exam)[i].start <= n <= GetSubjectRanges(exam)[i].end
    ensures forall i, j :: 0 <= i < j < |GetSubjectRanges(exam)|
              ==> !(GetSubjectRanges(exam)[i].start <= n <= GetSubjectRanges(exam)[i].end
                    && GetSubjectRanges(exam)[j].start <= n <= GetSubjectRanges(exam)[j].end)
  {
    var r := GetSubjectRanges(exam);
    forall k | 0 <= k < |r| ensures r[k].start <= r[k].end {
      assert CopiesSubject(r[k], exam.subjects[k]);
    }
    ContiguousPartition(r, n);
  }

  /** Some range from index `k` on contains `n` when `n` lies between range k's start and the last end. */
  lemma {:induction false} Covers(r: seq<SubjectRange>, n: int, k: nat)
    requires Contiguous(r)
    requires k < |r|
    requires r[k].start <= n <= r[|r| - 1].end
    ensures exists i :: 0 <= i < |r| && r[i].start <= n <= r[i].end
    decreases |r| - k
  {
    if n > r[k].end {
      Covers(r, n, k + 1);
    }
  }
}
