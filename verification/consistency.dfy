/**
 * The exam catalog and the response-sheet parser each carry their own description of the
 * SSC CGL Mains and RRB NTPC patterns. These lemmas relate the two, and check that the
 * headline totals of those two catalog entries agree with their subjects.
 */
module PatternConsistency {
  import ExamCatalog
  import SheetTypes

  /** A catalog range and a parser section describe the same section. */
  predicate Agrees(r: ExamCatalog.SubjectRange, s: SheetTypes.SectionConfig) {
    && r.part == s.part && r.subject == s.subject
    && r.start == s.start && r.end == s.end
    && r.correctMarks == s.marksPerCorrect && r.negativeMarks == s.negativePerWrong
    && r.maxMarks == s.maxMarks && r.isQualifying == s.qualifying
  }

  /** The same, except for the mark deducted per wrong answer. */
  predicate AgreesButNegative(r: ExamCatalog.SubjectRange, s: SheetTypes.SectionConfig) {
    Agrees(r, s.(negativePerWrong := r.negativeMarks))
  }

  /** The ranges the catalog derives for SSC CGL Mains are exactly the parser's built-in sections. */
  lemma CglMainsRangesMatch()
    ensures var r := ExamCatalog.GetSubjectRanges(ExamCatalog.SscCglMains);
            |r| == |SheetTypes.CglMainsSections|
            && forall k :: 0 <= k < |r| ==> Agrees(r[k], SheetTypes.CglMainsSections[k])
  {
    var e := ExamCatalog.SscCglMains;
    var r := ExamCatalog.GetSubjectRanges(e);
    var c := SheetTypes.CglMainsSections;
    assert ExamCatalog.CopiesSubject(r[0], e.subjects[0]) && r[0].start == 1;
    assert r[1].start == r[0].end + 1 && ExamCatalog.CopiesSubject(r[1], e.subjects[1]);
    assert r[2].start == r[1].end + 1 && ExamCatalog.CopiesSubject(r[2], e.subjects[2]);
    assert r[3].start == r[2].end + 1 && ExamCatalog.CopiesSubject(r[3], e.subjects[3]);
    assert r[4].start == r[3].end + 1 && ExamCatalog.CopiesSubject(r[4], e.subjects[4]);
    assert Agrees(r[0], c[0]) && Agrees(r[1], c[1]) && Agrees(r[2], c[2]);
    assert Agrees(r[3], c[3]) && Agrees(r[4], c[4]);
  }

  /**
   * The catalog's RRB NTPC CBT-1 ranges match the parser's sections in everything but the
   * negative marking: the catalog rounds it to 0.333, the parser deducts exactly 1/3.
   */
  lemma RrbNtpcRangesMatch()
    ensures var r := ExamCatalog.GetSubjectRanges(ExamCatalog.RrbNtpcCbt1);
            |r| == |SheetTypes.RrbNtpcSections|
            && forall k :: 0 <= k < |r| ==>
                 (AgreesButNegative(r[k], SheetTypes.RrbNtpcSections[k])
                  && r[k].negativeMarks != SheetTypes.RrbNtpcSections[k].negativePerWrong)
  {
    var e := ExamCatalog.RrbNtpcCbt1;
    var r := ExamCatalog.GetSubjectRanges(e);
    var n := SheetTypes.RrbNtpcSections;
    assert ExamCatalog.CopiesSubject(r[0], e.subjects[0]) && r[0].start == 1;
    assert r[1].start == r[0].end + 1 && ExamCatalog.CopiesSubject(r[1], e.subjects[1]);
    assert r[2].start == r[1].end + 1 && ExamCatalog.CopiesSubject(r[2], e.subjects[2]);
    assert AgreesButNegative(r[0], n[0]) && AgreesButNegative(r[1], n[1]) && AgreesButNegative(r[2], n[2]);
  }

  /** The marks of the subjects that count towards the total (qualifying ones excluded). */
  function CountedMaxMarks(subjects: seq<ExamCatalog.SubjectConfig>): real {
    if |subjects| == 0 then 0.0
    else (if subjects[0].isQualifying then 0.0 else subjects[0].maxMarks) + CountedMaxMarks(subjects[1..])
  }

  /** An exam's question count is its subjects' and its maximum marks are those of its counted subjects. */
  predicate TotalsConsistent(e: ExamCatalog.ExamConfig) {
    e.totalQuestions == ExamCatalog.SumQuestions(e.subjects) && e.maxMarks == CountedMaxMarks(e.subjects)
  }

  /** SSC CGL Mains: 150 questions over five subjects, 390 marks without the qualifying Computer Knowledge paper. */
  lemma CglMainsTotals()
    ensures TotalsConsistent(ExamCatalog.SscCglMains)
  {
    var s := ExamCatalog.SscCglMains.subjects;
    assert s[4..][1..] == [];
    assert s[3..][1..] == s[4..];
    assert s[2..][1..] == s[3..];
    assert s[1..][1..] == s[2..];
  }

  /** RRB NTPC CBT-1: 100 questions and 100 marks over three subjects. */
  lemma RrbNtpcTotals()
    ensures TotalsConsistent(ExamCatalog.RrbNtpcCbt1)
  {
    var s := ExamCatalog.RrbNtpcCbt1.subjects;
    assert s[2..][1..] == [];
    assert s[1..][1..] == s[2..];
  }
}
