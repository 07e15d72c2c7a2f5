/**
 * Records produced by the response-sheet engine, the abstract document it reads in place of
 * a parsed HTML tree, and the two built-in section layouts it scores against.
 */
module SheetTypes {
  import opened Wrappers

  // ---------------------------------------------------------------------------
  // Output records

  datatype OptionImage = OptionImage(
    optionNumber: int,
    imageUrl: Option<string>,
    text: Option<string>,
    isCorrect: bool,
    isChosen: bool)

  /** One question as extracted; `status` is the free text of the menu table's Status row. */
  datatype QuestionResult = QuestionResult(
    questionNumber: int,
    sectionQuestionNumber: int,
    status: string,
    chosenOption: Option<int>,
    isCorrect: bool,
    correctOption: Option<int>,
    questionText: Option<string>,
    questionImageUrl: Option<string>,
    optionImages: seq<OptionImage>)

  datatype SectionResult = SectionResult(
    part: string,
    subject: string,
    totalQuestions: int,
    correct: int,
    wrong: int,
    skipped: int,
    marksPerCorrect: real,
    negativePerWrong: real,
    maxMarks: real,
    score: real)

  datatype CandidateInfo = CandidateInfo(
    registrationNumber: string,
    rollNumber: string,
    candidateName: string,
    community: string,
    venueName: string,
    examDate: string,
    examTime: string,
    subject: string)

  /** A section of the parser's own layout: absolute question numbers `start..end`, inclusive. */
  datatype SectionConfig = SectionConfig(
    part: string,
    subject: string,
    start: int,
    end: int,
    marksPerCorrect: real,
    negativePerWrong: real,
    maxMarks: real,
    qualifying: bool)

  datatype ExamConfig = ExamConfig(name: string, sections: seq<SectionConfig>)

  datatype ScorecardData = ScorecardData(
    candidateInfo: Option<CandidateInfo>,
    sections: seq<SectionResult>,
    questions: seq<QuestionResult>,
    totalCorrect: int,
    totalWrong: int,
    totalSkipped: int,
    totalScore: real,
    totalMaxMarks: real,
    qualifyingSection: Option<SectionResult>,
    baseUrl: string,
    examConfig: ExamConfig)

  // ---------------------------------------------------------------------------
  // The document, reduced to what the engine's selector queries return

  /** A row's cells, as their (untrimmed) text content. */
  type Row = seq<string>

  /**
   * A `td.rightAns` / `td.wrngAns` cell: whether it carries `rightAns`, its text, and the
   * `src` of its first named image (Some("") when that image has no `src`).
   */
  datatype AnswerCell = AnswerCell(isRight: bool, text: string, namedImageSrc: Option<string>)

  /** The first left-aligned bold cell: the `src` of its first image (Some("") without `src`) and its text. */
  datatype BodyCell = BodyCell(imageSrc: Option<string>, text: string)

  /** A `table.questionRowTbl`: its `Q.N` cell text, its body cell and its answer cells in document order. */
  datatype QuestionTable = QuestionTable(numberCell: Option<string>, body: Option<BodyCell>, answers: seq<AnswerCell>)

  /** A `td.rw` cell: its question table and its menu table (rows of cells), either possibly absent. */
  datatype QuestionCell = QuestionCell(questionTable: Option<QuestionTable>, menuTable: Option<seq<Row>>)

  /**
   * Every table of the page (as rows) and every question cell, in document order. Rows and
   * cells stand for what `querySelectorAll` returns, so a table's rows include those of tables
   * nested inside it, and a nested table appears again as a table of its own.
   */
  datatype Document = Document(tables: seq<seq<Row>>, questionCells: seq<QuestionCell>)

  // ---------------------------------------------------------------------------
  // Built-in section layouts

  const CglMainsSections: seq<SectionConfig> := [
    SectionConfig("A", "Mathematical Abilities", 1, 30, 3.0, 1.0, 90.0, false),
    SectionConfig("B", "Reasoning & General Intelligence", 31, 60, 3.0, 1.0, 90.0, false),
    SectionConfig("C", "English Language & Comprehension", 61, 105, 3.0, 1.0, 135.0, false),
    SectionConfig("D", "General Awareness", 106, 130, 3.0, 0.5, 75.0, false),
    SectionConfig("E", "Computer Knowledge", 131, 150, 3.0, 0.5, 60.0, true)
  ]

  const RrbNtpcSections: seq<SectionConfig> := [
    SectionConfig("A", "Mathematics", 1, 30, 1.0, 1.0 / 3.0, 30.0, false),
    SectionConfig("B", "General Intelligence & Reasoning", 31, 60, 1.0, 1.0 / 3.0, 30.0, false),
    SectionConfig("C", "General Awareness", 61, 100, 1.0, 1.0 / 3.0, 40.0, false)
  ]

  const SscCgl := ExamConfig("SSC CGL Mains", CglMainsSections)
  const RrbNtpc := ExamConfig("RRB NTPC", RrbNtpcSections)
}
