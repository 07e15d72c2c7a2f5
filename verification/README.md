# Response-sheet scorer: a Dafny model

This project models the scoring core of a web app for exam candidates. A candidate's
answer-key page comes from the SSC or RRB "digialm" portal. The app reads the candidate
record and every question from that page, then scores the answers against a fixed exam
pattern. It also keeps a catalog of exam patterns and expands a multi-part answer-key URL
into the URLs of its parts.

The modules follow the program's structure:

- `ExamCatalog` (`exam_catalog.dfy`) holds the exam catalog. It has the categories, the 24
  exam patterns, lookup by category and by id, and the running-cursor question ranges of a
  pattern's subjects.
- `SheetTypes` (`sheet_types.dfy`) holds the parser's records. It has the two built-in
  section layouts (SSC CGL Mains and RRB NTPC). It also has the parsed document, which
  stands in for the browser's DOM.
- `BaseUrl` (`base_url.dfy`) finds the image base URL in the raw page, using a
  hand-compiled form of the `touchstone` pattern. It also resolves image sources against
  that base URL.
- `CandidateInfoExtraction` (`candidate_info.dfy`) turns the label/value rows of the page's
  tables into the candidate record.
- `QuestionExtraction` (`questions.dfy`) reads each question cell. It takes:
  - the section-local `Q.<n>` number;
  - the body;
  - the status and chosen option from the menu table;
  - the options and the correct option.

  Questions are numbered sequentially.
- `Scoring` (`scoring.dfy`) holds `calculateScorecard`. It computes per-section counts and
  scores, rounds to two decimals, keeps the qualifying section apart, and forms the totals.
- `ResponseSheet` (`response_sheet.dfy`) holds the whole parse, the exam-type detection and
  the per-section question view.
- `MultiPart` (`multi_part.dfy`) holds the response-sheet URL test and the part-URL
  expansion.
- `PatternConsistency` (`consistency.dfy`) relates the catalog's two patterns to the
  parser's built-in sections.
- `Strings` and `Wrappers` are helpers. They model JavaScript's `trim`, `includes`,
  `startsWith`, ASCII `toLowerCase` and decimal `parseInt`, and provide an `Option` type.

Marks are exact `real`s. `Math.round(x * 100) / 100` is modelled as
`Floor(100x + 1/2) / 100`. `null` is modelled as `None`.

The parser's second base-URL pattern (`parseSSCHtml.ts` line 146) is character for
character the same as the first (line 143). Its branch can therefore never be taken: a
page matching it already returned an SSC URL. The model has the three outcomes that can
occur. `BaseUrl.ExtractBaseUrl` states them, and `ResponseSheet.RrbHostMeansRrbPattern`
shows the RRB fallback still selects the RRB pattern.

Three facts of the code shape the model:

- candidate fields are read under exact labels only (`CandidateInfoExtraction.TableQualifiesIff`);
- no question status earns bonus marks: a question scores only through `isCorrect`;
- a page with no questions reports every counted question as skipped
  (`ResponseSheet.EmptySheetAllSkipped`).

## Model

| member | source | states |
|---|---|---|
| ExamCatalog.ExamsInCategory | src/lib/examConfig.ts:251-253 | an exam is kept iff it is in the list and has that category; the result is no longer than the list |
| ExamCatalog.ExamsInCategoryAppend | src/lib/examConfig.ts:251-253 | filtering preserves catalog order: the filter of a concatenation is the concatenation of the filters |
| ExamCatalog.GetExamsByCategory | src/lib/examConfig.ts:251-253 | an exam is returned iff it is in the catalog and belongs to the category |
| ExamCatalog.FindExamIndex | src/lib/examConfig.ts:255-257 | no index iff no exam has the id; otherwise the index of the first exam with that id |
| ExamCatalog.FindExam | src/lib/examConfig.ts:255-257 | `find` gives undefined iff no exam has the id, otherwise the first exam carrying it |
| ExamCatalog.GetExamConfig | src/lib/examConfig.ts:255-257 | missing iff no catalog exam has the id; a found exam is in the catalog and has the id |
| ExamCatalog.RangesFrom | src/lib/examConfig.ts:259-276 | one range per subject, carrying that subject's data and size, the first starting at the cursor, each starting after the previous, the last ending at cursor + total - 1 |
| ExamCatalog.GetSubjectRanges | src/lib/examConfig.ts:259-276 | the ranges copy the subjects, start at question 1, are contiguous and end at the subjects' total question count |
| ExamCatalog.RangesDisjoint | src/lib/examConfig.ts:260-264 | contiguous non-empty ranges are strictly ordered: an earlier range ends before a later one starts |
| ExamCatalog.ContiguousPartition | src/lib/examConfig.ts:260-264 | every number between the first start and the last end lies in one range and in no two |
| ExamCatalog.RangesPartition | src/lib/examConfig.ts:259-276 | with positive subject sizes, every question 1..total lies in exactly one subject's range |
| PatternConsistency.CglMainsRangesMatch | src/lib/parseSSCHtml.ts:74-80 | the parser's CGL Mains sections are exactly the ranges the catalog derives for SSC_CGL_MAINS (parts, subjects, bounds, marks, qualifying flag) |
| PatternConsistency.RrbNtpcRangesMatch | src/lib/parseSSCHtml.ts:83-87 | the parser's RRB NTPC sections match the catalog's RRB_NTPC_CBT1 ranges in everything except the deduction, which is 1/3 in the parser and 0.333 in the catalog |
| PatternConsistency.CglMainsTotals | src/lib/examConfig.ts:47-56 | SSC CGL Mains' 150 questions are its subjects' sum and its 390 marks exclude the qualifying subject |
| PatternConsistency.RrbNtpcTotals | src/lib/examConfig.ts:116-124 | RRB NTPC CBT-1's 100 questions and 100 marks are its subjects' sums |
| BaseUrl.MatchTouchstoneSound | src/lib/parseSSCHtml.ts:143 | every capture the hand-compiled matcher reports is one the regular expression matches at that position |
| BaseUrl.MatchTouchstoneComplete | src/lib/parseSSCHtml.ts:143 | whenever the regular expression matches at a position, the matcher reports that same capture |
| BaseUrl.DigitsThenLiteral | src/lib/parseSSCHtml.ts:143 | a greedy `\d+` followed by a literal that starts with a non-digit consumes exactly the digits before the literal |
| BaseUrl.FirstTouchstoneIndex | src/lib/parseSSCHtml.ts:143 | the leftmost position where the pattern matches, or none when it matches nowhere |
| BaseUrl.FirstTouchstone | src/lib/parseSSCHtml.ts:143 | there is no capture iff the pattern matches at no position of the page; otherwise the capture is that of the leftmost position where it matches |
| BaseUrl.ExtractBaseUrl | src/lib/parseSSCHtml.ts:141-150 | SSC host + the first touchstone path when one occurs; otherwise the RRB host iff the page mentions rrb.digialm.com, else the SSC host |
| BaseUrl.ExtractBaseUrlShape | src/lib/parseSSCHtml.ts:141-150 | the base URL is https, is the RRB host or begins with the SSC host, and any longer URL ends in a path the pattern matched in the page |
| BaseUrl.ResolveImageUrl | src/lib/parseSSCHtml.ts:152-159 | empty stays empty, absolute stays as is, root-relative goes onto the host chosen from the base URL, others onto the base URL; the source is always a suffix of the result |
| BaseUrl.ResolveImageUrlIdempotent | src/lib/parseSSCHtml.ts:152-159 | resolving an already resolved URL changes nothing |
| CandidateInfoExtraction.TableInfoKeys | src/lib/parseSSCHtml.ts:117-124 | a label is in the table's record iff some row with two or more cells carries it (trimmed, non-empty) |
| CandidateInfoExtraction.TableInfoLastWins | src/lib/parseSSCHtml.ts:117-124 | a label's value is the trimmed second cell of the last row carrying that label |
| CandidateInfoExtraction.TableInfo | src/lib/parseSSCHtml.ts:116-124 | every label recorded is non-empty |
| CandidateInfoExtraction.InfoSubjectIsLastRow | src/lib/parseSSCHtml.ts:117-124 | the record's subject is the trimmed value of the table's last row labelled "Subject" |
| CandidateInfoExtraction.LastOccurrence | src/lib/parseSSCHtml.ts:117-124 | every labelled row has a last row with the same label at or after it |
| CandidateInfoExtraction.InfoFrom | src/lib/parseSSCHtml.ts:126-135 | roll number, name, registration number, community and subject are the table's values for their labels ("" when absent); venue, date and time take the first label's value when it is non-empty and the fallback label's otherwise |
| CandidateInfoExtraction.FirstQualifying | src/lib/parseSSCHtml.ts:114-125 | no index iff no table names the candidate; otherwise the first table that does |
| CandidateInfoExtraction.ExtractCandidateInfo | src/lib/parseSSCHtml.ts:112-139 | null iff no table has a roll number, name or registration number; otherwise the record built from the first table that has one |
| CandidateInfoExtraction.ExtractedInfoIdentifies | src/lib/parseSSCHtml.ts:125-135 | an extracted record always carries a roll number, name or registration number |
| CandidateInfoExtraction.TableQualifiesIff | src/lib/parseSSCHtml.ts:117-125 | a table qualifies iff some identifying label's last row holds a non-empty value |
| CandidateInfoExtraction.QualifyingHasRow | src/lib/parseSSCHtml.ts:117-125 | a qualifying table has an identifying label whose last row holds a non-empty value |
| QuestionExtraction.FindQNumber | src/lib/parseSSCHtml.ts:177 | the leftmost position of `Q.` followed by a digit, or none when there is none |
| QuestionExtraction.SectionQuestionNumber | src/lib/parseSSCHtml.ts:174-179 | the section-local number is never negative and is 0 when the number cell is missing |
| QuestionExtraction.QCellUnpadded | src/lib/parseSSCHtml.ts:177 | a cell reading `Q.<digits>` and ending in a non-space is unchanged by trimming |
| QuestionExtraction.SectionQuestionNumberReads | src/lib/parseSSCHtml.ts:174-179 | a cell reading `Q.<digits>` followed by a non-digit yields the decimal value of those digits |
| QuestionExtraction.ChosenIn | src/lib/parseSSCHtml.ts:206-214 | only a row of two or more cells whose label contains "Chosen Option" and not "Status" reports a choice, and that choice is positive |
| QuestionExtraction.ChosenInReads | src/lib/parseSSCHtml.ts:212-213 | a "Chosen Option" row whose value is a positive number followed by non-digit text reports that number |
| QuestionExtraction.ChosenInZero | src/lib/parseSSCHtml.ts:213 | a value that reads as zero chooses nothing |
| QuestionExtraction.ReadMenu | src/lib/parseSSCHtml.ts:202-217 | the chosen option is absent or positive |
| QuestionExtraction.ReadMenuStatusIsLast | src/lib/parseSSCHtml.ts:206-211 | the status is the trimmed value of the last row whose label contains "Status" |
| QuestionExtraction.ReadMenuNoStatus | src/lib/parseSSCHtml.ts:203-211 | without a status row the status stays empty |
| QuestionExtraction.ReadMenuChosenIsLast | src/lib/parseSSCHtml.ts:206-215 | the chosen option is the one read from the last row that gives a positive "Chosen Option" |
| QuestionExtraction.ReadMenuNoChoice | src/lib/parseSSCHtml.ts:204-215 | without such a row no option is chosen |
| QuestionExtraction.ReadOption | src/lib/parseSSCHtml.ts:229-251 | an option carries its cell's number, is correct iff its cell is `rightAns`, and is chosen iff its number is the chosen option |
| QuestionExtraction.OptionNumber | src/lib/parseSSCHtml.ts:225-229 | an option number is never negative |
| QuestionExtraction.NumberPrefix | src/lib/parseSSCHtml.ts:226 | a number is only read from text that starts with a digit, and it is never negative |
| QuestionExtraction.NumberPrefixReads | src/lib/parseSSCHtml.ts:226-229 | digits followed by a dot read as the digits' decimal value |
| QuestionExtraction.OptionNumberReads | src/lib/parseSSCHtml.ts:225-229 | a cell whose trimmed text is digits, a dot and anything carries the digits' value as its option number |
| QuestionExtraction.OptionNumberNeedsDigit | src/lib/parseSSCHtml.ts:226-227 | a cell whose trimmed text does not start with a digit has no option number |
| QuestionExtraction.NumberPrefixNeedsDot | src/lib/parseSSCHtml.ts:226 | a digit run followed by neither a digit nor a dot reads as no number |
| QuestionExtraction.OptionNumberNeedsDot | src/lib/parseSSCHtml.ts:226-227 | a cell whose trimmed text is digits followed by neither a digit nor a dot (`12`, `3) foo`) has no option number |
| QuestionExtraction.Options | src/lib/parseSSCHtml.ts:224-252 | there is at most one option per answer cell |
| QuestionExtraction.OptionsSkipUnnumbered | src/lib/parseSSCHtml.ts:227 | cells without an `N.` prefix add no option |
| QuestionExtraction.OptionsFlags | src/lib/parseSSCHtml.ts:224-252 | every option is chosen iff its number is the chosen one, and an option marked correct comes from a numbered `rightAns` cell with that number |
| QuestionExtraction.OptionsCoverRightCells | src/lib/parseSSCHtml.ts:224-252 | every numbered `rightAns` cell gives a correct option with its number |
| QuestionExtraction.OptionsAppend | src/lib/parseSSCHtml.ts:224-252 | options of concatenated cells are the concatenated options (document order) |
| QuestionExtraction.LastTrueIsLast | src/lib/parseSSCHtml.ts:230-231 | the overwrite-in-a-loop search finds the last set flag, and finds none iff no flag is set |
| QuestionExtraction.LastRightIndex | src/lib/parseSSCHtml.ts:230-231 | a found index is a numbered `rightAns` cell |
| QuestionExtraction.LastRightIndexIsLast | src/lib/parseSSCHtml.ts:230-231 | no index iff no numbered `rightAns` cell exists; no such cell follows the found one |
| QuestionExtraction.CorrectOptionIsLastRight | src/lib/parseSSCHtml.ts:220-231 | the correct option is null iff no numbered `rightAns` cell exists, and otherwise the number of the last one |
| QuestionExtraction.BuildQuestion | src/lib/parseSSCHtml.ts:174-266 | the question carries its sequential number; its status and chosen option are the menu reading, its correct option the last numbered `rightAns` cell's number, its section-local number the `Q.N` cell's, and its options those read from the answer cells; it is correct iff an option was chosen and equals the correct option |
| QuestionExtraction.QuestionOptionsAgree | src/lib/parseSSCHtml.ts:245-254 | the option flags agree with the question: chosen flags follow the chosen option, no option is correct without a correct option, and the correct option appears among the options |
| QuestionExtraction.CompleteCells | src/lib/parseSSCHtml.ts:166-169 | a cell is kept iff it has both a question table and a menu table |
| QuestionExtraction.CompleteCellsAppend | src/lib/parseSSCHtml.ts:166-169 | keeping the complete cells preserves document order |
| QuestionExtraction.NoCompleteCells | src/lib/parseSSCHtml.ts:166-169 | a page without a complete cell has no questions to read |
| QuestionExtraction.NumberFromLength | src/lib/parseSSCHtml.ts:166-171 | the sequential counter numbers exactly one cell per complete cell |
| QuestionExtraction.NumberFromAt | src/lib/parseSSCHtml.ts:166-171 | the k-th numbered cell is the k-th complete cell and gets number count + k + 1 |
| QuestionExtraction.ExtractQuestionsAt | src/lib/parseSSCHtml.ts:161-171 | the k-th question is read from the k-th complete cell with number k + 1 |
| QuestionExtraction.ExtractQuestions | src/lib/parseSSCHtml.ts:161-270 | one question per complete cell, the k-th numbered k + 1 |
| QuestionExtraction.ExtractQuestionsNumbers | src/lib/parseSSCHtml.ts:161-270 | the questions are the complete cells read in order and numbered 1, 2, 3, ... |
| QuestionExtraction.ExtractedQuestionReads | src/lib/parseSSCHtml.ts:166-266 | the k-th extracted question is numbered k + 1 and carries the status, chosen option, correct option, section-local number and options read from the k-th complete cell |
| Scoring.Round2 | src/lib/parseSSCHtml.ts:304 | the result is a whole number of cents within half a cent of the input |
| Scoring.Round2Unique | src/lib/parseSSCHtml.ts:304 | the rounded value is the only whole number of cents that close to the input, halves rounding up |
| Scoring.Round2Cents | src/lib/parseSSCHtml.ts:304 | a whole number of cents is left unchanged |
| Scoring.Round2Idempotent | src/lib/parseSSCHtml.ts:304 | rounding twice is rounding once |
| Scoring.Round2Monotone | src/lib/parseSSCHtml.ts:304 | rounding preserves the order of scores |
| Scoring.SectionQuestions | src/lib/parseSSCHtml.ts:282-284 | a question is in the section's list iff it is a question whose number lies in the section's range |
| Scoring.SectionQuestionsAppend | src/lib/parseSSCHtml.ts:282-284 | the filter keeps question order |
| Scoring.CorrectAmongAnswered | src/lib/parseSSCHtml.ts:286-290 | when correctness implies a positive chosen option, correct answers never outnumber answered ones, so wrong is never negative |
| Scoring.AnsweredCountIsNumbers | src/lib/parseSSCHtml.ts:287-289 | with distinct question numbers, the answered count is the number of distinct answered question numbers in the range |
| Scoring.AnsweredFitsSection | src/lib/parseSSCHtml.ts:287-291 | with distinct numbers, a section never has more answered questions than its size, so skipped is never negative |
| Scoring.ScoreSection | src/lib/parseSSCHtml.ts:281-305 | a section result copies its section's labels and marks; correct is the number of its questions marked correct, correct + wrong their answered count, and correct + wrong + skipped the section size; the score is the whole number of cents nearest correct*marks - wrong*deduction |
| Scoring.ScoreSections | src/lib/parseSSCHtml.ts:281-312 | the loop reports at most one result per section |
| Scoring.ScoreSectionCountsNonNegative | src/lib/parseSSCHtml.ts:286-291 | on well-formed questions no count of a section is negative |
| Scoring.ScoreSectionAllCorrect | src/lib/parseSSCHtml.ts:286-304 | a section with every question correct has no wrong or skipped answers and scores its size times the marks per answer |
| Scoring.CountedMembers | src/lib/parseSSCHtml.ts:307-311 | a section is counted iff it is in the pattern and not qualifying |
| Scoring.ScoreSectionsCounted | src/lib/parseSSCHtml.ts:281-312 | the section results are exactly the non-qualifying sections' results, in pattern order |
| Scoring.ScoreSectionsQualifying | src/lib/parseSSCHtml.ts:307-308 | the qualifying result is the last qualifying section's result |
| Scoring.ScoreSectionsNoQualifying | src/lib/parseSSCHtml.ts:279-311 | with no qualifying section there is no qualifying result |
| Scoring.CalculateScorecard | src/lib/parseSSCHtml.ts:272-333 | the scorecard passes the questions, base URL, candidate and pattern through; total correct, wrong, skipped and max marks are the sums of those fields over the reported sections; the total score is the whole number of cents nearest the sum of section scores |
| Scoring.ScorecardSections | src/lib/parseSSCHtml.ts:281-312 | the scorecard's sections are the non-qualifying sections' results in pattern order; its qualifying result is the last qualifying section's, and none when no section qualifies |
| Scoring.SumsSnoc | src/lib/parseSSCHtml.ts:314-318 | each running total grows by the appended section's value |
| Scoring.CountsCoverSections | src/lib/parseSSCHtml.ts:281-318 | the counted results' correct + wrong + skipped sum to the counted sections' sizes, and their max marks to the counted sections' marks |
| Scoring.ScorecardTotals | src/lib/parseSSCHtml.ts:314-318 | total correct + wrong + skipped is the number of questions in the counted sections, and total max marks is their marks |
| Scoring.ScorecardCountsNonNegative | src/lib/parseSSCHtml.ts:281-311 | on well-formed questions and ordered ranges, no section result has a negative count |
| Scoring.EmptySectionScoresZero | src/lib/parseSSCHtml.ts:282-304 | a section with no questions has zero correct, zero wrong and a zero score |
| Scoring.NoQuestionsScoreZero | src/lib/parseSSCHtml.ts:281-311 | with no questions every section has zero correct, zero wrong and zero score |
| Scoring.ScorecardOfNoQuestions | src/lib/parseSSCHtml.ts:272-333 | a scorecard of no questions has zero correct, wrong and score, and every counted question skipped |
| Scoring.CglMainsCountedSize | src/lib/parseSSCHtml.ts:74-80 | the counted CGL Mains sections span 130 questions (Computer Knowledge qualifies only) |
| Scoring.RrbNtpcCountedSize | src/lib/parseSSCHtml.ts:83-87 | the RRB NTPC sections span 100 questions |
| Scoring.BuiltInRangesOrdered | src/lib/parseSSCHtml.ts:74-87 | every built-in section's start is at most its end |
| Scoring.OneRightOneWrong | src/lib/parseSSCHtml.ts:292-304 | on RRB NTPC one right and one wrong answer score 0.67 once rounded |
| ResponseSheet.DetectExamType | src/lib/parseSSCHtml.ts:94-100 | the pattern is RRB NTPC iff the lower-cased subject contains "rrb" or "ntpc" or the page contains rrb.digialm.com, and SSC CGL Mains otherwise |
| ResponseSheet.DetectIgnoresSubjectCase | src/lib/parseSSCHtml.ts:95 | detection does not depend on the letter case of the subject |
| ResponseSheet.RrbHostMeansRrbPattern | src/lib/parseSSCHtml.ts:94-100 | a page whose base URL fell back to the RRB host is scored on the RRB pattern |
| ResponseSheet.ParseSscHtml | src/lib/parseSSCHtml.ts:102-110 | the scorecard is built from the page's base URL, candidate record, detected pattern and extracted questions, with one question per complete cell |
| ResponseSheet.ExtractedQuestionsWellFormed | src/lib/parseSSCHtml.ts:254-257 | extracted questions have distinct numbers and are correct only with a positive chosen option |
| ResponseSheet.ParsedCountsNonNegative | src/lib/parseSSCHtml.ts:102-110 | no section of a parsed page shows a negative correct, wrong or skipped count |
| ResponseSheet.ParsedTotals | src/lib/parseSSCHtml.ts:314-316 | on any page, total correct + wrong + skipped is 100 for RRB NTPC and 130 for CGL Mains |
| ResponseSheet.EmptySheetAllSkipped | src/lib/parseSSCHtml.ts:102-110 | a page with no complete question cell has no questions, zero correct, wrong and score, and all 100 or 130 counted questions skipped |
| ResponseSheet.FindPart | src/lib/parseSSCHtml.ts:337 | the first section with the part label, none iff no section has it |
| ResponseSheet.GetQuestionsForSection | src/lib/parseSSCHtml.ts:335-342 | an unknown part shows nothing; otherwise the view is the range filter of the first section with that part, so it holds exactly the parsed questions in that range |
| ResponseSheet.SectionViewKeepsOrder | src/lib/parseSSCHtml.ts:339-341 | the view keeps the questions in document order |
| ResponseSheet.SectionViewMatchesBreakdown | src/lib/parseSSCHtml.ts:281-342 | the questions shown for a section have the correct and answered counts of the breakdown the scorecard reports for it: its entry in the counted sections, or the qualifying result when it is the last qualifying section |
| ResponseSheet.CountedViewMatches | src/lib/parseSSCHtml.ts:281-342 | a counted section's view has the correct and answered counts of a reported section entry with the same part |
| ResponseSheet.QualifyingViewMatches | src/lib/parseSSCHtml.ts:281-342 | the last qualifying section's view has the correct and answered counts of the reported qualifying result |
| MultiPart.FindPage | supabase/functions/analyze-response-sheet/index.ts:48 | the leftmost case-insensitive occurrence of `ViewCandResponse.aspx`, none iff there is none |
| MultiPart.IsViewCandResponse | supabase/functions/analyze-response-sheet/index.ts:40-42 | a URL is a response-sheet URL iff its lower-cased text contains `viewcandresponse` at some position |
| MultiPart.PartUrlShape | supabase/functions/analyze-response-sheet/index.ts:48 | a part URL is one character longer, keeps the text around the page name, and has the part digit after `ViewCandResponse` |
| MultiPart.ReplacePage | supabase/functions/analyze-response-sheet/index.ts:48 | without the page name the URL is unchanged, otherwise only its first occurrence is replaced and the URL changes |
| MultiPart.GetMultiPartUrls | supabase/functions/analyze-response-sheet/index.ts:44-52 | the URL comes first; without the page name it is alone, otherwise parts 2 to 5 follow in order; all URLs are distinct |
| MultiPart.PartsStep | supabase/functions/analyze-response-sheet/index.ts:47-50 | one loop turn appends part i exactly when the replacement changed the URL, keeping the list in part order and free of repeats |
| MultiPart.AppendPart | supabase/functions/analyze-response-sheet/index.ts:49 | appending part i to the page and parts 2..i-1 gives the page and parts 2..i without repeats |
| MultiPart.DistinctSnoc | supabase/functions/analyze-response-sheet/index.ts:49 | the next part URL differs from the page and from every earlier part |
| MultiPart.PartUrlsDistinct | supabase/functions/analyze-response-sheet/index.ts:47-50 | part URLs differ from the page and from each other |
| MultiPart.PartUrlIsViewCandResponse | supabase/functions/analyze-response-sheet/index.ts:40-48 | every part URL still passes the response-sheet URL test |
| MultiPart.PageUrlIsViewCandResponse | supabase/functions/analyze-response-sheet/index.ts:40-48 | a URL with the page name passes the response-sheet URL test |
| Strings.TrimPadded | src/lib/parseSSCHtml.ts:120-121 | trimming removes exactly the surrounding white space of a value |
| Strings.TrimDropsOnlySpace | src/lib/parseSSCHtml.ts:120-121 | the trimmed text is a slice of the original with only white space around it |
| Strings.ContainsIff | src/lib/parseSSCHtml.ts:211-212 | `includes` holds iff the needle occurs at some position |
| Strings.LowerIdempotent | src/lib/parseSSCHtml.ts:95 | lower-casing twice is lower-casing once, and leaves no upper-case ASCII letter |
| Strings.ParseSignedOfDigits | src/lib/parseSSCHtml.ts:229 | an unsigned digit run followed by a non-digit reads as its decimal value |
| Strings.ParseIntOfDigits | src/lib/parseSSCHtml.ts:213 | `parseInt` of a digit run followed by a non-digit is the run's decimal value |

## Left out

- The React components and pages are not modelled, nor the URL form, loaders or cards. They only display the scorecard.
- The network is left out. This covers the `fetch-ssc-html` function and `fetchWithFallback`/`fetchMultiPart` in the `analyze-response-sheet` function, including the concatenation of part pages. Only `isViewCandResponse` and `getMultiPartUrls` are modelled.
- `DOMParser` and CSS selectors are not modelled. The parsed document is an input datatype: tables of rows of trimmed-before-use cell texts, and question cells with optional question and menu tables, answer cells and image sources. A missing `src` attribute is the empty string, as `getAttribute('src') || ''` makes it.
- IEEE-754 doubles are not modelled; marks and scores are exact reals. `1/3` is exact, and only `Math.round`'s round-half-up rule is kept.
- `parseInt` corner cases are not modelled. `ParseInt` reads optional leading white space, a sign and decimal digits. It does not model the `0x` hexadecimal prefix or precision loss above 2^53.
- Unicode case mapping is not modelled: `Lower` maps ASCII letters only. The model compares lower-cased text only with the ASCII needles `rrb`, `ntpc`, `viewcandresponse` and `viewcandresponse.aspx`. A non-ASCII character never lower-cases to one of their letters, except U+0130, which lower-cases to two characters and cannot complete a match.
- The second base-URL pattern (`parseSSCHtml.ts` line 146) is not modelled separately. It repeats the first, so its branch is unreachable.
- `getExamSections` is not modelled. It is a one-line accessor whose `?.`/`??` guards only matter for a missing scorecard, which the typed model cannot have.
- The emoji of the exam categories are kept only as data; no property speaks about them.
- ExamCatalog.ExamsInCategory: states membership and length, not element order; order preservation is the separate lemma ExamsInCategoryAppend.
- QuestionExtraction.SectionQuestionNumber: its own contract states only that the number is never negative and is 0 without a number cell. The value read is stated by the separate lemma SectionQuestionNumberReads, and only for a cell that starts with `Q.`.
- QuestionExtraction.ReadMenu: its own contract states only that the chosen option is absent or positive. Which row wins is stated by the four ReadMenu lemmas.
- CandidateInfoExtraction.TableInfo: its own contract states only that recorded labels are non-empty. Which labels are recorded, and with which values, is stated by TableInfoKeys and TableInfoLastWins.
- QuestionExtraction.OptionNumber: its own contract states only that the number is never negative. The number read is stated by OptionNumberReads. The cells without one are stated by OptionNumberNeedsDigit, for text not starting with a digit, and by OptionNumberNeedsDot, for digits followed by neither a digit nor a dot.
- QuestionExtraction.Options: its own contract bounds the number of options. Their flags, order and skipped cells are stated by OptionsFlags, OptionsCoverRightCells, OptionsAppend and OptionsSkipUnnumbered.
- Scoring.ScoreSections: its own contract bounds the number of results. Which results it reports is stated by ScoreSectionsCounted, ScoreSectionsQualifying and ScoreSectionsNoQualifying.
