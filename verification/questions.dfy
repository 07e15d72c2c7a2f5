/**
 * Question extraction: every question cell that has both a question table and a menu table
 * becomes one question, numbered 1, 2, ... in document order; the menu table gives the status
 * and the chosen option, the answer cells give the options and the correct option.
 */
module QuestionExtraction {
  import opened Wrappers
  import opened Strings
  import opened SheetTypes
  import BaseUrl

  // ---------------------------------------------------------------------------
  // Section-local number: /Q\.(\d+)/

  /** `Q.` followed by a digit starts at index `i` of `t`. */
  predicate QNumberAt(t: string, i: nat) {
    i + 2 < |t| && t[i] == 'Q' && t[i + 1] == '.' && IsDigit(t[i + 2])
  }

  /** The leftmost index at or after `from` where `Q.<digit>` starts. */
  function FindQNumber(t: string, from: nat): (r: Option<nat>)
    ensures r.Some? ==> from <= r.value && QNumberAt(t, r.value)
    ensures r.Some? ==> forall i :: from <= i < r.value ==> !QNumberAt(t, i)
    ensures r.None? ==> forall i :: from <= i ==> !QNumberAt(t, i)
    decreases |t| - from
  {
    if from + 2 >= |t| then None
    else if QNumberAt(t, from) then Some(from)
    else FindQNumber(t, from + 1)
  }

  /** The printed section-local number of the `Q.N` cell's trimmed text, 0 when absent. */
  function SectionQuestionNumber(numberCell: Option<string>): (n: int)
    ensures n >= 0
    ensures numberCell.None? ==> n == 0
  {
    if numberCell.None? then 0
    else
      var t := Trim(numberCell.value);
      var i := FindQNumber(t, 0);
      if i.None? then 0
      else DigitsValue(t[i.value + 2..i.value + 2 + DigitRun(t, i.value + 2)])
  }

  /** A cell reading `Q.<digits>` and then non-digit text yields those digits' value. */
  lemma SectionQuestionNumberReads(d: string, rest: string)
    requires |d| > 0 && AllDigits(d)
    requires |rest| == 0 || !IsDigit(rest[0])
    requires |rest| > 0 ==> !IsSpace(rest[|rest| - 1])
    ensures SectionQuestionNumber(Some("Q." + d + rest)) == DigitsValue(d)
  {
    var t := "Q." + d + rest;
    QCellUnpadded(d, rest);
    QDigits(t, d, rest);
    assert SectionQuestionNumber(Some(t)) == DigitsValue(t[2..2 + |d|]);
  }

  /** Such a cell has no white space to trim. */
  lemma QCellUnpadded(d: string, rest: string)
    requires |d| > 0 && AllDigits(d)
    requires |rest| > 0 ==> !IsSpace(rest[|rest| - 1])
    ensures Trim("Q." + d + rest) == "Q." + d + rest
  {
    var t := "Q." + d + rest;
    if |rest| > 0 {
      assert t[|t| - 1] == rest[|rest| - 1];
    } else {
      assert t == "Q." + d;
      assert t[|t| - 1] == d[|d| - 1] && IsDigit(d[|d| - 1]);
    }
    assert t[0] == 'Q';
    TrimUnpadded(t);
  }

  lemma QDigits(t: string, d: string, rest: string)
    requires t == "Q." + d + rest
    requires |d| > 0 && AllDigits(d)
    requires |rest| == 0 || !IsDigit(rest[0])
    ensures FindQNumber(t, 0) == Some(0)
    ensures DigitRun(t, 2) == |d| && t[2..2 + |d|] == d
  {
    assert QNumberAt(t, 0);
    assert t[2..2 + |d|] == d;
    DigitRunExact(t, 2, |d|) by {
      if |rest| > 0 { assert t[2 + |d|] == rest[0]; }
    }
  }

  // ---------------------------------------------------------------------------
  // The menu table

  predicate IsStatusRow(row: Row) {
    |row| >= 2 && Contains(Trim(row[0]), "Status")
  }

  /** The positive chosen option a "Chosen Option" row reports, if any. */
  function ChosenIn(row: Row): (r: Option<int>)
    ensures r.Some? ==> r.value > 0
    ensures r.Some? ==> |row| >= 2 && !IsStatusRow(row) && Contains(Trim(row[0]), "Chosen Option")
  {
    if |row| >= 2 && !IsStatusRow(row) && Contains(Trim(row[0]), "Chosen Option") then
      var n := ParseInt(Trim(row[1]));
      if n.Some? && n.value > 0 then n else None
    else None
  }

  /** A "Chosen Option" row whose value reads as a positive number `d` followed by non-digit text reports `d`. */
  lemma ChosenInReads(row: Row, d: string, rest: string)
    requires |row| >= 2 && Contains(Trim(row[0]), "Chosen Option") && !Contains(Trim(row[0]), "Status")
    requires |d| > 0 && AllDigits(d) && DigitsValue(d) > 0
    requires |rest| == 0 || !IsDigit(rest[0])
    requires Trim(row[1]) == d + rest
    ensures ChosenIn(row) == Some(DigitsValue(d))
  {
    ParseIntOfDigits(d, rest);
  }

  /** A "Chosen Option" value whose leading digits read as zero chooses nothing. */
  lemma ChosenInZero(row: Row, d: string, rest: string)
    requires |d| > 0 && AllDigits(d) && DigitsValue(d) == 0
    requires |rest| == 0 || !IsDigit(rest[0])
    requires |row| >= 2 && Trim(row[1]) == d + rest
    ensures ChosenIn(row).None?
  {
    ParseIntOfDigits(d, rest);
  }

  datatype MenuReading = MenuReading(status: string, chosenOption: Option<int>)

  /** The menu rows, folded in order: a later Status row or valid Chosen Option row overrides an earlier one. */
  function ReadMenu(rows: seq<Row>): (m: MenuReading)
    ensures m.chosenOption.None? || m.chosenOption.value > 0
  {
    if |rows| == 0 then MenuReading("", None)
    else
      var prev := ReadMenu(rows[..|rows| - 1]);
      var row := rows[|rows| - 1];
      MenuReading(
        if IsStatusRow(row) then Trim(row[1]) else prev.status,
        if ChosenIn(row).Some? then ChosenIn(row) else prev.chosenOption)
  }

  /** The status is the trimmed value of the last Status row. */
  lemma {:induction false} ReadMenuStatusIsLast(rows: seq<Row>, k: int)
    requires 0 <= k < |rows| && IsStatusRow(rows[k])
    requires forall k' :: k < k' < |rows| ==> !IsStatusRow(rows[k'])
    ensures ReadMenu(rows).status == Trim(rows[k][1])
  {
    var init := rows[..|rows| - 1];
    if k < |rows| - 1 {
      assert init[k] == rows[k];
      assert forall k' :: k < k' < |init| ==> init[k'] == rows[k'];
      ReadMenuStatusIsLast(init, k);
    }
  }

  /** Without a Status row the status stays empty. */
  lemma {:induction false} ReadMenuNoStatus(rows: seq<Row>)
    requires forall k :: 0 <= k < |rows| ==> !IsStatusRow(rows[k])
    ensures ReadMenu(rows).status == ""
  {
    if |rows| > 0 {
      var init := rows[..|rows| - 1];
      assert forall k :: 0 <= k < |init| ==> init[k] == rows[k];
      ReadMenuNoStatus(init);
    }
  }

  /** The chosen option is that of the last row reporting a valid one. */
  lemma {:induction false} ReadMenuChosenIsLast(rows: seq<Row>, k: int)
    requires 0 <= k < |rows| && ChosenIn(rows[k]).Some?
    requires forall k' :: k < k' < |rows| ==> ChosenIn(rows[k']).None?
    ensures ReadMenu(rows).chosenOption == ChosenIn(rows[k])
  {
    var init := rows[..|rows| - 1];
    if k < |rows| - 1 {
      assert init[k] == rows[k];
      assert forall k' :: k < k' < |init| ==> init[k'] == rows[k'];
      ReadMenuChosenIsLast(init, k);
    }
  }

  /** Without a valid Chosen Option row nothing is chosen; an invalid later row never clears an earlier choice. */
  lemma {:induction false} ReadMenuNoChoice(rows: seq<Row>)
    requires forall k :: 0 <= k < |rows| ==> ChosenIn(rows[k]).None?
    ensures ReadMenu(rows).chosenOption.None?
  {
    if |rows| > 0 {
      var init := rows[..|rows| - 1];
      assert forall k :: 0 <= k < |init| ==> init[k] == rows[k];
      ReadMenuNoChoice(init);
    }
  }

  // ---------------------------------------------------------------------------
  // Answer cells: /^(\d+)\.\s*/

  /** The option number a cell's trimmed text starts with (`N.`), if it does. */
  function OptionNumber(cell: AnswerCell): (r: Option<int>)
    ensures r.Some? ==> r.value >= 0
  {
    NumberPrefix(Trim(cell.text))
  }

  /** The value of the digits `t` starts with, when a dot follows them. */
  function NumberPrefix(t: string): (r: Option<int>)
    ensures r.Some? ==> r.value >= 0 && |t| > 0 && IsDigit(t[0])
  {
    var n := DigitRun(t, 0);
    if n > 0 && n < |t| && t[n] == '.' then Some(DigitsValue(t[..n])) else None
  }

  /** Digits `d` followed by a dot read as `d`. */
  lemma NumberPrefixReads(t: string, d: string, rest: string)
    requires |d| > 0 && AllDigits(d)
    requires t == d + "." + rest
    ensures NumberPrefix(t) == Some(DigitsValue(d))
  {
    assert t == d + ("." + rest);
    DigitRunOfPrefix(d, "." + rest);
    assert t[|d|] == '.' && t[..|d|] == d;
  }

  /** A cell whose trimmed text starts with digits `d` and a dot carries option number `d`. */
  lemma OptionNumberReads(cell: AnswerCell, d: string, rest: string)
    requires |d| > 0 && AllDigits(d)
    requires Trim(cell.text) == d + "." + rest
    ensures OptionNumber(cell) == Some(DigitsValue(d))
  {
    NumberPrefixReads(Trim(cell.text), d, rest);
  }

  /** Digits not followed by a dot (`12`, `3) foo`) are no option number. */
  lemma NumberPrefixNeedsDot(t: string, d: string, rest: string)
    requires |d| > 0 && AllDigits(d)
    requires rest == "" || (rest[0] != '.' && !IsDigit(rest[0]))
    requires t == d + rest
    ensures NumberPrefix(t).None?
  {
    DigitRunOfPrefix(d, rest);
    if |rest| > 0 {
      assert t[|d|] == rest[0];
    }
  }

  /** A cell whose trimmed text is digits followed by anything but a digit or a dot has no option number. */
  lemma OptionNumberNeedsDot(cell: AnswerCell, d: string, rest: string)
    requires |d| > 0 && AllDigits(d)
    requires rest == "" || (rest[0] != '.' && !IsDigit(rest[0]))
    requires Trim(cell.text) == d + rest
    ensures OptionNumber(cell).None?
  {
    NumberPrefixNeedsDot(Trim(cell.text), d, rest);
  }

  /** A cell whose trimmed text does not start with a digit has no option number. */
  lemma OptionNumberNeedsDigit(cell: AnswerCell)
    requires Trim(cell.text) == "" || !IsDigit(Trim(cell.text)[0])
    ensures OptionNumber(cell).None?
  {
  }

  /** The option text: what follows `N.` and white space, trimmed; None when empty. */
  function OptionText(cell: AnswerCell): Option<string>
    requires OptionNumber(cell).Some?
  {
    var t := Trim(cell.text);
    var rest := Trim(t[DigitRun(t, 0) + 1..]);
    if rest != "" then Some(rest) else None
  }

  /** The option record of a numbered answer cell. */
  function ReadOption(cell: AnswerCell, chosen: Option<int>, baseUrl: string): (o: OptionImage)
    requires OptionNumber(cell).Some?
    ensures o.optionNumber == OptionNumber(cell).value
    ensures o.isCorrect <==> cell.isRight
    ensures o.isChosen <==> chosen == Some(o.optionNumber)
  {
    var n := OptionNumber(cell).value;
    OptionImage(
      n,
      if cell.namedImageSrc.Some? then Some(BaseUrl.ResolveImageUrl(cell.namedImageSrc.value, baseUrl)) else None,
      OptionText(cell),
      cell.isRight,
      chosen == Some(n))
  }

  /** A numbered `rightAns` cell. */
  predicate IsRightNumbered(cell: AnswerCell) {
    cell.isRight && OptionNumber(cell).Some?
  }

  /** A numbered `rightAns` cell carrying number `n`. */
  predicate RightWith(cell: AnswerCell, n: int) {
    cell.isRight && OptionNumber(cell) == Some(n)
  }

  /** The options: one per answer cell with an `N.` prefix, in document order; other cells are ignored. */
  function Options(cells: seq<AnswerCell>, chosen: Option<int>, baseUrl: string): (r: seq<OptionImage>)
    ensures |r| <= |cells|
  {
    if |cells| == 0 then []
    else
      var rest := Options(cells[1..], chosen, baseUrl);
      if OptionNumber(cells[0]).Some? then [ReadOption(cells[0], chosen, baseUrl)] + rest else rest
  }

  /** Each option is marked chosen iff its number is the chosen option, and correct only if a numbered right cell carries its number. */
  lemma {:induction false} OptionsFlags(cells: seq<AnswerCell>, chosen: Option<int>, baseUrl: string)
    ensures forall o :: o in Options(cells, chosen, baseUrl) ==> (o.isChosen <==> chosen == Some(o.optionNumber))
    ensures forall o :: o in Options(cells, chosen, baseUrl) && o.isCorrect ==>
              exists k :: 0 <= k < |cells| && RightWith(cells[k], o.optionNumber)
  {
    if |cells| > 0 {
      var tail := cells[1..];
      var rest := Options(tail, chosen, baseUrl);
      var r := Options(cells, chosen, baseUrl);
      OptionsFlags(tail, chosen, baseUrl);
      var head := if OptionNumber(cells[0]).Some? then [ReadOption(cells[0], chosen, baseUrl)] else [];
      assert r == head + rest;
      forall o | o in r && o.isCorrect
        ensures exists k :: 0 <= k < |cells| && RightWith(cells[k], o.optionNumber)
      {
        if o in rest {
          var k :| 0 <= k < |tail| && RightWith(tail[k], o.optionNumber);
          assert tail[k] == cells[k + 1];
        } else {
          assert o in head;
          assert RightWith(cells[0], o.optionNumber);
        }
      }
    }
  }

  /** The number of every numbered right cell appears as a correct option. */
  lemma {:induction false} OptionsCoverRightCells(cells: seq<AnswerCell>, chosen: Option<int>, baseUrl: string, k: int)
    requires 0 <= k < |cells| && IsRightNumbered(cells[k])
    ensures exists o :: o in Options(cells, chosen, baseUrl) && o.isCorrect && o.optionNumber == OptionNumber(cells[k]).value
  {
    if k == 0 {
      assert ReadOption(cells[0], chosen, baseUrl) in Options(cells, chosen, baseUrl);
    } else {
      assert cells[1..][k - 1] == cells[k];
      OptionsCoverRightCells(cells[1..], chosen, baseUrl, k - 1);
    }
  }

  /** Cells without an `N.` prefix add no option. */
  lemma {:induction false} OptionsSkipUnnumbered(cells: seq<AnswerCell>, chosen: Option<int>, baseUrl: string)
    requires forall k :: 0 <= k < |cells| ==> OptionNumber(cells[k]).None?
    ensures Options(cells, chosen, baseUrl) == []
  {
    if |cells| > 0 {
      assert forall k :: 0 <= k < |cells| - 1 ==> cells[1..][k] == cells[k + 1];
      OptionsSkipUnnumbered(cells[1..], chosen, baseUrl);
    }
  }

  /** Options of consecutive runs of cells are the concatenated options: document order is kept. */
  lemma {:induction false} OptionsAppend(a: seq<AnswerCell>, b: seq<AnswerCell>, chosen: Option<int>, baseUrl: string)
    ensures Options(a + b, chosen, baseUrl) == Options(a, chosen, baseUrl) + Options(b, chosen, baseUrl)
  {
    if |a| == 0 {
      assert a + b == b;
    } else {
      assert (a + b)[1..] == a[1..] + b;
      OptionsAppend(a[1..], b, chosen, baseUrl);
    }
  }

  /** Whether each answer cell is a numbered `rightAns` cell. */
  function RightFlags(cells: seq<AnswerCell>): (r: seq<bool>)
    ensures |r| == |cells|
    ensures forall k :: 0 <= k < |cells| ==> r[k] == IsRightNumbered(cells[k])
  {
    seq(|cells|, k requires 0 <= k < |cells| => IsRightNumbered(cells[k]))
  }

  /** Index of the last set flag. */
  function LastTrue(flags: seq<bool>): (r: Option<nat>)
    ensures r.Some? ==> r.value < |flags| && flags[r.value]
  {
    if |flags| == 0 then None
    else if flags[|flags| - 1] then Some(|flags| - 1)
    else LastTrue(flags[..|flags| - 1])
  }

  /** No flag after the one found is set, and none is found only when no flag is set. */
  lemma {:induction false} LastTrueIsLast(flags: seq<bool>)
    ensures LastTrue(flags).None? <==> forall k :: 0 <= k < |flags| ==> !flags[k]
    ensures LastTrue(flags).Some? ==> forall k :: LastTrue(flags).value < k < |flags| ==> !flags[k]
  {
    if |flags| > 0 && !flags[|flags| - 1] {
      var init := flags[..|flags| - 1];
      LastTrueIsLast(init);
      assert forall k :: 0 <= k < |init| ==> init[k] == flags[k];
    }
  }

  /** Index of the last numbered `rightAns` cell: the assignment in the loop keeps the last one. */
  function LastRightIndex(cells: seq<AnswerCell>): (r: Option<nat>)
    ensures r.Some? ==> r.value < |cells| && IsRightNumbered(cells[r.value])
  {
    LastTrue(RightFlags(cells))
  }

  /** No numbered `rightAns` cell follows the one found, and none is found only when there is none. */
  lemma LastRightIndexIsLast(cells: seq<AnswerCell>)
    ensures LastRightIndex(cells).None? <==> forall k :: 0 <= k < |cells| ==> !IsRightNumbered(cells[k])
    ensures LastRightIndex(cells).Some? ==> forall k :: LastRightIndex(cells).value < k < |cells| ==> !IsRightNumbered(cells[k])
  {
    LastTrueIsLast(RightFlags(cells));
  }

  /** `correctOption`: the number of the last numbered `rightAns` cell, None when there is none. */
  function CorrectOption(cells: seq<AnswerCell>): (r: Option<int>)
    ensures r.Some? ==> r.value >= 0
  {
    var i := LastRightIndex(cells);
    if i.Some? then OptionNumber(cells[i.value]) else None
  }

  /** The correct option is None exactly when no numbered right cell exists, and otherwise the number of the last one. */
  lemma CorrectOptionIsLastRight(cells: seq<AnswerCell>)
    ensures CorrectOption(cells).None? <==> forall k :: 0 <= k < |cells| ==> !IsRightNumbered(cells[k])
    ensures CorrectOption(cells).Some? ==>
              exists k :: 0 <= k < |cells| && RightWith(cells[k], CorrectOption(cells).value)
                && forall k' :: k < k' < |cells| ==> !IsRightNumbered(cells[k'])
  {
    LastRightIndexIsLast(cells);
    var i := LastRightIndex(cells);
    if i.Some? {
      assert RightWith(cells[i.value], CorrectOption(cells).value);
    }
  }

  // ---------------------------------------------------------------------------
  // One question

  /** The question body's image URL and text. */
  function ReadBody(body: Option<BodyCell>, baseUrl: string): (Option<string>, Option<string>) {
    if body.None? then (None, None)
    else
      var imageUrl := if body.value.imageSrc.Some? then Some(BaseUrl.ResolveImageUrl(body.value.imageSrc.value, baseUrl)) else None;
      var text := Trim(body.value.text);
      (imageUrl, if text != "" then Some(text) else None)
  }

  /** The question extracted from a question table and a menu table, numbered `index`. */
  function BuildQuestion(qt: QuestionTable, menu: seq<Row>, index: int, baseUrl: string): (q: QuestionResult)
    ensures q.questionNumber == index
    ensures q.chosenOption.None? || q.chosenOption.value > 0
    ensures q.isCorrect <==> q.chosenOption.Some? && q.chosenOption == q.correctOption
    ensures q.status == ReadMenu(menu).status && q.chosenOption == ReadMenu(menu).chosenOption
    ensures q.correctOption == CorrectOption(qt.answers)
    ensures q.sectionQuestionNumber == SectionQuestionNumber(qt.numberCell)
    ensures q.optionImages == Options(qt.answers, q.chosenOption, baseUrl)
  {
    var m := ReadMenu(menu);
    var correct := CorrectOption(qt.answers);
    var body := ReadBody(qt.body, baseUrl);
    QuestionResult(
      questionNumber := index,
      sectionQuestionNumber := SectionQuestionNumber(qt.numberCell),
      status := m.status,
      chosenOption := m.chosenOption,
      isCorrect := m.chosenOption.Some? && m.chosenOption == correct,
      correctOption := correct,
      questionText := body.1,
      questionImageUrl := body.0,
      optionImages := Options(qt.answers, m.chosenOption, baseUrl))
  }

  /** The options of a built question agree with its chosen and correct options. */
  lemma QuestionOptionsAgree(qt: QuestionTable, menu: seq<Row>, index: int, baseUrl: string)
    ensures var q := BuildQuestion(qt, menu, index, baseUrl);
            && (forall o :: o in q.optionImages ==> (o.isChosen <==> q.chosenOption == Some(o.optionNumber)))
            && (q.correctOption.None? ==> forall o :: o in q.optionImages ==> !o.isCorrect)
            && (q.correctOption.Some? ==> exists o :: o in q.optionImages && o.isCorrect && o.optionNumber == q.correctOption.value)
  {
    var q := BuildQuestion(qt, menu, index, baseUrl);
    OptionsFlags(qt.answers, q.chosenOption, baseUrl);
    var i := LastRightIndex(qt.answers);
    LastRightIndexIsLast(qt.answers);
    if i.Some? {
      OptionsCoverRightCells(qt.answers, q.chosenOption, baseUrl, i.value);
    }
  }

  // ---------------------------------------------------------------------------
  // The whole document

  /** A question cell with both its question table and its menu table. */
  predicate IsComplete(cell: QuestionCell) {
    cell.questionTable.Some? && cell.menuTable.Some?
  }

  /** The complete cells, in document order. */
  function CompleteCells(cells: seq<QuestionCell>): (r: seq<QuestionCell>)
    ensures |r| <= |cells|
    ensures forall c :: c in r <==> c in cells && IsComplete(c)
  {
    if |cells| == 0 then []
    else (if IsComplete(cells[0]) then [cells[0]] else []) + CompleteCells(cells[1..])
  }

  /** Keeping the complete cells distributes over concatenation: document order is kept. */
  lemma {:induction false} CompleteCellsAppend(a: seq<QuestionCell>, b: seq<QuestionCell>)
    ensures CompleteCells(a + b) == CompleteCells(a) + CompleteCells(b)
  {
    if |a| == 0 {
      assert a + b == b;
    } else {
      assert (a + b)[1..] == a[1..] + b;
      CompleteCellsAppend(a[1..], b);
    }
  }

  /** A document with no complete question cell has none to extract. */
  lemma {:induction false} NoCompleteCells(cells: seq<QuestionCell>)
    requires forall k :: 0 <= k < |cells| ==> !IsComplete(cells[k])
    ensures CompleteCells(cells) == []
  {
    if |cells| > 0 {
      assert !IsComplete(cells[0]);
      assert forall k :: 0 <= k < |cells| - 1 ==> cells[1..][k] == cells[k + 1];
      NoCompleteCells(cells[1..]);
    }
  }

  /** The question built from a complete cell, numbered `index`. */
  function QuestionOf(cell: QuestionCell, index: int, baseUrl: string): (q: QuestionResult)
    requires IsComplete(cell)
    ensures q.questionNumber == index
  {
    BuildQuestion(cell.questionTable.value, cell.menuTable.value, index, baseUrl)
  }

  /**
   * The extraction loop's numbering: each complete cell paired with the value of the
   * sequential counter after its increment, `count` cells having been numbered before `cells`.
   */
  function NumberFrom(cells: seq<QuestionCell>, count: nat): (r: seq<(QuestionCell, int)>)
    ensures forall k :: 0 <= k < |r| ==> IsComplete(r[k].0) && r[k].1 == count + k + 1
  {
    if |cells| == 0 then []
    else if IsComplete(cells[0]) then [(cells[0], count + 1)] + NumberFrom(cells[1..], count + 1)
    else NumberFrom(cells[1..], count)
  }

  /** `extractQuestions`: one question per complete cell, numbered 1, 2, ... in document order. */
  function ExtractQuestions(cells: seq<QuestionCell>, baseUrl: string): (r: seq<QuestionResult>)
    ensures |r| == |CompleteCells(cells)|
    ensures forall k :: 0 <= k < |r| ==> r[k].questionNumber == k + 1
  {
    var numbered := NumberFrom(cells, 0);
    NumberFromLength(cells, 0);
    seq(|numbered|, k requires 0 <= k < |numbered| => QuestionOf(numbered[k].0, numbered[k].1, baseUrl))
  }

  /** The counter-passing loop numbers every complete cell once. */
  lemma {:induction false} NumberFromLength(cells: seq<QuestionCell>, count: nat)
    ensures |NumberFrom(cells, count)| == |CompleteCells(cells)|
  {
    if |cells| > 0 {
      NumberFromLength(cells[1..], if IsComplete(cells[0]) then count + 1 else count);
    }
  }

  /** The k-th numbered cell is the k-th complete cell, numbered `count + k + 1`. */
  lemma {:induction false} NumberFromAt(cells: seq<QuestionCell>, count: nat, k: nat)
    requires k < |CompleteCells(cells)|
    ensures k < |NumberFrom(cells, count)| && NumberFrom(cells, count)[k] == (CompleteCells(cells)[k], count + k + 1)
  {
    var tail := cells[1..];
    if IsComplete(cells[0]) {
      assert NumberFrom(cells, count) == [(cells[0], count + 1)] + NumberFrom(tail, count + 1);
      assert CompleteCells(cells) == [cells[0]] + CompleteCells(tail);
      if k > 0 {
        NumberFromAt(tail, count + 1, k - 1);
      }
    } else {
      assert NumberFrom(cells, count) == NumberFrom(tail, count);
      assert CompleteCells(cells) == CompleteCells(tail);
      NumberFromAt(tail, count, k);
    }
  }

  /**
   * Skipping malformed cells and numbering the survivors: the result has one question per
   * complete cell, the k-th numbered k + 1 whatever its printed `Q.N` number.
   */
  lemma ExtractQuestionsNumbers(cells: seq<QuestionCell>, baseUrl: string)
    ensures |ExtractQuestions(cells, baseUrl)| == |CompleteCells(cells)|
    ensures forall k :: 0 <= k < |ExtractQuestions(cells, baseUrl)| ==>
              ExtractQuestions(cells, baseUrl)[k] == QuestionOf(CompleteCells(cells)[k], k + 1, baseUrl)
              && ExtractQuestions(cells, baseUrl)[k].questionNumber == k + 1
  {
    NumberFromLength(cells, 0);
    var qs := ExtractQuestions(cells, baseUrl);
    forall k | 0 <= k < |qs|
      ensures qs[k] == QuestionOf(CompleteCells(cells)[k], k + 1, baseUrl) && qs[k].questionNumber == k + 1
    {
      ExtractQuestionsAt(cells, baseUrl, k);
    }
  }

  /** The k-th extracted question carries what the k-th complete cell's menu, answers and number cell say. */
  lemma ExtractedQuestionReads(cells: seq<QuestionCell>, baseUrl: string, k: nat)
    requires k < |CompleteCells(cells)|
    ensures var c := CompleteCells(cells)[k];
            IsComplete(c) &&
            var qt := c.questionTable.value;
            var m := ReadMenu(c.menuTable.value);
            var q := ExtractQuestions(cells, baseUrl)[k];
            && q.questionNumber == k + 1
            && q.status == m.status && q.chosenOption == m.chosenOption
            && q.correctOption == CorrectOption(qt.answers)
            && q.sectionQuestionNumber == SectionQuestionNumber(qt.numberCell)
            && q.optionImages == Options(qt.answers, m.chosenOption, baseUrl)
  {
    assert CompleteCells(cells)[k] in CompleteCells(cells);
    ExtractQuestionsAt(cells, baseUrl, k);
  }

  /** The k-th question is read from the k-th complete cell and numbered k + 1. */
  lemma ExtractQuestionsAt(cells: seq<QuestionCell>, baseUrl: string, k: nat)
    requires k < |CompleteCells(cells)|
    ensures k < |ExtractQuestions(cells, baseUrl)|
            && ExtractQuestions(cells, baseUrl)[k] == QuestionOf(CompleteCells(cells)[k], k + 1, baseUrl)
  {
    NumberFromAt(cells, 0, k);
  }
}
