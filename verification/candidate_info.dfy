/**
 * Candidate details: every table is read as label/value rows, and the first table that names
 * the candidate (roll number, name or registration number) supplies the record.
 */
module CandidateInfoExtraction {
  import opened Wrappers
  import opened Strings
  import opened SheetTypes

  /** The trimmed label of a row with at least two cells, when that label is not empty. */
  function RowKey(row: Row): Option<string> {
    if |row| >= 2 && Trim(row[0]) != "" then Some(Trim(row[0])) else None
  }

  /** The trimmed second cell of a row with at least two cells. */
  function RowValue(row: Row): string
    requires |row| >= 2
  {
    Trim(row[1])
  }

  /** No row after index `k` carries the same label as row `k`. */
  predicate LastWithKey(rows: seq<Row>, k: int)
    requires 0 <= k < |rows|
  {
    forall k' :: k < k' < |rows| ==> RowKey(rows[k']) != RowKey(rows[k])
  }

  /** The label-to-value record of one table, folding its rows in order. */
  function TableInfo(rows: seq<Row>): (r: map<string, string>)
    ensures forall key :: key in r ==> key != ""
  {
    if |rows| == 0 then map[]
    else
      var prev := TableInfo(rows[..|rows| - 1]);
      var key := RowKey(rows[|rows| - 1]);
      if key.Some? then prev[key.value := RowValue(rows[|rows| - 1])] else prev
  }

  /** A label is recorded iff some row carries it. */
  lemma {:induction false} TableInfoKeys(rows: seq<Row>, key: string)
    ensures key in TableInfo(rows) <==> exists k :: 0 <= k < |rows| && RowKey(rows[k]) == Some(key)
  {
    if |rows| > 0 {
      var init := rows[..|rows| - 1];
      TableInfoKeys(init, key);
      assert forall k :: 0 <= k < |init| ==> init[k] == rows[k];
      if key in TableInfo(init) {
        var k :| 0 <= k < |init| && RowKey(init[k]) == Some(key);
        assert RowKey(rows[k]) == Some(key);
      }
    }
  }

  /** The value recorded for a label is that of the last row carrying it. */
  lemma {:induction false} TableInfoLastWins(rows: seq<Row>, k: int)
    requires 0 <= k < |rows| && RowKey(rows[k]).Some?
    requires LastWithKey(rows, k)
    ensures RowKey(rows[k]).value in TableInfo(rows)
    ensures TableInfo(rows)[RowKey(rows[k]).value] == RowValue(rows[k])
  {
    var init := rows[..|rows| - 1];
    if k < |rows| - 1 {
      assert init[k] == rows[k];
      assert forall k' :: k < k' < |init| ==> init[k'] == rows[k'];
      TableInfoLastWins(init, k);
    }
  }

  /** `info[key] || ''`: a missing label reads as the empty string. */
  function Lookup(info: map<string, string>, key: string): string {
    if key in info then info[key] else ""
  }

  /** `a || b` on strings. */
  function OrElse(a: string, b: string): string {
    if a != "" then a else b
  }

  /** The table names the candidate. */
  predicate Qualifies(info: map<string, string>) {
    Lookup(info, "Roll Number") != "" || Lookup(info, "Candidate Name") != "" || Lookup(info, "Registration Number") != ""
  }

  /** The record built from a qualifying table, with the venue/date/time fallbacks. */
  function InfoFrom(info: map<string, string>): (c: CandidateInfo)
    ensures c.rollNumber == Lookup(info, "Roll Number")
    ensures c.candidateName == Lookup(info, "Candidate Name")
    ensures c.registrationNumber == Lookup(info, "Registration Number")
    ensures c.community == Lookup(info, "Community")
    ensures c.subject == Lookup(info, "Subject")
    ensures Lookup(info, "Venue Name") != "" ==> c.venueName == Lookup(info, "Venue Name")
    ensures Lookup(info, "Venue Name") == "" ==> c.venueName == Lookup(info, "Test Center Name")
    ensures Lookup(info, "Exam Date") != "" ==> c.examDate == Lookup(info, "Exam Date")
    ensures Lookup(info, "Exam Date") == "" ==> c.examDate == Lookup(info, "Test Date")
    ensures Lookup(info, "Exam Time") != "" ==> c.examTime == Lookup(info, "Exam Time")
    ensures Lookup(info, "Exam Time") == "" ==> c.examTime == Lookup(info, "Test Time")
  {
    CandidateInfo(
      registrationNumber := Lookup(info, "Registration Number"),
      rollNumber := Lookup(info, "Roll Number"),
      candidateName := Lookup(info, "Candidate Name"),
      community := Lookup(info, "Community"),
      venueName := OrElse(Lookup(info, "Venue Name"), Lookup(info, "Test Center Name")),
      examDate := OrElse(Lookup(info, "Exam Date"), Lookup(info, "Test Date")),
      examTime := OrElse(Lookup(info, "Exam Time"), Lookup(info, "Test Time")),
      subject := Lookup(info, "Subject"))
  }

  /** The subject line of the record is the value of the table's last row labelled "Subject". */
  lemma InfoSubjectIsLastRow(rows: seq<Row>, k: int)
    requires 0 <= k < |rows| && RowKey(rows[k]) == Some("Subject") && LastWithKey(rows, k)
    ensures InfoFrom(TableInfo(rows)).subject == RowValue(rows[k])
  {
    TableInfoLastWins(rows, k);
  }

  /** The table, read as a record, names the candidate. */
  predicate TableQualifies(rows: seq<Row>) {
    Qualifies(TableInfo(rows))
  }

  /** Index of the first qualifying table. */
  function FirstQualifying(tables: seq<seq<Row>>): (r: Option<nat>)
    ensures r.None? <==> forall i :: 0 <= i < |tables| ==> !TableQualifies(tables[i])
    ensures r.Some? ==> r.value < |tables| && TableQualifies(tables[r.value])
    ensures r.Some? ==> forall j :: 0 <= j < r.value ==> !TableQualifies(tables[j])
  {
    if |tables| == 0 then None
    else if TableQualifies(tables[0]) then Some(0)
    else
      var r := FirstQualifying(tables[1..]);
      if r.Some? then Some(r.value + 1) else None
  }

  /** `extractCandidateInfo`: the record of the first qualifying table, or None when no table qualifies. */
  function ExtractCandidateInfo(tables: seq<seq<Row>>): (r: Option<CandidateInfo>)
    ensures r.None? <==> forall i :: 0 <= i < |tables| ==> !TableQualifies(tables[i])
    ensures r.Some? ==> exists i :: 0 <= i < |tables| && TableQualifies(tables[i])
                          && r.value == InfoFrom(TableInfo(tables[i]))
                          && forall j :: 0 <= j < i ==> !TableQualifies(tables[j])
  {
    var i := FirstQualifying(tables);
    if i.Some? then Some(InfoFrom(TableInfo(tables[i.value]))) else None
  }

  /** A returned record always names the candidate in at least one of its three identifying fields. */
  lemma ExtractedInfoIdentifies(tables: seq<seq<Row>>)
    ensures ExtractCandidateInfo(tables).Some? ==>
              var c := ExtractCandidateInfo(tables).value;
              c.rollNumber != "" || c.candidateName != "" || c.registrationNumber != ""
  {
  }

  predicate IsIdentifying(key: string) {
    key == "Roll Number" || key == "Candidate Name" || key == "Registration Number"
  }

  /** Every labelled row has a last row with the same label at or after it. */
  lemma {:induction false} LastOccurrence(rows: seq<Row>, k: int) returns (last: int)
    requires 0 <= k < |rows|
    ensures k <= last < |rows| && RowKey(rows[last]) == RowKey(rows[k]) && LastWithKey(rows, last)
    decreases |rows| - k
  {
    if LastWithKey(rows, k) {
      last := k;
    } else {
      var k' :| k < k' < |rows| && RowKey(rows[k']) == RowKey(rows[k]);
      last := LastOccurrence(rows, k');
    }
  }

  /** Some identifying label's last row holds a non-empty value. */
  predicate HasIdentifyingRow(rows: seq<Row>) {
    exists k :: 0 <= k < |rows| && RowKey(rows[k]).Some? && IsIdentifying(RowKey(rows[k]).value)
                && LastWithKey(rows, k) && RowValue(rows[k]) != ""
  }

  /**
   * A table names the candidate iff the last row labelled exactly "Roll Number",
   * "Candidate Name" or "Registration Number" (for one of them) has a non-empty value.
   * Other spellings such as "Roll No." are not recognised.
   */
  lemma TableQualifiesIff(rows: seq<Row>)
    ensures TableQualifies(rows) <==> HasIdentifyingRow(rows)
  {
    if TableQualifies(rows) {
      QualifyingHasRow(rows);
    }
    if HasIdentifyingRow(rows) {
      var k :| 0 <= k < |rows| && RowKey(rows[k]).Some? && IsIdentifying(RowKey(rows[k]).value)
               && LastWithKey(rows, k) && RowValue(rows[k]) != "";
      TableInfoLastWins(rows, k);
    }
  }

  /** A qualifying table has an identifying row that wins. */
  lemma QualifyingHasRow(rows: seq<Row>)
    requires TableQualifies(rows)
    ensures HasIdentifyingRow(rows)
  {
    var info := TableInfo(rows);
    var key := if Lookup(info, "Roll Number") != "" then "Roll Number"
               else if Lookup(info, "Candidate Name") != "" then "Candidate Name"
               else "Registration Number";
    assert key in info && info[key] != "";
    TableInfoKeys(rows, key);
    var k :| 0 <= k < |rows| && RowKey(rows[k]) == Some(key);
    var last := LastOccurrence(rows, k);
    TableInfoLastWins(rows, last);
    assert RowKey(rows[last]).Some? && IsIdentifying(RowKey(rows[last]).value);
  }

}
