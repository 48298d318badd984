/**
 * The projections of `saveUSMLEResultsToCsv` and `saveMedQAResultsToCsv`:
 * each enriched result becomes one output row whose columns are a fixed
 * list per dataset family, in a fixed order.
 */
module ResultWriter {
  import opened Wrappers
  import opened Enrichment

  /** One cell of an output row: the column it belongs to and its text. */
  datatype Field = Field(column: string, value: string)

  /** An output row, its fields in column order (the object's key order). */
  type CsvRow = seq<Field>

  /** The keys of a USMLE output object, in order. */
  function UsmleColumns(): seq<string> {
    ["Question", "Correct response", "Medical Chat Output", "ChatGPT Output"]
  }

  /** The keys of a MedQA output object, in order. */
  function MedQAColumns(): seq<string> {
    ["Question", "Correct response", "Medical Chat Output"]
  }

  /** The MedQA columns are the USMLE columns without the trailing ChatGPT Output. */
  lemma MedQAColumnsArePrefix()
    ensures MedQAColumns() == UsmleColumns()[..3]
    ensures UsmleColumns() == MedQAColumns() + ["ChatGPT Output"]
  {
  }

  /** The column names of a row, in order. */
  function Columns(row: CsvRow): seq<string>
  {
    seq(|row|, k requires 0 <= k < |row| => row[k].column)
  }

  /** The text under `column`, read from the first field with that name. */
  function Lookup(row: CsvRow, column: string): Option<string>
    decreases |row|
  {
    if row == [] then None
    else if row[0].column == column then Some(row[0].value)
    else Lookup(row[1..], column)
  }

  /** The USMLE row of one result. */
  function UsmleRow(r: UsmleResult): CsvRow {
    [Field("Question", r.question), Field("Correct response", r.correctResponse),
     Field("Medical Chat Output", r.medicalChatOutput), Field("ChatGPT Output", r.chatGPTOutput)]
  }

  /** The MedQA row of one result. */
  function MedQARow(r: MedQAResult): CsvRow {
    [Field("Question", r.question), Field("Correct response", r.correctResponse),
     Field("Medical Chat Output", r.medicalChatOutput)]
  }

  /** Reading a USMLE row back by column name gives each field of the result. */
  lemma UsmleRowReadBack(r: UsmleResult)
    ensures Columns(UsmleRow(r)) == UsmleColumns()
    ensures Lookup(UsmleRow(r), "Question") == Some(r.question)
    ensures Lookup(UsmleRow(r), "Correct response") == Some(r.correctResponse)
    ensures Lookup(UsmleRow(r), "Medical Chat Output") == Some(r.medicalChatOutput)
    ensures Lookup(UsmleRow(r), "ChatGPT Output") == Some(r.chatGPTOutput)
  {
    var row := UsmleRow(r);
    var t1, t2, t3 := row[1..], row[2..], row[3..];
    assert t1[1..] == t2 && t2[1..] == t3;
    assert t3 == [Field("ChatGPT Output", r.chatGPTOutput)];
    assert Lookup(t1, "Correct response") == Some(r.correctResponse);
    assert Lookup(t2, "Medical Chat Output") == Some(r.medicalChatOutput);
    assert Lookup(t3, "ChatGPT Output") == Some(r.chatGPTOutput);
    assert Lookup(t2, "ChatGPT Output") == Some(r.chatGPTOutput);
    assert Lookup(t1, "ChatGPT Output") == Some(r.chatGPTOutput);
    assert Lookup(t1, "Medical Chat Output") == Some(r.medicalChatOutput);
  }

  /** Reading a MedQA row back by column name gives each field of the result. */
  lemma MedQARowReadBack(r: MedQAResult)
    ensures Columns(MedQARow(r)) == MedQAColumns()
    ensures Lookup(MedQARow(r), "Question") == Some(r.question)
    ensures Lookup(MedQARow(r), "Correct response") == Some(r.correctResponse)
    ensures Lookup(MedQARow(r), "Medical Chat Output") == Some(r.medicalChatOutput)
    ensures Lookup(MedQARow(r), "ChatGPT Output") == None
  {
    var row := MedQARow(r);
    var t1, t2, t3 := row[1..], row[2..], row[3..];
    assert t1[1..] == t2 && t2[1..] == t3 && t3 == [];
    assert Lookup(t1, "Correct response") == Some(r.correctResponse);
    assert Lookup(t2, "Medical Chat Output") == Some(r.medicalChatOutput);
    assert Lookup(t1, "Medical Chat Output") == Some(r.medicalChatOutput);
    assert Lookup(t3, "ChatGPT Output") == None;
    assert Lookup(t2, "ChatGPT Output") == None;
    assert Lookup(t1, "ChatGPT Output") == None;
  }

  /**
   * The USMLE table: one row per result, in order, every row with exactly
   * the USMLE columns and the result's fields under them.
   */
  function UsmleRows(results: seq<UsmleResult>): (rows: seq<CsvRow>)
    ensures |rows| == |results|
    ensures forall i :: 0 <= i < |results| ==> Columns(rows[i]) == UsmleColumns()
    ensures forall i :: 0 <= i < |results| ==>
      Lookup(rows[i], "Question") == Some(results[i].question) &&
      Lookup(rows[i], "Correct response") == Some(results[i].correctResponse) &&
      Lookup(rows[i], "Medical Chat Output") == Some(results[i].medicalChatOutput) &&
      Lookup(rows[i], "ChatGPT Output") == Some(results[i].chatGPTOutput)
  {
    forall i | 0 <= i < |results|
      ensures Columns(UsmleRow(results[i])) == UsmleColumns()
      ensures Lookup(UsmleRow(results[i]), "Question") == Some(results[i].question)
      ensures Lookup(UsmleRow(results[i]), "Correct response") == Some(results[i].correctResponse)
      ensures Lookup(UsmleRow(results[i]), "Medical Chat Output") == Some(results[i].medicalChatOutput)
      ensures Lookup(UsmleRow(results[i]), "ChatGPT Output") == Some(results[i].chatGPTOutput)
    {
      UsmleRowReadBack(results[i]);
    }
    seq(|results|, i requires 0 <= i < |results| => UsmleRow(results[i]))
  }

  /**
   * The MedQA table: one row per result, in order, every row with exactly
   * the MedQA columns and the result's fields under them.
   */
  function MedQARows(results: seq<MedQAResult>): (rows: seq<CsvRow>)
    ensures |rows| == |results|
    ensures forall i :: 0 <= i < |results| ==> Columns(rows[i]) == MedQAColumns()
    ensures forall i :: 0 <= i < |results| ==>
      Lookup(rows[i], "Question") == Some(results[i].question) &&
      Lookup(rows[i], "Correct response") == Some(results[i].correctResponse) &&
      Lookup(rows[i], "Medical Chat Output") == Some(results[i].medicalChatOutput)
  {
    forall i | 0 <= i < |results|
      ensures Columns(MedQARow(results[i])) == MedQAColumns()
      ensures Lookup(MedQARow(results[i]), "Question") == Some(results[i].question)
      ensures Lookup(MedQARow(results[i]), "Correct response") == Some(results[i].correctResponse)
      ensures Lookup(MedQARow(results[i]), "Medical Chat Output") == Some(results[i].medicalChatOutput)
    {
      MedQARowReadBack(results[i]);
    }
    seq(|results|, i requires 0 <= i < |results| => MedQARow(results[i]))
  }
}
