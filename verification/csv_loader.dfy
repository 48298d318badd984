/**
 * The tabular (USMLE) dataset loader: the row handler of
 * `fetchQuestionsFromCSV`, which keeps a row only when its question is
 * present, non-empty and offers multiple choices (contains "(A)"), and
 * only the first row with a given trimmed question.
 */
module CsvLoader {
  import opened Wrappers
  import opened Text

  /** One parsed CSV row; `question` is `None` when the `Question` cell is undefined. */
  datatype Row = Row(question: Option<string>, correctResponse: string, chatGPTOutput: string)

  /** A loaded question; `question` keeps the cell's text untrimmed. */
  datatype QuestionRecord = QuestionRecord(question: string, correctResponse: string, chatGPTOutput: string)

  /** The substring that marks a multiple-choice question. */
  const ChoiceMarker: string := "(A)"

  /** The content filter: the question is present, non-empty and contains "(A)". */
  predicate Passes(row: Row) {
    row.question.Some? && row.question.value != "" && Contains(row.question.value, ChoiceMarker)
  }

  /** The key deduplication is on. */
  function TrimmedQuestion(row: Row): string
    requires row.question.Some?
  {
    Trim(row.question.value)
  }

  /** The handler's condition: the row passes the filter and its trimmed question is unseen. */
  predicate Admits(row: Row, seen: set<string>) {
    Passes(row) && TrimmedQuestion(row) !in seen
  }

  /** The record a kept row becomes. */
  function ToRecord(row: Row): QuestionRecord
    requires row.question.Some?
  {
    QuestionRecord(row.question.value, row.correctResponse, row.chatGPTOutput)
  }

  /** The trimmed questions of a list of records. */
  function TrimmedQuestions(recs: seq<QuestionRecord>): set<string>
    decreases |recs|
  {
    if recs == [] then {}
    else TrimmedQuestions(recs[..|recs| - 1]) + {Trim(recs[|recs| - 1].question)}
  }

  /** Appending a record adds exactly its trimmed question. */
  lemma TrimmedQuestionsAppend(recs: seq<QuestionRecord>, rec: QuestionRecord)
    ensures TrimmedQuestions(recs + [rec]) == TrimmedQuestions(recs) + {Trim(rec.question)}
  {
    assert (recs + [rec])[..|recs|] == recs;
  }

  /** The set holds the trimmed question of every record and nothing else. */
  lemma {:induction false} TrimmedQuestionsMembers(recs: seq<QuestionRecord>, t: string)
    ensures t in TrimmedQuestions(recs) <==> exists k :: 0 <= k < |recs| && Trim(recs[k].question) == t
    decreases |recs|
  {
    if recs != [] {
      var prefix := recs[..|recs| - 1];
      TrimmedQuestionsMembers(prefix, t);
      assert forall k :: 0 <= k < |prefix| ==> prefix[k] == recs[k];
    }
  }

  /** Every record is a kept multiple-choice question and no two share a trimmed question. */
  predicate WellFormed(recs: seq<QuestionRecord>) {
    (forall k :: 0 <= k < |recs| ==> recs[k].question != "" && Contains(recs[k].question, ChoiceMarker)) &&
    (forall k, m :: 0 <= k < m < |recs| ==> Trim(recs[k].question) != Trim(recs[m].question))
  }

  /**
   * What the loader resolves with after the rows have been delivered in
   * order: each row in turn is appended when the handler admits it
   * against the trimmed questions kept so far.
   */
  function Load(rows: seq<Row>): (recs: seq<QuestionRecord>)
    ensures |recs| <= |rows|
    decreases |rows|
  {
    if rows == [] then []
    else
      var prev := Load(rows[..|rows| - 1]);
      var row := rows[|rows| - 1];
      if Admits(row, TrimmedQuestions(prev)) then prev + [ToRecord(row)] else prev
  }

  /** One more delivered row: `Load` unfolded once. */
  lemma LoadSnoc(rows: seq<Row>, row: Row)
    ensures Load(rows + [row]) ==
      if Admits(row, TrimmedQuestions(Load(rows))) then Load(rows) + [ToRecord(row)] else Load(rows)
  {
    assert (rows + [row])[..|rows|] == rows;
  }

  /** Some row of `rows` passes the filter with trimmed question `t`. */
  predicate PassesWith(rows: seq<Row>, t: string) {
    exists k :: 0 <= k < |rows| && Passes(rows[k]) && TrimmedQuestion(rows[k]) == t
  }

  /** `PassesWith` on one more row. */
  lemma PassesWithSnoc(rows: seq<Row>, row: Row, t: string)
    ensures PassesWith(rows + [row], t) <==> PassesWith(rows, t) || (Passes(row) && TrimmedQuestion(row) == t)
  {
    var all := rows + [row];
    if PassesWith(all, t) && !(Passes(row) && TrimmedQuestion(row) == t) {
      var k :| 0 <= k < |all| && Passes(all[k]) && TrimmedQuestion(all[k]) == t;
      assert k < |rows| && all[k] == rows[k];
    }
    if PassesWith(rows, t) {
      var k :| 0 <= k < |rows| && Passes(rows[k]) && TrimmedQuestion(rows[k]) == t;
      assert all[k] == rows[k];
    }
    if Passes(row) && TrimmedQuestion(row) == t {
      assert all[|rows|] == row;
    }
  }

  /**
   * Every loaded record has a non-empty question containing "(A)", and no
   * two loaded records have equal trimmed questions.
   */
  lemma {:induction false} LoadWellFormed(rows: seq<Row>)
    ensures WellFormed(Load(rows))
    decreases |rows|
  {
    if rows != [] {
      var prefix, row := rows[..|rows| - 1], rows[|rows| - 1];
      var prev := Load(prefix);
      LoadWellFormed(prefix);
      if Admits(row, TrimmedQuestions(prev)) {
        forall k | 0 <= k < |prev|
          ensures Trim(prev[k].question) != TrimmedQuestion(row)
        {
          TrimmedQuestionsMembers(prev, TrimmedQuestion(row));
        }
      }
    }
  }

  /**
   * The seen-set after loading `rows` holds exactly the trimmed questions
   * of the rows that pass the filter (kept or dropped as duplicates).
   */
  lemma {:induction false} LoadSeen(rows: seq<Row>, t: string)
    ensures t in TrimmedQuestions(Load(rows)) <==> PassesWith(rows, t)
    decreases |rows|
  {
    if rows != [] {
      var prefix, row := rows[..|rows| - 1], rows[|rows| - 1];
      assert rows == prefix + [row];
      LoadSeen(prefix, t);
      LoadSnoc(prefix, row);
      PassesWithSnoc(prefix, row, t);
      if Admits(row, TrimmedQuestions(Load(prefix))) {
        TrimmedQuestionsAppend(Load(prefix), ToRecord(row));
      }
    }
  }

  /** Row `i` passes the filter and no earlier passing row has the same trimmed question. */
  predicate FirstPassing(rows: seq<Row>, i: int)
    requires 0 <= i < |rows|
  {
    Passes(rows[i]) &&
    forall j :: 0 <= j < i && Passes(rows[j]) ==> TrimmedQuestion(rows[j]) != TrimmedQuestion(rows[i])
  }

  /** The indices, in increasing order, of the rows that are the first passing row with their trimmed question. */
  function FirstIndices(rows: seq<Row>): seq<nat>
    decreases |rows|
  {
    if rows == [] then []
    else FirstIndices(rows[..|rows| - 1]) + (if FirstPassing(rows, |rows| - 1) then [|rows| - 1] else [])
  }

  /** Whether row `i` is a first passing row depends only on the rows up to `i`. */
  lemma FirstPassingPrefix(rows: seq<Row>, n: nat, i: nat)
    requires i < n <= |rows|
    ensures FirstPassing(rows[..n], i) == FirstPassing(rows, i)
  {
    assert forall j :: 0 <= j <= i ==> rows[..n][j] == rows[j];
  }

  /**
   * The first-occurrence indices are strictly increasing and are exactly
   * the rows that pass the filter with a trimmed question no earlier
   * passing row has.
   */
  lemma {:induction false} FirstIndicesSpec(rows: seq<Row>)
    ensures forall m :: 0 <= m < |FirstIndices(rows)| ==> FirstIndices(rows)[m] < |rows|
    ensures forall m, m' :: 0 <= m < m' < |FirstIndices(rows)| ==> FirstIndices(rows)[m] < FirstIndices(rows)[m']
    ensures forall i :: 0 <= i < |rows| ==> (i in FirstIndices(rows) <==> FirstPassing(rows, i))
    decreases |rows|
  {
    if rows != [] {
      var n := |rows| - 1;
      FirstIndicesSpec(rows[..n]);
      forall i | 0 <= i < n
        ensures FirstPassing(rows[..n], i) == FirstPassing(rows, i)
      {
        FirstPassingPrefix(rows, n, i);
      }
    }
  }

  /** The handler admits the last row exactly when it is a first passing row. */
  lemma AdmitsIffFirstPassing(rows: seq<Row>)
    requires rows != []
    ensures Admits(rows[|rows| - 1], TrimmedQuestions(Load(rows[..|rows| - 1]))) == FirstPassing(rows, |rows| - 1)
  {
    var n := |rows| - 1;
    var prefix, row := rows[..n], rows[n];
    if Passes(row) {
      LoadSeen(prefix, TrimmedQuestion(row));
      if PassesWith(prefix, TrimmedQuestion(row)) {
        var k :| 0 <= k < n && Passes(prefix[k]) && TrimmedQuestion(prefix[k]) == TrimmedQuestion(row);
        assert prefix[k] == rows[k];
      } else {
        forall j | 0 <= j < n && Passes(rows[j])
          ensures TrimmedQuestion(rows[j]) != TrimmedQuestion(row)
        {
          assert prefix[j] == rows[j];
        }
      }
    }
  }

  /** `recs` are the records of the rows of `rows` at `indices`, in that order. */
  predicate RecordsAt(recs: seq<QuestionRecord>, rows: seq<Row>, indices: seq<nat>) {
    |recs| == |indices| &&
    forall m :: 0 <= m < |recs| ==>
      indices[m] < |rows| && rows[indices[m]].question.Some? && recs[m] == ToRecord(rows[indices[m]])
  }

  /** Rows delivered later do not disturb the records of earlier rows. */
  lemma RecordsAtExtend(recs: seq<QuestionRecord>, rows: seq<Row>, indices: seq<nat>, row: Row)
    requires RecordsAt(recs, rows, indices)
    ensures RecordsAt(recs, rows + [row], indices)
  {
    forall m | 0 <= m < |recs|
      ensures (rows + [row])[indices[m]] == rows[indices[m]]
    {
    }
  }

  /** Keeping a newly delivered row appends its record and its index. */
  lemma RecordsAtKeep(recs: seq<QuestionRecord>, rows: seq<Row>, indices: seq<nat>, row: Row)
    requires RecordsAt(recs, rows, indices) && row.question.Some?
    ensures RecordsAt(recs + [ToRecord(row)], rows + [row], indices + [|rows|])
  {
    RecordsAtExtend(recs, rows, indices, row);
  }

  /**
   * The loader keeps exactly the first passing row of every trimmed
   * question, in input order, each turned into its record unchanged.
   */
  lemma {:induction false} LoadIsFirstOccurrences(rows: seq<Row>)
    ensures RecordsAt(Load(rows), rows, FirstIndices(rows))
    decreases |rows|
  {
    if rows != [] {
      var n := |rows| - 1;
      var prefix, row := rows[..n], rows[n];
      LoadIsFirstOccurrences(prefix);
      assert rows == prefix + [row];
      LoadSnoc(prefix, row);
      AdmitsIffFirstPassing(rows);
      if FirstPassing(rows, n) {
        RecordsAtKeep(Load(prefix), prefix, FirstIndices(prefix), row);
      } else {
        RecordsAtExtend(Load(prefix), prefix, FirstIndices(prefix), row);
      }
    }
  }

  /** A row with an empty question is dropped; the multiple-choice row before it is kept. */
  lemma EmptyQuestionDropped()
    ensures Load([Row(Some("What is X? (A) foo (B) bar"), "A", "A"), Row(Some(""), "", "")]) ==
      [QuestionRecord("What is X? (A) foo (B) bar", "A", "A")]
  {
    var q := "What is X? (A) foo (B) bar";
    var first, empty := Row(Some(q), "A", "A"), Row(Some(""), "", "");
    assert OccursAt(q, ChoiceMarker, 11);
    LoadSnoc([], first);
    assert [] + [first] == [first];
    LoadSnoc([first], empty);
  }

  /** A second row whose question trims to the first row's is dropped: the first occurrence wins. */
  lemma DuplicateDropped(first: Row, second: Row)
    requires Passes(first) && second.question.Some?
    requires TrimmedQuestion(second) == TrimmedQuestion(first)
    ensures Load([first, second]) == [ToRecord(first)]
  {
    LoadSnoc([], first);
    assert [] + [first] == [first];
    TrimmedQuestionsAppend([], ToRecord(first));
    assert [] + [ToRecord(first)] == [ToRecord(first)];
    LoadSnoc([first], second);
  }

  /**
   * The state the `'data'` handler closes over: the `rows` array and the
   * `uniqueQuestions` set, plus (as a ghost) the rows delivered so far.
   */
  class QuestionCollector {
    var rows: seq<QuestionRecord>
    var uniqueQuestions: set<string>
    ghost var delivered: seq<Row>

    /** The kept records are those `Load` gives for the delivered rows, and the set holds their trimmed questions. */
    ghost predicate Valid()
      reads this
    {
      rows == Load(delivered) && uniqueQuestions == TrimmedQuestions(rows)
    }

    constructor ()
      ensures Valid() && delivered == [] && rows == [] && uniqueQuestions == {}
    {
      rows := [];
      uniqueQuestions := {};
      delivered := [];
    }

    /** The `'data'` handler: keep the row when it passes and its trimmed question is new. */
    method OnData(row: Row)
      requires Valid()
      modifies this
      ensures Valid() && delivered == old(delivered) + [row]
      ensures Admits(row, old(uniqueQuestions)) ==>
        rows == old(rows) + [ToRecord(row)] && uniqueQuestions == old(uniqueQuestions) + {TrimmedQuestion(row)}
      ensures !Admits(row, old(uniqueQuestions)) ==>
        rows == old(rows) && uniqueQuestions == old(uniqueQuestions)
    {
      ghost var before := delivered;
      var question := row.question;
      if question.Some? && question.value != "" && Contains(question.value, ChoiceMarker)
        && Trim(question.value) !in uniqueQuestions
      {
        var rowData := QuestionRecord(question.value, row.correctResponse, row.chatGPTOutput);
        TrimmedQuestionsAppend(rows, rowData);
        rows := rows + [rowData];
        uniqueQuestions := uniqueQuestions + {Trim(question.value)};
      }
      delivered := delivered + [row];
      LoadSnoc(before, row);
    }
  }

  /** `fetchQuestionsFromCSV` once the stream has ended: every row goes through the handler in order. */
  method FetchQuestionsFromCsv(input: seq<Row>) returns (records: seq<QuestionRecord>)
    ensures records == Load(input)
  {
    var collector := new QuestionCollector();
    for i := 0 to |input|
      invariant collector.Valid()
      invariant collector.delivered == input[..i]
    {
      collector.OnData(input[i]);
      assert input[..i + 1] == input[..i] + [input[i]];
    }
    assert input[..|input|] == input;
    records := collector.rows;
  }
}
