/**
 * The two enrichment loops of the driver: every loaded question is sent
 * to the answer client in turn, each call awaited before the next, and
 * the answer is appended to the accumulated results. A transport fault
 * propagates out of the loop and abandons the remaining questions.
 */
module Enrichment {
  import opened Wrappers
  import opened CsvLoader
  import opened Formatter
  import opened AnswerClient

  /** How a loop ends: with every answer, or with the fault raised by call number `at` (counting from 0). */
  datatype Outcome<T> = Done(value: T) | Fault(at: nat)

  /** A USMLE record with the model's answer added (`{...question, medicalChatOutput}`). */
  datatype UsmleResult = UsmleResult(question: string, correctResponse: string, chatGPTOutput: string, medicalChatOutput: string)

  /** A MedQA result: the prompt sent, the correct label and the model's answer. */
  datatype MedQAResult = MedQAResult(question: string, correctResponse: string, medicalChatOutput: string)

  /**
   * The answers the endpoint gives to `contents`, asked in order from
   * request number `start` on, stopping at the first transport fault.
   */
  function AnswerAll(contents: seq<string>, respond: (nat, string) -> Option<string>, start: nat): (o: Outcome<seq<string>>)
    ensures o.Done? ==> |o.value| == |contents|
    ensures o.Fault? ==> o.at < |contents|
    decreases |contents|
  {
    if contents == [] then Done([])
    else
      var n := |contents| - 1;
      match AnswerAll(contents[..n], respond, start)
      case Fault(k) => Fault(k)
      case Done(answers) =>
        match respond(start + n, contents[n])
        case None => Fault(n)
        case Some(a) => Done(answers + [a])
  }

  /**
   * A complete run has one answer per message, answer `i` being the
   * endpoint's reply to request `start + i`; a faulted run stops at the
   * first request that fails, every earlier one having succeeded.
   */
  lemma {:induction false} AnswerAllSpec(contents: seq<string>, respond: (nat, string) -> Option<string>, start: nat)
    ensures var o := AnswerAll(contents, respond, start);
      (o.Done? ==>
        forall i :: 0 <= i < |contents| ==> respond(start + i, contents[i]) == Some(o.value[i])) &&
      (o.Fault? ==>
        respond(start + o.at, contents[o.at]).None? &&
        forall i :: 0 <= i < o.at ==> respond(start + i, contents[i]).Some?)
    decreases |contents|
  {
    if contents != [] {
      var n := |contents| - 1;
      AnswerAllSpec(contents[..n], respond, start);
      assert forall i :: 0 <= i < n ==> contents[..n][i] == contents[i];
    }
  }

  /** The message sent for each USMLE record: its question, untrimmed. */
  function UsmleMessages(questions: seq<QuestionRecord>): seq<string> {
    seq(|questions|, i requires 0 <= i < |questions| => questions[i].question)
  }

  /** The message sent for each MedQA item: its formatted prompt. */
  function MedQAMessages(items: seq<MedQAItem>): seq<string> {
    seq(|items|, i requires 0 <= i < |items| => CompleteQuestion(items[i]))
  }

  /** Record `i` with answer `i` added. */
  function UsmleResults(questions: seq<QuestionRecord>, answers: seq<string>): seq<UsmleResult>
    requires |answers| == |questions|
  {
    seq(|questions|, i requires 0 <= i < |questions| =>
      UsmleResult(questions[i].question, questions[i].correctResponse, questions[i].chatGPTOutput, answers[i]))
  }

  /** Prompt `i`, item `i`'s correct label and answer `i`. */
  function MedQAResults(items: seq<MedQAItem>, answers: seq<string>): seq<MedQAResult>
    requires |answers| == |items|
  {
    seq(|items|, i requires 0 <= i < |items| => MedQAResult(CompleteQuestion(items[i]), items[i].answer, answers[i]))
  }

  /** The messages actually sent by a run: all of them, or those up to and including the failing one. */
  function Attempted(msgs: seq<string>, o: Outcome<seq<string>>): seq<string>
    requires o.Fault? ==> o.at < |msgs|
  {
    match o
    case Done(_) => msgs
    case Fault(k) => msgs[..k + 1]
  }

  /**
   * The USMLE loop: every question is sent once, in order, until a fault;
   * a complete run yields each record with its answer added.
   */
  method AnswerUsmle(questions: seq<QuestionRecord>, client: Client) returns (outcome: Outcome<seq<UsmleResult>>)
    modifies client
    ensures var o := AnswerAll(UsmleMessages(questions), client.respond, |old(client.sent)|);
      client.sent == old(client.sent) + Attempted(UsmleMessages(questions), o) &&
      outcome == match o
        case Done(answers) => Done(UsmleResults(questions, answers))
        case Fault(k) => Fault(k)
  {
    ghost var start := |client.sent|;
    ghost var msgs := UsmleMessages(questions);
    var finalData: seq<UsmleResult> := [];
    ghost var answers: seq<string> := [];
    for i := 0 to |questions|
      invariant client.sent == old(client.sent) + msgs[..i]
      invariant AnswerAll(msgs[..i], client.respond, start) == Done(answers)
      invariant |answers| == i && finalData == UsmleResults(questions[..i], answers)
    {
      var question := questions[i];
      var result := client.GetMedicalAnswer(question.question);
      assert msgs[..i + 1] == msgs[..i] + [msgs[i]];
      if result.None? {
        AnswerAllFaultAt(msgs, client.respond, start, i);
        outcome := Fault(i);
        return;
      }
      AnswerAllStep(msgs, client.respond, start, i, answers, result.value);
      UsmleResultsStep(questions, i, answers, result.value);
      finalData := finalData + [UsmleResult(question.question, question.correctResponse,
                                            question.chatGPTOutput, result.value)];
      answers := answers + [result.value];
    }
    assert msgs[..|questions|] == msgs;
    assert questions[..|questions|] == questions;
    outcome := Done(finalData);
  }

  /**
   * The MedQA loop: every item's prompt is sent once, in order, until a
   * fault; a complete run yields each prompt with its label and answer.
   */
  method AnswerMedQA(items: seq<MedQAItem>, client: Client) returns (outcome: Outcome<seq<MedQAResult>>)
    modifies client
    ensures var o := AnswerAll(MedQAMessages(items), client.respond, |old(client.sent)|);
      client.sent == old(client.sent) + Attempted(MedQAMessages(items), o) &&
      outcome == match o
        case Done(answers) => Done(MedQAResults(items, answers))
        case Fault(k) => Fault(k)
  {
    ghost var start := |client.sent|;
    ghost var msgs := MedQAMessages(items);
    var finalData: seq<MedQAResult> := [];
    ghost var answers: seq<string> := [];
    for i := 0 to |items|
      invariant client.sent == old(client.sent) + msgs[..i]
      invariant AnswerAll(msgs[..i], client.respond, start) == Done(answers)
      invariant |answers| == i && finalData == MedQAResults(items[..i], answers)
    {
      var question := items[i];
      var completeQuestion := CompleteQuestion(question);
      var result := client.GetMedicalAnswer(completeQuestion);
      assert msgs[..i + 1] == msgs[..i] + [msgs[i]];
      if result.None? {
        AnswerAllFaultAt(msgs, client.respond, start, i);
        outcome := Fault(i);
        return;
      }
      AnswerAllStep(msgs, client.respond, start, i, answers, result.value);
      MedQAResultsStep(items, i, answers, result.value);
      finalData := finalData + [MedQAResult(completeQuestion, question.answer, result.value)];
      answers := answers + [result.value];
    }
    assert msgs[..|items|] == msgs;
    assert items[..|items|] == items;
    outcome := Done(finalData);
  }

  /** One more answered record extends the USMLE results by one entry. */
  lemma UsmleResultsStep(questions: seq<QuestionRecord>, i: nat, answers: seq<string>, a: string)
    requires i < |questions| && |answers| == i
    ensures UsmleResults(questions[..i + 1], answers + [a]) ==
      UsmleResults(questions[..i], answers) +
      [UsmleResult(questions[i].question, questions[i].correctResponse, questions[i].chatGPTOutput, a)]
  {
  }

  /** One more answered item extends the MedQA results by one entry. */
  lemma MedQAResultsStep(items: seq<MedQAItem>, i: nat, answers: seq<string>, a: string)
    requires i < |items| && |answers| == i
    ensures MedQAResults(items[..i + 1], answers + [a]) ==
      MedQAResults(items[..i], answers) + [MedQAResult(CompleteQuestion(items[i]), items[i].answer, a)]
  {
  }

  /** One more successful request extends the answers by its response. */
  lemma AnswerAllStep(contents: seq<string>, respond: (nat, string) -> Option<string>, start: nat,
                      i: nat, answers: seq<string>, a: string)
    requires i < |contents|
    requires AnswerAll(contents[..i], respond, start) == Done(answers)
    requires respond(start + i, contents[i]) == Some(a)
    ensures AnswerAll(contents[..i + 1], respond, start) == Done(answers + [a])
  {
    assert contents[..i + 1][..i] == contents[..i];
  }

  /**
   * When the first `i` requests succeed and request `i` fails, the whole
   * run faults at `i`, whatever the later questions are.
   */
  lemma AnswerAllFaultAt(contents: seq<string>, respond: (nat, string) -> Option<string>, start: nat, i: nat)
    requires i < |contents|
    requires AnswerAll(contents[..i], respond, start).Done?
    requires respond(start + i, contents[i]).None?
    ensures AnswerAll(contents, respond, start) == Fault(i)
  {
    AnswerAllSpec(contents[..i], respond, start);
    AnswerAllSpec(contents, respond, start);
    assert forall k :: 0 <= k < i ==> contents[..i][k] == contents[k];
  }
}
