/**
 * The answer client, `getMedicalAnswer`, seen from its callers: one
 * awaited request per call, whose response body text is returned as it
 * is. The remote endpoint is an oracle `respond`: the answer to the
 * request number `n` carrying the message `q` is `respond(n, q)`, or
 * `None` when the request fails at the transport level (the awaited
 * promise rejects).
 */
module AnswerClient {
  import opened Wrappers

  class Client {
    /** How the endpoint answers the `n`-th request with a given message. */
    const respond: (nat, string) -> Option<string>
    /** The messages sent so far, in order. */
    var sent: seq<string>

    constructor (respond: (nat, string) -> Option<string>)
      ensures this.respond == respond && sent == []
    {
      this.respond := respond;
      sent := [];
    }

    /** Sends one question as the single user message and returns the raw response text. */
    method GetMedicalAnswer(question: string) returns (result: Option<string>)
      modifies this
      ensures sent == old(sent) + [question]
      ensures result == respond(|old(sent)|, question)
    {
      result := respond(|sent|, question);
      sent := sent + [question];
    }
  }
}
