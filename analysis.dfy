/** The summary provider backed by a chat-completion service. */
module Analysis {
  import opened Types

  /** What the chat-completion service answers to one request. */
  datatype ChatReply =
    | RequestFailed                   // transport or API error
    | Completion(choices: seq<string>) // the message content of each choice

  /**
   * The provider's `FileResume` once the completion call has returned:
   * an API error and an answer without choices are both failures, and
   * otherwise the summary is the first choice's content.
   */
  function ChatResume(reply: ChatReply): (r: Result<string, AnalysisError>)
    ensures r.Success? <==> reply.Completion? && |reply.choices| > 0
    ensures r.Success? ==> r.value == reply.choices[0]
    ensures reply.RequestFailed? ==> r == Failure(CompletionFailed)
    ensures reply.Completion? && reply.choices == [] ==> r == Failure(NoChoices)
  {
    match reply
    case RequestFailed => Failure(CompletionFailed)
    case Completion(choices) =>
      if |choices| == 0 then Failure(NoChoices) else Success(choices[0])
  }
}
