/**
 * `LLMService.generate_answer`: the empty-context guard, the prompt, and how the reply of the
 * generation endpoint becomes the answer. The HTTP call itself is the parameter `llm`.
 */
module LlmService {
  import opened Wrappers
  import opened Text
  import Config

  /** What the POST to the generation endpoint comes back with. */
  datatype Reply =
    | Replied(response: Option<string>)  // a successful JSON reply and its "response" field, if any
    | ConnectionFailed                   // the server could not be reached
    | OtherFailure                       // any other failure: HTTP status, read timeout, unreadable JSON

  /** The prompt sent to the model: the question and the context sentences joined by single spaces. */
  function Prompt(question: string, context: seq<string>): string
  {
    "Soru: " + question + "\nBağlam: " + Join(context, " ") + "\nYanıt:"
  }

  /** The answer a reply turns into: the stripped `response` field, or a fixed fallback text. */
  function RenderReply(reply: Reply): string
  {
    match reply
    case Replied(Some(text)) => Strip(text)
    case Replied(None) => Strip(Config.NotFoundAnswer)
    case ConnectionFailed => Config.ConnectionFailedAnswer
    case OtherFailure => Config.GenerationFailedAnswer
  }

  /**
   * `generate_answer`: with no context sentences the model is not asked and the answer is
   * "not found"; otherwise the answer is what the model's reply renders to.
   */
  function GenerateAnswer(question: string, context: seq<string>, llm: string -> Reply): string
  {
    if context == [] then Config.NotFoundAnswer
    else RenderReply(llm(Prompt(question, context)))
  }

  /**
   * With no context the model is not consulted: the answer is "not found" whatever the model
   * would say. Otherwise the answer depends on nothing but the model's reply to this prompt.
   */
  lemma AnswerDependsOnlyOnReply(question: string, context: seq<string>, llm: string -> Reply, other: string -> Reply)
    ensures context == [] ==> GenerateAnswer(question, context, llm) == Config.NotFoundAnswer
    ensures context == [] || llm(Prompt(question, context)) == other(Prompt(question, context)) ==>
      GenerateAnswer(question, context, llm) == GenerateAnswer(question, context, other)
  {
  }

  /** A missing `response` field reads as the "not found" text, which stripping leaves as it is. */
  lemma MissingResponseIsNotFound()
    ensures RenderReply(Replied(None)) == Config.NotFoundAnswer
  {
    StripStripped(Config.NotFoundAnswer);
  }

  /**
   * Every answer is one of four kinds: "not found" (no context, or no `response` field), the
   * connection-failure text, the generic-failure text, or a stripped model response.
   */
  lemma AnswerKinds(question: string, context: seq<string>, llm: string -> Reply)
    ensures var answer := GenerateAnswer(question, context, llm);
      || answer == Config.NotFoundAnswer
      || answer == Config.ConnectionFailedAnswer
      || answer == Config.GenerationFailedAnswer
      || (exists text :: llm(Prompt(question, context)) == Replied(Some(text)) && answer == Strip(text))
    ensures IsStripped(GenerateAnswer(question, context, llm))
  {
    MissingResponseIsNotFound();
    assert IsStripped(Config.NotFoundAnswer);
    assert IsStripped(Config.ConnectionFailedAnswer);
    assert IsStripped(Config.GenerationFailedAnswer);
    if context != [] {
      match llm(Prompt(question, context))
      case Replied(Some(text)) => StripIsStripped(text);
      case _ =>
    }
  }

  /** The question and every context sentence reach the model inside the prompt. */
  lemma PromptCarriesContext(question: string, context: seq<string>)
    ensures Contains(Prompt(question, context), question)
    ensures forall k :: 0 <= k < |context| ==> Contains(Prompt(question, context), context[k])
  {
    var head := "Soru: ";
    var mid := "\nBağlam: ";
    var block := Join(context, " ");
    var p := Prompt(question, context);
    assert p == head + question + (mid + block + "\nYanıt:");
    ContainsAt(p, question);
    assert p[|head|..|head| + |question|] == question;
    assert OccursAt(p, question, |head|);
    forall k | 0 <= k < |context| ensures Contains(p, context[k]) {
      JoinContainsEach(context, " ", k);
      ContainsAt(block, context[k]);
      var i :| OccursAt(block, context[k], i);
      var off := |head| + |question| + |mid|;
      assert p == (head + question + mid) + block + "\nYanıt:";
      assert p[off + i..off + i + |context[k]|] == block[i..i + |context[k]|];
      ContainsAt(p, context[k]);
      assert OccursAt(p, context[k], off + i);
    }
  }
}
