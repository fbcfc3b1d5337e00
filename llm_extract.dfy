/** The model-backed extractor of the analysis action (`llmExtract` in convex/analysis.ts).
    The chat-completions exchange is not modelled: its outcome is a parameter, and every
    way it can go wrong except a thrown exception falls back to the naive extractor. */
module LlmExtract {
  import opened Wrappers
  import opened Seqs
  import opened Analysis
  import opened NaiveExtract

  /** `JSON.parse` of the message content: it throws, or it yields the `concepts` array
      (absent or null as `None`) and the `authorHandle` (absent or null as `None`). */
  datatype ParsedContent = Unparseable | Parsed(concepts: Option<seq<ConceptSuggestion>>, authorHandle: Option<string>)

  /** How the exchange went: no `OPENAI_API_KEY`; the request or the reading of its JSON
      threw (with the error's message when it is an `Error`); a response that is not ok;
      or a reply with `choices[0].message.content` and its parse. */
  datatype Reply =
    | NoApiKey
    | RequestFailed(message: Option<string>)
    | NotOk
    | Replied(content: Option<string>, parsed: ParsedContent)

  /** The message recorded for a thrown value that is not an `Error`. */
  const UnknownError := "Unknown error"

  /** What `naiveExtract` answers. */
  function NaiveResult(text: string, avoidConcepts: Option<seq<string>>): AnalysisResult {
    AnalysisResult(Sanitized(Candidates(text), avoidConcepts), ExtractAuthorHandle(text))
  }

  /** The model's concepts when its reply is usable and some of them survive the
      sanitiser; `None` whenever the extractor falls back. */
  function ModelConcepts(reply: Reply, avoidConcepts: Option<seq<string>>): Option<seq<ConceptSuggestion>> {
    if reply.Replied? && reply.content.Some? && reply.content.value != ""
       && reply.parsed.Parsed? && reply.parsed.concepts.Some? && reply.parsed.concepts.value != []
       && Sanitized(reply.parsed.concepts.value, avoidConcepts) != []
    then Some(Sanitized(reply.parsed.concepts.value, avoidConcepts))
    else None
  }

  /** Reference definition of `llmExtract`: the sanitised model answer with the model's
      handle, the naive result on every fallback, or the thrown message. */
  function LlmResult(text: string, avoidConcepts: Option<seq<string>>, reply: Reply): Result<AnalysisResult> {
    if reply.RequestFailed? then Failure(reply.message.GetOr(UnknownError))
    else if ModelConcepts(reply, avoidConcepts).Some? then
      Success(AnalysisResult(ModelConcepts(reply, avoidConcepts).value, reply.parsed.authorHandle))
    else Success(NaiveResult(text, avoidConcepts))
  }

  /** `llmExtract`, each early return in the source's order. */
  method Extract(text: string, avoidConcepts: Option<seq<string>>, reply: Reply) returns (r: Result<AnalysisResult>)
    ensures r == LlmResult(text, avoidConcepts, reply)
  {
    if reply.NoApiKey? || reply.NotOk? {
      var naive := NaiveExtract.NaiveExtract(text, avoidConcepts);
      return Success(naive);
    }
    if reply.RequestFailed? {
      return Failure(reply.message.GetOr(UnknownError));
    }
    if reply.content.None? || reply.content.value == "" {
      var naive := NaiveExtract.NaiveExtract(text, avoidConcepts);
      return Success(naive);
    }
    if reply.parsed.Unparseable? || reply.parsed.concepts.None? || reply.parsed.concepts.value == [] {
      var naive := NaiveExtract.NaiveExtract(text, avoidConcepts);
      return Success(naive);
    }
    var cleaned := SanitizeConcepts(reply.parsed.concepts.value, avoidConcepts);
    if |cleaned| == 0 {
      var naive := NaiveExtract.NaiveExtract(text, avoidConcepts);
      return Success(naive);
    }
    r := Success(AnalysisResult(cleaned, reply.parsed.authorHandle));
  }

  /** The extractor throws only when the request does. Whatever it answers otherwise, every
      concept passes the sanitiser's rules (none on the avoid list) and no two share a
      normalised name. The model's concepts are used exactly when its reply is usable
      and some survive; they are then a non-empty subsequence of the reply's, in order,
      with the reply's handle; in every other case the answer is the naive one. */
  lemma LlmResultSpec(text: string, avoidConcepts: Option<seq<string>>, reply: Reply)
    ensures var r := LlmResult(text, avoidConcepts, reply);
            && (r.Failure? <==> reply.RequestFailed?)
            && (r.Success? ==>
                  && (forall k | 0 <= k < |r.value.concepts| :: Acceptable(r.value.concepts[k], AvoidSet(avoidConcepts)))
                  && (forall k, l | 0 <= k < l < |r.value.concepts| :: NameKey(r.value.concepts[k]) != NameKey(r.value.concepts[l])))
            && (ModelConcepts(reply, avoidConcepts).Some? ==>
                  && r.value.concepts != []
                  && IsSubsequence(r.value.concepts, reply.parsed.concepts.value)
                  && r.value.authorHandle == reply.parsed.authorHandle)
            && (r.Success? && ModelConcepts(reply, avoidConcepts).None? ==> r.value == NaiveResult(text, avoidConcepts))
  {
    SanitizedAreAcceptableAndDistinct(Candidates(text), avoidConcepts);
    if ModelConcepts(reply, avoidConcepts).Some? {
      SanitizedAreAcceptableAndDistinct(reply.parsed.concepts.value, avoidConcepts);
      SanitizedIsSubsequence(reply.parsed.concepts.value, avoidConcepts);
    }
  }
}
