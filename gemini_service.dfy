/**
 * The provider adapter of services/geminiService.ts. Every network or SDK call
 * is replaced by the reply it would produce, supplied by the caller; what is
 * modelled is the adapter's own decisions: which backend a model uses, the
 * guards it applies before calling, how a reply becomes a value or an error
 * message, and the tag normalisation of LM Studio tag replies.
 */
module GeminiService {
  import opened Types
  import opened JsText
  import Tags

  /** A call that either produced a value or threw an Error carrying a message. */
  datatype Attempt<T> = Ok(value: T) | Failed(message: string)

  /**
   * What a `fetch` to the LM Studio server ends in: an exception (network
   * failure, unreadable JSON, a reply without choices), a response whose `ok`
   * flag is false, or an ok response carrying the extracted content.
   */
  datatype ServerReply<T> = ServerThrew(message: string) | NotOk(status: nat, body: string) | ServerOk(content: T)

  /** What a cloud SDK call ends in: an exception, or the extracted content. */
  datatype SdkReply<T> = SdkThrew(message: string) | SdkOk(content: T)

  /**
   * The answers both backends would give to one request. The adapter consults
   * the one its model selects and never looks at the other.
   */
  datatype Replies<T> = Replies(server: ServerReply<T>, sdk: SdkReply<T>)

  /** The discovery answer (`isValid`, `models`) of validateLmStudioServer. */
  datatype ServerStatus = ServerStatus(isValid: bool, models: seq<string>)

  const ApiKeyRequired := "A valid API key is required to perform analysis."

  const LmStudioFailurePrefix := "LM Studio request failed with status "

  /** The message thrown for an LM Studio response that is not ok. */
  function LmStudioFailure(status: nat, body: string): string {
    LmStudioFailurePrefix + NatToString(status) + ": " + body
  }

  /**
   * The failure message starts with the fixed prefix, ends with the response
   * body, and the status code can be read back from the digits in between.
   */
  lemma LmStudioFailureStatus(status: nat, body: string)
    ensures var m := LmStudioFailure(status, body);
            var p := |LmStudioFailurePrefix|;
            var digits := NatToString(status);
            |m| == p + |digits| + 2 + |body|
            && m[..p] == LmStudioFailurePrefix
            && m[p..p + |digits|] == digits
            && DecimalValue(m[p..p + |digits|]) == status
            && m[|m| - |body|..] == body
  {
    var digits := NatToString(status);
    var m := LmStudioFailure(status, body);
    assert m == LmStudioFailurePrefix + digits + (": " + body);
    assert m[|LmStudioFailurePrefix|..|LmStudioFailurePrefix| + |digits|] == digits;
  }

  /** validateApiKey: an empty key is refused before any call; otherwise the key is good when the probe call returns. */
  function ValidateApiKey(apiKey: string, probe: SdkReply<string>): (valid: bool)
    ensures apiKey == "" ==> !valid
    ensures apiKey != "" ==> (valid <==> probe.SdkOk?)
  {
    if apiKey == "" then false
    else match probe
      case SdkThrew(_) => false
      case SdkOk(_) => true
  }

  /**
   * validateLmStudioServer: the discovery reply carries `data.data` as an
   * optional list of model ids. An empty url is refused before any request.
   */
  function ValidateLmStudioServer(url: string, reply: ServerReply<Option<seq<string>>>): (r: ServerStatus)
    ensures r.isValid <==> url != "" && reply.ServerOk?
    ensures !r.isValid ==> r.models == []
    ensures r.isValid ==> r.models == reply.content.GetOr([])
  {
    if url == "" then ServerStatus(false, [])
    else match reply
      case ServerThrew(_) => ServerStatus(false, [])
      case NotOk(_, _) => ServerStatus(false, [])
      case ServerOk(ids) => ServerStatus(true, ids.GetOr([]))
  }

  /**
   * The TypeError thrown when the Tags branch calls `split` on a reply whose
   * `message.content` is null (the wording of V8).
   */
  const SplitOfNull := "Cannot read properties of null (reading 'split')"

  /** A server reply as the value it yields or the message the adapter throws. */
  function FromServer<T>(reply: ServerReply<T>): (r: Attempt<T>)
    ensures reply.ServerOk? ==> r == Ok(reply.content)
    ensures reply.ServerThrew? ==> r == Failed(reply.message)
    ensures reply.NotOk? ==> r == Failed(LmStudioFailure(reply.status, reply.body))
  {
    match reply
    case ServerThrew(m) => Failed(m)
    case NotOk(status, body) => Failed(LmStudioFailure(status, body))
    case ServerOk(v) => Ok(v)
  }

  /** An SDK reply behind the guard that refuses an empty key before the call. */
  function FromSdk<T>(apiKey: string, reply: SdkReply<T>): (r: Attempt<T>)
    ensures apiKey == "" ==> r == Failed(ApiKeyRequired)
    ensures apiKey != "" && reply.SdkOk? ==> r == Ok(reply.content)
    ensures apiKey != "" && reply.SdkThrew? ==> r == Failed(reply.message)
  {
    if apiKey == "" then Failed(ApiKeyRequired)
    else match reply
      case SdkThrew(m) => Failed(m)
      case SdkOk(v) => Ok(v)
  }

  /**
   * getScoreAndReason: the LM Studio model asks the local server, every other
   * model the cloud SDK. The parsed object is passed on as it came: no field
   * is checked and the score is not clamped to [0, 1].
   */
  function GetScoreAndReason(apiKey: string, model: GeminiModel, replies: Replies<ScoreResponse>): (r: Attempt<ScoreResponse>)
    ensures model.IsLocal() && replies.server.ServerOk? ==> r == Ok(replies.server.content)
    ensures model.IsLocal() && replies.server.ServerThrew? ==> r == Failed(replies.server.message)
    ensures model.IsLocal() && replies.server.NotOk? ==>
              r == Failed(LmStudioFailure(replies.server.status, replies.server.body))
    ensures !model.IsLocal() && apiKey == "" ==> r == Failed(ApiKeyRequired)
    ensures !model.IsLocal() && apiKey != "" && replies.sdk.SdkOk? ==> r == Ok(replies.sdk.content)
    ensures !model.IsLocal() && apiKey != "" && replies.sdk.SdkThrew? ==> r == Failed(replies.sdk.message)
  {
    if model.IsLocal() then FromServer(replies.server) else FromSdk(apiKey, replies.sdk)
  }

  /**
   * getAnnotation: the reply text may be missing (`None`: a null
   * `message.content`, an undefined `response.text`). An LM Studio reply in
   * Tags mode is normalised, and a missing one makes `split` throw; a
   * caption, and anything the cloud SDK returns, is passed on verbatim.
   */
  function GetAnnotation(apiKey: string, annotationType: AnnotationType, model: GeminiModel,
                         replies: Replies<Option<string>>): (r: Attempt<Option<string>>)
    ensures model.IsLocal() && replies.server.ServerOk? && annotationType == Caption ==>
              r == Ok(replies.server.content)
    ensures model.IsLocal() && replies.server.ServerOk? && annotationType == Tags ==>
              r == (match replies.server.content
                    case Some(text) => Ok(Some(Tags.NormalizeTags(text)))
                    case None => Failed(SplitOfNull))
    ensures model.IsLocal() && replies.server.ServerThrew? ==> r == Failed(replies.server.message)
    ensures model.IsLocal() && replies.server.NotOk? ==>
              r == Failed(LmStudioFailure(replies.server.status, replies.server.body))
    ensures !model.IsLocal() && apiKey == "" ==> r == Failed(ApiKeyRequired)
    ensures !model.IsLocal() && apiKey != "" && replies.sdk.SdkOk? ==> r == Ok(replies.sdk.content)
    ensures !model.IsLocal() && apiKey != "" && replies.sdk.SdkThrew? ==> r == Failed(replies.sdk.message)
  {
    if model.IsLocal() then
      match FromServer(replies.server)
      case Failed(m) => Failed(m)
      case Ok(content) =>
        if annotationType == Caption then Ok(content)
        else match content
          case None => Failed(SplitOfNull)
          case Some(text) => Ok(Some(Tags.NormalizeTags(text)))
    else FromSdk(apiKey, replies.sdk)
  }

  /**
   * Each model consults only its own backend: the LM Studio branch ignores
   * the key and the SDK reply, the cloud branch ignores the server reply.
   */
  lemma ScoreBranchesOnModel(apiKey: string, model: GeminiModel, a: Replies<ScoreResponse>, b: Replies<ScoreResponse>,
                             otherKey: string)
    ensures model.IsLocal() && a.server == b.server ==>
              GetScoreAndReason(apiKey, model, a) == GetScoreAndReason(otherKey, model, b)
    ensures !model.IsLocal() && a.sdk == b.sdk ==>
              GetScoreAndReason(apiKey, model, a) == GetScoreAndReason(apiKey, model, b)
  {
  }

  lemma AnnotationBranchesOnModel(apiKey: string, annotationType: AnnotationType, model: GeminiModel,
                                  a: Replies<Option<string>>, b: Replies<Option<string>>, otherKey: string)
    ensures model.IsLocal() && a.server == b.server ==>
              GetAnnotation(apiKey, annotationType, model, a) == GetAnnotation(otherKey, annotationType, model, b)
    ensures !model.IsLocal() && a.sdk == b.sdk ==>
              GetAnnotation(apiKey, annotationType, model, a) == GetAnnotation(apiKey, annotationType, model, b)
  {
  }

  /** A tag annotation from LM Studio is already normalised: normalising it again changes nothing. */
  lemma LocalTagsAreNormalized(apiKey: string, replies: Replies<Option<string>>)
    requires GetAnnotation(apiKey, Tags, LMStudio, replies).Ok?
    ensures var annotation := GetAnnotation(apiKey, Tags, LMStudio, replies).value;
            annotation.Some? && Tags.NormalizeTags(annotation.value) == annotation.value
  {
    Tags.NormalizeIdempotent(replies.server.content.value);
  }
}
