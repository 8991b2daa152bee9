/** How the answer to a chat-completion request becomes a translation or an
    error (`callDeepSeekAPI`). The transport itself is not modelled: the
    response is an input. */
module DeepSeekApi {
  import opened Wrappers
  import opened JsString

  /** The response body as far as the core reads it: either
      `choices[0].message.content` is a string, or reading it throws. */
  datatype Body = Completion(content: Str) | Unreadable

  /** `onload` with a status and body, or `onerror`. */
  datatype Response = Loaded(status: nat, body: Body) | NetworkError

  const OkStatus := 200
  const MissingKeyMessage: Str := Lit("请先配置DeepSeek API密钥")
  const ParseFailedMessage: Str := Lit("解析API响应失败")
  const RequestFailedPrefix: Str := Lit("API请求失败: ")
  /** `onerror` rejects with the response object itself, whose `message`
      is undefined; the caller's string concatenation shows "undefined". */
  const UndefinedMessage: Str := Lit("undefined")

  /** How the promise returned by `callDeepSeekAPI(text, apiKey)` settles:
      Ok with the resolved translation, Err with the error's `message`. */
  function Outcome(apiKey: Str, response: Response): (r: Result<Str, Str>)
    ensures r.Ok? ==> apiKey != [] && response.Loaded? && response.status == OkStatus && response.body.Completion?
    ensures r.Ok? ==> |r.value| <= |response.body.content|
    ensures r.Err? ==> r.error != []
  {
    if apiKey == [] then Err(MissingKeyMessage)
    else
      match response
      case NetworkError => Err(UndefinedMessage)
      case Loaded(status, body) =>
        if status == OkStatus then
          match body
          case Completion(content) => Ok(Trim(content))
          case Unreadable => Err(ParseFailedMessage)
        else Err(RequestFailedPrefix + Decimal(status))
  }

  /** The request succeeds exactly for a stored key and a readable answer
      with status 200, and then yields the slice of the answer left once the
      trimmable units at both ends are cut off; a missing key, a network
      error and an unreadable body each reject with their own message, and
      any other status is reported with its decimal value, which can be read
      back from the message. */
  lemma OutcomeClassifies(apiKey: Str, response: Response)
    ensures var r := Outcome(apiKey, response);
      r.Ok? <==> apiKey != [] && response.Loaded? && response.status == OkStatus && response.body.Completion?
    ensures var r := Outcome(apiKey, response);
      r.Ok? ==>
        var c, i := response.body.content, LeadingSpace(response.body.content);
        i + |r.value| <= |c| && r.value == c[i..i + |r.value|] &&
        (forall k | 0 <= k < i :: IsTrimmable(c[k])) &&
        (forall k | i + |r.value| <= k < |c| :: IsTrimmable(c[k])) &&
        (r.value == [] || (!IsTrimmable(r.value[0]) && !IsTrimmable(r.value[|r.value| - 1])))
    ensures apiKey == [] ==> Outcome(apiKey, response) == Err(MissingKeyMessage)
    ensures apiKey != [] && response.NetworkError? ==> Outcome(apiKey, response) == Err(UndefinedMessage)
    ensures apiKey != [] && response == Loaded(OkStatus, Unreadable) ==>
      Outcome(apiKey, response) == Err(ParseFailedMessage)
    ensures var r := Outcome(apiKey, response);
      apiKey != [] && response.Loaded? && response.status != OkStatus ==>
        r.Err? && |r.error| > |RequestFailedPrefix| &&
        r.error[..|RequestFailedPrefix|] == RequestFailedPrefix &&
        r.error[|RequestFailedPrefix|..] == Decimal(response.status) &&
        ParseDecimal(r.error[|RequestFailedPrefix|..]) == response.status
  {
    if apiKey != [] && response.Loaded? {
      if response.status == OkStatus && response.body.Completion? {
        TrimStripsSpace(response.body.content);
        TrimIsSlice(response.body.content);
      } else if response.status != OkStatus {
        StatusMessage(response.status);
      }
    }
  }

  /** The message for a status splits back into the prefix and the status
      in decimal. */
  lemma StatusMessage(status: nat)
    ensures var m := RequestFailedPrefix + Decimal(status);
      |m| > |RequestFailedPrefix| &&
      m[..|RequestFailedPrefix|] == RequestFailedPrefix &&
      m[|RequestFailedPrefix|..] == Decimal(status)
  {
  }
}
