/** The service layer of `services/geminiService.ts` around the remote model:
    resolving the API key, cleaning the model's reply, turning failures into a
    comment (script generation) or passing them on (chat), and composing the
    video download URI. The remote model itself is an oracle: a function
    parameter that answers a request with text or with the message of the
    error it throws. */
module GeminiService {
  import opened Wrappers
  import opened Text
  import opened Prompts

  // ---------------------------------------------------------------------
  // Key resolution (getClient)
  // ---------------------------------------------------------------------

  const MissingKeyMessage := "API Key not found in environment variables"

  /** `getClient(overrideKey)`: the key the client is built with, or the error
      it throws. `process.env.API_KEY` is the parameter `envKey`. */
  function ResolveKey(overrideKey: Option<string>, envKey: Option<string>): (r: Result<string, string>)
    ensures r.Success? <==> Truthy(overrideKey) || Truthy(envKey)
    ensures Truthy(overrideKey) ==> r == Success(overrideKey.value)
    ensures !Truthy(overrideKey) && Truthy(envKey) ==> r == Success(envKey.value)
    ensures r.Success? ==> r.value != ""
    ensures r.Failure? ==> r.error == MissingKeyMessage
  {
    var apiKey := Or(overrideKey, envKey);
    if !Truthy(apiKey) then Failure(MissingKeyMessage) else Success(apiKey.value)
  }

  // ---------------------------------------------------------------------
  // Cleaning the reply
  // ---------------------------------------------------------------------

  const PythonFence := "```python"

  /** `text.replace(/```python/g, '').replace(/```/g, '').trim()` */
  function StripFences(text: string): (r: string)
    ensures IsTrimmed(r)
  {
    Trim(DeleteAll(DeleteAll(text, PythonFence), Fence))
  }

  /** A string without three backticks has no "```python" either. */
  lemma NoFenceNoPythonFence(s: string)
    requires !Contains(s, Fence)
    ensures !Contains(s, PythonFence)
  {
    forall i | 0 <= i <= |s|
      ensures !OccursAt(s, PythonFence, i)
    {
      if OccursAt(s, PythonFence, i) {
        assert s[i..i + 3] == PythonFence[..3];
        assert OccursAt(s, Fence, i);
      }
    }
  }

  /** The cleaned reply holds no three backticks, hence no "```python" either,
      and neither end is whitespace. */
  lemma StripFencesClean(text: string)
    ensures !Contains(StripFences(text), Fence)
    ensures !Contains(StripFences(text), PythonFence)
  {
    var d := DeleteAll(DeleteAll(text, PythonFence), Fence);
    DeleteAllFenceLeavesNone(DeleteAll(text, PythonFence));
    TrimAvoids(d, Fence);
    NoFenceNoPythonFence(StripFences(text));
  }

  /** A reply without three backticks is only trimmed. */
  lemma StripWithoutFences(text: string)
    requires !Contains(text, Fence)
    ensures StripFences(text) == Trim(text)
  {
    NoFenceNoPythonFence(text);
    DeleteAllAbsent(text, PythonFence);
    DeleteAllAbsent(text, Fence);
  }

  /** Text without three backticks, followed by the closing fence, holds no
      "```python". */
  lemma NoPythonFenceBeforeFence(s: string)
    requires !Contains(s, Fence)
    ensures !Contains(s + Fence, PythonFence)
  {
    var t := s + Fence;
    forall i | 0 <= i <= |t|
      ensures !OccursAt(t, PythonFence, i)
    {
      if OccursAt(t, PythonFence, i) {
        assert t[i..i + 3] == t[i..i + 9][..3];
        assert PythonFence[..3] == Fence;
        assert s[i..i + 3] == t[i..i + 3];
        assert OccursAt(s, Fence, i);
      }
    }
  }

  /** A script wrapped in a "```python" ... "```" block comes back as the
      script itself, trimmed: the fences go and the code between them stays. */
  lemma StripFencesUnwraps(code: string)
    requires !Contains(code, Fence)
    ensures StripFences(PythonFence + code + Fence) == Trim(code)
  {
    var t := PythonFence + code + Fence;
    assert t[..|PythonFence|] == PythonFence;
    assert t[|PythonFence|..] == code + Fence;
    NoPythonFenceBeforeFence(code);
    DeleteAllAbsent(code + Fence, PythonFence);
    DeleteFenceBeforeFence(code);
  }

  /** Cleaning a cleaned reply changes nothing. */
  lemma StripFencesIdempotent(text: string)
    ensures StripFences(StripFences(text)) == StripFences(text)
  {
    var r := StripFences(text);
    StripFencesClean(text);
    StripWithoutFences(r);
    TrimFixpoint(r);
  }

  // ---------------------------------------------------------------------
  // generateSmartPythonScript
  // ---------------------------------------------------------------------

  /** The remote model for one request: given the key, the model name and the
      prompt, either `response.text` (possibly `undefined`) or the message of
      the error thrown. */
  type ContentOracle = (string, string, string) -> Result<Option<string>, string>

  const ErrorTitle := "# Error generating smart script."
  const ErrorLead := ErrorTitle + "\n# Please check your API configuration.\n# Details: "

  /** The comment returned in place of a script when anything fails. */
  function ErrorComment(message: string): string {
    ErrorLead + message
  }

  /** `text` is an error comment: it starts with the fixed lead. */
  predicate IsErrorComment(text: string) {
    |text| >= |ErrorLead| && text[..|ErrorLead|] == ErrorLead
  }

  /** An error comment starts with the title line and carries the message
      after the lead, where it can be read back. */
  lemma ErrorCommentShape(message: string)
    ensures IsErrorComment(ErrorComment(message))
    ensures ErrorComment(message)[..|ErrorTitle|] == ErrorTitle
    ensures ErrorComment(message)[|ErrorLead|..] == message
  {
    var c := ErrorComment(message);
    assert c[..|ErrorLead|] == ErrorLead;
    assert ErrorLead[..|ErrorTitle|] == ErrorTitle;
  }

  /** The request made once the prompt is built: a missing key or a failed
      request gives an error comment, a reply gives the cleaned reply
      (`response.text || ""`). */
  function RequestScript(prompt: string, apiKey: Option<string>, envKey: Option<string>,
                         oracle: ContentOracle): (r: string)
    ensures ResolveKey(apiKey, envKey).Failure? ==> r == ErrorComment(MissingKeyMessage)
    ensures ResolveKey(apiKey, envKey).Success? ==>
              var reply := oracle(ResolveKey(apiKey, envKey).value, FlashModel, prompt);
              r == if reply.Failure? then ErrorComment(reply.error) else StripFences(reply.value.GetOr(""))
  {
    match ResolveKey(apiKey, envKey)
    case Failure(e) => ErrorComment(e)
    case Success(key) =>
      match oracle(key, FlashModel, prompt)
      case Failure(e) => ErrorComment(e)
      case Success(text) => StripFences(text.GetOr(""))
  }

  /** `generateSmartPythonScript(fileName, fileType, filePreview, userInstruction, apiKey)`:
      it never throws; the prompt is the template the instruction selects. */
  function GenerateSmartScript(fileName: string, fileType: string, preview: string,
                               instruction: Option<string>, apiKey: Option<string>,
                               envKey: Option<string>, oracle: ContentOracle): (r: string)
    ensures !Truthy(apiKey) && !Truthy(envKey) ==> r == ErrorComment(MissingKeyMessage)
    ensures IsErrorComment(r) || (!Contains(r, Fence) && IsTrimmed(r))
    ensures ResolveKey(apiKey, envKey).Success? ==>
              var reply := oracle(ResolveKey(apiKey, envKey).value, FlashModel,
                                  BuildPrompt(fileName, fileType, preview, instruction));
              r == if reply.Failure? then ErrorComment(reply.error) else StripFences(reply.value.GetOr(""))
  {
    var prompt := BuildPrompt(fileName, fileType, preview, instruction);
    ScriptIsCommentOrClean(prompt, apiKey, envKey, oracle);
    RequestScript(prompt, apiKey, envKey, oracle)
  }

  /** Every outcome is an error comment or a clean script: no three
      backticks and no whitespace at either end. */
  lemma ScriptIsCommentOrClean(prompt: string, apiKey: Option<string>, envKey: Option<string>,
                               oracle: ContentOracle)
    ensures var r := RequestScript(prompt, apiKey, envKey, oracle);
            IsErrorComment(r) || (!Contains(r, Fence) && IsTrimmed(r))
  {
    match ResolveKey(apiKey, envKey)
    case Failure(e) => ErrorCommentShape(MissingKeyMessage);
    case Success(key) =>
      match oracle(key, FlashModel, prompt)
      case Failure(e) => ErrorCommentShape(e);
      case Success(text) => StripFencesClean(text.GetOr(""));
  }

  /** Without a key no request is made: the outcome is the same whatever the
      remote model would answer. */
  lemma NoKeyNoRequest(prompt: string, apiKey: Option<string>, envKey: Option<string>,
                       oracle: ContentOracle, oracle': ContentOracle)
    requires !Truthy(apiKey) && !Truthy(envKey)
    ensures RequestScript(prompt, apiKey, envKey, oracle) == RequestScript(prompt, apiKey, envKey, oracle')
    ensures RequestScript(prompt, apiKey, envKey, oracle) == ErrorComment(MissingKeyMessage)
  {
  }

  /** With a key, one request is made, with the resolved key, the flash model
      and the prompt: nothing else the oracle would answer matters. */
  lemma OneRequest(prompt: string, apiKey: Option<string>, envKey: Option<string>,
                   oracle: ContentOracle, oracle': ContentOracle)
    requires ResolveKey(apiKey, envKey).Success?
    requires oracle(ResolveKey(apiKey, envKey).value, FlashModel, prompt)
          == oracle'(ResolveKey(apiKey, envKey).value, FlashModel, prompt)
    ensures RequestScript(prompt, apiKey, envKey, oracle) == RequestScript(prompt, apiKey, envKey, oracle')
  {
  }

  // ---------------------------------------------------------------------
  // sendGeminiChat
  // ---------------------------------------------------------------------

  /** One turn of the history sent with a chat message: a role and the text
      parts (`None` for a text that is `undefined`). */
  datatype Turn = Turn(role: string, parts: seq<Option<string>>)

  /** The remote chat for one message: given the key, the model, the history,
      the message and the system instruction, the reply's `text` (`None` when
      it is `undefined`) or the message of the error thrown. */
  type ChatOracle = (string, string, seq<Turn>, string, Option<string>) -> Result<Option<string>, string>

  /** `sendGeminiChat(modelName, history, message, systemInstruction, apiKey)`:
      the reply, or the error thrown, passed on unchanged. */
  function SendChat(modelName: string, history: seq<Turn>, message: string,
                    systemInstruction: Option<string>, apiKey: Option<string>,
                    envKey: Option<string>, chat: ChatOracle): (r: Result<Option<string>, string>)
    ensures ResolveKey(apiKey, envKey).Failure? ==> r == Failure(MissingKeyMessage)
    ensures ResolveKey(apiKey, envKey).Success? ==>
              r == chat(ResolveKey(apiKey, envKey).value, modelName, history, message, systemInstruction)
  {
    match ResolveKey(apiKey, envKey)
    case Failure(e) => Failure(e)
    case Success(key) => chat(key, modelName, history, message, systemInstruction)
  }

  /** A chat failure is either the missing key or exactly the remote error. */
  lemma ChatFailureIsRethrown(modelName: string, history: seq<Turn>, message: string,
                              systemInstruction: Option<string>, apiKey: Option<string>,
                              envKey: Option<string>, chat: ChatOracle)
    ensures var r := SendChat(modelName, history, message, systemInstruction, apiKey, envKey, chat);
            r.Failure? ==>
              r.error == MissingKeyMessage
              || exists key :: chat(key, modelName, history, message, systemInstruction) == r
  {
    var r := SendChat(modelName, history, message, systemInstruction, apiKey, envKey, chat);
    if ResolveKey(apiKey, envKey).Success? {
      var key := ResolveKey(apiKey, envKey).value;
      assert chat(key, modelName, history, message, systemInstruction) == r;
    }
  }

  // ---------------------------------------------------------------------
  // The last step of generateTeamSuccessVideo
  // ---------------------------------------------------------------------

  const NoUriMessage := "Video generation completed but no URI returned."

  /** The URI returned once the video operation is done: the key check made
      before the request, then the operation's download link (`undefined`
      when the response carries none) with the key appended. */
  function VideoUri(apiKey: Option<string>, envKey: Option<string>, downloadLink: Option<string>): (r: Result<string, string>)
    ensures ResolveKey(apiKey, envKey).Failure? ==> r == Failure(MissingKeyMessage)
    ensures ResolveKey(apiKey, envKey).Success? && !Truthy(downloadLink) ==> r == Failure(NoUriMessage)
    ensures r.Success? <==> ResolveKey(apiKey, envKey).Success? && Truthy(downloadLink)
  {
    match ResolveKey(apiKey, envKey)
    case Failure(e) => Failure(e)
    case Success(_) =>
      if !Truthy(downloadLink) then Failure(NoUriMessage)
      else
        var currentKey := Or(apiKey, envKey);
        Success(downloadLink.value + "&key=" + currentKey.value)
  }

  /** A returned URI is the download link, then `&key=`, then the key the
      client was built with. */
  lemma VideoUriParts(apiKey: Option<string>, envKey: Option<string>, downloadLink: Option<string>)
    requires VideoUri(apiKey, envKey, downloadLink).Success?
    ensures var u := VideoUri(apiKey, envKey, downloadLink).value;
            var link := downloadLink.value;
            |u| == |link| + 5 + |ResolveKey(apiKey, envKey).value|
            && u[..|link|] == link
            && u[|link|..|link| + 5] == "&key="
            && u[|link| + 5..] == ResolveKey(apiKey, envKey).value
  {
    var u := VideoUri(apiKey, envKey, downloadLink).value;
    var link := downloadLink.value;
    var key := ResolveKey(apiKey, envKey).value;
    assert u == link + "&key=" + key;
    assert u[..|link|] == link;
    assert u[|link|..|link| + 5] == "&key=";
    assert u[|link| + 5..] == key;
  }
}
