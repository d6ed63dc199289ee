/** The state of the `App` component (`App.tsx`) as one immutable record, and
    each of its event handlers as a transition on that record. Clock readings
    (`Date.now()`) are parameters; the log entries' random ids and wall-clock
    timestamps are left out. The remote model is the pair of oracles in `Env`.
    Handlers run one after another, and an awaited handler is modelled by the
    state it leaves once it has finished. */
module App {
  import opened Wrappers
  import opened Text
  import FileUtils
  import opened Prompts
  import opened GeminiService

  // ---------------------------------------------------------------------
  // The records of `types.ts` and the state of the component
  // ---------------------------------------------------------------------

  datatype GemKind = SystemGem | CustomGem

  /** A persona for the chat: a model and an optional system instruction. */
  datatype Gem = Gem(id: string, name: string, model: string, instruction: Option<string>, kind: GemKind)

  datatype Role = User | Model

  /** A chat message; a model message's text is `None` when the remote chat
      answered with `undefined` text, which is stored as it came. */
  datatype Message = Message(id: string, role: Role, text: Option<string>, timestamp: int)

  datatype LogKind = InfoLog | SuccessLog | WarningLog | ErrorLog | SystemLog

  /** A line of the system terminal. */
  datatype LogEntry = LogEntry(text: string, kind: LogKind)

  datatype Tab = BinaryTab | PythonRawTab | PythonSmartTab | ChatTab

  /** `ProcessedFile`: the loaded file with its two previews. */
  datatype LoadedFile = LoadedFile(name: string, mime: string, size: nat, buffer: seq<FileUtils.Byte>,
                                   hexPreview: string, binary: string)

  datatype State = State(
    file: Option<LoadedFile>,
    tab: Tab,
    smartScript: string,
    aiLoading: bool,
    logs: seq<LogEntry>,
    customKey: string,
    messages: seq<Message>,
    gems: seq<Gem>,
    activeGemId: string,
    chatLoading: bool)

  /** What lies outside the component: `process.env.API_KEY` and the remote model. */
  datatype Env = Env(envKey: Option<string>, content: ContentOracle, chat: ChatOracle)

  // ---------------------------------------------------------------------
  // The initial state
  // ---------------------------------------------------------------------

  const ProModel := "gemini-3-pro-preview"

  const KaiInstruction :=
    "This is the \"Kai\" container. Please click the Settings/Edit icon above "
    + "to paste the actual system instructions from your Kai Gem to sync its personality."
  const CoderInstruction :=
    "You are an expert software engineer specializing in Python, React, "
    + "and low-level binary data analysis. Be concise and provide code blocks."
  const WriterInstruction :=
    "You are a creative sci-fi writer. Respond in a cyberpunk style, "
    + "using terminology like \"uplink\", \"neural net\", and \"data stream\"."

  const DefaultGems: seq<Gem> := [
    Gem("gemini-flash", "Gemini 3 Flash (Fast)", FlashModel, None, SystemGem),
    Gem("gemini-pro", "Gemini 3 Pro (Reasoning)", ProModel, None, SystemGem),
    Gem("kai-custom", "Kai (Custom Uplink)", ProModel, Some(KaiInstruction), CustomGem),
    Gem("coder", "The Coder", ProModel, Some(CoderInstruction), SystemGem),
    Gem("writer", "Creative Core", ProModel, Some(WriterInstruction), SystemGem)
  ]

  const InitialGemId := "gemini-flash"

  const Initial := State(None, BinaryTab, "", false, [], "", [], DefaultGems, InitialGemId, false)

  // ---------------------------------------------------------------------
  // The gem registry
  // ---------------------------------------------------------------------

  predicate DistinctIds(gems: seq<Gem>) {
    forall i, j :: 0 <= i < j < |gems| ==> gems[i].id != gems[j].id
  }

  /** `gems.find(g => g.id === id)` */
  function FindGem(gems: seq<Gem>, id: string): (r: Option<Gem>)
    ensures r.Some? ==> r.value in gems && r.value.id == id
    ensures r.None? <==> forall g :: g in gems ==> g.id != id
  {
    if |gems| == 0 then None
    else if gems[0].id == id then Some(gems[0])
    else
      assert forall g :: g in gems ==> g == gems[0] || g in gems[1..];
      FindGem(gems[1..], id)
  }

  /** The gem found is the first one carrying the id. */
  lemma {:induction false} FindFirst(gems: seq<Gem>, id: string, i: nat)
    requires i < |gems| && gems[i].id == id
    requires forall j :: 0 <= j < i ==> gems[j].id != id
    ensures FindGem(gems, id) == Some(gems[i])
  {
    if i > 0 {
      FindFirst(gems[1..], id, i - 1);
    }
  }

  /** The registry invariant: ids are distinct and the active id names a gem. */
  predicate Registry(s: State) {
    DistinctIds(s.gems) && FindGem(s.gems, s.activeGemId).Some?
  }

  /** The initial registry holds the five default gems, and the initial active
      id names the first of them. */
  lemma InitialRegistry()
    ensures Registry(Initial)
    ensures |Initial.gems| == 5
    ensures FindGem(Initial.gems, Initial.activeGemId) == Some(DefaultGems[0])
  {
    FindFirst(DefaultGems, InitialGemId, 0);
  }

  // ---------------------------------------------------------------------
  // Helpers shared by the handlers
  // ---------------------------------------------------------------------

  /** `addLog(text, kind)`: one entry at the end of the terminal. */
  function Log(s: State, text: string, kind: LogKind): State {
    s.(logs := s.logs + [LogEntry(text, kind)])
  }

  /** `customApiKey || undefined`: the stored key, unless it is empty. */
  function KeyOverride(customKey: string): (r: Option<string>)
    ensures customKey == "" <==> r == None
    ensures customKey != "" ==> r == Some(customKey)
  {
    Or(Some(customKey), None)
  }

  /** `n.toString()` for a clock reading. */
  function Decimal(n: nat): string {
    ToRadix(n, 10)
  }

  /** The part of the state the chat handlers own. */
  predicate SameChat(a: State, b: State) {
    a.messages == b.messages && a.gems == b.gems && a.activeGemId == b.activeGemId
    && a.chatLoading == b.chatLoading && a.customKey == b.customKey
  }

  /** The part of the state the file and script handlers own. */
  predicate SameWorkspace(a: State, b: State) {
    a.file == b.file && a.tab == b.tab && a.smartScript == b.smartScript
    && a.aiLoading == b.aiLoading && a.customKey == b.customKey
  }

  // ---------------------------------------------------------------------
  // handleSyncKey
  // ---------------------------------------------------------------------

  const KeyAcceptedLogs := [LogEntry("SECURE_UPLINK_ESTABLISHED: CUSTOM_KEY_ACTIVE", SuccessLog),
                            LogEntry("SYSTEM_OVERRIDE: ENVIRONMENT_VARIABLES_UPDATED", WarningLog)]

  /** `handleSyncKey(key)`: a key that is not blank is stored trimmed and
      announced; a blank one is rejected with an error and the stored key
      stays. Nothing but the stored key and the terminal changes. */
  function SyncKey(s: State, key: string): (r: State)
    ensures Trim(key) != "" ==> r.customKey == Trim(key) && r.logs == s.logs + KeyAcceptedLogs
    ensures Trim(key) == "" ==>
              r.customKey == s.customKey && r.logs == s.logs + [LogEntry("ERROR: INVALID_KEY_INPUT", ErrorLog)]
    ensures r == s.(customKey := r.customKey, logs := r.logs)
  {
    var k := Trim(key);
    if k != "" then
      Log(Log(s.(customKey := k), "SECURE_UPLINK_ESTABLISHED: CUSTOM_KEY_ACTIVE", SuccessLog),
          "SYSTEM_OVERRIDE: ENVIRONMENT_VARIABLES_UPDATED", WarningLog)
    else Log(s, "ERROR: INVALID_KEY_INPUT", ErrorLog)
  }

  /** After a key that is not blank has been synced, every request resolves
      to that key, trimmed, whatever `process.env.API_KEY` holds. */
  lemma SyncedKeyWins(s: State, key: string, envKey: Option<string>)
    requires Trim(key) != ""
    ensures ResolveKey(KeyOverride(SyncKey(s, key).customKey), envKey) == Success(Trim(key))
    ensures IsTrimmed(SyncKey(s, key).customKey)
  {
  }

  /** Syncing the same key again, or its trimmed form, stores the same key. */
  lemma SyncKeyStable(s: State, key: string)
    ensures SyncKey(SyncKey(s, key), key).customKey == SyncKey(s, key).customKey
    ensures SyncKey(s, Trim(key)).customKey == SyncKey(s, key).customKey
  {
    TrimIdempotent(key);
  }

  // ---------------------------------------------------------------------
  // handleCreateGem
  // ---------------------------------------------------------------------

  /** The id `custom-${Date.now()}` for the clock reading `now`. */
  function CustomGemId(now: nat): string {
    "custom-" + Decimal(now)
  }

  function NewGem(now: nat, name: string, instruction: string): Gem {
    Gem(CustomGemId(now), name, ProModel, Some(instruction), CustomGem)
  }

  /** `handleCreateGem(name, instruction)` at clock reading `now`: exactly one
      custom gem on the pro model is appended, the others are kept in order,
      the new gem becomes active and is logged; nothing else changes. */
  function CreateGem(s: State, now: nat, name: string, instruction: string): (r: State)
    ensures |r.gems| == |s.gems| + 1
    ensures r.gems[..|s.gems|] == s.gems
    ensures r.gems[|s.gems|] == Gem(CustomGemId(now), name, ProModel, Some(instruction), CustomGem)
    ensures r.activeGemId == CustomGemId(now)
    ensures r.logs == s.logs + [LogEntry("NEW_GEM_COMPILED: " + name, SuccessLog)]
    ensures SameWorkspace(s, r) && r.messages == s.messages && r.chatLoading == s.chatLoading
  {
    var gem := NewGem(now, name, instruction);
    var added := s.gems + [gem];
    assert added[..|s.gems|] == s.gems;
    Log(s.(gems := added, activeGemId := gem.id), "NEW_GEM_COMPILED: " + name, SuccessLog)
  }

  /** Appending a gem with a fresh id keeps the ids distinct, and the new gem is found by its id. */
  lemma AppendFresh(gems: seq<Gem>, g: Gem)
    requires DistinctIds(gems) && FindGem(gems, g.id).None?
    ensures DistinctIds(gems + [g])
    ensures FindGem(gems + [g], g.id) == Some(g)
  {
    var all := gems + [g];
    assert forall j :: 0 <= j < |gems| ==> all[j] == gems[j];
    assert forall j :: 0 <= j < |gems| ==> gems[j].id != g.id by {
      forall j | 0 <= j < |gems| ensures gems[j].id != g.id {
        assert gems[j] in gems;
      }
    }
    FindFirst(all, g.id, |gems|);
  }

  /** A created gem keeps the registry valid when its id is fresh (two gems
      created within the same millisecond would share one), and it is the gem
      the active id then names. */
  lemma CreateGemKeepsRegistry(s: State, now: nat, name: string, instruction: string)
    requires Registry(s)
    requires FindGem(s.gems, CustomGemId(now)).None?
    ensures Registry(CreateGem(s, now, name, instruction))
    ensures var r := CreateGem(s, now, name, instruction);
            FindGem(r.gems, r.activeGemId) == Some(NewGem(now, name, instruction))
  {
    var r := CreateGem(s, now, name, instruction);
    assert r.gems == s.gems + [NewGem(now, name, instruction)];
    AppendFresh(s.gems, NewGem(now, name, instruction));
  }

  // ---------------------------------------------------------------------
  // handleUpdateGem
  // ---------------------------------------------------------------------

  /** The callback of `prev.map(...)`: the gem with the id gets the new name and instruction. */
  function Rename(g: Gem, id: string, name: string, instruction: string): Gem {
    if g.id == id then g.(name := name, instruction := Some(instruction)) else g
  }

  function UpdateGems(gems: seq<Gem>, id: string, name: string, instruction: string): (r: seq<Gem>)
    ensures |r| == |gems|
    ensures forall i :: 0 <= i < |gems| ==> r[i] == Rename(gems[i], id, name, instruction)
  {
    if |gems| == 0 then []
    else [Rename(gems[0], id, name, instruction)] + UpdateGems(gems[1..], id, name, instruction)
  }

  /** `handleUpdateGem(id, name, instruction)`: the order, the ids, the models
      and the kinds are kept; exactly the gems carrying the id get the new
      name and instruction. The update is logged even when no gem matches. */
  function UpdateGem(s: State, id: string, name: string, instruction: string): (r: State)
    ensures |r.gems| == |s.gems|
    ensures forall i :: 0 <= i < |s.gems| ==>
              r.gems[i].id == s.gems[i].id && r.gems[i].model == s.gems[i].model
              && r.gems[i].kind == s.gems[i].kind
              && (s.gems[i].id == id ==> r.gems[i].name == name && r.gems[i].instruction == Some(instruction))
              && (s.gems[i].id != id ==> r.gems[i] == s.gems[i])
    ensures r.logs == s.logs + [LogEntry("GEM_PROTOCOL_UPDATED: " + name, SuccessLog)]
    ensures r.activeGemId == s.activeGemId && SameWorkspace(s, r)
            && r.messages == s.messages && r.chatLoading == s.chatLoading
  {
    Log(s.(gems := UpdateGems(s.gems, id, name, instruction)), "GEM_PROTOCOL_UPDATED: " + name, SuccessLog)
  }

  /** An id no gem carries leaves the registry as it was. */
  lemma UpdateUnknownId(s: State, id: string, name: string, instruction: string)
    requires FindGem(s.gems, id).None?
    ensures UpdateGem(s, id, name, instruction).gems == s.gems
  {
    var r := UpdateGem(s, id, name, instruction);
    forall i | 0 <= i < |s.gems|
      ensures r.gems[i] == s.gems[i]
    {
      assert s.gems[i] in s.gems;
    }
  }

  /** Updating keeps the registry valid, and the active gem stays the one
      with the active id. */
  lemma UpdateGemKeepsRegistry(s: State, id: string, name: string, instruction: string)
    requires Registry(s)
    ensures Registry(UpdateGem(s, id, name, instruction))
  {
    var r := UpdateGem(s, id, name, instruction);
    var g := FindGem(s.gems, s.activeGemId).value;
    var i :| 0 <= i < |s.gems| && s.gems[i] == g;
    assert r.gems[i] in r.gems;
    assert r.gems[i].id == s.activeGemId;
  }

  // ---------------------------------------------------------------------
  // Selecting a gem (`onSelectGem={setActiveGemId}`)
  // ---------------------------------------------------------------------

  /** The chat panel's selection: the active id is set as given, unchecked,
      and nothing else changes. */
  function SelectGem(s: State, id: string): (r: State)
    ensures r.activeGemId == id
    ensures r.gems == s.gems && r.messages == s.messages && r.logs == s.logs && r.chatLoading == s.chatLoading
    ensures SameWorkspace(s, r)
  {
    s.(activeGemId := id)
  }

  /** Selecting an id the registry holds keeps it valid. */
  lemma SelectGemKeepsRegistry(s: State, id: string)
    requires DistinctIds(s.gems) && FindGem(s.gems, id).Some?
    ensures Registry(SelectGem(s, id))
  {
  }

  // ---------------------------------------------------------------------
  // handleChatSend
  // ---------------------------------------------------------------------

  const UplinkFailedText := "Error: Uplink connection failed. Please check your API Key or Network."

  function RoleName(role: Role): string {
    match role
    case User => "user"
    case Model => "model"
  }

  /** `chatMessages.map(m => ({ role: m.role, parts: [{ text: m.text }] }))` */
  function History(messages: seq<Message>): (h: seq<Turn>)
    ensures |h| == |messages|
    ensures forall i :: 0 <= i < |messages| ==> h[i] == Turn(RoleName(messages[i].role), [messages[i].text])
  {
    if |messages| == 0 then []
    else [Turn(RoleName(messages[0].role), [messages[0].text])] + History(messages[1..])
  }

  /** The request the chat handler makes for the active gem. */
  function ChatRequest(s: State, gem: Gem, text: string, env: Env): Result<Option<string>, string> {
    SendChat(gem.model, History(s.messages), text, gem.instruction, KeyOverride(s.customKey), env.envKey, env.chat)
  }

  /** `handleChatSend(text)` with the clock reading `sentAt` when the message
      is sent and `answeredAt` when the answer (or the failure) arrives.
      With an active id that names no gem nothing changes. Otherwise the
      user's message and then one model message are appended: the answer, or
      the fixed failure text with an error logged. The loading flag is off
      afterwards, and the registry and the workspace are untouched. */
  function ChatSend(s: State, text: string, env: Env, sentAt: nat, answeredAt: nat): (r: State)
    ensures FindGem(s.gems, s.activeGemId).None? ==> r == s
    ensures FindGem(s.gems, s.activeGemId).Some? ==>
              var reply := ChatRequest(s, FindGem(s.gems, s.activeGemId).value, text, env);
              |r.messages| == |s.messages| + 2
              && r.messages[..|s.messages|] == s.messages
              && r.messages[|s.messages|] == Message(Decimal(sentAt), User, Some(text), sentAt)
              && r.messages[|s.messages| + 1].role == Model
              && r.messages[|s.messages| + 1].text == (if reply.Success? then reply.value else Some(UplinkFailedText))
              && r.logs == s.logs + (if reply.Success? then [] else [LogEntry("CHAT_UPLINK_FAILED", ErrorLog)])
              && !r.chatLoading
    ensures r.gems == s.gems && r.activeGemId == s.activeGemId && SameWorkspace(s, r)
  {
    match FindGem(s.gems, s.activeGemId)
    case None => s
    case Some(gem) =>
      var sent := s.(messages := s.messages + [Message(Decimal(sentAt), User, Some(text), sentAt)], chatLoading := true);
      var replyId := Decimal(answeredAt + 1);
      var answer := match ChatRequest(s, gem, text, env)
                    case Success(a) => a
                    case Failure(_) => Some(UplinkFailedText);
      var logged := if ChatRequest(s, gem, text, env).Success? then sent else Log(sent, "CHAT_UPLINK_FAILED", ErrorLog);
      var all := logged.messages + [Message(replyId, Model, answer, answeredAt)];
      assert all[..|s.messages|] == s.messages;
      logged.(messages := all, chatLoading := false)
  }

  /** The chat request goes to the active gem's model with its instruction,
      and carries the messages from before the new one, in order, as
      role and text; the outcome depends on nothing else the remote chat
      would answer. */
  lemma ChatForwardsHistory(s: State, text: string, env: Env, env': Env, sentAt: nat, answeredAt: nat)
    requires FindGem(s.gems, s.activeGemId).Some?
    requires env.envKey == env'.envKey
    requires var gem := FindGem(s.gems, s.activeGemId).value;
             var key := ResolveKey(KeyOverride(s.customKey), env.envKey);
             key.Success? ==>
               env.chat(key.value, gem.model, History(s.messages), text, gem.instruction)
               == env'.chat(key.value, gem.model, History(s.messages), text, gem.instruction)
    ensures ChatSend(s, text, env, sentAt, answeredAt) == ChatSend(s, text, env', sentAt, answeredAt)
  {
  }

  /** After a selection, the next turn goes to the selected gem's model with
      its instruction; an id the registry does not hold makes it a no-op. */
  lemma ChatAfterSelect(s: State, id: string, text: string, env: Env, sentAt: nat, answeredAt: nat)
    ensures var r := ChatSend(SelectGem(s, id), text, env, sentAt, answeredAt);
            match FindGem(s.gems, id)
            case None => r == SelectGem(s, id)
            case Some(g) =>
              var reply := SendChat(g.model, History(s.messages), text, g.instruction,
                                    KeyOverride(s.customKey), env.envKey, env.chat);
              |r.messages| == |s.messages| + 2
              && r.messages[|s.messages| + 1].text == (if reply.Success? then reply.value else Some(UplinkFailedText))
  {
  }

  /** A turn sent right after creating a gem goes to the reasoning model with
      the new gem's instruction. */
  lemma ChatAfterCreate(s: State, now: nat, name: string, instruction: string, text: string,
                        env: Env, sentAt: nat, answeredAt: nat)
    requires Registry(s)
    requires FindGem(s.gems, CustomGemId(now)).None?
    ensures var r := ChatSend(CreateGem(s, now, name, instruction), text, env, sentAt, answeredAt);
            var reply := SendChat(ProModel, History(s.messages), text, Some(instruction),
                                  KeyOverride(s.customKey), env.envKey, env.chat);
            |r.messages| == |s.messages| + 2
            && r.messages[|s.messages| + 1].text == (if reply.Success? then reply.value else Some(UplinkFailedText))
  {
    CreateGemKeepsRegistry(s, now, name, instruction);
  }

  // ---------------------------------------------------------------------
  // runAiAnalysis
  // ---------------------------------------------------------------------

  /** What `runAiAnalysis` does before awaiting the script: the loading flag
      on, and the instruction logged when there is one. */
  function StartAnalysis(s: State, instruction: Option<string>): State {
    var busy := s.(aiLoading := true);
    if Truthy(instruction) then Log(busy, "USER_COMMAND_RECEIVED: " + Quoted(instruction.value), SystemLog)
    else busy
  }

  /** What it does once the script is there: store it, log it, switch to the
      smart tab when an instruction was given, and turn the flag off. */
  function FinishAnalysis(s: State, instruction: Option<string>, script: string): State {
    var done := Log(s.(smartScript := script), "NEURAL_GENERATION_COMPLETE: PYTHON_SCRIPT_READY", SuccessLog);
    var shown := if Truthy(instruction) then Log(done.(tab := PythonSmartTab), "INTERFACE_SWITCH: SMART_TAB", InfoLog)
                 else done;
    shown.(aiLoading := false)
  }

  /** The entries an analysis adds to the terminal. */
  function AnalysisLogs(instruction: Option<string>): seq<LogEntry> {
    if Truthy(instruction) then
      [LogEntry("USER_COMMAND_RECEIVED: " + Quoted(instruction.value), SystemLog),
       LogEntry("NEURAL_GENERATION_COMPLETE: PYTHON_SCRIPT_READY", SuccessLog),
       LogEntry("INTERFACE_SWITCH: SMART_TAB", InfoLog)]
    else [LogEntry("NEURAL_GENERATION_COMPLETE: PYTHON_SCRIPT_READY", SuccessLog)]
  }

  /** `runAiAnalysis(name, type, hex, instruction)`: it ends with the flag off
      and the service's script stored, switches to the smart tab exactly when
      an instruction was given, logs the instruction and the completion, and
      leaves the file and the chat alone. */
  function RunAiAnalysis(s: State, name: string, mime: string, hex: string, instruction: Option<string>, env: Env): (r: State)
    ensures !r.aiLoading
    ensures r.smartScript == GenerateSmartScript(name, mime, hex, instruction, KeyOverride(s.customKey), env.envKey, env.content)
    ensures Truthy(instruction) ==> r.tab == PythonSmartTab
    ensures !Truthy(instruction) ==> r.tab == s.tab
    ensures r.logs == s.logs + AnalysisLogs(instruction)
    ensures r.file == s.file && SameChat(s, r)
  {
    var script := GenerateSmartScript(name, mime, hex, instruction, KeyOverride(s.customKey), env.envKey, env.content);
    AnalysisSteps(s, instruction, script);
    FinishAnalysis(StartAnalysis(s, instruction), instruction, script)
  }

  /** Whatever the script, finishing an analysis turns the flag off, stores
      the script, switches to the smart tab exactly when an instruction was
      given, and leaves the file and the chat alone. */
  lemma AnalysisSteps(s: State, instruction: Option<string>, script: string)
    ensures var r := FinishAnalysis(StartAnalysis(s, instruction), instruction, script);
            !r.aiLoading && r.smartScript == script
            && (Truthy(instruction) ==> r.tab == PythonSmartTab)
            && (!Truthy(instruction) ==> r.tab == s.tab)
            && r.logs == s.logs + AnalysisLogs(instruction)
            && r.file == s.file && SameChat(s, r)
  {
  }

  /** While the script is awaited the loading flag is on. */
  lemma AnalysisShowsLoading(s: State, instruction: Option<string>)
    ensures StartAnalysis(s, instruction).aiLoading
    ensures StartAnalysis(s, instruction).smartScript == s.smartScript
  {
  }

  /** The stored script is an error comment or a clean script. */
  lemma AnalysisScriptClean(s: State, name: string, mime: string, hex: string, instruction: Option<string>, env: Env)
    ensures var r := RunAiAnalysis(s, name, mime, hex, instruction, env);
            IsErrorComment(r.smartScript) || (!Contains(r.smartScript, Fence) && IsTrimmed(r.smartScript))
  {
  }

  // ---------------------------------------------------------------------
  // handleAiCommand
  // ---------------------------------------------------------------------

  /** `handleAiCommand(instruction)`: with a loaded file, a script is asked
      for about the stored name, type and hex preview, with the instruction;
      the chat is never touched and the terminal only grows. */
  function AiCommand(s: State, instruction: string, env: Env): (r: State)
    ensures s.file.Some? ==>
              var f := s.file.value;
              r.smartScript == GenerateSmartScript(f.name, f.mime, f.hexPreview, Some(instruction),
                                                   KeyOverride(s.customKey), env.envKey, env.content)
    ensures r.file == s.file && SameChat(s, r) && s.logs <= r.logs
  {
    match s.file
    case None => Log(s, "COMMAND_REJECTED: NO_FILE_LOADED", ErrorLog)
    case Some(f) => RunAiAnalysis(s, f.name, f.mime, f.hexPreview, Some(instruction), env)
  }

  /** Without a loaded file the command is rejected with an error entry and no
      request is made: the outcome does not depend on the environment. */
  lemma CommandWithoutFile(s: State, instruction: string, env: Env, env': Env)
    requires s.file.None?
    ensures AiCommand(s, instruction, env) == AiCommand(s, instruction, env')
    ensures AiCommand(s, instruction, env).logs == s.logs + [LogEntry("COMMAND_REJECTED: NO_FILE_LOADED", ErrorLog)]
    ensures AiCommand(s, instruction, env).logs[|s.logs|].kind == ErrorLog
    ensures AiCommand(s, instruction, env) == s.(logs := AiCommand(s, instruction, env).logs)
  {
  }

  // ---------------------------------------------------------------------
  // handleFileSelect
  // ---------------------------------------------------------------------

  /** The `File` the user picked: its name, its `type` and its `size`. */
  datatype Upload = Upload(name: string, mime: string, size: nat)

  const DefaultMime := "application/octet-stream"
  const UnknownMime := "unknown"

  /** `s || fallback` on strings that are always defined. */
  function OrElse(s: string, fallback: string): (r: string)
    ensures s != "" ==> r == s
    ensures s == "" ==> r == fallback
    ensures r != "" <==> s != "" || fallback != ""
  {
    Or(Some(s), Some(fallback)).value
  }

  /** The three entries logged while a read file is taken in: the size read,
      the viewers engaged, and the request about to be made. */
  function LoadLogs(size: nat): seq<LogEntry> {
    [LogEntry("BUFFER_READ_SUCCESS: " + Decimal(size) + " bytes", SuccessLog),
     LogEntry("MODULES_ENGAGED: HEX_VIEWER, BINARY_DECODER", InfoLog),
     LogEntry("CONTACTING_NEURAL_CORE (Gemini-3-Flash)...", WarningLog)]
  }

  /** The state right after the buffer has been read and the previews built,
      before the analysis starts: the file stored with its type defaulting to
      `application/octet-stream`, the binary tab shown, and `LoadLogs` after
      the earlier entries. */
  function Loaded(s: State, upload: Upload, buffer: seq<FileUtils.Byte>): (r: State)
    ensures r.file.Some? && r.file.value.buffer == buffer && r.tab == BinaryTab
    ensures r.logs == s.logs + LoadLogs(|buffer|)
    ensures r.aiLoading == s.aiLoading && r.smartScript == s.smartScript && SameChat(s, r)
  {
    var loaded := LoadedFile(upload.name, OrElse(upload.mime, DefaultMime), upload.size, buffer,
                             FileUtils.HexDump(buffer, FileUtils.HexLimit),
                             FileUtils.BinaryDump(buffer, FileUtils.BinaryLimit));
    s.(file := Some(loaded), tab := BinaryTab, logs := s.logs + LoadLogs(|buffer|))
  }

  /** `handleFileSelect(file)`, where `read` is what `file.arrayBuffer()`
      yields: the bytes, or the text of the error it throws. The script is
      cleared first; a read file replaces the stored one and the analysis runs
      to completion; the chat is never touched and the terminal only grows. */
  function FileSelect(s: State, upload: Upload, read: Result<seq<FileUtils.Byte>, string>, env: Env): (r: State)
    ensures SameChat(s, r) && s.logs <= r.logs
  {
    var cleared := Log(s.(smartScript := ""), "INITIATING_UPLOAD: " + upload.name, SystemLog);
    match read
    case Failure(err) => Log(cleared, "ERROR_PROCESSING_FILE: " + err, ErrorLog)
    case Success(buffer) =>
      ExtendedPrefix(s.logs, [LogEntry("INITIATING_UPLOAD: " + upload.name, SystemLog)], LoadLogs(|buffer|), AnalysisLogs(None));
      RunAiAnalysis(Loaded(cleared, upload, buffer), upload.name, OrElse(upload.mime, UnknownMime),
                    FileUtils.HexDump(buffer, FileUtils.HexLimit), None, env)
  }

  lemma ExtendedPrefix<T>(a: seq<T>, b: seq<T>, c: seq<T>, d: seq<T>)
    ensures a <= a + b + c + d
  {
    assert (a + b + c + d)[..|a|] == a;
  }

  /** A failed read clears the script and logs the upload and the error; the
      previous file stays. */
  lemma FileReadFails(s: State, upload: Upload, err: string, env: Env)
    ensures var r := FileSelect(s, upload, Failure(err), env);
            r.file == s.file && r.smartScript == "" && r.tab == s.tab && SameChat(s, r)
            && r.logs == s.logs + [LogEntry("INITIATING_UPLOAD: " + upload.name, SystemLog),
                                   LogEntry("ERROR_PROCESSING_FILE: " + err, ErrorLog)]
  {
  }

  /** A read file is stored with its type defaulting to
      `application/octet-stream` and with both previews; the binary tab is
      shown and the default analysis runs on the name, the type defaulting to
      `unknown`, and the hex preview. After the earlier entries the terminal
      holds the upload, the three entries of `LoadLogs` and the completion. */
  lemma FileReadSucceeds(s: State, upload: Upload, buffer: seq<FileUtils.Byte>, env: Env)
    ensures var r := FileSelect(s, upload, Success(buffer), env);
            var hex := FileUtils.HexDump(buffer, FileUtils.HexLimit);
            r.file == Some(LoadedFile(upload.name, OrElse(upload.mime, DefaultMime), upload.size, buffer,
                                      hex, FileUtils.BinaryDump(buffer, FileUtils.BinaryLimit)))
            && r.tab == BinaryTab && !r.aiLoading
            && r.smartScript == GenerateSmartScript(upload.name, OrElse(upload.mime, UnknownMime), hex, None,
                                                    KeyOverride(s.customKey), env.envKey, env.content)
            && r.logs == s.logs + [LogEntry("INITIATING_UPLOAD: " + upload.name, SystemLog)]
                         + LoadLogs(|buffer|) + AnalysisLogs(None)
            && SameChat(s, r)
  {
  }

  /** The stored hex preview decodes back to the first min(size, 512) bytes of the file. */
  lemma StoredPreviewDecodes(s: State, upload: Upload, buffer: seq<FileUtils.Byte>, env: Env)
    ensures var r := FileSelect(s, upload, Success(buffer), env);
            r.file.Some?
            && FileUtils.DecodeDump(r.file.value.hexPreview, 2, 16)
               == Some(buffer[..FileUtils.Shown(|buffer|, FileUtils.HexLimit)])
  {
    FileReadSucceeds(s, upload, buffer, env);
    FileUtils.HexDumpRoundTrip(buffer, FileUtils.HexLimit);
  }

  // ---------------------------------------------------------------------
  // Runs of handlers
  // ---------------------------------------------------------------------

  /** One handler call with its arguments and clock readings. */
  datatype Event =
    | SyncKeyEvent(key: string)
    | CreateGemEvent(now: nat, name: string, instruction: string)
    | UpdateGemEvent(id: string, name: string, instruction: string)
    | SelectGemEvent(id: string)
    | ChatSendEvent(text: string, sentAt: nat, answeredAt: nat)
    | AiCommandEvent(command: string)
    | FileSelectEvent(upload: Upload, read: Result<seq<FileUtils.Byte>, string>)

  function Step(s: State, e: Event, env: Env): State {
    match e
    case SyncKeyEvent(key) => SyncKey(s, key)
    case CreateGemEvent(now, name, instruction) => CreateGem(s, now, name, instruction)
    case UpdateGemEvent(id, name, instruction) => UpdateGem(s, id, name, instruction)
    case SelectGemEvent(id) => SelectGem(s, id)
    case ChatSendEvent(text, sentAt, answeredAt) => ChatSend(s, text, env, sentAt, answeredAt)
    case AiCommandEvent(command) => AiCommand(s, command, env)
    case FileSelectEvent(upload, read) => FileSelect(s, upload, read, env)
  }

  function Run(s: State, events: seq<Event>, env: Env): State
    decreases |events|
  {
    if |events| == 0 then s else Run(Step(s, events[0], env), events[1..], env)
  }

  /** What the handlers rely on but do not check: a created gem gets an id no
      gem has yet, and only a listed gem can be selected. */
  predicate Admissible(s: State, e: Event) {
    && (e.CreateGemEvent? ==> FindGem(s.gems, CustomGemId(e.now)).None?)
    && (e.SelectGemEvent? ==> FindGem(s.gems, e.id).Some?)
  }

  /** Every event of the run is admissible in the state it meets. */
  predicate AdmissibleRun(s: State, events: seq<Event>, env: Env)
    decreases |events|
  {
    |events| > 0 ==>
      Admissible(s, events[0]) && AdmissibleRun(Step(s, events[0], env), events[1..], env)
  }

  /** Every handler keeps the registry valid, given an admissible event. */
  lemma StepKeepsRegistry(s: State, e: Event, env: Env)
    requires Registry(s)
    requires Admissible(s, e)
    ensures Registry(Step(s, e, env))
  {
    if e.CreateGemEvent? {
      CreateGemKeepsRegistry(s, e.now, e.name, e.instruction);
    } else if e.UpdateGemEvent? {
      UpdateGemKeepsRegistry(s, e.id, e.name, e.instruction);
    }
  }

  /** From the initial state, or any valid one, every admissible run ends in
      a valid registry. */
  lemma {:induction false} RunKeepsRegistry(s: State, events: seq<Event>, env: Env)
    requires Registry(s)
    requires AdmissibleRun(s, events, env)
    ensures Registry(Run(s, events, env))
    decreases |events|
  {
    if |events| > 0 {
      StepKeepsRegistry(s, events[0], env);
      RunKeepsRegistry(Step(s, events[0], env), events[1..], env);
    }
  }

  /** No handler removes or rewrites a line of the terminal: each only appends. */
  lemma StepAppendsLogs(s: State, e: Event, env: Env)
    ensures s.logs <= Step(s, e, env).logs
  {
  }

  /** Over any run the earlier terminal is a prefix of the later one. */
  lemma {:induction false} RunAppendsLogs(s: State, events: seq<Event>, env: Env)
    ensures s.logs <= Run(s, events, env).logs
    decreases |events|
  {
    if |events| > 0 {
      var t := Step(s, events[0], env);
      StepAppendsLogs(s, events[0], env);
      RunAppendsLogs(t, events[1..], env);
      PrefixTransitive(s.logs, t.logs, Run(s, events, env).logs);
    }
  }

  lemma PrefixTransitive<T>(a: seq<T>, b: seq<T>, c: seq<T>)
    requires a <= b && b <= c
    ensures a <= c
  {
    assert c[..|b|][..|a|] == c[..|a|];
  }
}
