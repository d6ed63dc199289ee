# Universal code converter: encoders, AI gateway and app state in Dafny

This project models the sequential core of a browser tool that loads a file
and shows it three ways: as a hex dump, as a binary-digit dump and as a Python
`bytes` literal. The tool then asks a generative model for a Python script that
processes the file. It also offers a chat with named personas ("gems").

The model has five modules:

- `Wrappers` (`wrappers.dfy`): `Option` stands for a JavaScript value that may
  be `undefined`. `Result` stands for a computation that returns or throws.
- `Text` (`text.dfy`): the JavaScript string built-ins the core relies on.
  These are `trim`, a global `replace(/p/g, '')`, `join` and `split`,
  `toString(radix)`, `padStart`, ASCII `toUpperCase` and `||` on optional
  strings. Each one comes with an inverse or an independent characterisation.
- `FileUtils` (`file_utils.dfy`): `bufferToHex`, `bufferToBinaryString` and
  `bufferToPythonBytes`. Each encoder has a decoder, and each round trip is
  proved. The two dump loops, which append a cell and a space and then trim,
  are methods. Each method is proved equal to a closed-form function: the
  cells joined by single spaces.
- `Prompts` (`prompts.dfy`): the two prompt templates of
  `generateSmartPythonScript` and the rule that picks one.
- `GeminiService` (`gemini_service.dfy`): key resolution, fence stripping,
  turning failures into a comment (script generation) or passing them on
  (chat), and the last step of video generation. The remote model is an
  oracle, a function parameter that answers with text or with the message of
  the error it throws.
- `App` (`app.dfy`): the React state of `App` as one immutable record. Each
  handler is a pure transition on that record. The clock readings that
  `Date.now()` supplies are parameters. `process.env.API_KEY` and the two
  oracles make up the `Env` record.

Bytes are integers in `0..255`, and strings are sequences of `char`. The
`limit` of the dumps is an `int`: `Math.min(length, limit)` bounds a
`for (i = 0; i < length; i++)` loop, so a negative limit shows no bytes
(`FileUtils.Shown`).

Behaviour of the code worth noting:

- the hex dump has exactly `3n - 1` characters for `n > 0` shown bytes;
- the Python literal's limit is the constant 2000, not a parameter;
- `handleFileSelect` stores a file with an empty type as
  `application/octet-stream`, but the analysis it starts is given the type
  `unknown`;
- `handleUpdateGem` logs the update even when no gem has the id;
- `runAiAnalysis`'s `catch` branch is dead, because
  `generateSmartPythonScript` returns a string in every case.

## Model

| member | source | states |
|---|---|---|
| FileUtils.Shown | utils/fileUtils.ts:3 | The number of bytes rendered is `min(length, limit)`. No bytes are rendered for a limit of 0 or below, and never more than the buffer holds. |
| FileUtils.HexDump | utils/fileUtils.ts:1-9 | The hex text of `n` shown bytes has `3n - 1` characters, or none when `n` is 0. No truncation marker is added. |
| FileUtils.BufferToHex | utils/fileUtils.ts:1-9 | The loop appends each upper-case pair and a space, then trims. Its result is the pairs joined by single spaces, with no space at either end. |
| FileUtils.HexDumpLayout | utils/fileUtils.ts:5-8 | Byte `k` sits at offset `3k` as two upper-case hex digits. A single space follows it unless it is the last byte shown. |
| FileUtils.HexDumpRoundTrip | utils/fileUtils.ts:5-8 | Splitting the hex text on spaces and parsing each pair gives back exactly the first `min(length, limit)` bytes. |
| FileUtils.HexDumpPrefix | utils/fileUtils.ts:3-8 | The hex text depends only on the prefix that is shown. |
| FileUtils.HexDumpExample | utils/fileUtils.ts:1-9 | The bytes 0x48 0x65 0x6C 0x6C give `48 65 6C 6C`. |
| FileUtils.HexCellShape | utils/fileUtils.ts:6 | `toString(16).padStart(2, '0').toUpperCase()` gives two upper-case hex digits that read back as the byte. |
| FileUtils.BinaryDump | utils/fileUtils.ts:11-19 | The binary text of `n` shown bytes has `9n - 1` characters, or none when `n` is 0. |
| FileUtils.BufferToBinary | utils/fileUtils.ts:11-19 | The loop appends each 8-digit group and a space, then trims. Its result is the groups joined by single spaces. |
| FileUtils.BinaryDumpRoundTrip | utils/fileUtils.ts:15-18 | Splitting the binary text on spaces and parsing each group gives back the shown prefix. |
| FileUtils.BinaryDumpExtremes | utils/fileUtils.ts:11-19 | The empty buffer gives the empty text. 0x00 gives `00000000` and 0xFF gives `11111111`. |
| FileUtils.BinaryCellShape | utils/fileUtils.ts:16 | `toString(2).padStart(8, '0')` gives exactly eight `0`/`1` digits that read back as the byte. |
| FileUtils.PyEscapeShape | utils/fileUtils.ts:30 | Each escape is a backslash, `x` and two lower-case hex digits that read back as the byte. |
| FileUtils.PyLiteral | utils/fileUtils.ts:28-32 | The literal starts with `file_data = b'`, holds four characters per byte and ends with one `'`. |
| FileUtils.PythonBytes | utils/fileUtils.ts:21-39 | The output is the header, the escapes of at most the first 2000 bytes, the closing quote, and then the truncation tail. Its length follows from these parts. |
| FileUtils.PythonBytesRoundTrip | utils/fileUtils.ts:26-36 | Decoding the escapes gives back the first `min(length, 2000)` bytes in order. The text after the quote is the truncation comment exactly when more than 2000 bytes were given. |
| FileUtils.PythonTruncation | utils/fileUtils.ts:24-36 | More than 2000 bytes gives the literal of the first 2000 followed by the comment naming 2000 and the full count. Otherwise the output is the literal alone. |
| FileUtils.PythonBytesShort | utils/fileUtils.ts:25-36 | A buffer of at most 2000 bytes gets no comment. |
| FileUtils.PythonTruncationBoundary | utils/fileUtils.ts:24-36 | Exactly 2000 bytes gets no comment. 2001 bytes gets the comment `showing 2000 of 2001 bytes`. |
| FileUtils.TruncationNoteCounts | utils/fileUtils.ts:35 | The comment writes the shown count and then the total count in decimal, and each number reads back as its count. |
| FileUtils.PythonBytesExample | utils/fileUtils.ts:21-39 | The bytes 0x48 0x65 0x6C 0x6C give `file_data = b'\x48\x65\x6c\x6c'` with no comment. |
| Text.Trim | services/geminiService.ts:70 | `trim()` leaves whitespace at neither end. |
| Text.TrimStrips | utils/fileUtils.ts:8 | `trim()` removes only a whitespace prefix and a whitespace suffix. |
| Text.TrimIdempotent | services/geminiService.ts:70 | Trimming twice is the same as trimming once. |
| Text.DeleteAllFenceLeavesNone | services/geminiService.ts:70 | After `replace(/```/g, '')` no three consecutive backticks remain. |
| Text.RadixRoundTrip | utils/fileUtils.ts:6 | `n.toString(radix)` parses back to `n`. |
| Text.Or | services/geminiService.ts:4 | JavaScript's `or` operator on optional strings, applied to `a` and `b`, returns `a` when it is truthy (present and non-empty) and `b` otherwise, so the result is truthy exactly when one of them is. |
| Prompts.GoalPrompt | services/geminiService.ts:28-44 | The goal template embeds the file name, the MIME type and the hex preview verbatim. It holds the instruction in double quotes and says "Do not use Markdown backticks." |
| Prompts.GenericPrompt | services/geminiService.ts:47-60 | The generic template embeds the file name, the MIME type and the hex preview verbatim. It names the `'struct'` fallback and says "Do not use Markdown backticks." |
| Prompts.BuildPrompt | services/geminiService.ts:24-61 | Whichever template is chosen embeds the name, the type and the preview and forbids backticks. A truthy instruction appears quoted; otherwise the prompt names `'struct'`. |
| Prompts.PromptSelection | services/geminiService.ts:26-61 | The goal template is chosen exactly when the instruction is present and non-empty. Otherwise the generic template is chosen. |
| GeminiService.ResolveKey | services/geminiService.ts:3-9 | A non-empty override wins. An empty or absent override falls back to the environment key. When neither is non-empty, the result is the "API Key not found" error. |
| GeminiService.StripFences | services/geminiService.ts:68-70 | The cleaned reply has whitespace at neither end. |
| GeminiService.StripFencesClean | services/geminiService.ts:68-70 | The cleaned reply contains neither "```python" nor "```". |
| GeminiService.StripWithoutFences | services/geminiService.ts:70 | On text with no three backticks, cleaning is just trimming. |
| GeminiService.StripFencesUnwraps | services/geminiService.ts:70 | A script wrapped as "```python", the code, then "```" comes back as the code itself, trimmed, when the code holds no three backticks. The fences are removed and the code between them is kept. |
| Text.DeleteFenceBeforeFence | services/geminiService.ts:70 | Deleting "```" from text without three backticks followed by a closing "```" gives back the text. This holds even when the text ends in backticks that the left-to-right scan reads together with the fence. |
| GeminiService.StripFencesIdempotent | services/geminiService.ts:70 | Cleaning a cleaned reply changes nothing. |
| GeminiService.ErrorCommentShape | services/geminiService.ts:74 | The fallback text starts with "# Error generating smart script.", and the error message follows the fixed lead verbatim. |
| GeminiService.RequestScript | services/geminiService.ts:18-75 | A missing key gives the error comment for that message. A failed request gives the error comment for the remote error. A reply gives the cleaned reply text, or the empty text when there is none. |
| GeminiService.GenerateSmartScript | services/geminiService.ts:11-76 | It never fails. The result is an error comment, or a script with no fences and no surrounding whitespace. With no key at all, the result is the missing-key comment. With a key, one request is sent with the resolved key, the flash model and the template `BuildPrompt` selects. A remote error becomes the error comment carrying that error's message. A reply becomes its text (`""` when undefined) with the fences stripped. |
| GeminiService.NoKeyNoRequest | services/geminiService.ts:18-19 | Without a key, the outcome does not depend on the remote model, so no request is made. |
| GeminiService.OneRequest | services/geminiService.ts:63-66 | The outcome depends only on the remote answer to the one request made with the resolved key, the flash model and the prompt. |
| GeminiService.SendChat | services/geminiService.ts:78-101 | The chat returns the oracle's answer for the resolved key, model, history, message and instruction. That answer may be an undefined text, which is passed on unchanged. A missing key fails with the key error. |
| GeminiService.ChatFailureIsRethrown | services/geminiService.ts:97-100 | A chat failure is the missing-key error or the remote error, unchanged. |
| GeminiService.VideoUri | services/geminiService.ts:139-146 | A completed operation without a URI fails. Otherwise the call succeeds exactly when a key resolves. |
| GeminiService.VideoUriParts | services/geminiService.ts:145-146 | The URI is the download link, then `&key=`, then the resolved key (the override if non-empty, else the environment key). |
| App.FindGem | App.tsx:155 | `find` returns a gem of the list that has the id, and returns nothing exactly when no gem has it. |
| App.InitialRegistry | App.tsx:12-31 | The five default gems have distinct ids, and the initial active id `gemini-flash` names the first of them. |
| App.KeyOverride | App.tsx:106 | The `customApiKey` or `undefined` fallback passes the stored key exactly when it is non-empty, and no key otherwise. |
| App.SyncKey | App.tsx:61-69 | A key that is not blank is stored trimmed, and a success entry and a warning entry are logged. A blank key logs one error entry and keeps the stored key. Nothing else changes. |
| App.SyncedKeyWins | App.tsx:61-69 | After a key that is not blank is synced, every request resolves to that key, trimmed, whatever the environment holds. The stored key has no whitespace at either end. |
| App.SyncKeyStable | App.tsx:61-64 | Syncing the same key again, or its trimmed form, stores the same key. |
| App.CreateGem | App.tsx:131-142 | Exactly one custom gem on `gemini-3-pro-preview` with the given name and instruction is appended, and it becomes active. The others keep their order and contents, one success entry is logged, and nothing else changes. |
| App.CreateGemKeepsRegistry | App.tsx:131-142 | Given a fresh id, the ids stay distinct and the active id names the new gem. |
| App.UpdateGem | App.tsx:144-152 | Only the name and instruction of the gems with the id change. Ids, models, kinds, order and length are kept, and the update is logged even when no gem has the id. Nothing else changes. |
| App.UpdateUnknownId | App.tsx:144-152 | An id that no gem has leaves the registry unchanged. |
| App.UpdateGemKeepsRegistry | App.tsx:144-152 | Updating keeps the ids distinct and the active id resolved. |
| App.SelectGem | App.tsx:262 | The active id becomes the given id, unchecked. The gems, the messages, the terminal and the workspace are unchanged. |
| App.SelectGemKeepsRegistry | App.tsx:262 | Selecting a listed gem keeps the registry valid. |
| App.History | App.tsx:170-173 | The history has one turn per earlier message, in order, with that message's role and text. |
| App.ChatSend | App.tsx:154-203 | An active id that names no gem leaves the state unchanged. Otherwise one user message with the text and then one model message are appended, and the earlier messages are unchanged. The model message is the reply's text, kept undefined if it came back undefined, or else the fixed "Error: Uplink connection failed..." text, and only a failure logs an error. The loading flag ends false, and the gems and workspace are untouched. |
| App.ChatForwardsHistory | App.tsx:170-181 | The request carries the active gem's model and instruction and the history from before the new message. Nothing else the remote chat would answer matters. |
| App.ChatAfterSelect | App.tsx:155-181 | After a selection, the next turn uses the selected gem's model and instruction. Selecting an unknown id makes the turn a no-op. |
| App.ChatAfterCreate | App.tsx:131-181 | A turn right after creating a gem goes to the reasoning model with the new gem's instruction. |
| App.AnalysisShowsLoading | App.tsx:102 | While the script is awaited, the loading flag is on. |
| App.RunAiAnalysis | App.tsx:101-120 | The loading flag ends false and the gateway's script is stored. The view switches to the smart tab exactly when an instruction was given. The terminal gains the quoted instruction (when given), the completion and the tab switch (when given), and the file and chat are untouched. |
| App.AnalysisScriptClean | App.tsx:106-107 | The stored script is an error comment or a script with no fences and no surrounding whitespace. |
| App.CommandWithoutFile | App.tsx:122-126 | With no file loaded, one error-kind rejection entry is appended. Nothing else changes, and the outcome does not depend on the remote model. |
| App.AiCommand | App.tsx:122-128 | With a file loaded, the script is requested for the stored name, type and hex preview, with the instruction. The file and the chat are never touched, and the terminal only grows. |
| App.OrElse | App.tsx:84 | JavaScript's `or` operator on strings gives `s` when it is non-empty and the fallback otherwise. |
| App.FileSelect | App.tsx:71-99 | Selecting a file never touches the chat or the key, and it keeps every earlier terminal entry. |
| App.FileReadFails | App.tsx:71-98 | A failed read clears the script and logs the upload and the error. The old file stays. |
| App.FileReadSucceeds | App.tsx:71-95 | The file is stored with its type defaulting to `application/octet-stream`, along with both previews, and the binary tab is shown. The default analysis runs with the type defaulting to `unknown`, and the loading flag ends false. After the earlier entries, the terminal holds the upload, the size read, the viewers engaged, the request about to be made and the completion. |
| App.StoredPreviewDecodes | App.tsx:79-87 | The stored hex preview decodes back to the first min(size, 512) bytes of the file. |
| App.StepKeepsRegistry | App.tsx:61-202 | Every handler keeps the ids distinct and the active id resolved, given a fresh id for a new gem and a listed id for a selection. |
| App.RunKeepsRegistry | App.tsx:12-202 | Every admissible run of handlers from a valid state ends in a valid registry. |
| App.StepAppendsLogs | App.tsx:34-40 | Every handler only appends to the terminal: the entries before it are a prefix of the entries after it. |
| App.RunAppendsLogs | App.tsx:61-202 | Over any run of handlers, the earlier terminal is a prefix of the later one. |

## Left out

- `formatBytes` (utils/fileUtils.ts:41-48): floating-point `Math.log`, `Math.pow` and `toFixed`.
- The GoogleGenAI client and every network call: the remote model is an oracle parameter.
- The video polling loop (services/geminiService.ts:103-137): an unbounded timer loop on a remote operation. Only the key check before it and the URI step after it are modelled.
- `console` logging, the log entries' random ids and wall-clock timestamps, the boot-sequence timeouts, `getBinaryDisplay` and `getPythonRawDisplay`: presentation only.
- ChatSend: reads the clock once per message (`sentAt` for the user's message, `answeredAt` for the reply) and uses that reading for both the id and the timestamp, where the code calls `Date.now()` separately for each. Two readings a moment apart can differ by a millisecond, and that difference is not modelled.
- The components (`ROGLayout`, `SystemTerminal`, `FileUpload`, `DataViewer`, `NeuralChat`, `SuccessVisualizer`, `SystemExport`): rendering, clipboard, downloads and packaging. Their input guards are not preconditions here. These guards are a non-blank command, a non-blank chat text while not loading, and a non-blank gem name. The transitions are modelled for every input.
- React's asynchronous state updates and stale closures: handlers are taken to run one after another, and an awaited handler is modelled by the state it leaves when it finishes.
- The uniqueness of `custom-${Date.now()}` ids is not guaranteed by the code. It is a precondition of the registry lemmas only.
- Strings are sequences of `char`. JavaScript's UTF-16 code units are not modelled separately, and `toUpperCase` is modelled on ASCII letters only. That covers every character the encoders produce.
- A thrown error's text is modelled as its message string, whether it reaches the code as `error.message` or as `String(error)`.
