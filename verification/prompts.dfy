/** The two prompt templates of `generateSmartPythonScript`
    (`services/geminiService.ts`): one for a user's specific goal, one for the
    default analysis, and the rule choosing between them. The fixed text is
    kept as short literals, line by line. */
module Prompts {
  import opened Wrappers
  import opened Text

  /** The model every script request goes to, and the default chat gem's. */
  const FlashModel := "gemini-3-flash-preview"

  /** The template text around the arguments, line by line as the template
      literals lay it out: every line indented by eight spaces, the blank
      lines holding just the indentation, and six spaces after the last line. */
  const Indent := "        "
  const Blank := Indent + "\n"

  function Line(text: string): string {
    Indent + text + "\n"
  }

  const ReturnOnly := "Return ONLY the Python code block. "
  const NoBackticks := "Do not use Markdown backticks."
  const Closing := "\n      "

  const NameLead := "\n" + Indent + "I have a file named \""
  const MimeLead := "\" with MIME type \""
  const MimeTail := "\".\n" + Blank
  const GoalPreviewLead := Indent + "Here is a hex preview of the beginning of the file (first few bytes):\n" + Indent
  const GoalLead := "\n" + Blank + Line("THE USER HAS A SPECIFIC GOAL:") + Indent
  const GoalAsk :=
    "\n" + Blank
    + Line("Please write a COMPLETE, ROBUST, and PROFESSIONAL Python script to accomplish this specific goal.")
    + Line("- Assume the file is in the local directory.")
    + Line("- Use standard libraries or popular ones (pandas, numpy, PIL, etc.).")
    + Line("- Handle potential errors gracefully.")
    + Line("- Add comments explaining complex parts.")
    + Blank + Indent + ReturnOnly
  const GenericPreviewLead := Indent + "Here is a hex preview of the beginning of the file:\n" + Indent
  const GenericAsk :=
    "\n" + Blank
    + Line("Please write a robust, professional Python script to:")
    + Line("1. Load this file efficiently.")
    + Line("2. Identify what library would be best to parse it based on the file type/magic bytes.")
    + Line("3. Provide a code snippet that opens the file and prints basic metadata or statistics about it.")
    + Blank + Indent + "If the file type is generic binary, use the "
  const StructModule := "'struct'"
  const StructTail := " module.\n" + Indent + ReturnOnly

  /** The first line of both templates, naming the file and its MIME type. */
  function FileIntro(fileName: string, fileType: string): string {
    NameLead + fileName + (MimeLead + fileType + MimeTail)
  }

  /** A template: the file line, the line leading to the preview, the preview,
      and the rest. */
  function Fill(intro: string, lead: string, preview: string, tail: string): string {
    intro + lead + preview + tail
  }

  function Quoted(s: string): string {
    "\"" + s + "\""
  }

  /** The template for a user's specific goal: it embeds the file name, the
      MIME type and the preview verbatim, quotes the goal, and asks for no
      Markdown backticks. */
  function GoalPrompt(fileName: string, fileType: string, preview: string, instruction: string): (p: string)
    ensures Contains(p, fileName) && Contains(p, fileType) && Contains(p, preview)
    ensures Contains(p, Quoted(instruction))
    ensures Contains(p, NoBackticks)
  {
    GoalNamesFile(fileName, fileType, preview, instruction);
    GoalShowsPreview(fileName, fileType, preview, instruction);
    GoalQuotesInstruction(fileName, fileType, preview, instruction);
    GoalFilled(fileName, fileType, preview, instruction)
  }

  /** The template for the default analysis: it embeds the file name, the MIME
      type and the preview verbatim, names the `'struct'` fallback, and asks
      for no Markdown backticks. */
  function GenericPrompt(fileName: string, fileType: string, preview: string): (p: string)
    ensures Contains(p, fileName) && Contains(p, fileType) && Contains(p, preview)
    ensures Contains(p, StructModule)
    ensures Contains(p, NoBackticks)
  {
    GenericNamesFile(fileName, fileType, preview);
    GenericShowsPreview(fileName, fileType, preview);
    GenericNamesStruct(fileName, fileType, preview);
    GenericFilled(fileName, fileType, preview)
  }

  /** `if (userInstruction)`: the goal template for a truthy instruction, else
      the generic one. Whichever is chosen embeds the inputs; the instruction
      appears quoted exactly when it is truthy. */
  function BuildPrompt(fileName: string, fileType: string, preview: string, instruction: Option<string>): (p: string)
    ensures Contains(p, fileName) && Contains(p, fileType) && Contains(p, preview) && Contains(p, NoBackticks)
    ensures Truthy(instruction) ==> Contains(p, Quoted(instruction.value))
    ensures !Truthy(instruction) ==> Contains(p, StructModule)
  {
    if Truthy(instruction) then GoalPrompt(fileName, fileType, preview, instruction.value)
    else GenericPrompt(fileName, fileType, preview)
  }

  /** Whatever the file line, the rest or the preview contains, the filled template contains. */
  lemma FillContains(intro: string, lead: string, preview: string, tail: string, p: string)
    requires Contains(intro, p) || Contains(tail, p) || p == preview
    ensures Contains(Fill(intro, lead, preview, tail), p)
  {
    if Contains(intro, p) {
      ContainsWithin("", intro, lead + preview + tail, p);
      assert "" + intro + (lead + preview + tail) == intro + lead + preview + tail;
    } else if Contains(tail, p) {
      ContainsWithin(intro + lead + preview, tail, "", p);
      assert intro + lead + preview + tail + "" == intro + lead + preview + tail;
    } else {
      ContainsInfix(intro + lead, preview, tail);
    }
  }

  lemma FileIntroContains(fileName: string, fileType: string)
    ensures Contains(FileIntro(fileName, fileType), fileName)
    ensures Contains(FileIntro(fileName, fileType), fileType)
  {
    ContainsInfix(NameLead, fileName, MimeLead + fileType + MimeTail);
    ContainsInfix(MimeLead, fileType, MimeTail);
    ContainsWithin(NameLead + fileName, MimeLead + fileType + MimeTail, "", fileType);
    assert NameLead + fileName + (MimeLead + fileType + MimeTail) + ""
        == NameLead + fileName + (MimeLead + fileType + MimeTail);
  }

  /** The closing request of a template asks for no Markdown backticks. */
  lemma ClosingContains(ask: string)
    ensures Contains(ask + NoBackticks + Closing, NoBackticks)
  {
    ContainsInfix(ask, NoBackticks, Closing);
  }

  lemma RightContains(a: string, b: string, c: string, p: string)
    requires Contains(c, p)
    ensures Contains(a + b + c, p)
  {
    ContainsWithin(a + b, c, "", p);
    assert a + b + c + "" == a + b + c;
  }

  /** The rest of the goal template, after the preview. */
  function GoalTail(instruction: string): string {
    GoalLead + Quoted(instruction) + GoalClosing
  }

  const GoalClosing := GoalAsk + NoBackticks + Closing
  const GenericTail := GenericAsk + StructModule + GenericClosing
  const GenericClosing := StructTail + NoBackticks + Closing

  /** A pattern held by the file line, the rest, or equal to the preview. */
  predicate Held(intro: string, preview: string, tail: string, p: string) {
    Contains(intro, p) || Contains(tail, p) || p == preview
  }

  /** The goal template, filled. */
  function GoalFilled(fileName: string, fileType: string, preview: string, instruction: string): string {
    Fill(FileIntro(fileName, fileType), GoalPreviewLead, preview, GoalTail(instruction))
  }

  /** The generic template, filled. */
  function GenericFilled(fileName: string, fileType: string, preview: string): string {
    Fill(FileIntro(fileName, fileType), GenericPreviewLead, preview, GenericTail)
  }

  lemma GoalContains(fileName: string, fileType: string, preview: string, instruction: string, p: string)
    requires Held(FileIntro(fileName, fileType), preview, GoalTail(instruction), p)
    ensures Contains(GoalFilled(fileName, fileType, preview, instruction), p)
  {
    FillContains(FileIntro(fileName, fileType), GoalPreviewLead, preview, GoalTail(instruction), p);
  }

  lemma GenericContains(fileName: string, fileType: string, preview: string, p: string)
    requires Held(FileIntro(fileName, fileType), preview, GenericTail, p)
    ensures Contains(GenericFilled(fileName, fileType, preview), p)
  {
    FillContains(FileIntro(fileName, fileType), GenericPreviewLead, preview, GenericTail, p);
  }

  /** The goal template embeds the file name and the MIME type verbatim. */
  lemma GoalNamesFile(fileName: string, fileType: string, preview: string, instruction: string)
    ensures var p := GoalFilled(fileName, fileType, preview, instruction);
            Contains(p, fileName) && Contains(p, fileType)
  {
    FileIntroContains(fileName, fileType);
    GoalContains(fileName, fileType, preview, instruction, fileName);
    GoalContains(fileName, fileType, preview, instruction, fileType);
  }

  /** The goal template embeds the preview verbatim and asks for no Markdown backticks. */
  lemma GoalShowsPreview(fileName: string, fileType: string, preview: string, instruction: string)
    ensures var p := GoalFilled(fileName, fileType, preview, instruction);
            Contains(p, preview) && Contains(p, NoBackticks)
  {
    ClosingContains(GoalAsk);
    RightContains(GoalLead, Quoted(instruction), GoalClosing, NoBackticks);
    GoalContains(fileName, fileType, preview, instruction, preview);
    GoalContains(fileName, fileType, preview, instruction, NoBackticks);
  }

  /** The generic template embeds the file name and the MIME type verbatim. */
  lemma GenericNamesFile(fileName: string, fileType: string, preview: string)
    ensures var p := GenericFilled(fileName, fileType, preview);
            Contains(p, fileName) && Contains(p, fileType)
  {
    FileIntroContains(fileName, fileType);
    GenericContains(fileName, fileType, preview, fileName);
    GenericContains(fileName, fileType, preview, fileType);
  }

  /** The generic template embeds the preview verbatim and asks for no Markdown backticks. */
  lemma GenericShowsPreview(fileName: string, fileType: string, preview: string)
    ensures var p := GenericFilled(fileName, fileType, preview);
            Contains(p, preview) && Contains(p, NoBackticks)
  {
    ClosingContains(StructTail);
    RightContains(GenericAsk, StructModule, GenericClosing, NoBackticks);
    GenericContains(fileName, fileType, preview, preview);
    GenericContains(fileName, fileType, preview, NoBackticks);
  }

  /** The goal template quotes the instruction. */
  lemma GoalQuotesInstruction(fileName: string, fileType: string, preview: string, instruction: string)
    ensures Contains(GoalFilled(fileName, fileType, preview, instruction), Quoted(instruction))
  {
    ContainsInfix(GoalLead, Quoted(instruction), GoalClosing);
    GoalContains(fileName, fileType, preview, instruction, Quoted(instruction));
  }

  /** The generic template names the `struct` module. */
  lemma GenericNamesStruct(fileName: string, fileType: string, preview: string)
    ensures Contains(GenericFilled(fileName, fileType, preview), StructModule)
  {
    ContainsInfix(GenericAsk, StructModule, GenericClosing);
    GenericContains(fileName, fileType, preview, StructModule);
  }

  /** Where the two preview lines part: after "...of the file", a space in one, a colon in the other. */
  const PartAt := 58

  lemma LeadsPart()
    ensures PartAt < |GoalPreviewLead| && PartAt < |GenericPreviewLead|
    ensures GoalPreviewLead[PartAt] == ' ' && GenericPreviewLead[PartAt] == ':'
  {
  }

  /** A character of the lead, read through the filled template. */
  lemma FillAtLead(intro: string, lead: string, preview: string, tail: string, i: nat)
    requires i < |lead|
    ensures |intro| + i < |Fill(intro, lead, preview, tail)|
    ensures Fill(intro, lead, preview, tail)[|intro| + i] == lead[i]
  {
    var x := intro + lead;
    assert x[|intro| + i] == lead[i];
    assert (x + preview)[|intro| + i] == lead[i];
    assert (x + preview + tail)[|intro| + i] == lead[i];
  }

  /** No goal prompt is a generic prompt, whatever the arguments. */
  lemma TemplatesDiffer(fileName: string, fileType: string, preview: string, instruction: string, fileName': string, fileType': string, preview': string)
    requires FileIntro(fileName, fileType) == FileIntro(fileName', fileType')
    ensures GoalFilled(fileName, fileType, preview, instruction) != GenericFilled(fileName', fileType', preview')
  {
    var intro := FileIntro(fileName, fileType);
    LeadsPart();
    FillAtLead(intro, GoalPreviewLead, preview, GoalTail(instruction), PartAt);
    FillAtLead(intro, GenericPreviewLead, preview', GenericTail, PartAt);
  }

  /** The goal template is used exactly when the instruction is truthy, and the
      generic one exactly when it is not. */
  lemma PromptSelection(fileName: string, fileType: string, preview: string, instruction: Option<string>)
    ensures (BuildPrompt(fileName, fileType, preview, instruction)
               == GoalPrompt(fileName, fileType, preview, instruction.GetOr(""))) <==> Truthy(instruction)
    ensures (BuildPrompt(fileName, fileType, preview, instruction)
               == GenericPrompt(fileName, fileType, preview)) <==> !Truthy(instruction)
  {
    if Truthy(instruction) {
      TemplatesDiffer(fileName, fileType, preview, instruction.value, fileName, fileType, preview);
    } else {
      TemplatesDiffer(fileName, fileType, preview, instruction.GetOr(""), fileName, fileType, preview);
    }
  }
}
