/** The prompt builder inside `generate_suggestions`: a preamble, the
    history context when there is one, the quoted user input, a
    mode-specific task block and the closing "no markdown" instruction. */
module Prompt {
  import opened Text
  import opened Types

  const Preamble: string := "You are a Linux shell expert assistant.\n\n"
  const ActivityHeading: string := "User's recent activity:\n"
  const InputLabel: string := "User Input: \""
  const Terminator: string := "\nNO markdown. Output:"

  /** The task blocks of the three modes: the task, the rules, the output
      format (`COMMAND | DESCRIPTION` or `ORIGINAL_COMMAND | ...`) and one
      example line. */
  const GenerationTask: string := "TASK: Provide 3-5 most useful command completion options.\nOUTPUT FORMAT: COMMAND | DESCRIPTION\nRULES:\n- If input is incomplete, complete it.\n- If input is a question (Korean/English), convert intent to a command.\n- One option per line.\nExample:\nls -al | List all files details\n"
  const ExplainTask: string := "TASK: Explain exactly what the User Input command does in KOREAN.\nRULES:\n- Explain flags/options clearly.\n- Use friendly tone.\n- Keep it under 2 sentences.\nOUTPUT FORMAT: ORIGINAL_COMMAND | EXPLANATION_IN_KOREAN\nExample:\ntar -czvf a.tar.gz . | 현재 폴더를 gzip으로 압축합니다.\n"
  const DiagnoseTask: string := "TASK: Analyze the User Input command for safety risks, efficiency, or improvements.\nRULES:\n- If dangerous (e.g., rm -rf /), warn strongly.\n- If safe but old, suggest modern alternatives.\n- If correct, just say 'Safe and correct'.\n- Answer in KOREAN.\nOUTPUT FORMAT: ORIGINAL_COMMAND | DIAGNOSIS_IN_KOREAN\nExample:\nrm -rf / | ⚠️ 루트 디렉토리가 삭제될 수 있어 매우 위험합니다!\n"

  function TaskBlock(mode: Mode): string {
    match mode
    case Generation => GenerationTask
    case Explain => ExplainTask
    case Diagnose => DiagnoseTask
  }

  /** The history section, present only for a non-empty context. */
  function ContextBlock(context: string): string {
    if context == [] then "" else ActivityHeading + context + "\n"
  }

  /** `User Input: "<input>"`. */
  function QuotedInput(input: string): string {
    InputLabel + input + "\""
  }

  /** The prompt around a task block `task`: the preamble, the history
      section, the quoted input, a blank line, the task and the closing
      instruction. */
  function Compose(input: string, task: string, context: string): string {
    Preamble + ContextBlock(context) + QuotedInput(input) + ("\n\n" + task + Terminator)
  }

  /** The prompt `generate_suggestions` sends for `input` in `mode` with the
      history summary `context`. */
  function BuildPrompt(input: string, mode: Mode, context: string): string {
    Compose(input, TaskBlock(mode), context)
  }

  /** Where each of five consecutive pieces sits in their concatenation. */
  lemma Layout(a: string, b: string, c: string, d: string, e: string)
    ensures StartsWith(a + b + c + (d + e), a)
    ensures OccursAt(b, a + b + c + (d + e), |a|)
    ensures OccursAt(c, a + b + c + (d + e), |a| + |b|)
    ensures EndsWith(a + b + c + (d + e), e)
    ensures |a + b + c + (d + e)| == |a| + |b| + |c| + |d| + |e|
  {
    var r := a + b + c + (d + e);
    assert r[..|a|] == a;
    assert r[|a|..|a| + |b|] == b;
    assert r[|a| + |b|..|a| + |b| + |c|] == c;
    assert r[|r| - |e|..] == e;
  }

  /** The layout of the prompt for any task block: the preamble first, then
      the history section if any, then the quoted input, and the closing
      instruction last, right after the task block. */
  lemma PromptLayout(input: string, task: string, context: string)
    ensures var r := Compose(input, task, context);
      && StartsWith(r, Preamble)
      && EndsWith(r, Terminator)
      && OccursAt(QuotedInput(input), r, |Preamble| + |ContextBlock(context)|)
      && (context != [] ==> OccursAt(ActivityHeading + context + "\n", r, |Preamble|))
      && (context == [] ==> OccursAt(QuotedInput(input), r, |Preamble|))
      && OccursAt(task, r, |r| - |Terminator| - |task|)
  {
    var nn := "\n\n";
    var front := Preamble + ContextBlock(context) + QuotedInput(input);
    Layout(Preamble, ContextBlock(context), QuotedInput(input), nn + task, Terminator);
    ConcatAssoc(front, nn + task, Terminator);
    ConcatAssoc(front, nn, task);
    OccursInMiddle(front + nn, task, Terminator);
  }

  /** Different inputs always give different prompts. */
  lemma PromptDeterminesInput(a: string, b: string, task: string, context: string)
    requires Compose(a, task, context) == Compose(b, task, context)
    ensures a == b
  {
    var r := Compose(a, task, context);
    var front := Preamble + ContextBlock(context);
    Layout(Preamble, ContextBlock(context), QuotedInput(a), "\n\n" + task, Terminator);
    Layout(Preamble, ContextBlock(context), QuotedInput(b), "\n\n" + task, Terminator);
    assert |a| == |b|;
    assert QuotedInput(a) == r[|front|..|front| + |QuotedInput(a)|] == QuotedInput(b);
    assert a == QuotedInput(a)[|InputLabel|..|InputLabel| + |a|];
  }

  /** Equal prompts for one input and context have task blocks of equal length. */
  lemma PromptDeterminesTaskLength(input: string, t1: string, t2: string, context: string)
    requires Compose(input, t1, context) == Compose(input, t2, context)
    ensures |t1| == |t2|
  {
    Layout(Preamble, ContextBlock(context), QuotedInput(input), "\n\n" + t1, Terminator);
    Layout(Preamble, ContextBlock(context), QuotedInput(input), "\n\n" + t2, Terminator);
  }

  /** Different modes always give different prompts. */
  lemma PromptDeterminesMode(input: string, m1: Mode, m2: Mode, context: string)
    requires BuildPrompt(input, m1, context) == BuildPrompt(input, m2, context)
    ensures m1 == m2
  {
    PromptDeterminesTaskLength(input, TaskBlock(m1), TaskBlock(m2), context);
    TaskBlockLengths();
  }

  /** The three task blocks have different lengths. */
  lemma TaskBlockLengths()
    ensures |GenerationTask| == 277
    ensures |ExplainTask| == 265
    ensures |DiagnoseTask| == 355
  {
  }
}
