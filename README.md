# AIManager suggestion engine, modelled in Dafny

This project models the suggestion engine behind the shell's AI keys, the
`AIManager` class of `src/ai/ai_manager.cpp`. It covers four parts.

- **History tracker.** A log of the committed commands with their
  timestamps, capped at 20 entries; the oldest entry is dropped first. A
  workflow detector counts the git and build commands in the log, and a
  context writer turns the log into the summary that goes into the prompt.
- **Prompt builder and reply cleaning.** The prompt for the three modes:
  completion, explain and diagnose. It also covers `trim` and
  `remove_markdown`. `remove_markdown` unwraps a fenced block, deletes
  every backtick and trims the result.
- **Reply parser.** `parse_suggestions` reads the cleaned reply with
  `getline`. It trims each line, strips an ordinal and a `- ` bullet, and
  splits the line at its first `|`, or falls back by mode when there is no
  `|`. It keeps at most five suggestions.
- **Cursor and getters.** The circular cursor of `next_suggestion` and the
  getters the shell calls.

Layout:

- `types.dfy`: the mode and the suggestion.
- `text.dfy`: trimming, searching, Markdown cleaning and line splitting.
- `history.dfy`: the log, the workflow detector and the context summary.
- `prompt.dfy`: the prompt.
- `parser.dfy`: the reply parser, its round trip with the
  `COMMAND | DESCRIPTION` format and worked replies.
- `cursor.dfy`: the cursor arithmetic and the display form of a suggestion.
- `manager.dfy`: the class `AIManager`. The methods that change its state
  update its fields in place. The read-only loops of the workflow detector
  and the context writer return values and leave the fields alone. Each
  method is proved against the pure functions of the other modules.

Places where the code does something a reader might not expect are
listed below. The model does what the code does in each of them.

- **Ordinal prefix.** The comment at src/ai/ai_manager.cpp:191 names the
  prefix `1. `. The test at :192 is "more than two characters, a digit,
  then a dot", and when it holds the code drops **three** characters,
  whatever the third one is. So "1.ls" becomes "s"
  (`Parser.OrdinalDropsThirdCharacter`).
- **Empty commands.** The `|` branch refuses an empty command (:206). The
  fallback (:209-217) does not. In completion mode, a line that the prefix
  step reduces to nothing and that has no `|` is pushed as ("", ""). For
  example, "1.-" gives ("", "") (`Parser.EmptyCommandIsKept`).
- **Backticks only.** Only backticks are deleted (:43). No other Markdown
  marker is touched.
- **Text before the fence.** When the reply has a fence, the code drops
  everything up to the end of the fence's line, including any text before
  the fence. When no newline follows the fence, it drops only up to the
  end of the fence and keeps the rest of that line (:34), so "```python"
  becomes "python".

## Model

| member | source | states |
|---|---|---|
| Text.Trim | src/ai/ai_manager.cpp:17-22 | the result has no blank at either end; it is empty exactly when the input is all blanks (space, tab, newline, carriage return) |
| Text.TrimSplits | src/ai/ai_manager.cpp:17-22 | the input is a blank prefix, then the trimmed result, then a blank suffix |
| Text.TrimUnique | src/ai/ai_manager.cpp:17-22 | trimming blanks + a trimmed middle + blanks gives back exactly that middle |
| Text.TrimOfTrimmed | src/ai/ai_manager.cpp:17-22 | a text with no blank at either end comes back unchanged |
| Text.TrimIdempotent | src/ai/ai_manager.cpp:17-22 | trimming twice is the same as trimming once |
| Text.TrimKeepsOut | src/ai/ai_manager.cpp:17-22 | trimming never adds a character that was not in the input |
| Text.FirstNonSpace | src/ai/ai_manager.cpp:18 | `find_first_not_of` of the blanks: the first index at or after `from` that is not a blank, with every index before it from `from` on a blank, or the length (standing for `npos`) when there is none; the blank test of :67 is the same search |
| Text.EndOfNonSpace | src/ai/ai_manager.cpp:20 | one past `find_last_not_of` of the blanks within the first `to` characters: every character from there up to `to` is a blank, and the one just before it is not; 0 when all are blanks |
| Text.FindChar | src/ai/ai_manager.cpp:30 | `find` of one character returns the first position at or after `from` holding it, or nothing when no such position exists |
| Text.Find | src/ai/ai_manager.cpp:28 | `find` returns the first position at or after `from` where the pattern occurs, or nothing when it occurs nowhere there |
| Text.FindAtStart | src/ai/ai_manager.cpp:93-94 | `find(p) == 0` holds exactly when the string starts with `p` |
| Text.RFind | src/ai/ai_manager.cpp:37 | `rfind` returns the last position where the pattern occurs, or nothing |
| Text.DeleteChar | src/ai/ai_manager.cpp:43 | erase-remove deletes every backtick and keeps every other character with its count |
| Text.DeleteCharAppend | src/ai/ai_manager.cpp:43 | deleting from a concatenation deletes from each part separately, so the kept characters keep their order |
| Text.DeleteCharSingle | src/ai/ai_manager.cpp:43 | a single character is deleted when it is a backtick and kept otherwise; with `DeleteCharAppend` this fixes the result exactly |
| Text.StripFence | src/ai/ai_manager.cpp:28-41 | the fence step: from the first fence, cut to the line after it (or to just past the fence when no newline follows), then cut at the last fence left; with no fence the text is unchanged. Its properties are stated by `StripFenceOfFenced` and `RemoveMarkdown` |
| Text.StripFenceOfFenced | src/ai/ai_manager.cpp:28-41 | a fence, a language tag without newline, a newline, a body and a closing fence are unwrapped to exactly the body |
| Text.RemoveMarkdown | src/ai/ai_manager.cpp:27-45 | the cleaned reply holds no backtick and is trimmed; without a fence it is the trimmed text with its backticks deleted |
| Text.RemoveMarkdownOfNoBacktick | src/ai/ai_manager.cpp:27-45 | a text with no backtick is only trimmed |
| Text.RemoveMarkdownOfPlain | src/ai/ai_manager.cpp:27-45 | a trimmed text with no backtick passes through unchanged |
| Text.RemoveMarkdownOfFenced | src/ai/ai_manager.cpp:27-45 | a reply wrapped as a fence, a language tag, a newline, the body and a closing fence is cleaned to the body with its backticks deleted, then trimmed |
| Text.FencedSameAsPlain | src/ai/ai_manager.cpp:27-45 | when the language tag holds no newline and the body holds no fence of its own, a fenced body is cleaned to the same text as the bare body |
| Text.Lines | src/ai/ai_manager.cpp:187 | the lines `getline` yields contain no newline, and a non-empty text yields at least one line |
| Text.GetLine | src/ai/ai_manager.cpp:187 | one `getline` call returns the first line of the remaining text and leaves the lines after it |
| Text.LinesUnlines | src/ai/ai_manager.cpp:187 | splitting newline-terminated lines that hold no newline gives back those lines |
| Text.LinesUnlinesLast | src/ai/ai_manager.cpp:187 | lines without newline, all but a non-empty last one newline-terminated, are read back as those lines |
| Text.LinesDropFinalNewline | src/ai/ai_manager.cpp:187 | a final newline after a non-empty text that does not end in one adds no line |
| History.Record | src/ai/ai_manager.cpp:66-80 | a blank command leaves the log unchanged; otherwise the new entry is last, it is appended below the cap, the oldest entry is dropped at the cap, and the log stays within 20 entries |
| History.RecordIsNewest | src/ai/ai_manager.cpp:66-80 | recording a non-blank command keeps the newest 20 entries of the log extended by it |
| History.RecordAllKeepsNewest | src/ai/ai_manager.cpp:66-80 | after any run of commits the log is exactly the newest 20 of the non-blank ones, in commit order |
| History.Count | src/ai/ai_manager.cpp:91-95 | the workflow count never exceeds the length of the log |
| History.CountPositive | src/ai/ai_manager.cpp:91-95 | the count is at least one exactly when some entry matches the workflow |
| History.CountAtLeastTwo | src/ai/ai_manager.cpp:91-95 | the count is at least two exactly when two distinct entries match the workflow |
| History.WorkflowPattern | src/ai/ai_manager.cpp:88-102 | the pattern of the log: "" for an empty log, else the git marker when the git count is at least two, followed by the build marker when the build count is; its properties are stated by `WorkflowPatternFacts` |
| History.WorkflowPatternFacts | src/ai/ai_manager.cpp:88-102 | an empty log gives ""; the git marker leads exactly when two or more entries start with "git"; the build marker ends the pattern exactly when two or more start with "make" or "npm"; the pattern is empty exactly when neither holds |
| History.PatternHasNoNewline | src/ai/ai_manager.cpp:88-102 | the pattern holds no newline |
| History.ContextSummary | src/ai/ai_manager.cpp:105-117 | the summary of the log: "" for an empty log, else the "Context: " line when a pattern is found, the heading, and one "- " line per entry; its properties are stated by `ContextSummaryFacts` and `SummaryReadBack` |
| History.ContextSummaryFacts | src/ai/ai_manager.cpp:105-117 | the summary is empty exactly when the log is; it starts with the "Context: " line exactly when a workflow is detected, and ends with the "Recent commands:" heading followed by one "- " line per entry |
| History.SummaryIsUnlines | src/ai/ai_manager.cpp:105-117 | the summary is its lines in order, each one ending in a newline |
| History.SummaryReadBack | src/ai/ai_manager.cpp:105-117 | when no command holds a newline, splitting the summary into lines gives back the workflow line, the heading and one bullet per entry |
| Prompt.Compose | src/ai/ai_manager.cpp:131-171 | the prompt around a task block: preamble, activity section when the context is not empty, quoted input, blank line, task block, closing instruction; its properties are stated by `PromptLayout` and `PromptDeterminesInput` |
| Prompt.BuildPrompt | src/ai/ai_manager.cpp:131-171 | the prompt for a mode is `Compose` with the task block of that mode (:139-168); its properties are stated by `PromptLayout`, `PromptDeterminesInput` and `PromptDeterminesMode` |
| Prompt.PromptLayout | src/ai/ai_manager.cpp:131-171 | the prompt starts with the preamble, then the activity section when there is a context, then the quoted input, and ends with the task block followed by the "NO markdown" instruction |
| Prompt.PromptDeterminesInput | src/ai/ai_manager.cpp:136 | for the same task block and context, two different inputs never give the same prompt |
| Prompt.PromptDeterminesTaskLength | src/ai/ai_manager.cpp:139-171 | step of `PromptDeterminesMode`: equal prompts for one input and context have task blocks of equal length |
| Prompt.PromptDeterminesMode | src/ai/ai_manager.cpp:139-171 | for the same input and context, two different modes never give the same prompt |
| Prompt.TaskBlockLengths | src/ai/ai_manager.cpp:141-168 | step of `PromptDeterminesMode`: the three task blocks have 277, 265 and 355 characters. The completion block is ASCII, so its `std::string` also holds 277 bytes. The explain block holds 289 bytes in UTF-8 and the diagnose block 399, because of the Korean text and the warning sign |
| Parser.StripListPrefix | src/ai/ai_manager.cpp:192-197 | the prefix step never lengthens the line |
| Parser.StripListPrefixFacts | src/ai/ai_manager.cpp:192-197 | the prefix step removes only a prefix. After an ordinal it removes the first three characters, and also the bullet when what follows them starts with one. Otherwise it removes a leading bullet. A line with neither is kept |
| Parser.ParseLine | src/ai/ai_manager.cpp:188-217 | one line: nothing when blank; after the prefix step, the trimmed halves around the first bar, or nothing when the command half is empty; without a bar, (last input, line) in explain and diagnose mode and (line, "") in completion mode; its properties are stated by `ParseLineFacts`, `ParseLineSplit` and `ParseLineFallback` |
| Parser.ParseLineOfTrim | src/ai/ai_manager.cpp:188 | a line and its trimmed form yield the same suggestion |
| Parser.ParseLineFacts | src/ai/ai_manager.cpp:188-217 | a blank line yields nothing; an empty command can come only from the fallback (completion mode, or an empty last input); a line split at a bar gives a non-empty command, with both halves trimmed; in completion mode no command holds a bar |
| Parser.ParseLineSplit | src/ai/ai_manager.cpp:200-208 | a line whose first bar splits it into `left` and `right` yields the trimmed halves, or nothing when the left half is blank |
| Parser.ParseLineFallback | src/ai/ai_manager.cpp:209-217 | a line with no bar yields (last input, line) in explain and diagnose mode and (line, "") in completion mode |
| Parser.ParseLines | src/ai/ai_manager.cpp:183-222 | the loop only appends to the suggestions already held, and never holds more than five when it starts with fewer |
| Parser.ParseLinesTakesFirst | src/ai/ai_manager.cpp:183-222 | the loop appends exactly the first candidates of the lines, in order, up to five in total |
| Parser.ParseResponse | src/ai/ai_manager.cpp:183-222 | a fresh parse holds at most five suggestions, namely the first five candidates of the reply's lines |
| Parser.ParseTrimmedLine | src/ai/ai_manager.cpp:188-208 | the trimmed grammar line of a well-formed suggestion also parses back to that suggestion |
| Parser.CandidatesOfTrimmedLine | src/ai/ai_manager.cpp:187-218 | that trimmed line, alone, yields exactly that suggestion |
| Parser.CandidatesSingle | src/ai/ai_manager.cpp:187-218 | a single line yields what `ParseLine` gives for it, or nothing |
| Parser.CandidatesOfLastLine | src/ai/ai_manager.cpp:187-218 | appending a last line with no newline to newline-terminated lines appends what that line yields |
| Parser.ParseFormatLine | src/ai/ai_manager.cpp:188-208 | parsing the line `cmd \| desc` of a well-formed suggestion gives that suggestion back |
| Parser.CandidatesOfFormatted | src/ai/ai_manager.cpp:187-218 | the candidates of a list of such lines are that list |
| Parser.ParseFormatted | src/ai/ai_manager.cpp:183-222 | a reply made of such lines, each newline-terminated, is parsed back to its first five suggestions, in order |
| Parser.CandidatesAppend | src/ai/ai_manager.cpp:187-221 | the candidates of two runs of lines are the candidates of the first run followed by those of the second |
| Parser.ReplyShape | src/ai/ai_manager.cpp:44 | a reply of such lines is its cleaned form, which has no blank at either end, followed by blanks and the final newline |
| Parser.CleanReply | src/ai/ai_manager.cpp:27-45 | with no backtick in the suggestions, `remove_markdown` turns the reply, with or without its final newline, into its cleaned form |
| Parser.CandidatesOfCleaned | src/ai/ai_manager.cpp:187-218 | the lines of the cleaned form parse back to the suggestions, in order |
| Parser.ParseCleanedReply | src/ai/ai_manager.cpp:175-178 | a reply of well-formed lines with no backtick, with or without a final newline, cleaned by `remove_markdown` and then parsed, gives its first five suggestions, in order |
| Parser.TwoLineReply | src/ai/ai_manager.cpp:183-222 | a reply of two such lines without a final newline yields both suggestions |
| Parser.CompletionReplyExample | src/ai/ai_manager.cpp:183-222 | the reply "ls -la \| Show all files", then "ls -lh \| Human-readable sizes", yields exactly those two suggestions |
| Parser.ExplainFallbackExample | src/ai/ai_manager.cpp:209-213 | the explain-mode reply "Lists files." with last input "ls -la" yields ("ls -la", "Lists files."); the general case is `ParseLineFallback` |
| Parser.OrdinalDropsThirdCharacter | src/ai/ai_manager.cpp:192-194 | the ordinal step drops three characters even when the third is not a blank: "1.ls" yields ("s", "") |
| Parser.EmptyCommandIsKept | src/ai/ai_manager.cpp:192-217 | "1.-x" yields ("x", "") and "1.-" yields ("", ""), which is kept as a suggestion in completion mode |
| Cursor.Advance | src/ai/ai_manager.cpp:225-229 | with no suggestions the index is unchanged; otherwise it moves one entry on, wrapping from the last entry to the first, and stays in range |
| Cursor.AdvanceTimesForward | src/ai/ai_manager.cpp:225-229 | steps that do not reach the end move the cursor forward one entry each |
| Cursor.AdvanceTimesAdd | src/ai/ai_manager.cpp:225-229 | a + b steps are a steps followed by b steps |
| Cursor.AdvanceTimesWraps | src/ai/ai_manager.cpp:225-229 | from any entry, stepping to the end of the set lands on the first entry |
| Cursor.FullCycleReturns | src/ai/ai_manager.cpp:225-229 | as many steps as there are suggestions bring the cursor back to where it started |
| Cursor.CyclePeriodic | src/ai/ai_manager.cpp:225-229 | the cursor is periodic, with the number of suggestions as its period |
| Cursor.CycleVisitsAll | src/ai/ai_manager.cpp:225-229 | from the first entry, one full cycle visits every entry once |
| Cursor.Display | src/ai/ai_manager.cpp:239-244 | the display starts with the command; it is the command alone exactly when the description is empty; otherwise it ends with "  (description)" and is four characters longer than both |
| Manager.AIManager.constructor | src/ai/ai_manager.cpp:60-63 | a fresh manager holds the given key, an empty log and no suggestions, with the cursor at 0, an empty last input and completion mode |
| Manager.AIManager.AddCommandToHistory | src/ai/ai_manager.cpp:66-80 | the new log is `Record` of the old one; a blank command changes nothing, and any other command becomes the last entry, stamped with the clock reading |
| Manager.AIManager.ClearHistory | src/ai/ai_manager.cpp:83-85 | the log is empty afterwards |
| Manager.AIManager.DetectWorkflowPattern | src/ai/ai_manager.cpp:88-102 | the counting loop returns `WorkflowPattern` of the log |
| Manager.AIManager.AnalyzeContext | src/ai/ai_manager.cpp:105-117 | the stream-building loop returns `ContextSummary` of the log |
| Manager.AIManager.GenerateSuggestions | src/ai/ai_manager.cpp:120-180 | the set is reset and the input and mode are recorded. No call is made exactly when the input or the key is empty, and then the set stays empty. Otherwise the prompt sent is `BuildPrompt` over the context summary, and the set is `ParseResponse` of the cleaned reply |
| Manager.AIManager.ParseSuggestions | src/ai/ai_manager.cpp:183-222 | the `getline` loop leaves the set that `ParseLines` computes from the reply's lines and the set held before |
| Manager.AIManager.PushLine | src/ai/ai_manager.cpp:192-217 | one loop iteration on a non-blank trimmed line appends what `ParseLine` yields for it, and nothing else |
| Manager.AIManager.NextSuggestion | src/ai/ai_manager.cpp:225-229 | the new cursor is `Advance` of the old one over the size of the set |
| Manager.AIManager.GetCurrentSuggestionWithDescription | src/ai/ai_manager.cpp:232-245 | "" without a current entry; otherwise `Display` of the entry under the cursor, which starts with its command |
| Manager.AIManager.GetCurrentCommandOnly | src/ai/ai_manager.cpp:248-254 | "" without a current entry; otherwise the command under the cursor |
| Manager.AIManager.HasSuggestions | src/ai/ai_manager.cpp:256-258 | true exactly when the set is not empty |
| Manager.AIManager.ClearSuggestions | src/ai/ai_manager.cpp:260-264 | the set is empty, the cursor is 0 and the last input is empty afterwards |
| Manager.AIManager.IsSameInput | src/ai/ai_manager.cpp:266-268 | true exactly when the input equals the last input |
| Manager.ClearThenQuery | src/ai/ai_manager.cpp:256-268 | after `clear_suggestions` nothing is offered, and only the empty input counts as the same input |

## Left out

- `call_gemini_api` and `WriteCallback` (src/ai/ai_manager.cpp:50-53 and 271-315) are left out. They cover the HTTPS request, the JSON encoding of the request and the reply, and curl's error handling. The remote call is the function parameter `remote` of `GenerateSuggestions`. It is a pure function from the prompt to the reply text, and any transport or JSON failure is a reply of "". A ghost out-parameter records the prompt that was sent.
- The constructor reads `GEMINI_API_KEY` from the environment. In the model the key is a constructor parameter, with "" standing for an unset variable.
- `add_command_to_history` reads the system clock. In the model the clock reading, in seconds, is the `now` parameter.
- Text is modelled as sequences of characters, not bytes. `trim`, `find` and `isdigit` see one character where the code sees one byte. This only differs for non-ASCII text.
- src/ai/ai_bridge.cpp and src/ai/ai_manager.h are not part of this model. The header shown declares an older interface (`get_ai_suggestion`). `AISuggestion`, `AIMode` and the member fields are taken from their use in src/ai/ai_manager.cpp. `MAX_HISTORY_SIZE` is only used there (:77). Neither src/ai/ai_manager.cpp nor src/ai/ai_manager.h defines it, so the model assumes 20 (`History.MaxHistorySize`).
- `std::stringstream` and `std::istringstream` are modelled by string concatenation and by `Lines`/`GetLine`, and the `std::deque` of entries by a sequence field.
- Prompt.BuildPrompt: the layout and injectivity lemmas are stated for `Compose`, which holds any task block. `BuildPrompt` is `Compose` with the task block of the mode, so they hold for it too.
