/** `AIManager`: the object behind the shell's suggestion keys. It owns
    the command history, the current suggestion set with its cursor, and
    the input and mode of the last generation call. */
module Manager {
  import opened Text
  import opened Types
  import opened History
  import opened Prompt
  import opened Parser
  import opened Cursor

  class AIManager {
    var apiKey: string
    var history: seq<HistoryEntry>
    var suggestions: seq<Suggestion>
    var currentIndex: nat
    var lastInput: string
    var currentMode: Mode

    /** The log is bounded, the set holds at most five entries, and the
        cursor points into a non-empty set (and is 0 for an empty one). */
    ghost predicate Valid()
      reads this
    {
      |history| <= MaxHistorySize
      && |suggestions| <= MaxSuggestions
      && (if suggestions == [] then currentIndex == 0 else currentIndex < |suggestions|)
    }

    /** The key is the value of `GEMINI_API_KEY`, or empty when it is unset. */
    constructor (key: string)
      ensures Valid()
      ensures apiKey == key && history == [] && suggestions == []
      ensures currentIndex == 0 && lastInput == [] && currentMode == Generation
    {
      apiKey := key;
      history := [];
      suggestions := [];
      currentIndex := 0;
      lastInput := [];
      currentMode := Generation;
    }

    /** `add_command_to_history`, with `now` the clock reading in seconds. */
    method AddCommandToHistory(command: string, now: int)
      requires Valid()
      modifies this`history
      ensures Valid()
      ensures history == Record(old(history), command, now)
      ensures AllSpace(command) ==> history == old(history)
      ensures !AllSpace(command) ==> history[|history| - 1] == HistoryEntry(command, now)
    {
      if command == [] || FirstNonSpace(command, 0) == |command| {
        return;
      }
      history := history + [HistoryEntry(command, now)];
      if |history| > MaxHistorySize {
        history := history[1..];
      }
    }

    method ClearHistory()
      requires Valid()
      modifies this`history
      ensures Valid()
      ensures history == []
    {
      history := [];
    }

    /** `detect_workflow_pattern`: counts the git and build commands in the log. */
    method DetectWorkflowPattern() returns (r: string)
      ensures r == WorkflowPattern(history)
    {
      if history == [] {
        return "";
      }
      var gitCount, buildCount := 0, 0;
      var i := 0;
      while i < |history|
        invariant 0 <= i <= |history|
        invariant gitCount == Count(history[..i], Git)
        invariant buildCount == Count(history[..i], Build)
      {
        var entry := history[i];
        assert history[..i + 1][..i] == history[..i];
        FindAtStart(entry.command, "git");
        FindAtStart(entry.command, "make");
        FindAtStart(entry.command, "npm");
        if Find(entry.command, "git", 0) == Some(0) {
          gitCount := gitCount + 1;
        }
        if Find(entry.command, "make", 0) == Some(0) || Find(entry.command, "npm", 0) == Some(0) {
          buildCount := buildCount + 1;
        }
        i := i + 1;
      }
      assert history[..i] == history;
      r := "";
      if gitCount >= 2 {
        r := r + GitMarker;
      }
      if buildCount >= 2 {
        r := r + BuildMarker;
      }
    }

    /** `analyze_context`: the workflow line, then the log, one command per line. */
    method AnalyzeContext() returns (r: string)
      ensures r == ContextSummary(history)
    {
      if history == [] {
        return "";
      }
      var pattern := DetectWorkflowPattern();
      r := "";
      if pattern != [] {
        r := ContextPrefix + pattern + "\n";
      }
      r := r + (RecentHeading + "\n");
      ghost var head := r;
      var i := 0;
      UnlinesBulletsNone(head, history);
      while i < |history|
        invariant 0 <= i <= |history|
        invariant r == head + Unlines(Bullets(history[..i]))
      {
        var line := "- " + history[i].command + "\n";
        UnlinesBulletsSnoc(head, history, i);
        r := r + line;
        i := i + 1;
      }
      assert history[..i] == history;
      ContextSummaryParts(head, history);
    }

    /** `generate_suggestions`. The reply of the remote model is
        `remote(prompt)`; the ghost result is the prompt sent, or `None` when
        the call is skipped for an empty input or an empty key. */
    method GenerateSuggestions(input: string, mode: Mode, remote: string -> string) returns (ghost sent: Option<string>)
      requires Valid()
      modifies this`suggestions, this`currentIndex, this`lastInput, this`currentMode
      ensures Valid()
      ensures lastInput == input && currentMode == mode && currentIndex == 0
      ensures sent.None? <==> input == [] || apiKey == []
      ensures sent.None? ==> suggestions == []
      ensures sent.Some? ==> sent.value == BuildPrompt(input, mode, ContextSummary(history))
      ensures sent.Some? ==> suggestions == ParseResponse(RemoveMarkdown(remote(sent.value)), mode, input)
    {
      suggestions := [];
      currentIndex := 0;
      lastInput := input;
      currentMode := mode;
      if input == [] || apiKey == [] {
        return None;
      }
      var context := AnalyzeContext();
      var prompt := BuildPrompt(input, mode, context);
      sent := Some(prompt);
      var result := remote(prompt);
      result := RemoveMarkdown(result);
      if result != [] {
        ParseSuggestions(result);
      }
    }

    /** `parse_suggestions`: reads `response` line by line with `getline`
        and appends what each line yields, stopping once five are held. */
    method ParseSuggestions(response: string)
      modifies this`suggestions
      ensures suggestions == ParseLines(Lines(response), currentMode, lastInput, old(suggestions))
    {
      var rest := response;
      while rest != []
        invariant ParseLines(Lines(rest), currentMode, lastInput, suggestions)
          == ParseLines(Lines(response), currentMode, lastInput, old(suggestions))
        decreases |rest|
      {
        ghost var before := suggestions;
        var line: string;
        line, rest := GetLine(rest);
        ghost var raw := line;
        line := Trim(line);
        if line == [] {
          ParseLinesBlank(raw, Lines(rest), currentMode, lastInput, before);
          continue;
        }
        PushLine(raw, line);
        ParseLinesNext(raw, Lines(rest), currentMode, lastInput, before, suggestions);
        if |suggestions| >= MaxSuggestions {
          break;
        }
      }
    }

    /** The body of the `parse_suggestions` loop for one non-blank trimmed
        line: strips an ordinal and a bullet, then splits at the first `|`
        or falls back by mode. */
    method PushLine(ghost raw: string, line: string)
      requires line == Trim(raw) && line != []
      modifies this`suggestions
      ensures var parsed := ParseLine(raw, currentMode, lastInput);
        suggestions == if parsed.Some? then old(suggestions) + [parsed.value] else old(suggestions)
    {
      var l := line;
      if |l| > 2 && l[1] == '.' && IsDigit(l[0]) {
        l := l[3..];
      }
      if StartsWith(l, Bullet) {
        l := l[2..];
      }
      assert l == StripListPrefix(Trim(raw));
      var separator := FindChar(l, '|', 0);
      if separator.Some? {
        var cmd := Trim(l[..separator.value]);
        var desc := Trim(l[separator.value + 1..]);
        ParseLineAtBar(raw, currentMode, lastInput, l, separator.value);
        if cmd != [] {
          suggestions := suggestions + [Suggestion(cmd, desc)];
        }
      } else {
        ParseLineNoBar(raw, currentMode, lastInput, l);
        if currentMode != Generation {
          suggestions := suggestions + [Suggestion(lastInput, l)];
        } else {
          suggestions := suggestions + [Suggestion(l, "")];
        }
      }
    }

    /** `next_suggestion`: moves the cursor one entry on, circularly. */
    method NextSuggestion()
      requires Valid()
      modifies this`currentIndex
      ensures Valid()
      ensures currentIndex == Advance(old(currentIndex), |suggestions|)
    {
      if suggestions != [] {
        currentIndex := (currentIndex + 1) % |suggestions|;
      }
    }

    /** `get_current_suggestion_with_description`: the entry under the cursor
        as shown to the user, or "" when there is none. */
    method GetCurrentSuggestionWithDescription() returns (r: string)
      ensures suggestions == [] || currentIndex >= |suggestions| ==> r == []
      ensures currentIndex < |suggestions| ==> r == Display(suggestions[currentIndex])
      ensures currentIndex < |suggestions| ==> StartsWith(r, suggestions[currentIndex].command)
    {
      if suggestions == [] || currentIndex >= |suggestions| {
        return "";
      }
      var suggestion := suggestions[currentIndex];
      if suggestion.description == [] {
        return suggestion.command;
      }
      r := suggestion.command + "  (" + suggestion.description + ")";
    }

    /** `get_current_command_only`: the command under the cursor, or "". */
    method GetCurrentCommandOnly() returns (r: string)
      ensures suggestions == [] || currentIndex >= |suggestions| ==> r == []
      ensures currentIndex < |suggestions| ==> r == suggestions[currentIndex].command
    {
      if suggestions == [] || currentIndex >= |suggestions| {
        return "";
      }
      r := suggestions[currentIndex].command;
    }

    method HasSuggestions() returns (r: bool)
      ensures r <==> suggestions != []
    {
      r := suggestions != [];
    }

    /** `clear_suggestions`: drops the set, resets the cursor and forgets the last input. */
    method ClearSuggestions()
      requires Valid()
      modifies this`suggestions, this`currentIndex, this`lastInput
      ensures Valid()
      ensures suggestions == [] && currentIndex == 0 && lastInput == []
    {
      suggestions := [];
      currentIndex := 0;
      lastInput := [];
    }

    method IsSameInput(input: string) returns (r: bool)
      ensures r <==> lastInput == input
    {
      r := lastInput == input;
    }
  }

  /** After `clear_suggestions` nothing is offered, and only the empty input
      counts as the same input. */
  method ClearThenQuery(m: AIManager, input: string) returns (has: bool, same: bool)
    requires m.Valid()
    modifies m
    ensures !has
    ensures same <==> input == []
  {
    m.ClearSuggestions();
    has := m.HasSuggestions();
    same := m.IsSameInput(input);
  }
}
