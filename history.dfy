/** The history tracker: a bounded FIFO log of committed commands, the
    workflow heuristic over it, and the context summary put into prompts. */
module History {
  import opened Text

  /** One committed command with its time stamp (unix seconds). */
  datatype HistoryEntry = HistoryEntry(command: string, timestamp: int)

  /** `MAX_HISTORY_SIZE`: the log never holds more entries than this. */
  const MaxHistorySize: nat := 20

  /** The newest `n` entries of `h`, oldest first. */
  function Newest(h: seq<HistoryEntry>, n: nat): (r: seq<HistoryEntry>)
    ensures |r| == if |h| <= n then |h| else n
    ensures r == h[|h| - |r|..]
  {
    if |h| <= n then h else h[|h| - n..]
  }

  /** `add_command_to_history` on the log: a blank command is ignored;
      otherwise the entry goes to the back and, once the log is over
      capacity, the front entry is dropped. */
  function Record(h: seq<HistoryEntry>, command: string, now: int): (r: seq<HistoryEntry>)
    ensures AllSpace(command) ==> r == h
    ensures !AllSpace(command) ==> r != [] && r[|r| - 1] == HistoryEntry(command, now)
    ensures !AllSpace(command) && |h| < MaxHistorySize ==> r == h + [HistoryEntry(command, now)]
    ensures !AllSpace(command) && |h| >= MaxHistorySize ==> r == h[1..] + [HistoryEntry(command, now)]
    ensures |h| <= MaxHistorySize ==> |r| <= MaxHistorySize
  {
    if command == [] || FirstNonSpace(command, 0) == |command| then h
    else
      var grown := h + [HistoryEntry(command, now)];
      if |grown| > MaxHistorySize then grown[1..] else grown
  }

  /** Record each entry's command, stamped with its time, in order. */
  function RecordAll(h: seq<HistoryEntry>, commits: seq<HistoryEntry>): seq<HistoryEntry>
    decreases |commits|
  {
    if commits == [] then h
    else RecordAll(Record(h, commits[0].command, commits[0].timestamp), commits[1..])
  }

  /** The commits whose command is not blank, in order. */
  function NonBlank(commits: seq<HistoryEntry>): seq<HistoryEntry> {
    if commits == [] then []
    else (if AllSpace(commits[0].command) then [] else [commits[0]]) + NonBlank(commits[1..])
  }

  lemma NewestOfNewest(a: seq<HistoryEntry>, b: seq<HistoryEntry>, n: nat)
    ensures Newest(Newest(a, n) + b, n) == Newest(a + b, n)
  {
    if |a| > n {
      var a' := a[|a| - n..];
      var ab', ab := a' + b, a + b;
      var x, y := ab'[|b|..], ab[|a| + |b| - n..];
      assert Newest(a, n) == a';
      assert Newest(ab', n) == x;
      assert Newest(ab, n) == y;
      forall k | 0 <= k < n ensures x[k] == y[k] {
        if |b| + k < n {
          assert x[k] == a'[|b| + k] == a[|a| - n + |b| + k] == y[k];
        } else {
          assert x[k] == b[|b| + k - n] == y[k];
        }
      }
      assert x == y;
    }
  }

  /** Recording one non-blank command keeps the newest entries. */
  lemma RecordIsNewest(h: seq<HistoryEntry>, e: HistoryEntry)
    requires |h| <= MaxHistorySize && !AllSpace(e.command)
    ensures Record(h, e.command, e.timestamp) == Newest(h + [e], MaxHistorySize)
  {
    assert e == HistoryEntry(e.command, e.timestamp);
    if |h| == MaxHistorySize {
      assert (h + [e])[1..] == h[1..] + [e];
    }
  }

  /** After any series of commits the log is exactly the newest
      `MaxHistorySize` non-blank commands, oldest evicted first. */
  lemma {:induction false} RecordAllKeepsNewest(h: seq<HistoryEntry>, commits: seq<HistoryEntry>)
    requires |h| <= MaxHistorySize
    ensures RecordAll(h, commits) == Newest(h + NonBlank(commits), MaxHistorySize)
    decreases |commits|
  {
    if commits == [] {
      assert h + NonBlank(commits) == h;
    } else {
      var e := commits[0];
      var h' := Record(h, e.command, e.timestamp);
      RecordAllKeepsNewest(h', commits[1..]);
      if AllSpace(e.command) {
        assert NonBlank(commits) == NonBlank(commits[1..]);
      } else {
        RecordIsNewest(h, e);
        NewestOfNewest(h + [e], NonBlank(commits[1..]), MaxHistorySize);
        assert NonBlank(commits) == [e] + NonBlank(commits[1..]);
        ConcatAssoc(h, [e], NonBlank(commits[1..]));
      }
    }
  }

  // ---------------------------------------------------------------------
  // detect_workflow_pattern
  // ---------------------------------------------------------------------

  datatype Workflow = Git | Build

  /** `command.find(p) == 0`, i.e. the command starts with `p`: "git" for
      the git workflow, "make" or "npm" for the build workflow. */
  predicate Matches(w: Workflow, command: string) {
    match w
    case Git => StartsWith(command, "git")
    case Build => StartsWith(command, "make") || StartsWith(command, "npm")
  }

  /** How many entries of `h` match `w`. */
  function Count(h: seq<HistoryEntry>, w: Workflow): (n: nat)
    ensures n <= |h|
  {
    if h == [] then 0
    else Count(h[..|h| - 1], w) + (if Matches(w, h[|h| - 1].command) then 1 else 0)
  }

  lemma {:induction false} CountPositive(h: seq<HistoryEntry>, w: Workflow)
    ensures Count(h, w) >= 1 <==> exists i :: 0 <= i < |h| && Matches(w, h[i].command)
  {
    if h != [] {
      var init := h[..|h| - 1];
      CountPositive(init, w);
      if exists i :: 0 <= i < |init| && Matches(w, init[i].command) {
        var i :| 0 <= i < |init| && Matches(w, init[i].command);
        assert h[i] == init[i];
      }
      if exists i :: 0 <= i < |h| && Matches(w, h[i].command) {
        var i :| 0 <= i < |h| && Matches(w, h[i].command);
        if i < |init| { assert init[i] == h[i]; }
      }
    }
  }

  /** The count reaches two exactly when two distinct entries match. */
  lemma {:induction false} CountAtLeastTwo(h: seq<HistoryEntry>, w: Workflow)
    ensures Count(h, w) >= 2 <==>
      exists i, j :: 0 <= i < j < |h| && Matches(w, h[i].command) && Matches(w, h[j].command)
  {
    if h != [] {
      var init := h[..|h| - 1];
      var last := |h| - 1;
      CountAtLeastTwo(init, w);
      CountPositive(init, w);
      if Count(h, w) >= 2 {
        if Matches(w, h[last].command) {
          var i :| 0 <= i < |init| && Matches(w, init[i].command);
          assert h[i] == init[i];
          assert Matches(w, h[i].command) && Matches(w, h[last].command);
        } else {
          var i, j :| 0 <= i < j < |init| && Matches(w, init[i].command) && Matches(w, init[j].command);
          assert h[i] == init[i] && h[j] == init[j];
        }
      }
      if exists i, j :: 0 <= i < j < |h| && Matches(w, h[i].command) && Matches(w, h[j].command) {
        var i, j :| 0 <= i < j < |h| && Matches(w, h[i].command) && Matches(w, h[j].command);
        assert init[i] == h[i];
        if j < last {
          assert init[j] == h[j];
        }
      }
    }
  }

  const GitMarker: string := "Git Workflow; "
  const BuildMarker: string := "Build Workflow; "

  /** `detect_workflow_pattern` on the log: the git marker when two or more
      entries start with "git", then the build marker when two or more start
      with "make" or "npm". */
  function WorkflowPattern(h: seq<HistoryEntry>): string {
    if h == [] then ""
    else
      (if Count(h, Git) >= 2 then GitMarker else "") + (if Count(h, Build) >= 2 then BuildMarker else "")
  }

  /** The pattern names the git workflow exactly when two entries are git
      commands, and the build workflow exactly when two are build commands;
      it is empty when neither holds. */
  lemma WorkflowPatternFacts(h: seq<HistoryEntry>)
    ensures var r := WorkflowPattern(h);
      && (h == [] ==> r == [])
      && (StartsWith(r, GitMarker) <==> Count(h, Git) >= 2)
      && (EndsWith(r, BuildMarker) <==> Count(h, Build) >= 2)
      && (r == [] <==> Count(h, Git) < 2 && Count(h, Build) < 2)
      && (Count(h, Git) >= 2 && Count(h, Build) >= 2 ==> r == GitMarker + BuildMarker)
  {
    var both := GitMarker + BuildMarker;
    assert BuildMarker[0] != GitMarker[0];
    assert both[..|GitMarker|] == GitMarker;
    assert both[|both| - |BuildMarker|..] == BuildMarker;
  }

  lemma MarkersHaveNoNewline()
    ensures '\n' !in GitMarker && '\n' !in BuildMarker
  {
  }

  lemma HeadingsHaveNoNewline()
    ensures '\n' !in ContextPrefix && '\n' !in RecentHeading && '\n' !in "- "
  {
  }

  /** The pattern fits on the `Context:` line. */
  lemma PatternHasNoNewline(h: seq<HistoryEntry>)
    ensures '\n' !in WorkflowPattern(h)
  {
    MarkersHaveNoNewline();
  }

  // ---------------------------------------------------------------------
  // analyze_context
  // ---------------------------------------------------------------------

  const ContextPrefix: string := "Context: "
  const RecentHeading: string := "Recent commands:"

  /** One line `- <command>` per entry, oldest first. */
  function Bullets(h: seq<HistoryEntry>): (r: seq<string>)
    ensures |r| == |h|
    ensures forall k :: 0 <= k < |h| ==> r[k] == "- " + h[k].command
  {
    seq(|h|, k requires 0 <= k < |h| => "- " + h[k].command)
  }

  /** One more entry adds one more bullet line at the end of any text `head`. */
  lemma UnlinesBulletsSnoc(head: string, h: seq<HistoryEntry>, i: nat)
    requires i < |h|
    ensures head + Unlines(Bullets(h[..i + 1])) == head + Unlines(Bullets(h[..i])) + ("- " + h[i].command + "\n")
  {
    var line := "- " + h[i].command;
    assert Bullets(h[..i + 1]) == Bullets(h[..i]) + [line];
    UnlinesAppend(Bullets(h[..i]), [line]);
    UnlinesSingle(line);
    ConcatAssoc(head, Unlines(Bullets(h[..i])), line + "\n");
  }

  /** The lines of the summary, before newlines are added. */
  function SummaryLines(h: seq<HistoryEntry>): seq<string> {
    var pattern := WorkflowPattern(h);
    (if pattern != [] then [ContextPrefix + pattern] else []) + [RecentHeading] + Bullets(h)
  }

  /** `analyze_context` on the log: empty for an empty log; otherwise an
      optional `Context: <pattern>` line, the `Recent commands:` line, and
      one `- <command>` line per entry. */
  function ContextSummary(h: seq<HistoryEntry>): string {
    if h == [] then ""
    else
      var pattern := WorkflowPattern(h);
      (if pattern != [] then ContextPrefix + pattern + "\n" else "") + (RecentHeading + "\n") + Unlines(Bullets(h))
  }

  /** The summary is empty exactly for an empty log; otherwise it opens with
      the pattern line exactly when there is a pattern, and closes with the
      heading and the bullet lines. */
  lemma ContextSummaryFacts(h: seq<HistoryEntry>)
    ensures var r := ContextSummary(h);
      && (r == [] <==> h == [])
      && (h != [] ==> EndsWith(r, RecentHeading + "\n" + Unlines(Bullets(h))))
      && (h != [] ==> (StartsWith(r, ContextPrefix) <==> WorkflowPattern(h) != []))
      && (WorkflowPattern(h) != [] ==> StartsWith(r, ContextPrefix + WorkflowPattern(h) + "\n"))
  {
    if h != [] {
      var pattern := WorkflowPattern(h);
      var head := if pattern != [] then ContextPrefix + pattern + "\n" else "";
      var tail := RecentHeading + "\n" + Unlines(Bullets(h));
      var r := ContextSummary(h);
      assert r == head + tail by {
        ConcatAssoc(head, RecentHeading + "\n", Unlines(Bullets(h)));
      }
      assert r[|head|..] == tail;
      assert r[..|head|] == head;
      assert tail[0] == RecentHeading[0];
      assert RecentHeading[0] != ContextPrefix[0];
    }
  }

  /** The summary is its heading part `head` followed by the bullet lines. */
  lemma ContextSummaryParts(head: string, h: seq<HistoryEntry>)
    requires h != []
    requires head == (if WorkflowPattern(h) != [] then ContextPrefix + WorkflowPattern(h) + "\n" else "") + (RecentHeading + "\n")
    ensures head + Unlines(Bullets(h)) == ContextSummary(h)
  {
  }

  lemma UnlinesBulletsNone(head: string, h: seq<HistoryEntry>)
    ensures head + Unlines(Bullets(h[..0])) == head
  {
    assert Bullets(h[..0]) == [];
  }

  /** The summary is its lines, each followed by a newline. */
  lemma SummaryIsUnlines(h: seq<HistoryEntry>)
    requires h != []
    ensures ContextSummary(h) == Unlines(SummaryLines(h))
  {
    var pattern := WorkflowPattern(h);
    var first: seq<string> := if pattern != [] then [ContextPrefix + pattern] else [];
    assert SummaryLines(h) == first + [RecentHeading] + Bullets(h);
    UnlinesAppend(first + [RecentHeading], Bullets(h));
    UnlinesAppend(first, [RecentHeading]);
    UnlinesSingle(RecentHeading);
    if pattern != [] {
      UnlinesSingle(ContextPrefix + pattern);
    }
  }

  lemma SummaryLinesHaveNoNewline(h: seq<HistoryEntry>)
    requires forall k :: 0 <= k < |h| ==> '\n' !in h[k].command
    ensures forall k :: 0 <= k < |SummaryLines(h)| ==> '\n' !in SummaryLines(h)[k]
  {
    var pattern := WorkflowPattern(h);
    var b := Bullets(h);
    var all := SummaryLines(h);
    var pre := |all| - |b|;
    PatternHasNoNewline(h);
    HeadingsHaveNoNewline();
    forall k | 0 <= k < |all| ensures '\n' !in all[k] {
      if k >= pre {
        assert all[k] == b[k - pre] == "- " + h[k - pre].command;
      } else if k == pre - 1 {
        assert all[k] == RecentHeading;
      } else {
        assert all[k] == ContextPrefix + pattern;
      }
    }
  }

  /** Read back line by line, the summary gives the pattern line (if any),
      the heading, and the commands oldest first. */
  lemma SummaryReadBack(h: seq<HistoryEntry>)
    requires h != []
    requires forall k :: 0 <= k < |h| ==> '\n' !in h[k].command
    ensures Lines(ContextSummary(h)) == SummaryLines(h)
  {
    SummaryIsUnlines(h);
    SummaryLinesHaveNoNewline(h);
    LinesUnlines(SummaryLines(h));
  }
}
