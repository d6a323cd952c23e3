/** The response parser of `parse_suggestions`: the cleaned reply is read
    line by line and each line becomes at most one suggestion, until five
    have been collected. */
module Parser {
  import opened Text
  import opened Types

  /** `isdigit`, for ASCII digits. */
  predicate IsDigit(c: char) {
    '0' <= c <= '9'
  }

  /** The ordinal test: more than two characters, a digit, then a dot. */
  predicate HasOrdinal(line: string) {
    |line| > 2 && line[1] == '.' && IsDigit(line[0])
  }

  const Bullet: string := "- "

  /** The prefix step: after a positive ordinal test the first THREE
      characters are dropped (whatever the third is), then a leading "- ". */
  function StripListPrefix(line: string): (r: string)
    ensures |r| <= |line|
  {
    var l := if HasOrdinal(line) then line[3..] else line;
    if StartsWith(l, Bullet) then l[|Bullet|..] else l
  }

  /** The prefix step only removes a prefix: three characters after an
      ordinal, then a bullet when one follows; a line with neither is kept. */
  lemma StripListPrefixFacts(line: string)
    ensures var r := StripListPrefix(line);
      && r == line[|line| - |r|..]
      && (HasOrdinal(line) && StartsWith(line[3..], Bullet) ==> Bullet + r == line[3..])
      && (HasOrdinal(line) && !StartsWith(line[3..], Bullet) ==> r == line[3..])
      && (!HasOrdinal(line) && StartsWith(line, Bullet) ==> Bullet + r == line)
      && (!HasOrdinal(line) && !StartsWith(line, Bullet) ==> r == line)
  {
    var l := if HasOrdinal(line) then line[3..] else line;
    if StartsWith(l, Bullet) {
      assert l == Bullet + l[2..];
    }
  }

  /** One line of the reply. A blank line yields nothing. After the prefix
      step, a line with a `|` is split at its first `|` into a trimmed
      command and a trimmed description, and yields nothing when the command
      is empty; a line without `|` yields (`lastInput`, line) in the explain
      and diagnose modes and (line, "") in the completion mode, even when
      the line is then empty. */
  function ParseLine(raw: string, mode: Mode, lastInput: string): Option<Suggestion> {
    var line := Trim(raw);
    if line == [] then None
    else
      var l := StripListPrefix(line);
      var sep := FindChar(l, '|', 0);
      if sep.Some? then
        var cmd := Trim(l[..sep.value]);
        if cmd != [] then Some(Suggestion(cmd, Trim(l[sep.value + 1..]))) else None
      else if mode != Generation then Some(Suggestion(lastInput, l))
      else Some(Suggestion(l, ""))
  }

  /** What one line can yield: nothing from a blank line; an empty command
      only from the fallback (completion mode, or an empty last input); a
      split line gives a non-empty command, both halves trimmed; and in
      completion mode no command holds a `|`. */
  lemma ParseLineFacts(raw: string, mode: Mode, lastInput: string)
    ensures var r := ParseLine(raw, mode, lastInput);
      && (AllSpace(raw) ==> r.None?)
      && (r.Some? && r.value.command == [] ==> mode == Generation || lastInput == [])
      && (r.Some? && '|' in StripListPrefix(Trim(raw)) ==>
            r.value.command != [] && IsTrimmed(r.value.command) && IsTrimmed(r.value.description))
      && (r.Some? && mode == Generation ==> '|' !in r.value.command)
  {
    var line := Trim(raw);
    if line != [] {
      var l := StripListPrefix(line);
      var sep := FindChar(l, '|', 0);
      if sep.Some? {
        assert '|' !in l[..sep.value];
        TrimKeepsOut(l[..sep.value], '|');
      }
    }
  }

  /** A non-blank line whose cleaned form `l` has its first `|` at `sep`. */
  lemma ParseLineAtBar(raw: string, mode: Mode, lastInput: string, l: string, sep: nat)
    requires Trim(raw) != [] && l == StripListPrefix(Trim(raw))
    requires FindChar(l, '|', 0) == Some(sep)
    ensures ParseLine(raw, mode, lastInput) ==
      if Trim(l[..sep]) != [] then Some(Suggestion(Trim(l[..sep]), Trim(l[sep + 1..]))) else None
  {
    var line := Trim(raw);
    assert line != [] && StripListPrefix(line) == l;
  }

  /** A non-blank line whose cleaned form `l` has no `|`. */
  lemma ParseLineNoBar(raw: string, mode: Mode, lastInput: string, l: string)
    requires Trim(raw) != [] && l == StripListPrefix(Trim(raw))
    requires FindChar(l, '|', 0).None?
    ensures ParseLine(raw, mode, lastInput) ==
      if mode != Generation then Some(Suggestion(lastInput, l)) else Some(Suggestion(l, ""))
  {
    var line := Trim(raw);
    assert line != [] && StripListPrefix(line) == l;
  }

  /** A line split at its first `|` yields its two trimmed halves, or
      nothing when the command half is blank. */
  lemma ParseLineSplit(raw: string, mode: Mode, lastInput: string, left: string, right: string)
    requires !AllSpace(raw)
    requires StripListPrefix(Trim(raw)) == left + "|" + right
    requires '|' !in left
    ensures ParseLine(raw, mode, lastInput) ==
      if Trim(left) == [] then None else Some(Suggestion(Trim(left), Trim(right)))
  {
    var l := left + "|" + right;
    assert l[|left|] == '|';
    var sep := FindChar(l, '|', 0);
    assert sep.Some? && sep.value <= |left|;
    assert sep.value == |left|;
    assert l[..|left|] == left;
    assert l[|left| + 1..] == right;
  }

  /** A line with no `|` falls back by mode. */
  lemma ParseLineFallback(raw: string, mode: Mode, lastInput: string)
    requires !AllSpace(raw)
    requires '|' !in StripListPrefix(Trim(raw))
    ensures var l := StripListPrefix(Trim(raw));
      ParseLine(raw, mode, lastInput) ==
        Some(if mode == Generation then Suggestion(l, "") else Suggestion(lastInput, l))
  {
    var l := StripListPrefix(Trim(raw));
    var sep := FindChar(l, '|', 0);
    assert sep.None?;
  }

  /** The parse loop over the lines, appending to the suggestions `acc`
      already held; it stops as soon as five or more are held after a
      non-blank line. */
  function ParseLines(lines: seq<string>, mode: Mode, lastInput: string, acc: seq<Suggestion>): (r: seq<Suggestion>)
    ensures acc <= r
    ensures |acc| < MaxSuggestions ==> |r| <= MaxSuggestions
    decreases |lines|
  {
    if lines == [] then acc
    else if Trim(lines[0]) == [] then ParseLines(lines[1..], mode, lastInput, acc)
    else
      var parsed := ParseLine(lines[0], mode, lastInput);
      var acc' := if parsed.Some? then acc + [parsed.value] else acc;
      if |acc'| >= MaxSuggestions then acc' else ParseLines(lines[1..], mode, lastInput, acc')
  }

  /** The parse loop skips a blank first line. */
  lemma ParseLinesBlank(line: string, rest: seq<string>, mode: Mode, lastInput: string, acc: seq<Suggestion>)
    requires Trim(line) == []
    ensures ParseLines([line] + rest, mode, lastInput, acc) == ParseLines(rest, mode, lastInput, acc)
  {
    assert ([line] + rest)[1..] == rest;
  }

  /** After a non-blank first line the parse loop holds `acc'`, and stops
      there when that is five or more. */
  lemma ParseLinesNext(line: string, rest: seq<string>, mode: Mode, lastInput: string, acc: seq<Suggestion>, acc': seq<Suggestion>)
    requires Trim(line) != []
    requires var parsed := ParseLine(line, mode, lastInput);
      acc' == if parsed.Some? then acc + [parsed.value] else acc
    ensures |acc'| >= MaxSuggestions ==> ParseLines([line] + rest, mode, lastInput, acc) == acc'
    ensures |acc'| < MaxSuggestions ==> ParseLines([line] + rest, mode, lastInput, acc) == ParseLines(rest, mode, lastInput, acc')
  {
    assert ([line] + rest)[0] == line && ([line] + rest)[1..] == rest;
  }

  /** Every suggestion the lines would yield with no cap, in line order. */
  function Candidates(lines: seq<string>, mode: Mode, lastInput: string): seq<Suggestion> {
    if lines == [] then []
    else
      var parsed := ParseLine(lines[0], mode, lastInput);
      (if parsed.Some? then [parsed.value] else []) + Candidates(lines[1..], mode, lastInput)
  }

  /** The first `n` elements of `xs`, or all of them. */
  function Take<T>(xs: seq<T>, n: nat): (r: seq<T>)
    ensures |r| <= n
  {
    if |xs| <= n then xs else xs[..n]
  }

  /** The parse loop keeps exactly the first candidates, up to the cap. */
  lemma {:induction false} ParseLinesTakesFirst(lines: seq<string>, mode: Mode, lastInput: string, acc: seq<Suggestion>)
    requires |acc| < MaxSuggestions
    ensures ParseLines(lines, mode, lastInput, acc) ==
      acc + Take(Candidates(lines, mode, lastInput), MaxSuggestions - |acc|)
    decreases |lines|, 1
  {
    if lines == [] {
      assert acc + [] == acc;
    } else if ParseLine(lines[0], mode, lastInput).None? {
      TakesFirstSkip(lines, mode, lastInput, acc);
    } else {
      TakesFirstEmit(lines, mode, lastInput, acc);
    }
  }

  lemma {:induction false} TakesFirstSkip(lines: seq<string>, mode: Mode, lastInput: string, acc: seq<Suggestion>)
    requires |acc| < MaxSuggestions
    requires lines != [] && ParseLine(lines[0], mode, lastInput).None?
    ensures ParseLines(lines, mode, lastInput, acc) ==
      acc + Take(Candidates(lines, mode, lastInput), MaxSuggestions - |acc|)
    decreases |lines|, 0
  {
    assert Candidates(lines, mode, lastInput) == Candidates(lines[1..], mode, lastInput);
    assert ParseLines(lines, mode, lastInput, acc) == ParseLines(lines[1..], mode, lastInput, acc);
    ParseLinesTakesFirst(lines[1..], mode, lastInput, acc);
  }

  lemma {:induction false} TakesFirstEmit(lines: seq<string>, mode: Mode, lastInput: string, acc: seq<Suggestion>)
    requires |acc| < MaxSuggestions
    requires lines != [] && ParseLine(lines[0], mode, lastInput).Some?
    ensures ParseLines(lines, mode, lastInput, acc) ==
      acc + Take(Candidates(lines, mode, lastInput), MaxSuggestions - |acc|)
    decreases |lines|, 0
  {
    var s := ParseLine(lines[0], mode, lastInput).value;
    var rest := Candidates(lines[1..], mode, lastInput);
    var n := MaxSuggestions - |acc|;
    EmitStep(lines, mode, lastInput, acc, s);
    assert Candidates(lines, mode, lastInput) == [s] + rest;
    if |acc| + 1 < MaxSuggestions {
      ParseLinesTakesFirst(lines[1..], mode, lastInput, acc + [s]);
      assert Take([s] + rest, n) == [s] + Take(rest, n - 1);
      ConcatAssoc(acc, [s], Take(rest, n - 1));
    } else {
      assert Take([s] + rest, n) == [s];
    }
  }

  /** One step of the loop on a line that yields `s`. */
  lemma EmitStep(lines: seq<string>, mode: Mode, lastInput: string, acc: seq<Suggestion>, s: Suggestion)
    requires lines != [] && ParseLine(lines[0], mode, lastInput) == Some(s)
    ensures Candidates(lines, mode, lastInput) == [s] + Candidates(lines[1..], mode, lastInput)
    ensures ParseLines(lines, mode, lastInput, acc) ==
      if |acc| + 1 >= MaxSuggestions then acc + [s]
      else ParseLines(lines[1..], mode, lastInput, acc + [s])
  {
    assert Trim(lines[0]) != [];
  }

  /** `parse_suggestions` on a fresh set: the first five candidates of the
      reply's lines, in line order. */
  function ParseResponse(text: string, mode: Mode, lastInput: string): (r: seq<Suggestion>)
    ensures |r| <= MaxSuggestions
    ensures r == Take(Candidates(Lines(text), mode, lastInput), MaxSuggestions)
  {
    ParseLinesTakesFirst(Lines(text), mode, lastInput, []);
    ParseLines(Lines(text), mode, lastInput, [])
  }

  // ---------------------------------------------------------------------
  // The `COMMAND | DESCRIPTION` grammar the prompt asks for
  // ---------------------------------------------------------------------

  /** One reply line in the requested grammar. */
  function FormatLine(s: Suggestion): string {
    s.command + " | " + s.description
  }

  function FormatAll(list: seq<Suggestion>): (r: seq<string>)
    ensures |r| == |list|
    ensures forall k :: 0 <= k < |list| ==> r[k] == FormatLine(list[k])
  {
    seq(|list|, k requires 0 <= k < |list| => FormatLine(list[k]))
  }

  /** A suggestion that survives being written as a grammar line: a
      non-empty trimmed command with no `|`, a trimmed description, no
      newline anywhere, and a command that the prefix step leaves alone. */
  predicate WellFormed(s: Suggestion) {
    && s.command != [] && IsTrimmed(s.command) && IsTrimmed(s.description)
    && '|' !in s.command && '\n' !in s.command && '\n' !in s.description
    && !(|s.command| > 1 && s.command[1] == '.' && IsDigit(s.command[0]))
    && !(s.command[0] == '-' && (|s.command| == 1 || s.command[1] == ' '))
  }

  /** What is left of a grammar line once trimmed: the trailing blank of
      an empty description goes. */
  function TrimmedLine(s: Suggestion): string {
    s.command + " |" + (if s.description == [] then "" else " " + s.description)
  }

  lemma TrimFormatLine(s: Suggestion)
    requires WellFormed(s)
    ensures Trim(FormatLine(s)) == TrimmedLine(s)
  {
    var t := TrimmedLine(s);
    if s.description == [] {
      assert FormatLine(s) == [] + t + " ";
      TrimUnique([], t, " ");
    } else {
      assert FormatLine(s) == [] + t + [];
      TrimUnique([], t, []);
    }
  }

  lemma StripTrimmedLine(s: Suggestion)
    requires WellFormed(s)
    ensures StripListPrefix(TrimmedLine(s)) == TrimmedLine(s)
  {
    var cmd := s.command;
    var t := TrimmedLine(s);
    assert t[0] == cmd[0];
    assert t[1] == if |cmd| == 1 then ' ' else cmd[1];
    assert !HasOrdinal(t);
    assert t[..2] != Bullet by {
      if cmd[0] != '-' {
        assert t[..2][0] != Bullet[0];
      } else {
        assert t[..2][1] != Bullet[1];
      }
    }
  }

  /** Parsing a grammar line gives back the suggestion it was written from. */
  lemma ParseFormatLine(s: Suggestion, mode: Mode, lastInput: string)
    requires WellFormed(s)
    ensures ParseLine(FormatLine(s), mode, lastInput) == Some(s)
  {
    var rest := if s.description == [] then "" else " " + s.description;
    FormatLineSplit(s);
    ParseLineSplit(FormatLine(s), mode, lastInput, s.command + " ", rest);
    TrimHalves(s);
  }

  /** The cleaned grammar line is the command and a blank, the `|`, and
      the rest. */
  lemma FormatLineSplit(s: Suggestion)
    requires WellFormed(s)
    ensures var rest := if s.description == [] then "" else " " + s.description;
      && !AllSpace(FormatLine(s))
      && StripListPrefix(Trim(FormatLine(s))) == (s.command + " ") + "|" + rest
      && '|' !in s.command + " "
  {
    var cmd := s.command;
    var rest := if s.description == [] then "" else " " + s.description;
    TrimFormatLine(s);
    StripTrimmedLine(s);
    assert FormatLine(s)[0] == cmd[0];
    assert TrimmedLine(s) == (cmd + " ") + "|" + rest;
  }

  /** Trimming the two halves of a grammar line gives back the command
      and the description. */
  lemma TrimHalves(s: Suggestion)
    requires WellFormed(s)
    ensures Trim(s.command + " ") == s.command
    ensures Trim(if s.description == [] then "" else " " + s.description) == s.description
  {
    TrimUnique([], s.command, " ");
    assert [] + s.command + " " == s.command + " ";
    if s.description != [] {
      TrimUnique(" ", s.description, []);
      assert " " + s.description + [] == " " + s.description;
    } else {
      assert Trim("") == "" by { TrimUnique([], [], []); }
    }
  }

  lemma {:induction false} CandidatesOfFormatted(list: seq<Suggestion>, mode: Mode, lastInput: string)
    requires forall k :: 0 <= k < |list| ==> WellFormed(list[k])
    ensures Candidates(FormatAll(list), mode, lastInput) == list
  {
    if list != [] {
      ParseFormatLine(list[0], mode, lastInput);
      assert FormatAll(list)[1..] == FormatAll(list[1..]);
      CandidatesOfFormatted(list[1..], mode, lastInput);
    }
  }

  lemma FormatAllHasNoNewline(list: seq<Suggestion>)
    requires forall k :: 0 <= k < |list| ==> WellFormed(list[k])
    ensures forall k :: 0 <= k < |list| ==> '\n' !in FormatAll(list)[k]
  {
    forall k | 0 <= k < |list| ensures '\n' !in FormatAll(list)[k] {
      var s := list[k];
      assert FormatAll(list)[k] == s.command + " | " + s.description;
    }
  }

  /** A reply of grammar lines is parsed back to its first five suggestions,
      in order. */
  lemma ParseFormatted(list: seq<Suggestion>, mode: Mode, lastInput: string)
    requires forall k :: 0 <= k < |list| ==> WellFormed(list[k])
    ensures ParseResponse(Unlines(FormatAll(list)), mode, lastInput) == Take(list, MaxSuggestions)
  {
    var lines := FormatAll(list);
    FormatAllHasNoNewline(list);
    LinesUnlines(lines);
    CandidatesOfFormatted(list, mode, lastInput);
  }

  /** A suggestion written without backticks, which the Markdown cleaner
      leaves alone. */
  predicate NoBacktick(s: Suggestion) {
    '`' !in s.command && '`' !in s.description
  }

  /** `ParseLine` sees a line only through its trimmed form. */
  lemma ParseLineOfTrim(raw: string, mode: Mode, lastInput: string)
    ensures ParseLine(Trim(raw), mode, lastInput) == ParseLine(raw, mode, lastInput)
  {
    TrimIdempotent(raw);
  }

  lemma {:induction false} CandidatesAppend(xs: seq<string>, ys: seq<string>, mode: Mode, lastInput: string)
    ensures Candidates(xs + ys, mode, lastInput) == Candidates(xs, mode, lastInput) + Candidates(ys, mode, lastInput)
  {
    if xs == [] {
      assert xs + ys == ys;
    } else {
      var parsed := ParseLine(xs[0], mode, lastInput);
      var head := if parsed.Some? then [parsed.value] else [];
      assert (xs + ys)[0] == xs[0];
      assert (xs + ys)[1..] == xs[1..] + ys;
      CandidatesAppend(xs[1..], ys, mode, lastInput);
      ConcatAssoc(head, Candidates(xs[1..], mode, lastInput), Candidates(ys, mode, lastInput));
    }
  }

  /** A reply of grammar lines as `remove_markdown` leaves it: every line
      but the last newline-terminated, and the last one trimmed. */
  function CleanedReply(list: seq<Suggestion>): string
    requires list != []
  {
    Unlines(FormatAll(list[..|list| - 1])) + TrimmedLine(list[|list| - 1])
  }

  /** The reply of grammar lines is its cleaned form followed by blanks and
      the final newline, and the cleaned form has no blank at either end. */
  lemma ReplyShape(list: seq<Suggestion>) returns (q: string)
    requires list != []
    requires forall k :: 0 <= k < |list| ==> WellFormed(list[k])
    ensures AllSpace(q) && IsTrimmed(CleanedReply(list))
    ensures Unlines(FormatAll(list)) == CleanedReply(list) + q + "\n"
  {
    var n := |list|;
    var init, s := list[..n - 1], list[n - 1];
    var u, t := Unlines(FormatAll(init)), TrimmedLine(s);
    q := if s.description == [] then " " else "";
    assert FormatLine(s) == t + q;
    assert FormatAll(list) == FormatAll(init) + [FormatLine(s)];
    UnlinesAppend(FormatAll(init), [FormatLine(s)]);
    UnlinesSingle(FormatLine(s));
    ConcatAssoc(u, t + q, "\n");
    ConcatAssoc(u, t, q);
    var m := u + t;
    assert t[0] == s.command[0];
    assert !IsSpace(m[0]) by {
      if init != [] {
        assert FormatAll(init)[0] == FormatLine(list[0]);
        assert u[0] == list[0].command[0];
      }
    }
    assert !IsSpace(m[|m| - 1]) by {
      assert m[|m| - 1] == t[|t| - 1];
      if s.description != [] {
        assert t[|t| - 1] == s.description[|s.description| - 1];
      }
    }
  }

  lemma ReplyHasNoBacktick(list: seq<Suggestion>)
    requires forall k :: 0 <= k < |list| ==> NoBacktick(list[k])
    ensures '`' !in Unlines(FormatAll(list))
  {
    forall k | 0 <= k < |list| ensures '`' !in FormatAll(list)[k] {
      assert FormatAll(list)[k] == list[k].command + " | " + list[k].description;
    }
    UnlinesKeepsOut(FormatAll(list), '`');
  }

  /** A trimmed text with no backtick, followed by blanks and possibly a
      newline, is cleaned back to that text. */
  lemma CleanPadded(m: string, q: string)
    requires IsTrimmed(m) && AllSpace(q)
    requires '`' !in m + q + "\n"
    ensures RemoveMarkdown(m + q + "\n") == m
    ensures RemoveMarkdown(m + q) == m
  {
    assert '`' !in m + q;
    assert AllSpace(q + "\n");
    assert m + q + "\n" == [] + m + (q + "\n");
    assert m + q == [] + m + q;
    RemoveMarkdownOfNoBacktick(m + q + "\n");
    RemoveMarkdownOfNoBacktick(m + q);
    TrimUnique([], m, q + "\n");
    TrimUnique([], m, q);
  }

  /** `remove_markdown` turns the reply, with or without its final newline,
      into its cleaned form. */
  lemma CleanReply(list: seq<Suggestion>)
    requires list != []
    requires forall k :: 0 <= k < |list| ==> WellFormed(list[k]) && NoBacktick(list[k])
    ensures var text := Unlines(FormatAll(list));
      && RemoveMarkdown(text) == CleanedReply(list)
      && RemoveMarkdown(text[..|text| - 1]) == CleanedReply(list)
  {
    var text := Unlines(FormatAll(list));
    var m := CleanedReply(list);
    var q := ReplyShape(list);
    ReplyHasNoBacktick(list);
    assert text[..|text| - 1] == m + q;
    CleanPadded(m, q);
  }

  /** The lines of the cleaned form parse back to the list. */
  lemma CandidatesOfCleaned(list: seq<Suggestion>, mode: Mode, lastInput: string)
    requires list != []
    requires forall k :: 0 <= k < |list| ==> WellFormed(list[k])
    ensures Candidates(Lines(CleanedReply(list)), mode, lastInput) == list
  {
    var n := |list|;
    var init, s := list[..n - 1], list[n - 1];
    forall k | 0 <= k < |init| ensures WellFormed(init[k]) {
      assert init[k] == list[k];
    }
    FormatAllHasNoNewline(init);
    CandidatesOfFormatted(init, mode, lastInput);
    CandidatesOfTrimmedLine(s, mode, lastInput);
    CandidatesOfLastLine(FormatAll(init), TrimmedLine(s), init, s, mode, lastInput);
    SplitLast(list);
  }

  /** A non-empty sequence is its front followed by its last element. */
  lemma SplitLast<T>(xs: seq<T>)
    requires xs != []
    ensures xs[..|xs| - 1] + [xs[|xs| - 1]] == xs
  {
  }

  /** Appending a last line with no newline to newline-terminated lines
      appends what that line parses to. */
  lemma CandidatesOfLastLine(lines: seq<string>, t: string, init: seq<Suggestion>, s: Suggestion,
                             mode: Mode, lastInput: string)
    requires forall k :: 0 <= k < |lines| ==> '\n' !in lines[k]
    requires t != [] && '\n' !in t
    requires Candidates(lines, mode, lastInput) == init
    requires Candidates([t], mode, lastInput) == [s]
    ensures Candidates(Lines(Unlines(lines) + t), mode, lastInput) == init + [s]
  {
    LinesUnlinesLast(lines, t);
    CandidatesAppend(lines, [t], mode, lastInput);
  }

  /** The last line of the cleaned form, alone, parses back to its suggestion. */
  lemma CandidatesOfTrimmedLine(s: Suggestion, mode: Mode, lastInput: string)
    requires WellFormed(s)
    ensures Candidates([TrimmedLine(s)], mode, lastInput) == [s]
  {
    ParseTrimmedLine(s, mode, lastInput);
    CandidatesSingle(TrimmedLine(s), mode, lastInput);
  }

  /** A grammar line without its trailing blank parses back to its suggestion. */
  lemma ParseTrimmedLine(s: Suggestion, mode: Mode, lastInput: string)
    requires WellFormed(s)
    ensures ParseLine(TrimmedLine(s), mode, lastInput) == Some(s)
  {
    TrimFormatLine(s);
    ParseLineOfTrim(FormatLine(s), mode, lastInput);
    ParseFormatLine(s, mode, lastInput);
  }

  /** The candidates of one line are what that line yields. */
  lemma CandidatesSingle(line: string, mode: Mode, lastInput: string)
    ensures var parsed := ParseLine(line, mode, lastInput);
      Candidates([line], mode, lastInput) == if parsed.Some? then [parsed.value] else []
  {
    assert [line][1..] == [];
  }

  /** What `generate_suggestions` keeps from a reply of grammar lines with
      no backtick, with or without a final newline: after `remove_markdown`
      and `parse_suggestions`, its first five suggestions, in order. */
  lemma ParseCleanedReply(list: seq<Suggestion>, mode: Mode, lastInput: string)
    requires list != []
    requires forall k :: 0 <= k < |list| ==> WellFormed(list[k]) && NoBacktick(list[k])
    ensures var text := Unlines(FormatAll(list));
      && ParseResponse(RemoveMarkdown(text), mode, lastInput) == Take(list, MaxSuggestions)
      && ParseResponse(RemoveMarkdown(text[..|text| - 1]), mode, lastInput) == Take(list, MaxSuggestions)
  {
    CleanReply(list);
    CandidatesOfCleaned(list, mode, lastInput);
  }

  // ---------------------------------------------------------------------
  // Worked replies
  // ---------------------------------------------------------------------

  /** A reply of two grammar lines, without a final newline, yields both. */
  lemma TwoLineReply(s1: Suggestion, s2: Suggestion, mode: Mode, lastInput: string)
    requires WellFormed(s1) && WellFormed(s2)
    ensures ParseResponse(FormatLine(s1) + "\n" + FormatLine(s2), mode, lastInput) == [s1, s2]
  {
    var l1, l2 := FormatLine(s1), FormatLine(s2);
    LinesOfTwo(s1, s2);
    CandidatesOfTwo(s1, s2, mode, lastInput);
  }

  lemma LinesOfTwo(s1: Suggestion, s2: Suggestion)
    requires WellFormed(s1) && WellFormed(s2)
    ensures Lines(FormatLine(s1) + "\n" + FormatLine(s2)) == [FormatLine(s1), FormatLine(s2)]
  {
    var l1, l2 := FormatLine(s1), FormatLine(s2);
    FormatAllHasNoNewline([s1, s2]);
    assert FormatAll([s1, s2])[0] == l1 && FormatAll([s1, s2])[1] == l2;
    LinesCons(l1, l2);
    LinesSingle(l2);
  }

  lemma CandidatesOfTwo(s1: Suggestion, s2: Suggestion, mode: Mode, lastInput: string)
    requires WellFormed(s1) && WellFormed(s2)
    ensures Candidates([FormatLine(s1), FormatLine(s2)], mode, lastInput) == [s1, s2]
  {
    CandidatesOfFormatted([s1, s2], mode, lastInput);
    assert FormatAll([s1, s2]) == [FormatLine(s1), FormatLine(s2)];
  }

  /** The completion reply "ls -la | Show all files", newline,
      "ls -lh | Human-readable sizes" yields exactly those two suggestions. */
  lemma CompletionReplyExample(s1: Suggestion, s2: Suggestion, lastInput: string)
    requires s1 == Suggestion("ls -la", "Show all files")
    requires s2 == Suggestion("ls -lh", "Human-readable sizes")
    ensures ParseResponse(FormatLine(s1) + "\n" + FormatLine(s2), Generation, lastInput) == [s1, s2]
  {
    ExampleWellFormed(s1);
    ExampleWellFormed(s2);
    TwoLineReply(s1, s2, Generation, lastInput);
  }

  lemma ExampleWellFormed(s: Suggestion)
    requires s == Suggestion("ls -la", "Show all files") || s == Suggestion("ls -lh", "Human-readable sizes")
    ensures WellFormed(s)
  {
  }

  /** In explain mode a reply line without `|` describes the bound input. */
  lemma ExplainFallbackExample()
    ensures ParseResponse("Lists files.", Explain, "ls -la")
      == [Suggestion("ls -la", "Lists files.")]
  {
    var line := "Lists files.";
    ExplainLineFacts();
    ParseLineFallback(line, Explain, "ls -la");
    LinesSingle(line);
    assert [line][1..] == [];
    assert Candidates([line], Explain, "ls -la") == [Suggestion("ls -la", line)];
  }

  lemma ExplainLineFacts()
    ensures var line := "Lists files.";
      !AllSpace(line) && StripListPrefix(Trim(line)) == line && '|' !in line && '\n' !in line
  {
    var line := "Lists files.";
    assert IsTrimmed(line);
    TrimOfTrimmed(line);
    assert !HasOrdinal(line);
    assert !StartsWith(line, Bullet) by { assert line[..2][0] != Bullet[0]; }
    assert !AllSpace(line) by { assert !IsSpace(line[0]); }
  }

  /** The ordinal test drops three characters even when the third is not a
      blank: "1.ls" becomes "s". */
  lemma OrdinalDropsThirdCharacter(lastInput: string)
    ensures ParseLine("1.ls", Generation, lastInput) == Some(Suggestion("s", ""))
  {
    var line := "1.ls";
    TrimOfTrimmed(line);
    assert HasOrdinal(line);
    assert line[3..] == "s";
    assert !AllSpace(line) by { assert !IsSpace(line[0]); }
    ParseLineFallback(line, Generation, lastInput);
  }

  /** "1.-x" keeps only "x", and "1.-" is reduced to nothing yet still
      pushed as a suggestion with an empty command in the completion mode. */
  lemma EmptyCommandIsKept(lastInput: string)
    ensures ParseLine("1.-x", Generation, lastInput) == Some(Suggestion("x", ""))
    ensures ParseLine("1.-", Generation, lastInput) == Some(Suggestion("", ""))
    ensures ParseResponse("1.-", Generation, lastInput) == [Suggestion("", "")]
  {
    var a, b := "1.-x", "1.-";
    TrimOfTrimmed(a);
    TrimOfTrimmed(b);
    assert HasOrdinal(a) && a[3..] == "x";
    assert HasOrdinal(b) && b[3..] == "";
    assert !AllSpace(a) by { assert !IsSpace(a[0]); }
    assert !AllSpace(b) by { assert !IsSpace(b[0]); }
    ParseLineFallback(a, Generation, lastInput);
    ParseLineFallback(b, Generation, lastInput);
    LinesSingle(b);
    assert [b][1..] == [];
    assert Candidates([b], Generation, lastInput) == [Suggestion("", "")];
  }
}
