/** String helpers of the suggestion manager: whitespace trimming, the
    Markdown cleaner applied to the model's reply, the `find`/`rfind`
    searches they are built on, and the `getline` line splitter. */
module Text {

  datatype Option<T> = None | Some(value: T)

  /** The characters `trim` removes: space, tab, newline, carriage return. */
  predicate IsSpace(c: char) {
    c == ' ' || c == '\t' || c == '\n' || c == '\r'
  }

  predicate AllSpace(s: string) {
    forall k :: 0 <= k < |s| ==> IsSpace(s[k])
  }

  /** Neither end of `s` is a whitespace character. */
  predicate IsTrimmed(s: string) {
    s == [] || (!IsSpace(s[0]) && !IsSpace(s[|s| - 1]))
  }

  predicate StartsWith(s: string, prefix: string) {
    |prefix| <= |s| && s[..|prefix|] == prefix
  }

  predicate EndsWith(s: string, suffix: string) {
    |suffix| <= |s| && s[|s| - |suffix|..] == suffix
  }

  /** `pat` occurs in `s` starting at index `i`. */
  predicate OccursAt(pat: string, s: string, i: int) {
    0 <= i && i + |pat| <= |s| && s[i..i + |pat|] == pat
  }

  lemma OccursInMiddle(x: string, y: string, z: string)
    ensures OccursAt(y, x + y + z, |x|)
  {
    assert (x + y + z)[|x|..|x| + |y|] == y;
  }

  lemma ConcatAssoc<T>(a: seq<T>, b: seq<T>, c: seq<T>)
    ensures a + (b + c) == a + b + c
  {
  }

  // ---------------------------------------------------------------------
  // Searches
  // ---------------------------------------------------------------------

  /** `find_first_not_of(" \t\n\r", from)`; `|s|` stands for `npos`. */
  function FirstNonSpace(s: string, from: nat): (i: nat)
    requires from <= |s|
    ensures from <= i <= |s|
    ensures forall k :: from <= k < i ==> IsSpace(s[k])
    ensures i < |s| ==> !IsSpace(s[i])
    decreases |s| - from
  {
    if from == |s| || !IsSpace(s[from]) then from else FirstNonSpace(s, from + 1)
  }

  /** One past `find_last_not_of(" \t\n\r")` within `s[..to]`; 0 when there is none. */
  function EndOfNonSpace(s: string, to: nat): (j: nat)
    requires to <= |s|
    ensures j <= to
    ensures forall k :: j <= k < to ==> IsSpace(s[k])
    ensures j > 0 ==> !IsSpace(s[j - 1])
  {
    if to == 0 || !IsSpace(s[to - 1]) then to else EndOfNonSpace(s, to - 1)
  }

  /** `s.find(c, from)`: the first index at or after `from` holding `c`. */
  function FindChar(s: string, c: char, from: nat): (r: Option<nat>)
    ensures r.Some? ==> from <= r.value < |s| && s[r.value] == c
    ensures forall k :: from <= k < (if r.Some? then r.value else |s|) ==> s[k] != c
    decreases |s| - from
  {
    if from >= |s| then None
    else if s[from] == c then Some(from)
    else FindChar(s, c, from + 1)
  }

  /** `s.find(pat, from)`: the first occurrence of `pat` at or after `from`. */
  function Find(s: string, pat: string, from: nat): (r: Option<nat>)
    ensures r.Some? ==> from <= r.value && OccursAt(pat, s, r.value)
    ensures forall k :: from <= k && (r.None? || k < r.value) ==> !OccursAt(pat, s, k)
    decreases |s| - from
  {
    if from + |pat| > |s| then None
    else if s[from..from + |pat|] == pat then Some(from)
    else Find(s, pat, from + 1)
  }

  /** `s.find(pat) == 0` holds exactly when `s` starts with `pat`. */
  lemma FindAtStart(s: string, pat: string)
    ensures Find(s, pat, 0) == Some(0) <==> StartsWith(s, pat)
  {
    if StartsWith(s, pat) {
      assert s[0..|pat|] == pat;
    }
  }

  /** The last occurrence of `pat` starting at an index no greater than `i`. */
  function FindLastAtOrBefore(s: string, pat: string, i: int): (r: Option<nat>)
    ensures r.Some? ==> r.value <= i && OccursAt(pat, s, r.value)
    ensures forall k :: k <= i && (r.None? || r.value < k) ==> !OccursAt(pat, s, k)
    decreases if i < 0 then 0 else i + 1
  {
    if i < 0 then None
    else if OccursAt(pat, s, i) then Some(i)
    else FindLastAtOrBefore(s, pat, i - 1)
  }

  /** `s.rfind(pat)`: the last occurrence of `pat` in `s`. */
  function RFind(s: string, pat: string): (r: Option<nat>)
    ensures r.Some? ==> OccursAt(pat, s, r.value)
    ensures forall k :: r.None? || r.value < k ==> !OccursAt(pat, s, k)
  {
    FindLastAtOrBefore(s, pat, |s| - |pat|)
  }

  // ---------------------------------------------------------------------
  // trim
  // ---------------------------------------------------------------------

  /** `trim`: drops leading and trailing spaces, tabs, newlines and carriage returns. */
  function Trim(s: string): (r: string)
    ensures IsTrimmed(r)
    ensures r == [] <==> AllSpace(s)
  {
    var first := FirstNonSpace(s, 0);
    if first == |s| then ""
    else
      var last := EndOfNonSpace(s, |s|);
      assert !IsSpace(s[first]);
      s[first..last]
  }

  /** `Trim` only removes whitespace from the two ends: `s` is a blank
      prefix, the trimmed text, and a blank suffix. */
  lemma TrimSplits(s: string) returns (p: string, q: string)
    ensures AllSpace(p) && AllSpace(q)
    ensures s == p + Trim(s) + q
  {
    var first := FirstNonSpace(s, 0);
    if first == |s| {
      p, q := s, [];
    } else {
      var last := EndOfNonSpace(s, |s|);
      p, q := s[..first], s[last..];
      assert s == s[..first] + s[first..last] + s[last..];
    }
  }

  /** A character absent from `s` is absent from its trimmed text. */
  lemma TrimKeepsOut(s: string, c: char)
    requires c !in s
    ensures c !in Trim(s)
  {
    var p, q := TrimSplits(s);
    assert s == p + Trim(s) + q;
  }

  /** `Trim` is characterised by any split into blank ends around a trimmed middle. */
  lemma TrimUnique(p: string, m: string, q: string)
    requires AllSpace(p) && AllSpace(q) && IsTrimmed(m)
    ensures Trim(p + m + q) == m
  {
    var s := p + m + q;
    if m == [] {
      assert s == p + q;
      assert AllSpace(s) by {
        forall k | 0 <= k < |s| ensures IsSpace(s[k]) {
          if k < |p| { assert s[k] == p[k]; } else { assert s[k] == q[k - |p|]; }
        }
      }
    } else {
      assert s[|p|] == m[0];
      assert s[|p| + |m| - 1] == m[|m| - 1];
      var first := FirstNonSpace(s, 0);
      assert first == |p|;
      var last := EndOfNonSpace(s, |s|);
      assert last == |p| + |m|;
      assert s[first..last] == m;
    }
  }

  /** A string that is already trimmed comes back unchanged. */
  lemma TrimOfTrimmed(s: string)
    requires IsTrimmed(s)
    ensures Trim(s) == s
  {
    TrimUnique([], s, []);
    assert [] + s + [] == s;
  }

  /** Trimming twice is trimming once. */
  lemma TrimIdempotent(s: string)
    ensures Trim(Trim(s)) == Trim(s)
  {
    TrimOfTrimmed(Trim(s));
  }

  // ---------------------------------------------------------------------
  // remove_markdown
  // ---------------------------------------------------------------------

  const Fence: string := "```"

  /** `std::remove(text, c)`: every occurrence of `c` deleted, the rest kept in order. */
  function DeleteChar(s: string, c: char): (r: string)
    ensures c !in r
    ensures c !in s ==> r == s
    ensures multiset(r) == multiset(s)[c := 0]
  {
    if s == [] then []
    else
      assert s == [s[0]] + s[1..];
      (if s[0] == c then [] else [s[0]]) + DeleteChar(s[1..], c)
  }

  /** Deleting from a concatenation deletes from each part, so the kept
      characters stay in their order. */
  lemma {:induction false} DeleteCharAppend(a: string, b: string, c: char)
    ensures DeleteChar(a + b, c) == DeleteChar(a, c) + DeleteChar(b, c)
  {
    if a != [] {
      assert (a + b)[0] == a[0];
      assert (a + b)[1..] == a[1..] + b;
      DeleteCharAppend(a[1..], b, c);
      ConcatAssoc(if a[0] == c then [] else [a[0]], DeleteChar(a[1..], c), DeleteChar(b, c));
    } else {
      assert a + b == b;
    }
  }

  /** A single character is deleted when it is `c` and kept otherwise. */
  lemma DeleteCharSingle(x: char, c: char)
    ensures DeleteChar([x], c) == if x == c then [] else [x]
  {
    assert [x][1..] == [];
  }

  /** The code-fence step of `remove_markdown`: from the first fence, skip to
      the line after it (or just past the fence when no newline follows), then
      cut at the last fence that remains. */
  function StripFence(text: string): string {
    match Find(text, Fence, 0)
    case None => text
    case Some(start) =>
      var inner :=
        match FindChar(text, '\n', start)
        case Some(nl) => text[nl + 1..]
        case None => text[start + |Fence|..];
      match RFind(inner, Fence)
      case Some(end) => inner[..end]
      case None => inner
  }

  /** `remove_markdown`: unwrap a fenced block, delete every backtick, trim. */
  function RemoveMarkdown(text: string): (r: string)
    ensures '`' !in r
    ensures IsTrimmed(r)
    ensures Find(text, Fence, 0).None? ==> r == Trim(DeleteChar(text, '`'))
  {
    Trim(DeleteChar(StripFence(text), '`'))
  }

  /** Text with no backtick is only trimmed. */
  lemma RemoveMarkdownOfNoBacktick(text: string)
    requires '`' !in text
    ensures RemoveMarkdown(text) == Trim(text)
  {
    forall k | 0 <= k && k + |Fence| <= |text| ensures !OccursAt(Fence, text, k) {
      assert text[k..k + |Fence|][0] == text[k];
      assert text[k] in text;
    }
    assert Find(text, Fence, 0).None?;
  }

  /** Text with no backtick at all that is already trimmed passes through unchanged. */
  lemma RemoveMarkdownOfPlain(text: string)
    requires '`' !in text && IsTrimmed(text)
    ensures RemoveMarkdown(text) == text
  {
    RemoveMarkdownOfNoBacktick(text);
    TrimOfTrimmed(text);
  }

  /** A fence closing the text is the last fence in it. */
  lemma RFindAtEnd(s: string, pat: string)
    ensures RFind(s + pat, pat) == Some(|s|)
  {
    assert (s + pat)[|s|..|s| + |pat|] == pat;
  }

  /** The fence step unwraps ```lang\n body ``` to the body. */
  lemma StripFenceOfFenced(lang: string, body: string)
    requires '\n' !in lang
    ensures StripFence(Fence + lang + "\n" + body + Fence) == body
  {
    var t := Fence + lang + "\n" + body + Fence;
    var nlAt := |Fence| + |lang|;
    assert t[..|Fence|] == Fence;
    assert Find(t, Fence, 0) == Some(0);
    forall k | 0 <= k < nlAt ensures t[k] != '\n' {
      if k < |Fence| {
        assert t[k] == Fence[k];
      } else {
        assert t[k] == lang[k - |Fence|];
      }
    }
    assert t[nlAt] == '\n';
    FirstCharAt(t, '\n', nlAt);
    var inner := t[nlAt + 1..];
    assert inner == body + Fence;
    RFindAtEnd(body, Fence);
    assert inner[..|body|] == body;
  }

  /** A reply wrapped as ```lang\n body ``` is cleaned to the cleaned body. */
  lemma RemoveMarkdownOfFenced(lang: string, body: string)
    requires '\n' !in lang
    ensures RemoveMarkdown(Fence + lang + "\n" + body + Fence) == Trim(DeleteChar(body, '`'))
  {
    StripFenceOfFenced(lang, body);
  }

  /** Fencing a reply that has no fence of its own does not change what is parsed. */
  lemma FencedSameAsPlain(lang: string, body: string)
    requires '\n' !in lang
    requires Find(body, Fence, 0).None?
    ensures RemoveMarkdown(Fence + lang + "\n" + body + Fence) == RemoveMarkdown(body)
  {
    RemoveMarkdownOfFenced(lang, body);
  }

  // ---------------------------------------------------------------------
  // getline
  // ---------------------------------------------------------------------

  /** The lines `std::getline` reads from `s`: split at each `'\n'`, with no
      extra empty line after a final newline. */
  function Lines(s: string): (r: seq<string>)
    ensures forall k :: 0 <= k < |r| ==> '\n' !in r[k]
    ensures s != [] ==> r != []
    decreases |s|
  {
    if s == [] then []
    else
      match FindChar(s, '\n', 0)
      case None => [s]
      case Some(nl) => [s[..nl]] + Lines(s[nl + 1..])
  }

  /** One `getline` step: the text up to the first newline, then the lines after it. */
  lemma LinesAt(s: string, nl: nat)
    requires FindChar(s, '\n', 0) == Some(nl)
    ensures Lines(s) == [s[..nl]] + Lines(s[nl + 1..])
  {
  }

  /** Text without a newline is one line. */
  lemma LinesWhole(s: string)
    requires s != [] && FindChar(s, '\n', 0).None?
    ensures Lines(s) == [s]
  {
  }

  /** One `std::getline` call on the stream holding `s`: the first line,
      and the stream left over, whose lines are the remaining ones. */
  method GetLine(s: string) returns (line: string, rest: string)
    requires s != []
    ensures Lines(s) == [line] + Lines(rest)
    ensures '\n' !in line
    ensures |rest| < |s|
  {
    var nl := FindChar(s, '\n', 0);
    if nl.Some? {
      LinesAt(s, nl.value);
      line, rest := s[..nl.value], s[nl.value + 1..];
    } else {
      LinesWhole(s);
      line, rest := s, [];
    }
  }

  /** Each line followed by a newline: the text `getline` reads back line by line. */
  function Unlines(lines: seq<string>): string {
    if lines == [] then [] else lines[0] + "\n" + Unlines(lines[1..])
  }

  lemma UnlinesSingle(line: string)
    ensures Unlines([line]) == line + "\n"
  {
    assert [line][1..] == [];
  }

  lemma LinesCons(line: string, rest: string)
    requires '\n' !in line
    ensures Lines(line + "\n" + rest) == [line] + Lines(rest)
  {
    var s := line + "\n" + rest;
    assert s[|line|] == '\n';
    assert s[..|line|] == line;
    assert s[|line| + 1..] == rest;
  }

  lemma LinesSingle(line: string)
    requires line != [] && '\n' !in line
    ensures Lines(line) == [line]
  {
    assert FindChar(line, '\n', 0).None?;
  }

  /** Reading back lines without newlines, each newline-terminated, gives the same lines. */
  lemma {:induction false} LinesUnlines(lines: seq<string>)
    requires forall k :: 0 <= k < |lines| ==> '\n' !in lines[k]
    ensures Lines(Unlines(lines)) == lines
  {
    if lines != [] {
      LinesCons(lines[0], Unlines(lines[1..]));
      LinesUnlines(lines[1..]);
    }
  }

  /** A final newline adds no line: `getline` reads the same lines with or
      without it. */
  lemma {:induction false} LinesDropFinalNewline(s: string)
    requires s != [] && s[|s| - 1] != '\n'
    ensures Lines(s + "\n") == Lines(s)
    decreases |s|
  {
    match FindChar(s, '\n', 0)
    case None =>
      assert '\n' !in s;
      LinesSingle(s);
      LinesCons(s, "");
      assert s + "\n" + "" == s + "\n";
    case Some(nl) =>
      var a, b := s[..nl], s[nl + 1..];
      assert '\n' !in a;
      assert s == a + "\n" + b;
      assert s + "\n" == a + "\n" + (b + "\n");
      LinesCons(a, b);
      LinesCons(a, b + "\n");
      LinesDropFinalNewline(b);
  }

  /** `find` of a character returns the position of its first occurrence. */
  lemma FirstCharAt(s: string, c: char, i: nat)
    requires i < |s| && s[i] == c
    requires forall k :: 0 <= k < i ==> s[k] != c
    ensures FindChar(s, c, 0) == Some(i)
  {
  }

  /** Lines without newlines, all but the last one newline-terminated, are
      read back as those lines. */
  lemma {:induction false} LinesUnlinesLast(lines: seq<string>, last: string)
    requires forall k :: 0 <= k < |lines| ==> '\n' !in lines[k]
    requires last != [] && '\n' !in last
    ensures Lines(Unlines(lines) + last) == lines + [last]
  {
    if lines == [] {
      assert Unlines(lines) + last == last;
      LinesSingle(last);
    } else {
      var rest := Unlines(lines[1..]);
      ConcatAssoc(lines[0] + "\n", rest, last);
      LinesCons(lines[0], rest + last);
      LinesUnlinesLast(lines[1..], last);
      assert lines == [lines[0]] + lines[1..];
    }
  }

  /** A character in none of the lines, other than the newline, is not in their text. */
  lemma {:induction false} UnlinesKeepsOut(lines: seq<string>, c: char)
    requires c != '\n'
    requires forall k :: 0 <= k < |lines| ==> c !in lines[k]
    ensures c !in Unlines(lines)
  {
    if lines != [] {
      assert c !in lines[0];
      UnlinesKeepsOut(lines[1..], c);
    }
  }

  lemma {:induction false} UnlinesAppend(xs: seq<string>, ys: seq<string>)
    ensures Unlines(xs + ys) == Unlines(xs) + Unlines(ys)
  {
    if xs != [] {
      assert (xs + ys)[1..] == xs[1..] + ys;
      UnlinesAppend(xs[1..], ys);
    } else {
      assert xs + ys == ys;
    }
  }
}
