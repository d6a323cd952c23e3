/** The suggestion cursor: the circular step of `next_suggestion` and the
    display form of one suggestion. */
module Cursor {
  import opened Text
  import opened Types

  /** `next_suggestion` on the index: no change for an empty set, otherwise
      one step forward, wrapping from the last entry to the first. */
  function Advance(index: nat, count: nat): (r: nat)
    ensures count == 0 ==> r == index
    ensures count > 0 ==> r < count
    ensures index + 1 < count ==> r == index + 1
    ensures index + 1 == count ==> r == 0
  {
    if count == 0 then index else (index + 1) % count
  }

  /** The index after `k` calls of `next_suggestion`. */
  function AdvanceTimes(index: nat, count: nat, k: nat): nat {
    if k == 0 then index else Advance(AdvanceTimes(index, count, k - 1), count)
  }

  /** Steps that do not reach the end move forward one entry each. */
  lemma {:induction false} AdvanceTimesForward(index: nat, count: nat, k: nat)
    requires index + k < count
    ensures AdvanceTimes(index, count, k) == index + k
  {
    if k > 0 {
      AdvanceTimesForward(index, count, k - 1);
    }
  }

  /** `a + b` calls are `a` calls followed by `b` calls. */
  lemma {:induction false} AdvanceTimesAdd(index: nat, count: nat, a: nat, b: nat)
    ensures AdvanceTimes(index, count, a + b) == AdvanceTimes(AdvanceTimes(index, count, a), count, b)
  {
    if b > 0 {
      AdvanceTimesAdd(index, count, a, b - 1);
    }
  }

  /** From any entry, stepping to the end of the set wraps to the first entry. */
  lemma AdvanceTimesWraps(index: nat, count: nat)
    requires index < count
    ensures AdvanceTimes(index, count, count - index) == 0
  {
    AdvanceTimesForward(index, count, count - index - 1);
  }

  /** `count` calls of `next_suggestion` bring the cursor back to where it started. */
  lemma FullCycleReturns(index: nat, count: nat)
    requires index < count
    ensures AdvanceTimes(index, count, count) == index
  {
    AdvanceTimesAdd(index, count, count - index, index);
    AdvanceTimesWraps(index, count);
    AdvanceTimesForward(0, count, index);
  }

  /** The cursor is periodic with period `count`. */
  lemma CyclePeriodic(index: nat, count: nat, k: nat)
    requires index < count
    ensures AdvanceTimes(index, count, count + k) == AdvanceTimes(index, count, k)
  {
    AdvanceTimesAdd(index, count, count, k);
    FullCycleReturns(index, count);
  }

  /** From the first entry, the first `count` steps land on `count` different entries. */
  lemma CycleVisitsAll(count: nat, a: nat, b: nat)
    requires a < count && b < count && a != b
    ensures AdvanceTimes(0, count, a) != AdvanceTimes(0, count, b)
  {
    AdvanceTimesForward(0, count, a);
    AdvanceTimesForward(0, count, b);
  }

  /** `get_current_suggestion_with_description` on one entry: the command
      alone when the description is empty, else `cmd  (desc)`. */
  function Display(s: Suggestion): (r: string)
    ensures StartsWith(r, s.command)
    ensures r == s.command <==> s.description == []
    ensures s.description != [] ==> EndsWith(r, "  (" + s.description + ")")
    ensures s.description != [] ==> |r| == |s.command| + |s.description| + 4
  {
    if s.description == [] then s.command
    else
      var r := s.command + "  (" + s.description + ")";
      assert r[..|s.command|] == s.command;
      assert r[|r| - |s.description| - 4..] == "  (" + s.description + ")";
      r
  }
}
