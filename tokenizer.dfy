/**
  The delimiter re-merge pass `_join_list_with_char` (hfclib.py:78-130).

  A bracketed list value is first split on `", "`; that also splits inside quoted strings and
  nested lists. One pass re-joins every run of tokens that starts with a token beginning with
  `chars[0]` and ends at the next token ending with `chars[1]`, putting the separator back
  between them. The converter runs the pass three times: with `[`/`]`, `(`/`)` and `"`/`"`.

  `Runs` and `Group` are the reference definition, read as a grammar over the token list: at
  the top level a token either passes through or opens a group; inside a group the tokens
  are swallowed until one closes it. The method `JoinListWithChar` is the library's loop,
  with its `string_index_range`, `found_string` and `ignore_next_index` state, proved equal
  to that definition.

  The library uses index 0 in `string_index_range` to mean "no group is open". A group that
  opens at token 0 is therefore invisible to its own checks: opening a second group silently
  restarts at the new opener, and if it never closes its tokens are dropped without an error.
  The model keeps that behaviour.
 */
module Tokenizer {
  import opened Base
  import opened Strings

  /** Put `x` in front of a successful output; an error passes through. */
  function Prepend(x: string, r: Result<seq<string>>): Result<seq<string>> {
    if r.Ok? then Ok([x] + r.value) else r
  }

  /** Put `out` in front of a successful output; an error passes through. */
  function Then(out: seq<string>, r: Result<seq<string>>): Result<seq<string>> {
    if r.Ok? then Ok(out + r.value) else r
  }

  lemma ThenNil(r: Result<seq<string>>)
    ensures Then([], r) == r
  {
    if r.Ok? {
      assert [] + r.value == r.value;
    }
  }

  lemma ThenPrepend(out: seq<string>, x: string, r: Result<seq<string>>)
    ensures Then(out, Prepend(x, r)) == Then(out + [x], r)
  {
    if r.Ok? {
      assert out + ([x] + r.value) == (out + [x]) + r.value;
    }
  }

  predicate Opens(t: string, chars: seq<string>)
    requires |chars| >= 1
  {
    StartsWith(t, chars[0])
  }

  predicate Closes(t: string, chars: seq<string>)
    requires |chars| >= 2
  {
    EndsWith(t, chars[1])
  }

  /**
    Output of the pass for the tokens from index `k` on, at the top level (no group open).
    At most one output element per input token, and the only errors are the two the loop
    raises.
   */
  function Runs(ts: seq<string>, chars: seq<string>, sep: string, k: nat): (r: Result<seq<string>>)
    requires |chars| >= 1 && k <= |ts|
    ensures r.Ok? ==> |r.value| <= |ts| - k
    ensures r.Err? ==> r.error == UnbalancedBracket || (r.error == MissingIndex && |chars| == 1)
    decreases |ts| - k, 1, 0
  {
    if k == |ts| then Ok([])
    else if Opens(ts[k], chars) then Group(ts, chars, sep, k, k)
    else Prepend(ts[k], Runs(ts, chars, sep, k + 1))
  }

  /**
    Output of the pass from index `k` on while the group opened by `ts[lo]` is still open.
    A token that opens another group is an error unless the open group started at index 0;
    then the group silently restarts there. At the end of the input an open group is an
    error unless it started at index 0; then its tokens are dropped.
   */
  function Group(ts: seq<string>, chars: seq<string>, sep: string, lo: nat, k: nat): (r: Result<seq<string>>)
    requires |chars| >= 1 && lo <= k <= |ts|
    ensures r.Ok? ==> |r.value| <= |ts| - k
    ensures r.Err? ==> r.error == UnbalancedBracket || (r.error == MissingIndex && |chars| == 1)
    decreases |ts| - k, 0, k - lo
  {
    if k == |ts| then
      if lo == 0 then Ok([]) else Err(UnbalancedBracket)
    else if lo < k && Opens(ts[k], chars) then
      if lo != 0 then Err(UnbalancedBracket) else Group(ts, chars, sep, k, k)
    else if |chars| < 2 then Err(MissingIndex)
    else if Closes(ts[k], chars) then Prepend(Join(ts[lo..k + 1], sep), Runs(ts, chars, sep, k + 1))
    else Group(ts, chars, sep, lo, k + 1)
  }

  /** The whole pass, including the argument check at hfclib.py:85-86. */
  function JoinRuns(ts: seq<string>, chars: seq<string>, sep: string): (r: Result<seq<string>>)
    ensures r == Err(EmptyArgument) <==> ts == [] || chars == [] || sep == []
    ensures r.Ok? ==> |r.value| <= |ts|
    ensures r.Err? ==> r.error == EmptyArgument || r.error == UnbalancedBracket || (r.error == MissingIndex && |chars| == 1)
  {
    if ts == [] || chars == [] || sep == [] then Err(EmptyArgument) else Runs(ts, chars, sep, 0)
  }

  /**
    `_join_list_with_char` as the library runs it. `lo` and `hi` are `string_index_range`;
    `hi` is reset in the same step that sets it and `ignoreNext` is cleared in the same
    iteration that sets it, so both branches guarded by them are never taken, as in the
    library.
   */
  method JoinListWithChar(input: seq<string>, chars: seq<string>, sep: string) returns (r: Result<seq<string>>)
    ensures r == JoinRuns(input, chars, sep)
  {
    var lo, hi := 0, 0;
    var ignoreNext := false;
    var index := 0;
    var found := false;
    var output: seq<string> := [];

    if input == [] || chars == [] || sep == [] {
      return Err(EmptyArgument);
    }
    ThenNil(Runs(input, chars, sep, 0));

    while index < |input|
      invariant 0 <= index <= |input|
      invariant hi == 0 && !ignoreNext
      invariant !found ==> lo == 0 && Runs(input, chars, sep, 0) == Then(output, Runs(input, chars, sep, index))
      invariant found ==> lo < index && Runs(input, chars, sep, 0) == Then(output, Group(input, chars, sep, lo, index))
    {
      var s := input[index];
      ThenPrepend(output, s, Runs(input, chars, sep, index + 1));
      if found || StartsWith(s, chars[0]) {
        var o := if found then lo else index;
        if 2 <= |chars| {
          ThenPrepend(output, Join(input[o..index + 1], sep), Runs(input, chars, sep, index + 1));
        }
      }

      if StartsWith(s, chars[0]) {
        if lo != 0 {
          return Err(UnbalancedBracket);
        }
        lo := index;
        found := true;
      }

      if found {
        if |chars| < 2 {
          return Err(MissingIndex);
        }
        if EndsWith(s, chars[1]) {
          if hi != 0 {
            return Err(UnbalancedBracket);
          }
          hi := index;
          output := output + [Join(input[lo..hi + 1], sep)];
          lo, hi := 0, 0;
          found := false;
          ignoreNext := true;
        }
      }

      if found && StartsWith(s, chars[0]) && EndsWith(s, chars[1]) {
        output := output + [s];
        found := false;
        lo, hi := 0, 0;
      } else if !found && !ignoreNext {
        output := output + [s];
      } else if !found && ignoreNext {
        ignoreNext := false;
      }

      index := index + 1;
    }

    if lo != 0 || hi != 0 {
      return Err(UnbalancedBracket);
    }
    assert output + [] == output;
    return Ok(output);
  }

  // ---------------------------------------------------------------------------------------
  // What the pass does to the tokens
  // ---------------------------------------------------------------------------------------

  lemma {:induction false} RunsPassThrough(ts: seq<string>, chars: seq<string>, sep: string, k: nat)
    requires |chars| >= 1 && k <= |ts|
    requires forall i :: k <= i < |ts| && Opens(ts[i], chars) ==> |chars| >= 2 && Closes(ts[i], chars)
    ensures Runs(ts, chars, sep, k) == Ok(ts[k..])
    decreases |ts| - k
  {
    if k < |ts| {
      RunsPassThrough(ts, chars, sep, k + 1);
      assert ts[k..] == [ts[k]] + ts[k + 1..];
      assert ts[k..k + 1] == [ts[k]];
    }
  }

  /**
    When every token that opens a group also closes it (in particular when no token opens
    one) the pass returns its input unchanged: such a token stays a single element.
   */
  lemma JoinRunsUnchanged(ts: seq<string>, chars: seq<string>, sep: string)
    requires ts != [] && chars != [] && sep != []
    requires forall i :: 0 <= i < |ts| && StartsWith(ts[i], chars[0]) ==> |chars| >= 2 && EndsWith(ts[i], chars[1])
    ensures JoinRuns(ts, chars, sep) == Ok(ts)
  {
    RunsPassThrough(ts, chars, sep, 0);
  }

  /** Tokens before the first opener are copied to the output in order. */
  lemma {:induction false} PlainPrefixKept(ts: seq<string>, chars: seq<string>, sep: string, k: nat)
    requires |chars| >= 1 && k <= |ts|
    requires forall j :: 0 <= j < k ==> !Opens(ts[j], chars)
    ensures Runs(ts, chars, sep, 0) == Then(ts[..k], Runs(ts, chars, sep, k))
    decreases k
  {
    if k == 0 {
      ThenNil(Runs(ts, chars, sep, 0));
    } else {
      PlainPrefixKept(ts, chars, sep, k - 1);
      ThenPrepend(ts[..k - 1], ts[k - 1], Runs(ts, chars, sep, k));
      assert ts[..k - 1] + [ts[k - 1]] == ts[..k];
    }
  }

  lemma {:induction false} GroupScan(ts: seq<string>, chars: seq<string>, sep: string, lo: nat, j: nat, m: nat)
    requires |chars| >= 2 && lo <= j <= m < |ts|
    requires Closes(ts[m], chars)
    requires forall i :: j <= i < m ==> !Closes(ts[i], chars)
    requires forall i :: lo < i <= m ==> !Opens(ts[i], chars)
    ensures Group(ts, chars, sep, lo, j) == Prepend(Join(ts[lo..m + 1], sep), Runs(ts, chars, sep, m + 1))
    decreases m - j
  {
    if j < m {
      GroupScan(ts, chars, sep, lo, j + 1, m);
    }
  }

  /**
    A run from an opening token to the next closing token, with no other opener inside,
    becomes one element: the run joined by the separator. With `k == m` that is a token
    that both opens and closes, which stays as it is.
   */
  lemma RunMerged(ts: seq<string>, chars: seq<string>, sep: string, k: nat, m: nat)
    requires |chars| >= 2 && k <= m < |ts|
    requires Opens(ts[k], chars) && Closes(ts[m], chars)
    requires forall j :: k <= j < m ==> !Closes(ts[j], chars)
    requires forall j :: k < j <= m ==> !Opens(ts[j], chars)
    ensures Runs(ts, chars, sep, k) == Prepend(Join(ts[k..m + 1], sep), Runs(ts, chars, sep, m + 1))
  {
    GroupScan(ts, chars, sep, k, k, m);
  }

  /**
    The first group of the list: the plain tokens before it are kept in order, and the run
    from its opener to the next closer becomes a single joined element.
   */
  lemma FirstRunMerged(ts: seq<string>, chars: seq<string>, sep: string, k: nat, m: nat)
    requires |chars| >= 2 && sep != [] && k <= m < |ts|
    requires forall j :: 0 <= j < k ==> !StartsWith(ts[j], chars[0])
    requires StartsWith(ts[k], chars[0]) && EndsWith(ts[m], chars[1])
    requires forall j :: k <= j < m ==> !EndsWith(ts[j], chars[1])
    requires forall j :: k < j <= m ==> !StartsWith(ts[j], chars[0])
    ensures JoinRuns(ts, chars, sep) == Then(ts[..k] + [Join(ts[k..m + 1], sep)], Runs(ts, chars, sep, m + 1))
  {
    PlainPrefixKept(ts, chars, sep, k);
    RunMerged(ts, chars, sep, k, m);
    ThenPrepend(ts[..k], Join(ts[k..m + 1], sep), Runs(ts, chars, sep, m + 1));
  }

  // ---------------------------------------------------------------------------------------
  // Unbalanced groups
  // ---------------------------------------------------------------------------------------

  lemma {:induction false} GroupCutShort(ts: seq<string>, chars: seq<string>, sep: string, lo: nat, x: nat, j: nat)
    requires |chars| >= 2 && lo <= x <= j <= |ts| && lo < j
    requires j == |ts| || Opens(ts[j], chars)
    requires forall i :: x <= i < j ==> !Closes(ts[i], chars)
    requires forall i :: lo < i < j ==> !Opens(ts[i], chars)
    ensures Group(ts, chars, sep, lo, x) == if lo != 0 then Err(UnbalancedBracket) else Runs(ts, chars, sep, j)
    decreases j - x
  {
    if x < j {
      GroupCutShort(ts, chars, sep, lo, x + 1, j);
    }
  }

  /**
    A group opened at a non-zero index that reaches another opener, or the end of the
    list, before any closer makes the pass fail with "Unbalanced string bracket".
   */
  lemma OpenGroupFails(ts: seq<string>, chars: seq<string>, sep: string, i: nat, j: nat)
    requires |chars| >= 2 && sep != [] && 0 < i < j <= |ts|
    requires forall x :: 0 <= x < i ==> !StartsWith(ts[x], chars[0])
    requires StartsWith(ts[i], chars[0])
    requires j == |ts| || StartsWith(ts[j], chars[0])
    requires forall x :: i <= x < j ==> !EndsWith(ts[x], chars[1])
    requires forall x :: i < x < j ==> !StartsWith(ts[x], chars[0])
    ensures JoinRuns(ts, chars, sep) == Err(UnbalancedBracket)
  {
    PlainPrefixKept(ts, chars, sep, i);
    GroupCutShort(ts, chars, sep, i, i, j);
  }

  /**
    The same situation for a group opened at index 0 raises nothing, because 0 is also the
    "no group" mark: every token before the next opener (or all of them) is dropped.
   */
  lemma OpenGroupAtStartDiscarded(ts: seq<string>, chars: seq<string>, sep: string, j: nat)
    requires |chars| >= 2 && sep != [] && 0 < j <= |ts|
    requires StartsWith(ts[0], chars[0])
    requires j == |ts| || StartsWith(ts[j], chars[0])
    requires forall x :: 0 <= x < j ==> !EndsWith(ts[x], chars[1])
    requires forall x :: 0 < x < j ==> !StartsWith(ts[x], chars[0])
    ensures JoinRuns(ts, chars, sep) == Runs(ts, chars, sep, j)
    ensures j == |ts| ==> JoinRuns(ts, chars, sep) == Ok([])
  {
    GroupCutShort(ts, chars, sep, 0, 0, j);
  }

  /** With a one-element `chars` the first opener makes the loop read `chars[1]`: IndexError. */
  lemma OneDelimiterFails(ts: seq<string>, chars: seq<string>, sep: string, i: nat)
    requires |chars| == 1 && sep != [] && i < |ts|
    requires forall x :: 0 <= x < i ==> !StartsWith(ts[x], chars[0])
    requires StartsWith(ts[i], chars[0])
    ensures JoinRuns(ts, chars, sep) == Err(MissingIndex)
  {
    PlainPrefixKept(ts, chars, sep, i);
  }

  // ---------------------------------------------------------------------------------------
  // The pass only puts separators back
  // ---------------------------------------------------------------------------------------

  lemma {:induction false} RunsText(ts: seq<string>, chars: seq<string>, sep: string, k: nat) returns (d: nat)
    requires |chars| >= 1 && k <= |ts|
    requires Runs(ts, chars, sep, k).Ok?
    ensures k <= d <= |ts|
    ensures k > 0 || (k < |ts| && !Opens(ts[k], chars)) ==> d == k
    ensures Runs(ts, chars, sep, k).value == [] <==> d == |ts|
    ensures Join(Runs(ts, chars, sep, k).value, sep) == Join(ts[d..], sep)
    decreases |ts| - k, 1, 0
  {
    if k == |ts| {
      d := |ts|;
    } else if Opens(ts[k], chars) {
      d := GroupText(ts, chars, sep, k, k);
    } else {
      var _ := RunsText(ts, chars, sep, k + 1);
      d := k;
      var rest := Runs(ts, chars, sep, k + 1).value;
      assert ts[k..][1..] == ts[k + 1..];
      assert ([ts[k]] + rest)[1..] == rest;
    }
  }

  lemma {:induction false} GroupText(ts: seq<string>, chars: seq<string>, sep: string, lo: nat, k: nat) returns (d: nat)
    requires |chars| >= 1 && lo <= k <= |ts| && lo < |ts|
    requires Group(ts, chars, sep, lo, k).Ok?
    ensures lo <= d <= |ts|
    ensures lo > 0 ==> d == lo
    ensures Group(ts, chars, sep, lo, k).value == [] <==> d == |ts|
    ensures Join(Group(ts, chars, sep, lo, k).value, sep) == Join(ts[d..], sep)
    decreases |ts| - k, 0, k - lo
  {
    if k == |ts| {
      d := |ts|;
    } else if lo < k && Opens(ts[k], chars) {
      d := GroupText(ts, chars, sep, k, k);
    } else if Closes(ts[k], chars) {
      var _ := RunsText(ts, chars, sep, k + 1);
      d := lo;
      var rest := Runs(ts, chars, sep, k + 1).value;
      var run := ts[lo..k + 1];
      assert ([Join(run, sep)] + rest)[1..] == rest;
      if rest == [] {
        assert ts[lo..] == run;
      } else {
        JoinAppend(run, ts[k + 1..], sep);
        assert run + ts[k + 1..] == ts[lo..];
      }
    } else {
      d := GroupText(ts, chars, sep, lo, k + 1);
    }
  }

  /**
    Joining the output gives back the joined input, minus a leading group the pass dropped
    (which can only be one opened at index 0): nothing is added, reordered or changed.
   */
  lemma JoinRunsKeepsText(ts: seq<string>, chars: seq<string>, sep: string)
    requires JoinRuns(ts, chars, sep).Ok?
    ensures |Join(JoinRuns(ts, chars, sep).value, sep)| <= |Join(ts, sep)|
    ensures !StartsWith(ts[0], chars[0]) ==> Join(JoinRuns(ts, chars, sep).value, sep) == Join(ts, sep)
    ensures forall i :: 0 <= i < |JoinRuns(ts, chars, sep).value| ==> |JoinRuns(ts, chars, sep).value[i]| <= |Join(ts, sep)|
  {
    var out := JoinRuns(ts, chars, sep).value;
    var d := RunsText(ts, chars, sep, 0);
    JoinSuffixShorter(ts, d, sep);
    forall i | 0 <= i < |out|
      ensures |out[i]| <= |Join(ts, sep)|
    {
      PartShorterThanJoin(out, i, sep);
    }
  }
}
