/**
  Reading one value: `_replace(outside_only=True)` (hfclib.py:44-69) and `_get_converted`
  (hfclib.py:134-195). The regular expressions of `langconf` (hfclib.py:18-27) are written
  out as predicates over ASCII text.
 */
module Converter {
  import opened Base
  import opened Strings
  import opened Numbers
  import opened Values
  import opened Tokenizer

  // ---------------------------------------------------------------------------------------
  // _replace(outside_only=True)
  // ---------------------------------------------------------------------------------------

  /** Python's `t[1:-1]`, which is empty for a one-character string. */
  function SliceInner(t: string): (r: string)
    ensures |r| == if |t| >= 2 then |t| - 2 else 0
    ensures |t| >= 2 ==> t == [t[0]] + r + [t[|t| - 1]]
  {
    if |t| >= 2 then t[1..|t| - 1] else ""
  }

  /**
    The `fixed_text` left by one pass of the inner loop over `text` for the character `c`,
    when it held `fixed` before the pass: a match at the first index keeps `text[1:]`, a
    match at the last index keeps `text[:-1]` or `text[1:-1]`, and without either match
    `fixed` is left as it was.
   */
  function StripOuter(text: string, c: string, fixed: string): (r: string)
    ensures |fixed| <= |text| ==> |r| <= |text|
    ensures text != [] && fixed == [] ==> |r| < |text|
  {
    var first := |text| > 0 && [text[0]] == c;
    var last := |text| > 0 && [text[|text| - 1]] == c;
    if last then (if first then SliceInner(text) else text[..|text| - 1])
    else if first then text[1..]
    else fixed
  }

  /**
    The outer loop from the character `chars[0]` on, with `fixed_text` holding `fixed`. After
    each pass `text` takes the value of `fixed_text`, whether or not they differ.
   */
  function ReplaceOutsideFrom(text: string, chars: seq<string>, fixed: string): (r: string)
    ensures |fixed| <= |text| ==> |r| <= |text|
    decreases |chars|
  {
    if chars == [] then text
    else
      var f := StripOuter(text, chars[0], fixed);
      ReplaceOutsideFrom(f, chars[1..], f)
  }

  /**
    `_replace(text, chars, "", outside_only=True)`. `fixed_text` starts out empty, so a text
    that neither starts nor ends with `chars[0]` comes out empty; any non-empty text comes
    out strictly shorter.
   */
  function ReplaceOutside(text: string, chars: seq<string>): (r: string)
    ensures chars != [] && text != [] ==> |r| < |text|
  {
    ReplaceOutsideFrom(text, chars, "")
  }

  /** The library's nested loops, proved to compute `ReplaceOutside`. */
  method ReplaceOutsideOnly(text0: string, chars: seq<string>) returns (text: string)
    ensures text == ReplaceOutside(text0, chars)
  {
    var fixed := "";
    text := text0;
    for ci := 0 to |chars|
      invariant ReplaceOutsideFrom(text, chars[ci..], fixed) == ReplaceOutside(text0, chars)
    {
      var c := chars[ci];
      var changedFirst := false;
      var index := 0;
      ghost var fixed0 := fixed;
      while index < |text|
        invariant 0 <= index <= |text|
        invariant changedFirst <==> index > 0 && [text[0]] == c
        invariant index < |text| ==> fixed == if changedFirst then text[1..] else fixed0
        invariant index == |text| ==> fixed == StripOuter(text, c, fixed0)
      {
        var s := text[index];
        if [s] == c {
          if index == 0 {
            fixed := text[1..];
            changedFirst := true;
          }
          if index == |text| - 1 {
            if !changedFirst {
              fixed := text[..|text| - 1];
            } else {
              fixed := SliceInner(text);
            }
          }
        }
        index := index + 1;
      }
      if fixed != text {
        text := fixed;
      }
      assert chars[ci..][1..] == chars[ci + 1..];
    }
  }

  lemma {:induction false} ReplaceOutsideOfEmpty(chars: seq<string>)
    ensures ReplaceOutsideFrom("", chars, "") == ""
    decreases |chars|
  {
    if chars != [] {
      ReplaceOutsideOfEmpty(chars[1..]);
    }
  }

  /**
    Because `fixed_text` starts out empty, a list text whose first character is not `[`
    and whose last is not `[` either is emptied by the list characters of the library.
    That is the case of every `(...)` list.
   */
  lemma NotBracketedEmptied(text: string)
    requires text == [] || (text[0] != '[' && text[|text| - 1] != '[')
    ensures ReplaceOutside(text, ListChars) == ""
  {
    ReplaceOutsideOfEmpty(ListChars[1..]);
  }

  /**
    For a `[...]` list the outer brackets go, and the body is kept when it does not start
    with `]`, `(` or `)` and does not end with `(` or `)`.
   */
  lemma BracketedBodyKept(b: string)
    requires b == [] || (b[0] !in "])(" && b[|b| - 1] !in "()")
    ensures ReplaceOutside("[" + b + "]", ListChars) == b
  {
    var t := "[" + b + "]";
    var t1 := StripOuter(t, "[", "");
    assert t1 == b + "]";
    var t2 := StripOuter(t1, "]", t1);
    if b == [] {
      assert t2 == "";
      ReplaceOutsideOfEmpty(ListChars[2..]);
      assert ReplaceOutsideFrom(t2, ListChars[2..], t2) == "";
    } else {
      assert t2 == b;
      assert StripOuter(b, "(", b) == b;
      assert StripOuter(b, ")", b) == b;
    }
  }

  // ---------------------------------------------------------------------------------------
  // The patterns
  // ---------------------------------------------------------------------------------------

  /** `^\[.*\]$` or `^\(.*\)$` (hfclib.py:27): `.` matches anything but a newline. */
  predicate IsListLiteral(v: string) {
    |v| >= 2 && '\n' !in v[1..|v| - 1]
    && ((v[0] == '[' && v[|v| - 1] == ']') || (v[0] == '(' && v[|v| - 1] == ')'))
  }

  /** `^".+"$` (hfclib.py:21): at least one character between the quotes. */
  predicate IsQuoted(v: string) {
    |v| >= 3 && v[0] == '"' && v[|v| - 1] == '"' && '\n' !in v[1..|v| - 1]
  }

  /** Length of the run of digits at the start of `v`. */
  function DigitRun(v: string): (k: nat)
    ensures k <= |v| && AllDigits(v[..k])
    ensures k < |v| ==> !IsDigit(v[k])
  {
    if v == [] || !IsDigit(v[0]) then 0
    else
      var k := 1 + DigitRun(v[1..]);
      assert v[..k] == [v[0]] + v[1..][..k - 1];
      k
  }

  /**
    `^\d+([.,]\d+)$` (hfclib.py:23). The separator is not a digit, so the digits before it
    are exactly the leading digit run.
   */
  predicate IsFloat(v: string) {
    var k := DigitRun(v);
    0 < k && k + 1 < |v| && (v[k] == '.' || v[k] == ',') && IsDigits(v[k + 1..])
  }

  // ---------------------------------------------------------------------------------------
  // _get_converted
  // ---------------------------------------------------------------------------------------

  /** The delimiter pairs of the three re-merge passes (hfclib.py:159-170). */
  const ListPasses: seq<seq<string>> := [["[", "]"], ["(", ")"], [StringChar, StringChar]]

  /**
    The re-merge passes run one after the other, the first failure ending the sequence.
    Together they never lengthen the joined text.
   */
  function JoinPasses(ts: seq<string>, pairs: seq<seq<string>>, sep: string): (r: Result<seq<string>>)
    requires forall i :: 0 <= i < |pairs| ==> |pairs[i]| == 2
    ensures r.Ok? ==> |Join(r.value, sep)| <= |Join(ts, sep)|
    ensures r.Err? ==> r.error == EmptyArgument || r.error == UnbalancedBracket
    decreases |pairs|
  {
    if pairs == [] then Ok(ts)
    else
      var step := JoinRuns(ts, pairs[0], sep);
      if step.Err? then step
      else
        JoinRunsKeepsText(ts, pairs[0], sep);
        JoinPasses(step.value, pairs[1..], sep)
  }

  lemma PartsShorterThanJoin(ts: seq<string>, sep: string)
    ensures forall i :: 0 <= i < |ts| ==> |ts[i]| <= |Join(ts, sep)|
  {
    forall i | 0 <= i < |ts|
      ensures |ts[i]| <= |Join(ts, sep)|
    {
      PartShorterThanJoin(ts, i, sep);
    }
  }

  /**
    The elements of a list literal (hfclib.py:154-170): the outer list characters removed,
    the text split on `", "` and the three re-merge passes applied. Every element is shorter
    than the literal, which is what makes the conversion terminate.
   */
  function ListTokens(value: string): (r: Result<seq<string>>)
    requires IsListLiteral(value)
    ensures r.Ok? ==> forall i :: 0 <= i < |r.value| ==> |r.value[i]| < |value|
    ensures r.Err? ==> r.error == EmptyArgument || r.error == UnbalancedBracket
  {
    var body := ReplaceOutside(value, ListChars);
    var parts := Split(body, ListIndexSep);
    JoinSplit(body, ListIndexSep);
    var r := JoinPasses(parts, ListPasses, ListIndexSep);
    if r.Ok? then
      PartsShorterThanJoin(r.value, ListIndexSep);
      r
    else r
  }

  /**
    `_get_converted(value, line_num)`. The tests are tried in the library's order: list,
    quoted string, integer, float, false word, true word. Anything else is the syntax error
    that carries the line number; the other two errors come from the re-merge passes.
   */
  function Convert(value: string, line: int): (r: Result<Value>)
    ensures r.Err? ==> r.error == InvalidValue(line) || r.error == UnbalancedBracket || r.error == EmptyArgument
    decreases |value|, 1
  {
    if IsListLiteral(value) then
      var tokens := ListTokens(value);
      if tokens.Err? then Err(tokens.error)
      else
        var items := ConvertAll(tokens.value, line, |value|);
        if items.Err? then Err(items.error) else Ok(List(items.value))
    else if IsQuoted(value) then Ok(Str(RemoveAll(value, StringChar)))
    else if IsInteger(value) then Ok(Int(ParseInt(value)))
    else if IsFloat(value) then
      var k := DigitRun(value);
      Ok(Flt(value[..k], value[k + 1..]))
    else if value in BooleanFalse then Ok(Bool(false))
    else if value in BooleanTrue then Ok(Bool(true))
    else Err(InvalidValue(line))
  }

  /**
    The element loop of `_get_converted` (hfclib.py:173-174): each element trimmed and
    converted in order, the first failure propagating. `bound` is a length every element
    stays under.
   */
  function ConvertAll(ts: seq<string>, line: int, bound: nat): (r: Result<seq<Value>>)
    requires forall i :: 0 <= i < |ts| ==> |ts[i]| < bound
    ensures r.Ok? ==> |r.value| == |ts|
    ensures r.Ok? ==> forall i :: 0 <= i < |ts| ==> Convert(Trim(ts[i]), line) == Ok(r.value[i])
    ensures r.Err? ==> r.error == InvalidValue(line) || r.error == UnbalancedBracket || r.error == EmptyArgument
    decreases bound, 0, |ts|
  {
    if ts == [] then Ok([])
    else
      var head := Convert(Trim(ts[0]), line);
      if head.Err? then Err(head.error)
      else
        var tail := ConvertAll(ts[1..], line, bound);
        if tail.Err? then tail
        else
          assert forall i :: 1 <= i < |ts| ==> ts[i] == ts[1..][i - 1];
          Ok([head.value] + tail.value)
  }

  // ---------------------------------------------------------------------------------------
  // What a value reads as
  // ---------------------------------------------------------------------------------------

  /** A list literal that converts reads as the list of its elements, each trimmed and converted in order. */
  lemma ConvertListElements(value: string, line: int)
    requires IsListLiteral(value) && Convert(value, line).Ok?
    ensures ListTokens(value).Ok? && Convert(value, line).value.List?
    ensures var ts := ListTokens(value).value;
      var items := Convert(value, line).value.items;
      |items| == |ts| && forall i :: 0 <= i < |ts| ==> Convert(Trim(ts[i]), line) == Ok(items[i])
  {
  }

  /** `str(n)` reads back as the integer `n`. */
  lemma ConvertIntText(n: int, line: int)
    ensures Convert(IntToString(n), line) == Ok(Int(n))
  {
    var s := IntToString(n);
    assert IsDigit(s[0]) || s[0] == '-';
    IntRoundTrip(n);
  }

  /** Digits, a `.` or `,`, and digits read as a float with the separator normalised away. */
  lemma ConvertFloatText(i: string, sep: char, f: string, line: int)
    requires IsDigits(i) && IsDigits(f) && (sep == '.' || sep == ',')
    ensures Convert(i + [sep] + f, line) == Ok(Flt(i, f))
  {
    var v := i + [sep] + f;
    DigitRunOf(i, [sep] + f);
    assert v == i + ([sep] + f);
    assert v[|i|] == sep;
    assert v[..|i|] == i && v[|i| + 1..] == f;
    assert !IsInteger(v) by {
      if v[0] == '-' {
        assert IsDigit(i[0]);
      }
      assert !IsDigit(v[|i|]);
    }
  }

  lemma {:induction false} DigitRunOf(i: string, rest: string)
    requires AllDigits(i) && (rest == [] || !IsDigit(rest[0]))
    ensures DigitRun(i + rest) == |i|
    decreases |i|
  {
    if i != [] {
      assert (i + rest)[1..] == i[1..] + rest;
      DigitRunOf(i[1..], rest);
    }
  }

  /** Each word of the false vocabulary reads as False, each word of the true one as True. */
  lemma ConvertBooleanWords(w: string, line: int)
    ensures w in BooleanFalse ==> Convert(w, line) == Ok(Bool(false))
    ensures w in BooleanTrue ==> Convert(w, line) == Ok(Bool(true))
  {
    if w in BooleanFalse || w in BooleanTrue {
      assert 'a' <= w[0] <= 'z';
      WordIsNoLiteral(w, line);
    }
  }

  lemma WordIsNoLiteral(w: string, line: int)
    requires |w| > 0 && 'a' <= w[0] <= 'z'
    ensures Convert(w, line) == if w in BooleanFalse then Ok(Bool(false))
      else if w in BooleanTrue then Ok(Bool(true)) else Err(InvalidValue(line))
  {
    assert DigitRun(w) == 0;
  }

  /** A quoted text whose body has no quote or newline reads as that body. */
  lemma ConvertQuotedText(s: string, line: int)
    requires s != [] && '"' !in s && '\n' !in s
    ensures Convert("\"" + s + "\"", line) == Ok(Str(s))
  {
    var v := "\"" + s + "\"";
    assert v[1..|v| - 1] == s;
    assert !IsListLiteral(v);
    RemoveQuotesAround(s);
  }

  lemma RemoveQuotesAround(s: string)
    requires '"' !in s
    ensures RemoveAll("\"" + s + "\"", StringChar) == s
  {
    var v := "\"" + s + "\"";
    FindIs(v, StringChar, 0);
    assert v[..0] == "" && v[1..] == s + StringChar;
    SepFreeWithoutFirstChar(s, StringChar);
    assert (s + StringChar)[..|s|] == s;
    assert (s + StringChar)[|s| + 1..] == "";
    assert Split(s + StringChar, StringChar) == [s] + Split("", StringChar);
    var parts := Split(v, StringChar);
    assert parts == ["", s, ""];
    assert parts[1..] == [s, ""] && parts[1..][1..] == [""];
    assert Join(parts[1..][1..], "") == "";
    assert Join(parts[1..], "") == s + "" + "";
    assert Join(parts, "") == "" + "" + Join(parts[1..], "");
    assert "" + "" + (s + "" + "") == s;
  }

  /** Removing the quotes of `"a"b"` leaves `ab`. */
  lemma InnerQuotesText()
    ensures RemoveAll("\"a\"b\"", StringChar) == "ab"
  {
    var q := StringChar;
    var parts := ["", "a", "b", ""];
    assert parts[1..] == ["a", "b", ""] && parts[1..][1..] == ["b", ""] && parts[1..][1..][1..] == [""];
    SepFreeWithoutFirstChar("", q);
    SepFreeWithoutFirstChar("a", q);
    SepFreeWithoutFirstChar("b", q);
    assert Join(["b", ""], q) == "b" + q;
    assert Join(["a", "b", ""], q) == "a" + q + "b" + q;
    assert Join(parts, q) == "\"a\"b\"";
    SplitJoin(parts, q);
    assert Join(["b", ""], "") == "b";
    assert Join(["a", "b", ""], "") == "ab";
    assert Join(parts, "") == "ab";
  }


  /** Every quote is removed, not only the outer pair. */
  lemma InnerQuotesRemoved(line: int)
    ensures Convert("\"a\"b\"", line) == Ok(Str("ab"))
  {
    var v := "\"a\"b\"";
    InnerQuotesText();
    assert v[1..|v| - 1] == "a\"b";
    assert !IsListLiteral(v) && IsQuoted(v);
  }

  /** `""` has no character between its quotes, so it is not a string and does not convert. */
  lemma EmptyQuotesFail(line: int)
    ensures Convert("\"\"", line) == Err(InvalidValue(line))
  {
  }

  /** An empty value (a declaration `name =`) is a syntax error on its line. */
  lemma EmptyValueFails(line: int)
    ensures Convert("", line) == Err(InvalidValue(line))
  {
  }

  /** An element list holding one empty token goes through the three passes unchanged. */
  lemma EmptyTokenPasses()
    ensures JoinPasses([""], ListPasses, ListIndexSep) == Ok([""])
  {
    JoinRunsUnchanged([""], ListPasses[0], ListIndexSep);
    JoinRunsUnchanged([""], ListPasses[1], ListIndexSep);
    JoinRunsUnchanged([""], ListPasses[2], ListIndexSep);
    assert JoinPasses([""], ListPasses[3..], ListIndexSep) == Ok([""]);
    assert JoinPasses([""], ListPasses[2..], ListIndexSep) == Ok([""]);
    assert JoinPasses([""], ListPasses[1..], ListIndexSep) == Ok([""]);
  }

  /** A single empty element does not convert. */
  lemma EmptyTokenFails(line: int, bound: nat)
    requires bound > 0
    ensures ConvertAll([""], line, bound) == Err(InvalidValue(line))
  {
    assert Trim("") == "";
    EmptyValueFails(line);
  }

  /** `(...)` and `[]` both leave the one empty element. */
  lemma EmptyBodyTokens(value: string)
    requires IsListLiteral(value) && (value[0] == '(' || value == "[]")
    ensures ListTokens(value) == Ok([""])
  {
    if value == "[]" {
      BracketedBodyKept("");
      assert "[" + "" + "]" == "[]";
    } else {
      NotBracketedEmptied(value);
    }
    assert Split("", ListIndexSep) == [""];
    EmptyTokenPasses();
  }

  /** A `(...)` list is emptied before it is split, and the empty element does not convert. */
  lemma ParenthesisedListFails(value: string, line: int)
    requires IsListLiteral(value) && value[0] == '('
    ensures Convert(value, line) == Err(InvalidValue(line))
  {
    EmptyBodyTokens(value);
    EmptyTokenFails(line, |value|);
  }

  /** `[]` is not an empty list: its one empty element does not convert. */
  lemma EmptyBracketsFail(line: int)
    ensures Convert("[]", line) == Err(InvalidValue(line))
  {
    EmptyBodyTokens("[]");
    EmptyTokenFails(line, 2);
  }

  /** The text of `["a]` between its brackets is one element. */
  lemma UnclosedQuoteBody()
    ensures Split(ReplaceOutside("[\"a]", ListChars), ListIndexSep) == ["\"a"]
  {
    var body := "\"a";
    BracketedBodyKept(body);
    assert "[" + body + "]" == "[\"a]";
    FindWithoutFirstChar(body, ListIndexSep);
  }

  /** The bracket passes leave `"a` alone; the string pass drops it. */
  lemma UnclosedQuotePasses()
    ensures JoinPasses(["\"a"], ListPasses, ListIndexSep) == Ok([])
  {
    var body := "\"a";
    assert !StartsWith(body, ListPasses[0][0]) && !StartsWith(body, ListPasses[1][0]) by {
      assert body[0] == '"';
    }
    JoinRunsUnchanged([body], ListPasses[0], ListIndexSep);
    JoinRunsUnchanged([body], ListPasses[1], ListIndexSep);
    OpenGroupAtStartDiscarded([body], ListPasses[2], ListIndexSep, 1);
    assert JoinPasses([body], ListPasses[2..], ListIndexSep) == Ok([]);
    assert JoinPasses([body], ListPasses[1..], ListIndexSep) == Ok([]);
  }

  lemma UnclosedQuoteTokens()
    ensures ListTokens("[\"a]") == Ok([])
  {
    UnclosedQuoteBody();
    UnclosedQuotePasses();
  }

  /**
    A quote opened in the first element and never closed opens a group at index 0 in the
    string pass, so its tokens are dropped instead of raising: `["a]` reads as an empty list.
   */
  lemma UnclosedQuoteDropped(line: int)
    ensures Convert("[\"a]", line) == Ok(List([]))
  {
    UnclosedQuoteTokens();
  }

  /**
    The text of a list element that goes through the list reader untouched: trimmed, on one
    line, without a comma, not opening a bracket group, and closing the quote it opens.
   */
  predicate ItemText(t: string) {
    t != [] && IsTrimmed(t) && ',' !in t && '\n' !in t
    && t[0] != '[' && t[0] != '(' && t[0] != ']' && t[0] != ')'
    && t[|t| - 1] != '(' && t[|t| - 1] != ')'
    && (t[0] == '"' ==> |t| >= 2 && t[|t| - 1] == '"')
  }

  /** `Convert` of each trimmed element, in order. */
  lemma {:induction false} ConvertAllOf(ts: seq<string>, vs: seq<Value>, line: int, bound: nat)
    requires |ts| == |vs| && forall i :: 0 <= i < |ts| ==> |ts[i]| < bound
    requires forall i :: 0 <= i < |ts| ==> Convert(Trim(ts[i]), line) == Ok(vs[i])
    ensures ConvertAll(ts, line, bound) == Ok(vs)
    decreases |ts|
  {
    if ts != [] {
      ConvertAllOf(ts[1..], vs[1..], line, bound);
      assert vs == [vs[0]] + vs[1..];
    }
  }

  /** A list literal whose elements convert reads as the list of their values. */
  lemma ConvertListOf(value: string, ts: seq<string>, vs: seq<Value>, line: int)
    requires IsListLiteral(value) && ListTokens(value) == Ok(ts) && |ts| == |vs|
    requires forall i :: 0 <= i < |ts| ==> Convert(Trim(ts[i]), line) == Ok(vs[i])
    ensures Convert(value, line) == Ok(List(vs))
  {
    ConvertAllOf(ts, vs, line, |value|);
  }

  lemma ItemTextEnds(t: string)
    requires ItemText(t)
    ensures !StartsWith(t, "[") && !StartsWith(t, "(")
    ensures StartsWith(t, StringChar) ==> EndsWith(t, StringChar)
    ensures t[0] !in "])(" && t[|t| - 1] !in "()"
  {
    if StartsWith(t, "[") || StartsWith(t, "(") || StartsWith(t, StringChar) {
      assert t[..1][0] == t[0];
    }
    if t[0] == '"' {
      assert t[|t| - 1..] == [t[|t| - 1]];
    }
    assert "])(" == [']', ')', '('] && "()" == ['(', ')'];
  }

  /** Three passes of which only the last changes the elements. */
  lemma ThreePasses(ts: seq<string>, us: seq<string>, a: seq<string>, b: seq<string>, c: seq<string>, sep: string)
    requires |a| == 2 && |b| == 2 && |c| == 2
    requires JoinRuns(ts, a, sep) == Ok(ts) && JoinRuns(ts, b, sep) == Ok(ts) && JoinRuns(ts, c, sep) == Ok(us)
    ensures JoinPasses(ts, [a, b, c], sep) == Ok(us)
  {
    assert [a, b, c][1..] == [b, c] && [b, c][1..] == [c] && [c][1..] == [];
    assert JoinPasses(us, [], sep) == Ok(us);
    assert JoinPasses(ts, [c], sep) == Ok(us);
    assert JoinPasses(ts, [b, c], sep) == Ok(us);
  }

  /** Texts that open no bracket group and close every quote they open pass unchanged. */
  lemma ItemsPass(ts: seq<string>)
    requires ts != []
    requires forall i :: 0 <= i < |ts| ==> !StartsWith(ts[i], "[") && !StartsWith(ts[i], "(")
    requires forall i :: 0 <= i < |ts| && StartsWith(ts[i], StringChar) ==> EndsWith(ts[i], StringChar)
    ensures JoinPasses(ts, ListPasses, ListIndexSep) == Ok(ts)
  {
    JoinRunsUnchanged(ts, ["[", "]"], ListIndexSep);
    JoinRunsUnchanged(ts, ["(", ")"], ListIndexSep);
    JoinRunsUnchanged(ts, [StringChar, StringChar], ListIndexSep);
    ThreePasses(ts, ts, ["[", "]"], ["(", ")"], [StringChar, StringChar], ListIndexSep);
  }

  /** `[` + the `", "`-join of element texts + `]` is a list literal. */
  lemma ItemsLiteral(ts: seq<string>)
    requires ts != [] && forall i :: 0 <= i < |ts| ==> ItemText(ts[i])
    ensures IsListLiteral("[" + Join(ts, ListIndexSep) + "]")
  {
    var body := Join(ts, ListIndexSep);
    var text := "[" + body + "]";
    JoinLacks(ts, ListIndexSep, '\n');
    assert text[1..|text| - 1] == body;
  }

  /** Removing the outer brackets leaves the joined element texts. */
  lemma ItemsBody(ts: seq<string>)
    requires ts != [] && forall i :: 0 <= i < |ts| ==> ts[i] != []
    requires ts[0][0] !in "])(" && ts[|ts| - 1][|ts[|ts| - 1]| - 1] !in "()"
    ensures ReplaceOutside("[" + Join(ts, ListIndexSep) + "]", ListChars) == Join(ts, ListIndexSep)
  {
    JoinEnds(ts, ListIndexSep);
    BracketedBodyKept(Join(ts, ListIndexSep));
  }

  /** Splitting the joined element texts on `", "` gives them back. */
  lemma ItemsSplit(ts: seq<string>)
    requires ts != [] && forall i :: 0 <= i < |ts| ==> ItemText(ts[i])
    ensures Split(Join(ts, ListIndexSep), ListIndexSep) == ts
  {
    forall i | 0 <= i < |ts|
      ensures SepFree(ts[i], ListIndexSep)
    {
      SepFreeWithoutFirstChar(ts[i], ListIndexSep);
    }
    SplitJoin(ts, ListIndexSep);
  }

  /** The elements of `[` + the `", "`-join of element texts + `]` are those texts. */
  lemma ItemsTokens(ts: seq<string>)
    requires ts != [] && forall i :: 0 <= i < |ts| ==> ItemText(ts[i])
    ensures IsListLiteral("[" + Join(ts, ListIndexSep) + "]")
    ensures ListTokens("[" + Join(ts, ListIndexSep) + "]") == Ok(ts)
  {
    ItemsLiteral(ts);
    forall i | 0 <= i < |ts|
      ensures ts[i] != [] && ts[i][0] !in "])(" && ts[i][|ts[i]| - 1] !in "()"
      ensures !StartsWith(ts[i], "[") && !StartsWith(ts[i], "(")
      ensures StartsWith(ts[i], StringChar) ==> EndsWith(ts[i], StringChar)
    {
      ItemTextEnds(ts[i]);
    }
    ItemsBody(ts);
    ItemsSplit(ts);
    ItemsPass(ts);
  }

  /** `["a, b"]` is split at the separator inside the quotes. */
  lemma QuotedSeparatorBody()
    ensures Split(ReplaceOutside("[\"a, b\"]", ListChars), ListIndexSep) == ["\"a", "b\""]
  {
    var parts := ["\"a", "b\""];
    var body := "\"a, b\"";
    assert Join(parts, ListIndexSep) == body;
    BracketedBodyKept(body);
    assert "[" + body + "]" == "[\"a, b\"]";
    SepFreeWithoutFirstChar(parts[0], ListIndexSep);
    SepFreeWithoutFirstChar(parts[1], ListIndexSep);
    SplitJoin(parts, ListIndexSep);
  }

  /** The bracket passes leave the two halves alone; the string pass joins them again. */
  lemma QuotedSeparatorPasses()
    ensures JoinPasses(["\"a", "b\""], ListPasses, ListIndexSep) == Ok(["\"a, b\""])
  {
    var parts := ["\"a", "b\""];
    assert forall i :: 0 <= i < |parts| ==> !StartsWith(parts[i], "[") && !StartsWith(parts[i], "(") by {
      assert parts[0][..1] == ['"'] && parts[1][..1] == ['b'];
    }
    JoinRunsUnchanged(parts, ["[", "]"], ListIndexSep);
    JoinRunsUnchanged(parts, ["(", ")"], ListIndexSep);
    FirstRunMerged(parts, [StringChar, StringChar], ListIndexSep, 0, 1);
    assert parts[0..2] == parts && Join(parts, ListIndexSep) == "\"a, b\"";
    assert Runs(parts, [StringChar, StringChar], ListIndexSep, 2) == Ok([]);
    assert parts[..0] + [Join(parts[0..2], ListIndexSep)] + [] == ["\"a, b\""];
    assert JoinRuns(parts, [StringChar, StringChar], ListIndexSep) == Ok(["\"a, b\""]);
    ThreePasses(parts, ["\"a, b\""], ["[", "]"], ["(", ")"], [StringChar, StringChar], ListIndexSep);
  }

  lemma QuotedSeparatorTokens()
    ensures ListTokens("[\"a, b\"]") == Ok(["\"a, b\""])
  {
    QuotedSeparatorBody();
    QuotedSeparatorPasses();
  }

  lemma QuotedSeparatorLiteral()
    ensures IsListLiteral("[\"a, b\"]")
  {
    var v := "[\"a, b\"]";
    assert v[1..|v| - 1] == ['"', 'a', ',', ' ', 'b', '"'];
  }

  /** A quoted element holding the separator `", "` is put back together as one string. */
  lemma QuotedSeparatorKept(line: int)
    ensures Convert("[\"a, b\"]", line) == Ok(List([Str("a, b")]))
  {
    QuotedSeparatorLiteral();
    QuotedSeparatorTokens();
    QuotedSeparatorItem(line);
    ConvertListOf("[\"a, b\"]", ["\"a, b\""], [Str("a, b")], line);
  }

  lemma QuotedSeparatorItem(line: int)
    ensures Convert(Trim("\"a, b\""), line) == Ok(Str("a, b"))
  {
    var t := "\"a, b\"";
    TrimTrimmed(t);
    assert t == "\"" + "a, b" + "\"";
    ConvertQuotedText("a, b", line);
  }
}
