/**
  Writing values and sections back as HFC text: `_convert_to_hfc` (hfclib.py:199-267) and
  the text that `parseList` lays out (hfclib.py:446-471).
 */
module Serializer {
  import opened Base
  import opened Strings
  import opened Numbers
  import opened Values
  import opened Converter

  /** The `parseList` arguments that reach `_convert_to_hfc`. */
  datatype Style = Style(listChar: seq<string>, boolFalse: string, boolTrue: string, floatSep: string)

  /** `parseList`'s defaults: `['[', ']']`, `"false"`, `"true"` and `"."`. */
  const DefaultStyle: Style := Style(["[", "]"], "false", "true", ".")

  /** `start_list`: the first list character, or nothing when there is none. */
  function ListStart(lc: seq<string>): string {
    if |lc| >= 1 then lc[0] else ""
  }

  /** `end_list`: the second list character, or nothing when there is none. */
  function ListEnd(lc: seq<string>): string {
    if |lc| >= 2 then lc[1] else ""
  }

  /**
    `_convert_to_hfc(v, ...)` followed by the f-string formatting that `parseList` and the
    list branch apply to its result. A list is checked only after all its elements were
    written, so an element's error comes first; the only errors are the three the function
    raises.
   */
  function Encode(v: Value, st: Style): (r: Result<string>)
    ensures r.Err? ==> r.error == InvalidListChars || r.error == InvalidBoolean || r.error == InvalidFloatSeparator
    ensures r.Ok? && v.List? ==> IsListLiteral(r.value)
    decreases v
  {
    match v
    case Str(s) => Ok(StringChar + s + StringChar)
    case Int(i) => Ok(IntToString(i))
    case Null => Ok("None")
    case Flt(i, f) =>
      if st.floatSep in AllFloatSeps then Ok(i + st.floatSep + f) else Err(InvalidFloatSeparator)
    case Bool(b) =>
      if b then
        if st.boolTrue in BooleanTrue then Ok(st.boolTrue) else Err(InvalidBoolean)
      else
        if st.boolFalse in BooleanFalse then Ok(st.boolTrue) else Err(InvalidBoolean)
    case List(items) =>
      var body := EncodeAll(items, st);
      if body.Err? then body
      else
        var text := ListStart(st.listChar) + body.value + ListEnd(st.listChar);
        if IsListLiteral(text) then Ok(text) else Err(InvalidListChars)
  }

  /** The elements of a list written in order and joined by `", "`; the first error wins. */
  function EncodeAll(items: seq<Value>, st: Style): (r: Result<string>)
    ensures r.Err? ==> r.error == InvalidListChars || r.error == InvalidBoolean || r.error == InvalidFloatSeparator
    ensures r.Err? ==> exists i :: 0 <= i < |items| && Encode(items[i], st) == Err(r.error)
    decreases items
  {
    if items == [] then Ok("")
    else
      var head := Encode(items[0], st);
      if head.Err? then head
      else
        var tail := EncodeAll(items[1..], st);
        if tail.Err? then
          assert forall i :: 0 <= i < |items[1..]| ==> items[1..][i] == items[i + 1];
          tail
        else if items[1..] == [] then head
        else Ok(head.value + ListIndexSep + tail.value)
  }

  /** `EncodeAll` is the `", "`-join of the elements' texts. */
  lemma {:induction false} EncodeAllJoin(items: seq<Value>, st: Style, encs: seq<string>)
    requires |encs| == |items|
    requires forall i :: 0 <= i < |items| ==> Encode(items[i], st) == Ok(encs[i])
    ensures EncodeAll(items, st) == Ok(Join(encs, ListIndexSep))
    decreases |items|
  {
    if items != [] {
      EncodeAllJoin(items[1..], st, encs[1..]);
    }
  }

  // ---------------------------------------------------------------------------------------
  // Layout
  // ---------------------------------------------------------------------------------------

  /** `sp`: one space when `spacing` is set, nothing otherwise. */
  function Space(spacing: bool): string {
    if spacing then " " else ""
  }

  /** `nl`: a newline when `newline_after_section` is set, nothing otherwise. */
  function Newline(newlineAfterSection: bool): string {
    if newlineAfterSection then "\n" else ""
  }

  /** The header written for a section (hfclib.py:463). */
  function HeaderText(name: string, sp: string, nl: string): string {
    nl + SectionSeparator + sp + name + sp + SectionSeparator + "\n" + nl
  }

  /** The line written for one variable (hfclib.py:471). */
  function VariableText(name: string, sp: string, enc: string): string {
    name + sp + VariableSeparator + sp + enc + "\n"
  }

  /** The variable lines of a section, in insertion order; the first error wins. */
  function RenderVars(vars: seq<Entry>, sp: string, st: Style): (r: Result<string>)
    ensures r.Err? ==> exists i :: 0 <= i < |vars| && Encode(vars[i].value, st) == Err(r.error)
    decreases |vars|
  {
    if vars == [] then Ok("")
    else
      var init := RenderVars(vars[..|vars| - 1], sp, st);
      var last := vars[|vars| - 1];
      if init.Err? then init
      else
        var enc := Encode(last.value, st);
        if enc.Err? then Err(enc.error)
        else Ok(init.value + VariableText(last.name, sp, enc.value))
  }

  /** A section's header followed by its variable lines. */
  function RenderSection(s: Section, sp: string, nl: string, st: Style): (r: Result<string>)
    ensures r.Ok? ==> StartsWith(r.value, HeaderText(s.name, sp, nl))
  {
    var vars := RenderVars(s.vars, sp, st);
    if vars.Err? then vars else Ok(HeaderText(s.name, sp, nl) + vars.value)
  }

  /**
    The text `parseList` builds from sections that are already cleared: the sections in
    list order; the first value that cannot be written stops it.
   */
  function RenderSections(secs: seq<Section>, sp: string, nl: string, st: Style): (r: Result<string>)
    ensures r.Err? ==> exists i, j :: 0 <= i < |secs| && 0 <= j < |secs[i].vars| && Encode(secs[i].vars[j].value, st) == Err(r.error)
    decreases |secs|
  {
    if secs == [] then Ok("")
    else
      var init := RenderSections(secs[..|secs| - 1], sp, nl, st);
      if init.Err? then init
      else
        var last := RenderSection(secs[|secs| - 1], sp, nl, st);
        if last.Err? then last else Ok(init.value + last.value)
  }

  /** Once a variable line fails, the lines after it do not change the error. */
  lemma {:induction false} RenderVarsErrorStays(vars: seq<Entry>, n: nat, sp: string, st: Style)
    requires n <= |vars| && RenderVars(vars[..n], sp, st).Err?
    ensures RenderVars(vars, sp, st) == RenderVars(vars[..n], sp, st)
    decreases |vars|
  {
    if n < |vars| {
      var init := vars[..|vars| - 1];
      assert init[..n] == vars[..n];
      RenderVarsErrorStays(init, n, sp, st);
    } else {
      assert vars[..n] == vars;
    }
  }

  /** Once a section fails, the sections after it do not change the error. */
  lemma {:induction false} RenderSectionsErrorStays(secs: seq<Section>, n: nat, sp: string, nl: string, st: Style)
    requires n <= |secs| && RenderSections(secs[..n], sp, nl, st).Err?
    ensures RenderSections(secs, sp, nl, st) == RenderSections(secs[..n], sp, nl, st)
    decreases |secs|
  {
    if n < |secs| {
      var init := secs[..|secs| - 1];
      assert init[..n] == secs[..n];
      RenderSectionsErrorStays(init, n, sp, nl, st);
    } else {
      assert secs[..n] == secs;
    }
  }

  /** Rendering one more section: its header and lines follow, or its error is the result. */
  lemma RenderSectionsStep(secs: seq<Section>, k: nat, text: string, sp: string, nl: string, st: Style)
    requires k < |secs| && RenderSections(secs[..k], sp, nl, st) == Ok(text)
    ensures RenderVars(secs[k].vars, sp, st).Err? ==>
      RenderSections(secs, sp, nl, st) == RenderVars(secs[k].vars, sp, st)
    ensures RenderVars(secs[k].vars, sp, st).Ok? ==>
      RenderSections(secs[..k + 1], sp, nl, st) == Ok(text + (HeaderText(secs[k].name, sp, nl) + RenderVars(secs[k].vars, sp, st).value))
  {
    assert secs[..k + 1][..k] == secs[..k];
    if RenderVars(secs[k].vars, sp, st).Err? {
      RenderSectionsErrorStays(secs, k + 1, sp, nl, st);
    }
  }

  // ---------------------------------------------------------------------------------------
  // What the written values read back as
  // ---------------------------------------------------------------------------------------

  /** False is written as the true word whenever the false word is valid. */
  lemma FalseWrittenAsTrueWord(st: Style)
    requires st.boolFalse in BooleanFalse
    ensures Encode(Bool(false), st) == Ok(st.boolTrue)
    ensures st.boolTrue in BooleanTrue ==> Convert(Encode(Bool(false), st).value, 0) == Ok(Bool(true))
  {
    ConvertBooleanWords(st.boolTrue, 0);
  }

  /** `None` is written as the text `None`, which does not read back as a value. */
  lemma NullWrittenAsNone(st: Style, line: int)
    ensures Encode(Null, st) == Ok("None")
    ensures Convert("None", line) == Err(InvalidValue(line))
  {
    assert DigitRun("None") == 0;
  }

  /** A list whose first list character does not begin with `[` or `(` is refused. */
  lemma ListCharsChecked(items: seq<Value>, st: Style)
    requires |st.listChar| >= 1 && |st.listChar[0]| >= 1 && st.listChar[0][0] != '[' && st.listChar[0][0] != '('
    ensures Encode(List(items), st).Err?
  {
    var body := EncodeAll(items, st);
    if body.Ok? {
      var text := ListStart(st.listChar) + body.value + ListEnd(st.listChar);
      assert text[0] == st.listChar[0][0];
    }
  }

  /** Writing a string and reading it back gives the string, when it has no quote or newline. */
  lemma StringRoundTrip(s: string, st: Style, line: int)
    requires s != [] && '"' !in s && '\n' !in s
    ensures Convert(Encode(Str(s), st).value, line) == Ok(Str(s))
  {
    ConvertQuotedText(s, line);
  }

  lemma IntRoundTripText(n: int, st: Style, line: int)
    ensures Convert(Encode(Int(n), st).value, line) == Ok(Int(n))
  {
    ConvertIntText(n, line);
  }

  /** Digit strings survive writing with either valid separator and reading back. */
  lemma FloatRoundTrip(i: string, f: string, st: Style, line: int)
    requires IsDigits(i) && IsDigits(f) && st.floatSep in AllFloatSeps
    ensures Encode(Flt(i, f), st).Ok?
    ensures Convert(Encode(Flt(i, f), st).value, line) == Ok(Flt(i, f))
  {
    var sep := st.floatSep[0];
    assert st.floatSep == [sep];
    ConvertFloatText(i, sep, f, line);
  }

  lemma TrueRoundTrip(st: Style, line: int)
    requires st.boolTrue in BooleanTrue
    ensures Convert(Encode(Bool(true), st).value, line) == Ok(Bool(true))
  {
    ConvertBooleanWords(st.boolTrue, line);
  }

  /** String contents that survive: no quote, comma, `=`, newline, `>`, `/` or `#`. */
  predicate PlainText(s: string) {
    s != [] && '"' !in s && ',' !in s && LineSafe(s)
  }

  /**
    A value that is not a list and reads back as itself: a plain string, any integer, a
    float of digit strings, or True. False is written as the true word and `None` does not
    read back.
   */
  predicate Scalar(v: Value) {
    match v
    case Str(s) => PlainText(s)
    case Int(_) => true
    case Flt(i, f) => IsDigits(i) && IsDigits(f)
    case Bool(b) => b
    case List(_) => false
    case Null => false
  }

  /** A scalar, or a non-empty list of scalars: `[]` does not read back as a list. */
  predicate Writable(v: Value) {
    Scalar(v) || (v.List? && v.items != [] && forall i :: 0 <= i < |v.items| ==> Scalar(v.items[i]))
  }

  lemma StrItem(s: string, line: int)
    requires PlainText(s)
    ensures ItemText(StringChar + s + StringChar) && LineSafe(StringChar + s + StringChar)
    ensures Convert(StringChar + s + StringChar, line) == Ok(Str(s))
  {
    var t := StringChar + s + StringChar;
    assert t[0] == '"' && t[|t| - 1] == '"';
    assert forall c :: c in t ==> c == '"' || c in s;
    ConvertQuotedText(s, line);
  }

  lemma IntItem(n: int, line: int)
    ensures ItemText(IntToString(n)) && LineSafe(IntToString(n))
    ensures Convert(IntToString(n), line) == Ok(Int(n))
  {
    var t := IntToString(n);
    assert forall c :: c in t ==> IsDigit(c) || c == '-';
    ConvertIntText(n, line);
  }

  lemma FltItem(i: string, f: string, line: int)
    requires IsDigits(i) && IsDigits(f)
    ensures ItemText(i + "." + f) && LineSafe(i + "." + f)
    ensures Convert(i + "." + f, line) == Ok(Flt(i, f))
  {
    var t := i + "." + f;
    assert t[0] == i[0] && t[|t| - 1] == f[|f| - 1];
    assert forall c :: c in t ==> IsDigit(c) || c == '.';
    assert t == i + ['.'] + f;
    ConvertFloatText(i, '.', f, line);
  }

  lemma TrueItem(line: int)
    ensures ItemText("true") && LineSafe("true")
    ensures Convert("true", line) == Ok(Bool(true))
  {
    ConvertBooleanWords("true", line);
  }

  /** A scalar is written as an element text that reads back as the scalar. */
  lemma ScalarWritten(v: Value, line: int)
    requires Scalar(v)
    ensures Encode(v, DefaultStyle).Ok?
    ensures ItemText(Encode(v, DefaultStyle).value) && LineSafe(Encode(v, DefaultStyle).value)
    ensures Convert(Encode(v, DefaultStyle).value, line) == Ok(v)
  {
    match v
    case Str(s) =>
      assert Encode(v, DefaultStyle) == Ok(StringChar + s + StringChar);
      StrItem(s, line);
    case Int(n) =>
      assert Encode(v, DefaultStyle) == Ok(IntToString(n));
      IntItem(n, line);
    case Flt(i, f) =>
      assert Encode(v, DefaultStyle) == Ok(i + "." + f);
      FltItem(i, f, line);
    case Bool(_) =>
      assert Encode(v, DefaultStyle) == Ok("true");
      TrueItem(line);
  }

  /** An element of a list of scalars, written and trimmed, reads back as itself. */
  lemma ItemWritten(v: Value, line: int)
    requires Scalar(v)
    ensures Encode(v, DefaultStyle).Ok?
    ensures ItemText(Encode(v, DefaultStyle).value) && LineSafe(Encode(v, DefaultStyle).value)
    ensures Convert(Trim(Encode(v, DefaultStyle).value), line) == Ok(v)
  {
    ScalarWritten(v, line);
    TrimTrimmed(Encode(v, DefaultStyle).value);
  }

  /** A list is written as `[`, its element texts joined by `", "`, and `]`. */
  lemma ListEncoded(items: seq<Value>, ts: seq<string>)
    requires items != [] && |ts| == |items|
    requires forall i :: 0 <= i < |ts| ==> Encode(items[i], DefaultStyle) == Ok(ts[i]) && ItemText(ts[i])
    ensures Encode(List(items), DefaultStyle) == Ok("[" + Join(ts, ListIndexSep) + "]")
  {
    EncodeAllJoin(items, DefaultStyle, ts);
    ItemsLiteral(ts);
  }

  /** The element texts of a list of scalars, and the list literal written from them. */
  lemma ListText(items: seq<Value>, line: int) returns (ts: seq<string>)
    requires items != [] && forall i :: 0 <= i < |items| ==> Scalar(items[i])
    ensures |ts| == |items|
    ensures forall i :: 0 <= i < |ts| ==> ItemText(ts[i]) && LineSafe(ts[i])
    ensures forall i :: 0 <= i < |ts| ==> Convert(Trim(ts[i]), line) == Ok(items[i])
    ensures Encode(List(items), DefaultStyle) == Ok("[" + Join(ts, ListIndexSep) + "]")
  {
    forall i | 0 <= i < |items|
      ensures Encode(items[i], DefaultStyle).Ok?
      ensures ItemText(Encode(items[i], DefaultStyle).value) && LineSafe(Encode(items[i], DefaultStyle).value)
      ensures Convert(Trim(Encode(items[i], DefaultStyle).value), line) == Ok(items[i])
    {
      ItemWritten(items[i], line);
    }
    ts := seq(|items|, i requires 0 <= i < |items| => Encode(items[i], DefaultStyle).value);
    ListEncoded(items, ts);
  }

  /**
    A non-empty list of scalars is written as `[` + its element texts joined by `", "` +
    `]`, which reads back as the same list.
   */
  lemma ListRoundTrip(items: seq<Value>, line: int)
    requires items != [] && forall i :: 0 <= i < |items| ==> Scalar(items[i])
    ensures Encode(List(items), DefaultStyle).Ok?
    ensures Convert(Encode(List(items), DefaultStyle).value, line) == Ok(List(items))
  {
    var ts := ListText(items, line);
    ItemsTokens(ts);
    ConvertListOf("[" + Join(ts, ListIndexSep) + "]", ts, items, line);
  }

  /** Every writable value is written as a trimmed text, safe on a line, that reads back as it. */
  lemma ValueRoundTrip(v: Value, line: int)
    requires Writable(v)
    ensures Encode(v, DefaultStyle).Ok?
    ensures var t := Encode(v, DefaultStyle).value; t != [] && IsTrimmed(t) && LineSafe(t)
    ensures Convert(Encode(v, DefaultStyle).value, line) == Ok(v)
  {
    if Scalar(v) {
      ScalarWritten(v, line);
    } else {
      ListRoundTrip(v.items, line);
      ListLineSafe(v.items, line);
    }
  }

  /** A written list of scalars is a non-empty, trimmed text that is safe on a line. */
  lemma ListLineSafe(items: seq<Value>, line: int)
    requires items != [] && forall i :: 0 <= i < |items| ==> Scalar(items[i])
    ensures Encode(List(items), DefaultStyle).Ok?
    ensures var t := Encode(List(items), DefaultStyle).value; t != [] && IsTrimmed(t) && LineSafe(t)
  {
    var ts := ListText(items, line);
    JoinLacks(ts, ListIndexSep, '=');
    JoinLacks(ts, ListIndexSep, '\n');
    JoinLacks(ts, ListIndexSep, '>');
    JoinLacks(ts, ListIndexSep, '/');
    JoinLacks(ts, ListIndexSep, '#');
  }
}
