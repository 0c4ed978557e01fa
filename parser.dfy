/**
  Reading HFC text into sections: `parseHfc` on its `hfc_text` path (hfclib.py:330-415).

  The text is split on newlines. A line matching `^==.+==$` opens a new section named by
  the line with every `==` removed and the rest trimmed. Independently of that, every line
  is split on `=`; each piece is cut at `->`, `//` and `#` in turn and trimmed, and a
  non-empty first piece declares a variable of the latest section: a bare name gets `None`,
  otherwise the second piece is converted and stored, replacing an earlier variable of the
  same name.
 */
module Parser {
  import opened Base
  import opened Strings
  import opened Values
  import opened Converter

  /** `^==.+==$` (hfclib.py:18): at least one character between the two separators. */
  predicate IsHeader(line: string) {
    |line| >= 5 && StartsWith(line, SectionSeparator) && EndsWith(line, SectionSeparator)
    && '\n' !in line[2..|line| - 2]
  }

  /** The section name of a header line (hfclib.py:364): all `==` removed, then trimmed. */
  function HeaderName(line: string): string {
    Trim(RemoveAll(line, SectionSeparator))
  }

  /** The section name a line contributes: one for a header line, none otherwise. */
  function HeaderOf(line: string): seq<string> {
    if IsHeader(line) then [HeaderName(line)] else []
  }

  /** Cut `d` at the first occurrence of each marker, one marker after the other. */
  function CutAll(d: string, markers: seq<string>): (r: string)
    requires forall i :: 0 <= i < |markers| ==> markers[i] != []
    ensures StartsWith(d, r)
    decreases |markers|
  {
    if markers == [] then d
    else
      var c := CutAt(d, markers[0]);
      var r := CutAll(c, markers[1..]);
      assert d[..|c|] == c && c[..|r|] == r;
      r
  }

  /** One declaration piece with its comment cut off and trimmed (hfclib.py:378-385). */
  function Declaration(d: string): (r: string)
    ensures IsTrimmed(r) && |r| <= |d|
  {
    Trim(CutAll(d, CommentChars))
  }

  /** The list `variable` built for a line: the trimmed pieces between `=` signs. */
  function Pieces(line: string): (v: seq<string>)
    ensures |v| == |Split(line, VariableSeparator)| >= 1
    ensures forall i :: 0 <= i < |v| ==> v[i] == Declaration(Split(line, VariableSeparator)[i])
  {
    var raw := Split(line, VariableSeparator);
    seq(|raw|, i requires 0 <= i < |raw| => Declaration(raw[i]))
  }

  /** `parsed[list_index][section_name][name] = v` on the latest section. */
  function SetLast(parsed: seq<Section>, name: string, v: Value): seq<Section>
    requires parsed != []
  {
    var last := parsed[|parsed| - 1];
    parsed[|parsed| - 1 := Section(last.name, PutVar(last.vars, name, v))]
  }

  /** What every parsed list satisfies: named sections whose variable names are unique. */
  predicate Parsed(secs: seq<Section>) {
    forall i :: 0 <= i < |secs| ==> secs[i].name != [] && UniqueKeys(secs[i].vars)
  }

  lemma SetLastKeeps(parsed: seq<Section>, name: string, v: Value)
    requires parsed != []
    ensures Names(SetLast(parsed, name, v)) == Names(parsed)
    ensures Parsed(parsed) ==> Parsed(SetLast(parsed, name, v))
  {
    if Parsed(parsed) {
      PutVarUnique(parsed[|parsed| - 1].vars, name, v);
    }
  }

  /** The header part of one line (hfclib.py:359-371): a header line appends a new section. */
  function OpenSection(parsed: seq<Section>, line: string, num: int): (r: Result<seq<Section>>)
    ensures r.Err? ==> IsHeader(line) && r.error == InvalidSectionName(num)
    ensures r.Ok? ==> Names(r.value) == Names(parsed) + HeaderOf(line)
    ensures r.Ok? && Parsed(parsed) ==> Parsed(r.value)
  {
    if !IsHeader(line) then Ok(parsed)
    else if IsBlank(HeaderName(line)) then Err(InvalidSectionName(num))
    else
      var r := parsed + [Section(HeaderName(line), [])];
      assert Names(r) == Names(parsed) + [HeaderName(line)];
      Ok(r)
  }

  /**
    The declaration part of one line (hfclib.py:387-404), given the pieces `v` of the line:
    a non-empty first piece is a variable of the latest section.
   */
  function DeclarePieces(p: seq<Section>, v: seq<string>, num: int): (r: Result<seq<Section>>)
    requires |v| >= 1
    ensures r.Err? ==> (r.error.HasLine() && r.error.line == num) || r.error == UnbalancedBracket || r.error == EmptyArgument
    ensures r.Ok? ==> Names(r.value) == Names(p)
    ensures r.Ok? && Parsed(p) ==> Parsed(r.value)
  {
    if v[0] == "" then Ok(p)
    else if IsBlank(v[0]) then Err(InvalidVariableName(num))
    else if p == [] then Err(OutsideSection(num))
    else if |v| <= 1 then
      SetLastKeeps(p, v[0], Null);
      Ok(SetLast(p, v[0], Null))
    else
      var x := Convert(v[1], num);
      if x.Err? then Err(x.error)
      else
        SetLastKeeps(p, v[0], x.value);
        Ok(SetLast(p, v[0], x.value))
  }

  /**
    The declaration part of one line (hfclib.py:374-404) on the list `p` that the header
    part left.
   */
  function Declare(p: seq<Section>, line: string, num: int): (r: Result<seq<Section>>)
    ensures r.Err? ==> (r.error.HasLine() && r.error.line == num) || r.error == UnbalancedBracket || r.error == EmptyArgument
    ensures r.Ok? ==> Names(r.value) == Names(p)
    ensures r.Ok? && Parsed(p) ==> Parsed(r.value)
  {
    DeclarePieces(p, Pieces(line), num)
  }

  /**
    One line of the loop (hfclib.py:349-404) applied to the list parsed so far; `num` is the
    1-based line number. The syntax errors carry `num`; a value can also fail in the
    re-merge passes.
   */
  function ParseLine(parsed: seq<Section>, line: string, num: int): (r: Result<seq<Section>>)
    ensures r.Err? ==> (r.error.HasLine() && r.error.line == num) || r.error == UnbalancedBracket || r.error == EmptyArgument
    ensures r.Ok? ==> Names(r.value) == Names(parsed) + HeaderOf(line)
    ensures r.Ok? && Parsed(parsed) ==> Parsed(r.value)
  {
    var p := OpenSection(parsed, line, num);
    if p.Err? then p else Declare(p.value, line, num)
  }

  /** What `f` gives for each line from line `i` on, in order. */
  function Collect(f: string -> seq<string>, lines: seq<string>, i: nat): seq<string>
    requires i <= |lines|
    decreases |lines| - i
  {
    if i == |lines| then []
    else f(lines[i]) + Collect(f, lines, i + 1)
  }

  /** The names of the header lines from line `i` on, in order. */
  function HeaderNames(lines: seq<string>, i: nat): seq<string>
    requires i <= |lines|
  {
    Collect(HeaderOf, lines, i)
  }

  /** A reading of one line: the list so far, the line and its 1-based number. */
  type LineStep = (seq<Section>, string, int) -> Result<seq<Section>>

  /** The loop from line `i` on with a given line step: the first failing line stops it. */
  function Run(step: LineStep, lines: seq<string>, i: nat, parsed: seq<Section>): (r: Result<seq<Section>>)
    requires i <= |lines|
    decreases |lines| - i
  {
    if i == |lines| then Ok(parsed)
    else
      var next := step(parsed, lines[i], i + 1);
      if next.Err? then next else Run(step, lines, i + 1, next.value)
  }

  /** The errors a line can stop the loop with. */
  predicate LineError(e: Error) {
    e.HasLine() || e == UnbalancedBracket || e == EmptyArgument
  }

  /** A loop fails only with an error one of its steps can fail with. */
  lemma {:induction false} RunErrorKind(step: LineStep, lines: seq<string>, i: nat, parsed: seq<Section>)
    requires i <= |lines|
    requires forall p, l, n :: step(p, l, n).Err? ==> LineError(step(p, l, n).error)
    ensures Run(step, lines, i, parsed).Err? ==> LineError(Run(step, lines, i, parsed).error)
    decreases |lines| - i
  {
    if i < |lines| && step(parsed, lines[i], i + 1).Ok? {
      RunErrorKind(step, lines, i + 1, step(parsed, lines[i], i + 1).value);
    }
  }

  /** A step that appends `f(line)` to the section names does so over the whole loop. */
  lemma {:induction false} RunNames(step: LineStep, f: string -> seq<string>, lines: seq<string>, i: nat, parsed: seq<Section>)
    requires i <= |lines| && Run(step, lines, i, parsed).Ok?
    requires forall p, l, n :: step(p, l, n).Ok? ==> Names(step(p, l, n).value) == Names(p) + f(l)
    ensures Names(Run(step, lines, i, parsed).value) == Names(parsed) + Collect(f, lines, i)
    decreases |lines| - i
  {
    if i == |lines| {
      assert Names(parsed) + [] == Names(parsed);
    } else {
      var next := step(parsed, lines[i], i + 1).value;
      RunNames(step, f, lines, i + 1, next);
      var a, b, c := Names(parsed), f(lines[i]), Collect(f, lines, i + 1);
      assert (a + b) + c == a + (b + c);
    }
  }

  /** The loop from line `i` on: the first failing line stops it. */
  function ParseFrom(lines: seq<string>, i: nat, parsed: seq<Section>): (r: Result<seq<Section>>)
    requires i <= |lines|
    ensures r.Err? ==> LineError(r.error)
  {
    RunErrorKind(ParseLine, lines, i, parsed);
    Run(ParseLine, lines, i, parsed)
  }

  /** On success the sections added are exactly the header lines, in order and named by them. */
  lemma ParseFromNames(lines: seq<string>, i: nat, parsed: seq<Section>)
    requires i <= |lines| && ParseFrom(lines, i, parsed).Ok?
    ensures Names(ParseFrom(lines, i, parsed).value) == Names(parsed) + HeaderNames(lines, i)
  {
    RunNames(ParseLine, HeaderOf, lines, i, parsed);
  }

  /** A step that keeps lists `Parsed` keeps them so over the whole loop. */
  lemma {:induction false} RunParsed(step: LineStep, lines: seq<string>, i: nat, parsed: seq<Section>)
    requires i <= |lines| && Run(step, lines, i, parsed).Ok? && Parsed(parsed)
    requires forall p, l, n :: step(p, l, n).Ok? && Parsed(p) ==> Parsed(step(p, l, n).value)
    ensures Parsed(Run(step, lines, i, parsed).value)
    decreases |lines| - i
  {
    if i < |lines| {
      RunParsed(step, lines, i + 1, step(parsed, lines[i], i + 1).value);
    }
  }

  /** When every step's syntax error names the line it read, so does the loop's. */
  lemma {:induction false} RunErrorLine(step: LineStep, lines: seq<string>, i: nat, parsed: seq<Section>)
    requires i <= |lines| && Run(step, lines, i, parsed).Err? && Run(step, lines, i, parsed).error.HasLine()
    requires forall p, l, n :: step(p, l, n).Err? && step(p, l, n).error.HasLine() ==> step(p, l, n).error.line == n
    ensures i < Run(step, lines, i, parsed).error.line <= |lines|
    decreases |lines| - i
  {
    var next := step(parsed, lines[i], i + 1);
    if next.Ok? {
      RunErrorLine(step, lines, i + 1, next.value);
    }
  }

  /** Every section of a parsed list is named and has unique variable names. */
  lemma ParseFromParsed(lines: seq<string>, i: nat, parsed: seq<Section>)
    requires i <= |lines| && ParseFrom(lines, i, parsed).Ok? && Parsed(parsed)
    ensures Parsed(ParseFrom(lines, i, parsed).value)
  {
    RunParsed(ParseLine, lines, i, parsed);
  }

  /** A syntax error names a line that was read: one of lines `i + 1` to `|lines|`. */
  lemma ParseFromErrorLine(lines: seq<string>, i: nat, parsed: seq<Section>)
    requires i <= |lines|
    requires ParseFrom(lines, i, parsed).Err? && ParseFrom(lines, i, parsed).error.HasLine()
    ensures i < ParseFrom(lines, i, parsed).error.line <= |lines|
  {
    RunErrorLine(ParseLine, lines, i, parsed);
  }

  /**
    `parseHfc(hfc_text=text)`: an empty text is "Nothing to do"; otherwise the lines are
    read in order from an empty list.
   */
  function ParseText(text: string): (r: Result<seq<Section>>)
    ensures text == "" <==> r == Err(NothingToDo)
  {
    if text == "" then Err(NothingToDo) else ParseFrom(Split(text, "\n"), 0, [])
  }

  /**
    The parsed list has one section per header line, named by it and in order, every
    section named and free of duplicate variables; a syntax error carries the number of
    one of the text's lines.
   */
  lemma ParseTextShape(text: string)
    ensures ParseText(text).Ok? ==> Names(ParseText(text).value) == HeaderNames(Split(text, "\n"), 0)
    ensures ParseText(text).Ok? ==> Parsed(ParseText(text).value)
    ensures ParseText(text).Err? && ParseText(text).error.HasLine() ==> 1 <= ParseText(text).error.line <= |Split(text, "\n")|
  {
    if text != "" {
      var lines := Split(text, "\n");
      if ParseFrom(lines, 0, []).Ok? {
        ParseFromNames(lines, 0, []);
        ParseFromParsed(lines, 0, []);
      } else if ParseFrom(lines, 0, []).error.HasLine() {
        ParseFromErrorLine(lines, 0, []);
      }
    }
  }

  // ---------------------------------------------------------------------------------------
  // Comments inside a piece
  // ---------------------------------------------------------------------------------------

  /** No character that can start a comment marker. */
  predicate NoMarkerChar(s: string) {
    '-' !in s && '/' !in s && '#' !in s
  }

  /** A piece without marker characters is only trimmed. */
  lemma DeclarationOfPlain(d: string)
    requires NoMarkerChar(d)
    ensures Declaration(d) == Trim(d)
  {
    FindWithoutFirstChar(d, "->");
    FindWithoutFirstChar(d, "//");
    FindWithoutFirstChar(d, "#");
    assert CommentChars[1..] == ["//", "#"] && CommentChars[1..][1..] == ["#"];
    assert CutAll(d, ["#"]) == d;
  }

  /** Whatever follows a comment marker in a piece is cut off, whichever marker it is. */
  lemma CutAllComment(x: string, m: string, c: string)
    requires NoMarkerChar(x) && m in CommentChars
    ensures CutAll(x + m + c, CommentChars) == x
  {
    var s := x + m + c;
    var k := |x| + |m|;
    assert s[..k] == x + m;
    assert CommentChars[1..] == ["//", "#"] && CommentChars[1..][1..] == ["#"];
    if m == "->" {
      FindAfter(x, "->", c);
      assert s[..|x|] == x;
      assert CutAt(s, "->") == x;
      FindWithoutFirstChar(x, "//");
      FindWithoutFirstChar(x, "#");
      assert CutAll(x, ["#"]) == x;
      assert CutAll(x, CommentChars[1..]) == x;
    } else {
      CutAtKeeps(s, "->", k);
      var c1 := CutAt(s, "->");
      assert c1 == x + m + c1[k..];
      if m == "//" {
        FindAfter(x, "//", c1[k..]);
        assert c1[..|x|] == x;
        assert CutAt(c1, "//") == x;
        FindWithoutFirstChar(x, "#");
        assert CutAll(x, ["#"]) == x;
        assert CutAll(c1, CommentChars[1..]) == x;
      } else {
        CutAtKeeps(c1, "//", k);
        var c2 := CutAt(c1, "//");
        assert c2 == x + m + c2[k..];
        FindAfter(x, "#", c2[k..]);
        assert c2[..|x|] == x;
        assert CutAt(c2, "#") == x;
        assert CutAll(c2, ["#"]) == x;
        assert CutAll(c1, CommentChars[1..]) == x;
      }
    }
  }

  /** The first piece of a split is the text up to the first separator. */
  lemma SplitHead(s: string, sep: string)
    requires sep != []
    ensures Split(s, sep)[0] == CutAt(s, sep)
  {
  }

  /** `n = w`, with no `=` in `n` or `w`, splits into exactly these two pieces. */
  lemma SplitAssignment(n: string, w: string)
    requires '=' !in n && '=' !in w
    ensures Split(n + "=" + w, "=") == [n, w]
  {
    SepFreeWithoutFirstChar(n, "=");
    SepFreeWithoutFirstChar(w, "=");
    SplitJoin([n, w], "=");
    assert Join([n, w][1..], "=") == w;
  }

  // ---------------------------------------------------------------------------------------
  // What single lines do
  // ---------------------------------------------------------------------------------------

  /** A header line with a name opens an empty section and declares nothing. */
  lemma HeaderLineOpensSection(p: seq<Section>, line: string, num: int)
    requires IsHeader(line) && !IsBlank(HeaderName(line))
    ensures ParseLine(p, line, num) == Ok(p + [Section(HeaderName(line), [])])
  {
    assert line[0..1] == "=" by {
      assert line[..2] == SectionSeparator;
    }
    FindIs(line, "=", 0);
    DeclarationOfPlain("");
    assert Pieces(line)[0] == Declaration("");
  }

  /** A header line whose name is blank is a syntax error carrying the line number. */
  lemma BlankHeaderFails(p: seq<Section>, line: string, num: int)
    requires IsHeader(line) && IsBlank(HeaderName(line))
    ensures ParseLine(p, line, num) == Err(InvalidSectionName(num))
  {
  }

  /** A declaration before the first header is a syntax error carrying the line number. */
  lemma VariableOutsideSection(line: string, num: int)
    requires !IsHeader(line) && Pieces(line)[0] != ""
    ensures ParseLine([], line, num) == Err(OutsideSection(num))
  {
    var d := Pieces(line)[0];
    assert !IsSpace(d[0]);
  }

  /** A line starting with a comment marker adds nothing, although the skip loop skips nothing. */
  lemma CommentLineIgnored(p: seq<Section>, m: string, c: string, num: int)
    requires m in CommentChars
    ensures ParseLine(p, m + c, num) == Ok(p)
  {
    var line := m + c;
    assert !IsHeader(line) by {
      assert line[0] == m[0];
    }
    assert Pieces(line)[0] == "" by {
      SplitHead(line, "=");
      CutAtKeeps(line, "=", |m|);
      var head := CutAt(line, "=");
      assert head == "" + m + head[|m|..];
      CutAllComment("", m, head[|m|..]);
      assert Pieces(line)[0] == Trim("");
    }
  }

  /** A bare name, spaces around it allowed, stores `None` in the latest section. */
  lemma BareNameIsNull(p: seq<Section>, l: string, n: string, r: string, num: int)
    requires p != [] && IsBlank(l) && IsBlank(r) && IsTrimmed(n) && n != []
    requires '=' !in n && NoMarkerChar(n)
    ensures ParseLine(p, l + n + r, num) == Ok(SetLast(p, n, Null))
  {
    var line := l + n + r;
    assert '=' !in line && NoMarkerChar(line) by {
      forall i | 0 <= i < |line|
        ensures line[i] != '=' && line[i] != '-' && line[i] != '/' && line[i] != '#'
      {
        if i < |l| {
          assert line[i] == l[i];
        } else if i < |l| + |n| {
          assert line[i] == n[i - |l|];
        } else {
          assert line[i] == r[i - |l| - |n|];
        }
      }
    }
    assert Pieces(line) == [n] by {
      FindWithoutFirstChar(line, "=");
      assert Split(line, "=") == [line];
      DeclarationOfPlain(line);
      TrimPadded(l, n, r);
    }
    assert !IsHeader(line) by {
      assert line[0] != '=';
    }
    assert !IsBlank(n) by {
      assert !IsSpace(n[0]);
    }
    assert ParseLine(p, line, num) == DeclarePieces(p, [n], num);
  }

  /** Outside a header only the pieces of a line decide what it does. */
  lemma SamePiecesSameLine(p: seq<Section>, a: string, b: string, num: int)
    requires !IsHeader(a) && !IsHeader(b) && Pieces(a) == Pieces(b)
    ensures ParseLine(p, a, num) == ParseLine(p, b, num)
  {
  }

  /** A line outside a header whose first piece names a variable, with a value piece after it. */
  lemma ValueLine(p: seq<Section>, line: string, num: int)
    requires p != [] && !IsHeader(line) && |Pieces(line)| >= 2 && Pieces(line)[0] != []
    ensures var x := Convert(Pieces(line)[1], num);
      ParseLine(p, line, num)
      == if x.Ok? then Ok(SetLast(p, Pieces(line)[0], x.value)) else Err(x.error)
  {
    assert !IsSpace(Pieces(line)[0][0]);
  }

  /** `name = value` followed by nothing or by a further `=` splits with these two first pieces. */
  lemma SplitOfAssignment(n: string, v: string, rest: string)
    requires '=' !in n && '=' !in v
    requires rest == [] || rest[0] == '='
    ensures var raw := Split(n + "=" + v + rest, "=");
      |raw| >= 2 && raw[0] == n && raw[1] == v
  {
    var line := n + "=" + v + rest;
    FindAfter(n, "=", v + rest);
    assert line == n + "=" + (v + rest);
    assert line[..|n|] == n && line[|n| + 1..] == v + rest;
    var tail := Split(v + rest, "=");
    assert Split(line, "=") == [n] + tail;
    if rest == [] {
      FindWithoutFirstChar(v, "=");
      assert v + rest == v;
      assert tail == [v];
    } else {
      FindAfter(v, "=", rest[1..]);
      assert v + rest == v + "=" + rest[1..];
      assert (v + rest)[..|v|] == v;
      assert tail[0] == v;
    }
  }

  /** The pieces of `name = value` followed by nothing or by a further `=`. */
  lemma AssignmentPieces(n: string, v: string, rest: string)
    requires Trim(n) != []
    requires '=' !in n && '=' !in v && NoMarkerChar(n) && NoMarkerChar(v)
    requires rest == [] || rest[0] == '='
    ensures |Pieces(n + "=" + v + rest)| >= 2
    ensures Pieces(n + "=" + v + rest)[0] == Trim(n) && Pieces(n + "=" + v + rest)[1] == Trim(v)
  {
    var line := n + "=" + v + rest;
    SplitOfAssignment(n, v, rest);
    assert Pieces(line)[0] == Trim(n) by {
      DeclarationOfPlain(n);
    }
    assert Pieces(line)[1] == Trim(v) by {
      DeclarationOfPlain(v);
    }
  }

  /**
    `name = value` stores the converted first value in the latest section; whatever follows
    a second `=` is never read.
   */
  lemma DeclarationStoresFirstValue(p: seq<Section>, n: string, v: string, rest: string, num: int)
    requires p != [] && Trim(n) != []
    requires '=' !in n && '=' !in v && NoMarkerChar(n) && NoMarkerChar(v)
    requires rest == [] || rest[0] == '='
    ensures var x := Convert(Trim(v), num);
      ParseLine(p, n + "=" + v + rest, num)
      == if x.Ok? then Ok(SetLast(p, Trim(n), x.value)) else Err(x.error)
  {
    var line := n + "=" + v + rest;
    assert !IsHeader(line) by {
      assert line[0] == n[0];
    }
    AssignmentPieces(n, v, rest);
    ValueLine(p, line, num);
  }

  /** `name =` gives the empty value, which does not convert. */
  lemma NameWithoutValueFails(p: seq<Section>, n: string, num: int)
    requires p != [] && Trim(n) != [] && '=' !in n && NoMarkerChar(n)
    ensures ParseLine(p, n + "=", num) == Err(InvalidValue(num))
  {
    DeclarationStoresFirstValue(p, n, "", "", num);
    assert n + "=" + "" + "" == n + "=";
    EmptyValueFails(num);
  }

  /** A line that splits as `h = w` with `h` not empty is not a header. */
  lemma AssignmentNotHeader(h: string, w: string)
    requires '=' !in h && h != []
    ensures !IsHeader(h + "=" + w)
  {
    assert (h + "=" + w)[0] == h[0];
  }

  /** A line that splits into two pieces has the two declarations as its pieces. */
  lemma PiecesOfTwo(line: string, a: string, b: string)
    requires Split(line, "=") == [a, b]
    ensures Pieces(line) == [Declaration(a), Declaration(b)]
  {
    var v := Pieces(line);
    assert |v| == 2 && v[0] == Declaration(a) && v[1] == Declaration(b);
  }

  /** A comment after the value changes nothing. */
  lemma TrailingCommentIgnored(p: seq<Section>, n: string, v: string, m: string, c: string, num: int)
    requires n != [] && '=' !in n && '=' !in v && '=' !in m + c && NoMarkerChar(n) && NoMarkerChar(v)
    requires m in CommentChars
    ensures ParseLine(p, n + "=" + v + m + c, num) == ParseLine(p, n + "=" + v, num)
  {
    var w := v + m + c;
    var a, b := n + "=" + w, n + "=" + v;
    assert '=' !in w by {
      assert forall i :: 0 <= i < |w| ==> w[i] == if i < |v| then v[i] else (m + c)[i - |v|];
    }
    assert Pieces(a) == Pieces(b) by {
      SplitAssignment(n, w);
      SplitAssignment(n, v);
      PiecesOfTwo(a, n, w);
      PiecesOfTwo(b, n, v);
      CutAllComment(v, m, c);
      DeclarationOfPlain(v);
    }
    assert !IsHeader(a) && !IsHeader(b) by {
      AssignmentNotHeader(n, w);
      AssignmentNotHeader(n, v);
    }
    assert n + "=" + v + m + c == a;
    SamePiecesSameLine(p, a, b, num);
  }

  /** Lines are split on `=` before comments are cut, so an `=` inside a comment still declares. */
  lemma CommentDoesNotHideEquals(p: seq<Section>, n: string, c: string, v: string, num: int)
    requires n != [] && '=' !in n && '=' !in c && '=' !in v && NoMarkerChar(n)
    ensures ParseLine(p, n + "#" + c + "=" + v, num) == ParseLine(p, n + "=" + v, num)
  {
    var h := n + "#" + c;
    var a, b := h + "=" + v, n + "=" + v;
    assert '=' !in h by {
      assert forall i :: 0 <= i < |h| ==> h[i] == if i < |n| then n[i] else ("#" + c)[i - |n|];
    }
    assert Pieces(a) == Pieces(b) by {
      SplitAssignment(h, v);
      SplitAssignment(n, v);
      PiecesOfTwo(a, h, v);
      PiecesOfTwo(b, n, v);
      CutAllComment(n, "#", c);
      DeclarationOfPlain(n);
    }
    assert !IsHeader(a) && !IsHeader(b) by {
      AssignmentNotHeader(h, v);
      AssignmentNotHeader(n, v);
    }
    SamePiecesSameLine(p, a, b, num);
  }

  /** The loop that builds `variable` for one line (hfclib.py:374-385). */
  method DeclarationPieces(line: string) returns (variable: seq<string>)
    ensures variable == Pieces(line)
  {
    var raw := Split(line, VariableSeparator);
    variable := [];
    for j := 0 to |raw|
      invariant |variable| == j
      invariant forall k :: 0 <= k < j ==> variable[k] == Declaration(raw[k])
    {
      var decCorrect := [raw[j]];
      for m := 0 to |CommentChars|
        invariant |decCorrect| >= 1
        invariant CutAll(decCorrect[0], CommentChars[m..]) == CutAll(raw[j], CommentChars)
      {
        assert CommentChars[m..][1..] == CommentChars[m + 1..];
        decCorrect := Split(decCorrect[0], CommentChars[m]);
      }
      variable := variable + [Trim(decCorrect[0])];
    }
  }

  /** The loop's bookkeeping for a list `parsed`: its length, its last index and last name. */
  predicate Tracks(parsed: seq<Section>, sections: int, listIndex: int, sectionName: string) {
    sections == |parsed| && listIndex == |parsed| - 1
    && (parsed != [] ==> sectionName == parsed[|parsed| - 1].name)
  }

  /** When line `i` is read without error, the loop goes on from the next line. */
  lemma ParseFromNext(lines: seq<string>, i: nat, parsed: seq<Section>, next: seq<Section>)
    requires i < |lines| && ParseLine(parsed, lines[i], i + 1) == Ok(next)
    ensures ParseFrom(lines, i, parsed) == ParseFrom(lines, i + 1, next)
  {
  }

  /** When line `i` fails, the loop stops with its error. */
  lemma ParseFromStops(lines: seq<string>, i: nat, parsed: seq<Section>)
    requires i < |lines| && ParseLine(parsed, lines[i], i + 1).Err?
    ensures ParseFrom(lines, i, parsed) == ParseLine(parsed, lines[i], i + 1)
  {
  }

  /** A declaration keeps the bookkeeping: it never adds a section or renames one. */
  lemma DeclareTracks(p: seq<Section>, sections: int, listIndex: int, sectionName: string, line: string, num: int)
    requires Tracks(p, sections, listIndex, sectionName) && Declare(p, line, num).Ok?
    ensures Tracks(Declare(p, line, num).value, sections, listIndex, sectionName)
  {
    var q := Declare(p, line, num).value;
    if p != [] {
      assert Names(q)[|q| - 1] == Names(p)[|p| - 1];
    }
  }

  /** The header part of the loop body (hfclib.py:350-371). */
  method ReadHeader(parsed0: seq<Section>, sections0: int, listIndex0: int, sectionName0: string, line: string, num: int)
    returns (r: Result<seq<Section>>, sections: int, listIndex: int, sectionName: string)
    requires Tracks(parsed0, sections0, listIndex0, sectionName0)
    ensures r == OpenSection(parsed0, line, num)
    ensures r.Ok? ==> Tracks(r.value, sections, listIndex, sectionName)
  {
    sections, listIndex, sectionName := sections0, listIndex0, sectionName0;

    // The comment-line skip: `continue` only leaves this inner loop.
    for m := 0 to |CommentChars| {
      if StartsWith(line, CommentChars[m]) {
        continue;
      }
    }

    if IsHeader(line) {
      sections := sections + 1;
      listIndex := listIndex + 1;
      sectionName := Trim(RemoveAll(line, SectionSeparator));
      if IsBlank(sectionName) {
        return Err(InvalidSectionName(num)), sections, listIndex, sectionName;
      }
      return Ok(parsed0 + [Section(sectionName, [])]), sections, listIndex, sectionName;
    }
    r := Ok(parsed0);
  }

  /** The declaration part of the loop body (hfclib.py:374-404). */
  method ReadDeclaration(parsed0: seq<Section>, sections: int, listIndex: int, sectionName: string, line: string, num: int)
    returns (r: Result<seq<Section>>)
    requires Tracks(parsed0, sections, listIndex, sectionName)
    ensures r == Declare(parsed0, line, num)
  {
    var variable := DeclarationPieces(line);
    r := Ok(parsed0);
    if |variable| >= 1 {
      if variable[0] != "" {
        if IsBlank(variable[0]) {
          return Err(InvalidVariableName(num));
        }
        if sections <= 0 {
          return Err(OutsideSection(num));
        }
        if |variable| <= 1 {
          var sec := parsed0[listIndex];
          r := Ok(parsed0[listIndex := Section(sectionName, PutVar(sec.vars, variable[0], Null))]);
        } else {
          var value := Convert(variable[1], num);
          if value.Err? {
            return Err(value.error);
          }
          var sec := parsed0[listIndex];
          r := Ok(parsed0[listIndex := Section(sectionName, PutVar(sec.vars, variable[0], value.value))]);
        }
      }
    }
  }

  /** One pass of the loop body: the header part, then the declaration part. */
  method ReadLine(parsed0: seq<Section>, sections0: int, listIndex0: int, sectionName0: string, line: string, num: int)
    returns (r: Result<seq<Section>>, sections: int, listIndex: int, sectionName: string)
    requires Tracks(parsed0, sections0, listIndex0, sectionName0)
    ensures r == ParseLine(parsed0, line, num)
    ensures r.Ok? ==> Tracks(r.value, sections, listIndex, sectionName)
  {
    r, sections, listIndex, sectionName := ReadHeader(parsed0, sections0, listIndex0, sectionName0, line, num);
    if r.Ok? {
      var p := r.value;
      r := ReadDeclaration(p, sections, listIndex, sectionName, line, num);
      if r.Ok? {
        DeclareTracks(p, sections, listIndex, sectionName, line, num);
      }
    }
  }

  /** The library's loop over the lines, proved to compute `ParseText`. */
  method ParseHfc(text: string) returns (r: Result<seq<Section>>)
    ensures r == ParseText(text)
  {
    if text == "" {
      return Err(NothingToDo);
    }
    var hfc := Split(text, "\n");
    var parsed: seq<Section> := [];
    var sections := 0;
    var listIndex := -1;
    var sectionName := "";
    var lineNum := 0;

    while lineNum < |hfc|
      invariant 0 <= lineNum <= |hfc|
      invariant Tracks(parsed, sections, listIndex, sectionName)
      invariant ParseFrom(hfc, lineNum, parsed) == ParseText(text)
    {
      var step;
      step, sections, listIndex, sectionName := ReadLine(parsed, sections, listIndex, sectionName, hfc[lineNum], lineNum + 1);
      if step.Err? {
        ParseFromStops(hfc, lineNum, parsed);
        return step;
      }
      ParseFromNext(hfc, lineNum, parsed, step.value);
      parsed := step.value;
      lineNum := lineNum + 1;
    }
    return Ok(parsed);
  }

  /** A piece without `>`, `/` or `#` holds no comment marker, so it is only trimmed. */
  lemma DeclarationOfSafe(d: string)
    requires '>' !in d && '/' !in d && '#' !in d
    ensures Declaration(d) == Trim(d)
  {
    NotContainedWithout(d, "->", 1);
    FindWithoutFirstChar(d, "//");
    FindWithoutFirstChar(d, "#");
    assert CommentChars[1..] == ["//", "#"] && CommentChars[1..][1..] == ["#"];
    assert CutAll(d, ["#"]) == d;
  }
}
