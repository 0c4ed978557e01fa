/**
  Writing a document and reading it back: the text `parseList` lays out with its default
  list characters, booleans and float separator (hfclib.py:418-471) read by `parseHfc`
  (hfclib.py:330-415) gives the sections back, for names and values that avoid the
  characters the reader gives a meaning to.

  The written text is a sequence of lines, each followed by a newline. Splitting it on
  newlines gives the lines back plus one empty line at the end, and the reader then takes
  the lines one by one: an empty line does nothing, a header line opens an empty section and
  a variable line appends its entry to the latest section.
 */
module RoundTrip {
  import opened Base
  import opened Strings
  import opened Values
  import opened Converter
  import opened Serializer
  import opened Parser

  // ---------------------------------------------------------------------------------------
  // Lines
  // ---------------------------------------------------------------------------------------

  /** Lines written one after the other, each followed by a newline. */
  function Terminated(ls: seq<string>): string
    decreases |ls|
  {
    if ls == [] then "" else ls[0] + "\n" + Terminated(ls[1..])
  }

  /** Terminating two runs of lines is terminating each in turn. */
  lemma {:induction false} TerminatedAppend(a: seq<string>, b: seq<string>)
    ensures Terminated(a + b) == Terminated(a) + Terminated(b)
    decreases |a|
  {
    if a == [] {
      assert a + b == b;
    } else {
      assert (a + b)[1..] == a[1..] + b;
      TerminatedAppend(a[1..], b);
    }
  }

  /** Splitting newline-terminated lines on newlines gives them back, then one empty line. */
  lemma {:induction false} SplitTerminated(ls: seq<string>)
    requires forall i :: 0 <= i < |ls| ==> '\n' !in ls[i]
    ensures Split(Terminated(ls), "\n") == ls + [""]
    decreases |ls|
  {
    if ls != [] {
      var rest := Terminated(ls[1..]);
      var t := ls[0] + "\n" + rest;
      FindAfter(ls[0], "\n", rest);
      assert t[..|ls[0]|] == ls[0] && t[|ls[0]| + 1..] == rest;
      SplitTerminated(ls[1..]);
      assert ls == [ls[0]] + ls[1..];
    }
  }

  /** The header line of a section (hfclib.py:463) without its surrounding newlines. */
  function HeaderLine(name: string, sp: string): string {
    SectionSeparator + sp + name + sp + SectionSeparator
  }

  /** The line of one variable (hfclib.py:471) without its newline. */
  function VarLine(name: string, sp: string, enc: string): string {
    name + sp + VariableSeparator + sp + enc
  }

  /** The empty line `newline_after_section` adds on either side of a header. */
  function Blank(nl: bool): seq<string> {
    if nl then [""] else []
  }

  /** The text a writable value is written as with the default style. */
  function Written(v: Value): (t: string)
    requires Writable(v)
    ensures Encode(v, DefaultStyle) == Ok(t)
  {
    ValueRoundTrip(v, 0);
    Encode(v, DefaultStyle).value
  }

  /** Every value of a section can be written with the default style. */
  predicate Writes(vars: seq<Entry>) {
    forall j :: 0 <= j < |vars| ==> Writable(vars[j].value)
  }

  /** One line per variable, in insertion order. */
  function VarLines(vars: seq<Entry>, sp: string): (ls: seq<string>)
    requires Writes(vars)
    ensures |ls| == |vars|
  {
    seq(|vars|, j requires 0 <= j < |vars| => VarLine(vars[j].name, sp, Written(vars[j].value)))
  }

  /** The lines of one section: its header line, with an empty line on either side when asked, then its variable lines. */
  function SectionLines(s: Section, sp: string, nl: bool): (ls: seq<string>)
    requires Writes(s.vars)
  {
    Blank(nl) + [HeaderLine(s.name, sp)] + Blank(nl) + VarLines(s.vars, sp)
  }

  /** Every value of every section can be written with the default style. */
  predicate AllWrite(secs: seq<Section>) {
    forall i :: 0 <= i < |secs| ==> Writes(secs[i].vars)
  }

  /** The lines of each section, in list order. */
  function SectionLinesOf(secs: seq<Section>, sp: string, nl: bool): (parts: seq<seq<string>>)
    requires AllWrite(secs)
    ensures |parts| == |secs|
  {
    seq(|secs|, i requires 0 <= i < |secs| => SectionLines(secs[i], sp, nl))
  }

  /** Groups of lines one after the other. */
  function Flatten(parts: seq<seq<string>>): seq<string>
    decreases |parts|
  {
    if parts == [] then [] else Flatten(parts[..|parts| - 1]) + parts[|parts| - 1]
  }

  /** The lines of the sections, in list order. */
  function DocLines(secs: seq<Section>, sp: string, nl: bool): seq<string>
    requires AllWrite(secs)
  {
    Flatten(SectionLinesOf(secs, sp, nl))
  }

  /** A character in no line of any group is in no line of their concatenation. */
  lemma {:induction false} FlattenLacks(parts: seq<seq<string>>, c: char)
    requires forall i, x :: 0 <= i < |parts| && 0 <= x < |parts[i]| ==> c !in parts[i][x]
    ensures forall x :: 0 <= x < |Flatten(parts)| ==> c !in Flatten(parts)[x]
    decreases |parts|
  {
    if parts != [] {
      var init, last := parts[..|parts| - 1], parts[|parts| - 1];
      FlattenLacks(init, c);
      assert forall x :: 0 <= x < |Flatten(parts)| ==>
        Flatten(parts)[x] == if x < |Flatten(init)| then Flatten(init)[x] else last[x - |Flatten(init)|];
    }
  }

  // ---------------------------------------------------------------------------------------
  // What the writer produces
  // ---------------------------------------------------------------------------------------

  /** The variable text of a section is its variable lines, each terminated. */
  lemma {:induction false} RenderVarsLines(vars: seq<Entry>, sp: string)
    requires Writes(vars)
    ensures RenderVars(vars, sp, DefaultStyle) == Ok(Terminated(VarLines(vars, sp)))
    decreases |vars|
  {
    if vars != [] {
      var n := |vars|;
      var init := vars[..n - 1];
      var last := vars[n - 1];
      var line := VarLine(last.name, sp, Written(last.value));
      RenderVarsLines(init, sp);
      assert VarLines(vars, sp) == VarLines(init, sp) + [line];
      TerminatedAppend(VarLines(init, sp), [line]);
      assert Terminated([line]) == VariableText(last.name, sp, Written(last.value));
    }
  }

  /** The header text is the header line with its optional empty lines, each terminated. */
  lemma HeaderTextLines(name: string, sp: string, nl: bool)
    ensures Terminated(Blank(nl) + [HeaderLine(name, sp)] + Blank(nl)) == HeaderText(name, sp, Newline(nl))
  {
    var h := HeaderLine(name, sp);
    if nl {
      var head := [""] + [h] + [""];
      assert head == ["", h, ""] && head[1..] == [h, ""] && head[1..][1..] == [""];
      assert Terminated([""]) == "\n";
      assert Terminated([h, ""]) == h + "\n" + "\n";
      assert Terminated(head) == "\n" + h + "\n" + "\n";
    } else {
      assert [] + [h] + [] == [h];
      assert Terminated([h]) == h + "\n";
    }
  }

  /** The text of a section is its lines, each terminated. */
  lemma RenderSectionLines(s: Section, sp: string, nl: bool)
    requires Writes(s.vars)
    ensures RenderSection(s, sp, Newline(nl), DefaultStyle) == Ok(Terminated(SectionLines(s, sp, nl)))
  {
    var head := Blank(nl) + [HeaderLine(s.name, sp)] + Blank(nl);
    HeaderTextLines(s.name, sp, nl);
    RenderVarsLines(s.vars, sp);
    TerminatedAppend(head, VarLines(s.vars, sp));
  }

  /** The text of a list of sections is the lines of all of them, each terminated. */
  lemma {:induction false} RenderDocLines(secs: seq<Section>, sp: string, nl: bool)
    requires AllWrite(secs)
    ensures RenderSections(secs, sp, Newline(nl), DefaultStyle) == Ok(Terminated(DocLines(secs, sp, nl)))
    decreases |secs|
  {
    if secs != [] {
      var init := secs[..|secs| - 1];
      var last := secs[|secs| - 1];
      var parts := SectionLinesOf(secs, sp, nl);
      RenderDocLines(init, sp, nl);
      RenderSectionLines(last, sp, nl);
      assert parts[..|parts| - 1] == SectionLinesOf(init, sp, nl);
      TerminatedAppend(DocLines(init, sp, nl), SectionLines(last, sp, nl));
    }
  }

  // ---------------------------------------------------------------------------------------
  // What the reader does with each line
  // ---------------------------------------------------------------------------------------

  /** A section name the header pattern and the name extraction give back unchanged. */
  predicate HeaderSafe(name: string) {
    name != [] && IsTrimmed(name) && '=' !in name && '\n' !in name
  }

  /** A variable name that is read back unchanged from its line. */
  predicate NameSafe(n: string) {
    n != [] && IsTrimmed(n) && LineSafe(n)
  }

  /** A section that reads back as itself. */
  predicate SectionReadable(s: Section) {
    HeaderSafe(s.name) && UniqueKeys(s.vars)
    && forall j :: 0 <= j < |s.vars| ==> NameSafe(s.vars[j].name) && Writable(s.vars[j].value)
  }

  /** A document that reads back as itself: at least one section, each readable. */
  predicate Readable(secs: seq<Section>) {
    secs != [] && forall i :: 0 <= i < |secs| ==> SectionReadable(secs[i])
  }

  /** An empty line changes nothing. */
  lemma BlankLineSkipped(p: seq<Section>, num: int)
    ensures ParseLine(p, "", num) == Ok(p)
  {
    assert Split("", VariableSeparator) == [""];
    assert Pieces("") == [Declaration("")];
  }

  /** Removing every `==` from `==m==` leaves `m` when `m` has no `=`. */
  lemma SeparatorsRemoved(m: string)
    requires '=' !in m
    ensures RemoveAll(SectionSeparator + m + SectionSeparator, SectionSeparator) == m
  {
    var sep := SectionSeparator;
    var parts := ["", m, ""];
    assert parts[1..] == [m, ""] && parts[1..][1..] == [""];
    assert Join([m, ""], sep) == m + sep;
    assert Join(parts, sep) == sep + m + sep;
    SepFreeWithoutFirstChar("", sep);
    SepFreeWithoutFirstChar(m, sep);
    SplitJoin(parts, sep);
    assert Join([m, ""], "") == m;
    assert Join(parts, "") == m;
  }

  /** A written header line opens an empty section of the same name. */
  lemma HeaderLineRead(p: seq<Section>, name: string, spacing: bool, num: int)
    requires HeaderSafe(name)
    ensures ParseLine(p, HeaderLine(name, Space(spacing)), num) == Ok(p + [Section(name, [])])
  {
    var sp := Space(spacing);
    var m := sp + name + sp;
    var line := HeaderLine(name, sp);
    assert '=' !in m && '\n' !in m;
    assert line == SectionSeparator + m + SectionSeparator;
    SeparatorsRemoved(m);
    TrimPadded(sp, name, sp);
    assert IsHeader(line) by {
      assert line[..2] == SectionSeparator && line[|line| - 2..] == SectionSeparator;
      assert line[2..|line| - 2] == m;
    }
    assert !IsBlank(name) by {
      assert !IsSpace(name[0]);
    }
    HeaderLineOpensSection(p, line, num);
  }

  /** A line-safe trimmed text with one optional space on either side reads as the text. */
  lemma PaddedPiece(d: string, l: string, x: string, r: string)
    requires d == l + x + r && IsTrimmed(x) && LineSafe(x)
    requires l == "" || l == " "
    requires r == "" || r == " "
    ensures Declaration(d) == x
    ensures '=' !in d
  {
    assert forall c :: c in d ==> c in x || c == ' ';
    DeclarationOfSafe(d);
    TrimPadded(l, x, r);
  }

  /** A written variable line splits into its name and its value text. */
  lemma VarLinePieces(n: string, sp: string, enc: string)
    requires NameSafe(n) && IsTrimmed(enc) && LineSafe(enc)
    requires sp == "" || sp == " "
    ensures !IsHeader(VarLine(n, sp, enc))
    ensures Pieces(VarLine(n, sp, enc)) == [n, enc]
  {
    var a, b := n + sp, sp + enc;
    var line := VarLine(n, sp, enc);
    assert line == a + "=" + b;
    assert a == [] + n + sp;
    PaddedPiece(a, [], n, sp);
    assert b == sp + enc + [];
    PaddedPiece(b, sp, enc, []);
    SplitAssignment(a, b);
    PiecesOfTwo(line, a, b);
    assert line[0] == n[0] && n[0] in n;
    NotHeader(line);
  }

  /** A line that does not start with `=` is not a header. */
  lemma NotHeader(line: string)
    requires line != [] && line[0] != '='
    ensures !IsHeader(line)
  {
    if |line| >= 2 {
      assert line[..2][0] == line[0];
    }
  }

  /** A written variable line stores the value under the name in the latest section. */
  lemma VarLineRead(p: seq<Section>, n: string, v: Value, spacing: bool, num: int)
    requires p != [] && NameSafe(n) && Writable(v)
    ensures ParseLine(p, VarLine(n, Space(spacing), Written(v)), num) == Ok(SetLast(p, n, v))
  {
    var enc := Written(v);
    ValueRoundTrip(v, num);
    VarLinePieces(n, Space(spacing), enc);
    ValueLine(p, VarLine(n, Space(spacing), enc), num);
  }

  /** Whatever list it is read on, `line` appends an empty section named `name`. */
  ghost predicate Opens(step: LineStep, line: string, name: string) {
    forall p: seq<Section>, num: int :: step(p, line, num) == Ok(p + [Section(name, [])])
  }

  /** Whatever non-empty list it is read on, `line` stores entry `e` in the latest section. */
  ghost predicate Stores(step: LineStep, line: string, e: Entry) {
    forall p: seq<Section>, num: int :: p != [] ==> step(p, line, num) == Ok(SetLast(p, e.name, e.value))
  }

  /** Whatever list it is read on, `line` leaves it as it is. */
  ghost predicate Skips(step: LineStep, line: string) {
    forall p: seq<Section>, num: int :: step(p, line, num) == Ok(p)
  }

  /** The reader skips an empty line. */
  lemma BlankSkips()
    ensures Skips(ParseLine, "")
  {
    forall p: seq<Section>, num: int {
      BlankLineSkipped(p, num);
    }
  }

  /** A written header line opens its section and holds no newline. */
  lemma HeaderLineOpens(name: string, spacing: bool)
    requires HeaderSafe(name)
    ensures Opens(ParseLine, HeaderLine(name, Space(spacing)), name)
    ensures '\n' !in HeaderLine(name, Space(spacing))
  {
    forall p: seq<Section>, num: int {
      HeaderLineRead(p, name, spacing, num);
    }
    assert forall c :: c in HeaderLine(name, Space(spacing)) ==> c in name || c == ' ' || c == '=';
  }

  /** A written variable line stores its entry and holds no newline. */
  lemma VarLineStores(e: Entry, spacing: bool)
    requires NameSafe(e.name) && Writable(e.value)
    ensures Stores(ParseLine, VarLine(e.name, Space(spacing), Written(e.value)), e)
    ensures '\n' !in VarLine(e.name, Space(spacing), Written(e.value))
  {
    forall p: seq<Section>, num: int | p != [] {
      VarLineRead(p, e.name, e.value, spacing, num);
    }
    ValueRoundTrip(e.value, 0);
    VarLineSingle(e.name, Space(spacing), Written(e.value));
  }

  /** A variable line of line-safe name and value holds no newline. */
  lemma VarLineSingle(n: string, sp: string, enc: string)
    requires LineSafe(n) && LineSafe(enc) && (sp == "" || sp == " ")
    ensures '\n' !in VarLine(n, sp, enc)
  {
    assert forall c :: c in VarLine(n, sp, enc) ==> c in n || c == ' ' || c == '=' || c in enc;
  }

  /** The variable lines of a readable section store its entries and hold no newline. */
  lemma VarLinesStore(s: Section, spacing: bool)
    requires SectionReadable(s)
    ensures var vl := VarLines(s.vars, Space(spacing));
      forall i :: 0 <= i < |vl| ==> Stores(ParseLine, vl[i], s.vars[i]) && '\n' !in vl[i]
  {
    var vl := VarLines(s.vars, Space(spacing));
    forall i | 0 <= i < |vl|
      ensures Stores(ParseLine, vl[i], s.vars[i]) && '\n' !in vl[i]
    {
      VarLineStores(s.vars[i], spacing);
    }
  }

  /**
    How a group of lines reads with `step`: `b` skipped lines around a header line that
    opens `s`, then one line per variable of `s` that stores it.
   */
  ghost predicate ReadsAs(step: LineStep, sl: seq<string>, s: Section, b: nat) {
    (b == 0 || b == 1) && |sl| == 2 * b + 1 + |s.vars|
    && (b == 1 ==> Skips(step, sl[0]) && Skips(step, sl[2]))
    && Opens(step, sl[b], s.name)
    && UniqueKeys(s.vars)
    && forall i :: 0 <= i < |s.vars| ==> Stores(step, sl[2 * b + 1 + i], s.vars[i])
  }

  /** The lines written for a readable section read as it and hold no newline. */
  lemma SectionLinesRead(s: Section, spacing: bool, nl: bool)
    requires SectionReadable(s)
    ensures ReadsAs(ParseLine, SectionLines(s, Space(spacing), nl), s, |Blank(nl)|)
    ensures var sl := SectionLines(s, Space(spacing), nl); forall x :: 0 <= x < |sl| ==> '\n' !in sl[x]
  {
    var sp := Space(spacing);
    var sl, b := SectionLines(s, sp, nl), |Blank(nl)|;
    var vl := VarLines(s.vars, sp);
    assert sl[b] == HeaderLine(s.name, sp);
    HeaderLineOpens(s.name, spacing);
    VarLinesStore(s, spacing);
    BlankSkips();
    assert forall i :: 0 <= i < |s.vars| ==> sl[2 * b + 1 + i] == vl[i];
  }

  // ---------------------------------------------------------------------------------------
  // Reading the lines of a document
  // ---------------------------------------------------------------------------------------

  /** When line `i` is read without error, the loop goes on from the next line. */
  lemma RunNext(step: LineStep, lines: seq<string>, i: nat, p: seq<Section>, next: seq<Section>)
    requires i < |lines| && step(p, lines[i], i + 1) == Ok(next)
    ensures Run(step, lines, i, p) == Run(step, lines, i + 1, next)
  {
  }

  /** A new name goes last among unique names. */
  lemma NewKey(vars: seq<Entry>, j: nat, n: nat)
    requires UniqueKeys(vars) && j < |vars| && n == j + 1
    ensures PutVar(vars[..j], vars[j].name, vars[j].value) == vars[..n]
  {
    var pre, e := vars[..j], vars[j];
    FreshKey(vars, j);
    PutVarNew(pre, e.name, e.value);
    assert pre + [Entry(e.name, e.value)] == vars[..n];
  }

  /** Among unique names, name `j` is not among the names before it. */
  lemma FreshKey(vars: seq<Entry>, j: nat)
    requires UniqueKeys(vars) && j < |vars|
    ensures vars[j].name !in Keys(vars[..j])
  {
    var ks := Keys(vars[..j]);
    forall i | 0 <= i < j
      ensures ks[i] != vars[j].name
    {
      assert vars[..j][i] == vars[i];
    }
  }

  /** A line that stores the next variable extends the latest section by it. */
  lemma ReadVarLine(step: LineStep, lines: seq<string>, k: nat, p: seq<Section>, name: string, vars: seq<Entry>, i: nat, j: nat)
    requires j == i + 1 && UniqueKeys(vars) && j <= |vars| && k + i < |lines| && Stores(step, lines[k + i], vars[i])
    ensures Run(step, lines, k + i, p + [Section(name, vars[..i])])
      == Run(step, lines, k + j, p + [Section(name, vars[..j])])
  {
    var q := p + [Section(name, vars[..i])];
    var r := p + [Section(name, vars[..j])];
    AppendToLast(p, name, vars, i, j);
    assert step(q, lines[k + i], k + i + 1) == Ok(r);
    RunNext(step, lines, k + i, q, r);
  }

  /** Storing variable `i` in a latest section holding the variables before it appends it. */
  lemma AppendToLast(p: seq<Section>, name: string, vars: seq<Entry>, i: nat, j: nat)
    requires j == i + 1 && UniqueKeys(vars) && j <= |vars|
    ensures SetLast(p + [Section(name, vars[..i])], vars[i].name, vars[i].value) == p + [Section(name, vars[..j])]
  {
    NewKey(vars, i, j);
    var q := p + [Section(name, vars[..i])];
    assert q[|q| - 1] == Section(name, vars[..i]);
  }

  /** The first `j` variable lines of a section fill in its first `j` entries. */
  lemma {:induction false} ReadVars(step: LineStep, lines: seq<string>, k: nat, p: seq<Section>, name: string, vars: seq<Entry>, j: nat)
    requires UniqueKeys(vars) && j <= |vars| && k + |vars| <= |lines|
    requires forall i :: 0 <= i < |vars| ==> Stores(step, lines[k + i], vars[i])
    ensures Run(step, lines, k, p + [Section(name, [])])
      == Run(step, lines, k + j, p + [Section(name, vars[..j])])
    decreases j
  {
    if j > 0 {
      var i := j - 1;
      ReadVars(step, lines, k, p, name, vars, i);
      ReadVarLine(step, lines, k, p, name, vars, i, j);
    } else {
      assert vars[..0] == [];
    }
  }

  /** A line that is skipped is passed over. */
  lemma ReadSkipped(step: LineStep, lines: seq<string>, k: nat, p: seq<Section>)
    requires k < |lines| && Skips(step, lines[k])
    ensures Run(step, lines, k, p) == Run(step, lines, k + 1, p)
  {
    assert step(p, lines[k], k + 1) == Ok(p);
    RunNext(step, lines, k, p, p);
  }

  /** The lines of a section, found at line `k`, append that section. */
  lemma ReadSection(step: LineStep, lines: seq<string>, k: nat, p: seq<Section>, s: Section, b: nat, n: nat)
    requires (b == 0 || b == 1) && n == 2 * b + 1 + |s.vars| && k + n <= |lines|
    requires b == 1 ==> Skips(step, lines[k]) && Skips(step, lines[k + 2])
    requires Opens(step, lines[k + b], s.name)
    requires UniqueKeys(s.vars)
    requires forall i :: 0 <= i < |s.vars| ==> Stores(step, lines[k + 2 * b + 1 + i], s.vars[i])
    ensures Run(step, lines, k, p) == Run(step, lines, k + n, p + [s])
  {
    var h := k + b;
    var q := p + [Section(s.name, [])];
    if b == 1 {
      ReadSkipped(step, lines, k, p);
    }
    assert step(p, lines[h], h + 1) == Ok(q);
    RunNext(step, lines, h, p, q);
    if b == 1 {
      ReadSkipped(step, lines, h + 1, q);
    }
    ReadVars(step, lines, h + 1 + b, p, s.name, s.vars, |s.vars|);
    assert s.vars[..|s.vars|] == s.vars;
  }

  /** A group of lines that reads as `s`, placed at line `k`, appends `s`. */
  lemma ReadGroup(step: LineStep, lines: seq<string>, k: nat, p: seq<Section>, sl: seq<string>, s: Section, b: nat)
    requires ReadsAs(step, sl, s, b) && k + |sl| <= |lines| && lines[k..k + |sl|] == sl
    ensures Run(step, lines, k, p) == Run(step, lines, k + |sl|, p + [s])
  {
    forall i | 0 <= i < |s.vars|
      ensures Stores(step, lines[k + 2 * b + 1 + i], s.vars[i])
    {
      assert lines[k + 2 * b + 1 + i] == sl[2 * b + 1 + i];
    }
    assert lines[k + b] == sl[b];
    if b == 1 {
      assert lines[k] == sl[0] && lines[k + 2] == sl[2];
    }
    ReadSection(step, lines, k, p, s, b, |sl|);
  }

  /** The groups of lines of a list of sections, followed by anything, read back the sections. */
  lemma {:induction false} ReadDoc(step: LineStep, parts: seq<seq<string>>, secs: seq<Section>, b: nat, tail: seq<string>)
    requires |parts| == |secs| && forall i :: 0 <= i < |secs| ==> ReadsAs(step, parts[i], secs[i], b)
    ensures var lines := Flatten(parts) + tail;
      Run(step, lines, 0, []) == Run(step, lines, |Flatten(parts)|, secs)
    decreases |secs|
  {
    if secs != [] {
      var m := |parts| - 1;
      var init, sl := parts[..m], parts[m];
      var a := Flatten(init);
      var lines := Flatten(parts) + tail;
      assert Flatten(parts) == a + sl;
      assert lines == a + (sl + tail);
      ReadDoc(step, init, secs[..m], b, sl + tail);
      assert lines[|a|..|a| + |sl|] == sl;
      ReadGroup(step, lines, |a|, secs[..m], sl, secs[m], b);
      assert secs[..m] + [secs[m]] == secs;
    }
  }

  /**
    Sections with safe names and writable values, written with either spacing and either
    newline setting and the default style, are read back as the same sections.
   */
  lemma DocumentRoundTrip(secs: seq<Section>, spacing: bool, nl: bool)
    requires Readable(secs)
    ensures RenderSections(secs, Space(spacing), Newline(nl), DefaultStyle).Ok?
    ensures ParseText(RenderSections(secs, Space(spacing), Newline(nl), DefaultStyle).value) == Ok(secs)
  {
    var sp := Space(spacing);
    assert AllWrite(secs);
    var parts := SectionLinesOf(secs, sp, nl);
    forall i | 0 <= i < |secs|
      ensures ReadsAs(ParseLine, parts[i], secs[i], |Blank(nl)|)
      ensures forall x :: 0 <= x < |parts[i]| ==> '\n' !in parts[i][x]
    {
      SectionLinesRead(secs[i], spacing, nl);
    }
    var ls := Flatten(parts);
    FlattenLacks(parts, '\n');
    RenderDocLines(secs, sp, nl);
    assert |ls| >= |parts[|secs| - 1]| > 0;
    SplitTerminated(ls);
    ReadDoc(ParseLine, parts, secs, |Blank(nl)|, [""]);
    BlankSkips();
    ReadSkipped(ParseLine, ls + [""], |ls|, secs);
  }
}
