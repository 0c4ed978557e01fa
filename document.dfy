/**
  The helpers that query and edit a parsed list (hfclib.py:271-300, 590-1045).

  A list holds sections; every helper that takes a section name acts on the FIRST section
  with that name (the `break` after the first match) and fails when no section has it. The
  pure functions below say what each helper computes; the class `HfcList` at the end holds
  the list the library mutates in place and proves its methods against them.
 */
module Document {
  import opened Base
  import opened Strings
  import opened Values
  import opened Serializer

  // ---------------------------------------------------------------------------------------
  // Finding sections and variables
  // ---------------------------------------------------------------------------------------

  /** `_section_exists` (hfclib.py:271-276): some section has the name. */
  predicate SectionExists(secs: seq<Section>, name: string) {
    exists i :: 0 <= i < |secs| && secs[i].name == name
  }

  /**
    `_variable_exists` (hfclib.py:279-288): the named section exists and SOME section, not
    necessarily that one, has the variable.
   */
  predicate VariableExists(secs: seq<Section>, section: string, variable: string) {
    SectionExists(secs, section) && exists i :: 0 <= i < |secs| && variable in Keys(secs[i].vars)
  }

  /** The index of the first section named `name` at or after `i`. */
  function FirstFrom(secs: seq<Section>, name: string, i: nat): (r: Option<nat>)
    requires i <= |secs|
    ensures r.Some? ==> i <= r.value < |secs| && secs[r.value].name == name
    ensures r.Some? ==> forall j :: i <= j < r.value ==> secs[j].name != name
    ensures r.None? ==> forall j :: i <= j < |secs| ==> secs[j].name != name
    decreases |secs| - i
  {
    if i == |secs| then None
    else if secs[i].name == name then Some(i)
    else FirstFrom(secs, name, i + 1)
  }

  /** The section a helper acts on: the first one with the name, if any. */
  function FirstSection(secs: seq<Section>, name: string): (r: Option<nat>)
    ensures r.Some? <==> SectionExists(secs, name)
    ensures r.Some? ==> r.value < |secs| && secs[r.value].name == name
    ensures r.Some? ==> forall j :: 0 <= j < r.value ==> secs[j].name != name
  {
    FirstFrom(secs, name, 0)
  }

  /** Section `i` with its variables replaced; every other section is left as it was. */
  function WithVars(secs: seq<Section>, i: nat, vars: seq<Entry>): (r: seq<Section>)
    requires i < |secs|
    ensures |r| == |secs| && r[i] == Section(secs[i].name, vars)
    ensures forall j :: 0 <= j < |secs| && j != i ==> r[j] == secs[j]
  {
    secs[i := Section(secs[i].name, vars)]
  }

  /** Only the first section named `section` may differ, and it keeps its name and place. */
  predicate OnlyFirstChanged(before: seq<Section>, after: seq<Section>, section: string) {
    |after| == |before| && FirstSection(before, section).Some?
    && after[FirstSection(before, section).value].name == section
    && forall j :: 0 <= j < |before| && j != FirstSection(before, section).value ==> after[j] == before[j]
  }

  // ---------------------------------------------------------------------------------------
  // The helpers, as functions of the list
  // ---------------------------------------------------------------------------------------

  /** `addVariable` (hfclib.py:819-835): `d[variable] = value` in the first matching section. */
  function AddVariableTo(secs: seq<Section>, section: string, variable: string, v: Value): (r: Result<seq<Section>>)
    ensures r.Err? <==> !SectionExists(secs, section)
    ensures r.Err? ==> r.error == SectionNotFound(section)
    ensures r.Ok? ==> OnlyFirstChanged(secs, r.value, section)
  {
    match FirstSection(secs, section)
    case None => Err(SectionNotFound(section))
    case Some(i) => Ok(WithVars(secs, i, PutVar(secs[i].vars, variable, v)))
  }

  /**
    `removeVariable` (hfclib.py:863-884): the variable must exist in some section, and the
    `pop` on the first matching section raises a `KeyError` when it is not there.
   */
  function RemoveVariableFrom(secs: seq<Section>, section: string, variable: string): (r: Result<seq<Section>>)
    ensures r == Err(SectionNotFound(section)) <==> !SectionExists(secs, section)
    ensures r == Err(VariableNotFound(variable)) <==> SectionExists(secs, section) && !VariableExists(secs, section, variable)
    ensures r == Err(MissingKey(variable)) <==> (VariableExists(secs, section, variable)
      && variable !in Keys(secs[FirstSection(secs, section).value].vars))
    ensures r.Ok? ==> OnlyFirstChanged(secs, r.value, section)
    ensures r.Ok? ==> |r.value[FirstSection(secs, section).value].vars| == |secs[FirstSection(secs, section).value].vars| - 1
  {
    match FirstSection(secs, section)
    case None => Err(SectionNotFound(section))
    case Some(i) =>
      if !VariableExists(secs, section, variable) then Err(VariableNotFound(variable))
      else if variable !in Keys(secs[i].vars) then Err(MissingKey(variable))
      else Ok(WithVars(secs, i, RemoveVar(secs[i].vars, variable)))
  }

  /**
    `renameVariable` (hfclib.py:914-932): `d[new] = d.pop(old)`, so the renamed variable is
    taken out and put back under the new name, last.
   */
  function RenameVariableIn(secs: seq<Section>, section: string, oldName: string, newName: string): (r: Result<seq<Section>>)
    ensures r == Err(SectionNotFound(section)) <==> !SectionExists(secs, section)
    ensures r == Err(VariableNotFound(oldName)) <==> SectionExists(secs, section) && !VariableExists(secs, section, oldName)
    ensures r == Err(MissingKey(oldName)) <==> (VariableExists(secs, section, oldName)
      && oldName !in Keys(secs[FirstSection(secs, section).value].vars))
    ensures r.Ok? ==> OnlyFirstChanged(secs, r.value, section)
  {
    match FirstSection(secs, section)
    case None => Err(SectionNotFound(section))
    case Some(i) =>
      if !VariableExists(secs, section, oldName) then Err(VariableNotFound(oldName))
      else if oldName !in Keys(secs[i].vars) then Err(MissingKey(oldName))
      else
        var vars := secs[i].vars;
        Ok(WithVars(secs, i, PutVar(RemoveVar(vars, oldName), newName, Lookup(vars, oldName).value)))
  }

  /**
    `editVariable` (hfclib.py:961-979): once the variable exists in SOME section, the value
    is assigned in the first matching section, which adds it there when it was missing.
   */
  function EditVariableIn(secs: seq<Section>, section: string, variable: string, v: Value): (r: Result<seq<Section>>)
    ensures r == Err(SectionNotFound(section)) <==> !SectionExists(secs, section)
    ensures r == Err(VariableNotFound(variable)) <==> SectionExists(secs, section) && !VariableExists(secs, section, variable)
    ensures r.Ok? <==> VariableExists(secs, section, variable)
    ensures r.Ok? ==> OnlyFirstChanged(secs, r.value, section)
    ensures r.Ok? ==> Lookup(r.value[FirstSection(secs, section).value].vars, variable) == Some(v)
  {
    match FirstSection(secs, section)
    case None => Err(SectionNotFound(section))
    case Some(i) =>
      if !VariableExists(secs, section, variable) then Err(VariableNotFound(variable))
      else Ok(WithVars(secs, i, PutVar(secs[i].vars, variable, v)))
  }

  /** `editSection` (hfclib.py:671-687): the first matching section is renamed in place. */
  function EditSectionIn(secs: seq<Section>, section: string, newName: string): (r: Result<seq<Section>>)
    ensures r.Err? <==> !SectionExists(secs, section)
    ensures r.Err? ==> r.error == SectionNotFound(section)
    ensures r.Ok? ==> Names(r.value) == Names(secs)[FirstSection(secs, section).value := newName]
    ensures r.Ok? ==> forall j :: 0 <= j < |secs| ==> r.value[j].vars == secs[j].vars
  {
    match FirstSection(secs, section)
    case None => Err(SectionNotFound(section))
    case Some(i) =>
      var r := secs[i := Section(newName, secs[i].vars)];
      assert Names(r) == Names(secs)[i := newName];
      Ok(r)
  }

  /** The position of the first element equal to `s`. */
  function IndexOf(secs: seq<Section>, s: Section): (i: nat)
    requires s in secs
    ensures i < |secs| && secs[i] == s && s !in secs[..i]
  {
    if secs[0] == s then 0
    else
      var i := 1 + IndexOf(secs[1..], s);
      assert secs[..i] == [secs[0]] + secs[1..][..i - 1];
      i
  }

  /** Python's `list.remove(s)` on an element that is present: its first occurrence goes. */
  function RemoveFirst(secs: seq<Section>, s: Section): (r: seq<Section>)
    requires s in secs
    ensures |r| == |secs| - 1
    ensures exists i :: 0 <= i < |secs| && secs[i] == s && s !in secs[..i] && r == secs[..i] + secs[i + 1..]
  {
    var i := IndexOf(secs, s);
    secs[..i] + secs[i + 1..]
  }

  /**
    `removeSection` (hfclib.py:636-643): after the existence check, `list.remove({name: {}})`
    removes the first section that is named so AND empty, and fails when there is none.
   */
  function RemoveSectionFrom(secs: seq<Section>, section: string): (r: Result<seq<Section>>)
    ensures r == Err(SectionNotFound(section)) <==> !SectionExists(secs, section)
    ensures r == Err(NotInList) <==> SectionExists(secs, section) && Section(section, []) !in secs
    ensures r.Ok? ==> |r.value| == |secs| - 1
    ensures r.Ok? ==> exists i :: (0 <= i < |secs| && secs[i] == Section(section, [])
      && Section(section, []) !in secs[..i] && r.value == secs[..i] + secs[i + 1..])
  {
    if !SectionExists(secs, section) then Err(SectionNotFound(section))
    else if Section(section, []) !in secs then Err(NotInList)
    else Ok(RemoveFirst(secs, Section(section, [])))
  }

  /** `getVariables` (hfclib.py:736-747): the variables of the first matching section. */
  function GetVariables(secs: seq<Section>, section: string): (r: Result<seq<Entry>>)
    ensures r.Err? <==> !SectionExists(secs, section)
    ensures r.Err? ==> r.error == SectionNotFound(section)
    ensures r.Ok? ==> exists i :: 0 <= i < |secs| && secs[i] == Section(section, r.value)
    ensures r.Ok? ==> r.value == secs[FirstSection(secs, section).value].vars
  {
    match FirstSection(secs, section)
    case None => Err(SectionNotFound(section))
    case Some(i) => Ok(secs[i].vars)
  }

  /**
    `getVariableValue` (hfclib.py:774-786): the existence test looks at every section, the
    lookup at the first matching one, where a missing key raises a `KeyError`.
   */
  function GetVariableValue(secs: seq<Section>, section: string, variable: string): (r: Result<Value>)
    ensures r == Err(SectionNotFound(section)) <==> !SectionExists(secs, section)
    ensures r == Err(VariableNotFound(variable)) <==> SectionExists(secs, section) && !VariableExists(secs, section, variable)
    ensures r.Ok? ==> Lookup(secs[FirstSection(secs, section).value].vars, variable) == Some(r.value)
    ensures r.Ok? <==> SectionExists(secs, section) && variable in Keys(secs[FirstSection(secs, section).value].vars)
    ensures r == Err(MissingKey(variable)) <==> (VariableExists(secs, section, variable)
      && variable !in Keys(secs[FirstSection(secs, section).value].vars))
  {
    match FirstSection(secs, section)
    case None => Err(SectionNotFound(section))
    case Some(i) =>
      if !VariableExists(secs, section, variable) then Err(VariableNotFound(variable))
      else
        match Lookup(secs[i].vars, variable)
        case Some(v) => Ok(v)
        case None => Err(MissingKey(variable))
  }

  /** `getVariableValueFromDict` (hfclib.py:790-794): a lookup whose `KeyError` becomes a `ValueError`. */
  function GetVariableValueFromDict(variable: string, vars: seq<Entry>): (r: Result<Value>)
    ensures r.Ok? <==> variable in Keys(vars)
    ensures r.Err? ==> r.error == VariableNotFound(variable)
    ensures r.Ok? ==> Lookup(vars, variable) == Some(r.value)
  {
    match Lookup(vars, variable)
    case Some(v) => Ok(v)
    case None => Err(VariableNotFound(variable))
  }

  /** `findSection` (hfclib.py:1001-1006): the variables of the first matching section, or `False`. */
  function FindSection(secs: seq<Section>, section: string): (r: Option<seq<Entry>>)
    ensures r.None? <==> !SectionExists(secs, section)
    ensures r.Some? ==> GetVariables(secs, section) == Ok(r.value)
  {
    match FirstSection(secs, section)
    case None => None
    case Some(i) => Some(secs[i].vars)
  }

  /** One entry of `findVariable`'s result: `{section: {variable: value}}`. */
  datatype Occurrence = Occurrence(section: string, value: Value)

  /** The occurrences of a variable, section by section in list order. */
  function Occurrences(secs: seq<Section>, variable: string): (r: seq<Occurrence>)
    ensures |r| <= |secs|
    decreases |secs|
  {
    if secs == [] then []
    else
      var init := Occurrences(secs[..|secs| - 1], variable);
      var last := secs[|secs| - 1];
      match Lookup(last.vars, variable)
      case None => init
      case Some(v) => init + [Occurrence(last.name, v)]
  }

  // ---------------------------------------------------------------------------------------
  // What the helpers promise
  // ---------------------------------------------------------------------------------------

  /** A variable added to a section reads back from it. */
  lemma AddThenGet(secs: seq<Section>, section: string, variable: string, v: Value)
    requires AddVariableTo(secs, section, variable, v).Ok?
    ensures GetVariableValue(AddVariableTo(secs, section, variable, v).value, section, variable) == Ok(v)
  {
    var i := FirstSection(secs, section).value;
    var r := AddVariableTo(secs, section, variable, v).value;
    assert FirstFrom(r, section, 0) == Some(i) by {
      FirstUnchanged(secs, r, section, 0);
    }
    assert variable in Keys(r[i].vars);
  }

  /** Adding one variable leaves what every other variable of that section reads. */
  lemma AddKeepsOthers(secs: seq<Section>, section: string, variable: string, v: Value, other: string)
    requires AddVariableTo(secs, section, variable, v).Ok? && other != variable
    ensures GetVariableValue(AddVariableTo(secs, section, variable, v).value, section, other)
      == GetVariableValue(secs, section, other)
  {
    var i := FirstSection(secs, section).value;
    var r := AddVariableTo(secs, section, variable, v).value;
    FirstUnchanged(secs, r, section, 0);
    assert Lookup(r[i].vars, other) == Lookup(secs[i].vars, other);
    assert VariableExists(r, section, other) == VariableExists(secs, section, other) by {
      forall j | 0 <= j < |secs|
        ensures other in Keys(r[j].vars) <==> other in Keys(secs[j].vars)
      {
        if j == i {
          assert Lookup(r[j].vars, other) == Lookup(secs[j].vars, other);
        }
      }
    }
  }

  /** A change that keeps every name keeps the first section of each name. */
  lemma {:induction false} FirstUnchanged(secs: seq<Section>, r: seq<Section>, name: string, i: nat)
    requires i <= |secs| == |r|
    requires forall j :: i <= j < |secs| ==> r[j].name == secs[j].name
    ensures FirstFrom(r, name, i) == FirstFrom(secs, name, i)
    decreases |secs| - i
  {
    if i < |secs| {
      FirstUnchanged(secs, r, name, i + 1);
    }
  }

  /** Once the variable exists somewhere, `editVariable` assigns exactly as `addVariable` does. */
  lemma EditIsAdd(secs: seq<Section>, section: string, variable: string, v: Value)
    requires EditVariableIn(secs, section, variable, v).Ok?
    ensures EditVariableIn(secs, section, variable, v) == AddVariableTo(secs, section, variable, v)
  {
  }

  /** A variable edited in a section reads back with the new value. */
  lemma EditThenGet(secs: seq<Section>, section: string, variable: string, v: Value)
    requires EditVariableIn(secs, section, variable, v).Ok?
    ensures GetVariableValue(EditVariableIn(secs, section, variable, v).value, section, variable) == Ok(v)
  {
    EditIsAdd(secs, section, variable, v);
    AddThenGet(secs, section, variable, v);
  }

  /** Editing one variable leaves what every other variable of that section reads. */
  lemma EditKeepsOthers(secs: seq<Section>, section: string, variable: string, v: Value, other: string)
    requires EditVariableIn(secs, section, variable, v).Ok? && other != variable
    ensures GetVariableValue(EditVariableIn(secs, section, variable, v).value, section, other)
      == GetVariableValue(secs, section, other)
  {
    EditIsAdd(secs, section, variable, v);
    AddKeepsOthers(secs, section, variable, v, other);
  }

  /** In a section without duplicate names a removed variable is gone. */
  lemma RemoveThenGone(secs: seq<Section>, section: string, variable: string)
    requires RemoveVariableFrom(secs, section, variable).Ok?
    requires UniqueKeys(secs[FirstSection(secs, section).value].vars)
    ensures var i := FirstSection(secs, section).value;
      Lookup(RemoveVariableFrom(secs, section, variable).value[i].vars, variable) == None
  {
    var i := FirstSection(secs, section).value;
    RemoveVarGone(secs[i].vars, variable);
  }

  /**
    Renaming moves the variable to the end of its section under the new name and with its
    value; the old name is gone.
   */
  lemma RenameMovesToEnd(secs: seq<Section>, section: string, oldName: string, newName: string)
    requires RenameVariableIn(secs, section, oldName, newName).Ok?
    requires UniqueKeys(secs[FirstSection(secs, section).value].vars)
    requires newName == oldName || newName !in Keys(secs[FirstSection(secs, section).value].vars)
    ensures var i := FirstSection(secs, section).value;
      var vars := secs[i].vars;
      var after := RenameVariableIn(secs, section, oldName, newName).value[i].vars;
      && Keys(after) == Keys(RemoveVar(vars, oldName)) + [newName]
      && Lookup(after, newName) == Lookup(vars, oldName)
      && (newName != oldName ==> Lookup(after, oldName) == None)
  {
    var i := FirstSection(secs, section).value;
    var vars := secs[i].vars;
    var rest := RemoveVar(vars, oldName);
    RemoveVarGone(vars, oldName);
    RemoveVarKeys(vars, oldName);
    PutVarKeys(rest, newName, Lookup(vars, oldName).value);
  }

  /** `editVariable` adds a variable that only some other section has to the first matching one. */
  lemma EditAddsMissingVariable(secs: seq<Section>, section: string, variable: string, v: Value, k: nat)
    requires k < |secs| && variable in Keys(secs[k].vars) && SectionExists(secs, section)
    requires variable !in Keys(secs[FirstSection(secs, section).value].vars)
    ensures EditVariableIn(secs, section, variable, v).Ok?
    ensures var i := FirstSection(secs, section).value;
      var after := EditVariableIn(secs, section, variable, v).value[i].vars;
      Keys(after) == Keys(secs[i].vars) + [variable] && Lookup(after, variable) == Some(v)
  {
    var i := FirstSection(secs, section).value;
    PutVarKeys(secs[i].vars, variable, v);
  }

  /** `getVariableValue` raises a `KeyError` for a variable that only some other section has. */
  lemma GetValueOfOtherSectionFails(secs: seq<Section>, section: string, variable: string, k: nat)
    requires k < |secs| && variable in Keys(secs[k].vars) && SectionExists(secs, section)
    requires variable !in Keys(secs[FirstSection(secs, section).value].vars)
    ensures GetVariableValue(secs, section, variable) == Err(MissingKey(variable))
  {
  }

  /** A section whose first occurrence is empty is removed from its place. */
  lemma RemoveEmptySection(secs: seq<Section>, section: string)
    requires SectionExists(secs, section) && secs[FirstSection(secs, section).value].vars == []
    ensures var i := FirstSection(secs, section).value;
      RemoveSectionFrom(secs, section) == Ok(secs[..i] + secs[i + 1..])
  {
    var i := FirstSection(secs, section).value;
    var s := Section(section, []);
    assert secs[i] == s;
    assert IndexOf(secs, s) == i;
  }

  /**
    `removeSection` skips a first matching section that has variables and removes a later
    empty one of the same name.
   */
  lemma RemoveSkipsNonEmpty(name: string, a: seq<Entry>)
    requires a != []
    ensures RemoveSectionFrom([Section(name, a), Section(name, [])], name) == Ok([Section(name, a)])
  {
    var secs := [Section(name, a), Section(name, [])];
    assert secs[1] == Section(name, []);
    assert IndexOf(secs, Section(name, [])) == 1;
    assert SectionExists(secs, name) by { assert secs[0].name == name; }
    assert RemoveFirst(secs, Section(name, [])) == secs[..1] + secs[2..] == [Section(name, a)];
  }

  /** `removeSection` does not remove a section that has variables. */
  lemma RemoveNonEmptySectionFails(secs: seq<Section>, section: string)
    requires SectionExists(secs, section)
    requires forall j :: 0 <= j < |secs| && secs[j].name == section ==> secs[j].vars != []
    ensures RemoveSectionFrom(secs, section) == Err(NotInList)
  {
  }

  /** `findVariable` reports only sections that hold the variable, with the value they hold. */
  lemma {:induction false} OccurrencesSound(secs: seq<Section>, variable: string, o: Occurrence)
    requires o in Occurrences(secs, variable)
    ensures exists i :: 0 <= i < |secs| && secs[i].name == o.section && Lookup(secs[i].vars, variable) == Some(o.value)
    decreases |secs|
  {
    var init := secs[..|secs| - 1];
    var last := secs[|secs| - 1];
    if o in Occurrences(init, variable) {
      OccurrencesSound(init, variable, o);
      var i :| 0 <= i < |init| && init[i].name == o.section && Lookup(init[i].vars, variable) == Some(o.value);
      assert secs[i] == init[i];
    } else {
      assert secs[|secs| - 1] == last;
    }
  }

  /** `findVariable` reports every section that holds the variable. */
  lemma {:induction false} OccurrencesComplete(secs: seq<Section>, variable: string, i: nat)
    requires i < |secs| && variable in Keys(secs[i].vars)
    ensures Occurrence(secs[i].name, Lookup(secs[i].vars, variable).value) in Occurrences(secs, variable)
    decreases |secs|
  {
    if i < |secs| - 1 {
      var init := secs[..|secs| - 1];
      assert init[i] == secs[i];
      OccurrencesComplete(init, variable, i);
    }
  }

  /** `findVariable` keeps document order: the occurrences of a list split in two are those of its halves, in turn. */
  lemma {:induction false} OccurrencesAppend(a: seq<Section>, b: seq<Section>, variable: string)
    ensures Occurrences(a + b, variable) == Occurrences(a, variable) + Occurrences(b, variable)
    decreases |b|
  {
    if b == [] {
      assert a + b == a;
    } else {
      var b0 := b[..|b| - 1];
      assert (a + b)[..|a + b| - 1] == a + b0;
      OccurrencesAppend(a, b0, variable);
    }
  }

  // ---------------------------------------------------------------------------------------
  // `_clear_empty_sections`
  // ---------------------------------------------------------------------------------------

  /**
    `_clear_empty_sections` (hfclib.py:291-300) with the list iterator at position `i`: a
    section named `""` is removed with `list.remove`, so the section after it moves into
    the position the iterator has just passed and is never looked at.
   */
  function ClearFrom(secs: seq<Section>, i: nat): (r: seq<Section>)
    ensures |r| <= |secs|
    decreases |secs| - i
  {
    if i >= |secs| then secs
    else if secs[i].name == "" then ClearFrom(RemoveFirst(secs, secs[i]), i + 1)
    else ClearFrom(secs, i + 1)
  }

  /** The sections that have a name, in order. */
  function Named(secs: seq<Section>): (r: seq<Section>)
    ensures forall s :: s in r ==> s in secs && s.name != ""
  {
    if secs == [] then []
    else if secs[0].name == "" then Named(secs[1..])
    else [secs[0]] + Named(secs[1..])
  }

  lemma {:induction false} NamedAppend(a: seq<Section>, b: seq<Section>)
    ensures Named(a + b) == Named(a) + Named(b)
    decreases |a|
  {
    if a != [] {
      assert (a + b)[1..] == a[1..] + b;
      NamedAppend(a[1..], b);
    } else {
      assert a + b == b;
    }
  }

  /** Removing an unnamed section leaves the named ones as they were. */
  lemma RemoveUnnamedKeepsNamed(secs: seq<Section>, s: Section)
    requires s in secs && s.name == ""
    ensures Named(RemoveFirst(secs, s)) == Named(secs)
  {
    var i := IndexOf(secs, s);
    var a, b := secs[..i], secs[i + 1..];
    assert secs == a + ([s] + b);
    NamedAppend(a, [s] + b);
    assert Named([s] + b) == Named(b) by {
      assert ([s] + b)[1..] == b;
    }
    NamedAppend(a, b);
  }

  /** Clearing keeps every named section, in order. */
  lemma {:induction false} ClearKeepsNamed(secs: seq<Section>, i: nat)
    ensures Named(ClearFrom(secs, i)) == Named(secs)
    decreases |secs| - i
  {
    if i < |secs| {
      if secs[i].name == "" {
        RemoveUnnamedKeepsNamed(secs, secs[i]);
        ClearKeepsNamed(RemoveFirst(secs, secs[i]), i + 1);
      } else {
        ClearKeepsNamed(secs, i + 1);
      }
    }
  }

  /** No two unnamed sections next to each other. */
  predicate NoAdjacentUnnamed(secs: seq<Section>) {
    forall j :: 0 <= j < |secs| - 1 ==> secs[j].name != "" || secs[j + 1].name != ""
  }

  /** When no two unnamed sections are adjacent, clearing removes every unnamed one. */
  lemma {:induction false} ClearRemovesUnnamed(secs: seq<Section>, i: nat)
    requires i <= |secs|
    requires forall j :: 0 <= j < i ==> secs[j].name != ""
    requires NoAdjacentUnnamed(secs)
    ensures forall s :: s in ClearFrom(secs, i) ==> s.name != ""
    decreases |secs| - i
  {
    if i < |secs| {
      if secs[i].name == "" {
        var k := IndexOf(secs, secs[i]);
        assert k == i;
        var r := RemoveFirst(secs, secs[i]);
        assert r == secs[..i] + secs[i + 1..];
        forall j | 0 <= j < i + 1 && j < |r|
          ensures r[j].name != ""
        {
          if j == i {
            assert r[j] == secs[i + 1];
          }
        }
        if i + 1 <= |r| {
          assert NoAdjacentUnnamed(r) by {
            forall j | 0 <= j < |r| - 1
              ensures r[j].name != "" || r[j + 1].name != ""
            {
              if j >= i {
                assert r[j] == secs[j + 1] && r[j + 1] == secs[j + 2];
              } else if j + 1 == i {
                assert r[j] == secs[j];
              }
            }
          }
          ClearRemovesUnnamed(r, i + 1);
        } else {
          assert ClearFrom(r, i + 1) == r;
        }
      } else {
        ClearRemovesUnnamed(secs, i + 1);
      }
    }
  }

  /** Two adjacent unnamed sections: the second one is skipped and survives. */
  lemma AdjacentUnnamedSurvives(a: seq<Entry>, b: seq<Entry>)
    ensures ClearFrom([Section("", a), Section("", b)], 0) == [Section("", b)]
  {
    var secs := [Section("", a), Section("", b)];
    assert IndexOf(secs, secs[0]) == 0;
    assert RemoveFirst(secs, secs[0]) == [Section("", b)];
  }

  // ---------------------------------------------------------------------------------------
  // The list the library mutates in place
  // ---------------------------------------------------------------------------------------

  /** What an in-place helper did: on success the new list, on failure nothing changed. */
  predicate Applied(r: Result<seq<Section>>, o: Outcome, before: seq<Section>, after: seq<Section>) {
    match r
    case Ok(s) => o == Pass && after == s
    case Err(e) => o == Fail(e) && after == before
  }

  /**
    The `hfc_list` the helpers receive: they change it in place (and also return it, which
    the model leaves out since the caller already holds it).
   */
  class HfcList {
    var sections: seq<Section>

    /** `generateHFC` (hfclib.py:1036-1045): one unnamed, empty section. */
    constructor Generate()
      ensures sections == [Section("", [])]
    {
      sections := [Section("", [])];
    }

    /** A list produced elsewhere, for instance by `parseHfc`. */
    constructor Of(secs: seq<Section>)
      ensures sections == secs
    {
      sections := secs;
    }

    /** The scan `index = 0; for section in hfc_list: if name in section: ... break; index += 1`. */
    method FindIndex(name: string) returns (index: nat)
      requires SectionExists(sections, name)
      ensures FirstSection(sections, name) == Some(index)
    {
      index := 0;
      while sections[index].name != name
        invariant index < |sections|
        invariant forall j :: 0 <= j < index ==> sections[j].name != name
        invariant exists j :: index <= j < |sections| && sections[j].name == name
        decreases |sections| - index
      {
        index := index + 1;
      }
      FirstIs(sections, name, index);
    }

    /** `addSection` (hfclib.py:607-610): `{name: {}}` is appended. */
    method AddSection(name: string)
      modifies this
      ensures sections == old(sections) + [Section(name, [])]
    {
      sections := sections + [Section(name, [])];
    }

    /** `removeSection` (hfclib.py:636-643). */
    method RemoveSection(name: string) returns (o: Outcome)
      modifies this
      ensures Applied(RemoveSectionFrom(old(sections), name), o, old(sections), sections)
    {
      if !SectionExists(sections, name) {
        return Fail(SectionNotFound(name));
      }
      if Section(name, []) !in sections {
        return Fail(NotInList);
      }
      sections := RemoveFirst(sections, Section(name, []));
      o := Pass;
    }

    /** `editSection` (hfclib.py:671-687). */
    method EditSection(name: string, newName: string) returns (o: Outcome)
      modifies this
      ensures Applied(EditSectionIn(old(sections), name, newName), o, old(sections), sections)
    {
      if !SectionExists(sections, name) {
        return Fail(SectionNotFound(name));
      }
      var index := FindIndex(name);
      sections := sections[index := Section(newName, sections[index].vars)];
      o := Pass;
    }

    /** `addVariable` (hfclib.py:819-835). */
    method AddVariable(section: string, variable: string, v: Value) returns (o: Outcome)
      modifies this
      ensures Applied(AddVariableTo(old(sections), section, variable, v), o, old(sections), sections)
    {
      if !SectionExists(sections, section) {
        return Fail(SectionNotFound(section));
      }
      var index := FindIndex(section);
      sections := sections[index := Section(section, PutVar(sections[index].vars, variable, v))];
      o := Pass;
    }

    /** `removeVariable` (hfclib.py:863-884). */
    method RemoveVariable(section: string, variable: string) returns (o: Outcome)
      modifies this
      ensures Applied(RemoveVariableFrom(old(sections), section, variable), o, old(sections), sections)
    {
      if !SectionExists(sections, section) {
        return Fail(SectionNotFound(section));
      }
      var index := FindIndex(section);
      if !VariableExists(sections, section, variable) {
        return Fail(VariableNotFound(variable));
      }
      if variable !in Keys(sections[index].vars) {
        return Fail(MissingKey(variable));
      }
      sections := sections[index := Section(section, RemoveVar(sections[index].vars, variable))];
      o := Pass;
    }

    /** `renameVariable` (hfclib.py:914-932). */
    method RenameVariable(section: string, oldName: string, newName: string) returns (o: Outcome)
      modifies this
      ensures Applied(RenameVariableIn(old(sections), section, oldName, newName), o, old(sections), sections)
    {
      if !SectionExists(sections, section) {
        return Fail(SectionNotFound(section));
      }
      var index := FindIndex(section);
      if !VariableExists(sections, section, oldName) {
        return Fail(VariableNotFound(oldName));
      }
      var vars := sections[index].vars;
      if oldName !in Keys(vars) {
        return Fail(MissingKey(oldName));
      }
      var value := Lookup(vars, oldName).value;
      sections := sections[index := Section(section, PutVar(RemoveVar(vars, oldName), newName, value))];
      o := Pass;
    }

    /** `editVariable` (hfclib.py:961-979). */
    method EditVariable(section: string, variable: string, v: Value) returns (o: Outcome)
      modifies this
      ensures Applied(EditVariableIn(old(sections), section, variable, v), o, old(sections), sections)
      ensures o.Pass? ==> GetVariableValue(sections, section, variable) == Ok(v)
    {
      if !SectionExists(sections, section) {
        return Fail(SectionNotFound(section));
      }
      var index := FindIndex(section);
      if !VariableExists(sections, section, variable) {
        return Fail(VariableNotFound(variable));
      }
      EditThenGet(sections, section, variable, v);
      sections := sections[index := Section(section, PutVar(sections[index].vars, variable, v))];
      o := Pass;
    }

    /** `getSections` (hfclib.py:706-710): the name of every section, in order. */
    method GetSections() returns (names: seq<string>)
      ensures names == Names(sections)
    {
      names := [];
      for k := 0 to |sections|
        invariant names == Names(sections[..k])
      {
        assert Names(sections[..k + 1]) == Names(sections[..k]) + [sections[k].name];
        names := names + [sections[k].name];
      }
      assert sections[..|sections|] == sections;
    }

    /** `findVariable` (hfclib.py:1026-1032): every section holding the variable, in order. */
    method FindVariable(variable: string) returns (found: seq<Occurrence>)
      ensures found == Occurrences(sections, variable)
    {
      found := [];
      for k := 0 to |sections|
        invariant found == Occurrences(sections[..k], variable)
      {
        assert sections[..k + 1][..k] == sections[..k];
        match Lookup(sections[k].vars, variable)
        case Some(v) =>
          found := found + [Occurrence(sections[k].name, v)];
        case None =>
      }
      assert sections[..|sections|] == sections;
    }

    /** `_clear_empty_sections` (hfclib.py:291-300): removal while iterating. */
    method ClearEmptySections()
      modifies this
      ensures sections == ClearFrom(old(sections), 0)
    {
      var i := 0;
      while i < |sections|
        invariant ClearFrom(sections, i) == ClearFrom(old(sections), 0)
        decreases |sections| - i
      {
        var section := sections[i];
        i := i + 1;
        if section.name == "" {
          sections := RemoveFirst(sections, section);
        }
      }
    }

    /**
      `parseList` (hfclib.py:446-477) without the file write: the list is cleared in place,
      then every section is written as a header followed by one line per variable.
     */
    method ParseList(newlineAfterSection: bool, spacing: bool, st: Style) returns (r: Result<string>)
      modifies this
      ensures sections == ClearFrom(old(sections), 0)
      ensures r == RenderSections(sections, Space(spacing), Newline(newlineAfterSection), st)
    {
      var hfc := "";
      var space := "";
      var newline := "";
      if spacing {
        space := " ";
      }
      if newlineAfterSection {
        newline := "\n";
      }
      ClearEmptySections();
      r := Render(space, newline, st);
    }

    /** The layout loop of `parseList` (hfclib.py:460-471), over sections already cleared. */
    method Render(space: string, newline: string, st: Style) returns (r: Result<string>)
      ensures r == RenderSections(sections, space, newline, st)
    {
      var secs := sections;
      var hfc := "";
      for k := 0 to |secs|
        invariant RenderSections(secs[..k], space, newline, st) == Ok(hfc)
      {
        var lines := WriteVariables(secs[k].vars, space, st);
        RenderSectionsStep(secs, k, hfc, space, newline, st);
        if lines.Err? {
          return lines;
        }
        hfc := hfc + (HeaderText(secs[k].name, space, newline) + lines.value);
      }
      assert secs[..|secs|] == secs;
      r := Ok(hfc);
    }
  }

  /** The inner loop of `parseList` (hfclib.py:465-471): one line per variable, in order. */
  method WriteVariables(vars: seq<Entry>, space: string, st: Style) returns (r: Result<string>)
    ensures r == RenderVars(vars, space, st)
  {
    var text := "";
    for j := 0 to |vars|
      invariant RenderVars(vars[..j], space, st) == Ok(text)
    {
      var enc := Encode(vars[j].value, st);
      assert vars[..j + 1][..j] == vars[..j];
      if enc.Err? {
        RenderVarsErrorStays(vars, j + 1, space, st);
        return Err(enc.error);
      }
      text := text + VariableText(vars[j].name, space, enc.value);
    }
    assert vars[..|vars|] == vars;
    r := Ok(text);
  }

  /** A scan that stopped at the first match found the first section with the name. */
  lemma FirstIs(secs: seq<Section>, name: string, index: nat)
    requires index < |secs| && secs[index].name == name
    requires forall j :: 0 <= j < index ==> secs[j].name != name
    ensures FirstSection(secs, name) == Some(index)
  {
  }
}
