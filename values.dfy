/**
  The document model: typed values, the variables of a section in insertion order (a Python
  dict), and the language constants of `langconf` (hfclib.py:15-32).
 */
module Values {
  import opened Base
  import opened Strings

  /**
    A converted value. Floats keep the digits on either side of the separator (`3,14` gives
    `Flt("3", "14")`) instead of an IEEE double.
   */
  datatype Value =
    | Str(s: string)
    | Int(i: int)
    | Flt(intPart: string, frac: string)
    | Bool(b: bool)
    | List(items: seq<Value>)
    | Null

  /** One `name: value` item of a section dict. */
  datatype Entry = Entry(name: string, value: Value)

  /** A section `{name: {variables...}}` of the parsed list. */
  datatype Section = Section(name: string, vars: seq<Entry>)

  const CommentChars: seq<string> := ["->", "//", "#"]
  const SectionSeparator: string := "=="
  const VariableSeparator: string := "="
  const StringChar: string := "\""
  const ListChars: seq<string> := ["[", "]", "(", ")"]
  const ListIndexSep: string := ", "
  const StandardFloatSep: string := "."
  const AllFloatSeps: seq<string> := [",", "."]
  const BooleanTrue: seq<string> := ["yes", "true", "sim", "verdadeiro", "y", "s"]
  const BooleanFalse: seq<string> := ["no", "false", "nao", "falso", "n"]

  /** The variable names of a section, in insertion order (`dict.keys()`). */
  function Keys(vars: seq<Entry>): (ks: seq<string>)
    ensures |ks| == |vars|
    ensures forall i :: 0 <= i < |vars| ==> ks[i] == vars[i].name
  {
    if vars == [] then [] else [vars[0].name] + Keys(vars[1..])
  }

  /** The section names, in list order. */
  function Names(secs: seq<Section>): (ns: seq<string>)
    ensures |ns| == |secs|
  {
    seq(|secs|, i requires 0 <= i < |secs| => secs[i].name)
  }

  /** Dict keys are unique. */
  predicate UniqueKeys(vars: seq<Entry>) {
    forall i, j :: 0 <= i < j < |vars| ==> vars[i].name != vars[j].name
  }

  /** `d.get(name)`: the value stored under `name`, if any. */
  function Lookup(vars: seq<Entry>, name: string): (r: Option<Value>)
    ensures r.Some? <==> name in Keys(vars)
  {
    if vars == [] then None
    else if vars[0].name == name then Some(vars[0].value)
    else Lookup(vars[1..], name)
  }

  /**
    `d[name] = v`: the key now maps to `v` and every other key keeps its value.
   */
  function PutVar(vars: seq<Entry>, name: string, v: Value): (r: seq<Entry>)
    ensures Lookup(r, name) == Some(v)
    ensures forall k :: k != name ==> Lookup(r, k) == Lookup(vars, k)
  {
    if vars == [] then [Entry(name, v)]
    else if vars[0].name == name then [Entry(name, v)] + vars[1..]
    else [vars[0]] + PutVar(vars[1..], name, v)
  }

  /** An existing key keeps its place, a new key goes last. */
  lemma {:induction false} PutVarKeys(vars: seq<Entry>, name: string, v: Value)
    ensures Keys(PutVar(vars, name, v)) == if name in Keys(vars) then Keys(vars) else Keys(vars) + [name]
  {
    if vars != [] && vars[0].name != name {
      PutVarKeys(vars[1..], name, v);
      assert Keys(vars) == [vars[0].name] + Keys(vars[1..]);
      assert Keys(PutVar(vars, name, v)) == [vars[0].name] + Keys(PutVar(vars[1..], name, v));
    }
  }

  /** Assigning a key the dict does not have appends the entry and changes nothing else. */
  lemma {:induction false} PutVarNew(vars: seq<Entry>, name: string, v: Value)
    requires name !in Keys(vars)
    ensures PutVar(vars, name, v) == vars + [Entry(name, v)]
  {
    if vars != [] {
      var rest := vars[1..];
      assert Keys(vars) == [vars[0].name] + Keys(rest);
      assert vars[0].name != name && name !in Keys(rest);
      PutVarNew(rest, name, v);
      assert PutVar(vars, name, v) == [vars[0]] + PutVar(rest, name, v);
      assert [vars[0]] + (rest + [Entry(name, v)]) == vars + [Entry(name, v)];
    }
  }

  /** Assignment keeps the keys of a dict unique. */
  lemma PutVarUnique(vars: seq<Entry>, name: string, v: Value)
    requires UniqueKeys(vars)
    ensures UniqueKeys(PutVar(vars, name, v))
  {
    var r := PutVar(vars, name, v);
    var ks := Keys(r);
    PutVarKeys(vars, name, v);
    forall i, j | 0 <= i < j < |r|
      ensures r[i].name != r[j].name
    {
      assert r[i].name == ks[i] && r[j].name == ks[j];
      assert ks[i] == vars[i].name;
      if j < |vars| {
        assert ks[j] == vars[j].name;
      } else {
        assert ks[j] == name && name !in Keys(vars);
        assert Keys(vars)[i] == vars[i].name;
      }
    }
  }

  /** `d.pop(name)` on a key that is present: that entry leaves, the others keep their order. */
  function RemoveVar(vars: seq<Entry>, name: string): (r: seq<Entry>)
    requires name in Keys(vars)
    ensures |r| == |vars| - 1
    ensures forall k :: k != name ==> Lookup(r, k) == Lookup(vars, k)
  {
    if vars[0].name == name then vars[1..]
    else [vars[0]] + RemoveVar(vars[1..], name)
  }

  /** In a dict the first key does not come back in the rest, which is a dict too. */
  lemma UniqueTail(vars: seq<Entry>)
    requires vars != [] && UniqueKeys(vars)
    ensures vars[0].name !in Keys(vars[1..]) && UniqueKeys(vars[1..])
  {
    var tail := vars[1..];
    forall j | 0 <= j < |tail|
      ensures Keys(tail)[j] != vars[0].name
    {
      assert tail[j] == vars[j + 1];
    }
  }

  /** A key in front of a dict without it gives a dict. */
  lemma UniqueCons(e: Entry, rest: seq<Entry>)
    requires UniqueKeys(rest) && e.name !in Keys(rest)
    ensures UniqueKeys([e] + rest)
  {
    var r := [e] + rest;
    forall i, j | 0 <= i < j < |r|
      ensures r[i].name != r[j].name
    {
      assert r[j] == rest[j - 1];
      assert Keys(rest)[j - 1] == r[j].name;
      if i > 0 {
        assert r[i] == rest[i - 1];
      }
    }
  }

  /** In a dict the popped key is gone afterwards. */
  lemma {:induction false} RemoveVarGone(vars: seq<Entry>, name: string)
    requires name in Keys(vars) && UniqueKeys(vars)
    ensures Lookup(RemoveVar(vars, name), name) == None
    ensures UniqueKeys(RemoveVar(vars, name))
  {
    UniqueTail(vars);
    if vars[0].name != name {
      var tail := vars[1..];
      RemoveVarGone(tail, name);
      RemoveVarKeys(tail, name);
      UniqueCons(vars[0], RemoveVar(tail, name));
    }
  }

  /** Popping removes exactly one key from the key sequence. */
  lemma {:induction false} RemoveVarKeys(vars: seq<Entry>, name: string)
    requires name in Keys(vars)
    ensures forall k :: k in Keys(RemoveVar(vars, name)) ==> k in Keys(vars)
  {
    if vars[0].name != name {
      RemoveVarKeys(vars[1..], name);
      assert Keys(RemoveVar(vars, name)) == [vars[0].name] + Keys(RemoveVar(vars[1..], name));
    }
  }

  /** None of the characters that end a line, start a declaration's value or start a comment. */
  predicate LineSafe(t: string) {
    '=' !in t && '\n' !in t && '>' !in t && '/' !in t && '#' !in t
  }
}
