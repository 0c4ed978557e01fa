/**
  The handful of Python `str` operations the converter relies on: `strip()`, `startswith`,
  `endswith`, `in`, `split(sep)`, `sep.join(...)` and `replace(old, "")`, written out on
  `seq<char>` together with the facts about them that the rest of the model uses.
 */
module Strings {
  import opened Base

  /** Python's `str.isspace()`: the characters `str.strip()` and `\s` treat as whitespace. */
  predicate IsSpace(c: char) {
    c == ' ' || c == '\t' || c == '\n' || c == '\r' || c == '\U{0B}' || c == '\U{0C}'
    || ('\U{1C}' <= c <= '\U{1F}') || c == '\U{85}' || c == '\U{A0}' || c == '\U{1680}'
    || ('\U{2000}' <= c <= '\U{200A}') || c == '\U{2028}' || c == '\U{2029}'
    || c == '\U{202F}' || c == '\U{205F}' || c == '\U{3000}'
  }

  /** The regular expression `^\s*$`, the library's test for an invalid name. */
  predicate IsBlank(s: string) {
    forall i :: 0 <= i < |s| ==> IsSpace(s[i])
  }

  /** No whitespace at either end. */
  predicate IsTrimmed(s: string) {
    s == [] || (!IsSpace(s[0]) && !IsSpace(s[|s| - 1]))
  }

  /**
    Python's `str.strip()`; the library's `_strip` (hfclib.py:35-42) strips nothing more.
    Whitespace is taken off the front first, then off the back.
   */
  function Trim(s: string): (r: string)
    ensures |r| <= |s|
    ensures IsTrimmed(r)
    ensures r == [] <==> IsBlank(s)
    decreases |s|
  {
    if |s| > 0 && IsSpace(s[0]) then
      var r := Trim(s[1..]);
      assert IsBlank(s) <==> IsBlank(s[1..]) by {
        assert forall i :: 0 <= i < |s[1..]| ==> s[1..][i] == s[i + 1];
      }
      r
    else if |s| > 0 && IsSpace(s[|s| - 1]) then
      var r := Trim(s[..|s| - 1]);
      assert IsBlank(s) <==> IsBlank(s[..|s| - 1]);
      r
    else s
  }

  lemma TrimTrimmed(s: string)
    requires IsTrimmed(s)
    ensures Trim(s) == s
  {
  }

  /** Blank padding on either side of a trimmed string does not survive `strip()`. */
  lemma {:induction false} TrimPadded(l: string, s: string, r: string)
    requires IsBlank(l) && IsTrimmed(s) && IsBlank(r)
    ensures Trim(l + s + r) == s
    decreases |l| + |r|
  {
    var t := l + s + r;
    if l != [] {
      assert t[0] == l[0];
      assert t[1..] == l[1..] + s + r;
      TrimPadded(l[1..], s, r);
    } else if r != [] {
      if s == [] {
        assert t == [] + [] + r;
        assert t[1..] == [] + [] + r[1..];
        TrimPadded([], [], r[1..]);
      } else {
        assert t[0] == s[0] && t[|t| - 1] == r[|r| - 1];
        assert t[..|t| - 1] == [] + s + r[..|r| - 1];
        TrimPadded([], s, r[..|r| - 1]);
      }
    } else {
      assert t == s;
    }
  }

  predicate StartsWith(s: string, p: string) {
    |p| <= |s| && s[..|p|] == p
  }

  predicate EndsWith(s: string, p: string) {
    |p| <= |s| && s[|s| - |p|..] == p
  }

  /** `p` occurs in `s` starting at index `j`. */
  predicate OccursAt(s: string, p: string, j: int) {
    0 <= j && j + |p| <= |s| && s[j..j + |p|] == p
  }

  /** `s.find(p, i)`: the first occurrence of `p` in `s` at or after `i`. */
  function FindFrom(s: string, p: string, i: nat): (r: Option<nat>)
    decreases |s| - i
    ensures r.Some? ==> i <= r.value && OccursAt(s, p, r.value)
    ensures r.Some? ==> forall j :: i <= j < r.value ==> !OccursAt(s, p, j)
    ensures r.None? ==> forall j :: i <= j ==> !OccursAt(s, p, j)
  {
    if i + |p| > |s| then None
    else if s[i..i + |p|] == p then Some(i)
    else FindFrom(s, p, i + 1)
  }

  function Find(s: string, p: string): Option<nat> {
    FindFrom(s, p, 0)
  }

  /** Python's `p in s`. */
  predicate Contains(s: string, p: string) {
    Find(s, p).Some?
  }

  /** The first occurrence is determined by where `p` occurs. */
  lemma FindIs(s: string, p: string, k: nat)
    requires OccursAt(s, p, k)
    requires forall j :: 0 <= j < k ==> !OccursAt(s, p, j)
    ensures Find(s, p) == Some(k)
  {
  }

  lemma FindNone(s: string, p: string)
    requires forall j :: 0 <= j ==> !OccursAt(s, p, j)
    ensures Find(s, p) == None
  {
  }

  /** A string that lacks the first character of `p` does not contain `p`. */
  lemma FindWithoutFirstChar(s: string, p: string)
    requires p != [] && p[0] !in s
    ensures Find(s, p) == None
  {
    forall j | 0 <= j
      ensures !OccursAt(s, p, j)
    {
      if j + |p| <= |s| {
        assert s[j..j + |p|][0] == s[j];
      }
    }
  }

  /** Appending text after the first occurrence does not move it. */
  lemma FindExtend(a: string, b: string, p: string)
    requires Find(a, p).Some?
    ensures Find(a + b, p) == Find(a, p)
  {
    var k := Find(a, p).value;
    assert (a + b)[k..k + |p|] == a[k..k + |p|];
    forall j | 0 <= j < k
      ensures !OccursAt(a + b, p, j)
    {
      assert !OccursAt(a, p, j);
      assert (a + b)[j..j + |p|] == a[j..j + |p|];
    }
    FindIs(a + b, p, k);
  }

  /** Python's `s.split(sep)` for a non-empty separator. */
  function Split(s: string, sep: string): (r: seq<string>)
    requires sep != []
    ensures |r| >= 1
    decreases |s|
  {
    match Find(s, sep)
    case None => [s]
    case Some(i) => [s[..i]] + Split(s[i + |sep|..], sep)
  }

  /** Python's `sep.join(parts)`. */
  function Join(parts: seq<string>, sep: string): string
    decreases |parts|
  {
    if |parts| == 0 then ""
    else if |parts| == 1 then parts[0]
    else parts[0] + sep + Join(parts[1..], sep)
  }

  /** Python's `s.replace(p, "")`: every non-overlapping occurrence, left to right, removed. */
  function RemoveAll(s: string, p: string): string
    requires p != []
  {
    Join(Split(s, p), "")
  }

  /** Cut `s` at the first occurrence of `m`: Python's `s.split(m)[0]`. */
  function CutAt(s: string, m: string): (r: string)
    requires m != []
    ensures StartsWith(s, r)
    ensures !Contains(r, m)
  {
    match Find(s, m)
    case None => s
    case Some(i) =>
      assert !Contains(s[..i], m) by {
        forall j | 0 <= j
          ensures !OccursAt(s[..i], m, j)
        {
          if j + |m| <= i {
            assert !OccursAt(s, m, j);
            assert s[..i][j..j + |m|] == s[j..j + |m|];
          }
        }
      }
      s[..i]
  }

  /** Splitting and re-joining with the same separator gives the text back. */
  lemma {:induction false} JoinSplit(s: string, sep: string)
    requires sep != []
    ensures Join(Split(s, sep), sep) == s
    decreases |s|
  {
    var f := Find(s, sep);
    if f.Some? {
      var i := f.value;
      var rest := s[i + |sep|..];
      var tail := Split(rest, sep);
      JoinSplit(rest, sep);
      assert Split(s, sep) == [s[..i]] + tail;
      assert ([s[..i]] + tail)[1..] == tail;
      assert s == s[..i] + sep + rest;
    }
  }

  /** `p` contains `sep` nowhere except as the `sep` appended right after it. */
  predicate SepFree(p: string, sep: string) {
    Find(p + sep, sep) == Some(|p|)
  }

  lemma SepFreeNotContained(p: string, sep: string)
    requires sep != [] && SepFree(p, sep)
    ensures Find(p, sep) == None
  {
    forall j | 0 <= j
      ensures !OccursAt(p, sep, j)
    {
      if j + |sep| <= |p| {
        assert !OccursAt(p + sep, sep, j);
        assert (p + sep)[j..j + |sep|] == p[j..j + |sep|];
      }
    }
  }

  /** A part without the separator's first character is separator-free. */
  lemma SepFreeWithoutFirstChar(p: string, sep: string)
    requires sep != [] && sep[0] !in p
    ensures SepFree(p, sep)
  {
    assert (p + sep)[|p|..|p| + |sep|] == sep;
    forall j | 0 <= j < |p|
      ensures !OccursAt(p + sep, sep, j)
    {
      if j + |sep| <= |p + sep| {
        assert (p + sep)[j..j + |sep|][0] == p[j];
      }
    }
    FindIs(p + sep, sep, |p|);
  }

  /** Joining separator-free parts and splitting again gives the parts back. */
  lemma {:induction false} SplitJoin(parts: seq<string>, sep: string)
    requires sep != [] && |parts| >= 1
    requires forall i :: 0 <= i < |parts| ==> SepFree(parts[i], sep)
    ensures Split(Join(parts, sep), sep) == parts
    decreases |parts|
  {
    SepFreeNotContained(parts[0], sep);
    if |parts| > 1 {
      var p := parts[0];
      var rest := Join(parts[1..], sep);
      FindExtend(p + sep, rest, sep);
      assert p + sep + rest == (p + sep) + rest;
      var s := Join(parts, sep);
      assert s[..|p|] == p;
      assert s[|p| + |sep|..] == rest;
      SplitJoin(parts[1..], sep);
      assert Split(s, sep) == [p] + parts[1..];
    }
  }

  /** `m` occurs first right after a prefix `x` that lacks `m`'s first character. */
  lemma FindAfter(x: string, m: string, c: string)
    requires m != [] && m[0] !in x
    ensures Find(x + m + c, m) == Some(|x|)
  {
    var s := x + m + c;
    assert s[|x|..|x| + |m|] == m;
    forall j | 0 <= j < |x|
      ensures !OccursAt(s, m, j)
    {
      if j + |m| <= |s| {
        assert s[j..j + |m|][0] == s[j] == x[j];
      }
    }
    FindIs(s, m, |x|);
  }

  /** Cutting at `m` keeps at least the first `k` characters when none of them starts `m`. */
  lemma CutAtKeeps(s: string, m: string, k: nat)
    requires m != [] && k <= |s| && m[0] !in s[..k]
    ensures |CutAt(s, m)| >= k && CutAt(s, m)[..k] == s[..k]
  {
    match Find(s, m)
    case None =>
    case Some(i) =>
      assert i >= k;
      assert CutAt(s, m)[..k] == s[..i][..k];
  }

  /** Joining two non-empty runs puts exactly one separator between them. */
  lemma {:induction false} JoinAppend(a: seq<string>, b: seq<string>, sep: string)
    requires |a| > 0 && |b| > 0
    ensures Join(a + b, sep) == Join(a, sep) + sep + Join(b, sep)
    decreases |a|
  {
    if |a| > 1 {
      assert (a + b)[1..] == a[1..] + b;
      JoinAppend(a[1..], b, sep);
    } else {
      assert (a + b)[1..] == b;
    }
  }

  /** Dropping leading parts never lengthens the joined text. */
  lemma {:induction false} JoinSuffixShorter(ts: seq<string>, d: nat, sep: string)
    requires d <= |ts|
    ensures |Join(ts[d..], sep)| <= |Join(ts, sep)|
    decreases d
  {
    if d > 0 {
      JoinSuffixShorter(ts[1..], d - 1, sep);
      assert ts[1..][d - 1..] == ts[d..];
    }
  }

  /** Each part is no longer than the joined text. */
  lemma {:induction false} PartShorterThanJoin(ts: seq<string>, i: nat, sep: string)
    requires i < |ts|
    ensures |ts[i]| <= |Join(ts, sep)|
    decreases i
  {
    if i > 0 {
      PartShorterThanJoin(ts[1..], i - 1, sep);
    }
  }

  /** A text lacking any one character of `p` does not contain `p`. */
  lemma NotContainedWithout(s: string, p: string, k: nat)
    requires k < |p| && p[k] !in s
    ensures !Contains(s, p)
  {
    forall j | 0 <= j
      ensures !OccursAt(s, p, j)
    {
      if j + |p| <= |s| {
        assert s[j..j + |p|][k] == s[j + k];
      }
    }
    FindNone(s, p);
  }

  /** A character in neither the parts nor the separator is not in their join. */
  lemma {:induction false} JoinLacks(parts: seq<string>, sep: string, c: char)
    requires c !in sep && forall i :: 0 <= i < |parts| ==> c !in parts[i]
    ensures c !in Join(parts, sep)
    decreases |parts|
  {
    if |parts| > 1 {
      JoinLacks(parts[1..], sep, c);
    }
  }

  /** A join of non-empty parts begins with the first part and ends with the last. */
  lemma JoinEnds(parts: seq<string>, sep: string)
    requires |parts| >= 1 && forall i :: 0 <= i < |parts| ==> parts[i] != []
    ensures var j := Join(parts, sep);
      j != [] && j[0] == parts[0][0] && j[|j| - 1] == parts[|parts| - 1][|parts[|parts| - 1]| - 1]
  {
    var n := |parts|;
    if n > 1 {
      JoinAppend(parts[..n - 1], [parts[n - 1]], sep);
      assert parts[..n - 1] + [parts[n - 1]] == parts;
    }
  }
}
