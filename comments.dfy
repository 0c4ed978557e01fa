/**
  Reading and writing comments in HFC text: `getComments` (hfclib.py:543-586) and
  `addComments` (hfclib.py:503-540), on a text given as a string.

  A comment is a line number (counted from 1) and a text. `getComments` reports, marker by
  marker in the order `->`, `//`, `#`, every line that holds the marker; `addComments`
  appends `marker + " " + text` to the lines it is given comments for.
 */
module Comments {
  import opened Base
  import opened Strings
  import opened Values

  /** `[line, text]`: a comment, with its line number counted from 1. */
  datatype Comment = Comment(line: int, text: string)

  // ---------------------------------------------------------------------------------------
  // Reading
  // ---------------------------------------------------------------------------------------

  /**
    The comment one line holds for one marker: `ln.split(marker)` with its last piece
    stripped; the comment is the second piece.
   */
  function LineComment(ln: string, m: string): (r: Option<string>)
    requires m != []
    ensures r.Some? <==> Contains(ln, m)
  {
    var pieces := Split(ln, m);
    if |pieces| > 1 then Some(if |pieces| == 2 then Trim(pieces[1]) else pieces[1])
    else None
  }

  /** The comment of a line holding a marker: up to the next marker, or the stripped rest. */
  lemma LineCommentText(ln: string, m: string)
    requires m != [] && Contains(ln, m)
    ensures var after := ln[Find(ln, m).value + |m|..];
      LineComment(ln, m) == Some(if Contains(after, m) then CutAt(after, m) else Trim(after))
  {
    var i := Find(ln, m).value;
    var after := ln[i + |m|..];
    assert Split(ln, m) == [ln[..i]] + Split(after, m);
    assert Split(after, m)[0] == CutAt(after, m);
  }

  /**
    The `startswith` branch of `getComments` never runs: a line that starts with the marker
    splits into at least two pieces.
   */
  lemma StartsWithSplits(ln: string, m: string)
    requires m != [] && StartsWith(ln, m)
    ensures |Split(ln, m)| > 1
  {
    assert OccursAt(ln, m, 0);
  }

  /** A marker with only marker-free text before it and none after: the stripped rest. */
  lemma LineCommentAfter(x: string, m: string, c: string)
    requires m != [] && m[0] !in x && !Contains(c, m)
    ensures LineComment(x + m + c, m) == Some(Trim(c))
  {
    FindAfter(x, m, c);
    LineCommentText(x + m + c, m);
    assert (x + m + c)[|x| + |m|..] == c;
  }

  /** The comments of one marker, line by line; the line after the last is `|lines| + 1`. */
  function MarkerComments(lines: seq<string>, m: string): (r: seq<Comment>)
    requires m != []
    ensures |r| <= |lines|
    decreases |lines|
  {
    if lines == [] then []
    else
      var init := MarkerComments(lines[..|lines| - 1], m);
      match LineComment(lines[|lines| - 1], m)
      case None => init
      case Some(t) => init + [Comment(|lines|, t)]
  }

  /** The comments of every marker, marker after marker. */
  function AllComments(lines: seq<string>, ms: seq<string>): (r: seq<Comment>)
    requires forall i :: 0 <= i < |ms| ==> ms[i] != []
    decreases |ms|
  {
    if ms == [] then []
    else AllComments(lines, ms[..|ms| - 1]) + MarkerComments(lines, ms[|ms| - 1])
  }

  /** `getComments` on a text: the text must not be empty. */
  function CommentsOf(text: string): (r: Result<seq<Comment>>)
    ensures r.Err? <==> text == ""
    ensures r.Err? ==> r.error == NoInput
  {
    if text == "" then Err(NoInput) else Ok(AllComments(Split(text, "\n"), CommentChars))
  }

  /** Every reported comment is on a line that holds the marker, with that line's text. */
  lemma {:induction false} MarkerCommentsSound(lines: seq<string>, m: string, c: Comment)
    requires m != [] && c in MarkerComments(lines, m)
    ensures 1 <= c.line <= |lines| && LineComment(lines[c.line - 1], m) == Some(c.text)
    decreases |lines|
  {
    var init := lines[..|lines| - 1];
    if c in MarkerComments(init, m) {
      MarkerCommentsSound(init, m, c);
      assert init[c.line - 1] == lines[c.line - 1];
    }
  }

  /** Every line that holds the marker is reported. */
  lemma {:induction false} MarkerCommentsComplete(lines: seq<string>, m: string, k: nat)
    requires m != [] && k < |lines| && Contains(lines[k], m)
    ensures Comment(k + 1, LineComment(lines[k], m).value) in MarkerComments(lines, m)
    decreases |lines|
  {
    if k < |lines| - 1 {
      var init := lines[..|lines| - 1];
      assert init[k] == lines[k];
      MarkerCommentsComplete(init, m, k);
    }
  }

  /** Line numbers strictly increase along the sequence. */
  predicate Increasing(cs: seq<Comment>) {
    forall i, j :: 0 <= i < j < |cs| ==> cs[i].line < cs[j].line
  }

  /** One marker's comments come in strictly increasing line order. */
  lemma {:induction false} MarkerCommentsOrdered(lines: seq<string>, m: string)
    requires m != []
    ensures Increasing(MarkerComments(lines, m))
    decreases |lines|
  {
    if lines != [] {
      var init := lines[..|lines| - 1];
      var prior := MarkerComments(init, m);
      MarkerCommentsOrdered(init, m);
      match LineComment(lines[|lines| - 1], m)
      case None =>
        assert MarkerComments(lines, m) == prior;
      case Some(t) =>
        assert MarkerComments(lines, m) == prior + [Comment(|lines|, t)];
        forall i | 0 <= i < |prior|
          ensures prior[i].line < |lines|
        {
          MarkerCommentsSound(init, m, prior[i]);
        }
    }
  }

  /** Each marker's comments are among all the comments. */
  lemma {:induction false} AllCommentsHas(lines: seq<string>, ms: seq<string>, k: nat, c: Comment)
    requires forall i :: 0 <= i < |ms| ==> ms[i] != []
    requires k < |ms| && c in MarkerComments(lines, ms[k])
    ensures c in AllComments(lines, ms)
    decreases |ms|
  {
    if k < |ms| - 1 {
      var init := ms[..|ms| - 1];
      assert init[k] == ms[k];
      AllCommentsHas(lines, init, k, c);
    }
  }

  // ---------------------------------------------------------------------------------------
  // Writing
  // ---------------------------------------------------------------------------------------

  /** The position of the first comment for line `n` at or after `i`. */
  function FirstComment(comments: seq<Comment>, n: int, i: nat): (r: Option<nat>)
    requires i <= |comments|
    ensures r.Some? ==> i <= r.value < |comments| && comments[r.value].line == n
    ensures r.Some? ==> forall j :: i <= j < r.value ==> comments[j].line != n
    ensures r.None? ==> forall j :: i <= j < |comments| ==> comments[j].line != n
    decreases |comments| - i
  {
    if i == |comments| then None
    else if comments[i].line == n then Some(i)
    else FirstComment(comments, n, i + 1)
  }

  /** Line `n` with the first comment given for it, if any, appended after the marker. */
  function Annotate(ln: string, n: int, comments: seq<Comment>, marker: string): string {
    match FirstComment(comments, n, 0)
    case None => ln
    case Some(j) => ln + marker + " " + comments[j].text
  }

  function AnnotateAll(lines: seq<string>, comments: seq<Comment>, marker: string): (r: seq<string>)
    ensures |r| == |lines|
  {
    seq(|lines|, i requires 0 <= i < |lines| => Annotate(lines[i], i + 1, comments, marker))
  }

  /** `addComments` on a text, without the validity warning: the text must not be empty. */
  function AddCommentsTo(comments: seq<Comment>, marker: string, text: string): (r: Result<string>)
    ensures r.Err? <==> text == ""
    ensures r.Err? ==> r.error == NoInput
  {
    if text == "" then Err(NoInput)
    else Ok(Join(AnnotateAll(Split(text, "\n"), comments, marker), "\n"))
  }

  /** The pieces of a split on one character do not contain that character. */
  lemma {:induction false} SplitPartsLack(s: string, c: char)
    ensures forall k :: 0 <= k < |Split(s, [c])| ==> c !in Split(s, [c])[k]
    decreases |s|
  {
    match Find(s, [c])
    case None =>
      forall j | 0 <= j < |s|
        ensures s[j] != c
      {
        assert !OccursAt(s, [c], j) && s[j..j + 1] == [s[j]];
      }
    case Some(i) =>
      forall j | 0 <= j < i
        ensures s[j] != c
      {
        assert !OccursAt(s, [c], j) && s[j..j + 1] == [s[j]];
      }
      SplitPartsLack(s[i + 1..], c);
      assert Split(s, [c]) == [s[..i]] + Split(s[i + 1..], [c]);
  }

  /**
    When neither the marker nor a comment has a newline, the result has exactly the lines
    of the input, each annotated or left as it was.
   */
  lemma AddCommentsLines(comments: seq<Comment>, marker: string, text: string)
    requires text != "" && '\n' !in marker
    requires forall j :: 0 <= j < |comments| ==> '\n' !in comments[j].text
    ensures Split(AddCommentsTo(comments, marker, text).value, "\n")
      == AnnotateAll(Split(text, "\n"), comments, marker)
  {
    var lines := Split(text, "\n");
    var out := AnnotateAll(lines, comments, marker);
    SplitPartsLack(text, '\n');
    forall i | 0 <= i < |out|
      ensures SepFree(out[i], "\n")
    {
      assert '\n' !in lines[i];
      assert '\n' !in out[i];
      SepFreeWithoutFirstChar(out[i], "\n");
    }
    SplitJoin(out, "\n");
  }

  /** A line no comment is numbered for comes out as it went in, and the line count stays. */
  lemma AddCommentsKeepsOtherLines(comments: seq<Comment>, marker: string, text: string, k: nat)
    requires text != "" && '\n' !in marker
    requires forall j :: 0 <= j < |comments| ==> '\n' !in comments[j].text
    requires k < |Split(text, "\n")| && forall j :: 0 <= j < |comments| ==> comments[j].line != k + 1
    ensures |Split(AddCommentsTo(comments, marker, text).value, "\n")| == |Split(text, "\n")|
    ensures Split(AddCommentsTo(comments, marker, text).value, "\n")[k] == Split(text, "\n")[k]
  {
    AddCommentsLines(comments, marker, text);
  }

  /** The line a comment is numbered for gets the marker, a space and the FIRST such comment. */
  lemma AddCommentsEditsLine(comments: seq<Comment>, marker: string, text: string, k: nat, j: nat)
    requires text != "" && '\n' !in marker
    requires forall i :: 0 <= i < |comments| ==> '\n' !in comments[i].text
    requires k < |Split(text, "\n")| && j < |comments| && comments[j].line == k + 1
    requires forall i :: 0 <= i < j ==> comments[i].line != k + 1
    ensures |Split(AddCommentsTo(comments, marker, text).value, "\n")| == |Split(text, "\n")|
    ensures Split(AddCommentsTo(comments, marker, text).value, "\n")[k]
      == Split(text, "\n")[k] + marker + " " + comments[j].text
  {
    AddCommentsLines(comments, marker, text);
    assert FirstComment(comments, k + 1, 0) == Some(j) by {
      var f := FirstComment(comments, k + 1, 0);
      assert f.Some?;
    }
    AnnotatedAt(Split(text, "\n"), comments, marker, k);
  }

  /** The comment `addComments` appends to a line is the one read back from it. */
  lemma AnnotatedLineComment(ln: string, marker: string, t: string)
    requires marker != [] && marker[0] !in ln
    requires IsTrimmed(t) && !Contains(" " + t, marker)
    ensures LineComment(ln + marker + " " + t, marker) == Some(t)
  {
    assert ln + marker + " " + t == ln + marker + (" " + t);
    LineCommentAfter(ln, marker, " " + t);
    assert IsBlank(" ") && IsBlank("");
    TrimPadded(" ", t, "");
    assert " " + t + "" == " " + t;
  }

  /**
    A comment written by `addComments` is read back by `getComments`, when the line had no
    marker character, the text is stripped and does not hold the marker, and nothing brings
    in a newline.
   */
  lemma AddedCommentFound(comments: seq<Comment>, marker: string, text: string, k: nat, t: string)
    requires text != "" && k < |Split(text, "\n")|
    requires FirstComment(comments, k + 1, 0).Some? && comments[FirstComment(comments, k + 1, 0).value].text == t
    requires marker in CommentChars && marker[0] !in Split(text, "\n")[k]
    requires forall j :: 0 <= j < |comments| ==> '\n' !in comments[j].text
    requires IsTrimmed(t) && !Contains(" " + t, marker)
    ensures Comment(k + 1, t) in CommentsOf(AddCommentsTo(comments, marker, text).value).value
  {
    var lines := Split(text, "\n");
    var out := AnnotateAll(lines, comments, marker);
    assert LineComment(out[k], marker) == Some(t) by {
      AnnotatedAt(lines, comments, marker, k);
      AnnotatedLineComment(lines[k], marker, t);
    }
    assert Split(Join(out, "\n"), "\n") == out by {
      MarkerHasNoNewline(marker);
      AddCommentsLines(comments, marker, text);
    }
    ReadBack(out, marker, k, t);
  }

  lemma MarkerHasNoNewline(marker: string)
    requires marker in CommentChars
    ensures marker != [] && '\n' !in marker
  {
  }

  /** The line `addComments` writes for a line that has a comment. */
  lemma AnnotatedAt(lines: seq<string>, comments: seq<Comment>, marker: string, k: nat)
    requires k < |lines| && FirstComment(comments, k + 1, 0).Some?
    ensures AnnotateAll(lines, comments, marker)[k]
      == lines[k] + marker + " " + comments[FirstComment(comments, k + 1, 0).value].text
  {
  }

  /** A line that holds a comment for one of the markers contributes it to all the comments. */
  lemma ReadBack(out: seq<string>, marker: string, k: nat, t: string)
    requires marker in CommentChars && k < |out| && LineComment(out[k], marker) == Some(t)
    requires Split(Join(out, "\n"), "\n") == out
    ensures Comment(k + 1, t) in CommentsOf(Join(out, "\n")).value
  {
    assert Join(out, "\n") != "";
    MarkerCommentsComplete(out, marker, k);
    AllCommentsHasMarker(out, marker, Comment(k + 1, t));
  }

  lemma AllCommentsHasMarker(lines: seq<string>, marker: string, c: Comment)
    requires marker in CommentChars && c in MarkerComments(lines, marker)
    ensures c in AllComments(lines, CommentChars)
  {
    var mk :| 0 <= mk < |CommentChars| && CommentChars[mk] == marker;
    AllCommentsHas(lines, CommentChars, mk, c);
  }

  // ---------------------------------------------------------------------------------------
  // The loops of the library
  // ---------------------------------------------------------------------------------------

  /** One marker's pass over the lines (hfclib.py:573-584): the comments it finds, in line order. */
  method ScanMarker(lines: seq<string>, m: string) returns (found: seq<Comment>)
    requires m != []
    ensures found == MarkerComments(lines, m)
  {
    found := [];
    for line := 0 to |lines|
      invariant found == MarkerComments(lines[..line], m)
    {
      var pieces := Split(lines[line], m);
      pieces := pieces[|pieces| - 1 := Trim(pieces[|pieces| - 1])];
      if |pieces| > 1 {
        found := found + [Comment(line + 1, pieces[1])];
      } else if StartsWith(lines[line], m) {
        StartsWithSplits(lines[line], m);
        assert false;
      }
      assert lines[..line + 1][..line] == lines[..line];
    }
    assert lines[..|lines|] == lines;
  }

  /** `getComments` (hfclib.py:543-586) on `hfc_text`. */
  method GetComments(text: string) returns (r: Result<seq<Comment>>)
    ensures r == CommentsOf(text)
  {
    if text == "" {
      return Err(NoInput);
    }
    var lines := Split(text, "\n");
    var comments := [];
    for mi := 0 to |CommentChars|
      invariant comments == AllComments(lines, CommentChars[..mi])
    {
      var found := ScanMarker(lines, CommentChars[mi]);
      AllCommentsStep(lines, CommentChars, mi);
      comments := comments + found;
    }
    AllCommentsStep(lines, CommentChars, |CommentChars|);
    r := Ok(comments);
  }

  /** The comments of the first `mi + 1` markers follow those of the first `mi`. */
  lemma AllCommentsStep(lines: seq<string>, ms: seq<string>, mi: nat)
    requires forall i :: 0 <= i < |ms| ==> ms[i] != []
    requires mi <= |ms|
    ensures mi < |ms| ==> AllComments(lines, ms[..mi + 1]) == AllComments(lines, ms[..mi]) + MarkerComments(lines, ms[mi])
    ensures mi == |ms| ==> AllComments(lines, ms[..mi]) == AllComments(lines, ms)
  {
    if mi < |ms| {
      assert ms[..mi + 1][..mi] == ms[..mi];
    } else {
      assert ms[..mi] == ms;
    }
  }

  /** `addComments` (hfclib.py:503-540) on `hfc`, without the validity warning. */
  method AddComments(comments: seq<Comment>, marker: string, text: string) returns (r: Result<string>)
    ensures r == AddCommentsTo(comments, marker, text)
  {
    if text == "" {
      return Err(NoInput);
    }
    var lines := Split(text, "\n");
    ghost var original := lines;
    for line := 0 to |lines|
      invariant |lines| == |original|
      invariant forall i :: 0 <= i < line ==> lines[i] == Annotate(original[i], i + 1, comments, marker)
      invariant forall i :: line <= i < |lines| ==> lines[i] == original[i]
    {
      var ln := lines[line];
      for ci := 0 to |comments|
        invariant forall j :: 0 <= j < ci ==> comments[j].line != line + 1
      {
        if comments[ci].line == line + 1 {
          lines := lines[line := ln + marker + " " + comments[ci].text];
          assert FirstComment(comments, line + 1, 0) == Some(ci);
          break;
        }
      }
    }
    assert lines == AnnotateAll(original, comments, marker);
    r := Ok(Join(lines, "\n"));
  }
}
