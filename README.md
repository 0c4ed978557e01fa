# HFC library model

A Dafny model of `hfclib.py`, the library that reads and writes the HFC configuration format.
An HFC text is a sequence of `== name ==` section headers, each followed by `name = value`
lines. Comments start with `->`, `//` or `#`.

The model covers:

- the value reader `_get_converted`, including its list tokenizer `_join_list_with_char` and
  the bracket stripping `_replace(outside_only=True)`;
- the line parser `parseHfc` on a text;
- the writer `_convert_to_hfc` and `parseList`, including `_clear_empty_sections`;
- the comment helpers `getComments` and `addComments` on a text;
- the list helpers, from `addSection` to `generateHFC`.

The modules follow the library's structure:

| file | module | what it holds |
|---|---|---|
| `base.dfy` | `Base` | `Option`, `Result`, and the library's exceptions as one `Error` datatype |
| `strings.dfy` | `Strings` | `strip`, `split`, `join`, `find` and `replace(p, "")` on `seq<char>`, with the facts the rest relies on |
| `numbers.dfy` | `Numbers` | the integer and digit patterns, `int(s)` and `str(n)` |
| `values.dfy` | `Values` | `Value`, the ordered variables of a section (a Python dict) and the `langconf` constants |
| `tokenizer.dfy` | `Tokenizer` | `_join_list_with_char`: a loop method, proved equal to a recursive reference definition |
| `converter.dfy` | `Converter` | `_replace(outside_only=True)` as a loop method, and `_get_converted` |
| `serializer.dfy` | `Serializer` | `_convert_to_hfc` and the text that `parseList` lays out |
| `parser.dfy` | `Parser` | `parseHfc`: a line loop, proved equal to a fold of one-line steps |
| `document.dfy` | `Document` | class `HfcList`, whose `sections` field the helper methods update in place |
| `comments.dfy` | `Comments` | `getComments` and `addComments` as loop methods, proved equal to specification functions |
| `roundtrip.dfy` | `RoundTrip` | the lines `parseList` writes, and the proof that `parseHfc` reads them back as the same sections |

The parsed list `list[dict[dict]]` is modelled as `seq<Section>`.

- Each section is a name plus a `seq<Entry>` in insertion order.
- Assigning to an existing key keeps its place; assigning to a new key appends it (`PutVar`).
- A Python exception becomes an `Err` of `Result`.
- A method that mutates the list and returns it becomes a method of `HfcList`. Its `Outcome`
  is `Pass` or `Fail(error)`, and on a failure `sections` is unchanged.

Python's quirks are modelled as written, and lemmas state them:

- **False is written as the true word.** `_convert_to_hfc` writes `False` as `bool_true`
  (`FalseWrittenAsTrueWord`).
- **An unclosed group at index 0 is dropped.** A group opened at index 0 that never closes
  drops its tokens and raises nothing. The reason is the sentinel `0` in
  `string_index_range` (`OpenGroupAtStartDiscarded`, `UnclosedQuoteDropped`).
- **A `(...)` list is emptied.** Its text is emptied before the split, so the list fails
  (`ParenthesisedListFails`).
- **The comment-line skip in `parseHfc` does nothing.** Comment lines are ignored anyway,
  because their first piece is empty (`CommentLineIgnored`).
- **`_variable_exists` looks in every section.** So `getVariableValue` can raise a `KeyError`
  (`GetValueOfOtherSectionFails`), and `editVariable` can add a variable
  (`EditAddsMissingVariable`).
- **`removeSection` only removes an empty section.** It calls `list.remove({name: {}})`
  (`RemoveNonEmptySectionFails`).
- **`renameVariable` moves the variable to the end** (`RenameMovesToEnd`).
- **`_clear_empty_sections` skips the element after each removal.** So two adjacent unnamed
  sections leave one behind (`AdjacentUnnamedSurvives`).

## Model

| member | source | states |
|---|---|---|
| Strings.Trim | hfclib.py:35-42 | `_strip` leaves no whitespace at either end, never lengthens the text, and gives the empty string exactly for a blank text (`^\s*$`) |
| Strings.TrimPadded | hfclib.py:35-42 | blank padding on either side of a trimmed text is all that `_strip` removes |
| Strings.CutAt | hfclib.py:378-383 | `s.split(m)[0]` is a prefix of `s` that does not contain `m` |
| Strings.JoinSplit | hfclib.py:156 | joining the pieces of a split with the same separator gives the text back |
| Strings.SplitJoin | hfclib.py:536 | splitting a join of separator-free parts gives the parts back |
| Strings.Split | hfclib.py:374 | definition: `str.split(sep)` for a non-empty separator, at least one piece |
| Strings.Join | hfclib.py:156 | definition: `sep.join(parts)` |
| Strings.RemoveAll | hfclib.py:364 | definition: `replace(p, "")`, every non-overlapping occurrence removed left to right |
| Numbers.IntToString | hfclib.py:22 | `str(n)` of an int matches `^-?\d+$` |
| Numbers.IntRoundTrip | hfclib.py:183-184 | `int(str(n)) == n` for every integer |
| Numbers.IsInteger | hfclib.py:22 | definition: the pattern `^-?\d+$` |
| Numbers.ParseInt | hfclib.py:184 | definition: `int(value)` on text matching that pattern, on unbounded integers |
| Values.PutVar | hfclib.py:401-404 | `d[name] = v`: the key maps to `v` and every other key keeps its value |
| Values.PutVarKeys | hfclib.py:401-404 | an existing key keeps its place in the ordering; a new key goes last |
| Values.PutVarUnique | hfclib.py:401-404 | assignment keeps the variable names of a section unique |
| Values.RemoveVar | hfclib.py:874 | `d.pop(name)` removes one entry and keeps what every other key maps to |
| Values.RemoveVarGone | hfclib.py:874 | in a dict the popped key is gone afterwards, and the keys stay unique |
| Values.PutVarNew | hfclib.py:401-404 | assigning a key the dict does not have appends the entry at the end and changes nothing else |
| Tokenizer.Runs | hfclib.py:88-125 | the pass from a token on, with no group open, yields at most one element per token; it fails only on an unbalanced bracket or a missing closing character |
| Tokenizer.Group | hfclib.py:94-128 | the pass with a group open yields at most one element per token and fails only as the loop does |
| Tokenizer.JoinRuns | hfclib.py:85-130 | empty input, `chars` or separator is exactly the `ValueError` of line 86; the output is never longer than the input; the other errors are the unbalanced bracket and the `IndexError` of a one-character `chars` |
| Tokenizer.JoinListWithChar | hfclib.py:78-130 | the loop over `index`, `string_index_range`, `found_string`, `ignore_next_index` and `output_list` computes `JoinRuns` |
| Tokenizer.JoinRunsUnchanged | hfclib.py:94-121 | when every token that opens also closes (in particular, when none opens), the output equals the input |
| Tokenizer.PlainPrefixKept | hfclib.py:119-121 | tokens before the first opening token are copied unchanged, in order |
| Tokenizer.GroupScan | hfclib.py:101-113 | inside an open group the scan reaches the first closing token and emits the run joined by the separator |
| Tokenizer.RunMerged | hfclib.py:94-113 | a run from an opening token to the next closing one becomes one element equal to the run joined by the separator; with `k == m`, a token that both opens and closes stays one element |
| Tokenizer.FirstRunMerged | hfclib.py:88-125 | the whole pass: the plain prefix, then the first run merged into one element, then the pass from after it |
| Tokenizer.GroupCutShort | hfclib.py:94-96 | a second opening token (or the end) before a closing one fails unless the group was opened at index 0 |
| Tokenizer.OpenGroupFails | hfclib.py:94-96 | a second group opening while one opened at a non-zero index is open raises, and so does reaching the end with it open (line 127-128) |
| Tokenizer.OpenGroupAtStartDiscarded | hfclib.py:95 | a group opened at index 0 and never closed discards its tokens silently; if it reaches the end the output is empty |
| Tokenizer.OneDelimiterFails | hfclib.py:101 | with a single delimiter the first opening token raises the `IndexError` on `chars[1]` |
| Tokenizer.RunsText | hfclib.py:88-125 | the joined output equals the joined input from some index on, so no text is invented |
| Tokenizer.GroupText | hfclib.py:94-128 | the same for a pass with a group open |
| Tokenizer.JoinRunsKeepsText | hfclib.py:78-130 | the joined output is never longer than the joined input, equals it when the first token does not open, and no element is longer than the joined input |
| Converter.SliceInner | hfclib.py:58-65 | `text[1:-1]` is the text without its first and last characters |
| Converter.StripOuter | hfclib.py:52-69 | one character pass of `_replace(outside_only=True)` never lengthens the text, and always shortens it while `fixed_text` is still `""` |
| Converter.ReplaceOutsideFrom | hfclib.py:50-69 | the passes for the remaining characters never lengthen the text |
| Converter.ReplaceOutside | hfclib.py:44-71 | `_replace(outside_only=True)` on a non-empty text with at least one character strictly shortens it |
| Converter.ReplaceOutsideOnly | hfclib.py:44-71 | the loop over `chars` and the characters of `text`, updating `fixed_text` and `changed_first`, computes `ReplaceOutside` |
| Converter.NotBracketedEmptied | hfclib.py:45-69 | a text whose first character is not `[` is emptied, because `fixed_text` starts as `""` |
| Converter.BracketedBodyKept | hfclib.py:50-69 | `[b]` with no list character in `b` loses exactly its outer brackets |
| Converter.DigitRun | hfclib.py:23 | the leading digit run of a text, maximal |
| Converter.IsListLiteral | hfclib.py:27 | definition: the patterns `^\[.*\]$` and `^\(.*\)$` |
| Converter.IsQuoted | hfclib.py:21 | definition: the pattern `^".+"$` |
| Converter.IsFloat | hfclib.py:23 | definition: the pattern `^\d+([.,]\d+)$` |
| Converter.JoinPasses | hfclib.py:159-170 | the three re-merge passes in turn never lengthen the joined text and fail only as `_join_list_with_char` does |
| Converter.ListTokens | hfclib.py:154-170 | a list literal's elements are each shorter than the literal; the only errors come from the re-merge passes |
| Converter.Convert | hfclib.py:134-195 | `_get_converted` fails only with the syntax error carrying `line_num` or an error of the re-merge passes |
| Converter.ConvertAll | hfclib.py:173-174 | the element loop converts every trimmed element in order: one value per element, each equal to its own conversion |
| Converter.ConvertListElements | hfclib.py:149-176 | a list literal that converts reads as the list of its trimmed, converted elements |
| Converter.ConvertIntText | hfclib.py:183-184 | `str(n)` reads back as `Int(n)` |
| Converter.ConvertFloatText | hfclib.py:185-187 | `digits` `.` or `,` `digits` reads as the float with those digit strings |
| Converter.DigitRunOf | hfclib.py:23 | the digit run of `digits + rest` is `digits` when `rest` does not start with a digit |
| Converter.ConvertBooleanWords | hfclib.py:188-191 | every false word reads as `False`, every true word as `True` |
| Converter.WordIsNoLiteral | hfclib.py:179-193 | a word without digits, quotes or list characters is a boolean word or the syntax error |
| Converter.ConvertQuotedText | hfclib.py:181-182 | `"s"`, with `s` non-empty and quote-free, reads as `Str(s)` |
| Converter.RemoveQuotesAround | hfclib.py:182 | removing every `"` from `"s"` gives `s` |
| Converter.InnerQuotesText | hfclib.py:182 | `replace('"', "")` removes inner quotes too |
| Converter.InnerQuotesRemoved | hfclib.py:181-182 | `"a"b"` reads as the string `ab` |
| Converter.EmptyQuotesFail | hfclib.py:181 | `""` does not match `^".+"$` and is the syntax error |
| Converter.EmptyValueFails | hfclib.py:192-193 | the empty value is the syntax error |
| Converter.EmptyTokenPasses | hfclib.py:159-170 | the re-merge passes leave a lone empty element |
| Converter.EmptyTokenFails | hfclib.py:173-174 | a list whose one element is empty fails with the syntax error |
| Converter.EmptyBodyTokens | hfclib.py:154-170 | `(...)` and `[]` both give the one empty element |
| Converter.ParenthesisedListFails | hfclib.py:149-176 | every `(...)` list is the syntax error |
| Converter.EmptyBracketsFail | hfclib.py:149-176 | `[]` is the syntax error, not an empty list |
| Converter.UnclosedQuoteTokens | hfclib.py:154-170 | `["a]` has no elements after the string pass |
| Converter.UnclosedQuoteDropped | hfclib.py:149-176 | `["a]` reads as the empty list |
| Converter.ItemsTokens | hfclib.py:154-170 | `[` + element texts joined by `", "` + `]` is a list literal whose elements, after the re-merge passes, are exactly those texts |
| Converter.ConvertListOf | hfclib.py:149-176 | a list literal whose trimmed elements each convert reads as the list of their values |
| Converter.QuotedSeparatorKept | hfclib.py:149-182 | `["a, b"]` reads as the one-element list holding the string `a, b`: the string pass puts the quoted separator back together |
| Serializer.Encode | hfclib.py:199-267 | `_convert_to_hfc` fails only with the list-character, boolean or float-separator error, and a list that is written is a list literal |
| Serializer.EncodeAll | hfclib.py:220-231 | the elements joined by `", "`: an error is the error of one of the elements |
| Serializer.EncodeAllJoin | hfclib.py:220-231 | when every element is written, the body is their `", "`-join |
| Serializer.RenderVars | hfclib.py:465-471 | the variable lines of a section: an error is the error of one variable's value |
| Serializer.RenderSection | hfclib.py:462-471 | a section's text starts with its header `nl + "==" + sp + name + sp + "==\n" + nl` |
| Serializer.HeaderText | hfclib.py:463 | definition: the section header f-string of `parseList` |
| Serializer.VariableText | hfclib.py:471 | definition: the variable line f-string of `parseList` |
| Serializer.RenderSections | hfclib.py:460-471 | the text of the sections in order: an error is the error of some variable of some section |
| Serializer.RenderVarsErrorStays | hfclib.py:466-469 | once a variable fails, later variables do not change the error |
| Serializer.RenderSectionsErrorStays | hfclib.py:466-469 | once a section fails, later sections do not change the error |
| Serializer.RenderSectionsStep | hfclib.py:460-471 | one more section appends its header and its variable lines, or its error is the result |
| Serializer.FalseWrittenAsTrueWord | hfclib.py:249-251 | with a valid false word, `False` is written as `bool_true`, which reads back as `True` |
| Serializer.NullWrittenAsNone | hfclib.py:471 | `None` is written as `None`, which does not read back |
| Serializer.ListCharsChecked | hfclib.py:233-240 | a list character that does not start `[` or `(` makes writing a list fail |
| Serializer.StringRoundTrip | hfclib.py:202-203 | a non-empty string without quotes or newlines reads back as itself |
| Serializer.IntRoundTripText | hfclib.py:267 | an int reads back as itself |
| Serializer.FloatRoundTrip | hfclib.py:258-265 | digit strings written with either valid separator read back as the same float |
| Serializer.TrueRoundTrip | hfclib.py:245-248 | with a valid true word, `True` reads back as `True` |
| Serializer.ScalarWritten | hfclib.py:202-267 | a plain string, an int, a float of digit strings or `True` is written as an element text, safe on a line, that reads back as the same value |
| Serializer.ItemWritten | hfclib.py:220-231 | the text written for such a scalar, trimmed as the list reader trims it, reads back as the scalar |
| Serializer.ListEncoded | hfclib.py:220-231 | a list is written as `[`, the texts of its elements joined by `", "`, and `]` |
| Serializer.ListText | hfclib.py:220-231 | a non-empty list of scalars has element texts, one per element, each safe on a line and reading back as its element, and the list is written from them |
| Serializer.ListRoundTrip | hfclib.py:149-231 | a non-empty list of scalars, written, reads back as the same list |
| Serializer.ValueRoundTrip | hfclib.py:134-267 | every writable value is written as a non-empty, trimmed text with no `=`, newline or comment-marker character, and that text reads back as the value |
| Serializer.ListLineSafe | hfclib.py:220-231 | a written list of scalars is non-empty, trimmed and free of `=`, newline and comment-marker characters |
| Parser.CutAll | hfclib.py:380-383 | cutting at each comment marker in turn leaves a prefix of the piece |
| Parser.IsHeader | hfclib.py:18 | definition: `SECTION_REGEX`, `^==.+==$` |
| Parser.HeaderName | hfclib.py:364 | definition: the header line with every `==` removed, then stripped |
| Parser.Declaration | hfclib.py:378-385 | a declaration piece without its comment is trimmed and no longer than the piece |
| Parser.Pieces | hfclib.py:374-385 | `variable` has one trimmed, comment-free piece per piece of `line.split("=")` |
| Parser.SetLastKeeps | hfclib.py:401-404 | assigning in the latest section keeps the section names and keeps every section named with unique variables |
| Parser.OpenSection | hfclib.py:359-371 | a header appends one section named by it; the only error is the blank name carrying the line number |
| Parser.DeclarePieces | hfclib.py:387-404 | a declaration given the pieces of its line keeps the section names and parsed lists well formed; its errors carry the line number or come from the value |
| Parser.Declare | hfclib.py:374-404 | a declaration keeps the section names; its errors carry the line number or come from the value |
| Parser.ParseLine | hfclib.py:349-404 | one line appends a section exactly for a header line and keeps parsed lists well formed |
| Parser.RunErrorKind | hfclib.py:349-404 | the loop fails only with an error a line can fail with |
| Parser.RunNames | hfclib.py:349-404 | over the loop, the sections added are the header lines, in order |
| Parser.RunParsed | hfclib.py:349-404 | the loop keeps every section named and its variable names unique |
| Parser.RunErrorLine | hfclib.py:349-404 | a syntax error names a line that was read |
| Parser.ParseFrom | hfclib.py:349-404 | the loop from a line on fails only with a line's error |
| Parser.ParseFromNames | hfclib.py:349-404 | on success the added sections are exactly the header lines, in order |
| Parser.ParseFromParsed | hfclib.py:349-404 | on success every section is named and has unique variable names |
| Parser.ParseFromErrorLine | hfclib.py:349-404 | a syntax error carries the number of a line that was read |
| Parser.ParseText | hfclib.py:337-341 | `parseHfc(hfc_text=text)` raises `NotHFC("Nothing to do.")` exactly for the empty text |
| Parser.ParseTextShape | hfclib.py:330-415 | the result has one section per header line, named by it and in order, each named and free of duplicate variables; a syntax error names a line of the text |
| Parser.DeclarationOfPlain | hfclib.py:378-385 | a piece without marker characters is only trimmed |
| Parser.CutAllComment | hfclib.py:380-383 | whatever follows any comment marker is cut off |
| Parser.HeaderLineOpensSection | hfclib.py:359-371 | a header line with a name opens an empty section and declares nothing |
| Parser.BlankHeaderFails | hfclib.py:367-369 | a header with a blank name is the syntax error carrying its line number |
| Parser.VariableOutsideSection | hfclib.py:394-395 | a declaration before the first header is the syntax error carrying its line number |
| Parser.CommentLineIgnored | hfclib.py:353-356 | a line starting with a comment marker adds nothing, although the skip loop skips nothing |
| Parser.BareNameIsNull | hfclib.py:400-401 | a bare name stores `None` in the latest section |
| Parser.SamePiecesSameLine | hfclib.py:374-404 | outside a header, only the pieces of a line decide what it does |
| Parser.ValueLine | hfclib.py:402-404 | a name with a value piece stores the converted value, or fails with its error |
| Parser.SplitOfAssignment | hfclib.py:374 | `name = value` followed by nothing or another `=` splits into `name` and `value` first |
| Parser.AssignmentPieces | hfclib.py:374-385 | the pieces of such a line are the trimmed name and value |
| Parser.DeclarationStoresFirstValue | hfclib.py:402-404 | only the first value after the name is converted and stored; what follows a second `=` is never read |
| Parser.NameWithoutValueFails | hfclib.py:402-403 | `name =` gives the empty value, which is the syntax error |
| Parser.AssignmentNotHeader | hfclib.py:359 | a line `h = w` with `h` non-empty and free of `=` is not a header |
| Parser.PiecesOfTwo | hfclib.py:374-385 | a line of two pieces has the two declarations as its pieces |
| Parser.TrailingCommentIgnored | hfclib.py:378-385 | a comment after the value changes nothing |
| Parser.CommentDoesNotHideEquals | hfclib.py:374-385 | lines are split on `=` before comments are cut, so an `=` inside a comment still declares |
| Parser.DeclarationPieces | hfclib.py:374-385 | the loop that builds `variable` computes `Pieces` |
| Parser.DeclarationOfSafe | hfclib.py:378-385 | a piece without `>`, `/` or `#` has no comment to cut and is only trimmed |
| Parser.ParseFromNext | hfclib.py:349-404 | a line read without error hands its list to the next line |
| Parser.ParseFromStops | hfclib.py:349-404 | a failing line stops the loop with its error |
| Parser.DeclareTracks | hfclib.py:344-404 | a declaration leaves `sections`, `list_index` and `section_name` describing the list |
| Parser.ReadHeader | hfclib.py:350-371 | the header part of the loop body computes `OpenSection` and keeps the bookkeeping variables in step |
| Parser.ReadDeclaration | hfclib.py:374-404 | the declaration part, assigning through `list_index` and `section_name`, computes `Declare` |
| Parser.ReadLine | hfclib.py:349-404 | one pass of the loop body computes `ParseLine` |
| Parser.ParseHfc | hfclib.py:330-415 | the library's line loop computes `ParseText` |
| Document.FirstFrom | hfclib.py:826-833 | the first section with the name from an index on, or none |
| Document.FirstSection | hfclib.py:271-276 | a first matching section exists exactly when `_section_exists` holds |
| Document.SectionExists | hfclib.py:271-276 | definition: `_section_exists`, some section has the name |
| Document.VariableExists | hfclib.py:279-288 | definition: `_variable_exists`, the section exists and some section, not necessarily that one, has the variable |
| Document.WithVars | hfclib.py:830 | one section's variables replaced, every other section unchanged |
| Document.AddVariableTo | hfclib.py:819-835 | `addVariable` fails exactly when the section does not exist; otherwise only the first matching section changes |
| Document.RemoveVariableFrom | hfclib.py:863-884 | `removeVariable` raises the section error, the variable error or the `KeyError`, each in exactly its case; otherwise only the first matching section changes and it loses one variable |
| Document.RenameVariableIn | hfclib.py:914-932 | `renameVariable` has the same three error cases; otherwise only the first matching section changes |
| Document.EditVariableIn | hfclib.py:961-979 | `editVariable` succeeds exactly when `_variable_exists` holds; then only the first matching section changes, and there the variable maps to the new value |
| Document.EditSectionIn | hfclib.py:671-687 | `editSection` renames exactly the first matching section and keeps every section's variables |
| Document.IndexOf | hfclib.py:641 | the first index of an element of the list |
| Document.RemoveFirst | hfclib.py:641 | `list.remove` takes out the first element equal to the one given and keeps the others in order |
| Document.RemoveSectionFrom | hfclib.py:636-643 | `removeSection` fails for a missing section, and with the `list.remove` error exactly when no empty section of that name exists; otherwise the first EMPTY section of that name is taken out and the others keep their order |
| Document.GetVariables | hfclib.py:736-747 | `getVariables` fails exactly for a missing section; otherwise it gives the variables of the first section of that name |
| Document.GetVariableValue | hfclib.py:774-786 | `getVariableValue` gives a value exactly when the first matching section holds the variable, and that value; the section error, the variable error and the `KeyError` each arise in exactly their case |
| Document.GetVariableValueFromDict | hfclib.py:790-794 | the lookup succeeds exactly for a present key and gives its value |
| Document.FindSection | hfclib.py:1001-1006 | `findSection` gives `False` exactly for a missing section, otherwise what `getVariables` gives: the variables of the first section of that name |
| Document.Occurrences | hfclib.py:1026-1032 | at most one occurrence per section |
| Document.AddThenGet | hfclib.py:819-835 | a variable added to a section reads back from it |
| Document.AddKeepsOthers | hfclib.py:819-835 | adding one variable leaves what every other variable of that section reads |
| Document.FirstUnchanged | hfclib.py:271-276 | a change that keeps every name keeps the first section of each name |
| Document.RemoveThenGone | hfclib.py:863-884 | in a section without duplicate names a removed variable is gone |
| Document.RenameMovesToEnd | hfclib.py:927 | renaming moves the variable to the end under the new name with its value, and the old name is gone |
| Document.EditAddsMissingVariable | hfclib.py:971-974 | `editVariable` adds a variable that only another section has to the first matching section |
| Document.GetValueOfOtherSectionFails | hfclib.py:783-786 | `getVariableValue` raises a `KeyError` for a variable that only another section has |
| Document.RemoveEmptySection | hfclib.py:641 | an empty first matching section is removed from its place |
| Document.RemoveNonEmptySectionFails | hfclib.py:641 | a section that has variables is never removed |
| Document.RemoveSkipsNonEmpty | hfclib.py:636-643 | a first matching section with variables is skipped and a later empty one of the same name is removed |
| Document.EditIsAdd | hfclib.py:961-979 | once `editVariable` succeeds, it assigns exactly as `addVariable` does |
| Document.EditThenGet | hfclib.py:961-979 | a variable edited in a section reads back from it as the new value |
| Document.EditKeepsOthers | hfclib.py:961-979 | editing one variable leaves what every other variable of that section reads |
| Document.OccurrencesSound | hfclib.py:1026-1032 | every occurrence found is a section holding the variable, with its value |
| Document.OccurrencesComplete | hfclib.py:1026-1032 | every section holding the variable is found |
| Document.OccurrencesAppend | hfclib.py:1026-1032 | occurrences keep document order |
| Document.ClearFrom | hfclib.py:291-300 | clearing never lengthens the list |
| Document.Named | hfclib.py:297 | the named sections of a list, in order |
| Document.NamedAppend | hfclib.py:297 | the named sections of two halves are those of each half, in turn |
| Document.RemoveUnnamedKeepsNamed | hfclib.py:298 | removing an unnamed section keeps every named one in order |
| Document.ClearKeepsNamed | hfclib.py:291-300 | clearing keeps every named section, in order |
| Document.ClearRemovesUnnamed | hfclib.py:291-300 | without two adjacent unnamed sections, clearing leaves only named ones |
| Document.AdjacentUnnamedSurvives | hfclib.py:292-298 | of two adjacent unnamed sections the second survives, because removal skips the next element |
| Document.HfcList.Generate | hfclib.py:1036-1045 | `generateHFC` is one unnamed, empty section |
| Document.HfcList.Of | hfclib.py:418 | the `hfc_list` argument the helpers take: a list holding the given sections |
| Document.HfcList.FindIndex | hfclib.py:826-833 | the scan finds the first section with the name |
| Document.HfcList.AddSection | hfclib.py:607-610 | `addSection` appends `{name: {}}` |
| Document.HfcList.RemoveSection | hfclib.py:636-643 | the list becomes what `RemoveSectionFrom` gives, or stays and the error is reported |
| Document.HfcList.EditSection | hfclib.py:671-687 | the list becomes what `EditSectionIn` gives, or stays and the error is reported |
| Document.HfcList.AddVariable | hfclib.py:819-835 | the list becomes what `AddVariableTo` gives, or stays and the error is reported |
| Document.HfcList.RemoveVariable | hfclib.py:863-884 | the list becomes what `RemoveVariableFrom` gives, or stays and the error is reported |
| Document.HfcList.RenameVariable | hfclib.py:914-932 | the list becomes what `RenameVariableIn` gives, or stays and the error is reported |
| Document.HfcList.EditVariable | hfclib.py:961-979 | the list becomes what `EditVariableIn` gives, or stays and the error is reported; on success the variable reads back as the new value |
| Document.HfcList.GetSections | hfclib.py:706-710 | the section names, in order |
| Document.HfcList.FindVariable | hfclib.py:1026-1032 | the loop computes `Occurrences` |
| Document.HfcList.ClearEmptySections | hfclib.py:291-300 | the removal-while-iterating loop leaves `ClearFrom` of the old list |
| Document.HfcList.ParseList | hfclib.py:446-477 | the list is cleared in place, and the text is its sections rendered with `sp` and `nl` set from `spacing` and `newline_after_section` |
| Document.HfcList.Render | hfclib.py:460-471 | the layout loop computes `RenderSections` |
| Document.WriteVariables | hfclib.py:465-471 | the variable loop computes `RenderVars` |
| Document.FirstIs | hfclib.py:826-833 | the first index with the name, with none before it, is the first section |
| Comments.LineComment | hfclib.py:575-579 | a line has a comment for a marker exactly when it contains the marker |
| Comments.LineCommentText | hfclib.py:575-579 | the comment is the text up to the next marker, or the stripped rest when there is none |
| Comments.StartsWithSplits | hfclib.py:580-582 | the `startswith` branch never runs: a line starting with the marker splits into more than one piece |
| Comments.LineCommentAfter | hfclib.py:575-579 | a single marker after marker-free text gives the stripped rest |
| Comments.MarkerComments | hfclib.py:573-584 | at most one comment per line for one marker |
| Comments.CommentsOf | hfclib.py:566-569 | `getComments` raises `ValueError` exactly for the empty text |
| Comments.MarkerCommentsSound | hfclib.py:573-584 | every comment reported is on a 1-based line that holds the marker, with that line's text |
| Comments.MarkerCommentsComplete | hfclib.py:573-584 | every line holding the marker is reported with its comment |
| Comments.MarkerCommentsOrdered | hfclib.py:573-584 | one marker's comments come in increasing line order |
| Comments.AllCommentsHas | hfclib.py:572-584 | the comments of every marker are in the marker-major result |
| Comments.FirstComment | hfclib.py:523-526 | the first comment numbered for the line, or none |
| Comments.Annotate | hfclib.py:521-526 | definition: line `n` with the first comment numbered for it appended after the marker |
| Comments.AnnotateAll | hfclib.py:521-528 | one output line per input line |
| Comments.AddCommentsTo | hfclib.py:511-516 | `addComments` raises `ValueError` exactly for the empty text |
| Comments.AddCommentsLines | hfclib.py:519-536 | the output has exactly the input's lines, each annotated or as it was |
| Comments.AddCommentsKeepsOtherLines | hfclib.py:519-536 | the line count is kept, and a line no comment is numbered for is unchanged |
| Comments.AddCommentsEditsLine | hfclib.py:523-526 | line `k` becomes `line + marker + " " + text` of the first comment numbered `k + 1` |
| Comments.AnnotatedLineComment | hfclib.py:525 | an annotated line reads back the comment written into it |
| Comments.AddedCommentFound | hfclib.py:503-586 | a comment written by `addComments` with a comment marker is found by `getComments` on the result, on the same line |
| Comments.ReadBack | hfclib.py:566-584 | a line's comment is reported by `getComments` on the joined text |
| Comments.AllCommentsHasMarker | hfclib.py:572-584 | comments of any of the three markers are in the result |
| Comments.GetComments | hfclib.py:543-586 | the marker-major loop over the lines computes `CommentsOf` |
| Comments.AddComments | hfclib.py:503-540 | the loop over lines and comments, with `break` on the first match, computes `AddCommentsTo` |
| Comments.ScanMarker | hfclib.py:573-584 | the inner loop over the lines for one marker computes `MarkerComments` |
| Comments.AllCommentsStep | hfclib.py:572-584 | one more marker appends its comments to those of the markers before it |
| RoundTrip.SplitTerminated | hfclib.py:338 | `split("\n")` of newline-terminated lines without newlines gives the lines back, then one empty line |
| RoundTrip.RenderVarsLines | hfclib.py:465-471 | the variable text of a section is one `name sp = sp value` line per variable, in order, each ended by a newline |
| RoundTrip.RenderSectionLines | hfclib.py:462-471 | a section is written as its header line, with an empty line on either side when `newline_after_section` is set, then its variable lines |
| RoundTrip.RenderDocLines | hfclib.py:460-471 | the text of a list of sections is the lines of all of its sections, in order, each ended by a newline |
| RoundTrip.HeaderLineRead | hfclib.py:359-371 | a written header line with a trimmed name free of `=` opens an empty section of that name |
| RoundTrip.VarLineRead | hfclib.py:374-404 | a written variable line with a safe name and a writable value stores that value under that name in the latest section |
| RoundTrip.SectionLinesRead | hfclib.py:349-404 | the lines written for a readable section skip their empty lines, open the section, and store each variable in order |
| RoundTrip.ReadVars | hfclib.py:374-404 | the variable lines of a section, read one after the other, fill in its entries in order |
| RoundTrip.ReadSection | hfclib.py:349-404 | the lines of a section, read from where they start, append that section |
| RoundTrip.ReadDoc | hfclib.py:349-404 | the line groups of a list of sections, read from the first line, give back those sections |
| RoundTrip.DocumentRoundTrip | hfclib.py:330-477 | a non-empty list of readable sections, written by `parseList` with any spacing and newline setting and the default style, is read back by `parseHfc` as the same list |

## Left out

- File and JSON I/O is not modelled: the `open(...)` reads and writes, `readlines`, and
  `json.dump`. Only the text paths are: `hfc_text` for `parseHfc` and `getComments`, the
  `hfc` argument of `addComments`, and the string result of `parseList`.
- `addComments`' validity check (hfclib.py:530-534) opens the text as a path and only warns.
  It changes nothing in the result.
- Floats are digit strings on either side of the separator. IEEE parsing by `float(...)` and
  `str(float)` are not modelled, nor are the renderings they imply (exponents, `inf`).
- Python's `re` is written out as predicates. `\d` is taken as the ASCII digits, so
  non-ASCII decimal digits are not modelled, nor is `$` matching before a trailing newline.
- The non-string element check (hfclib.py:89-90) is not modelled: tokens are strings by type.
- An empty dict `{}` and a section dict with several keys are not representable. So the
  `if not section` branch of `_clear_empty_sections` is not modelled, nor are the section
  loops over more than one key.
- Document.ClearFrom: `list.remove` is modelled as removing the first section that is equal
  entry by entry, in order. Python's dict equality ignores key order and takes
  `1 == 1.0 == True`, so Python may remove an EARLIER unnamed section that is equal only
  under its own rules. For `[{"": {"a": 1}}, {"": {"a": 1, "b": 2}}, {"x": {}},
  {"": {"b": 2, "a": 1}}]` Python leaves `[{"x": {}}, {"": {"b": 2, "a": 1}}]`, while
  `ClearFrom` leaves `[{"": {"a": 1, "b": 2}}, {"x": {}}]`. The named sections that
  survive are the same either way (`Document.ClearKeepsNamed`).
- Document.HfcList.ClearEmptySections: follows `Document.ClearFrom`, with the same difference
  in which unnamed section `list.remove` takes out.
- Comment line numbers are integers. Other types in `comments[i][0]` are not modelled.
- `_replace` without `outside_only` is not a separate operation. It is modelled by
  `Strings.RemoveAll` where `parseHfc` uses it for header names. The float separator
  rewrite at hfclib.py:187 goes with the floats.
- The helpers return the list they mutate. `HfcList` methods update `sections` instead, and
  callers read the field.
- `sample.py` and the `__main__` demo are not part of this model.
- Comments.AddedCommentFound: the round trip is stated for comments whose text is trimmed and
  does not contain the marker, and for lines without the marker's first character. Other
  comments read back differently, because `getComments` cuts at the next marker and strips.
- Serializer.StringRoundTrip: stated for strings without `"` or newline. The reader removes
  every `"`, and a newline would split the line.
- Serializer.Encode: the write-then-read round trip (`Serializer.ValueRoundTrip`) is stated
  only for values that read back under the default style. These are strings that are
  non-empty and free of `"`, `,`, `=`, newlines, `>`, `/` and `#`, plus ints, floats of digit
  strings, `True`, and non-empty lists of these. `False` is written as the true word and
  `None` does not read back (both stated as lemmas above). `[]` and nested lists are not
  covered. A string holding a comma is covered only by the single case
  `Converter.QuotedSeparatorKept`.
- Serializer.RenderSections: the document round trip (`RoundTrip.DocumentRoundTrip`) is
  stated for the default style and for a non-empty list of sections. Every section name must
  be non-empty, trimmed and free of `=` and newlines. Every variable name must be non-empty,
  trimmed and free of `=`, newlines, `>`, `/` and `#`. Variable names must be unique within a
  section, and every value must be covered by the line above. The empty list writes the
  empty text, which `parseHfc` refuses with `NotHFC`.
- RoundTrip.DocumentRoundTrip: is stated on the text that `RenderSections` lays out. The
  `_clear_empty_sections` call that `parseList` makes first is not part of the statement.
- Numbers.ParseInt: ints are unbounded in both directions, for `int(value)` (hfclib.py:184) and `str(n)` (hfclib.py:471). CPython's conversion guard `sys.int_max_str_digits` (4300 digits by default), which raises `ValueError` past that size, is not modelled, nor is `RecursionError`.
