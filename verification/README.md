# Spill-formula rewriting in openpyxl-spill, modelled in Dafny

openpyxl-spill writes Excel 365 formulas into SpreadsheetML cells. Before a formula is
written, its text is turned into the form the file format stores. The forms it produces are:

- new functions carry `_xlfn.`;
- SORT and FILTER carry `_xlfn._xlws.`;
- LAMBDA parameters and LET names carry `_xlpm.` (an optional parameter is declared `_xlop.`);
- GROUPBY and PIVOTBY aggregation arguments carry `_xleta.`;
- the range forms `.:.`, `:.` and `.:` become `_xlfn._TRO_ALL(...)`, `_xlfn._TRO_TRAILING(...)` and `_xlfn._TRO_LEADING(...)`;
- a spilling formula gets the array attributes `t="array"` and `ref`.

The project models three independent pieces of the program, as pure functions on
`string` (`seq<char>`), and proves what each promises:

1. **The pipeline `prepare_spill_formula`** (`openpyxl/cell/formula_utils.py`). It runs
   these steps in order:
   - mask string literals, then array literals (`Shield`);
   - rewrite LAMBDA and LET with lexical scopes (`Closure`, over `Scopes` and `Splitting`);
   - mark aggregation arguments (`Aggregate`);
   - tag registry functions (`Tagger`);
   - rewrite the range forms (`RangeForms`);
   - restore arrays, then strings (`Shield`);
   - compute the attributes (`Pipeline`).
2. **The older prefix pass `add_function_prefix`** (`openpyxl/cell/formula_prefix.py`).
   It has:
   - its own keyword renaming, name loop and `_xlws.` step (`LegacyNames`);
   - the LAMBDA rewrite and its loop over the calls (`LegacyLambda`);
   - the LET rewrite (`LegacyLet`) and its loop (`LetScan`);
   - the whole pass (`LegacyPrefix`).

   Its parenthesis counting and argument splitting are in `Parens`.
3. **The decisions of the cell writer** (`openpyxl/cell/_writer.py`, module `Writer`):
   - the leading-call spill prefixer `_prepare_spill_formula`;
   - the attribute map `_set_attributes`;
   - the choice between the formula element and the value slot in
     `etree_write_cell` and `lxml_write_cell`, as an element record rather than XML.

   The writer calls neither of the other two pieces.

`Text` holds the character classes, `str.strip`, `str.find`, `str.replace` and `join`.
`Words` holds the regular expressions the program uses, written as explicit scanners
with their word boundaries, lookbehinds and ASCII case folding. These are `\bNAME\b`, the
lookbehind-guarded renamings, and `NAME\s*\(`. `Words` proves that a case-sensitive
whole-word renaming only inserts a prefix (`Words.SubIsMarking`).

Where the program's own choices are in question, the model carries both versions and
proves the difference (see "## Findings"). The affected choices are:

- the comma search of the aggregation step;
- the "already prefixed" guard of the older pass;
- the bookkeeping of its LAMBDA and LET loops;
- the SORT test of the spill prefixer.

Each of these is a parameter of the operation it affects, and both readings are named:

- `Pipeline.Prepare` is `prepare_spill_formula` as the program runs it, with the repeated
  `find(',')` of the aggregation step (`Aggregate.Naive`). `Pipeline.PrepareCorrected`
  marks the top-level argument instead (`Aggregate.TopLevel`). Both are `Pipeline.PrepareWith`.
- The writer's `WriteCell` and `FormulaSlot` take the SORT test as a parameter. The program's
  is the substring test (`Writer.Substring`, `_writer.py:42-45`), which
  `Writer.PrepareSpillAsWritten` uses. The whole-word test (`Writer.WholeWord`) gives
  `Writer.PrepareSpill`.
- `LegacyPrefix.AddFunctionPrefixAsWritten` and `LegacyPrefix.AddFunctionPrefix` give both
  readings of the older pass.

Where a description of the system and the code differ, the model follows the code:

- The aggregation argument is located by repeating `find(',')` from the opening
  parenthesis, which counts commas inside nested calls too, not by top-level splitting
  (`formula_utils.py:534-536`). `Pipeline.Prepare` does the same.
- `_split_function_args` does not strip its arguments and tracks only parentheses, not braces.
- The registry tagger skips a name altogether when `prefix + NAME` occurs anywhere in
  the text (`formula_utils.py:609-610`). It does not check whether each occurrence is prefixed.
- The older pass's set of new functions has no TRIMRANGE (`formula_prefix.py:13-25`).
  Tests that expect `_xlfn.TRIMRANGE` from it do not follow from that code.

## Model

| member | source | states |
|---|---|---|
| Text.Trim | openpyxl/cell/formula_utils.py:345-356 | `str.strip()` returns the infix left once the leading and trailing whitespace is removed. That infix neither starts nor ends with whitespace. |
| Text.TrimOnlySpaces | openpyxl/cell/formula_utils.py:345-356 | What `strip` removes on either side is whitespace, and nothing else. |
| Text.TrimTwice | openpyxl/cell/formula_prefix.py:259-263 | Stripping an already stripped part changes nothing. So the second `strip()` of each LAMBDA parameter has no effect. |
| Text.FindFirst | openpyxl/cell/formula_utils.py:536 | `str.find` returns the first occurrence at or after its start: any later occurrence bounds it. |
| Text.ReplaceAllAbsent | openpyxl/cell/formula_utils.py:101-104 | `str.replace` leaves a text without the pattern unchanged. |
| Words.SubNoMatch | openpyxl/cell/formula_utils.py:478 | `re.sub` copies a text in which its pattern matches nowhere. |
| Words.SubFirstMatch | openpyxl/cell/formula_utils.py:478 | `re.sub` copies the text up to the first match, replaces the match, and carries on after it. |
| Words.SubIsMarking | openpyxl/cell/formula_prefix.py:110-113 | Renaming a whole word `NAME` to `pre + NAME` case-sensitively inserts `pre` before every match and changes no other character. |
| Words.NoMatchInside | openpyxl/cell/formula_prefix.py:110 | No second match of a word name can start inside one. |
| Splitting.ScanJoin | openpyxl/cell/formula_utils.py:548-588 | The raw pieces cut at top-level commas, joined with commas again, are exactly the text scanned up to the closing parenthesis. |
| Splitting.KeptAll | openpyxl/cell/formula_utils.py:331-340 | Every non-empty piece is kept, stripped, in order. |
| Splitting.LambdaLetArgs | openpyxl/cell/formula_utils.py:305-358 | The LAMBDA parser and the LET parser agree on a closed call. On an unclosed one, only the LET parser keeps the trailing piece (lines 440-441). |
| Splitting.CallArgs | openpyxl/cell/formula_utils.py:548-588 | `_split_function_args` keeps every piece before a comma verbatim, even when empty. It keeps the last piece only when the call closes and the piece is not empty. |
| Splitting.CallArgsJoin | openpyxl/cell/formula_utils.py:548-588 | For a closed call whose last argument is not empty, the arguments joined with commas give back the text between the parentheses. |
| Splitting.PieceAt | openpyxl/cell/formula_utils.py:564-586 | Each piece sits in the formula at its offset from the opening parenthesis, and every piece but the last is followed by a top-level comma. |
| Scopes.KeysHas | openpyxl/cell/formula_utils.py:469 | The scope's key list lists exactly the names in the scope. |
| Scopes.PutKeys | openpyxl/cell/formula_utils.py:192-198 | `scope[k] = v` keeps an existing key in its place and puts a new one last, as a Python dict does. |
| Scopes.PutLookupSame | openpyxl/cell/formula_utils.py:192-198 | After `scope[k] = v`, `k` maps to `v`. |
| Scopes.PutLookupOther | openpyxl/cell/formula_utils.py:192-198 | After `scope[k] = v`, every other key maps to what it mapped to before. |
| Scopes.ReplaceVarsAppend | openpyxl/cell/formula_utils.py:469-478 | Renaming in a scope is renaming entry by entry in insertion order: a longer scope renames with its first part, then with the rest. |
| Scopes.ReplaceVarsDigits | openpyxl/cell/formula_utils.py:463-473 | Entries with all-digit names never rename anything. So the empty scope is the identity. |
| Scopes.ReplaceVarIsMarking | openpyxl/cell/formula_utils.py:477-478 | Renaming `name` to `_xlpm.name` inserts `_xlpm.` before exactly the whole-word occurrences not already preceded by `_xlpm.` or `_xlop.`. `x` inside `xyz` or `x1` is untouched. |
| Shield.StrScan | openpyxl/cell/formula_utils.py:85 | The string pattern `"(?:[^"]\|"")*"` with backtracking: a match ends on a quote, and there is none only when no quote follows. |
| Shield.ArrScan | openpyxl/cell/formula_utils.py:127 | The array pattern `\{[^{}]*\}`: a match ends at the first `}` with no brace in between, and there is none when every `}` is preceded by a `{`. |
| Shield.MaskTokens | openpyxl/cell/formula_utils.py:78-82 | The `j`-th literal replaced is recorded under the `j`-th fresh placeholder. |
| Shield.RestoreToken | openpyxl/cell/formula_utils.py:101-104 | With distinct placeholders, each placeholder restores to its own literal. |
| Shield.MaskRoundTrip | openpyxl/cell/formula_utils.py:66-146 | Restoring with the masker's own table gives the text back, when the placeholders share one shape, are pairwise distinct and do not occur in the input. |
| Shield.MaskShape | openpyxl/cell/formula_utils.py:106-129 | The masked text holds no placeholder of the other family, so masking arrays cannot disturb the string placeholders. |
| Shield.ShieldNone | openpyxl/cell/formula_utils.py:66-146 | A text with no `"` and no `{` is masked to itself with empty tables, and restoring with an empty table changes nothing. |
| Shield.ShieldRoundTrip | openpyxl/cell/formula_utils.py:32-53 | Masking strings, then arrays, then restoring arrays, then strings, gives the formula back. |
| Closure.ParamEntry | openpyxl/cell/formula_utils.py:185-198 | A blank parameter declares nothing, and every other parameter declares one name. |
| Closure.ParamEntryShape | openpyxl/cell/formula_utils.py:187-198 | `[p]` is declared `_xlop.p`, any other parameter `_xlpm.p`, and the bound name is the stripped text without its brackets. |
| Closure.LambdaPartsSpec | openpyxl/cell/formula_utils.py:345-356 | The last argument is the body and the others are parameters. A single argument is a body with no parameters, and no argument gives neither. |
| Closure.PairsSpec | openpyxl/cell/formula_utils.py:437-441 | Pair `k` of the LET arguments is arguments `2k` and `2k+1`. |
| Closure.LetPartsSpec | openpyxl/cell/formula_utils.py:437-447 | With an odd count, the pairs come before the last argument, which is the final expression. With an even count there are no bindings and no final expression, so the output is `_xlfn.LET()`. |
| Closure.DeclareParamsHas | openpyxl/cell/formula_utils.py:181-198 | The body's scope holds the outer names and exactly the parameters' names. |
| Closure.DeclareParamsBound | openpyxl/cell/formula_utils.py:188-198 | Every parameter, optional or not, is referenced as `_xlpm.name` in the body. |
| Closure.DeclareParamsOther | openpyxl/cell/formula_utils.py:181 | A name no parameter binds keeps its outer meaning. The enclosing scope is copied, never changed. |
| Closure.LambdaTextShape | openpyxl/cell/formula_utils.py:169-213 | A rewritten LAMBDA is an `_xlfn.LAMBDA(` call with its closing parenthesis, whether or not the input closed it. |
| Closure.LetTextShape | openpyxl/cell/formula_utils.py:218-257 | A rewritten LET is an `_xlfn.LET(` call with its closing parenthesis. |
| Closure.RewriteUntouched | openpyxl/cell/formula_utils.py:262-268 | A formula without LAMBDA or LET calls is copied character by character. |
| Closure.RewriteAtFirstBinder | openpyxl/cell/formula_utils.py:166-170 | The text before the first call is kept, and the call's output begins with `_xlfn.`. |
| Closure.BoundScopeHas | openpyxl/cell/formula_utils.py:232-247 | After the bindings, the names in scope are the outer names and the bindings' own non-blank names. |
| Closure.BindingsScope | openpyxl/cell/formula_utils.py:232-247 | The bindings leave the scope that binding the names in order builds. The final expression sees all of them. |
| Closure.BindingsSplit | openpyxl/cell/formula_utils.py:232-247 | Binding a list in two parts: the second part starts from the scope the first part built. |
| Closure.LetValueScope | openpyxl/cell/formula_utils.py:234-247 | The value of binding `j` is processed in the scope of the names bound before it. Its own name and later names are not visible to it, and its name is added afterwards. |
| Aggregate.ArgsStart | openpyxl/cell/formula_utils.py:516-521 | A match of `\bNAME\s*\(` ends just after its `(`. |
| Aggregate.CallsFrom | openpyxl/cell/formula_utils.py:517 | The matches are found left to right inside the text. |
| Aggregate.CommaFromIsFind | openpyxl/cell/formula_utils.py:536 | The comma search is `formula.find(',', p)`. |
| Aggregate.FixEffect | openpyxl/cell/formula_utils.py:526-543 | A call with too few arguments, or a lambda or already-marked argument, is left alone. Otherwise exactly one `_xleta.` is inserted at or after the opening parenthesis and the rest is kept. |
| Aggregate.MarkAggregatesNoCall | openpyxl/cell/formula_utils.py:483-545 | A text with no `GROUPBY(` or `PIVOTBY(` call is left unchanged by the aggregation step. |
| Aggregate.TopPointLocates | openpyxl/cell/formula_utils.py:527-543 | The corrected placement puts the marker where the stripped argument itself starts. |
| Aggregate.CommaWalkBounded | openpyxl/cell/formula_utils.py:534-536 | While top-level commas lie ahead, the naive search never fails and never moves past the next top-level comma. |
| Aggregate.NaiveAgrees | openpyxl/cell/formula_utils.py:534-540 | The naive placement equals the top-level one whenever the earlier arguments contain no comma. |
| Aggregate.NaiveMisplaced | openpyxl/cell/formula_utils.py:534-543 | As written, `GROUPBY(A,F(B,C),D)` becomes `GROUPBY(A,F(B,_xleta.C),D)`. |
| Aggregate.TopLevelPlaced | openpyxl/cell/formula_utils.py:504-545 | Corrected, it becomes `GROUPBY(A,F(B,C),_xleta.D)`. |
| Tagger.TagOneUnchanged | openpyxl/cell/formula_utils.py:607-617 | A registry pass leaves the text alone exactly when `prefix + NAME` already occurs or no unprefixed call of the name exists. |
| Tagger.TagOneMarks | openpyxl/cell/formula_utils.py:615-617 | A pass that changes the text leaves `prefix + NAME` in it. |
| Tagger.TagOneIdempotent | openpyxl/cell/formula_utils.py:607-617 | Running one registry pass twice is the same as running it once. |
| Tagger.TagWithNoCall | openpyxl/cell/formula_utils.py:607-617 | A text without an unprefixed call of any listed name passes through the loop unchanged. |
| Tagger.TagNoCall | openpyxl/cell/formula_utils.py:591-673 | The loop over the whole registry leaves such a text alone. |
| Tagger.TagWithSkip | openpyxl/cell/formula_utils.py:607-617 | Registry entries at the front that find no unprefixed call are passed over, and the loop goes on from the first one that might. |
| Tagger.SubFromNoRangeSep | openpyxl/cell/formula_utils.py:615-617 | Substituting a replacement that has no `:` and neither starts nor ends with `.` never puts `:` and `.` side by side. |
| Tagger.RegistryPlain | openpyxl/cell/formula_utils.py:631-672 | Every registry name starts with a capital and holds no `:`, and every prefix is `_xlfn.` or `_xlfn._xlws.`. |
| Tagger.TagNoRangeSep | openpyxl/cell/formula_utils.py:591-673 | The tagger creates no `.:` and no `:.`, so it never hands the range step a form that was not already there. |
| Tagger.ExampleSortTagged | openpyxl/cell/formula_utils.py:615-617 | `sort (A1)` is tagged case-insensitively, across the space, to `_xlfn._xlws.SORT (A1)`. |
| Tagger.ExampleSkipWhenPresent | openpyxl/cell/formula_utils.py:609-610 | In `_xlfn.UNIQUE(A1)+UNIQUE(B1)` the second call stays untagged, because the name is skipped once its prefixed form occurs. |
| RangeForms.RunEnd | openpyxl/cell/formula_utils.py:689 | A greedy character-class run ends at the first character outside the class. |
| RangeForms.CellEnd | openpyxl/cell/formula_utils.py:689 | A cell, column or row endpoint, when one matches, spans at least one character. |
| RangeForms.SheetEnd | openpyxl/cell/formula_utils.py:690 | The optional sheet group ends just after a `!` and spans a name of at least one character. |
| RangeForms.MatchCovers | openpyxl/cell/formula_utils.py:689-702 | A match covers exactly the text it describes: optional sheet and `!`, endpoint, separator, endpoint. Its parts have the shapes the pattern admits. |
| RangeForms.UncallCall | openpyxl/cell/formula_utils.py:707-737 | The call a match is replaced by reads back as the range text it replaced, with the sheet name written once. |
| RangeForms.RewriteStepInvertible | openpyxl/cell/formula_utils.py:693-702 | Every rewrite step can be undone: the call put in for a match determines the text it replaced. |
| RangeForms.MatchEnclosed | openpyxl/cell/formula_utils.py:693-702 | Every match has its separator between two endpoint characters. |
| RangeForms.RewriteNoSep | openpyxl/cell/formula_utils.py:693-702 | Without its separator, a form's pass copies the text. |
| RangeForms.ConvertPlain | openpyxl/cell/formula_utils.py:676-704 | Text without `.:` and `:.`, such as a plain `A1:B10`, passes through all three forms unchanged. |
| RangeForms.LaterFormsKeep | openpyxl/cell/formula_utils.py:697-702 | A result without `:.` and `.:` is left alone by the later forms. |
| RangeForms.ExampleAll | openpyxl/cell/formula_utils.py:692-694 | `A1.:.B10` becomes `_xlfn._TRO_ALL(A1:B10)`. |
| RangeForms.ExampleSheet | openpyxl/cell/formula_utils.py:732-735 | `Sheet1!A1.:.B10` becomes `_xlfn._TRO_ALL(Sheet1!A1:Sheet1!B10)`. |
| RangeForms.ExampleLowerCase | openpyxl/cell/formula_utils.py:689 | `a1.:.b10` is left as it is. |
| RangeForms.ExampleMidToken | openpyxl/cell/formula_utils.py:693-694 | With no boundary before the pattern, `a1.:.B10` becomes `a_xlfn._TRO_ALL(1:B10)`. |
| Pipeline.Attributes | openpyxl/cell/formula_utils.py:740-799 | A spilling cell gets `{t: array, ref: spill range, else coordinate}`. Otherwise the array attributes on the cell's coordinate are given exactly when the text holds `_xlfn.LAMBDA` or `_xlfn.LET`, with `A1` when the cell has no coordinate. Any other formula gets no attributes. |
| Pipeline.PrepareWith | openpyxl/cell/formula_utils.py:13-59 | Empty text, or text not starting with `=`, is returned with no attributes. Otherwise the result is `=` followed by the rewritten body, with the attributes of that body. |
| Pipeline.AttributesByMarkers | openpyxl/cell/formula_utils.py:752-764 | The attributes depend on the formula only through the two tagged markers. |
| Pipeline.SpillIgnoresFormula | openpyxl/cell/formula_utils.py:752-755 | For a spilling cell the formula does not matter. |
| Pipeline.PreparePassThrough | openpyxl/cell/formula_utils.py:27-59 | When the rewriting stages find nothing to do in the masked text, the formula comes back exactly as given. |
| Pipeline.TransformTagOnly | openpyxl/cell/formula_utils.py:37-47 | On a body with no LAMBDA or LET call, no GROUPBY or PIVOTBY call and neither `.:` nor `:.`, steps 3 to 6 together are exactly the registry tagger, under either aggregate placement. |
| Pipeline.PrepareTagOnly | openpyxl/cell/formula_utils.py:27-59 | For a formula whose masked body is of that kind, the result is `=` and the tagged body with its literals restored, with the attributes of that text. |
| Pipeline.PrepareLiteralFree | openpyxl/cell/formula_utils.py:27-59 | A formula without `"` and `{` and with such a body is `=` followed by the tagged body, with the attributes of the tagged body. |
| PrepareExamples.ExampleUnique | openpyxl/cell/formula_utils.py:13-59 | `=UNIQUE(B2:B10)` in a cell that does not spill becomes `=_xlfn.UNIQUE(B2:B10)` with no attributes, as the program runs it and corrected. |
| Pipeline.PrepareNoLiterals | openpyxl/cell/formula_utils.py:27-59 | A formula without `"` and `{` is `=` followed by its body through steps 3 to 6, with the attributes of that text: masking and restoring change nothing. |
| Pipeline.TransformRewritten | openpyxl/cell/formula_utils.py:37-47 | When the LAMBDA/LET rewrite leaves no GROUPBY or PIVOTBY call, no unprefixed registry call and no range separator, steps 4 to 6 keep its output as it is. |
| PrepareExamples.LambdaRewrite | openpyxl/cell/formula_utils.py:149-213 | The LAMBDA/LET stage turns `LAMBDA(x,x*2)` into `_xlfn.LAMBDA(_xlpm.x,_xlpm.x*2)`. |
| PrepareExamples.ExampleLambda | openpyxl/cell/formula_utils.py:13-59 | `=LAMBDA(x,x*2)` in a cell that does not spill becomes `=_xlfn.LAMBDA(_xlpm.x,_xlpm.x*2)`, with the array attributes on the cell's own coordinate. |
| PrepareExamples.ExampleSort | openpyxl/cell/formula_utils.py:13-59 | `=SORT(A1:A10)` in a cell that does not spill becomes `=_xlfn._xlws.SORT(A1:A10)` with no attributes. |
| Parens.Close | openpyxl/cell/formula_prefix.py:152-160 | The scan for the closing parenthesis stops just after a `)`. |
| Parens.CloseFound | openpyxl/cell/formula_prefix.py:152-162 | A successful scan stops at the first point where the balance since the start closes every parenthesis open. |
| Parens.CloseMissing | openpyxl/cell/formula_prefix.py:155-162 | A failed scan never saw the balance close. |
| Parens.CloseBefore | openpyxl/cell/formula_prefix.py:322-333 | A scan started before an opening parenthesis counts it too, and so runs past the parenthesis that closes it. |
| Parens.PiecesSpec | openpyxl/cell/formula_prefix.py:229-246 | The pieces, joined with commas, are the text again. Every cut was at depth zero, and no piece holds a comma at its own depth zero. |
| Parens.Trimmed | openpyxl/cell/formula_prefix.py:240-246 | Every piece is stripped. |
| Parens.PartsSpec | openpyxl/cell/formula_prefix.py:229-246 | Every part is a stripped top-level piece, and a last piece with no characters is not appended. |
| LegacyNames.NamePassMarks | openpyxl/cell/formula_prefix.py:106-113 | A name pass that runs inserts `_xlfn.` before every whole-word, case-sensitive occurrence, with no `(` needed, and changes nothing else. |
| LegacyNames.NamePassSkips | openpyxl/cell/formula_prefix.py:112 | A text already showing `_xlfn.NAME` is passed over. |
| LegacyNames.NamesNoCapital | openpyxl/cell/formula_prefix.py:106-113 | The name loop leaves a text without capital letters alone. |
| LegacyNames.XlwsKeeps | openpyxl/cell/formula_prefix.py:115-117 | The `_xlws.` step touches only `_xlfn.SORT` and `_xlfn.FILTER`. A text that already reads `_xlfn._xlws.SORT` is left alone. |
| LegacyNames.TagTextNoCapital | openpyxl/cell/formula_prefix.py:106-117 | A text without capital letters goes through the tagging unchanged. |
| LegacyNames.OrderCapitals | openpyxl/cell/formula_prefix.py:13-25 | Every name of the set starts with a capital letter. |
| LegacyLambda.MatchCall | openpyxl/cell/formula_prefix.py:221-227 | The match `(_xlfn\.LAMBDA\s*\()(.+)(\)$)` gives a head ending in `(` and a non-empty content without newlines. |
| LegacyLambda.MatchCallCovers | openpyxl/cell/formula_prefix.py:221-227 | A match covers the whole text: head, content, then `)` with at most a final newline after it. |
| LegacyLambda.LambdaParams | openpyxl/cell/formula_prefix.py:221-250 | Text that is not a LAMBDA call, or that has fewer than two parts, is returned unchanged. |
| LegacyLambda.RewrittenStarts | openpyxl/cell/formula_prefix.py:287 | The rebuilt call opens with the head and the marked parameters. |
| LegacyNames.MarkAllIsMarking | openpyxl/cell/formula_prefix.py:266-271 | For names made of word characters, the `re.sub` loop over the parameters puts `_xlpm.` before exactly the whole-word uses of each name in turn and changes nothing else. |
| LegacyLambda.LambdaParamsMarks | openpyxl/cell/formula_prefix.py:221-287 | A LAMBDA call with any number of word-character parameters is rebuilt as its head, each parameter with `_xlpm.`, then the body with `_xlpm.` before exactly the whole-word uses of each parameter in turn, tagged, and `)`. |
| LegacyLambda.LambdaOneParam | openpyxl/cell/formula_prefix.py:256-284 | With one parameter, `_xlpm.` goes before exactly its whole-word uses in the body, and only then are the functions tagged. |
| LegacyLambda.Opening | openpyxl/cell/formula_prefix.py:147-149 | `_xlfn\.LAMBDA\s*\(` matches exactly where the name, then white space, then `(` follow. |
| LegacyLambda.FoundOpen | openpyxl/cell/formula_prefix.py:147-163 | A call that opens and closes is recorded with its span, and the search resumes after its `(`. |
| LegacyLambda.SortByLengthSpec | openpyxl/cell/formula_prefix.py:166 | The sort orders the spans by length and keeps each exactly once. |
| LegacyLambda.LoopWhole | openpyxl/cell/formula_prefix.py:171-182 | A pending call covering the whole text rewrites the whole text. |
| LegacyLambda.ShiftKeepsSpan | openpyxl/cell/formula_prefix.py:184-195 | With corrected bookkeeping, every pending call still covers its own text after a rewrite, with the rewritten text inside when it encloses it. |
| LegacyLambda.StaleEnclosingSpan | openpyxl/cell/formula_prefix.py:189-195 | As written, a call enclosing a rewritten call that grew keeps its old end. So it covers its intended text cut short by exactly the growth. |
| LegacyLet.LetNames | openpyxl/cell/formula_prefix.py:406-410 | The names are every other part, from the first. |
| LegacyLet.EmptyValues | openpyxl/cell/formula_prefix.py:408-413 | At most one empty value per binding. |
| LegacyLet.LetVarsKeeps | openpyxl/cell/formula_prefix.py:370-399 | A text that is not a LET call, or a call with fewer than three parts or an even number of parts, is returned unchanged. |
| LegacyLet.BindLength | openpyxl/cell/formula_prefix.py:406-419 | Each empty value costs the output one part, and nothing else does. |
| LegacyLet.BindAllValues | openpyxl/cell/formula_prefix.py:406-419 | With no empty value, name `k` becomes `_xlpm.` + name `k`. Value `k` gets `_xlpm.` only before the names bound before it. |
| LegacyLet.LetBodyAllValues | openpyxl/cell/formula_prefix.py:406-427 | The rewritten LET keeps its parts' number and order. The final expression gets `_xlpm.` before every bound name. |
| LegacyLet.LetBodyDropsEmpty | openpyxl/cell/formula_prefix.py:408-419 | An empty value is dropped, so the output has one part fewer for each. |
| LetScan.NextCall | openpyxl/cell/formula_prefix.py:316-321 | `re.search` finds a call opening at or after the start. |
| LetScan.NextCallFirst | openpyxl/cell/formula_prefix.py:316-321 | The call it finds is the first one. |
| LetScan.NextCallNone | openpyxl/cell/formula_prefix.py:316-318 | It finds nothing exactly when no call opens from the start on. |
| LetScan.LetEnd | openpyxl/cell/formula_prefix.py:322 | The parenthesis search starts inside the text, after the call's start. |
| LetScan.NoCallKeeps | openpyxl/cell/formula_prefix.py:315-318 | A text in which no call opens is left as it is. |
| LetScan.LetLoopKeeps | openpyxl/cell/formula_prefix.py:315-347 | The loop never touches the text before where it starts. |
| LetScan.LetLoopOpen | openpyxl/cell/formula_prefix.py:335-342 | A call that closes is replaced by its rewrite, and the loop resumes after the rewrite. |
| LetScan.LetLoopSkips | openpyxl/cell/formula_prefix.py:343-345 | A call that never closes is left untouched, and the search resumes at `let_end`. |
| LetScan.LetLoopRewrites | openpyxl/cell/formula_prefix.py:335-342 | The result keeps the rewritten call as its prefix up to the end of the rewrite, so a LET nested in it is never processed on its own. |
| LetScan.LetSpaceMisses | openpyxl/cell/formula_prefix.py:322-333 | As written, for a call with white space before its `(`, the search counts that `(` twice. It never stops at the parenthesis that closes the call. |
| LetScan.LetSpanCloses | openpyxl/cell/formula_prefix.py:309-333 | Corrected, the search starts after the call's own `(`, and the span ends at the parenthesis that closes it. |
| LegacyPrefix.Prefixing | openpyxl/cell/formula_prefix.py:94-119 | Empty text, or text not starting with `=`, is returned unchanged. Otherwise the result starts with `=`. |
| LegacyPrefix.KeywordsMark | openpyxl/cell/formula_prefix.py:138-142 | Renaming the keywords only inserts `_xlfn.`: first before every whole-word LAMBDA, then before every whole-word LET. |
| LegacyPrefix.NoCapitalUnchanged | openpyxl/cell/formula_prefix.py:28-119 | The pass is case-sensitive: a formula without capital letters comes back as it went in. |
| LegacyPrefix.ProcessLambdaAbsent | openpyxl/cell/formula_prefix.py:122-200 | A text that does not contain the words LAMBDA and LET comes out of the keyword renaming and both call loops unchanged. |
| LegacyPrefix.PrefixingTagOnly | openpyxl/cell/formula_prefix.py:94-119 | Such a formula becomes `=` followed by its body through the name loop and the `_xlws.` step, and nothing else. |
| LegacyExamples.OrderHas | openpyxl/cell/formula_prefix.py:13-25 | Any iteration order of the set visits every new function. |
| LegacyExamples.NamesOneHit | openpyxl/cell/formula_prefix.py:106-113 | When one name's pass rewrites the text and every other pass leaves both the old and the new text alone, the name loop gives that one rewrite, whatever the order. |
| LegacyExamples.ExampleAddFunctionPrefix | openpyxl/cell/formula_prefix.py:94-119 | `=UNIQUE(A1)` becomes `=_xlfn.UNIQUE(A1)` under both readings of the older pass, in any iteration order. |
| SortGuard.SortBlockedAsWritten | openpyxl/cell/formula_prefix.py:112 | As written, any text showing `_xlfn.SORTBY` skips the SORT pass. |
| SortGuard.SortLeftAsWritten | openpyxl/cell/formula_prefix.py:106-113 | As written, `SORT(_xlfn.SORTBY(A1))` keeps a whole-word SORT without a prefix. |
| SortGuard.SortRenamedCorrected | openpyxl/cell/formula_prefix.py:106-113 | With a whole-word guard the SORT pass runs and puts `_xlfn.` in front of the SORT call. |
| LetSpace.LetSpaceAsWritten | openpyxl/cell/formula_prefix.py:315-347 | As written, `_xlfn.LET (x,1,x)` is left as it is. |
| LetSpace.LetSpaceCorrected | openpyxl/cell/formula_prefix.py:315-347 | Corrected, the whole call goes through `_add_xlpm_to_let_vars`. |
| LetSpace.LetSpaceRewritten | openpyxl/cell/formula_prefix.py:350-431 | That call becomes `_xlfn.LET (_xlpm.x,1,_xlpm.x)`. |
| NestedLambda.NestedAsWritten | openpyxl/cell/formula_prefix.py:171-195 | As written, `_xlfn.LAMBDA(x,_xlfn.LAMBDA(y,x+y))` has only the inner call rewritten. The outer parameter `x` stays unmarked. |
| NestedLambda.NestedCorrected | openpyxl/cell/formula_prefix.py:171-195 | With the enclosing span moved as well, the outer call is rewritten and starts `_xlfn.LAMBDA(_xlpm.x,`. |
| Writer.PrefixLeading | openpyxl/cell/_writer.py:13-40 | `_xlfn.` is put in front exactly once when the upper-cased text starts with a spill function, and otherwise not at all, whatever the set's iteration order. |
| Writer.XlwsStep | openpyxl/cell/_writer.py:42-45 | A text starting with `_xlfn.SORT` then has `_xlfn._xlws.SORT` at its start. Failing that, one starting with `_xlfn.FILTER` has `_xlfn._xlws.FILTER`. Any other text is unchanged. Under the program's substring test, no `_xlfn.SORT` (or, in the FILTER case, no `_xlfn.FILTER`) is left anywhere in the result: `str.replace` renames every occurrence and creates none. |
| Text.ReplaceAllGone | openpyxl/cell/_writer.py:43-45 | When the replacement neither contains the pattern nor can form it with a neighbouring character, `str.replace` leaves no occurrence of the pattern in its result. |
| Writer.RenameLeads | openpyxl/cell/_writer.py:43-45 | The renaming turns the leading `_xlfn.NAME` into `_xlfn._xlws.NAME`. |
| Writer.SpillRef | openpyxl/cell/_writer.py:50 | `ref` is the spill range when it is set and not empty; otherwise it is the coordinate. |
| Writer.DropEquals | openpyxl/cell/_writer.py:33-34 | One leading `=` is removed, and `=` put back in front restores the text. |
| Writer.PrepareSpillWith | openpyxl/cell/_writer.py:18-53 | A cell that does not spill keeps its text and gets `{}`. A spilling one gets `{t: array, ref}`. |
| Writer.UnderscoreNoSpill | openpyxl/cell/_writer.py:37-40 | A text starting with `_`, such as one already carrying `_xlfn.`, gets no second prefix. |
| Writer.PrepareSpillStable | openpyxl/cell/_writer.py:29-53 | Run again on its own output, the spill prefixer returns the same text and attributes, so no prefix is ever doubled. |
| Writer.SortByAsWritten | openpyxl/cell/_writer.py:42-43 | As written, a spilling `=SORTBY(A1,B1)` is written `_xlfn._xlws.SORTBY(A1,B1)`. |
| Writer.SortByCorrected | openpyxl/cell/_writer.py:42-45 | Corrected, it is written `_xlfn.SORTBY(A1,B1)`. |
| Writer.WriteSortBy | openpyxl/cell/_writer.py:101-127 | End to end, a spilling `=SORTBY(A1,B1)` cell is written with formula text `_xlfn._xlws.SORTBY(A1,B1)` by the program's SORT test, and `_xlfn.SORTBY(A1,B1)` by the whole-word one. |
| Writer.Decimal | openpyxl/cell/_writer.py:62 | `f"{style_id}"` is all decimal digits. |
| Writer.DecimalRoundTrip | openpyxl/cell/_writer.py:62 | The `s` attribute reads back as the style id. |
| Writer.SetAttributes | openpyxl/cell/_writer.py:55-89 | `r` is always set to the coordinate, and `s` is set iff styled. `t` is `inlineStr` for `s`, absent for `f`, and otherwise the data type, with a date's `t` decided by `d`/`n`. `cm="1"` is set iff a formula spills. A date with a time zone raises. A date value becomes ISO text or a serial. The hyperlink list grows by the hyperlink exactly when there is one. |
| Writer.FormulaSlot | openpyxl/cell/_writer.py:101-127 | A spilling text is written as `_prepare_spill_formula` returns it under the given SORT test (the program's is the substring one), with `v` = `0`. A plain text is written with one `=` removed and an empty `v`. A non-spilling array formula keeps its own attributes: with text and no `dataTable` attribute, its text is written with one `=` removed and `v` is empty; with no text, `<f>` has no text and `v` is empty; under a `dataTable` attribute, `<f>` has no text and the text goes to `v`. A data-table formula has its own attributes, no text and an empty `v`. A value that is not text raises where the code calls a string method on it. |
| Writer.WriteEmpty | openpyxl/cell/_writer.py:96-99 | An empty value gives a bare `c` with the attributes. |
| Writer.WriteSpilling | openpyxl/cell/_writer.py:101-127 | A spilling formula cell gets the array `f` with the text `_prepare_spill_formula` gives under the SORT test in use, `cm="1"`, no `t`, and `0` as its value. |
| Writer.WritePlain | openpyxl/cell/_writer.py:116-127 | A plain formula cell gets `f` with no attributes, its text without one leading `=`, and an empty `v`. |
| Writer.WriteDataTable | openpyxl/cell/_writer.py:112-117 | A data-table formula gets `f` with its own attributes, no text, and an empty `v`. |
| Writer.CmMarksSpill | openpyxl/cell/_writer.py:69-71 | A written cell carries `cm` exactly when it has a formula element and spills, and then the formula element has the spill attributes. |
| Writer.WriteValue | openpyxl/cell/_writer.py:129-143 | A cell without a formula has no `f`. Its value goes into an inline string for `s` and into `v` otherwise. |
| Writer.WriteFails | openpyxl/cell/_writer.py:101-127 | Writing a formula cell fails exactly when its value is not text and either the cell spills or the value is neither an array formula nor a data-table formula. |

## Left out

- Placeholders: the uuid-based placeholder names (`formula_utils.py:80`, `:121`) are
  random. Here they are functions `nat -> string` chosen by the caller.
  - The round trip is proved under a precondition: every placeholder has the same width,
    is made of word characters, and starts with a mark character found neither in the
    input nor elsewhere in any placeholder.
  - Being distinct and absent from the input is not enough for `str.replace` to restore
    the text: a placeholder that begins with `_` can straddle the border with a neighbouring one.
- Replacement templates of `re.sub` are not modelled: `_xlpm.` + name is inserted
  literally (`formula_utils.py:478`, `formula_prefix.py:269-270`, `:417-418`, `:424-425`).
  In the program the replacement is a template, so a name holding a backslash is not
  inserted as written. A name such as `a\d` raises `re.error`, since `\d` is no valid
  escape in a replacement, and a `\\` in a name is inserted as a single backslash.
- Pipeline.PrepareWith: the catch-all `except` of `prepare_spill_formula`
  (`formula_utils.py:61-63`) is not modelled, because the model raises nothing. On the
  inputs where a stage raises, such as the `re.error` above, the program returns
  `(formula, {})` and the model returns a rewritten formula.
- Character classes: `\w`, `str.isalnum` and `str.isdigit` are ASCII only. Whitespace is
  the full set `str.isspace` and `\s` agree on for the characters that occur.
- Case folding: `str.upper` (`_writer.py:38`, `formula_utils.py:288`, `:530`) and
  `re.IGNORECASE` (`formula_utils.py:517`, `:617`) are modelled on ASCII letters only.
  Python also folds `ſ` to `S`, `ı` to `I`, the Kelvin sign to `K`, and ligatures
  such as `ﬁ` to `FI`. The program prefixes a function name spelled with them, as in
  `ſort(A1)` or `unıque(A1)`, and the model leaves it alone.
- Writer.PrefixLeading: the upper-casing it states is ASCII only, so a spilling formula
  whose name is spelled with the letters above, such as `=ſort(A1)`, gets `_xlfn.` in
  the program and none in the model.
- XML emission, `whitespace()` and `safe_string` are not modelled. Nor is the lxml/etree
  switch (`_writer.py:204-207`): both writers take the same decisions on formula cells.
- `lxml_write_cell` differs from `etree_write_cell` for a string cell whose value is
  not a `str`: it writes an empty `<is>`. This is not modelled, since the element record
  keeps the value in either case.
- `to_excel` and `to_ISO8601` are recorded as the constructors `Iso` and `Serial`.
  The floating-point conversion is not modelled.
- `CellRichText.to_tree` is not modelled: a rich value is written as a `RichTree` record.
- `_looks_like_parameter` (`formula_utils.py:361-386`) is never called, and is not modelled.
- The hyperlink is a string appended to a list, not the hyperlink object.
- The iteration order of `EXCEL_NEW_FUNCTIONS` and `SPILL_FUNCTIONS` is a parameter `order`.
  - `Writer.PrefixLeading` proves its result does not depend on it.
  - For the older pass, the order changes the result on SORT and SORTBY (see "## Findings").
- Writer.XlwsStep: under the whole-word test, only the leading rename is stated. That no
  whole-word `_xlfn.SORT` or `_xlfn.FILTER` is left is proved for the program's substring test only.
- LegacyLambda.LambdaParamsMarks: the body marking is characterized for parameters made of
  word characters. A parameter with other characters is modelled by the same `re.sub` loop
  (`LegacyNames.MarkAll`), but no lemma says what it inserts.
- Tagger.TagOneIdempotent: proves one registry pass idempotent.
  Re-running the whole registry loop on its own output is not proved to change nothing.
- LegacyLambda.SortByLengthSpec: states ordering and permutation, not the stability of
  Python's sort. The model's insertion sort is stable, but this is not stated.
- LetScan.LetLoopRewrites: states only that the rewritten span stays the result's
  prefix. That the rest of the loop acts on the text after the span alone is not stated.
- NestedLambda.NestedCorrected: states only how the corrected output starts
  (`_xlfn.LAMBDA(_xlpm.x,`), not the full text.
- Shield: that no rewriting stage alters the inside of a literal follows from masking,
  but a stage that happened to produce placeholder text is not ruled out by a lemma.
  `Pipeline.PreparePassThrough` covers only the stages finding nothing to change.
- `\bLAMBDA\b` in the older pass also matches the LAMBDA inside an existing
  `_xlfn.LAMBDA` and adds a second prefix (`formula_prefix.py:139`). This is modelled
  as written and not listed as a finding.
- `_add_xlpm_to_let_vars` drops a binding's empty value from the output
  (`formula_prefix.py:408-413`). This is modelled as written (`LegacyLet.LetBodyDropsEmpty`).
- A formula cell whose value is not text and not an array or data-table formula raises
  `AttributeError` in the source. It is modelled as the failure `NotText`.
- The string-versus-formula classification of cell values lives in the Cell class,
  which is not part of this model.

## Findings

| source | as written | input that shows it | evidently intended | confidence | as-written member | corrected member |
|---|---|---|---|---|---|---|
| openpyxl/cell/formula_utils.py:534-536 | the aggregation argument is found by `find(',')` repeated, ignoring nesting | `GROUPBY(A,F(B,C),D)` gives `GROUPBY(A,F(B,_xleta.C),D)` | the marker before the third top-level argument: `GROUPBY(A,F(B,C),_xleta.D)` | not executed | Aggregate.NaiveMisplaced | Aggregate.TopLevelPlaced |
| openpyxl/cell/formula_prefix.py:189-195 | after an inner LAMBDA is rewritten, only calls starting after it are moved; the enclosing call keeps its old end | `=LAMBDA(x,LAMBDA(y,x+y))` leaves the outer `x` unmarked | the enclosing span grows with the rewrite, and the outer call is rewritten too | not executed | NestedLambda.NestedAsWritten | NestedLambda.NestedCorrected |
| openpyxl/cell/formula_prefix.py:322 | `let_end` is the call's start plus `len('_xlfn.LET(')` whatever the white space before `(` | `_xlfn.LET (x,1,x)` is left unprocessed | the search starts after the `(` the pattern matched, and the call is rewritten | not executed | LetSpace.LetSpaceAsWritten | LetSpace.LetSpaceCorrected |
| openpyxl/cell/formula_prefix.py:112 | the "already prefixed" test is a substring search, so `_xlfn.SORTBY` counts as `_xlfn.SORT` | `SORT(SORTBY(A1))`, with SORTBY visited first, gives `SORT(_xlfn.SORTBY(A1))` | the test stops at a word boundary, and SORT gets its prefix in any order | not executed | SortGuard.SortLeftAsWritten | SortGuard.SortRenamedCorrected |
| openpyxl/cell/_writer.py:42-43 | `startswith('_xlfn.SORT')` and `replace('_xlfn.SORT', ...)` also match `_xlfn.SORTBY` | a spilling `=SORTBY(A1,B1)` is written `_xlfn._xlws.SORTBY(A1,B1)` | SORTBY keeps the plain `_xlfn.` prefix the registry gives it (`formula_utils.py:632`) | not executed | Writer.SortByAsWritten | Writer.SortByCorrected |
