/** The name loop of the legacy prefix pass (`add_function_prefix` and the
    tail of `_add_xlpm_to_lambda_params`): every name of the set of new
    functions except LAMBDA and LET is renamed to `_xlfn.NAME` at each
    case-sensitive whole-word occurrence, unless the text already shows it
    prefixed; then `_xlfn.SORT` and `_xlfn.FILTER` gain `_xlws.`.

    The set is iterated in an order the model takes as a parameter: string
    hashing decides it in the program.  The "already prefixed" test is
    modelled both as written (a plain substring search) and corrected (a
    search that also requires a word boundary after the name). */
module LegacyNames {
  import opened Text
  import opened Words

  /** `EXCEL_NEW_FUNCTIONS`, in the order the source lists it. */
  const NewFunctions: seq<string> := [
    "UNIQUE", "SORT", "SORTBY", "FILTER", "SEQUENCE", "RANDARRAY", "XLOOKUP", "XMATCH",
    "VSTACK", "HSTACK", "TAKE", "DROP", "CHOOSEROWS", "CHOOSECOLS", "EXPAND", "TOCOL", "TOROW",
    "WRAPCOLS", "WRAPROWS",
    "ARRAYTOTEXT", "VALUETOTEXT", "TEXTAFTER", "TEXTBEFORE", "TEXTSPLIT",
    "REGEXEXTRACT", "REGEXREPLACE", "REGEXTEST",
    "LAMBDA", "LET"
  ]

  /** One possible iteration order of the set: its names, each once. */
  predicate IsOrder(order: seq<string>)
  {
    && |order| == |NewFunctions|
    && (forall k :: 0 <= k < |order| ==> order[k] in NewFunctions)
    && (forall i, j :: 0 <= i < j < |order| ==> order[i] != order[j])
  }

  const Fn: string := "_xlfn."
  const Pm: string := "_xlpm."

  /** `\bNAME\b`, case-sensitive, for a name used literally (`re.escape`). */
  function Word(n: string): Pattern
  {
    Pattern(n, [], false, true, WordEnd)
  }

  /** How the "already prefixed" test is made. */
  datatype Guard = Substring | WholeWord

  /** `re.search(r'_xlfn\.' + func, s)` as written, or with a trailing `\b`. */
  predicate Prefixed(s: string, n: string, g: Guard)
  {
    match g
    case Substring => Contains(s, Fn + n)
    case WholeWord => HasMatchFrom(s, 0, Pattern(Fn + n, [], false, false, WordEnd))
  }

  /** One pass of the loop. */
  function NamePass(s: string, n: string, g: Guard): string
  {
    if n == "LAMBDA" || n == "LET" || Prefixed(s, n, g) then s else Sub(s, Word(n), Fn + n)
  }

  /** The loop over the names in `order`. */
  function Names(s: string, order: seq<string>, g: Guard): string
    decreases |order|
  {
    if order == [] then s else Names(NamePass(s, order[0], g), order[1..], g)
  }

  /** `_xlfn\.SORT\b` and `_xlfn\.FILTER\b` gain `_xlws.`. */
  function Xlws(s: string): string
  {
    var sorted := Sub(s, Pattern("_xlfn.SORT", [], false, false, WordEnd), "_xlfn._xlws.SORT");
    Sub(sorted, Pattern("_xlfn.FILTER", [], false, false, WordEnd), "_xlfn._xlws.FILTER")
  }

  /** The whole function tagging of a text: the name loop, then `_xlws.`. */
  function TagText(s: string, order: seq<string>, g: Guard): string
  {
    Xlws(Names(s, order, g))
  }

  /** `_xlpm.` in front of every whole-word use of each name, name by name. */
  function MarkAll(e: string, names: seq<string>): string
    decreases |names|
  {
    if names == [] then e else MarkAll(Sub(e, Word(names[0]), Pm + names[0]), names[1..])
  }

  /** `_xlpm.` put in front of every whole-word use of each name in turn:
      the reference the renaming loop is measured against. */
  function MarkedEach(e: string, names: seq<string>): string
    decreases |names|
  {
    if names == [] then e else MarkedEach(Marked(e, 0, Word(names[0]), Pm), names[1..])
  }

  // ---------------------------------------------------------------------
  // Properties

  /** The `re.sub` loop over names made of word characters inserts `_xlpm.`
      before exactly the whole-word uses of each name, name by name, and
      changes nothing else. */
  lemma {:induction false} MarkAllIsMarking(e: string, names: seq<string>)
    requires forall k :: 0 <= k < |names| ==> WordName(names[k])
    ensures MarkAll(e, names) == MarkedEach(e, names)
    decreases |names|
  {
    if names != [] {
      SubIsMarking(e, 0, Word(names[0]), Pm);
      MarkAllIsMarking(Marked(e, 0, Word(names[0]), Pm), names[1..]);
    }
  }

  /** A case-sensitive match is an occurrence of the name. */
  lemma MatchOccurs(s: string, i: nat, pat: Pattern)
    requires i <= |s| && !pat.ignoreCase
    ensures MatchesAt(s, i, pat) ==> OccursAt(s, pat.name, i)
  {
  }

  /** A case-sensitive pattern whose name does not occur changes nothing. */
  lemma {:induction false} AbsentSub(s: string, i: nat, pat: Pattern, rep: string)
    requires i <= |s| && !pat.ignoreCase && !Contains(s, pat.name)
    ensures SubFrom(s, i, pat, rep) == s[i..]
    ensures !HasMatchFrom(s, i, pat)
    decreases |s| - i
  {
    if MatchesAt(s, i, pat) {
      ContainsAt(s, pat.name, i);
    }
    if i < |s| {
      AbsentSub(s, i + 1, pat, rep);
    }
  }

  /** A pass that runs renames exactly: `_xlfn.` is inserted before every
      whole-word occurrence of the name and nothing else changes. */
  lemma NamePassMarks(s: string, n: string, g: Guard)
    requires WordName(n) && n != "LAMBDA" && n != "LET" && !Prefixed(s, n, g)
    ensures NamePass(s, n, g) == Marked(s, 0, Word(n), Fn)
  {
    SubIsMarking(s, 0, Word(n), Fn);
  }

  /** A text already showing the prefixed name is passed over. */
  lemma NamePassSkips(s: string, n: string, g: Guard)
    requires Prefixed(s, n, g)
    ensures NamePass(s, n, g) == s
  {
  }

  /** A name starting with a capital never matches a text without capitals. */
  lemma {:induction false} NoCapitalNoMatch(s: string, i: nat, n: string)
    requires i <= |s| && |n| > 0 && IsUpper(n[0])
    requires forall q :: 0 <= q < |s| ==> !IsUpper(s[q])
    ensures !HasMatchFrom(s, i, Word(n))
    decreases |s| - i
  {
    MatchOccurs(s, i, Word(n));
    OccursChar(s, n, i, 0);
    if i < |s| {
      NoCapitalNoMatch(s, i + 1, n);
    }
  }

  /** The loop leaves a text without capital letters alone. */
  lemma {:induction false} NamesNoCapital(s: string, order: seq<string>, g: Guard)
    requires forall q :: 0 <= q < |s| ==> !IsUpper(s[q])
    requires forall k :: 0 <= k < |order| ==> |order[k]| > 0 && IsUpper(order[k][0])
    ensures Names(s, order, g) == s
    decreases |order|
  {
    if order != [] {
      var n := order[0];
      if !(n == "LAMBDA" || n == "LET" || Prefixed(s, n, g)) {
        NoCapitalNoMatch(s, 0, n);
        SubNoMatch(s, 0, Word(n), Fn + n);
      }
      NamesNoCapital(s, order[1..], g);
    }
  }

  /** The `_xlws.` step touches only `_xlfn.SORT` and `_xlfn.FILTER`: a text
      without them, such as one where they already read `_xlfn._xlws.SORT`,
      is left alone. */
  lemma XlwsKeeps(s: string)
    requires !Contains(s, "_xlfn.SORT") && !Contains(s, "_xlfn.FILTER")
    ensures Xlws(s) == s
  {
    var pat := Pattern("_xlfn.SORT", [], false, false, WordEnd);
    AbsentSub(s, 0, pat, "_xlfn._xlws.SORT");
    AbsentSub(s, 0, Pattern("_xlfn.FILTER", [], false, false, WordEnd), "_xlfn._xlws.FILTER");
  }

  /** A text without capital letters goes through the tagging unchanged. */
  lemma TagTextNoCapital(s: string, order: seq<string>, g: Guard)
    requires forall q :: 0 <= q < |s| ==> !IsUpper(s[q])
    requires forall k :: 0 <= k < |order| ==> |order[k]| > 0 && IsUpper(order[k][0])
    ensures TagText(s, order, g) == s
  {
    NamesNoCapital(s, order, g);
    CapitalAbsent(s, "_xlfn.SORT", 6);
    CapitalAbsent(s, "_xlfn.FILTER", 6);
    XlwsKeeps(s);
  }

  /** A text lacking one of the characters of `p` does not contain `p`. */
  lemma CapitalAbsent(s: string, p: string, k: nat)
    requires k < |p| && forall q :: 0 <= q < |s| ==> s[q] != p[k]
    ensures !Contains(s, p)
  {
    ContainsIff(s, p);
    forall i ensures !OccursAt(s, p, i) {
      OccursChar(s, p, i, k);
    }
  }

  /** An occurrence fixes the characters it covers. */
  lemma OccursChar(s: string, p: string, i: int, k: nat)
    requires k < |p|
    ensures OccursAt(s, p, i) ==> s[i + k] == p[k]
  {
    if OccursAt(s, p, i) {
      assert s[i..i + |p|][k] == s[i + k];
    }
  }

  lemma ListCapitals(l: seq<string>)
    requires l == NewFunctions
    ensures forall j :: 0 <= j < |l| ==> |l[j]| > 0 && IsUpper(l[j][0])
  {
  }

  /** Every name of the set starts with a capital letter. */
  lemma OrderCapitals(order: seq<string>)
    requires IsOrder(order)
    ensures forall k :: 0 <= k < |order| ==> |order[k]| > 0 && IsUpper(order[k][0])
  {
    ListCapitals(NewFunctions);
    forall k | 0 <= k < |order| ensures |order[k]| > 0 && IsUpper(order[k][0]) {
      assert order[k] in NewFunctions;
    }
  }
}
