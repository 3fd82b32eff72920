/** Whole formulas through `prepare_spill_formula`, as the program has it
    (`Pipeline.Prepare`) and with the corrected aggregate placement. */
module PrepareExamples {
  import opened Text
  import opened Words
  import Tagger
  import Closure
  import Aggregate
  import Shield
  import Pipeline
  import LegacyNames
  import Splitting
  import Scopes

  // ---------------------------------------------------------------------
  // Tools for concrete texts

  /** In a text without white space the call tail is the next character. */
  lemma NoSpaceSkip(s: string, j: nat)
    requires j <= |s| && forall q :: 0 <= q < |s| ==> !IsSpace(s[q])
    ensures SkipSpaces(s, j) == j
  {
  }

  /** A text without a dot holds no range separator `.:` or `:.`. */
  lemma NoDotNoSep(s: string)
    requires forall q :: 0 <= q < |s| ==> s[q] != '.'
    ensures !Contains(s, ".:") && !Contains(s, ":.")
  {
    LegacyNames.CapitalAbsent(s, ".:", 0);
    LegacyNames.CapitalAbsent(s, ":.", 1);
  }

  /** A tagged body without a capital L shows neither `_xlfn.LAMBDA` nor
      `_xlfn.LET`, so a cell that does not spill gets no attributes. */
  lemma NoBinderMarkNoAttrs(t: string, cell: Pipeline.Cell)
    requires !cell.spill && forall q :: 0 <= q < |t| ==> t[q] != 'L'
    ensures Pipeline.Attributes(t, cell) == Pipeline.NoAttrs
  {
    LegacyNames.CapitalAbsent(t, Pipeline.LambdaMark, 6);
    LegacyNames.CapitalAbsent(t, Pipeline.LetMark, 6);
  }

  /** The bodies of the UNIQUE and SORT examples hold no dot. */
  lemma ExampleBodyNoDot(s: string)
    requires s == "UNIQUE(B2:B10)" || s == "SORT(A1:A10)"
    ensures forall q :: 0 <= q < |s| ==> s[q] != '.'
  {
  }

  /** The tagged bodies of the UNIQUE and SORT examples hold no capital L. */
  lemma ExampleTaggedNoL(t: string)
    requires t == "_xlfn.UNIQUE(B2:B10)" || t == "_xlfn._xlws.SORT(A1:A10)"
    ensures forall q :: 0 <= q < |t| ==> t[q] != 'L'
  {
  }

  /** A call pattern in a text without white space ends right before an
      opening parenthesis. */
  lemma CallEnds(s: string, p: nat, pat: Pattern)
    requires p <= |s| && pat.tail == CallAhead && MatchesAt(s, p, pat)
    requires forall q :: 0 <= q < |s| ==> !IsSpace(s[q])
    ensures p + |pat.name| < |s| && s[p + |pat.name|] == '('
  {
    NoSpaceSkip(s, p + |pat.name|);
  }

  // ---------------------------------------------------------------------
  // `=UNIQUE(B2:B10)`

  /** A text whose only opening parenthesis is at `c`, and that has no
      white space. */
  predicate OneParen(s: string, c: nat)
  {
    && c < |s| && s[c] == '('
    && (forall q :: 0 <= q < |s| && q != c ==> s[q] != '(')
    && (forall q :: 0 <= q < |s| ==> !IsSpace(s[q]))
  }

  /** Any call pattern in such a text ends at `c`. */
  lemma CallEndsAt(s: string, c: nat, p: nat, pat: Pattern)
    requires OneParen(s, c) && p <= |s| && pat.tail == CallAhead && MatchesAt(s, p, pat)
    ensures p + |pat.name| == c
  {
    CallEnds(s, p, pat);
  }

  /** A call pattern whose name is longer than the text before the
      parenthesis matches nowhere. */
  lemma CallTooLong(s: string, c: nat, pat: Pattern)
    requires OneParen(s, c) && pat.tail == CallAhead && |pat.name| > c
    ensures !HasMatchFrom(s, 0, pat)
  {
    forall p | 0 <= p <= |s| ensures !MatchesAt(s, p, pat) {
      if MatchesAt(s, p, pat) {
        CallEndsAt(s, c, p, pat);
      }
    }
    NoMatchAnywhere(s, 0, pat);
  }

  /** Nor does any call pattern match from the parenthesis on. */
  lemma CallNoneAfter(s: string, c: nat, pat: Pattern)
    requires OneParen(s, c) && pat.tail == CallAhead && |pat.name| > 0
    ensures !HasMatchFrom(s, c, pat)
  {
    forall p | c <= p <= |s| ensures !MatchesAt(s, p, pat) {
      if MatchesAt(s, p, pat) {
        CallEndsAt(s, c, p, pat);
      }
    }
    NoMatchAnywhere(s, c, pat);
  }

  /** A name starting with a capital does not fold onto text starting with
      `_` or `.`. */
  lemma HeadMismatch(s: string, p: nat, n: string)
    requires p + |n| <= |s| && |n| > 0 && 'A' <= n[0] <= 'Z'
    requires s[p] == '_' || s[p] == '.'
    ensures !SameText(s[p..p + |n|], n, true)
  {
    UpperAt(s[p..p + |n|], 0);
    UpperAt(n, 0);
  }

  lemma UniqueShape(s: string)
    requires s == "UNIQUE(B2:B10)"
    ensures OneParen(s, 6)
  {
  }

  lemma UniqueNoBinder(s: string)
    requires s == "UNIQUE(B2:B10)"
    ensures forall p :: 0 <= p < |s| ==> !Closure.BinderAt(s, p)
  {
    UniqueShape(s);
  }

  /** The body before tagging leaves only tagging to do. */
  lemma UniqueTagOnly(s: string)
    requires s == "UNIQUE(B2:B10)"
    ensures Pipeline.TagOnly(s)
  {
    UniqueShape(s);
    UniqueNoBinder(s);
    CallTooLong(s, 6, Aggregate.CallPattern("GROUPBY"));
    CallTooLong(s, 6, Aggregate.CallPattern("PIVOTBY"));
    ExampleBodyNoDot(s);
    NoDotNoSep(s);
  }

  /** UNIQUE's call at the start of the body is a match of its pattern. */
  lemma UniqueCallAt(s: string)
    requires s == "UNIQUE(B2:B10)"
    ensures MatchesAt(s, 0, Tagger.CallOf("UNIQUE"))
  {
    assert s[0..6] == "UNIQUE";
    NotBlockedBefore(s, 0, Tagger.Blockers, true);
    NoSpaceSkip(s, 6);
  }

  /** Substituting UNIQUE's calls prefixes the one at the start. */
  lemma UniqueSub(s: string, rep: string)
    requires s == "UNIQUE(B2:B10)" && rep == "_xlfn.UNIQUE"
    ensures Sub(s, Tagger.CallOf("UNIQUE"), rep) == rep + s[6..]
  {
    var pat := Tagger.CallOf("UNIQUE");
    UniqueShape(s);
    UniqueCallAt(s);
    SubHit(s, 0, pat, rep);
    CallNoneAfter(s, 6, pat);
    SubNoMatch(s, 6, pat, rep);
  }

  lemma UniqueGlue(s: string, rep: string)
    requires s == "UNIQUE(B2:B10)" && rep == "_xlfn.UNIQUE"
    ensures rep + s[6..] == "_xlfn.UNIQUE(B2:B10)" && !Contains(s, rep)
  {
    LegacyNames.CapitalAbsent(s, rep, 0);
  }

  /** The first pass of the tagger, UNIQUE's, prefixes the call. */
  lemma UniqueFirstPass(s: string)
    requires s == "UNIQUE(B2:B10)"
    ensures Tagger.TagOne(s, Tagger.Registry[0]) == "_xlfn.UNIQUE(B2:B10)"
  {
    var e := Tagger.Registry[0];
    assert e == Tagger.Entry("UNIQUE", Tagger.Xlfn);
    var rep := Tagger.Tagged(e);
    assert rep == "_xlfn.UNIQUE";
    UniqueGlue(s, rep);
    UniqueSub(s, rep);
  }

  /** A lookbehind text listed at index `k` that fits blocks the match. */
  lemma {:induction false} BlockedByAt(s: string, p: nat, bs: seq<string>, ci: bool, k: nat)
    requires k < |bs| && PrecededBy(s, bs[k], p, ci)
    ensures BlockedBy(s, p, bs, ci)
  {
    if k > 0 {
      BlockedByAt(s, p, bs[1..], ci, k - 1);
    }
  }

  /** A tagged call of a six-letter name, `_xlfn.NAME(`, at the start of a
      text with no other parenthesis and no white space. */
  predicate XlfnCall(t: string)
  {
    && OneParen(t, 12) && t[0..6] == "_xlfn."
    && forall p :: 1 <= p <= 11 && p != 5 && p != 6 ==> !Boundary(t, p)
  }

  lemma TaggedUniqueParen(t: string)
    requires t == "_xlfn.UNIQUE(B2:B10)"
    ensures OneParen(t, 12)
  {
  }

  lemma TaggedUniqueShape(t: string)
    requires t == "_xlfn.UNIQUE(B2:B10)"
    ensures XlfnCall(t)
  {
    TaggedUniqueParen(t);
    assert t[0..6] == "_xlfn.";
  }

  /** `_xlfn.` stands before index 6. */
  lemma XlfnBlocked(t: string)
    requires XlfnCall(t)
    ensures BlockedBy(t, 6, Tagger.Blockers, true)
  {
    assert t[0..6] == Tagger.Blockers[3];
    BlockedByAt(t, 6, Tagger.Blockers, true, 3);
  }

  /** In such a text no call of a name starting with a capital is left to
      tag: the only candidate, at index 6, follows `_xlfn.`. */
  lemma XlfnNoCall(t: string, n: string)
    requires XlfnCall(t) && |n| > 0 && 'A' <= n[0] <= 'Z'
    ensures !HasMatchFrom(t, 0, Tagger.CallOf(n))
  {
    var pat := Tagger.CallOf(n);
    XlfnBlocked(t);
    assert t[0] == t[0..6][0] && t[5] == t[0..6][5];
    forall p | 0 <= p <= |t| ensures !MatchesAt(t, p, pat) {
      if MatchesAt(t, p, pat) {
        CallEndsAt(t, 12, p, pat);
        if p == 0 || p == 5 {
          HeadMismatch(t, p, n);
        }
      }
    }
    NoMatchAnywhere(t, 0, pat);
  }

  /** The whole tagger on the body: UNIQUE gains `_xlfn.`, and nothing
      else changes. */
  lemma UniqueTagged(s: string)
    requires s == "UNIQUE(B2:B10)"
    ensures Tagger.Tag(s) == "_xlfn.UNIQUE(B2:B10)"
  {
    var t := "_xlfn.UNIQUE(B2:B10)";
    UniqueFirstPass(s);
    TaggedUniqueShape(t);
    var rest := Tagger.Registry[1..];
    Tagger.RegistryPlain();
    forall k | 0 <= k < |rest| ensures |rest[k].name| > 0 && !HasMatchFrom(t, 0, Tagger.CallOf(rest[k].name)) {
      assert rest[k] == Tagger.Registry[k + 1];
      XlfnNoCall(t, rest[k].name);
    }
    Tagger.TagWithNoCall(t, rest);
  }

  lemma UniqueFormula(formula: string)
    requires formula == "=UNIQUE(B2:B10)"
    ensures StartsWith(formula, "=") && formula[1..] == "UNIQUE(B2:B10)"
    ensures forall q :: 0 <= q < |formula| ==> formula[q] != '"' && formula[q] != '{'
    ensures "=" + "_xlfn.UNIQUE(B2:B10)" == "=_xlfn.UNIQUE(B2:B10)"
  {
  }

  lemma ExampleUniqueWith(formula: string, cell: Pipeline.Cell, strTok: nat -> string, arrTok: nat -> string, how: Aggregate.Placement)
    requires formula == "=UNIQUE(B2:B10)" && !cell.spill
    ensures Pipeline.PrepareWith(formula, cell, strTok, arrTok, how) == ("=_xlfn.UNIQUE(B2:B10)", Pipeline.NoAttrs)
  {
    var b := "UNIQUE(B2:B10)";
    var t := "_xlfn.UNIQUE(B2:B10)";
    UniqueFormula(formula);
    UniqueTagOnly(b);
    UniqueTagged(b);
    ExampleTaggedNoL(t);
    NoBinderMarkNoAttrs(t, cell);
    Pipeline.PrepareLiteralFree(formula, cell, strTok, arrTok, how);
  }

  /** `=UNIQUE(B2:B10)` in a cell that does not spill becomes
      `=_xlfn.UNIQUE(B2:B10)` with no attributes, under either placement. */
  lemma ExampleUnique(formula: string, cell: Pipeline.Cell, strTok: nat -> string, arrTok: nat -> string)
    requires formula == "=UNIQUE(B2:B10)" && !cell.spill
    ensures Pipeline.Prepare(formula, cell, strTok, arrTok) == ("=_xlfn.UNIQUE(B2:B10)", Pipeline.NoAttrs)
    ensures Pipeline.PrepareCorrected(formula, cell, strTok, arrTok) == ("=_xlfn.UNIQUE(B2:B10)", Pipeline.NoAttrs)
  {
    ExampleUniqueWith(formula, cell, strTok, arrTok, Aggregate.Naive);
    ExampleUniqueWith(formula, cell, strTok, arrTok, Aggregate.TopLevel);
  }

  // ---------------------------------------------------------------------
  // `=SORT(A1:A10)`

  lemma SortShape(s: string)
    requires s == "SORT(A1:A10)"
    ensures OneParen(s, 4)
    ensures forall p :: 1 <= p <= 3 ==> !Boundary(s, p)
  {
  }

  /** A name that cannot fold onto `SORT`: another length, or a capital
      other than `O` in second place. */
  predicate NotSortLike(n: string)
  {
    |n| != 4 || ('A' <= n[1] <= 'Z' && n[1] != 'O')
  }

  /** The registry before SORT, in two halves. */
  lemma RegistryNotSort0()
    ensures forall k :: 0 <= k < 19 ==> NotSortLike(Tagger.Registry[k].name)
  {
  }

  lemma RegistryNotSort1()
    ensures forall k :: 19 <= k < 38 ==> NotSortLike(Tagger.Registry[k].name)
  {
  }

  /** No name but SORT's has a call in the body. */
  lemma SortNoOther(s: string, n: string)
    requires s == "SORT(A1:A10)" && |n| > 0 && NotSortLike(n)
    ensures !HasMatchFrom(s, 0, Tagger.CallOf(n))
  {
    var pat := Tagger.CallOf(n);
    SortShape(s);
    forall p | 0 <= p <= |s| ensures !MatchesAt(s, p, pat) {
      if MatchesAt(s, p, pat) {
        CallEndsAt(s, 4, p, pat);
        if p == 0 {
          assert s[0..4] == "SORT";
          UpperAt(s[0..4], 1);
          UpperAt(n, 1);
        }
      }
    }
    NoMatchAnywhere(s, 0, pat);
  }

  /** The 38 passes before SORT's leave the body alone. */
  lemma SortBefore(s: string)
    requires s == "SORT(A1:A10)"
    ensures Tagger.Tag(s) == Tagger.TagWith(s, Tagger.Registry[38..])
  {
    Tagger.RegistryPlain();
    RegistryNotSort0();
    RegistryNotSort1();
    forall k | 0 <= k < 38
      ensures |Tagger.Registry[k].name| > 0 && !HasMatchFrom(s, 0, Tagger.CallOf(Tagger.Registry[k].name))
    {
      SortNoOther(s, Tagger.Registry[k].name);
    }
    Tagger.TagWithSkip(s, Tagger.Registry, 38);
  }

  lemma SortSub(s: string, rep: string)
    requires s == "SORT(A1:A10)" && rep == "_xlfn._xlws.SORT"
    ensures Sub(s, Tagger.CallOf("SORT"), rep) == rep + s[4..]
  {
    var pat := Tagger.CallOf("SORT");
    SortShape(s);
    assert s[0..4] == "SORT";
    NotBlockedBefore(s, 0, Tagger.Blockers, true);
    NoSpaceSkip(s, 4);
    SubHit(s, 0, pat, rep);
    CallNoneAfter(s, 4, pat);
    SubNoMatch(s, 4, pat, rep);
  }

  /** SORT's pass gives the call the double prefix. */
  lemma SortPass(s: string)
    requires s == "SORT(A1:A10)"
    ensures Tagger.TagOne(s, Tagger.Registry[38]) == "_xlfn._xlws.SORT(A1:A10)"
  {
    var e := Tagger.Registry[38];
    assert e == Tagger.Entry("SORT", Tagger.XlwsPrefix);
    var rep := Tagger.Tagged(e);
    assert rep == "_xlfn._xlws.SORT";
    LegacyNames.CapitalAbsent(s, rep, 0);
    SortSub(s, rep);
  }

  lemma TaggedSortShape(t: string)
    requires t == "_xlfn._xlws.SORT(A1:A10)"
    ensures OneParen(t, 16) && !Boundary(t, 10)
  {
  }

  /** FILTER's pass, the last, finds no call: the only place its name could
      end at the parenthesis is inside `_xlws`. */
  lemma SortFilterPass(t: string)
    requires t == "_xlfn._xlws.SORT(A1:A10)"
    ensures Tagger.TagOne(t, Tagger.Registry[39]) == t
  {
    var e := Tagger.Registry[39];
    assert e.name == "FILTER";
    var pat := Tagger.CallOf(e.name);
    TaggedSortShape(t);
    forall p | 0 <= p <= |t| ensures !MatchesAt(t, p, pat) {
      if MatchesAt(t, p, pat) {
        CallEndsAt(t, 16, p, pat);
      }
    }
    NoMatchAnywhere(t, 0, pat);
    Tagger.TagOneUnchanged(t, e);
  }

  /** The whole tagger on the body: SORT gains `_xlfn._xlws.`. */
  lemma SortTagged(s: string)
    requires s == "SORT(A1:A10)"
    ensures Tagger.Tag(s) == "_xlfn._xlws.SORT(A1:A10)"
  {
    var t := "_xlfn._xlws.SORT(A1:A10)";
    var last := Tagger.Registry[38..];
    assert last == [Tagger.Registry[38], Tagger.Registry[39]];
    SortBefore(s);
    SortPass(s);
    SortFilterPass(t);
    assert Tagger.TagWith(s, last) == Tagger.TagWith(t, last[1..]);
    assert Tagger.TagWith(t, last[1..]) == Tagger.TagWith(Tagger.TagOne(t, last[1]), []);
  }

  lemma SortNoBinder(s: string)
    requires s == "SORT(A1:A10)"
    ensures forall p :: 0 <= p < |s| ==> !Closure.BinderAt(s, p)
  {
    SortShape(s);
  }

  lemma SortTagOnly(s: string)
    requires s == "SORT(A1:A10)"
    ensures Pipeline.TagOnly(s)
  {
    SortShape(s);
    SortNoBinder(s);
    CallTooLong(s, 4, Aggregate.CallPattern("GROUPBY"));
    CallTooLong(s, 4, Aggregate.CallPattern("PIVOTBY"));
    ExampleBodyNoDot(s);
    NoDotNoSep(s);
  }

  lemma SortFormula(formula: string)
    requires formula == "=SORT(A1:A10)"
    ensures StartsWith(formula, "=") && formula[1..] == "SORT(A1:A10)"
    ensures forall q :: 0 <= q < |formula| ==> formula[q] != '"' && formula[q] != '{'
    ensures "=" + "_xlfn._xlws.SORT(A1:A10)" == "=_xlfn._xlws.SORT(A1:A10)"
  {
  }

  lemma ExampleSortWith(formula: string, cell: Pipeline.Cell, strTok: nat -> string, arrTok: nat -> string, how: Aggregate.Placement)
    requires formula == "=SORT(A1:A10)" && !cell.spill
    ensures Pipeline.PrepareWith(formula, cell, strTok, arrTok, how) == ("=_xlfn._xlws.SORT(A1:A10)", Pipeline.NoAttrs)
  {
    var b := "SORT(A1:A10)";
    SortFormula(formula);
    SortTagOnly(b);
    SortTagged(b);
    ExampleTaggedNoL("_xlfn._xlws.SORT(A1:A10)");
    NoBinderMarkNoAttrs("_xlfn._xlws.SORT(A1:A10)", cell);
    Pipeline.PrepareLiteralFree(formula, cell, strTok, arrTok, how);
  }

  /** `=SORT(A1:A10)` in a cell that does not spill becomes
      `=_xlfn._xlws.SORT(A1:A10)`, SORT being one of the two functions
      stored under the worksheet-function namespace. */
  lemma ExampleSort(formula: string, cell: Pipeline.Cell, strTok: nat -> string, arrTok: nat -> string)
    requires formula == "=SORT(A1:A10)" && !cell.spill
    ensures Pipeline.Prepare(formula, cell, strTok, arrTok) == ("=_xlfn._xlws.SORT(A1:A10)", Pipeline.NoAttrs)
    ensures Pipeline.PrepareCorrected(formula, cell, strTok, arrTok) == ("=_xlfn._xlws.SORT(A1:A10)", Pipeline.NoAttrs)
  {
    ExampleSortWith(formula, cell, strTok, arrTok, Aggregate.Naive);
    ExampleSortWith(formula, cell, strTok, arrTok, Aggregate.TopLevel);
  }

  // ---------------------------------------------------------------------
  // `=LAMBDA(x,x*2)`

  /** The arguments are cut at the top-level comma, and the call closes. */
  lemma LambdaCut(f: string)
    requires f == "LAMBDA(x,x*2)"
    ensures Splitting.CutAt(f, 7) == Splitting.Cut(["x", "x*2"], 12, true)
  {
    assert Splitting.Scan(f, 12, 0, 9) == Splitting.Cut([f[9..12]], 12, true);
    assert Splitting.Scan(f, 11, 0, 9) == Splitting.Scan(f, 12, 0, 9);
    assert Splitting.Scan(f, 10, 0, 9) == Splitting.Scan(f, 11, 0, 9);
    assert Splitting.Scan(f, 9, 0, 9) == Splitting.Scan(f, 10, 0, 9);
    assert Splitting.Scan(f, 8, 0, 7) == Splitting.Cut([f[7..8]] + Splitting.Scan(f, 9, 0, 9).pieces, 12, true);
    assert f[7..8] == "x" && f[9..12] == "x*2";
  }

  /** One parameter, `x`, and the body `x*2`. */
  lemma LambdaArgsOf(c: Splitting.Cut)
    requires c == Splitting.Cut(["x", "x*2"], 12, true)
    ensures Closure.LambdaParts(Splitting.LambdaArgs(c)) == (["x"], "x*2")
  {
    assert Trim("x") == "x" && Trim("x*2") == "x*2";
    Splitting.KeptAll(c.pieces);
    assert c.pieces[..2] == c.pieces;
  }

  /** The parameter is declared `_xlpm.x` and opens a scope mapping `x` to it. */
  lemma LambdaDeclare(params: seq<string>)
    requires params == ["x"]
    ensures Closure.DeclareParams(params, []) == (["_xlpm.x"], [("x", "_xlpm.x")])
  {
    assert Trim("x") == "x" && !StartsWith("x", "[");
    assert "_xlpm." + "x" == "_xlpm.x";
    assert Closure.ParamEntry(params[0]) == Some(("_xlpm.x", "x"));
    var sc := Scopes.Put([], "x", "_xlpm.x");
    assert sc == [("x", "_xlpm.x")];
    assert Closure.DeclareParams(params[1..], sc) == ([], sc);
    assert Closure.DeclareParams(params, []) == (["_xlpm.x"] + [], sc);
    assert ["_xlpm.x"] + [] == ["_xlpm.x"];
  }

  /** In the body, the one use of `x` is renamed. */
  lemma LambdaBodyRename(e: string, rep: string)
    requires e == "x*2" && rep == "_xlpm.x"
    ensures Sub(e, Scopes.VarPattern("x"), rep) == "_xlpm.x*2"
  {
    var pat := Scopes.VarPattern("x");
    NotBlockedBefore(e, 0, pat.blockers, false);
    assert MatchesAt(e, 0, pat);
    SubHit(e, 0, pat, rep);
    NoMatchAnywhere(e, 1, pat);
    SubNoMatch(e, 1, pat, rep);
    assert e[1..] == "*2";
  }

  lemma LambdaBody(e: string, sc: Scopes.Scope)
    requires e == "x*2" && sc == [("x", "_xlpm.x")]
    ensures Closure.Process(e, sc) == "_xlpm.x*2"
  {
    assert forall p :: 0 <= p < |e| ==> !Closure.BinderAt(e, p);
    Closure.WalkPlain(e, 0, |e|, sc);
    assert e[0..|e|] == e && Closure.Walk(e, |e|, sc) == [];
    assert Closure.Walk(e, 0, sc) == e;
    assert !IsAllDigits("x");
    LambdaBodyRename(e, "_xlpm.x");
    assert Scopes.ReplaceVars(e, sc) == Scopes.ReplaceVars(Sub(e, Scopes.VarPattern("x"), "_xlpm.x"), sc[1..]);
    assert sc[1..] == [];
  }

  /** The call rewritten on its own. */
  lemma LambdaCallText(f: string, c: Splitting.Cut)
    requires f == "LAMBDA(x,x*2)" && c == Splitting.Cut(["x", "x*2"], 12, true)
    ensures Closure.LambdaText(f, c, []) == "_xlfn.LAMBDA(_xlpm.x,_xlpm.x*2)"
  {
    LambdaArgsOf(c);
    LambdaDeclare(["x"]);
    LambdaBody("x*2", [("x", "_xlpm.x")]);
    assert Join(["_xlpm.x"], ",") == "_xlpm.x";
  }

  /** The LAMBDA/LET stage rewrites the whole body as one call. */
  lemma LambdaRewrite(f: string)
    requires f == "LAMBDA(x,x*2)"
    ensures Closure.Rewrite(f) == "_xlfn.LAMBDA(_xlpm.x,_xlpm.x*2)"
  {
    var c := Splitting.CutAt(f, 7);
    LambdaCut(f);
    assert Closure.IsFunctionAt(f, 0, "LAMBDA");
    LambdaCallText(f, c);
    assert Closure.Step(f, 0, []) == ("_xlfn.LAMBDA(_xlpm.x,_xlpm.x*2)", 13);
    assert Closure.Walk(f, 13, []) == [];
    assert Closure.Walk(f, 0, []) == "_xlfn.LAMBDA(_xlpm.x,_xlpm.x*2)" + [];
  }

  lemma TaggedLambdaParen(t: string)
    requires t == "_xlfn.LAMBDA(_xlpm.x,_xlpm.x*2)"
    ensures OneParen(t, 12)
  {
  }

  lemma TaggedLambdaShape(t: string)
    requires t == "_xlfn.LAMBDA(_xlpm.x,_xlpm.x*2)"
    ensures XlfnCall(t)
  {
    TaggedLambdaParen(t);
    assert t[0..6] == "_xlfn.";
  }

  lemma TaggedLambdaNoSep(t: string)
    requires t == "_xlfn.LAMBDA(_xlpm.x,_xlpm.x*2)"
    ensures !Contains(t, ".:") && !Contains(t, ":.")
  {
    LegacyNames.CapitalAbsent(t, ".:", 1);
    LegacyNames.CapitalAbsent(t, ":.", 0);
  }

  /** Nor is there a GROUPBY or PIVOTBY call: the only one that could end at
      the parenthesis starts at the `.` of `_xlfn.`. */
  lemma XlfnNoAggregate(t: string, n: string)
    requires XlfnCall(t) && |n| == 7 && 'A' <= n[0] <= 'Z'
    ensures !HasMatchFrom(t, 0, Aggregate.CallPattern(n))
  {
    var pat := Aggregate.CallPattern(n);
    assert t[5] == t[0..6][5];
    forall p | 0 <= p <= |t| ensures !MatchesAt(t, p, pat) {
      if MatchesAt(t, p, pat) {
        CallEndsAt(t, 12, p, pat);
        HeadMismatch(t, p, n);
      }
    }
    NoMatchAnywhere(t, 0, pat);
  }

  /** The later stages leave the rewritten call alone. */
  lemma LambdaFinal(t: string)
    requires t == "_xlfn.LAMBDA(_xlpm.x,_xlpm.x*2)"
    ensures !HasMatchFrom(t, 0, Aggregate.CallPattern("GROUPBY"))
    ensures !HasMatchFrom(t, 0, Aggregate.CallPattern("PIVOTBY"))
    ensures forall k :: 0 <= k < |Tagger.Registry| ==> !HasMatchFrom(t, 0, Tagger.CallOf(Tagger.Registry[k].name))
    ensures !Contains(t, ".:") && !Contains(t, ":.")
  {
    TaggedLambdaShape(t);
    TaggedLambdaNoSep(t);
    XlfnNoAggregate(t, "GROUPBY");
    XlfnNoAggregate(t, "PIVOTBY");
    Tagger.RegistryPlain();
    forall k | 0 <= k < |Tagger.Registry| ensures !HasMatchFrom(t, 0, Tagger.CallOf(Tagger.Registry[k].name)) {
      XlfnNoCall(t, Tagger.Registry[k].name);
    }
  }

  /** The result holds `_xlfn.LAMBDA`, so it is an array formula. */
  lemma LambdaAttrs(t: string, cell: Pipeline.Cell)
    requires t == "_xlfn.LAMBDA(_xlpm.x,_xlpm.x*2)" && !cell.spill
    ensures Pipeline.Attributes(t, cell) == Pipeline.ArrayAttrs(Pipeline.Coordinate(cell))
  {
    assert OccursAt(t, Pipeline.LambdaMark, 0);
    ContainsAt(t, Pipeline.LambdaMark, 0);
  }

  lemma LambdaFormula(formula: string)
    requires formula == "=LAMBDA(x,x*2)"
    ensures StartsWith(formula, "=") && formula[1..] == "LAMBDA(x,x*2)"
    ensures forall q :: 0 <= q < |formula| ==> formula[q] != '"' && formula[q] != '{'
  {
  }

  lemma LambdaResult(t: string)
    requires t == "_xlfn.LAMBDA(_xlpm.x,_xlpm.x*2)"
    ensures "=" + t == "=_xlfn.LAMBDA(_xlpm.x,_xlpm.x*2)"
  {
  }

  lemma ExampleLambdaWith(formula: string, cell: Pipeline.Cell, strTok: nat -> string, arrTok: nat -> string, how: Aggregate.Placement)
    requires formula == "=LAMBDA(x,x*2)" && !cell.spill
    ensures Pipeline.PrepareWith(formula, cell, strTok, arrTok, how)
            == ("=_xlfn.LAMBDA(_xlpm.x,_xlpm.x*2)", Pipeline.ArrayAttrs(Pipeline.Coordinate(cell)))
  {
    var b := "LAMBDA(x,x*2)";
    var t := "_xlfn.LAMBDA(_xlpm.x,_xlpm.x*2)";
    LambdaFormula(formula);
    LambdaResult(t);
    LambdaRewrite(b);
    LambdaFinal(t);
    Pipeline.TransformRewritten(b, how);
    LambdaAttrs(t, cell);
    Pipeline.PrepareNoLiterals(formula, cell, strTok, arrTok, how);
  }

  /** `=LAMBDA(x,x*2)` in a cell that does not spill becomes
      `=_xlfn.LAMBDA(_xlpm.x,_xlpm.x*2)`, an array formula on the cell
      itself. */
  lemma ExampleLambda(formula: string, cell: Pipeline.Cell, strTok: nat -> string, arrTok: nat -> string)
    requires formula == "=LAMBDA(x,x*2)" && !cell.spill
    ensures Pipeline.Prepare(formula, cell, strTok, arrTok)
            == ("=_xlfn.LAMBDA(_xlpm.x,_xlpm.x*2)", Pipeline.ArrayAttrs(Pipeline.Coordinate(cell)))
    ensures Pipeline.PrepareCorrected(formula, cell, strTok, arrTok)
            == ("=_xlfn.LAMBDA(_xlpm.x,_xlpm.x*2)", Pipeline.ArrayAttrs(Pipeline.Coordinate(cell)))
  {
    ExampleLambdaWith(formula, cell, strTok, arrTok, Aggregate.Naive);
    ExampleLambdaWith(formula, cell, strTok, arrTok, Aggregate.TopLevel);
  }
}
