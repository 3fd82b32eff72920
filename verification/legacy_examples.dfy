/** A whole formula through `add_function_prefix`, for every iteration
    order of the set of new functions. */
module LegacyExamples {
  import opened Text
  import opened Words
  import opened LegacyNames
  import opened LegacyPrefix
  import LegacyLambda

  // ---------------------------------------------------------------------
  // The names of the set

  lemma ListEnds(l: seq<string>)
    requires l == NewFunctions
    ensures forall j :: 0 <= j < |l| ==> |l[j]| > 0 && IsUpper(l[j][0]) && IsUpper(l[j][|l[j]| - 1])
  {
  }

  /** Every name of the set starts and ends with a capital letter. */
  lemma OrderEnds(order: seq<string>)
    requires IsOrder(order)
    ensures forall k :: 0 <= k < |order| ==> |order[k]| > 0 && IsUpper(order[k][0]) && IsUpper(order[k][|order[k]| - 1])
  {
    ListEnds(NewFunctions);
    forall k | 0 <= k < |order| ensures |order[k]| > 0 && IsUpper(order[k][0]) && IsUpper(order[k][|order[k]| - 1]) {
      assert order[k] in NewFunctions;
    }
  }

  /** The names of a list, as a set. */
  function Elems(xs: seq<string>): set<string>
  {
    set x | x in xs
  }

  lemma {:induction false} ElemsAtMost(xs: seq<string>)
    ensures |Elems(xs)| <= |xs|
    decreases |xs|
  {
    if xs != [] {
      ElemsAtMost(xs[1..]);
      assert Elems(xs) == {xs[0]} + Elems(xs[1..]);
    }
  }

  lemma {:induction false} ElemsDistinct(xs: seq<string>)
    requires forall i, j :: 0 <= i < j < |xs| ==> xs[i] != xs[j]
    ensures |Elems(xs)| == |xs|
    decreases |xs|
  {
    if xs != [] {
      var rest := xs[1..];
      forall i, j | 0 <= i < j < |rest| ensures rest[i] != rest[j] {
        assert rest[i] == xs[i + 1] && rest[j] == xs[j + 1];
      }
      ElemsDistinct(rest);
      assert xs[0] !in Elems(rest);
      assert Elems(xs) == {xs[0]} + Elems(rest);
    }
  }

  /** An iteration order holds every name of the set. */
  lemma OrderHas(order: seq<string>, u: string)
    requires IsOrder(order) && u in NewFunctions
    ensures u in order
  {
    ElemsDistinct(order);
    ElemsAtMost(NewFunctions);
    var a := Elems(order);
    var b := Elems(NewFunctions);
    assert a <= b;
    if u !in order {
      assert a <= b - {u};
      SubsetCard(a, b - {u});
    }
  }

  lemma {:induction false} SubsetCard(a: set<string>, b: set<string>)
    requires a <= b
    ensures |a| <= |b|
    decreases |b|
  {
    if a != {} {
      var x :| x in a;
      SubsetCard(a - {x}, b - {x});
    }
  }

  /** A whole-word match is the name itself with a boundary on each side. */
  lemma WordMatch(s: string, p: nat, n: string)
    requires p <= |s| && MatchesAt(s, p, Word(n))
    ensures p + |n| <= |s| && s[p..p + |n|] == n
    ensures Boundary(s, p) && Boundary(s, p + |n|)
  {
  }

  // ---------------------------------------------------------------------
  // The name loop with one name that acts

  /** Passes that all leave the text alone leave it alone together. */
  lemma {:induction false} NamesKeep(s: string, order: seq<string>, g: Guard)
    requires forall k :: 0 <= k < |order| ==> NamePass(s, order[k], g) == s
    ensures Names(s, order, g) == s
    decreases |order|
  {
    if order != [] {
      NamesKeep(s, order[1..], g);
    }
  }

  /** When exactly one name of the order acts, turning `s` into `s'`, and
      every other name leaves both texts alone, the loop gives `s'`. */
  lemma {:induction false} NamesOneHit(s: string, s': string, order: seq<string>, g: Guard, u: string)
    requires u in order && forall i, j :: 0 <= i < j < |order| ==> order[i] != order[j]
    requires NamePass(s, u, g) == s'
    requires forall k :: 0 <= k < |order| && order[k] != u ==> NamePass(s, order[k], g) == s && NamePass(s', order[k], g) == s'
    ensures Names(s, order, g) == s'
    decreases |order|
  {
    var rest := order[1..];
    if order[0] == u {
      forall k | 0 <= k < |rest| ensures NamePass(s', rest[k], g) == s' {
        assert rest[k] == order[k + 1];
      }
      NamesKeep(s', rest, g);
    } else {
      assert u in rest;
      forall k | 0 <= k < |rest| && rest[k] != u
        ensures NamePass(s, rest[k], g) == s && NamePass(s', rest[k], g) == s'
      {
        assert rest[k] == order[k + 1];
      }
      NamesOneHit(s, s', rest, g, u);
    }
  }

  /** A name that matches nowhere, or that is passed over, leaves the text
      alone. */
  lemma NamePassKeeps(s: string, n: string, g: Guard)
    requires forall p :: 0 <= p <= |s| ==> !MatchesAt(s, p, Word(n))
    ensures NamePass(s, n, g) == s
  {
    NoMatchAnywhere(s, 0, Word(n));
    SubNoMatch(s, 0, Word(n), Fn + n);
    assert s[0..] == s;
  }

  // ---------------------------------------------------------------------
  // `=UNIQUE(A1)`

  lemma PlainShape(s: string)
    requires s == "UNIQUE(A1)"
    ensures forall q :: 0 <= q < |s| && IsUpper(s[q]) ==> q < 6 || q == 7
    ensures forall q :: 0 < q <= |s| && q != 6 && q != 7 && q != 9 && q != |s| ==> !Boundary(s, q)
    ensures !Boundary(s, 8)
  {
  }

  /** In `UNIQUE(A1)` the only whole word that starts and ends with a
      capital is UNIQUE, at the start. */
  lemma PlainWords(s: string, n: string, p: nat)
    requires s == "UNIQUE(A1)" && |n| > 0 && IsUpper(n[0]) && IsUpper(n[|n| - 1])
    requires p <= |s| && MatchesAt(s, p, Word(n))
    ensures p == 0 && n == "UNIQUE"
  {
    WordMatch(s, p, n);
    PlainShape(s);
    assert s[p] == n[0] && s[p + |n| - 1] == n[|n| - 1];
    assert s[0..6] == "UNIQUE";
  }

  lemma TaggedShape(t: string)
    requires t == "_xlfn.UNIQUE(A1)"
    ensures forall q :: 0 <= q < |t| && IsUpper(t[q]) ==> 6 <= q < 12 || q == 13
    ensures forall q :: 6 < q <= |t| && q != 12 && q != 13 && q != 15 && q != |t| ==> !Boundary(t, q)
    ensures !Boundary(t, 14)
  {
  }

  /** In `_xlfn.UNIQUE(A1)` the only such word is UNIQUE after `_xlfn.`. */
  lemma TaggedWords(t: string, n: string, p: nat)
    requires t == "_xlfn.UNIQUE(A1)" && |n| > 0 && IsUpper(n[0]) && IsUpper(n[|n| - 1])
    requires p <= |t| && MatchesAt(t, p, Word(n))
    ensures p == 6 && n == "UNIQUE"
  {
    WordMatch(t, p, n);
    TaggedShape(t);
    assert t[p] == n[0] && t[p + |n| - 1] == n[|n| - 1];
    assert t[6..12] == "UNIQUE";
  }

  lemma UniqueNotPrefixed(s: string, g: Guard)
    requires s == "UNIQUE(A1)"
    ensures !Prefixed(s, "UNIQUE", g)
  {
    var rep := Fn + "UNIQUE";
    CapitalAbsent(s, rep, 0);
    AbsentSub(s, 0, Pattern(rep, [], false, false, WordEnd), rep);
  }

  lemma UniqueWordSub(s: string, rep: string)
    requires s == "UNIQUE(A1)" && rep == Fn + "UNIQUE"
    ensures Sub(s, Word("UNIQUE"), rep) == rep + s[6..]
  {
    var pat := Word("UNIQUE");
    assert s[0..6] == "UNIQUE";
    assert MatchesAt(s, 0, pat);
    SubHit(s, 0, pat, rep);
    NoMatchNearEnd(s, 6, pat);
    SubNoMatch(s, 6, pat, rep);
  }

  /** UNIQUE's pass renames the call. */
  lemma UniquePass(s: string, g: Guard)
    requires s == "UNIQUE(A1)"
    ensures NamePass(s, "UNIQUE", g) == "_xlfn.UNIQUE(A1)"
  {
    var rep := Fn + "UNIQUE";
    UniqueNotPrefixed(s, g);
    UniqueWordSub(s, rep);
    assert rep + s[6..] == "_xlfn.UNIQUE(A1)";
  }

  /** The name loop, in any order, renames the one call and nothing else. */
  lemma UniqueNames(s: string, order: seq<string>, g: Guard)
    requires s == "UNIQUE(A1)" && IsOrder(order)
    ensures Names(s, order, g) == "_xlfn.UNIQUE(A1)"
  {
    var t := "_xlfn.UNIQUE(A1)";
    OrderHas(order, "UNIQUE");
    OrderEnds(order);
    UniquePass(s, g);
    forall k | 0 <= k < |order| && order[k] != "UNIQUE"
      ensures NamePass(s, order[k], g) == s && NamePass(t, order[k], g) == t
    {
      var n := order[k];
      forall p | 0 <= p <= |s| ensures !MatchesAt(s, p, Word(n)) {
        if MatchesAt(s, p, Word(n)) {
          PlainWords(s, n, p);
        }
      }
      NamePassKeeps(s, n, g);
      forall p | 0 <= p <= |t| ensures !MatchesAt(t, p, Word(n)) {
        if MatchesAt(t, p, Word(n)) {
          TaggedWords(t, n, p);
        }
      }
      NamePassKeeps(t, n, g);
    }
    NamesOneHit(s, t, order, g, "UNIQUE");
  }

  /** Neither `_xlfn.SORT` nor `_xlfn.FILTER` occurs, so the `_xlws.` step
      keeps the text. */
  lemma TaggedXlws(t: string)
    requires t == "_xlfn.UNIQUE(A1)"
    ensures Xlws(t) == t
  {
    var sort := Pattern("_xlfn.SORT", [], false, false, WordEnd);
    var filter := Pattern("_xlfn.FILTER", [], false, false, WordEnd);
    CapitalAbsent(t, sort.name, 6);
    AbsentSub(t, 0, sort, "_xlfn._xlws.SORT");
    assert t[0..] == t;
    CapitalAbsent(t, filter.name, 6);
    AbsentSub(t, 0, filter, "_xlfn._xlws.FILTER");
  }

  lemma PlainFormula(ft: string)
    requires ft == "=UNIQUE(A1)"
    ensures ft != [] && ft[0] == '=' && ft[1..] == "UNIQUE(A1)"
    ensures !Contains(ft[1..], "LAMBDA") && !Contains(ft[1..], "LET")
    ensures "=" + "_xlfn.UNIQUE(A1)" == "=_xlfn.UNIQUE(A1)"
  {
    CapitalAbsent(ft[1..], "LAMBDA", 0);
    CapitalAbsent(ft[1..], "LET", 0);
  }

  /** `=UNIQUE(A1)` becomes `=_xlfn.UNIQUE(A1)` whatever the iteration
      order of the set, as written and corrected alike. */
  lemma ExampleAddFunctionPrefix(ft: string, order: seq<string>)
    requires ft == "=UNIQUE(A1)" && IsOrder(order)
    ensures AddFunctionPrefixAsWritten(ft, order) == "=_xlfn.UNIQUE(A1)"
    ensures AddFunctionPrefix(ft, order) == "=_xlfn.UNIQUE(A1)"
  {
    var b := "UNIQUE(A1)";
    PlainFormula(ft);
    UniqueNames(b, order, Substring);
    UniqueNames(b, order, WholeWord);
    TaggedXlws("_xlfn.UNIQUE(A1)");
    PrefixingTagOnly(ft, order, Substring, LegacyLambda.AsWritten);
    PrefixingTagOnly(ft, order, WholeWord, LegacyLambda.Corrected);
  }
}
