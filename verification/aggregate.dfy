/** The GROUPBY / PIVOTBY step (`_process_groupby_pivotby_args`): the
    aggregation argument of each call (the third of GROUPBY, the fourth of
    PIVOTBY) gets the `_xleta.` marker in front of it, unless it is a lambda
    or already marked.  Calls are found with `\bNAME\s*\(` ignoring case and
    handled from the last to the first, so an insertion never moves a call
    still to be handled.

    The source locates the argument by searching for the next comma
    `arg_index` times from the opening parenthesis, ignoring nesting; that
    lands inside an earlier argument that itself contains a comma.  Both
    placements are defined here: `Naive` as written and `TopLevel`, which
    counts only top-level commas and which the pipeline uses. */
module Aggregate {
  import opened Text
  import opened Words
  import opened Splitting

  /** How the insertion point is located. */
  datatype Placement = Naive | TopLevel

  const Marker: string := "_xleta."

  /** The regex `\bNAME\s*\(` with IGNORECASE. */
  function CallPattern(name: string): Pattern
  {
    Pattern(name, [], true, true, CallAhead)
  }

  /** The end of a match: just after its `(`. */
  function ArgsStart(s: string, p: nat, name: string): (r: nat)
    requires p <= |s| && MatchesAt(s, p, CallPattern(name))
    ensures p + |name| < r <= |s| && s[r - 1] == '('
  {
    SkipSpaces(s, p + |name|) + 1
  }

  /** `re.finditer`: the ends of the non-overlapping matches at or after `i`,
      left to right. */
  function CallsFrom(s: string, i: nat, name: string): (r: seq<nat>)
    requires i <= |s|
    ensures forall k :: 0 <= k < |r| ==> i < r[k] <= |s|
    decreases |s| - i
  {
    if i == |s| then []
    else if MatchesAt(s, i, CallPattern(name)) then
      var a := ArgsStart(s, i, name);
      [a] + CallsFrom(s, a, name)
    else CallsFrom(s, i + 1, name)
  }

  /** An argument that is left alone: a lambda in source or rewritten form,
      or one that already carries the marker. */
  predicate Exempt(arg: string)
  {
    StartsWith(Upper(arg), "LAMBDA") || StartsWith(arg, "_xlfn.LAMBDA") || StartsWith(arg, Marker)
  }

  /** The argument of a call whose arguments start at `start` that receives
      the marker: the `idx`-th top-level argument, when there is one and it
      is not exempt. */
  predicate Wants(g: string, start: nat, idx: nat)
    requires start <= |g|
  {
    var args := CallArgs(CutAt(g, start));
    idx < |args| && !Exempt(Trim(args[idx]))
  }

  /** `formula.find(',', p)`: the first comma at or after `p`, or -1. */
  function CommaFrom(g: string, p: nat): (r: int)
    ensures r == -1 || (p <= r < |g| && g[r] == ',')
    decreases |g| - p
  {
    if p >= |g| then -1
    else if g[p] == ',' then p
    else CommaFrom(g, p + 1)
  }

  /** `formula.find(',', p) + 1`, applied `k` times (-1 + 1 is 0). */
  function CommaWalk(g: string, p: nat, k: nat): (r: nat)
    requires p <= |g|
    ensures r <= |g|
    decreases k
  {
    if k == 0 then p
    else
      var c := CommaFrom(g, p);
      CommaWalk(g, (c + 1) as nat, k - 1)
  }

  /** The source's insertion point: `idx` naive comma searches, then the
      spaces after the last comma skipped. */
  function NaivePoint(g: string, start: nat, idx: nat): (r: nat)
    requires start <= |g|
    ensures r <= |g|
  {
    SkipSpaces(g, CommaWalk(g, start, idx))
  }

  /** The intended insertion point: the start of the `idx`-th top-level
      argument, its leading spaces skipped. */
  function TopPoint(g: string, start: nat, idx: nat): (r: nat)
    requires start <= |g| && idx < |CutAt(g, start).pieces|
    ensures r <= |g|
  {
    PieceAt(g, start, CutAt(g, start).pieces, idx);
    SkipSpaces(g, start + Offset(CutAt(g, start).pieces, idx))
  }

  /** The text with the marker inserted at `a`. */
  function InsertAt(g: string, a: nat): (r: string)
    requires a <= |g|
    ensures |r| == |g| + |Marker|
  {
    g[..a] + Marker + g[a..]
  }

  /** One call handled: its arguments start at `start`. */
  function Fix(g: string, start: nat, idx: nat, how: Placement): (r: string)
    requires start <= |g|
    ensures |r| == |g| || |r| == |g| + |Marker|
  {
    if !Wants(g, start, idx) then g
    else
      match how
      case Naive => InsertAt(g, NaivePoint(g, start, idx))
      case TopLevel => InsertAt(g, TopPoint(g, start, idx))
  }

  /** The calls handled from the last to the first. */
  function FixAll(g: string, starts: seq<nat>, idx: nat, how: Placement): (r: string)
    requires forall k :: 0 <= k < |starts| ==> starts[k] <= |g|
    ensures |r| >= |g|
    decreases |starts|
  {
    if starts == [] then g
    else
      var n := |starts|;
      var g' := Fix(g, starts[n - 1], idx, how);
      FixAll(g', starts[..n - 1], idx, how)
  }

  /** `_process_aggregate_function(formula, name, idx)`. */
  function Pass(f: string, name: string, idx: nat, how: Placement): string
  {
    FixAll(f, CallsFrom(f, 0, name), idx, how)
  }

  /** `_process_groupby_pivotby_args`: GROUPBY's third argument, then
      PIVOTBY's fourth. */
  function MarkAggregates(f: string, how: Placement): string
  {
    Pass(Pass(f, "GROUPBY", 2, how), "PIVOTBY", 3, how)
  }

  // ---------------------------------------------------------------------
  // What one call does

  /** A call with too few arguments, or whose argument is exempt, is left
      alone; otherwise exactly one marker is inserted, at or after the
      opening parenthesis, and the rest of the text is kept on both sides. */
  lemma FixEffect(g: string, start: nat, idx: nat, how: Placement)
    requires start <= |g|
    ensures !Wants(g, start, idx) ==> Fix(g, start, idx, how) == g
    ensures Wants(g, start, idx) ==>
              exists a :: start <= a <= |g| && Fix(g, start, idx, how) == g[..a] + Marker + g[a..]
  {
    if Wants(g, start, idx) {
      var a := match how case Naive => NaivePoint(g, start, idx) case TopLevel => TopPoint(g, start, idx);
      var ps := CutAt(g, start).pieces;
      CommaWalkBounded(g, start, ps, start, 0, idx);
      assert start <= a;
      assert Fix(g, start, idx, how) == g[..a] + Marker + g[a..];
    }
  }

  /** While there are top-level commas ahead, the naive search finds a
      comma no later than the next top-level one, so it never fails and
      never moves backwards. */
  lemma {:induction false} CommaWalkBounded(g: string, start: nat, ps: seq<string>, p: nat, j: nat, k: nat)
    requires start <= |g| && ps == CutAt(g, start).pieces && j + k < |ps|
    requires start <= p <= start + Offset(ps, j) && p <= |g|
    ensures p <= CommaWalk(g, p, k) <= start + Offset(ps, j + k)
    decreases k
  {
    if k > 0 {
      PieceAt(g, start, ps, j);
      var q := start + Offset(ps, j) + |ps[j]|;
      FindComma(g, p, q);
      var r := CommaFrom(g, p) + 1;
      CommaWalkBounded(g, start, ps, r, j + 1, k - 1);
      CommaWalkOnce(g, p, k, r);
    }
  }

  /** The marker is added only where the top-level argument itself starts,
      after its leading spaces, so the argument's text follows it. */
  lemma TopPointLocates(g: string, start: nat, idx: nat)
    requires start <= |g| && idx < |CallArgs(CutAt(g, start))|
    requires Trim(CallArgs(CutAt(g, start))[idx]) != []
    ensures var arg := CallArgs(CutAt(g, start))[idx];
            && TopPoint(g, start, idx) == start + Offset(CutAt(g, start).pieces, idx) + LeadingSpaces(arg)
            && OccursAt(g, Trim(arg), TopPoint(g, start, idx))
  {
    var c := CutAt(g, start);
    assert CallArgs(c)[idx] == c.pieces[idx];
    PieceLocated(g, start, idx, c.pieces);
  }

  lemma PieceLocated(g: string, start: nat, idx: nat, ps: seq<string>)
    requires start <= |g| && ps == CutAt(g, start).pieces && idx < |ps|
    requires Trim(ps[idx]) != []
    ensures TopPoint(g, start, idx) == start + Offset(ps, idx) + LeadingSpaces(ps[idx])
    ensures OccursAt(g, Trim(ps[idx]), TopPoint(g, start, idx))
  {
    PieceAt(g, start, ps, idx);
    TopPointIs(g, start, idx);
    StrippedAtPoint(g, start + Offset(ps, idx), ps[idx], TopPoint(g, start, idx));
  }

  lemma TopPointIs(g: string, start: nat, idx: nat)
    requires start <= |g| && idx < |CutAt(g, start).pieces|
    requires start + Offset(CutAt(g, start).pieces, idx) <= |g|
    ensures TopPoint(g, start, idx) == SkipSpaces(g, start + Offset(CutAt(g, start).pieces, idx))
  {
  }

  // ---------------------------------------------------------------------
  // Naive and top-level placement

  /** The comma search is `str.find` with the one-character pattern. */
  lemma {:induction false} CommaFromIsFind(g: string, p: nat)
    ensures CommaFrom(g, p) == Find(g, ",", p)
    decreases |g| - p
  {
    if p < |g| {
      assert g[p..p + 1] == [g[p]];
      if g[p] != ',' {
        CommaFromIsFind(g, p + 1);
      }
    }
  }

  /** A comma at `q` bounds the search for one from `from`. */
  lemma {:induction false} FindComma(g: string, from: nat, q: nat)
    requires from <= q < |g| && g[q] == ','
    ensures from <= CommaFrom(g, from) <= q
    decreases q - from
  {
    if g[from] != ',' {
      FindComma(g, from + 1, q);
    }
  }

  /** ... and is what the search finds when no comma comes before it. */
  lemma {:induction false} FindCommaExact(g: string, from: nat, q: nat)
    requires from <= q < |g| && g[q] == ','
    requires forall i :: from <= i < q ==> g[i] != ','
    ensures CommaFrom(g, from) == q
    decreases q - from
  {
    if from < q {
      FindCommaExact(g, from + 1, q);
    }
  }

  /** A text without commas. */
  predicate CommaFree(s: string)
  {
    forall m :: 0 <= m < |s| ==> s[m] != ','
  }

  /** From the start of a comma-free piece, the naive search finds the comma
      that ends it. */
  lemma CommaAfterPiece(g: string, start: nat, ps: seq<string>, j: nat)
    requires start <= |g| && ps == CutAt(g, start).pieces && j + 1 < |ps|
    requires CommaFree(ps[j])
    ensures start + Offset(ps, j + 1) <= |g|
    ensures CommaFrom(g, start + Offset(ps, j)) + 1 == start + Offset(ps, j + 1)
  {
    PieceAt(g, start, ps, j);
    var p := start + Offset(ps, j);
    var q := p + |ps[j]|;
    forall i | p <= i < q ensures g[i] != ',' {
      assert g[i] == g[p..q][i - p] == ps[j][i - p];
    }
    FindCommaExact(g, p, q);
  }

  /** One naive search step. */
  lemma CommaWalkOnce(g: string, p: nat, k: nat, q: nat)
    requires p <= |g| && q <= |g| && k > 0 && CommaFrom(g, p) + 1 == q
    ensures CommaWalk(g, p, k) == CommaWalk(g, q, k - 1)
  {
  }

  /** The next comma after `p` is the one just before `q`. */
  predicate NextComma(g: string, p: nat, q: nat)
  {
    p <= |g| && q <= |g| && CommaFrom(g, p) + 1 == q
  }

  /** From each of the boundaries `j` to `n - 1`, the next comma leads to
      the following boundary. */
  predicate Chained(g: string, start: nat, ps: seq<string>, j: nat, n: nat)
    requires j <= n <= |ps|
    decreases n - j
  {
    j < n ==> NextComma(g, start + Offset(ps, j), start + Offset(ps, j + 1)) && Chained(g, start, ps, j + 1, n)
  }

  /** Naive search steps that each land on the next boundary reach the
      last one. */
  lemma {:induction false} CommaWalkChain(g: string, start: nat, ps: seq<string>, j: nat, n: nat)
    requires j <= n <= |ps| && start + Offset(ps, j) <= |g|
    requires Chained(g, start, ps, j, n)
    ensures CommaWalk(g, start + Offset(ps, j), n - j) == start + Offset(ps, n)
    decreases n - j
  {
    if j < n {
      var p := start + Offset(ps, j);
      var q := start + Offset(ps, j + 1);
      CommaWalkChain(g, start, ps, j + 1, n);
      CommaWalkOnce(g, p, n - j, q);
    }
  }

  /** Comma-free pieces are chained. */
  lemma {:induction false} PiecesChained(g: string, start: nat, ps: seq<string>, j: nat, n: nat)
    requires start <= |g| && ps == CutAt(g, start).pieces && j <= n < |ps|
    requires forall i :: j <= i < n ==> CommaFree(ps[i])
    ensures Chained(g, start, ps, j, n)
    decreases n - j
  {
    if j < n {
      CommaAfterPiece(g, start, ps, j);
      PiecesChained(g, start, ps, j + 1, n);
    }
  }

  /** The source's placement is the intended one whenever the arguments
      before the aggregation argument contain no comma. */
  lemma NaiveAgrees(g: string, start: nat, idx: nat)
    requires start <= |g| && idx < |CallArgs(CutAt(g, start))|
    requires forall i :: 0 <= i < idx ==> CommaFree(CallArgs(CutAt(g, start))[i])
    ensures NaivePoint(g, start, idx) == TopPoint(g, start, idx)
  {
    var ps := CutAt(g, start).pieces;
    assert forall i :: 0 <= i < idx ==> CallArgs(CutAt(g, start))[i] == ps[i];
    PiecesChained(g, start, ps, 0, idx);
    CommaWalkChain(g, start, ps, 0, idx);
  }

  /** The arguments of the example call. */
  lemma ExampleArgs(g: string)
    requires g == "GROUPBY(A,F(B,C),D)"
    ensures CutAt(g, 8).pieces == ["A", "F(B,C)", "D"]
    ensures CallArgs(CutAt(g, 8)) == ["A", "F(B,C)", "D"]
  {
    assert g[17..18] == "D" && g[10..16] == "F(B,C)" && g[8..9] == "A";
    assert Scan(g, 18, 0, 17) == Cut(["D"], 18, true);
    assert Scan(g, 17, 0, 17) == Cut(["D"], 18, true);
    assert Scan(g, 16, 0, 10) == Cut(["F(B,C)", "D"], 18, true);
    assert Scan(g, 15, 1, 10) == Cut(["F(B,C)", "D"], 18, true);
    assert Scan(g, 14, 1, 10) == Cut(["F(B,C)", "D"], 18, true);
    assert Scan(g, 13, 1, 10) == Cut(["F(B,C)", "D"], 18, true);
    assert Scan(g, 12, 1, 10) == Cut(["F(B,C)", "D"], 18, true);
    assert Scan(g, 11, 0, 10) == Cut(["F(B,C)", "D"], 18, true);
    assert Scan(g, 10, 0, 10) == Cut(["F(B,C)", "D"], 18, true);
    assert Scan(g, 9, 0, 8) == Cut(["A", "F(B,C)", "D"], 18, true);
    assert Scan(g, 8, 0, 8) == Cut(["A", "F(B,C)", "D"], 18, true);
  }

  /** The example call is found at the start and its arguments start at 8. */
  lemma ExampleFound(g: string)
    requires g == "GROUPBY(A,F(B,C),D)"
    ensures MatchesAt(g, 0, CallPattern("GROUPBY"))
    ensures ArgsStart(g, 0, "GROUPBY") == 8
  {
    assert g[0..7] == "GROUPBY";
    SameGroupBy();
    assert IsWordChar(g[0]);
    assert SkipSpaces(g, 7) == 7;
  }

  lemma SameGroupBy()
    ensures SameText("GROUPBY", "GROUPBY", true)
  {
  }

  /** The stripped argument `D` is not exempt. */
  lemma ExemptD()
    ensures !Exempt(Trim("D"))
  {
    assert !IsSpace('D');
    assert TrimLeft("D") == "D";
    assert TrimRight("D") == "D";
    assert Trim("D") == "D";
  }

  /** The example's aggregation argument `D` wants the marker. */
  lemma ExampleWants(g: string)
    requires g == "GROUPBY(A,F(B,C),D)"
    ensures Wants(g, 8, 2)
  {
    var args := CallArgs(CutAt(g, 8));
    ExampleArgs(g);
    assert args[2] == "D";
    ExemptD();
  }

  /** Where an argument wants the marker, `Fix` inserts it at the point its
      placement picks. */
  lemma FixInserts(g: string, start: nat, idx: nat, how: Placement)
    requires start <= |g| && Wants(g, start, idx)
    ensures how.Naive? ==> Fix(g, start, idx, how) == InsertAt(g, NaivePoint(g, start, idx))
    ensures how.TopLevel? ==> Fix(g, start, idx, how) == InsertAt(g, TopPoint(g, start, idx))
  {
  }

  lemma ExampleNaivePoint(g: string)
    requires g == "GROUPBY(A,F(B,C),D)"
    ensures NaivePoint(g, 8, 2) == 14
  {
    FindCommaExact(g, 8, 9);
    FindCommaExact(g, 10, 13);
    assert CommaWalk(g, 8, 2) == CommaWalk(g, 10, 1) == CommaWalk(g, 14, 0) == 14;
    assert SkipSpaces(g, 14) == 14;
  }

  lemma ExampleTopPoint(g: string)
    requires g == "GROUPBY(A,F(B,C),D)"
    ensures |CutAt(g, 8).pieces| == 3 && TopPoint(g, 8, 2) == 17
  {
    ExampleArgs(g);
    assert Offset(["A", "F(B,C)", "D"], 2) == 9;
    assert SkipSpaces(g, 17) == 17;
  }

  lemma InsertSplit(g: string, a: nat, pre: string, post: string)
    requires a <= |g| && g[..a] == pre && g[a..] == post
    ensures InsertAt(g, a) == pre + Marker + post
  {
  }

  lemma NaiveText()
    ensures "GROUPBY(A,F(B," + Marker + "C),D)" == "GROUPBY(A,F(B,_xleta.C),D)"
  {
  }

  lemma TopText()
    ensures "GROUPBY(A,F(B,C)," + Marker + "D)" == "GROUPBY(A,F(B,C),_xleta.D)"
  {
  }

  /** `GROUPBY(A,F(B,C),D)`: the source puts the marker in front of `C`,
      inside the second argument ... */
  lemma NaiveMisplaced(g: string)
    requires g == "GROUPBY(A,F(B,C),D)"
    ensures Fix(g, 8, 2, Naive) == "GROUPBY(A,F(B,_xleta.C),D)"
  {
    ExampleWants(g);
    FixInserts(g, 8, 2, Naive);
    ExampleNaivePoint(g);
    assert g[..14] == "GROUPBY(A,F(B," && g[14..] == "C),D)";
    InsertSplit(g, 14, "GROUPBY(A,F(B,", "C),D)");
    NaiveText();
  }

  /** ... where the top-level placement puts it in front of `D`. */
  lemma TopLevelPlaced(g: string)
    requires g == "GROUPBY(A,F(B,C),D)"
    ensures Fix(g, 8, 2, TopLevel) == "GROUPBY(A,F(B,C),_xleta.D)"
  {
    ExampleWants(g);
    FixInserts(g, 8, 2, TopLevel);
    ExampleTopPoint(g);
    assert g[..17] == "GROUPBY(A,F(B,C)," && g[17..] == "D)";
    InsertSplit(g, 17, "GROUPBY(A,F(B,C),", "D)");
    TopText();
  }

  // ---------------------------------------------------------------------
  // Text without aggregate calls

  /** `finditer` finds nothing where the call pattern never matches. */
  lemma {:induction false} CallsFromNone(s: string, i: nat, name: string)
    requires i <= |s|
    requires !HasMatchFrom(s, i, CallPattern(name))
    ensures CallsFrom(s, i, name) == []
    decreases |s| - i
  {
    if i < |s| {
      CallsFromNone(s, i + 1, name);
    }
  }

  /** Without a GROUPBY or PIVOTBY call the stage leaves the text alone,
      under either placement. */
  lemma MarkAggregatesNoCall(f: string, how: Placement)
    requires !HasMatchFrom(f, 0, CallPattern("GROUPBY"))
    requires !HasMatchFrom(f, 0, CallPattern("PIVOTBY"))
    ensures MarkAggregates(f, how) == f
  {
    CallsFromNone(f, 0, "GROUPBY");
    CallsFromNone(f, 0, "PIVOTBY");
  }
}
