/** A LAMBDA inside another, `_xlfn.LAMBDA(x,_xlfn.LAMBDA(y,x+y))`, through
    the LAMBDA loop with both kinds of bookkeeping.

    The inner call is the shorter, so it is rewritten first and grows by
    twelve characters.  As written, the outer call keeps its old end; its
    slice then stops inside the rewritten inner call, no longer ends in `)`,
    and the outer parameter `x` is never marked.  With the corrected
    bookkeeping the outer call covers the whole text again and `x` gets its
    `_xlpm.`. */
module NestedLambda {
  import opened Text
  import opened Words
  import opened Parens
  import opened LegacyNames
  import opened LegacyLambda

  lemma OpensOuter(t: string)
    requires t == "_xlfn.LAMBDA(x,_xlfn.LAMBDA(y,x+y))"
    ensures OpensAt(t, LambdaName, 0) && SkipSpaces(t, 0 + |LambdaName|) + 1 == 13
    ensures Opening(t, LambdaName, 0) == Some(13)
  {
    var u := t[0..];
    assert forall k :: 0 <= k < 12 ==> u[k] == "_xlfn.LAMBDA"[k];
    assert u[..12] == "_xlfn.LAMBDA";
    assert t[12] == '(';
    SkipNone(t, 12);
  }

  lemma SkipNone(s: string, p: nat)
    requires p < |s| && !IsSpace(s[p])
    ensures SkipSpaces(s, p) == p
  {
  }

  lemma OpensInner(t: string)
    requires t == "_xlfn.LAMBDA(x,_xlfn.LAMBDA(y,x+y))"
    ensures OpensAt(t, LambdaName, 15) && SkipSpaces(t, 15 + |LambdaName|) + 1 == 28
    ensures Opening(t, LambdaName, 15) == Some(28)
  {
    var u := t[15..];
    assert forall k :: 0 <= k < 12 ==> u[k] == "_xlfn.LAMBDA"[k];
    assert u[..12] == "_xlfn.LAMBDA";
    assert t[27] == '(';
    SkipNone(t, 27);
  }

  lemma CloseOuter(t: string)
    requires t == "_xlfn.LAMBDA(x,_xlfn.LAMBDA(y,x+y))"
    ensures Close(t, 13, 1) == Some(35)
  {
    CloseSkip(t, 13, 27, 1);
    CloseSkip(t, 28, 33, 2);
  }

  lemma CloseInner(t: string)
    requires t == "_xlfn.LAMBDA(x,_xlfn.LAMBDA(y,x+y))"
    ensures Close(t, 28, 1) == Some(34)
  {
    CloseSkip(t, 28, 33, 1);
  }

  lemma NoOpenings(t: string)
    requires t == "_xlfn.LAMBDA(x,_xlfn.LAMBDA(y,x+y))"
    ensures forall k :: 13 <= k < 15 ==> t[k] != '_'
    ensures forall k :: 28 <= k < 35 ==> t[k] != '_'
    ensures |t| == 35
  {
  }

  lemma NestedFound(t: string)
    requires t == "_xlfn.LAMBDA(x,_xlfn.LAMBDA(y,x+y))"
    ensures Found(t, 0) == [Span(0, 35), Span(15, 34)]
  {
    NoOpenings(t);
    OpensOuter(t);
    CloseOuter(t);
    FoundOpen(t, 0, 13, 35);
    FoundSkip(t, 13, 15);
    OpensInner(t);
    CloseInner(t);
    FoundOpen(t, 15, 28, 34);
    FoundSkip(t, 28, 35);
    assert Found(t, 35) == [];
  }

  lemma NestedSorted()
    ensures SortByLength([Span(0, 35), Span(15, 34)]) == [Span(15, 34), Span(0, 35)]
  {
    assert [Span(0, 35), Span(15, 34)][..1] == [Span(0, 35)];
    assert [Span(0, 35)][..0] == [];
  }

  /** The parts of a text built from three pieces. */
  lemma Cut3(a: string, b: string, c: string)
    ensures (a + b + c)[..|a|] == a && (a + b + c)[|a|..|a| + |b|] == b
    ensures (a + b + c)[|a| + |b|..] == c
  {
    var w := a + b + c;
    assert w == a + (b + c);
    assert w[|a|..] == b + c;
  }

  lemma InnerMatch(x: string)
    requires x == "_xlfn.LAMBDA(y,x+y)"
    ensures MatchCall(LambdaName, x) == Some(Call("_xlfn.LAMBDA(", "y,x+y"))
  {
    var h, m := "_xlfn.LAMBDA(", "y,x+y";
    assert x == h + m + ")";
    Cut3(h, m, ")");
    assert x[..12] == LambdaName;
    SkipNone(x, 12);
    assert NoNewline(m);
    MatchCallHit(LambdaName, x, 12);
  }

  lemma InnerPieces(c: string)
    requires c == "y,x+y"
    ensures Pieces(c, 0, 0, 0) == ["y", "x+y"]
  {
    PiecesSkip(c, 0, 1, 0, 0);
    assert Pieces(c, 1, 0, 0) == [c[0..1]] + Pieces(c, 2, 0, 2);
    PiecesSkip(c, 2, 5, 0, 2);
    assert Pieces(c, 5, 0, 2) == [c[2..]];
    assert c[0..1] == "y" && c[2..] == "x+y";
  }

  lemma InnerParts(c: string)
    requires c == "y,x+y"
    ensures Parts(c) == ["y", "x+y"]
  {
    InnerPieces(c);
    PartsClean(c, ["y", "x+y"]);
  }

  lemma InnerSub(s: string)
    requires s == "x+y"
    ensures Sub(s, Word("y"), Pm + "y") == "x+_xlpm.y"
  {
    var pat := Word("y");
    var rep := Pm + "y";
    assert !MatchesAt(s, 0, pat) && !MatchesAt(s, 1, pat);
    assert MatchesAt(s, 2, pat);
    SubHit(s, 2, pat, rep);
    assert SubFrom(s, 3, pat, rep) == [];
    SubSkip(s, 1, pat, rep);
    SubSkip(s, 0, pat, rep);
  }

  lemma InnerMarked(s: string)
    requires s == "x+y"
    ensures Marked(s, 0, Word("y"), Pm) == "x+_xlpm.y"
  {
    InnerSub(s);
    MarkAllOne(s, "y");
    assert MarkAll(s, ["y"]) == MarkAll(Sub(s, Word("y"), Pm + "y"), []);
  }

  lemma NoCapitals(s: string)
    requires s == "x+_xlpm.y"
    ensures forall q :: 0 <= q < |s| ==> !IsUpper(s[q])
  {
  }

  lemma InnerTagged(s: string, order: seq<string>, g: Guard)
    requires s == "x+_xlpm.y" && IsOrder(order)
    ensures TagText(s, order, g) == s
  {
    OrderCapitals(order);
    NoCapitals(s);
    TagTextNoCapital(s, order, g);
  }

  lemma InnerGlue(h: string, n: string, b: string)
    requires h == "_xlfn.LAMBDA(" && n == "y" && b == "x+_xlpm.y"
    ensures h + Pm + n + "," + b + ")" == "_xlfn.LAMBDA(_xlpm.y,x+_xlpm.y)"
  {
  }

  /** The inner call on its own is rewritten in full. */
  lemma InnerRewritten(x: string, order: seq<string>, g: Guard)
    requires x == "_xlfn.LAMBDA(y,x+y)" && IsOrder(order)
    ensures LambdaParams(x, order, g) == "_xlfn.LAMBDA(_xlpm.y,x+_xlpm.y)"
  {
    var c := Call("_xlfn.LAMBDA(", "y,x+y");
    InnerMatch(x);
    InnerParts(c.content);
    TrimClean("y");
    InnerMarked("x+y");
    NoCapitals("x+_xlpm.y");
    InnerOne(x, c, Parts(c.content), "y", "x+_xlpm.y", order, g);
    InnerGlue(c.head, "y", "x+_xlpm.y");
  }

  /** A one-parameter call whose marked body has no capital letters keeps
      that body through the tagging. */
  lemma InnerOne(x: string, c: Call, ps: seq<string>, n: string, b: string, order: seq<string>, g: Guard)
    requires MatchCall(LambdaName, x) == Some(c) && ps == Parts(c.content) && |ps| == 2
    requires Trim(ps[0]) == n && WordName(n) && Marked(ps[1], 0, Word(n), Pm) == b
    requires IsOrder(order) && forall q :: 0 <= q < |b| ==> !IsUpper(b[q])
    ensures LambdaParams(x, order, g) == c.head + Pm + n + "," + b + ")"
  {
    OrderCapitals(order);
    TagTextNoCapital(b, order, g);
    LambdaOneParam(x, c, ps, order, g);
  }

  lemma InnerSlice(t: string)
    requires t == "_xlfn.LAMBDA(x,_xlfn.LAMBDA(y,x+y))"
    ensures Slice(t, Span(15, 34)) == "_xlfn.LAMBDA(y,x+y)"
  {
    MidSlice(t);
  }

  lemma MidSlice(t: string)
    requires t == "_xlfn.LAMBDA(x,_xlfn.LAMBDA(y,x+y))"
    ensures |t| == 35 && t[15..34] == "_xlfn.LAMBDA(y,x+y)"
  {
  }

  lemma OuterEnds(t: string)
    requires t == "_xlfn.LAMBDA(x,_xlfn.LAMBDA(y,x+y))"
    ensures |t| == 35 && t[..15] == "_xlfn.LAMBDA(x," && t[34..] == ")"
  {
  }

  /** The first step of the loop, the same under both bookkeepings. */
  lemma FirstStep(t: string, order: seq<string>, g: Guard)
    requires t == "_xlfn.LAMBDA(x,_xlfn.LAMBDA(y,x+y))" && IsOrder(order)
    ensures LambdaParams(Slice(t, Span(15, 34)), order, g) == "_xlfn.LAMBDA(_xlpm.y,x+_xlpm.y)"
    ensures Replace(t, Span(15, 34), "_xlfn.LAMBDA(_xlpm.y,x+_xlpm.y)")
         == "_xlfn.LAMBDA(x," + "_xlfn.LAMBDA(_xlpm.y,x+_xlpm.y)" + ")"
  {
    InnerSlice(t);
    OuterEnds(t);
    InnerRewritten("_xlfn.LAMBDA(y,x+y)", order, g);
  }

  /** What the rest of the example needs to know about the rewritten inner
      call. */
  predicate InnerShape(y: string)
  {
    && |y| == 31 && y[0] == '_' && y[12] == '(' && y[19] == 'y' && y[30] == ')'
    && NoNewline(y)
    && (forall q :: 0 <= q < 12 ==> y[q] != '(' && y[q] != ')' && y[q] != ',')
    && (forall q :: 13 <= q < 30 ==> y[q] != '(' && y[q] != ')')
  }

  lemma InnerDoneShape(y: string)
    requires y == "_xlfn.LAMBDA(_xlpm.y,x+_xlpm.y)"
    ensures InnerShape(y)
  {
    InnerDonePlain(y);
    InnerDoneInside(y);
  }

  lemma InnerDonePlain(y: string)
    requires y == "_xlfn.LAMBDA(_xlpm.y,x+_xlpm.y)"
    ensures NoNewline(y)
    ensures forall q :: 0 <= q < 12 ==> y[q] != '(' && y[q] != ')' && y[q] != ','
  {
  }

  lemma InnerDoneInside(y: string)
    requires y == "_xlfn.LAMBDA(_xlpm.y,x+_xlpm.y)"
    ensures forall q :: 13 <= q < 30 ==> y[q] != '(' && y[q] != ')'
  {
  }

  lemma OuterHead(a: string)
    requires a == "_xlfn.LAMBDA(x,"
    ensures |a| == 15 && a[..12] == LambdaName && a[12] == '(' && a[..13] == "_xlfn.LAMBDA(" && a[13..] == "x,"
  {
  }

  lemma StaleSlice(u: string, a: string, y: string, b: string)
    requires u == a + y + b && a == "_xlfn.LAMBDA(x," && b == ")" && InnerShape(y)
    ensures var x := Slice(u, Span(0, 35));
            StartsWith(x, LambdaName) && 12 < |x| && x[12] == '(' && x[|x| - 1] == 'y'
  {
    OuterHead(a);
    var x := Slice(u, Span(0, 35));
    assert |u| == 47 && x == u[0..35];
    assert x[..12] == a[..12];
    assert x[34] == y[19];
  }

  /** As written, the outer call's slice stops inside the rewritten inner
      call, so it is left as it is. */
  lemma StaleSliceUnmatched(u: string, a: string, y: string, b: string, order: seq<string>, g: Guard)
    requires u == a + y + b && a == "_xlfn.LAMBDA(x," && b == ")" && InnerShape(y)
    ensures LambdaParams(Slice(u, Span(0, 35)), order, g) == Slice(u, Span(0, 35))
    ensures Replace(u, Span(0, 35), Slice(u, Span(0, 35))) == u
  {
    var x := Slice(u, Span(0, 35));
    StaleSlice(u, a, y, b);
    SkipNone(x, 12);
    MatchCallMiss(LambdaName, x, 12);
    ReplaceBySlice(u, Span(0, 35));
  }

  lemma NestedPending(t: string)
    requires t == "_xlfn.LAMBDA(x,_xlfn.LAMBDA(y,x+y))"
    ensures SortByLength(Found(t, 0)) == [Span(15, 34), Span(0, 35)]
  {
    NestedFound(t);
    NestedSorted();
  }

  /** After the inner call, under either bookkeeping. */
  lemma AfterInner(t: string, order: seq<string>, g: Guard, how: Bookkeeping)
    requires t == "_xlfn.LAMBDA(x,_xlfn.LAMBDA(y,x+y))" && IsOrder(order)
    ensures Lambdas(t, order, g, how)
         == Loop("_xlfn.LAMBDA(x," + "_xlfn.LAMBDA(_xlpm.y,x+_xlpm.y)" + ")",
                 ShiftAll([Span(0, 35)], Span(15, 34), 31, how), [Span(15, 46)], order, g, how)
  {
    var inner, outer := Span(15, 34), Span(0, 35);
    var y := "_xlfn.LAMBDA(_xlpm.y,x+_xlpm.y)";
    NestedPending(t);
    FirstStep(t, order, g);
    assert |y| == 31;
    LoopStep(t, [inner, outer], [], order, g, how, y);
    assert [inner, outer][1..] == [outer];
    ShiftOuter();
    assert [] + [Span(15, 46)] == [Span(15, 46)];
  }

  /** The outer parameter stays unmarked as written. */
  lemma NestedAsWritten(t: string, order: seq<string>, g: Guard)
    requires t == "_xlfn.LAMBDA(x,_xlfn.LAMBDA(y,x+y))" && IsOrder(order)
    ensures Lambdas(t, order, g, AsWritten) == "_xlfn.LAMBDA(x," + "_xlfn.LAMBDA(_xlpm.y,x+_xlpm.y)" + ")"
  {
    var a, y, b := "_xlfn.LAMBDA(x,", "_xlfn.LAMBDA(_xlpm.y,x+_xlpm.y)", ")";
    AfterInner(t, order, g, AsWritten);
    ShiftOuter();
    InnerDoneShape(y);
    SecondStepAsWritten(a + y + b, a, y, b, order, g);
  }

  lemma SecondStepAsWritten(u: string, a: string, y: string, b: string, order: seq<string>, g: Guard)
    requires u == a + y + b && a == "_xlfn.LAMBDA(x," && b == ")" && InnerShape(y)
    ensures Loop(u, [Span(0, 35)], [Span(15, 46)], order, g, AsWritten) == u
  {
    StaleSliceUnmatched(u, a, y, b, order, g);
    assert !Covered(Span(0, 35), [Span(15, 46)]);
    LoopStep(u, [Span(0, 35)], [Span(15, 46)], order, g, AsWritten, Slice(u, Span(0, 35)));
  }

  lemma StepMatch(u: string, a: string, y: string, b: string)
    requires u == a + y + b && a == "_xlfn.LAMBDA(x," && b == ")" && InnerShape(y)
    ensures MatchCall(LambdaName, u) == Some(Call("_xlfn.LAMBDA(", "x," + y))
  {
    OuterHead(a);
    assert |u| == 47 && u[..12] == a[..12] && u[12] == '(' && u[46] == ')';
    SkipNone(u, 12);
    assert u[13..46] == "x," + y;
    assert u[..13] == a[..13];
    MatchCallHit(LambdaName, u, 12);
  }

  lemma StepPieces(c: string, y: string)
    requires c == "x," + y && InnerShape(y)
    ensures Pieces(c, 0, 0, 0) == ["x", y]
  {
    assert |c| == 33 && c[1] == ',' && c[14] == '(' && c[32] == ')';
    assert forall q :: 2 <= q < 14 ==> c[q] == y[q - 2];
    assert forall q :: 15 <= q < 32 ==> c[q] == y[q - 2];
    PiecesSkip(c, 0, 1, 0, 0);
    assert Pieces(c, 1, 0, 0) == [c[0..1]] + Pieces(c, 2, 0, 2);
    PiecesSkip(c, 2, 14, 0, 2);
    PiecesSkip(c, 15, 32, 1, 2);
    assert Pieces(c, 33, 0, 2) == [c[2..]];
    assert c[0..1] == "x" && c[2..] == y;
  }

  lemma CallTrimmed(s: string)
    requires |s| > 0 && s[0] == '_' && s[|s| - 1] == ')'
    ensures Trim(s) == s
  {
    TrimClean(s);
  }

  lemma StepParts(c: string, y: string)
    requires c == "x," + y && InnerShape(y)
    ensures Parts(c) == ["x", y]
  {
    StepPieces(c, y);
    PartsOfTwo(c, ["x", y]);
    TrimClean("x");
    CallTrimmed(y);
  }

  lemma OuterRewritten(u: string, a: string, y: string, b: string, order: seq<string>, g: Guard)
    requires u == a + y + b && a == "_xlfn.LAMBDA(x," && b == ")" && InnerShape(y)
    ensures StartsWith(LambdaParams(u, order, g), "_xlfn.LAMBDA(_xlpm.x,")
  {
    var c := Call("_xlfn.LAMBDA(", "x," + y);
    StepMatch(u, a, y, b);
    StepParts(c.content, y);
    TrimClean("x");
    OuterTwo(u, c, ["x", y], order, g);
    RewrittenStarts(c, ["x"], y, order, g);
    OuterParam(c.head);
    StartsVia(u, Rewritten(c, ["x"], y, order, g), "_xlfn.LAMBDA(_xlpm.x,", order, g);
  }

  /** What the rewrite of a call is known to start with, it starts with. */
  lemma StartsVia(u: string, r: string, p: string, order: seq<string>, g: Guard)
    requires LambdaParams(u, order, g) == r && StartsWith(r, p)
    ensures StartsWith(LambdaParams(u, order, g), p)
  {
  }

  lemma OuterTwo(u: string, c: Call, ps: seq<string>, order: seq<string>, g: Guard)
    requires MatchCall(LambdaName, u) == Some(c) && ps == Parts(c.content) && |ps| == 2
    requires Trim(ps[0]) == ps[0]
    ensures LambdaParams(u, order, g) == Rewritten(c, [ps[0]], ps[1], order, g)
  {
    LambdaParamsRewrites(u, c, ps, order, g);
    TrimmedPair(ps);
  }

  lemma TrimmedPair(ps: seq<string>)
    requires |ps| == 2 && Trim(ps[0]) == ps[0]
    ensures Trimmed(ps[..|ps| - 1]) == [ps[0]] && ps[|ps| - 1] == ps[1]
  {
    assert ps[..1] == [ps[0]];
  }

  lemma OuterParam(h: string)
    requires h == "_xlfn.LAMBDA("
    ensures h + Join(Prefix(Pm, ["x"]), ",") + "," == "_xlfn.LAMBDA(_xlpm.x,"
  {
    assert Pm + "x" == "_xlpm.x";
    assert Prefix(Pm, ["x"])[0] == "_xlpm.x";
    assert Prefix(Pm, ["x"]) == ["_xlpm.x"];
  }

  lemma ShiftOuter()
    ensures ShiftAll([Span(0, 35)], Span(15, 34), 31, AsWritten) == [Span(0, 35)]
    ensures ShiftAll([Span(0, 35)], Span(15, 34), 31, Corrected) == [Span(0, 47)]
    ensures ShiftAll([], Span(15, 34), 31, Corrected) + [Span(15, 46)] == [Span(15, 46)]
  {
  }

  lemma SecondStepCorrected(u: string, a: string, y: string, b: string, order: seq<string>, g: Guard)
    requires u == a + y + b && a == "_xlfn.LAMBDA(x," && b == ")" && InnerShape(y)
    ensures StartsWith(Loop(u, [Span(0, 47)], [Span(15, 46)], order, g, Corrected), "_xlfn.LAMBDA(_xlpm.x,")
  {
    assert |u| == 47;
    assert !Covered(Span(0, 47), [Span(15, 46)]);
    LoopWhole(u, Span(0, 47), [Span(15, 46)], order, g, Corrected, LambdaParams(u, order, g));
    OuterRewritten(u, a, y, b, order, g);
  }

  /** With the corrected bookkeeping the outer call is found again after
      the first rewrite and its parameter is marked. */
  lemma NestedCorrected(t: string, order: seq<string>, g: Guard)
    requires t == "_xlfn.LAMBDA(x,_xlfn.LAMBDA(y,x+y))" && IsOrder(order)
    ensures StartsWith(Lambdas(t, order, g, Corrected), "_xlfn.LAMBDA(_xlpm.x,")
  {
    var a, y, b := "_xlfn.LAMBDA(x,", "_xlfn.LAMBDA(_xlpm.y,x+_xlpm.y)", ")";
    AfterInner(t, order, g, Corrected);
    ShiftOuter();
    InnerDoneShape(y);
    SecondStepCorrected(a + y + b, a, y, b, order, g);
  }
}
