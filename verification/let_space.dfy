/** A LET call with a space before its parenthesis, `_xlfn.LET (x,1,x)`,
    through the loop of `_process_let_variables` with both starting points
    of the parenthesis search.

    As written, the search starts `len('_xlfn.LET(')` characters after the
    call, on the parenthesis itself, counts it a second time and never
    finds the call closed: the call is skipped and `x` keeps no `_xlpm.`.
    Corrected, the search starts after the parenthesis the pattern matched
    and the whole call goes through `_add_xlpm_to_let_vars`. */
module LetSpace {
  import opened Text
  import opened Words
  import opened Parens
  import opened LegacyNames
  import opened LegacyLambda
  import opened LegacyLet
  import opened LetScan
  import opened LegacyPrefix

  lemma SkipOne(s: string, p: nat)
    requires p + 1 < |s| && IsSpace(s[p]) && !IsSpace(s[p + 1])
    ensures SkipSpaces(s, p) == p + 1
  {
  }

  lemma OpensLet(t: string)
    requires t == "_xlfn.LET (x,1,x)"
    ensures Opening(t, LetName, 0) == Some(11)
  {
    var u := t[0..];
    assert forall k :: 0 <= k < 9 ==> u[k] == "_xlfn.LET"[k];
    assert u[..9] == "_xlfn.LET";
    assert t[9] == ' ' && t[10] == '(';
    SkipOne(t, 9);
  }

  /** A call of a name starting with `_` opens only at an underscore. */
  lemma UnderscoreOpening(t: string, name: string, j: nat)
    requires j <= |t| && |name| > 0 && name[0] == '_'
    requires j < |t| ==> t[j] != '_'
    ensures Opening(t, name, j).None?
  {
  }

  lemma NoOtherLet(t: string)
    requires t == "_xlfn.LET (x,1,x)"
    ensures forall j :: 1 <= j <= |t| ==> Opening(t, LetName, j).None?
  {
    assert t[1..] == "xlfn.LET (x,1,x)";
    forall j | 1 <= j <= |t| ensures Opening(t, LetName, j).None? {
      if j < |t| {
        assert t[j] == t[1..][j - 1];
      }
      UnderscoreOpening(t, LetName, j);
    }
  }

  lemma FirstLet(t: string)
    requires t == "_xlfn.LET (x,1,x)"
    ensures NextCall(t, LetName, 0) == Some(0)
  {
    OpensLet(t);
  }

  /** As written: the search from index 10 counts the parenthesis there
      and runs off the end. */
  lemma ShutAsWritten(t: string)
    requires t == "_xlfn.LET (x,1,x)"
    ensures Close(t, 10, 1) == None
  {
    CloseOpens(t, 10, 1);
    CloseSkip(t, 11, 16, 2);
  }

  lemma ClosedCorrected(t: string)
    requires t == "_xlfn.LET (x,1,x)"
    ensures Close(t, 11, 1) == Some(17)
  {
    CloseSkip(t, 11, 16, 1);
  }

  /** As written, the call is left as it is. */
  lemma LetSpaceAsWritten(t: string)
    requires t == "_xlfn.LET (x,1,x)"
    ensures Lets(t, AsWritten) == t
  {
    var sc := Scan(LetName, AsWritten, LetVars);
    FirstLet(t);
    OpensLet(t);
    assert LetEnd(t, 0, sc) == 10;
    ShutAsWritten(t);
    LetLoopSkips(t, 0, sc, 0);
    NoOtherLet(t);
    NoCallKeeps(t, 10, sc);
  }

  /** Corrected, the whole call is rewritten by `_add_xlpm_to_let_vars`. */
  lemma LetSpaceCorrected(t: string)
    requires t == "_xlfn.LET (x,1,x)"
    ensures Lets(t, Corrected) == LetVars(t)
  {
    var sc := Scan(LetName, Corrected, LetVars);
    FirstLet(t);
    OpensLet(t);
    assert LetEnd(t, 0, sc) == 11;
    ClosedCorrected(t);
    var y := LetVars(t[0..17]);
    assert t[0..17] == t && t[..0] == [] && t[17..] == [];
    assert t[..0] + y + t[17..] == y;
    LetLoopOpen(t, 0, sc, 0, 17, y, |y|);
    LetLoopAtEnd(y, sc);
  }

  /** The loop from the end of the text has nothing left to do. */
  lemma LetLoopAtEnd(t: string, sc: Scan)
    ensures LetLoop(t, |t|, sc) == t
  {
  }

  // ---------------------------------------------------------------------
  // What the corrected loop produces

  lemma LetMatch(x: string)
    requires x == "_xlfn.LET (x,1,x)"
    ensures MatchCall(LetName, x) == Some(Call("_xlfn.LET (", "x,1,x"))
  {
    assert x[..9] == LetName;
    SkipOne(x, 9);
    assert NoNewline(x[11..16]);
    MatchCallHit(LetName, x, 10);
    assert x[..11] == "_xlfn.LET (" && x[11..16] == "x,1,x";
  }

  lemma LetPieces(c: string)
    requires c == "x,1,x"
    ensures Pieces(c, 0, 0, 0) == ["x", "1", "x"]
  {
    PiecesSkip(c, 0, 1, 0, 0);
    assert Pieces(c, 1, 0, 0) == [c[0..1]] + Pieces(c, 2, 0, 2);
    PiecesSkip(c, 2, 3, 0, 2);
    assert Pieces(c, 3, 0, 2) == [c[2..3]] + Pieces(c, 4, 0, 4);
    PiecesSkip(c, 4, 5, 0, 4);
    assert Pieces(c, 5, 0, 4) == [c[4..]];
    assert c[0..1] == "x" && c[2..3] == "1" && c[4..] == "x";
  }

  lemma LetParts(c: string)
    requires c == "x,1,x"
    ensures Parts(c) == ["x", "1", "x"]
  {
    LetPieces(c);
    PartsClean(c, ["x", "1", "x"]);
  }

  lemma MarkX(e: string)
    requires e == "x"
    ensures MarkAll(e, ["x"]) == "_xlpm.x"
  {
    MarkAllOne(e, "x");
    assert MatchesAt(e, 0, Word("x"));
    MarkedStep(e, 0, Word("x"), Pm);
  }

  lemma LetBodyX(init: seq<string>, last: string)
    requires init == ["x", "1"] && last == "x"
    ensures LetBody(init, last) == ["_xlpm.x", "1", "_xlpm.x"]
  {
    assert init[2..] == [];
    assert Bind([], ["x"]) == [];
    assert MarkAll("1", []) == "1";
    assert Bind(init, []) == [Pm + "x"] + ["1"] + Bind([], [] + ["x"]);
    assert Pm + "x" == "_xlpm.x";
    assert LetNames(init) == ["x"];
    MarkX(last);
  }

  lemma JoinX(qs: seq<string>)
    requires qs == ["_xlpm.x", "1", "_xlpm.x"]
    ensures "_xlfn.LET (" + Join(qs, ",") + ")" == "_xlfn.LET (_xlpm.x,1,_xlpm.x)"
  {
    assert qs[1..] == ["1", "_xlpm.x"];
    assert qs[1..][1..] == ["_xlpm.x"];
    assert Join(qs[1..][1..], ",") == "_xlpm.x";
    assert Join(qs[1..], ",") == "1" + "," + "_xlpm.x";
    assert Join(qs, ",") == "_xlpm.x" + "," + ("1" + "," + "_xlpm.x");
  }

  /** Corrected, `x` gains `_xlpm.` where it is bound and where it is used. */
  lemma LetSpaceRewritten(x: string)
    requires x == "_xlfn.LET (x,1,x)"
    ensures LetVars(x) == "_xlfn.LET (_xlpm.x,1,_xlpm.x)"
  {
    var c := Call("_xlfn.LET (", "x,1,x");
    LetMatch(x);
    LetParts(c.content);
    var ps := ["x", "1", "x"];
    LetVarsRewrites(x, c, ps);
    assert ps[..2] == ["x", "1"];
    LetBodyX(ps[..2], ps[2]);
    JoinX(LetBody(ps[..2], ps[2]));
  }
}
