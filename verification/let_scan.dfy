/** The loop of `_process_let_variables`: find each call left to right,
    rewrite it when its parenthesis is closed and resume after the
    rewrite, or resume at `let_end` when it is not.  The loop is stated
    for any call name and any rewrite of one call; the LET pass itself
    instantiates it with `_xlfn.LET` and `_add_xlpm_to_let_vars`.

    As written, the parenthesis search starts `len('_xlfn.LET(')`
    characters after the start of the call, wherever the pattern's `\s*`
    actually put the parenthesis; the corrected loop starts it just after
    the parenthesis the pattern matched. */
module LetScan {
  import opened Text
  import opened Words
  import opened Parens
  import opened LegacyLambda

  /** What the loop of `_process_let_variables` runs with: the name of the
      calls it looks for, where it starts each parenthesis search, and the
      rewrite of one call. */
  datatype Scan = Scan(name: string, how: Bookkeeping, rw: string -> string)

  /** `re.search(r'NAME\s*\(', t[i:])`: where the first call opens. */
  function NextCall(t: string, name: string, i: nat): (r: Option<nat>)
    requires i <= |t|
    ensures r.Some? ==> i <= r.value < |t| && Opening(t, name, r.value).Some?
    decreases |t| - i
  {
    if i == |t| then None
    else if Opening(t, name, i).Some? then Some(i)
    else NextCall(t, name, i + 1)
  }

  /** The search finds the first call. */
  lemma {:induction false} NextCallFirst(t: string, name: string, i: nat, ls: nat)
    requires i <= |t| && NextCall(t, name, i) == Some(ls)
    ensures forall j :: i <= j < ls ==> Opening(t, name, j).None?
    decreases |t| - i
  {
    if i < ls {
      NextCallFirst(t, name, i + 1, ls);
    }
  }

  /** The search finds nothing exactly when no call opens from `i` on. */
  lemma {:induction false} NextCallNone(t: string, name: string, i: nat)
    requires i <= |t|
    ensures NextCall(t, name, i).None? <==> forall j :: i <= j <= |t| ==> Opening(t, name, j).None?
    decreases |t| - i
  {
    if i < |t| && Opening(t, name, i).None? {
      NextCallNone(t, name, i + 1);
    }
  }

  /** `let_end`, where the search for the closing parenthesis starts: as
      written, `len('_xlfn.LET(')` characters after the start of the call;
      corrected, the end of the pattern's match. */
  function LetEnd(t: string, ls: nat, sc: Scan): (r: nat)
    requires ls <= |t| && Opening(t, sc.name, ls).Some?
    ensures ls < r <= |t|
  {
    match sc.how
    case AsWritten => ls + |sc.name| + 1
    case Corrected => Opening(t, sc.name, ls).value
  }

  /** One round for the call at `ls`: the text and where the search
      resumes.  A call whose parenthesis is closed is rewritten and the
      search resumes after the rewrite; otherwise it resumes at `let_end`. */
  function Round(t: string, ls: nat, sc: Scan): (r: (string, nat))
    requires ls <= |t| && Opening(t, sc.name, ls).Some?
    ensures ls <= r.1 <= |r.0| && |r.0| - r.1 < |t| - ls
    ensures r.0[..ls] == t[..ls]
  {
    var e := LetEnd(t, ls, sc);
    match Close(t, e, 1)
    case None => (t, e)
    case Some(p) => Replaced(t, ls, p, sc.rw(t[ls..p]))
  }

  /** `t[ls:p]` replaced by `y`, with the index just after `y`. */
  function Replaced(t: string, ls: nat, p: nat, y: string): (r: (string, nat))
    requires ls < p <= |t|
    ensures r.0 == t[..ls] + y + t[p..] && r.1 == ls + |y|
    ensures ls <= r.1 <= |r.0| && |r.0| - r.1 == |t| - p && r.0[..ls] == t[..ls]
  {
    assert (t[..ls] + y + t[p..])[..ls] == t[..ls];
    (t[..ls] + y + t[p..], ls + |y|)
  }

  /** The `while True` loop from `start`. */
  function LetLoop(t: string, start: nat, sc: Scan): string
    requires start <= |t|
    decreases |t| - start
  {
    match NextCall(t, sc.name, start)
    case None => t
    case Some(ls) =>
      var r := Round(t, ls, sc);
      LetLoop(r.0, r.1, sc)
  }

  // ---------------------------------------------------------------------
  // Properties of the loop

  /** A text in which no call opens from `start` on is left as it is. */
  lemma NoCallKeeps(t: string, start: nat, sc: Scan)
    requires start <= |t| && forall j :: start <= j <= |t| ==> Opening(t, sc.name, j).None?
    ensures LetLoop(t, start, sc) == t
  {
    NextCallNone(t, sc.name, start);
  }

  lemma LetLoopStep(t: string, start: nat, sc: Scan, ls: nat)
    requires start <= |t| && NextCall(t, sc.name, start) == Some(ls)
    ensures LetLoop(t, start, sc) == LetLoop(Round(t, ls, sc).0, Round(t, ls, sc).1, sc)
  {
  }

  /** The text before `start` is never touched. */
  lemma {:induction false} LetLoopKeeps(t: string, start: nat, sc: Scan)
    requires start <= |t|
    ensures |LetLoop(t, start, sc)| >= start && LetLoop(t, start, sc)[..start] == t[..start]
    decreases |t| - start
  {
    match NextCall(t, sc.name, start)
    case None =>
    case Some(ls) =>
      var r := Round(t, ls, sc);
      LetLoopStep(t, start, sc, ls);
      LetLoopKeeps(r.0, r.1, sc);
      PrefixKept(t, r.0, LetLoop(r.0, r.1, sc), start, ls, r.1);
  }

  lemma PrefixKept(t: string, t': string, u: string, start: nat, ls: nat, e: nat)
    requires start <= ls <= |t| && ls <= e <= |t'| && e <= |u|
    requires t'[..ls] == t[..ls] && u[..e] == t'[..e]
    ensures u[..start] == t[..start]
  {
    assert u[..start] == u[..e][..start];
    assert t'[..start] == t'[..ls][..start];
    assert t[..start] == t[..ls][..start];
  }

  lemma {:induction false} LetLoopOpen(t: string, start: nat, sc: Scan, ls: nat, p: nat, t': string, n: nat)
    requires start <= |t| && NextCall(t, sc.name, start) == Some(ls)
    requires Close(t, LetEnd(t, ls, sc), 1) == Some(p)
    requires t' == t[..ls] + sc.rw(t[ls..p]) + t[p..] && n == ls + |sc.rw(t[ls..p])|
    ensures n <= |t'| && LetLoop(t, start, sc) == LetLoop(t', n, sc)
  {
    LetLoopStep(t, start, sc, ls);
  }

  /** The first call from `start` whose parenthesis is not closed is left
      as it is, and the search resumes at `let_end`. */
  lemma LetLoopSkips(t: string, start: nat, sc: Scan, ls: nat)
    requires start <= |t| && NextCall(t, sc.name, start) == Some(ls)
    requires Close(t, LetEnd(t, ls, sc), 1) == None
    ensures LetLoop(t, start, sc) == LetLoop(t, LetEnd(t, ls, sc), sc)
  {
    LetLoopStep(t, start, sc, ls);
  }

  /** The first call from `start` whose parenthesis is closed at `p` is
      replaced by its rewrite, and the loop never comes back to the text
      up to the end of the rewrite: a call nested in it is not processed
      on its own. */
  lemma {:induction false} LetLoopRewrites(t: string, start: nat, sc: Scan, ls: nat, p: nat)
    requires start <= |t| && NextCall(t, sc.name, start) == Some(ls)
    requires Close(t, LetEnd(t, ls, sc), 1) == Some(p)
    ensures var y := sc.rw(t[ls..p]);
            && |LetLoop(t, start, sc)| >= ls + |y|
            && LetLoop(t, start, sc)[..ls + |y|] == t[..ls] + y
  {
    var y := sc.rw(t[ls..p]);
    var t' := t[..ls] + y + t[p..];
    GluedHead(t', t[..ls], y, t[p..]);
    LetLoopOpen(t, start, sc, ls, p, t', ls + |y|);
    LetLoopKeeps(t', ls + |y|, sc);
  }

  /** `a + y + b` starts with `a + y`. */
  lemma GluedHead(t: string, a: string, y: string, b: string)
    requires t == a + y + b
    ensures |t| >= |a| + |y| && t[..|a| + |y|] == a + y
  {
  }

  // ---------------------------------------------------------------------
  // Where the parenthesis search starts

  /** As written: in a call with white space before its parenthesis the
      search starts on that white space, counts the call's own opening
      parenthesis a second time, and so never stops at the parenthesis
      that closes the call. */
  lemma {:induction false} LetSpaceMisses(t: string, ls: nat, sc: Scan, p: nat)
    requires sc.how == AsWritten
    requires ls <= |t| && Opening(t, sc.name, ls).Some?
    requires Opening(t, sc.name, ls).value > ls + |sc.name| + 1
    requires Close(t, Opening(t, sc.name, ls).value, 1) == Some(p)
    ensures Close(t, LetEnd(t, ls, sc), 1) == Close(t, p, 1)
    ensures Close(t, LetEnd(t, ls, sc), 1) != Some(p)
  {
    var e := Opening(t, sc.name, ls).value;
    var w := ls + |sc.name| + 1;
    assert LetEnd(t, ls, sc) == w;
    OpeningSpaces(t, sc.name, ls);
    assert forall k :: w <= k < e - 1 ==> t[k] != '(' && t[k] != ')';
    CloseBefore(t, w, e, p);
  }

  /** Corrected: the search starts just after the call's own parenthesis,
      so a rewritten span runs from the call's start to the parenthesis
      that closes it: the balance stays open inside and closes at `p`. */
  lemma LetSpanCloses(t: string, ls: nat, sc: Scan, p: nat)
    requires sc.how == Corrected
    requires ls <= |t| && Opening(t, sc.name, ls).Some?
    requires Close(t, LetEnd(t, ls, sc), 1) == Some(p)
    ensures LetEnd(t, ls, sc) == Opening(t, sc.name, ls).value
    ensures var e := LetEnd(t, ls, sc);
            t[p - 1] == ')' && Net(t[e..p]) == -1 && StaysOpen(t, e, p, 1)
  {
    CloseSpan(t, LetEnd(t, ls, sc), p);
  }
}
