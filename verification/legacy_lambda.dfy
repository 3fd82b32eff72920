/** The LAMBDA part of the legacy prefix pass: `_add_xlpm_to_lambda_params`
    on one call, and the loop of `_process_lambda_function` that finds every
    `_xlfn.LAMBDA(` call, sorts the calls by length and rewrites them from
    the shortest up, keeping a list of positions up to date as the text
    changes length.

    As written, a rewrite shifts only the positions that start after the
    rewritten call; the end of a call that encloses it is left where it was.
    The corrected bookkeeping also moves that end (and shifts positions that
    start right at the end of the rewritten call). */
module LegacyLambda {
  import opened Text
  import opened Words
  import opened Parens
  import opened LegacyNames

  /** `re.match(r'(NAME\s*\()(.+)(\)$)', x)`: the head up to the opening
      parenthesis and the content before the final `)`. */
  datatype Call = Call(head: string, content: string)

  predicate NoNewline(x: string)
  {
    forall i :: 0 <= i < |x| ==> x[i] != '\n'
  }

  /** Where `(.+)(\)$)` ends the content when tried from `b`: before a
      final `)`, or before a `)` that a final newline follows. */
  function ContentEnd(x: string, b: nat): (r: Option<nat>)
    requires b <= |x|
    ensures r.Some? ==> b < r.value < |x| && x[r.value] == ')' && NoNewline(x[b..r.value])
    ensures r.Some? ==> x[r.value..] == ")" || x[r.value..] == ")\n"
  {
    if |x| >= b + 2 && x[|x| - 1] == ')' && NoNewline(x[b..|x| - 1]) then
      assert x[|x| - 1..] == [x[|x| - 1]];
      Some(|x| - 1)
    else if |x| >= b + 3 && x[|x| - 1] == '\n' && x[|x| - 2] == ')' && NoNewline(x[b..|x| - 2]) then
      assert x[|x| - 2..] == [x[|x| - 2], x[|x| - 1]];
      Some(|x| - 2)
    else None
  }

  /** The match, if any.  `.+` takes at least one character and no newline;
      `$` also matches before a final newline, which the caller then drops. */
  function MatchCall(name: string, x: string): (r: Option<Call>)
    ensures r.Some? ==> |r.value.content| > 0 && NoNewline(r.value.content)
    ensures r.Some? ==> |r.value.head| > |name| && StartsWith(r.value.head, name)
    ensures r.Some? ==> r.value.head[|r.value.head| - 1] == '('
  {
    if !StartsWith(x, name) then None
    else
      var h := SkipSpaces(x, |name|);
      if h == |x| || x[h] != '(' then None
      else
        match ContentEnd(x, h + 1)
        case Some(q) => Some(Call(x[..h + 1], x[h + 1..q]))
        case None => None
  }

  /** A match covers the whole text: head, content, then `)` with at most a
      newline after it. */
  lemma MatchCallCovers(name: string, x: string)
    requires MatchCall(name, x).Some?
    ensures var c := MatchCall(name, x).value;
            x == c.head + c.content + ")" || x == c.head + c.content + ")\n"
  {
    var h := SkipSpaces(x, |name|);
    var q := ContentEnd(x, h + 1).value;
    var c := MatchCall(name, x).value;
    ThreeCut(x, h + 1, q);
    assert c.head == x[..h + 1] && c.content == x[h + 1..q];
    CoverShape(x, c.head, c.content, x[q..]);
  }

  lemma CoverShape(x: string, head: string, content: string, tail: string)
    requires x == head + content + tail && (tail == ")" || tail == ")\n")
    ensures x == head + content + ")" || x == head + content + ")\n"
  {
  }

  lemma ThreeCut(x: string, a: nat, b: nat)
    requires a <= b <= |x|
    ensures x == x[..a] + x[a..b] + x[b..]
  {
  }

  /** The two outcomes of the match, for a text whose head is known. */
  lemma MatchCallHit(name: string, x: string, h: nat)
    requires StartsWith(x, name) && SkipSpaces(x, |name|) == h && h < |x| && x[h] == '('
    requires |x| >= h + 3 && x[|x| - 1] == ')' && NoNewline(x[h + 1..|x| - 1])
    ensures MatchCall(name, x) == Some(Call(x[..h + 1], x[h + 1..|x| - 1]))
  {
    ContentEndHit(x, h + 1);
  }

  lemma ContentEndHit(x: string, b: nat)
    requires |x| >= b + 2 && x[|x| - 1] == ')' && NoNewline(x[b..|x| - 1])
    ensures ContentEnd(x, b) == Some(|x| - 1)
  {
  }

  lemma MatchCallMiss(name: string, x: string, h: nat)
    requires StartsWith(x, name) && SkipSpaces(x, |name|) == h && h < |x| && x[h] == '('
    requires x[|x| - 1] != ')' && x[|x| - 1] != '\n'
    ensures MatchCall(name, x) == None
  {
    assert ContentEnd(x, h + 1) == None;
  }

  const LambdaName: string := "_xlfn.LAMBDA"

  /** `p` in front of every name. */
  function Prefix(p: string, names: seq<string>): (r: seq<string>)
    ensures |r| == |names|
    ensures forall k :: 0 <= k < |names| ==> r[k] == p + names[k]
  {
    if names == [] then [] else [p + names[0]] + Prefix(p, names[1..])
  }

  /** The rewritten call: the parameters with `_xlpm.`, then the body where
      every whole-word use of a parameter gets `_xlpm.` and the functions
      are tagged. */
  function Rewritten(c: Call, names: seq<string>, body: string, order: seq<string>, g: Guard): string
  {
    c.head + Join(Prefix(Pm, names), ",") + "," + TagText(MarkAll(body, names), order, g) + ")"
  }

  /** `_add_xlpm_to_lambda_params`: the parts before the last are the
      parameters, the last is the body. */
  function LambdaParams(x: string, order: seq<string>, g: Guard): (r: string)
    ensures MatchCall(LambdaName, x).None? ==> r == x
    ensures MatchCall(LambdaName, x).Some? && |Parts(MatchCall(LambdaName, x).value.content)| < 2 ==> r == x
  {
    match MatchCall(LambdaName, x)
    case None => x
    case Some(c) =>
      var ps := Parts(c.content);
      if |ps| < 2 then x else Rewritten(c, Trimmed(ps[..|ps| - 1]), ps[|ps| - 1], order, g)
  }

  /** The rewritten call opens with the head and the marked parameters. */
  lemma RewrittenStarts(c: Call, names: seq<string>, body: string, order: seq<string>, g: Guard)
    ensures StartsWith(Rewritten(c, names, body, order, g), c.head + Join(Prefix(Pm, names), ",") + ",")
  {
    var p := c.head + Join(Prefix(Pm, names), ",") + ",";
    assert Rewritten(c, names, body, order, g) == p + (TagText(MarkAll(body, names), order, g) + ")");
  }

  lemma MarkAllOne(e: string, n: string)
    requires WordName(n)
    ensures MarkAll(e, [n]) == Marked(e, 0, Word(n), Pm)
  {
    SubIsMarking(e, 0, Word(n), Pm);
    assert [n][1..] == [];
  }

  lemma RewrittenOne(c: Call, n: string, body: string, order: seq<string>, g: Guard)
    requires WordName(n)
    ensures Rewritten(c, [n], body, order, g)
         == c.head + Pm + n + "," + TagText(Marked(body, 0, Word(n), Pm), order, g) + ")"
  {
    MarkAllOne(body, n);
    assert Prefix(Pm, [n]) == [Pm + n];
    assert Join([Pm + n], ",") == Pm + n;
  }

  lemma LambdaParamsRewrites(x: string, c: Call, ps: seq<string>, order: seq<string>, g: Guard)
    requires MatchCall(LambdaName, x) == Some(c) && ps == Parts(c.content) && |ps| >= 2
    ensures LambdaParams(x, order, g) == Rewritten(c, Trimmed(ps[..|ps| - 1]), ps[|ps| - 1], order, g)
  {
  }

  /** A one-parameter LAMBDA: the parameter gets `_xlpm.`, and in the body
      `_xlpm.` goes in front of exactly the whole-word uses of it before the
      functions are tagged. */
  lemma LambdaOneParam(x: string, c: Call, ps: seq<string>, order: seq<string>, g: Guard)
    requires MatchCall(LambdaName, x) == Some(c) && ps == Parts(c.content)
    requires |ps| == 2 && WordName(Trim(ps[0]))
    ensures LambdaParams(x, order, g)
         == c.head + Pm + Trim(ps[0]) + "," + TagText(Marked(ps[1], 0, Word(Trim(ps[0])), Pm), order, g) + ")"
  {
    LambdaParamsRewrites(x, c, ps, order, g);
    assert ps[..1] == [ps[0]];
    RewrittenOne(c, Trim(ps[0]), ps[1], order, g);
  }

  /** A LAMBDA with any number of parameters: each parameter gets `_xlpm.`,
      and in the body `_xlpm.` goes in front of exactly the whole-word uses
      of each parameter, parameter by parameter, before the functions are
      tagged. */
  lemma LambdaParamsMarks(x: string, c: Call, ps: seq<string>, order: seq<string>, g: Guard)
    requires MatchCall(LambdaName, x) == Some(c) && ps == Parts(c.content) && |ps| >= 2
    requires forall k :: 0 <= k < |ps| - 1 ==> WordName(Trim(ps[k]))
    ensures var names := Trimmed(ps[..|ps| - 1]);
            LambdaParams(x, order, g) == c.head + Join(Prefix(Pm, names), ",") + ","
                                         + TagText(MarkedEach(ps[|ps| - 1], names), order, g) + ")"
  {
    var names := Trimmed(ps[..|ps| - 1]);
    LambdaParamsRewrites(x, c, ps, order, g);
    MarkAllIsMarking(ps[|ps| - 1], names);
  }

  // ---------------------------------------------------------------------
  // Finding the calls

  /** A position pair `[start, end)` in the text. */
  datatype Span = Span(start: nat, end: nat)

  type Interval = s: Span | s.start <= s.end witness Span(0, 0)

  function Len(s: Interval): nat
  {
    s.end - s.start
  }

  /** `NAME\s*\(` matches at `i` (NAME used literally). */
  predicate OpensAt(t: string, name: string, i: nat)
    requires i <= |t|
  {
    && StartsWith(t[i..], name)
    && SkipSpaces(t, i + |name|) < |t|
    && t[SkipSpaces(t, i + |name|)] == '('
  }

  /** The index just after the opening parenthesis, if a call opens at `i`. */
  function Opening(t: string, name: string, i: nat): (r: Option<nat>)
    requires i <= |t|
    ensures r.Some? ==> i + |name| < r.value <= |t| && t[r.value - 1] == '('
    ensures r.Some? <==> OpensAt(t, name, i)
  {
    if OpensAt(t, name, i) then Some(SkipSpaces(t, i + |name|) + 1) else None
  }

  /** Between the name and the parenthesis there is only white space. */
  lemma OpeningSpaces(t: string, name: string, i: nat)
    requires i <= |t| && Opening(t, name, i).Some?
    ensures forall k :: i + |name| <= k < Opening(t, name, i).value - 1 ==> IsSpace(t[k])
  {
    SkipSpacesOnlySpaces(t, i + |name|);
  }

  /** `re.finditer` over the text from `i`, keeping each call whose opening
      parenthesis is closed, with the index just after the closing one;
      the search resumes after the opening parenthesis. */
  function Found(t: string, i: nat): seq<Interval>
    requires i <= |t|
    decreases |t| - i
  {
    if i == |t| then []
    else match Opening(t, LambdaName, i)
      case Some(e) =>
        var close := Close(t, e, 1);
        (if close.Some? then [Span(i, close.value)] else []) + Found(t, e)
      case None => Found(t, i + 1)
  }

  /** No call starts where there is no underscore. */
  lemma {:induction false} FoundSkip(t: string, i: nat, j: nat)
    requires i <= j <= |t|
    requires forall k :: i <= k < j ==> t[k] != '_'
    ensures Found(t, i) == Found(t, j)
    decreases j - i
  {
    if i < j {
      assert Opening(t, LambdaName, i) == None by {
        assert t[i..][0] == t[i];
      }
      FoundSkip(t, i + 1, j);
    }
  }

  /** A call that opens at `i` and closes at `p` is found there. */
  lemma FoundOpen(t: string, i: nat, e: nat, p: nat)
    requires i < |t| && Opening(t, LambdaName, i) == Some(e) && Close(t, e, 1) == Some(p)
    ensures Found(t, i) == [Span(i, p)] + Found(t, e)
  {
  }

  // ---------------------------------------------------------------------
  // Sorting by length (`list.sort` with a key is stable)

  function InsertByLength(x: Interval, ys: seq<Interval>): (r: seq<Interval>)
    decreases |ys|
  {
    if ys == [] then [x]
    else if Len(x) < Len(ys[0]) then [x] + ys
    else [ys[0]] + InsertByLength(x, ys[1..])
  }

  function SortByLength(xs: seq<Interval>): seq<Interval>
    decreases |xs|
  {
    if xs == [] then [] else InsertByLength(xs[|xs| - 1], SortByLength(xs[..|xs| - 1]))
  }

  predicate Ascending(ys: seq<Interval>)
    decreases |ys|
  {
    |ys| <= 1 || (Len(ys[0]) <= Len(ys[1]) && Ascending(ys[1..]))
  }

  lemma {:induction false} InsertAscending(x: Interval, ys: seq<Interval>)
    requires Ascending(ys)
    ensures Ascending(InsertByLength(x, ys))
    ensures multiset(InsertByLength(x, ys)) == multiset(ys) + multiset{x}
    ensures |ys| > 0 ==> InsertByLength(x, ys)[0] == (if Len(x) < Len(ys[0]) then x else ys[0])
    decreases |ys|
  {
    if ys != [] && Len(x) >= Len(ys[0]) {
      InsertAscending(x, ys[1..]);
      assert ys == [ys[0]] + ys[1..];
      var r := InsertByLength(x, ys[1..]);
      assert ([ys[0]] + r)[1..] == r;
    }
  }

  /** The sort orders by length and keeps every call exactly once. */
  lemma {:induction false} SortByLengthSpec(xs: seq<Interval>)
    ensures Ascending(SortByLength(xs))
    ensures multiset(SortByLength(xs)) == multiset(xs)
    decreases |xs|
  {
    if xs != [] {
      var init := xs[..|xs| - 1];
      SortByLengthSpec(init);
      InsertAscending(xs[|xs| - 1], SortByLength(init));
      assert xs == init + [xs[|xs| - 1]];
    }
  }

  // ---------------------------------------------------------------------
  // Rewriting the calls

  datatype Bookkeeping = AsWritten | Corrected

  function Min(a: nat, b: nat): nat
  {
    if a < b then a else b
  }

  /** `t[a:b]` with Python's clipping of indices past the end. */
  function Slice(t: string, s: Interval): string
  {
    t[Min(s.start, |t|)..Min(s.end, |t|)]
  }

  /** `t[:start] + y + t[end:]`. */
  function Replace(t: string, s: Interval, y: string): string
  {
    t[..Min(s.start, |t|)] + y + t[Min(s.end, |t|)..]
  }

  /** Putting back what was there changes nothing. */
  lemma ReplaceBySlice(t: string, s: Interval)
    requires s.end <= |t|
    ensures Replace(t, s, Slice(t, s)) == t
  {
    assert t == t[..s.start] + t[s.start..s.end] + t[s.end..];
  }

  /** The span lies inside one already rewritten. */
  predicate Covered(s: Interval, done: seq<Interval>)
    decreases |done|
  {
    |done| > 0 && ((done[0].start <= s.start && s.end <= done[0].end) || Covered(s, done[1..]))
  }

  /** Where a recorded span goes once `cur` has been replaced by `n`
      characters. */
  function Shift(s: Interval, cur: Interval, n: nat, how: Bookkeeping): Interval
  {
    var after := match how
      case AsWritten => s.start > cur.end
      case Corrected => s.start >= cur.end;
    if after then Span(s.start - cur.end + cur.start + n, s.end - cur.end + cur.start + n)
    else if how == Corrected && s.start <= cur.start && cur.end <= s.end then
      Span(s.start, s.end - cur.end + cur.start + n)
    else s
  }

  function ShiftAll(ss: seq<Interval>, cur: Interval, n: nat, how: Bookkeeping): (r: seq<Interval>)
    ensures |r| == |ss|
    ensures forall k :: 0 <= k < |ss| ==> r[k] == Shift(ss[k], cur, n, how)
  {
    if ss == [] then [] else [Shift(ss[0], cur, n, how)] + ShiftAll(ss[1..], cur, n, how)
  }

  /** The loop over the sorted calls, with the rewritten ranges so far. */
  function Loop(t: string, pending: seq<Interval>, done: seq<Interval>, order: seq<string>,
                g: Guard, how: Bookkeeping): string
    decreases |pending|
  {
    if pending == [] then t
    else
      var cur := pending[0];
      if Covered(cur, done) then Loop(t, pending[1..], done, order, g, how)
      else
        var y := LambdaParams(Slice(t, cur), order, g);
        Loop(Replace(t, cur, y), ShiftAll(pending[1..], cur, |y|, how), Record(done, cur, |y|, how), order, g, how)
  }

  /** The rewritten ranges once `cur` has become `n` characters long: the
      corrected bookkeeping moves the earlier ones too. */
  function Record(done: seq<Interval>, cur: Interval, n: nat, how: Bookkeeping): seq<Interval>
  {
    (if how == Corrected then ShiftAll(done, cur, n, how) else done) + [Span(cur.start, cur.start + n)]
  }

  /** One rewriting step of the loop. */
  lemma LoopStep(t: string, pending: seq<Interval>, done: seq<Interval>, order: seq<string>,
                 g: Guard, how: Bookkeeping, y: string)
    requires pending != [] && !Covered(pending[0], done)
    requires y == LambdaParams(Slice(t, pending[0]), order, g)
    ensures Loop(t, pending, done, order, g, how)
         == Loop(Replace(t, pending[0], y), ShiftAll(pending[1..], pending[0], |y|, how),
                 Record(done, pending[0], |y|, how), order, g, how)
  {
  }

  lemma LoopEnd(t: string, done: seq<Interval>, order: seq<string>, g: Guard, how: Bookkeeping)
    ensures Loop(t, [], done, order, g, how) == t
  {
  }

  /** A last pending call covering the whole text rewrites the whole text. */
  lemma LoopWhole(t: string, s: Interval, done: seq<Interval>, order: seq<string>, g: Guard, how: Bookkeeping, r: string)
    requires s == Span(0, |t|) && !Covered(s, done) && r == LambdaParams(t, order, g)
    ensures Loop(t, [s], done, order, g, how) == r
  {
    WholeSpan(t, s, r);
    LoopStep(t, [s], done, order, g, how, r);
    LoopLast(r, s, done, order, g, how);
  }

  /** The whole text as a span: its slice is the text, and replacing it
      leaves only the replacement. */
  lemma WholeSpan(t: string, s: Interval, r: string)
    requires s == Span(0, |t|)
    ensures Slice(t, s) == t && Replace(t, s, r) == r
  {
    assert t[0..|t|] == t;
    assert t[|t|..] == [] && t[..0] == [];
  }

  lemma LoopLast(r: string, s: Interval, done: seq<Interval>, order: seq<string>, g: Guard, how: Bookkeeping)
    ensures Loop(r, ShiftAll([s][1..], s, |r|, how), Record(done, s, |r|, how), order, g, how) == r
  {
    assert [s][1..] == [];
  }

  /** The LAMBDA stage of `_process_lambda_function`. */
  function Lambdas(t: string, order: seq<string>, g: Guard, how: Bookkeeping): string
  {
    Loop(t, SortByLength(Found(t, 0)), [], order, g, how)
  }

  // ---------------------------------------------------------------------
  // The bookkeeping

  /** Two calls found in one text are disjoint or nested. */
  predicate Laminar(s: Interval, cur: Interval)
  {
    s.end <= cur.start || cur.end <= s.start || (s.start <= cur.start && cur.end <= s.end)
  }

  predicate Encloses(s: Interval, cur: Interval)
  {
    s.start <= cur.start && cur.end <= s.end
  }

  lemma SpliceParts(t: string, cur: Interval, y: string)
    requires cur.end <= |t|
    ensures |Replace(t, cur, y)| == |t| - Len(cur) + |y|
    ensures Replace(t, cur, y) == t[..cur.start] + y + t[cur.end..]
  {
  }

  lemma ShiftBefore(t: string, cur: Interval, y: string, s: Interval)
    requires cur.start < cur.end <= |t| && s.start < s.end <= cur.start
    ensures Shift(s, cur, |y|, Corrected) == s
    ensures Replace(t, cur, y)[s.start..s.end] == t[s.start..s.end]
  {
    SpliceParts(t, cur, y);
  }

  lemma ShiftAfter(t: string, cur: Interval, y: string, s: Interval)
    requires cur.start < cur.end <= s.start < s.end <= |t|
    ensures var s' := Shift(s, cur, |y|, Corrected);
            s'.end <= |Replace(t, cur, y)| && Replace(t, cur, y)[s'.start..s'.end] == t[s.start..s.end]
  {
    SpliceParts(t, cur, y);
    var t' := Replace(t, cur, y);
    var d := cur.start + |y|;
    assert t'[d..] == t[cur.end..];
    var s' := Shift(s, cur, |y|, Corrected);
    assert t'[s'.start..s'.end] == t'[d..][s.start - cur.end..s.end - cur.end];
  }

  lemma ShiftAround(t: string, cur: Interval, y: string, s: Interval)
    requires s.start <= cur.start < cur.end <= s.end <= |t|
    ensures var s' := Shift(s, cur, |y|, Corrected);
            s'.end <= |Replace(t, cur, y)|
            && Replace(t, cur, y)[s'.start..s'.end] == t[s.start..cur.start] + y + t[cur.end..s.end]
  {
    SpliceParts(t, cur, y);
    var t' := Replace(t, cur, y);
    assert t'[s.start..] == t[s.start..cur.start] + y + t[cur.end..];
  }

  /** With the corrected bookkeeping every pending call still covers the
      same text after a rewrite: unchanged when it lies before or after the
      rewritten call, and with the rewritten text inside when it encloses
      it.  So its first characters are still `_xlfn.LAMBDA(` and its last is
      still its own closing parenthesis. */
  lemma ShiftKeepsSpan(t: string, cur: Interval, y: string, s: Interval)
    requires cur.start < cur.end <= |t| && s.start < s.end <= |t| && Laminar(s, cur)
    ensures var t' := Replace(t, cur, y);
            var s' := Shift(s, cur, |y|, Corrected);
            && s'.end <= |t'|
            && t'[s'.start..s'.end] == (if Encloses(s, cur) then t[s.start..cur.start] + y + t[cur.end..s.end]
                                        else t[s.start..s.end])
  {
    if s.end <= cur.start {
      ShiftBefore(t, cur, y, s);
    } else if cur.end <= s.start {
      ShiftAfter(t, cur, y, s);
    } else {
      ShiftAround(t, cur, y, s);
    }
  }

  /** As written, a call that encloses a rewritten call which grew keeps its
      old end, so what it covers afterwards is what it should cover cut
      short by exactly the growth. */
  lemma StaleEnclosingSpan(t: string, cur: Interval, y: string, s: Interval)
    requires cur.start < cur.end <= |t| && s.start < s.end <= |t|
    requires s.start < cur.start && cur.end < s.end
    requires |y| > Len(cur)
    ensures var t' := Replace(t, cur, y);
            var intended := t[s.start..cur.start] + y + t[cur.end..s.end];
            && Shift(s, cur, |y|, AsWritten) == s
            && Slice(t', s) == intended[..Len(s)]
            && |intended| == Len(s) + |y| - Len(cur)
  {
    SpliceParts(t, cur, y);
    var t' := Replace(t, cur, y);
    var intended := t[s.start..cur.start] + y + t[cur.end..s.end];
    assert t'[s.start..] == t[s.start..cur.start] + y + t[cur.end..];
    assert Slice(t', s) == t'[s.start..][..Len(s)];
  }
}
