/** The two hand-written scanners of the legacy prefix pass: the closing
    parenthesis search (a counter started at one just after an opening
    parenthesis) and the argument splitter (a depth counter that may go
    negative, cutting at commas of depth zero and trimming every part).
    Both are related here to the running parenthesis balance `Net`. */
module Parens {
  import opened Text

  function Delta(c: char): int
  {
    if c == '(' then 1 else if c == ')' then -1 else 0
  }

  /** Opening minus closing parentheses in `x`. */
  function Net(x: string): int
    decreases |x|
  {
    if x == [] then 0 else Net(x[..|x| - 1]) + Delta(x[|x| - 1])
  }

  lemma NetSnoc(x: string, c: char)
    ensures Net(x + [c]) == Net(x) + Delta(c)
  {
    assert (x + [c])[..|x|] == x;
  }

  lemma {:induction false} NetCons(c: char, x: string)
    ensures Net([c] + x) == Delta(c) + Net(x)
    decreases |x|
  {
    if x != [] {
      var y := x[..|x| - 1];
      assert [c] + x == ([c] + y) + [x[|x| - 1]];
      assert x == y + [x[|x| - 1]];
      NetSnoc([c] + y, x[|x| - 1]);
      NetSnoc(y, x[|x| - 1]);
      NetCons(c, y);
    } else {
      NetSnoc([], c);
    }
  }

  lemma SliceCons(t: string, a: nat, b: nat)
    requires a < b <= |t|
    ensures t[a..b] == [t[a]] + t[a + 1..b]
  {
  }

  // ---------------------------------------------------------------------
  // The closing-parenthesis search

  /** Scan from `pos` with `count` parentheses open; the index just after
      the one that closes them all, if the text has it. */
  function Close(t: string, pos: nat, count: nat): (r: Option<nat>)
    requires pos <= |t| && count >= 1
    ensures r.Some? ==> pos < r.value <= |t| && t[r.value - 1] == ')'
    decreases |t| - pos
  {
    if pos == |t| then None
    else if t[pos] == '(' then Close(t, pos + 1, count + 1)
    else if t[pos] == ')' then
      if count == 1 then Some(pos + 1) else Close(t, pos + 1, count - 1)
    else Close(t, pos + 1, count)
  }

  /** The balance never falls to `-count` on `t[pos..q]` for `q` in `[pos, e)`. */
  predicate StaysOpen(t: string, pos: nat, e: nat, count: nat)
    requires pos <= e <= |t|
  {
    forall q :: pos <= q < e ==> Net(t[pos..q]) + count > 0
  }

  lemma StaysOpenStep(t: string, pos: nat, e: nat, count: nat, count': nat)
    requires pos < e <= |t| && count >= 1
    requires count' == count + Delta(t[pos])
    requires StaysOpen(t, pos + 1, e, count')
    ensures StaysOpen(t, pos, e, count)
  {
    forall q | pos <= q < e ensures Net(t[pos..q]) + count > 0 {
      if q > pos {
        SliceCons(t, pos, q);
        NetCons(t[pos], t[pos + 1..q]);
      }
    }
  }

  /** A search that succeeds stops at the first index where the balance
      since `pos` reaches `-count`. */
  lemma {:induction false} CloseFound(t: string, pos: nat, count: nat, r: nat)
    requires pos <= |t| && count >= 1
    requires Close(t, pos, count) == Some(r)
    ensures Net(t[pos..r]) + count == 0 && StaysOpen(t, pos, r, count)
    decreases |t| - pos
  {
    var c := t[pos];
    if c == ')' && count == 1 {
      assert t[pos..pos + 1] == [c];
      NetSnoc([], c);
    } else {
      var count' := count + Delta(c);
      CloseFound(t, pos + 1, count', r);
      StaysOpenStep(t, pos, r, count, count');
      SliceCons(t, pos, r);
      NetCons(c, t[pos + 1..r]);
    }
  }

  /** The span a successful search covers from just after an opening
      parenthesis: it ends with the parenthesis that closes that one. */
  lemma CloseSpan(t: string, e: nat, p: nat)
    requires e <= |t| && Close(t, e, 1) == Some(p)
    ensures e < p && t[p - 1] == ')' && Net(t[e..p]) == -1 && StaysOpen(t, e, p, 1)
  {
    CloseFound(t, e, 1, p);
  }

  /** Characters other than parentheses leave the search where it was. */
  lemma {:induction false} CloseSkip(t: string, pos: nat, j: nat, count: nat)
    requires pos <= j <= |t| && count >= 1
    requires forall k :: pos <= k < j ==> t[k] != '(' && t[k] != ')'
    ensures Close(t, pos, count) == Close(t, j, count)
    decreases j - pos
  {
    if pos < j {
      CloseSkip(t, pos + 1, j, count);
    }
  }

  /** An opening parenthesis adds one to the count. */
  lemma CloseOpens(t: string, pos: nat, count: nat)
    requires pos < |t| && count >= 1 && t[pos] == '('
    ensures Close(t, pos, count) == Close(t, pos + 1, count + 1)
  {
  }

  /** One more parenthesis open at the start carries the search past the
      one that closed them, on to the next closing one. */
  lemma {:induction false} CloseOneMore(t: string, a: nat, count: nat, p: nat)
    requires a <= |t| && count >= 1 && Close(t, a, count) == Some(p)
    ensures Close(t, a, count + 1) == Close(t, p, 1)
    decreases |t| - a
  {
    if t[a] == '(' {
      CloseOneMore(t, a + 1, count + 1, p);
    } else if t[a] == ')' {
      if count > 1 {
        CloseOneMore(t, a + 1, count - 1, p);
      }
    } else {
      CloseOneMore(t, a + 1, count, p);
    }
  }

  /** A search started before an opening parenthesis, with nothing but
      other characters in between, counts that parenthesis as well and so
      runs past the one that closes it. */
  lemma CloseBefore(t: string, w: nat, e: nat, p: nat)
    requires w < e <= |t| && t[e - 1] == '('
    requires forall k :: w <= k < e - 1 ==> t[k] != '(' && t[k] != ')'
    requires Close(t, e, 1) == Some(p)
    ensures Close(t, w, 1) == Close(t, p, 1) && Close(t, w, 1) != Some(p)
  {
    CloseSkip(t, w, e - 1, 1);
    CloseOpens(t, e - 1, 1);
    CloseOneMore(t, e, 1, p);
  }

  /** A search that fails never saw the balance reach `-count`. */
  lemma {:induction false} CloseMissing(t: string, pos: nat, count: nat)
    requires pos <= |t| && count >= 1
    requires Close(t, pos, count) == None
    ensures StaysOpen(t, pos, |t|, count) && Net(t[pos..]) + count > 0
    decreases |t| - pos
  {
    if pos == |t| {
      assert t[pos..] == [];
    } else {
      var c := t[pos];
      var count' := count + Delta(c);
      CloseMissing(t, pos + 1, count');
      StaysOpenStep(t, pos, |t|, count, count');
      SliceCons(t, pos, |t|);
      assert t[pos..] == t[pos..|t|] && t[pos + 1..] == t[pos + 1..|t|];
      NetCons(c, t[pos + 1..|t|]);
    }
  }

  // ---------------------------------------------------------------------
  // The argument splitter

  /** The raw pieces of `c[start..]`: the character loop from index `j` at
      depth `depth`, with the current piece begun at `start`. */
  function Pieces(c: string, j: nat, depth: int, start: nat): (r: seq<string>)
    requires start <= j <= |c|
    ensures |r| >= 1
    decreases |c| - j
  {
    if j == |c| then [c[start..]]
    else if c[j] == '(' then Pieces(c, j + 1, depth + 1, start)
    else if c[j] == ')' then Pieces(c, j + 1, depth - 1, start)
    else if c[j] == ',' && depth == 0 then [c[start..j]] + Pieces(c, j + 1, 0, j + 1)
    else Pieces(c, j + 1, depth, start)
  }

  /** A comma at index `i` of `x` with balanced parentheses before it. */
  predicate TopComma(x: string, i: nat)
    requires i < |x|
  {
    x[i] == ',' && Net(x[..i]) == 0
  }

  predicate NoTopComma(x: string)
  {
    forall i :: 0 <= i < |x| ==> !TopComma(x, i)
  }

  /** Every piece but the last closes all the parentheses it opens. */
  predicate Level(ps: seq<string>)
    decreases |ps|
  {
    |ps| <= 1 || (Net(ps[0]) == 0 && Level(ps[1..]))
  }

  /** No piece holds a comma at its own depth zero. */
  predicate Unsplit(ps: seq<string>)
    decreases |ps|
  {
    ps == [] || (NoTopComma(ps[0]) && Unsplit(ps[1..]))
  }

  lemma NoTopCommaStep(c: string, start: nat, j: nat, depth: int)
    requires start <= j < |c|
    requires depth == Net(c[start..j]) && NoTopComma(c[start..j])
    requires c[j] == ',' ==> depth != 0
    ensures NoTopComma(c[start..j + 1])
    ensures Net(c[start..j + 1]) == depth + Delta(c[j])
  {
    var x := c[start..j];
    assert c[start..j + 1] == x + [c[j]];
    NetSnoc(x, c[j]);
    var y := c[start..j + 1];
    forall i | 0 <= i < |y| ensures !TopComma(y, i) {
      assert y[..i] == x[..i];
      if i < |x| {
        assert !TopComma(x, i);
      }
    }
  }

  lemma JoinCut(piece: string, rest: seq<string>, c: string, start: nat, j: nat)
    requires start <= j < |c| && c[j] == ','
    requires piece == c[start..j]
    requires |rest| >= 1 && Join(rest, ",") == c[j + 1..]
    ensures Join([piece] + rest, ",") == c[start..]
  {
    CommaCut(c, start, j);
    JoinCons(piece, rest, ",");
  }

  lemma CommaCut(c: string, start: nat, j: nat)
    requires start <= j < |c| && c[j] == ','
    ensures c[start..] == c[start..j] + "," + c[j + 1..]
  {
    assert c[start..] == c[start..j] + [c[j]] + c[j + 1..];
  }

  lemma JoinCons(p: string, rest: seq<string>, sep: string)
    requires |rest| >= 1
    ensures Join([p] + rest, sep) == p + sep + Join(rest, sep)
  {
    assert ([p] + rest)[1..] == rest;
  }

  lemma PiecesCut(piece: string, rest: seq<string>)
    requires Net(piece) == 0 && NoTopComma(piece)
    requires |rest| >= 1 && Level(rest) && Unsplit(rest)
    ensures Level([piece] + rest) && Unsplit([piece] + rest)
  {
    assert ([piece] + rest)[1..] == rest;
  }

  /** Characters that neither nest nor cut leave the splitter where it was. */
  lemma {:induction false} PiecesSkip(c: string, j: nat, k: nat, depth: int, start: nat)
    requires start <= j <= k <= |c|
    requires forall q :: j <= q < k ==> c[q] != '(' && c[q] != ')' && (c[q] == ',' ==> depth != 0)
    ensures Pieces(c, j, depth, start) == Pieces(c, k, depth, start)
    decreases k - j
  {
    if j < k {
      PiecesSkip(c, j + 1, k, depth, start);
    }
  }

  /** The pieces, joined with commas, are the text again; every cut was at
      depth zero; and no piece holds a comma at depth zero. */
  lemma {:induction false} PiecesSpec(c: string, j: nat, depth: int, start: nat)
    requires start <= j <= |c|
    requires depth == Net(c[start..j]) && NoTopComma(c[start..j])
    ensures var ps := Pieces(c, j, depth, start);
            Join(ps, ",") == c[start..] && Level(ps) && Unsplit(ps)
    decreases |c| - j
  {
    if j == |c| {
      PiecesLast(c, start, depth);
    } else if c[j] == ',' && depth == 0 {
      assert NoTopComma(c[j + 1..j + 1]);
      NetSnoc([], ',');
      assert c[j + 1..j + 1] == [];
      PiecesSpec(c, j + 1, 0, j + 1);
      PiecesComma(c, j, start, Pieces(c, j + 1, 0, j + 1));
    } else {
      NoTopCommaStep(c, start, j, depth);
      PiecesSpec(c, j + 1, depth + Delta(c[j]), start);
      PiecesMove(c, j, depth, start);
    }
  }

  lemma PiecesLast(c: string, start: nat, depth: int)
    requires start <= |c| && NoTopComma(c[start..|c|])
    ensures var ps := Pieces(c, |c|, depth, start);
            Join(ps, ",") == c[start..] && Level(ps) && Unsplit(ps)
  {
    assert c[start..|c|] == c[start..];
    assert Unsplit([c[start..]][1..]);
  }

  lemma PiecesComma(c: string, j: nat, start: nat, rest: seq<string>)
    requires start <= j < |c| && c[j] == ','
    requires Net(c[start..j]) == 0 && NoTopComma(c[start..j])
    requires rest == Pieces(c, j + 1, 0, j + 1)
    requires Join(rest, ",") == c[j + 1..] && Level(rest) && Unsplit(rest)
    ensures var ps := Pieces(c, j, 0, start);
            Join(ps, ",") == c[start..] && Level(ps) && Unsplit(ps)
  {
    assert Pieces(c, j, 0, start) == [c[start..j]] + rest;
    JoinCut(c[start..j], rest, c, start, j);
    PiecesCut(c[start..j], rest);
  }

  lemma PiecesMove(c: string, j: nat, depth: int, start: nat)
    requires start <= j < |c| && (c[j] == ',' ==> depth != 0)
    ensures Pieces(c, j, depth, start) == Pieces(c, j + 1, depth + Delta(c[j]), start)
  {
  }

  /** `str.strip()` of every piece. */
  function Trimmed(ps: seq<string>): (r: seq<string>)
    ensures |r| == |ps|
    ensures forall k :: 0 <= k < |ps| ==> r[k] == Trim(ps[k])
  {
    if ps == [] then [] else [Trim(ps[0])] + Trimmed(ps[1..])
  }

  /** The splitter of `_add_xlpm_to_lambda_params` and `_add_xlpm_to_let_vars`:
      the trimmed pieces, where a last piece with no characters at all is
      not appended. */
  function Parts(c: string): seq<string>
  {
    var ps := Pieces(c, 0, 0, 0);
    var last := ps[|ps| - 1];
    Trimmed(ps[..|ps| - 1]) + (if last != [] then [Trim(last)] else [])
  }

  /** Two pieces, the last not empty, give two parts. */
  lemma PartsOfTwo(c: string, ps: seq<string>)
    requires ps == Pieces(c, 0, 0, 0) && |ps| == 2 && ps[1] != []
    ensures Parts(c) == [Trim(ps[0]), Trim(ps[1])]
  {
    assert ps[..1] == [ps[0]];
    assert Trimmed([ps[0]]) == [Trim(ps[0])];
  }

  /** A piece that is not empty and has no white space at either end. */
  predicate Clean(s: string)
  {
    s != [] && !IsSpace(s[0]) && !IsSpace(s[|s| - 1])
  }

  lemma {:induction false} TrimmedClean(ps: seq<string>)
    requires forall k :: 0 <= k < |ps| ==> Clean(ps[k])
    ensures Trimmed(ps) == ps
  {
    if ps != [] {
      var t := ps[1..];
      assert Trimmed(ps) == [Trim(ps[0])] + Trimmed(t);
      TrimClean(ps[0]);
      TrimmedClean(t);
      assert [ps[0]] + t == ps;
    }
  }

  lemma CleanPrefix(ps: seq<string>, n: nat)
    requires n <= |ps| && forall k :: 0 <= k < |ps| ==> Clean(ps[k])
    ensures Trimmed(ps[..n]) == ps[..n]
  {
    var init := ps[..n];
    assert forall k :: 0 <= k < |init| ==> Clean(init[k]) by {
      forall k | 0 <= k < |init| ensures Clean(init[k]) {
        assert init[k] == ps[k];
      }
    }
    TrimmedClean(init);
  }

  lemma CleanSplit(ps: seq<string>)
    requires |ps| >= 1 && forall k :: 0 <= k < |ps| ==> Clean(ps[k])
    ensures Trimmed(ps[..|ps| - 1]) + [Trim(ps[|ps| - 1])] == ps
  {
    var n := |ps| - 1;
    var last := ps[n];
    assert Clean(last);
    TrimClean(last);
    assert ps == ps[..n] + [last];
    CleanPrefix(ps, n);
  }

  /** Pieces that are neither empty nor padded are the parts as they are. */
  lemma PartsClean(c: string, ps: seq<string>)
    requires ps == Pieces(c, 0, 0, 0)
    requires forall k :: 0 <= k < |ps| ==> Clean(ps[k])
    ensures Parts(c) == ps
  {
    var n := |ps| - 1;
    assert Clean(ps[n]);
    assert Parts(c) == Trimmed(ps[..n]) + [Trim(ps[n])];
    CleanSplit(ps);
  }

  /** Every part is a trimmed top-level piece of the text. */
  lemma PartsSpec(c: string)
    ensures var ps := Pieces(c, 0, 0, 0);
            && Join(ps, ",") == c && Level(ps) && Unsplit(ps)
            && |Parts(c)| == (if ps[|ps| - 1] != [] then |ps| else |ps| - 1)
            && forall k :: 0 <= k < |Parts(c)| ==> Parts(c)[k] == Trim(ps[k])
  {
    assert NoTopComma(c[0..0]);
    assert c[0..0] == [];
    PiecesSpec(c, 0, 0, 0);
    assert c[0..] == c;
  }
}
