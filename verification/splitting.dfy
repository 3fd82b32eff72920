/** Splitting the argument list of a call at its top-level commas, as the
    three hand-written scanners of the rewriter do (`_parse_lambda_content`,
    `_parse_let_content`, `_split_function_args`).  All three walk from just
    after the opening `(`, track the parenthesis depth, cut at commas of depth
    zero and stop at the `)` of depth zero; they differ only in what they do
    with the pieces, so the cutting is defined once (`Scan`) and each scanner
    is a view of its result. */
module Splitting {
  import opened Text

  /** The raw pieces between top-level commas, the index where scanning
      stopped (the closing `)` or the end of the text), and whether the call
      was closed. */
  datatype Cut = Cut(pieces: seq<string>, end: nat, closed: bool)

  function Max(a: nat, b: nat): nat
  {
    if a < b then b else a
  }

  /** The length of the longest piece (0 for none). */
  function Longest(xs: seq<string>): nat
  {
    if xs == [] then 0 else Max(|xs[0]|, Longest(xs[1..]))
  }

  lemma {:induction false} LongestBound(xs: seq<string>, k: nat)
    requires k < |xs|
    ensures |xs[k]| <= Longest(xs)
  {
    if k > 0 {
      LongestBound(xs[1..], k - 1);
    }
  }

  lemma {:induction false} LongestPrefix(xs: seq<string>, n: nat)
    requires n <= |xs|
    ensures Longest(xs[..n]) <= Longest(xs)
  {
    if n > 0 {
      assert xs[..n][1..] == xs[1..][..n - 1];
      LongestPrefix(xs[1..], n - 1);
    }
  }

  /** Scan from index `j` at parenthesis depth `depth`; the current piece
      began at `start`. */
  function Scan(s: string, j: nat, depth: nat, start: nat): (r: Cut)
    requires start <= j <= |s|
    ensures |r.pieces| >= 1
    ensures j <= r.end <= |s|
    ensures r.closed ==> r.end < |s| && s[r.end] == ')'
    ensures !r.closed ==> r.end == |s|
    decreases |s| - j
  {
    if j == |s| then Cut([s[start..]], |s|, false)
    else if s[j] == '(' then Scan(s, j + 1, depth + 1, start)
    else if s[j] == ')' then
      if depth == 0 then Cut([s[start..j]], j, true)
      else Scan(s, j + 1, depth - 1, start)
    else if s[j] == ',' && depth == 0 then
      var r := Scan(s, j + 1, 0, j + 1);
      Cut([s[start..j]] + r.pieces, r.end, r.closed)
    else Scan(s, j + 1, depth, start)
  }

  /** No piece is longer than the text scanned. */
  lemma {:induction false} ScanLongest(s: string, j: nat, depth: nat, start: nat)
    requires start <= j <= |s|
    ensures Longest(Scan(s, j, depth, start).pieces) <= |s| - start
    decreases |s| - j
  {
    if j == |s| {
    } else if s[j] == '(' {
      ScanLongest(s, j + 1, depth + 1, start);
    } else if s[j] == ')' {
      if depth != 0 {
        ScanLongest(s, j + 1, depth - 1, start);
      }
    } else if s[j] == ',' && depth == 0 {
      var r := Scan(s, j + 1, 0, j + 1);
      ScanLongest(s, j + 1, 0, j + 1);
      assert ([s[start..j]] + r.pieces)[1..] == r.pieces;
    } else {
      ScanLongest(s, j + 1, depth, start);
    }
  }

  /** The argument list of the call whose `(` is just before index `start`. */
  function CutAt(s: string, start: nat): Cut
    requires start <= |s|
  {
    Scan(s, start, 0, start)
  }

  lemma JoinCons(a: string, rest: seq<string>, sep: string)
    requires |rest| >= 1
    ensures Join([a] + rest, sep) == a + sep + Join(rest, sep)
  {
    assert ([a] + rest)[1..] == rest;
  }

  lemma SliceAround(s: string, a: nat, j: nat, b: nat)
    requires a <= j < b <= |s|
    ensures s[a..b] == s[a..j] + [s[j]] + s[j + 1..b]
  {
  }

  /** The pieces, joined with commas again, are exactly the text scanned. */
  lemma {:induction false} ScanJoin(s: string, j: nat, depth: nat, start: nat)
    requires start <= j <= |s|
    ensures Join(Scan(s, j, depth, start).pieces, ",") == s[start..Scan(s, j, depth, start).end]
    decreases |s| - j
  {
    if j == |s| {
    } else if s[j] == '(' {
      ScanJoin(s, j + 1, depth + 1, start);
    } else if s[j] == ')' {
      if depth != 0 {
        ScanJoin(s, j + 1, depth - 1, start);
      }
    } else if s[j] == ',' && depth == 0 {
      var r := Scan(s, j + 1, 0, j + 1);
      ScanJoin(s, j + 1, 0, j + 1);
      JoinCons(s[start..j], r.pieces, ",");
      SliceAround(s, start, j, r.end);
    } else {
      ScanJoin(s, j + 1, depth, start);
    }
  }

  /** `''.join(current).strip()` for every piece whose characters were
      collected, i.e. every non-empty piece. */
  function Kept(pieces: seq<string>): (r: seq<string>)
    ensures |r| <= |pieces|
    ensures Longest(r) <= Longest(pieces)
  {
    if pieces == [] then []
    else
      var rest := Kept(pieces[1..]);
      if pieces[0] != [] then
        assert ([Trim(pieces[0])] + rest)[1..] == rest;
        [Trim(pieces[0])] + rest
      else rest
  }

  /** Without empty pieces, every piece is kept, stripped. */
  lemma {:induction false} KeptAll(pieces: seq<string>)
    requires forall k :: 0 <= k < |pieces| ==> pieces[k] != []
    ensures |Kept(pieces)| == |pieces|
    ensures forall k :: 0 <= k < |pieces| ==> Kept(pieces)[k] == Trim(pieces[k])
  {
    if pieces != [] {
      KeptAll(pieces[1..]);
    }
  }

  /** `_parse_lambda_content`: stripped non-empty pieces; when the call is
      not closed the trailing piece is lost. */
  function LambdaArgs(c: Cut): (r: seq<string>)
    requires |c.pieces| >= 1
    ensures Longest(r) <= Longest(c.pieces)
  {
    LongestPrefix(c.pieces, |c.pieces| - 1);
    Kept(if c.closed then c.pieces else c.pieces[..|c.pieces| - 1])
  }

  /** `_parse_let_content`: stripped non-empty pieces, including an
      unclosed trailing one. */
  function LetArgs(c: Cut): (r: seq<string>)
    ensures Longest(r) <= Longest(c.pieces)
  {
    Kept(c.pieces)
  }

  /** Keeping distributes over the parts of a list of pieces. */
  lemma {:induction false} KeptAppend(a: seq<string>, b: seq<string>)
    ensures Kept(a + b) == Kept(a) + Kept(b)
    decreases |a|
  {
    if a != [] {
      assert (a + b)[1..] == a[1..] + b;
      KeptAppend(a[1..], b);
    } else {
      assert a + b == b;
    }
  }

  /** The two parsers agree on a closed call; on one left open, the LET
      parser keeps the trailing piece (stripped, when it has characters)
      that the LAMBDA parser loses. */
  lemma LambdaLetArgs(c: Cut)
    requires |c.pieces| >= 1
    ensures c.closed ==> LambdaArgs(c) == LetArgs(c)
    ensures !c.closed ==>
              var last := c.pieces[|c.pieces| - 1];
              LetArgs(c) == LambdaArgs(c) + (if last != [] then [Trim(last)] else [])
  {
    var n := |c.pieces|;
    if !c.closed {
      assert c.pieces == c.pieces[..n - 1] + [c.pieces[n - 1]];
      KeptAppend(c.pieces[..n - 1], [c.pieces[n - 1]]);
      assert [c.pieces[n - 1]][1..] == [];
    }
  }

  /** `_split_function_args`: pieces verbatim; every piece before a comma is
      kept even when empty, the last only when the call is closed and the
      piece is not empty. */
  function CallArgs(c: Cut): (r: seq<string>)
    requires |c.pieces| >= 1
    ensures |r| == |c.pieces| - 1 || (|r| == |c.pieces| && c.closed)
    ensures forall k :: 0 <= k < |r| ==> r[k] == c.pieces[k]
  {
    var n := |c.pieces|;
    c.pieces[..n - 1] + (if c.closed && c.pieces[n - 1] != [] then [c.pieces[n - 1]] else [])
  }

  /** For a closed call whose last argument is not empty, the arguments
      joined with commas give back the text between the parentheses. */
  lemma CallArgsJoin(s: string, start: nat)
    requires start <= |s|
    requires CutAt(s, start).closed && CutAt(s, start).pieces[|CutAt(s, start).pieces| - 1] != []
    ensures Join(CallArgs(CutAt(s, start)), ",") == s[start..CutAt(s, start).end]
  {
    var c := CutAt(s, start);
    assert CallArgs(c) == c.pieces;
    ScanJoin(s, start, 0, start);
  }

  /** Where the `k`-th piece begins in the pieces joined with commas. */
  function Offset(pieces: seq<string>, k: nat): nat
    requires k <= |pieces|
  {
    if k == 0 then 0 else Offset(pieces, k - 1) + |pieces[k - 1]| + 1
  }

  /** Offsets after the first piece are offsets in the rest, shifted. */
  lemma {:induction false} OffsetTail(pieces: seq<string>, k: nat)
    requires 0 < k <= |pieces|
    ensures Offset(pieces, k) == |pieces[0]| + 1 + Offset(pieces[1..], k - 1)
  {
    if k > 1 {
      OffsetTail(pieces, k - 1);
      assert pieces[1..][k - 2] == pieces[k - 1];
    }
  }

  /** A slice of the right operand of a concatenation. */
  lemma SliceRight(x: string, y: string, a: nat, b: nat)
    requires a <= b <= |y|
    ensures (x + y)[|x| + a..|x| + b] == y[a..b]
  {
  }

  /** Joining at least two pieces puts the first, a comma, and the rest. */
  lemma JoinHead(pieces: seq<string>)
    requires |pieces| > 1
    ensures Join(pieces, ",") == pieces[0] + ([','] + Join(pieces[1..], ","))
  {
  }

  /** In the joined text, the `k`-th piece sits at its offset. */
  lemma {:induction false} JoinPiece(pieces: seq<string>, k: nat)
    requires k < |pieces|
    ensures Offset(pieces, k) + |pieces[k]| <= |Join(pieces, ",")|
    ensures Join(pieces, ",")[Offset(pieces, k)..Offset(pieces, k) + |pieces[k]|] == pieces[k]
  {
    if |pieces| > 1 {
      var rest := Join(pieces[1..], ",");
      JoinHead(pieces);
      if k > 0 {
        JoinPiece(pieces[1..], k - 1);
        OffsetTail(pieces, k);
        var o := Offset(pieces[1..], k - 1);
        assert pieces[1..][k - 1] == pieces[k];
        SliceRight(pieces[0] + [','], rest, o, o + |pieces[k]|);
      }
    }
  }

  /** ... and is followed by a comma unless it is the last one. */
  lemma {:induction false} JoinComma(pieces: seq<string>, k: nat)
    requires k + 1 < |pieces|
    ensures Offset(pieces, k) + |pieces[k]| < |Join(pieces, ",")|
    ensures Join(pieces, ",")[Offset(pieces, k) + |pieces[k]|] == ','
  {
    var rest := Join(pieces[1..], ",");
    JoinHead(pieces);
    if k > 0 {
      JoinComma(pieces[1..], k - 1);
      OffsetTail(pieces, k);
      assert pieces[1..][k - 1] == pieces[k];
    }
  }

  /** Each piece of a scan is the text at its offset from the scan's start,
      and all but the last are followed by a top-level comma. */
  lemma PieceAt(s: string, start: nat, ps: seq<string>, k: nat)
    requires start <= |s| && ps == CutAt(s, start).pieces && k < |ps|
    ensures start + Offset(ps, k) + |ps[k]| <= |s|
    ensures s[start + Offset(ps, k)..start + Offset(ps, k) + |ps[k]|] == ps[k]
    ensures k + 1 < |ps| ==> start + Offset(ps, k) + |ps[k]| < |s|
                             && s[start + Offset(ps, k) + |ps[k]|] == ','
  {
    var e := CutAt(s, start).end;
    ScanJoin(s, start, 0, start);
    JoinPiece(ps, k);
    if k + 1 < |ps| {
      JoinComma(ps, k);
    }
    var o := Offset(ps, k);
    SliceOfSlice(s, start, e, o, o + |ps[k]|);
    if k + 1 < |ps| {
      assert s[start..e][o + |ps[k]|] == s[start + o + |ps[k]|];
    }
  }
}
