/** Masking of string and array literals (`_protect_string_literals`,
    `_protect_array_literals`) and their restoration (`_restore_*`).

    A literal is replaced by a placeholder drawn from a token oracle
    `tok: nat -> string` (the `k`-th literal gets `tok(k)`), and the
    placeholder-to-literal table is kept in insertion order.  Restoration
    applies `str.replace(placeholder, literal)` for every entry in that order.

    The round trip is proved for placeholders that all have the shape of a
    `Window`: the same width `w`, word characters only, starting with a
    reserved mark character `m` that occurs nowhere else in a placeholder and
    nowhere in the formula. */
module Shield {
  import opened Text

  /** The two literal forms: `"(?:[^"]|"")*"` and `\{[^{}]*\}`. */
  datatype Kind = Strings | Arrays

  function Opener(kind: Kind): char
  {
    match kind
    case Strings => '"'
    case Arrays => '{'
  }

  function Closer(kind: Kind): char
  {
    match kind
    case Strings => '"'
    case Arrays => '}'
  }

  /** The greedy `(?:[^"]|"")*` loop from `j`, with backtracking: the match
      ends after the first lone quote; if the text runs out, it ends after
      the first quote of the last doubled quote seen, if any. */
  function StrScan(s: string, j: nat, lastPair: Option<nat>): (r: Option<nat>)
    requires j <= |s|
    requires lastPair.Some? ==> lastPair.value + 2 <= j && s[lastPair.value] == '"'
    ensures r.Some? ==> 1 <= r.value <= |s| && s[r.value - 1] == '"'
    ensures r.Some? && lastPair.None? ==> j < r.value
    ensures r.Some? && lastPair.Some? ==> lastPair.value < r.value
    ensures r.None? ==> lastPair.None? && forall q :: j <= q < |s| ==> s[q] != '"'
    decreases |s| - j
  {
    if j == |s| then
      (match lastPair case Some(q) => Some(q + 1) case None => None)
    else if s[j] != '"' then StrScan(s, j + 1, lastPair)
    else if j + 1 < |s| && s[j + 1] == '"' then StrScan(s, j + 2, Some(j))
    else Some(j + 1)
  }

  /** The first brace after `j`: a `}` closes the array literal, a `{` (or the
      end of the text) means there is none here. */
  function ArrScan(s: string, j: nat): (r: Option<nat>)
    requires j <= |s|
    ensures r.Some? ==> j < r.value <= |s| && s[r.value - 1] == '}'
    ensures r.Some? ==> forall q :: j <= q < r.value - 1 ==> s[q] != '{' && s[q] != '}'
    ensures r.None? ==> forall q :: j <= q < |s| && s[q] == '}' ==>
                          exists q' :: j <= q' < q && s[q'] == '{'
    decreases |s| - j
  {
    if j == |s| then None
    else if s[j] == '}' then Some(j + 1)
    else if s[j] == '{' then None
    else ArrScan(s, j + 1)
  }

  /** End (exclusive) of the literal of this kind starting at `i`, if any. */
  function LiteralEnd(kind: Kind, s: string, i: nat): (r: Option<nat>)
    requires i < |s|
    ensures r.Some? ==> i + 2 <= r.value <= |s| && s[r.value - 1] == Closer(kind)
  {
    if s[i] != Opener(kind) then None
    else
      match kind
      case Strings => StrScan(s, i + 1, None)
      case Arrays => ArrScan(s, i + 1)
  }

  /** Placeholder-to-literal table, in insertion order. */
  type Table = seq<(string, string)>

  /** `re.sub(pattern, replace, s[i..])` where the `k`-th replacement records
      `tok(k)` and the matched literal. */
  function MaskFrom(kind: Kind, s: string, i: nat, k: nat, tok: nat -> string): (r: (string, Table))
    requires i <= |s|
    decreases |s| - i
  {
    if i == |s| then ([], [])
    else if LiteralEnd(kind, s, i).Some? then
      var e := LiteralEnd(kind, s, i).value;
      var rest := MaskFrom(kind, s, e, k + 1, tok);
      (tok(k) + rest.0, [(tok(k), s[i..e])] + rest.1)
    else
      var rest := MaskFrom(kind, s, i + 1, k, tok);
      ([s[i]] + rest.0, rest.1)
  }

  function Mask(kind: Kind, s: string, tok: nat -> string): (string, Table)
  {
    MaskFrom(kind, s, 0, 0, tok)
  }

  /** `for placeholder, original in table: s = s.replace(placeholder, original)`. */
  function Restore(s: string, table: Table): string
    decreases |table|
  {
    if table == [] then s
    else Restore(ReplaceAll(s, table[0].0, table[0].1), table[1..])
  }

  // ---------------------------------------------------------------------
  // Placeholder shape and texts built from whole placeholders

  /** The shape shared by all placeholders. */
  predicate Window(x: string, m: char, w: nat)
  {
    && w > 0 && |x| == w && x[0] == m && IsWordChar(m)
    && (forall q :: 0 <= q < w ==> IsWordChar(x[q]))
    && (forall q :: 1 <= q < w ==> x[q] != m)
  }

  /** Every mark in `x` starts a whole window inside `x`. */
  predicate Good(x: string, m: char, w: nat)
  {
    forall p :: 0 <= p < |x| && x[p] == m ==> p + w <= |x| && Window(x[p..p + w], m, w)
  }

  /** No window of `x` runs across index `n`. */
  predicate Aligned(x: string, n: nat, m: char, w: nat)
    requires n <= |x|
  {
    forall p :: 0 <= p < n && x[p] == m ==> p + w <= n
  }

  ghost predicate NoOcc(x: string, t: string)
  {
    forall p :: !OccursAt(x, t, p)
  }

  lemma WindowGood(x: string, m: char, w: nat)
    requires Window(x, m, w)
    ensures Good(x, m, w)
  {
    forall p | 0 <= p < |x| && x[p] == m ensures p + w <= |x| && Window(x[p..p + w], m, w) {
      assert p == 0;
      assert x[0..w] == x;
    }
  }

  lemma CharGood(c: char, m: char, w: nat)
    requires c != m
    ensures Good([c], m, w)
  {
  }

  lemma GoodConcat(x: string, y: string, m: char, w: nat)
    requires Good(x, m, w) && Good(y, m, w)
    ensures Good(x + y, m, w)
  {
    var z := x + y;
    forall p | 0 <= p < |z| && z[p] == m ensures p + w <= |z| && Window(z[p..p + w], m, w) {
      if p < |x| {
        assert z[p..p + w] == x[p..p + w];
      } else {
        assert z[p] == y[p - |x|];
        assert z[p..p + w] == y[p - |x|..p - |x| + w];
      }
    }
  }

  lemma GoodSuffix(x: string, n: nat, m: char, w: nat)
    requires n <= |x| && Good(x, m, w)
    ensures Good(x[n..], m, w)
  {
    var y := x[n..];
    forall p | 0 <= p < |y| && y[p] == m ensures p + w <= |y| && Window(y[p..p + w], m, w) {
      assert x[n + p] == m;
      assert y[p..p + w] == x[n + p..n + p + w];
    }
  }

  lemma GoodInfix(x: string, a: nat, b: nat, m: char, w: nat)
    requires a <= b <= |x| && Good(x, m, w) && Aligned(x, b, m, w)
    ensures Good(x[a..b], m, w)
  {
    var y := x[a..b];
    forall p | 0 <= p < |y| && y[p] == m ensures p + w <= |y| && Window(y[p..p + w], m, w) {
      assert x[a + p] == m;
      assert a + p + w <= b;
      SliceOfSlice(x, a, b, p, p + w);
    }
  }

  /** A placeholder occurs after a different window only inside the rest. */
  lemma NoOccWindow(x: string, y: string, t: string, m: char, w: nat)
    requires Window(x, m, w) && Window(t, m, w) && x != t && NoOcc(y, t)
    ensures NoOcc(x + y, t)
  {
    var z := x + y;
    forall p ensures !OccursAt(z, t, p) {
      if p == 0 {
        assert z[0..w] == x;
      } else if 0 < p < w {
        assert z[p] == x[p] && x[p] != m;
      } else if p >= w && p + |t| <= |z| {
        assert z[p..p + |t|] == y[p - w..p - w + |t|];
        assert !OccursAt(y, t, p - w);
      }
    }
  }

  lemma NoOccChar(c: char, y: string, t: string, m: char, w: nat)
    requires c != m && Window(t, m, w) && NoOcc(y, t)
    ensures NoOcc([c] + y, t)
  {
    var z := [c] + y;
    forall p ensures !OccursAt(z, t, p) {
      if p == 0 {
        assert z[0] == c;
      } else if p > 0 && p + |t| <= |z| {
        assert z[p..p + |t|] == y[p - 1..p - 1 + |t|];
        assert !OccursAt(y, t, p - 1);
      }
    }
  }

  lemma NoOccInfix(x: string, a: nat, b: nat, t: string)
    requires a <= b <= |x| && NoOcc(x, t)
    ensures NoOcc(x[a..b], t)
  {
    forall p | 0 <= p && p + |t| <= b - a ensures !OccursAt(x[a..b], t, p) {
      assert x[a..b][p..p + |t|] == x[a + p..a + p + |t|];
      assert !OccursAt(x, t, a + p);
    }
  }

  // ---------------------------------------------------------------------
  // `str.replace` of a placeholder in a good text

  lemma ReplaceCharStep(c: char, y: string, t: string, l: string, m: char, w: nat)
    requires c != m && Window(t, m, w)
    ensures ReplaceAll([c] + y, t, l) == [c] + ReplaceAll(y, t, l)
  {
    var z := [c] + y;
    assert z[1..] == y;
    if |z| >= |t| {
      assert z[0] != t[0];
    }
  }

  lemma ReplaceWindowStep(x: string, y: string, t: string, l: string, m: char, w: nat)
    requires Window(x, m, w) && Window(t, m, w) && x != t
    ensures ReplaceAll(x + y, t, l) == x + ReplaceAll(y, t, l)
  {
    var z := x + y;
    forall p | 0 <= p < |x| ensures !OccursAt(z, t, p) {
      if p == 0 {
        assert z[0..w] == x;
      } else {
        assert z[p] == x[p] && x[p] != m;
      }
    }
    ReplaceAllPrefix(x, y, t, l);
  }

  /** Splitting a good text at a window start: the first window and the rest. */
  lemma WindowAtStart(a: string, m: char, w: nat)
    requires Good(a, m, w) && |a| > 0 && a[0] == m
    ensures w <= |a| && Window(a[..w], m, w) && a == a[..w] + a[w..]
  {
    assert a[0..w] == a[..w];
  }

  lemma SplitCharStep(c: char, y: string, b: string, t: string, l: string, m: char, w: nat)
    requires c != m && Window(t, m, w)
    requires ReplaceAll(y + b, t, l) == ReplaceAll(y, t, l) + ReplaceAll(b, t, l)
    ensures ReplaceAll([c] + y + b, t, l) == ReplaceAll([c] + y, t, l) + ReplaceAll(b, t, l)
  {
    Regroup([c], y, b);
    ReplaceCharStep(c, y, t, l, m, w);
    ReplaceCharStep(c, y + b, t, l, m, w);
    HeadSplit([c], ReplaceAll(y, t, l), ReplaceAll(b, t, l), ReplaceAll(y + b, t, l));
  }

  lemma SplitWindowStep(x: string, y: string, b: string, t: string, l: string, m: char, w: nat)
    requires Window(x, m, w) && Window(t, m, w)
    requires ReplaceAll(y + b, t, l) == ReplaceAll(y, t, l) + ReplaceAll(b, t, l)
    ensures ReplaceAll(x + y + b, t, l) == ReplaceAll(x + y, t, l) + ReplaceAll(b, t, l)
  {
    Regroup(x, y, b);
    var h := if x == t then l else x;
    if x == t {
      ReplaceAllHead(y, t, l);
      ReplaceAllHead(y + b, t, l);
    } else {
      ReplaceWindowStep(x, y, t, l, m, w);
      ReplaceWindowStep(x, y + b, t, l, m, w);
    }
    HeadSplit(h, ReplaceAll(y, t, l), ReplaceAll(b, t, l), ReplaceAll(y + b, t, l));
  }

  /** `replace` acts on a good prefix and the rest separately: no placeholder
      occurrence straddles the border. */
  lemma {:induction false} ReplaceAllSplit(a: string, b: string, t: string, l: string, m: char, w: nat)
    requires Good(a, m, w) && Window(t, m, w)
    ensures ReplaceAll(a + b, t, l) == ReplaceAll(a, t, l) + ReplaceAll(b, t, l)
    decreases |a|
  {
    if a == [] {
      assert a + b == b;
    } else if a[0] != m {
      GoodSuffix(a, 1, m, w);
      ReplaceAllSplit(a[1..], b, t, l, m, w);
      SplitCharStep(a[0], a[1..], b, t, l, m, w);
      assert a == [a[0]] + a[1..];
    } else {
      WindowAtStart(a, m, w);
      GoodSuffix(a, w, m, w);
      ReplaceAllSplit(a[w..], b, t, l, m, w);
      SplitWindowStep(a[..w], a[w..], b, t, l, m, w);
    }
  }

  /** Replacing a placeholder by a good literal keeps a text good. */
  lemma {:induction false} GoodReplace(a: string, t: string, l: string, m: char, w: nat)
    requires Good(a, m, w) && Good(l, m, w) && Window(t, m, w)
    ensures Good(ReplaceAll(a, t, l), m, w)
    decreases |a|
  {
    if a == [] {
    } else if a[0] != m {
      var y := a[1..];
      GoodSuffix(a, 1, m, w);
      GoodReplace(y, t, l, m, w);
      assert a == [a[0]] + y;
      ReplaceCharStep(a[0], y, t, l, m, w);
      CharGood(a[0], m, w);
      GoodConcat([a[0]], ReplaceAll(y, t, l), m, w);
    } else {
      WindowAtStart(a, m, w);
      var x, y := a[..w], a[w..];
      GoodSuffix(a, w, m, w);
      GoodReplace(y, t, l, m, w);
      if x == t {
        ReplaceAllHead(y, t, l);
        GoodConcat(l, ReplaceAll(y, t, l), m, w);
      } else {
        ReplaceWindowStep(x, y, t, l, m, w);
        WindowGood(x, m, w);
        GoodConcat(x, ReplaceAll(y, t, l), m, w);
      }
    }
  }

  // ---------------------------------------------------------------------
  // Restoring a table

  predicate WindowTokens(table: Table, m: char, w: nat)
  {
    forall j :: 0 <= j < |table| ==> Window(table[j].0, m, w)
  }

  predicate GoodLiterals(table: Table, m: char, w: nat)
  {
    forall j :: 0 <= j < |table| ==> Good(table[j].1, m, w)
  }

  predicate DistinctTokens(table: Table)
  {
    forall i, j :: 0 <= i < j < |table| ==> table[i].0 != table[j].0
  }

  /** No placeholder of the table occurs in `x`. */
  ghost predicate TokenFree(x: string, table: Table)
  {
    forall j :: 0 <= j < |table| ==> NoOcc(x, table[j].0)
  }

  ghost predicate LiteralsTokenFree(table: Table)
  {
    forall j :: 0 <= j < |table| ==> TokenFree(table[j].1, table)
  }

  /** A restore table as the maskers build it. */
  ghost predicate ValidTable(table: Table, m: char, w: nat)
  {
    WindowTokens(table, m, w) && GoodLiterals(table, m, w)
    && DistinctTokens(table) && LiteralsTokenFree(table)
  }

  lemma ValidTail(table: Table, m: char, w: nat)
    requires |table| > 0 && ValidTable(table, m, w)
    ensures ValidTable(table[1..], m, w)
  {
    var t := table[1..];
    forall j | 0 <= j < |t| ensures TokenFree(t[j].1, t) {
      assert TokenFree(table[j + 1].1, table);
      forall j' | 0 <= j' < |t| ensures NoOcc(t[j].1, t[j'].0) {
        assert t[j'] == table[j' + 1];
      }
    }
  }

  /** Restoration acts on a good prefix and the rest separately. */
  lemma {:induction false} RestoreSplit(a: string, b: string, table: Table, m: char, w: nat)
    requires Good(a, m, w) && WindowTokens(table, m, w) && GoodLiterals(table, m, w)
    ensures Restore(a + b, table) == Restore(a, table) + Restore(b, table)
    decreases |table|
  {
    if table != [] {
      var t, l := table[0].0, table[0].1;
      ReplaceAllSplit(a, b, t, l, m, w);
      GoodReplace(a, t, l, m, w);
      RestoreSplit(ReplaceAll(a, t, l), ReplaceAll(b, t, l), table[1..], m, w);
    }
  }

  /** A text with no placeholder of the table in it is restored to itself. */
  lemma {:induction false} RestoreAbsent(x: string, table: Table, m: char, w: nat)
    requires WindowTokens(table, m, w) && TokenFree(x, table)
    ensures Restore(x, table) == x
    decreases |table|
  {
    if table != [] {
      assert NoOcc(x, table[0].0);
      ReplaceAllAbsent(x, table[0].0, table[0].1);
      RestoreAbsent(x, table[1..], m, w);
    }
  }

  /** Each placeholder of a valid table is restored to its own literal. */
  lemma {:induction false} RestoreToken(table: Table, j: nat, m: char, w: nat)
    requires j < |table| && ValidTable(table, m, w)
    ensures Restore(table[j].0, table) == table[j].1
    decreases j
  {
    var t, l := table[j].0, table[j].1;
    ValidTail(table, m, w);
    if j == 0 {
      ReplaceAllHead([], t, l);
      assert t + [] == t;
      assert ReplaceAll([], t, l) == [];
      assert ReplaceAll(t, t, l) == l;
      assert TokenFree(l, table);
      RestoreAbsent(l, table[1..], m, w);
    } else {
      var t0 := table[0].0;
      assert t0 != t;
      forall p ensures !OccursAt(t, t0, p) {
        if p == 0 && p + |t0| <= |t| {
          assert t[0..w] == t;
        }
      }
      ReplaceAllAbsent(t, t0, table[0].1);
      assert table[1..][j - 1] == table[j];
      RestoreToken(table[1..], j - 1, m, w);
    }
  }

  // ---------------------------------------------------------------------
  // What the masker produces

  lemma NoOccEmpty(t: string)
    requires |t| > 0
    ensures NoOcc([], t)
  {
  }

  lemma TokenFreeChar(c: char, table: Table, m: char, w: nat)
    requires c != m && WindowTokens(table, m, w)
    ensures TokenFree([c], table)
  {
    forall j | 0 <= j < |table| ensures NoOcc([c], table[j].0) {
      NoOccEmpty(table[j].0);
      NoOccChar(c, [], table[j].0, m, w);
      assert [c] + [] == [c];
    }
  }

  lemma TokenFreeInfix(x: string, a: nat, b: nat, table: Table)
    requires a <= b <= |x| && TokenFree(x, table)
    ensures TokenFree(x[a..b], table)
  {
    forall j | 0 <= j < |table| ensures NoOcc(x[a..b], table[j].0) {
      NoOccInfix(x, a, b, table[j].0);
    }
  }

  lemma AlignedChar(s: string, i: nat, m: char, w: nat)
    requires i < |s| && s[i] != m && Aligned(s, i, m, w)
    ensures Aligned(s, i + 1, m, w)
  {
  }

  /** At a mark, a good text holds a whole window, after which it is aligned again. */
  lemma AlignedWindow(s: string, i: nat, m: char, w: nat)
    requires i < |s| && s[i] == m && Good(s, m, w) && Aligned(s, i, m, w)
    ensures i + w <= |s| && Window(s[i..i + w], m, w) && Aligned(s, i + w, m, w)
  {
    WindowChars(s, i, m, w);
  }

  /** The characters of a window found in a good text, by index into the text. */
  lemma WindowChars(s: string, i: nat, m: char, w: nat)
    requires i < |s| && s[i] == m && Good(s, m, w)
    ensures i + w <= |s|
    ensures forall q :: i <= q < i + w ==> IsWordChar(s[q])
    ensures forall q :: i < q < i + w ==> s[q] != m
  {
    var x := s[i..i + w];
    forall q | i <= q < i + w ensures IsWordChar(s[q]) && (i < q ==> s[q] != m) {
      assert s[q] == x[q - i];
    }
  }

  /** A literal cannot end inside a window, since windows are word characters. */
  lemma LiteralEndAligned(kind: Kind, s: string, i: nat, m: char, w: nat)
    requires i < |s| && Good(s, m, w) && Aligned(s, i, m, w) && LiteralEnd(kind, s, i).Some?
    ensures Aligned(s, LiteralEnd(kind, s, i).value, m, w)
  {
    var e := LiteralEnd(kind, s, i).value;
    forall p | i <= p < e && s[p] == m ensures p + w <= e {
      WindowChars(s, p, m, w);
    }
  }

  lemma MaskCopyStep(kind: Kind, s: string, i: nat, j: nat, k: nat, tok: nat -> string)
    requires i < j <= |s| && s[i] != Opener(kind)
    requires MaskFrom(kind, s, i + 1, k, tok).0 == s[i + 1..j] + MaskFrom(kind, s, j, k, tok).0
    ensures MaskFrom(kind, s, i, k, tok).0 == s[i..j] + MaskFrom(kind, s, j, k, tok).0
    ensures MaskFrom(kind, s, i, k, tok).1 == MaskFrom(kind, s, i + 1, k, tok).1
  {
    assert s[i..j] == [s[i]] + s[i + 1..j];
  }

  /** Characters that cannot open a literal are copied. */
  lemma {:induction false} MaskCopy(kind: Kind, s: string, i: nat, j: nat, k: nat, tok: nat -> string)
    requires i <= j <= |s|
    requires forall q :: i <= q < j ==> s[q] != Opener(kind)
    ensures MaskFrom(kind, s, i, k, tok).0 == s[i..j] + MaskFrom(kind, s, j, k, tok).0
    ensures MaskFrom(kind, s, i, k, tok).1 == MaskFrom(kind, s, j, k, tok).1
    decreases j - i
  {
    if i < j {
      MaskCopy(kind, s, i + 1, j, k, tok);
      MaskCopyStep(kind, s, i, j, k, tok);
    }
  }

  /** A window is copied whole: none of its characters opens a literal. */
  lemma MaskCopyWindow(kind: Kind, s: string, i: nat, k: nat, tok: nat -> string, m: char, w: nat)
    requires i + w <= |s| && Window(s[i..i + w], m, w)
    ensures MaskFrom(kind, s, i, k, tok).0 == s[i..i + w] + MaskFrom(kind, s, i + w, k, tok).0
    ensures MaskFrom(kind, s, i, k, tok).1 == MaskFrom(kind, s, i + w, k, tok).1
  {
    forall q | i <= q < i + w ensures s[q] != Opener(kind) {
      assert s[q] == s[i..i + w][q - i];
    }
    MaskCopy(kind, s, i, i + w, k, tok);
  }

  /** The `j`-th recorded entry carries placeholder `tok(k + j)`. */
  lemma {:induction false} MaskTokens(kind: Kind, s: string, i: nat, k: nat, tok: nat -> string)
    requires i <= |s|
    ensures forall j :: 0 <= j < |MaskFrom(kind, s, i, k, tok).1| ==>
              MaskFrom(kind, s, i, k, tok).1[j].0 == tok(k + j)
    decreases |s| - i
  {
    if i < |s| {
      if LiteralEnd(kind, s, i).Some? {
        MaskTokens(kind, s, LiteralEnd(kind, s, i).value, k + 1, tok);
      } else {
        MaskTokens(kind, s, i + 1, k, tok);
      }
    }
  }

  /** Recorded literals are good, placeholder-free pieces of the input. */
  lemma {:induction false} MaskLiterals(kind: Kind, s: string, i: nat, k: nat, tok: nat -> string,
                                        table: Table, m: char, w: nat)
    requires i <= |s| && Good(s, m, w) && Aligned(s, i, m, w) && TokenFree(s, table)
    ensures forall j :: 0 <= j < |MaskFrom(kind, s, i, k, tok).1| ==>
              Good(MaskFrom(kind, s, i, k, tok).1[j].1, m, w)
              && TokenFree(MaskFrom(kind, s, i, k, tok).1[j].1, table)
    decreases |s| - i
  {
    if i < |s| {
      if LiteralEnd(kind, s, i).Some? {
        var e := LiteralEnd(kind, s, i).value;
        LiteralEndAligned(kind, s, i, m, w);
        GoodInfix(s, i, e, m, w);
        TokenFreeInfix(s, i, e, table);
        MaskLiterals(kind, s, e, k + 1, tok, table, m, w);
      } else if s[i] == m {
        AlignedWindow(s, i, m, w);
        MaskCopyWindow(kind, s, i, k, tok, m, w);
        MaskLiterals(kind, s, i + w, k, tok, table, m, w);
      } else {
        AlignedChar(s, i, m, w);
        MaskLiterals(kind, s, i + 1, k, tok, table, m, w);
      }
    }
  }

  /** Restoring the masked literal at the head. */
  lemma MaskRestoreLiteral(t: string, rest: string, lit: string, tail: string,
                           table: Table, j: nat, m: char, w: nat)
    requires j < |table| && ValidTable(table, m, w) && table[j] == (t, lit)
    requires Restore(rest, table) == tail
    ensures Restore(t + rest, table) == lit + tail
  {
    WindowGood(t, m, w);
    RestoreSplit(t, rest, table, m, w);
    RestoreToken(table, j, m, w);
  }

  /** Restoring text that was copied verbatim at the head. */
  lemma MaskRestoreCopied(x: string, rest: string, tail: string, table: Table, m: char, w: nat)
    requires Good(x, m, w) && TokenFree(x, table) && ValidTable(table, m, w)
    requires Restore(rest, table) == tail
    ensures Restore(x + rest, table) == x + tail
  {
    RestoreSplit(x, rest, table, m, w);
    RestoreAbsent(x, table, m, w);
  }

  /** The step of `MaskRestore` at a literal, given the claim at its end. */
  lemma MaskRestoreAtLiteral(kind: Kind, s: string, i: nat, k: nat, tok: nat -> string,
                             table: Table, m: char, w: nat)
    requires i < |s| && LiteralEnd(kind, s, i).Some? && ValidTable(table, m, w)
    requires forall e :: e in MaskFrom(kind, s, i, k, tok).1 ==> e in table
    requires Restore(MaskFrom(kind, s, LiteralEnd(kind, s, i).value, k + 1, tok).0, table)
             == s[LiteralEnd(kind, s, i).value..]
    ensures Restore(MaskFrom(kind, s, i, k, tok).0, table) == s[i..]
  {
    var e := LiteralEnd(kind, s, i).value;
    var rest := MaskFrom(kind, s, e, k + 1, tok);
    assert MaskFrom(kind, s, i, k, tok) == (tok(k) + rest.0, [(tok(k), s[i..e])] + rest.1);
    assert MaskFrom(kind, s, i, k, tok).1[0] == (tok(k), s[i..e]);
    MaskRestoreEntry(tok(k), rest.0, s[i..e], s[e..], table, m, w);
    assert s[i..e] + s[e..] == s[i..];
  }

  lemma MaskRestoreEntry(t: string, rest: string, lit: string, tail: string,
                         table: Table, m: char, w: nat)
    requires (t, lit) in table && ValidTable(table, m, w)
    requires Restore(rest, table) == tail
    ensures Restore(t + rest, table) == lit + tail
  {
    var j :| 0 <= j < |table| && table[j] == (t, lit);
    MaskRestoreLiteral(t, rest, lit, tail, table, j, m, w);
  }

  /** The step of `MaskRestore` at a mark, given the claim after its window. */
  lemma MaskRestoreAtWindow(kind: Kind, s: string, i: nat, k: nat, tok: nat -> string,
                            table: Table, m: char, w: nat)
    requires i + w <= |s| && Window(s[i..i + w], m, w) && TokenFree(s, table)
    requires ValidTable(table, m, w)
    requires Restore(MaskFrom(kind, s, i + w, k, tok).0, table) == s[i + w..]
    ensures Restore(MaskFrom(kind, s, i, k, tok).0, table) == s[i..]
  {
    MaskCopyWindow(kind, s, i, k, tok, m, w);
    WindowGood(s[i..i + w], m, w);
    TokenFreeInfix(s, i, i + w, table);
    MaskRestoreCopied(s[i..i + w], MaskFrom(kind, s, i + w, k, tok).0, s[i + w..], table, m, w);
    assert s[i..i + w] + s[i + w..] == s[i..];
  }

  /** The step of `MaskRestore` at a plain character. */
  lemma MaskRestoreAtChar(kind: Kind, s: string, i: nat, k: nat, tok: nat -> string,
                          table: Table, m: char, w: nat)
    requires i < |s| && s[i] != m && LiteralEnd(kind, s, i).None? && ValidTable(table, m, w)
    requires Restore(MaskFrom(kind, s, i + 1, k, tok).0, table) == s[i + 1..]
    ensures Restore(MaskFrom(kind, s, i, k, tok).0, table) == s[i..]
  {
    CharGood(s[i], m, w);
    TokenFreeChar(s[i], table, m, w);
    MaskRestoreCopied([s[i]], MaskFrom(kind, s, i + 1, k, tok).0, s[i + 1..], table, m, w);
    assert [s[i]] + s[i + 1..] == s[i..];
  }

  /** Restoring the masked suffix from an aligned position gives the suffix
      back, for any table that holds the entries the masker recorded. */
  lemma {:induction false} MaskRestore(kind: Kind, s: string, i: nat, k: nat, tok: nat -> string,
                                       table: Table, m: char, w: nat)
    requires i <= |s| && Good(s, m, w) && Aligned(s, i, m, w) && TokenFree(s, table)
    requires ValidTable(table, m, w)
    requires forall e :: e in MaskFrom(kind, s, i, k, tok).1 ==> e in table
    ensures Restore(MaskFrom(kind, s, i, k, tok).0, table) == s[i..]
    decreases |s| - i
  {
    if i == |s| {
      forall j | 0 <= j < |table| ensures NoOcc([], table[j].0) {
        NoOccEmpty(table[j].0);
      }
      RestoreAbsent([], table, m, w);
    } else if LiteralEnd(kind, s, i).Some? {
      LiteralEndAligned(kind, s, i, m, w);
      MaskRestore(kind, s, LiteralEnd(kind, s, i).value, k + 1, tok, table, m, w);
      MaskRestoreAtLiteral(kind, s, i, k, tok, table, m, w);
    } else if s[i] == m {
      AlignedWindow(s, i, m, w);
      MaskCopyWindow(kind, s, i, k, tok, m, w);
      MaskRestore(kind, s, i + w, k, tok, table, m, w);
      MaskRestoreAtWindow(kind, s, i, k, tok, table, m, w);
    } else {
      AlignedChar(s, i, m, w);
      MaskRestore(kind, s, i + 1, k, tok, table, m, w);
      MaskRestoreAtChar(kind, s, i, k, tok, table, m, w);
    }
  }

  /** The masker's own table restores the masked text to the original, when
      the placeholders are windows, pairwise distinct, and absent from the
      input. */
  lemma MaskRoundTrip(kind: Kind, s: string, tok: nat -> string, m: char, w: nat)
    requires Good(s, m, w)
    requires forall k :: Window(tok(k), m, w)
    requires forall j, k :: j != k ==> tok(j) != tok(k)
    requires forall k :: NoOcc(s, tok(k))
    ensures Restore(Mask(kind, s, tok).0, Mask(kind, s, tok).1) == s
  {
    var table := Mask(kind, s, tok).1;
    MaskTokens(kind, s, 0, 0, tok);
    assert WindowTokens(table, m, w);
    assert DistinctTokens(table);
    assert TokenFree(s, table);
    MaskLiterals(kind, s, 0, 0, tok, table, m, w);
    MaskRestore(kind, s, 0, 0, tok, table, m, w);
  }

  // ---------------------------------------------------------------------
  // The two stages together: strings first, then arrays

  /** Placeholder oracles for the two maskers: windows, pairwise distinct
      within a family, and the two families disjoint. */
  ghost predicate Placeholders(strTok: nat -> string, arrTok: nat -> string, m: char, w: nat)
  {
    && (forall k :: Window(strTok(k), m, w) && Window(arrTok(k), m, w))
    && (forall j, k :: j != k ==> strTok(j) != strTok(k) && arrTok(j) != arrTok(k))
    && (forall j, k :: strTok(j) != arrTok(k))
  }

  /** A text without the mark contains no placeholder. */
  lemma NoMarkNoOcc(s: string, t: string, m: char)
    requires |t| > 0 && t[0] == m && forall q :: 0 <= q < |s| ==> s[q] != m
    ensures NoOcc(s, t)
  {
    forall p ensures !OccursAt(s, t, p) {
      if 0 <= p && p + |t| <= |s| {
        assert s[p..p + |t|][0] == s[p];
      }
    }
  }

  lemma MaskShapeLiteral(t: string, rest: string, other: nat -> string, m: char, w: nat)
    requires Window(t, m, w) && Good(rest, m, w)
    requires forall j :: Window(other(j), m, w) && other(j) != t && NoOcc(rest, other(j))
    ensures Good(t + rest, m, w) && forall j :: NoOcc(t + rest, other(j))
  {
    WindowGood(t, m, w);
    GoodConcat(t, rest, m, w);
    forall j ensures NoOcc(t + rest, other(j)) {
      NoOccWindow(t, rest, other(j), m, w);
    }
  }

  lemma MaskShapeChar(c: char, rest: string, other: nat -> string, m: char, w: nat)
    requires c != m && Good(rest, m, w)
    requires forall j :: Window(other(j), m, w) && NoOcc(rest, other(j))
    ensures Good([c] + rest, m, w) && forall j :: NoOcc([c] + rest, other(j))
  {
    CharGood(c, m, w);
    GoodConcat([c], rest, m, w);
    forall j ensures NoOcc([c] + rest, other(j)) {
      NoOccChar(c, rest, other(j), m, w);
    }
  }

  /** Masking a mark-free text with placeholders of one family yields a good
      text in which no placeholder of another family occurs. */
  lemma {:induction false} MaskShape(kind: Kind, s: string, i: nat, k: nat, tok: nat -> string,
                                     other: nat -> string, m: char, w: nat)
    requires i <= |s| && forall q :: i <= q < |s| ==> s[q] != m
    requires forall j :: Window(tok(j), m, w) && Window(other(j), m, w)
    requires forall j, j' :: tok(j) != other(j')
    ensures Good(MaskFrom(kind, s, i, k, tok).0, m, w)
    ensures forall j :: NoOcc(MaskFrom(kind, s, i, k, tok).0, other(j))
    decreases |s| - i
  {
    if i == |s| {
      forall j ensures NoOcc([], other(j)) {
        NoOccEmpty(other(j));
      }
    } else if LiteralEnd(kind, s, i).Some? {
      var e := LiteralEnd(kind, s, i).value;
      MaskShape(kind, s, e, k + 1, tok, other, m, w);
      MaskShapeLiteral(tok(k), MaskFrom(kind, s, e, k + 1, tok).0, other, m, w);
    } else {
      MaskShape(kind, s, i + 1, k, tok, other, m, w);
      MaskShapeChar(s[i], MaskFrom(kind, s, i + 1, k, tok).0, other, m, w);
    }
  }

  /** Masking strings, then arrays, and restoring arrays, then strings, gives
      the formula back, provided the mark character is absent from it. */
  lemma ShieldRoundTrip(s: string, strTok: nat -> string, arrTok: nat -> string, m: char, w: nat)
    requires Placeholders(strTok, arrTok, m, w)
    requires forall q :: 0 <= q < |s| ==> s[q] != m
    ensures var (o1, t1) := Mask(Strings, s, strTok);
            var (o2, t2) := Mask(Arrays, o1, arrTok);
            Restore(Restore(o2, t2), t1) == s
  {
    var (o1, t1) := Mask(Strings, s, strTok);
    MaskShape(Strings, s, 0, 0, strTok, arrTok, m, w);
    MaskRoundTrip(Arrays, o1, arrTok, m, w);
    forall k ensures NoOcc(s, strTok(k)) {
      NoMarkNoOcc(s, strTok(k), m);
    }
    MaskRoundTrip(Strings, s, strTok, m, w);
  }

  // ---------------------------------------------------------------------
  // Text without literals

  /** Without an opening quote or brace the masker copies the text and
      records nothing. */
  lemma {:induction false} MaskNone(kind: Kind, s: string, i: nat, k: nat, tok: nat -> string)
    requires i <= |s|
    requires forall q :: i <= q < |s| ==> s[q] != Opener(kind)
    ensures MaskFrom(kind, s, i, k, tok) == (s[i..], [])
    decreases |s| - i
  {
    if i < |s| {
      MaskNone(kind, s, i + 1, k, tok);
      assert s[i..] == [s[i]] + s[i + 1..];
    }
  }

  /** A formula without string or array literals goes through masking and
      restoring untouched, whatever happens in between. */
  lemma ShieldNone(s: string, strTok: nat -> string, arrTok: nat -> string)
    requires forall q :: 0 <= q < |s| ==> s[q] != '"' && s[q] != '{'
    ensures Mask(Strings, s, strTok) == (s, [])
    ensures Mask(Arrays, s, arrTok) == (s, [])
    ensures forall t :: Restore(t, []) == t
  {
    MaskNone(Strings, s, 0, 0, strTok);
    MaskNone(Arrays, s, 0, 0, arrTok);
  }
}
