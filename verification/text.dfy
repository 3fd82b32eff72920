/** Character classes and the few string primitives of the host language that
    the formula rewriters rely on: case mapping, `strip`, `find`, `in`,
    `replace` and `join`.  Strings are `seq<char>`; letter, digit and word
    classes are the ASCII ones, whitespace is the full `str.isspace` set. */
module Text {

  datatype Option<T> = None | Some(value: T)

  predicate IsUpper(c: char) { 'A' <= c <= 'Z' }
  predicate IsLower(c: char) { 'a' <= c <= 'z' }
  predicate IsDigit(c: char) { '0' <= c <= '9' }
  predicate IsAlnum(c: char) { IsUpper(c) || IsLower(c) || IsDigit(c) }

  /** The regex word class `\w`: letters, digits and underscore. */
  predicate IsWordChar(c: char) { IsAlnum(c) || c == '_' }

  /** `str.isspace` / regex `\s`, character by character. */
  predicate IsSpace(c: char)
  {
    ('\U{0009}' <= c <= '\U{000D}') || ('\U{001C}' <= c <= '\U{0020}')
    || c == '\U{0085}' || c == '\U{00A0}' || c == '\U{1680}'
    || ('\U{2000}' <= c <= '\U{200A}') || c == '\U{2028}' || c == '\U{2029}'
    || c == '\U{202F}' || c == '\U{205F}' || c == '\U{3000}'
  }

  function UpperChar(c: char): (u: char)
    ensures IsLower(c) ==> IsUpper(u)
    ensures !IsLower(c) ==> u == c
  {
    if IsLower(c) then (c as int - 32) as char else c
  }

  /** `str.upper` restricted to ASCII letters. */
  function Upper(s: string): (r: string)
    ensures |r| == |s|
  {
    if s == [] then [] else [UpperChar(s[0])] + Upper(s[1..])
  }

  /** `upper` maps character by character. */
  lemma {:induction false} UpperAt(s: string, i: nat)
    requires i < |s|
    ensures Upper(s)[i] == UpperChar(s[i])
  {
    if i > 0 {
      UpperAt(s[1..], i - 1);
    }
  }

  /** Two texts that agree character by character up to case agree after
      `upper`. */
  lemma UpperEq(x: string, y: string)
    requires |x| == |y|
    requires forall i :: 0 <= i < |x| ==> UpperChar(x[i]) == UpperChar(y[i])
    ensures Upper(x) == Upper(y)
  {
    forall i | 0 <= i < |x| ensures Upper(x)[i] == Upper(y)[i] {
      UpperAt(x, i);
      UpperAt(y, i);
    }
  }

  /** All characters are ASCII digits and there is at least one (`str.isdigit`). */
  predicate IsAllDigits(s: string)
  {
    |s| > 0 && forall i :: 0 <= i < |s| ==> IsDigit(s[i])
  }

  predicate StartsWith(s: string, p: string)
  {
    |p| <= |s| && s[..|p|] == p
  }

  predicate EndsWith(s: string, p: string)
  {
    |p| <= |s| && s[|s| - |p|..] == p
  }

  /** `p` occurs in `s` starting at index `i`. */
  predicate OccursAt(s: string, p: string, i: int)
  {
    0 <= i && i + |p| <= |s| && s[i..i + |p|] == p
  }

  /** `s[..i]` ends with `m`: the text just before index `i` is `m`. */
  predicate EndsAt(s: string, m: string, i: int)
  {
    |m| <= i <= |s| && s[i - |m|..i] == m
  }

  /** `str.find(p, from)`: the first occurrence at or after `from`, or -1. */
  function Find(s: string, p: string, from: nat): (r: int)
    decreases |s| - from
    ensures r == -1 || (from <= r && OccursAt(s, p, r))
  {
    if from + |p| > |s| then -1
    else if s[from..from + |p|] == p then from
    else Find(s, p, from + 1)
  }

  /** `find` stops at the first occurrence: any occurrence at or after
      `from` bounds the result. */
  lemma {:induction false} FindFirst(s: string, p: string, from: nat, j: int)
    requires from <= j && OccursAt(s, p, j)
    ensures 0 <= Find(s, p, from) <= j
    decreases |s| - from
  {
    if s[from..from + |p|] != p {
      FindFirst(s, p, from + 1, j);
    }
  }

  /** The substring test `p in s`. */
  predicate Contains(s: string, p: string)
  {
    Find(s, p, 0) >= 0
  }

  lemma ContainsIff(s: string, p: string)
    ensures Contains(s, p) <==> exists i :: OccursAt(s, p, i)
  {
    if exists i :: OccursAt(s, p, i) {
      var i :| OccursAt(s, p, i);
      FindFirst(s, p, 0, i);
    }
  }

  lemma ContainsAt(s: string, p: string, i: int)
    requires OccursAt(s, p, i)
    ensures Contains(s, p)
  {
    FindFirst(s, p, 0, i);
  }

  lemma SliceOfSlice(x: string, a: nat, b: nat, p: nat, q: nat)
    requires a <= b <= |x| && p <= q <= b - a
    ensures x[a..b][p..q] == x[a + p..a + q]
  {
    assert |x[a..b][p..q]| == q - p == |x[a + p..a + q]|;
    forall k | 0 <= k < q - p ensures x[a..b][p..q][k] == x[a + p..a + q][k] {
      assert x[a..b][p..q][k] == x[a..b][p + k] == x[a + p + k];
    }
  }

  /** A slice is its two halves put together. */
  lemma SliceJoin(s: string, a: nat, b: nat, c: nat)
    requires a <= b <= c <= |s|
    ensures s[a..c] == s[a..b] + s[b..c]
  {
  }

  /** The middle of an occurrence of `a + b + c` is an occurrence of `b`. */
  lemma OccursMiddle(s: string, i: nat, a: string, b: string, c: string)
    requires i + |a + b + c| <= |s| && s[i..i + |a + b + c|] == a + b + c
    ensures OccursAt(s, b, i + |a|)
  {
    var w := a + b + c;
    assert w[|a|..|a| + |b|] == b;
    SliceOfSlice(s, i, i + |w|, |a|, |a| + |b|);
  }

  /** Leading whitespace removed (`str.lstrip`). */
  function TrimLeft(s: string): (r: string)
    ensures |r| <= |s|
    ensures r == [] || !IsSpace(r[0])
  {
    if |s| > 0 && IsSpace(s[0]) then TrimLeft(s[1..]) else s
  }

  /** Trailing whitespace removed (`str.rstrip`). */
  function TrimRight(s: string): (r: string)
    ensures |r| <= |s|
    ensures r == [] || !IsSpace(r[|r| - 1])
  {
    if |s| > 0 && IsSpace(s[|s| - 1]) then TrimRight(s[..|s| - 1]) else s
  }

  /** The number of leading whitespace characters. */
  function LeadingSpaces(s: string): nat
  {
    |s| - |TrimLeft(s)|
  }

  /** `str.strip()`: the infix left after removing surrounding whitespace. */
  function Trim(s: string): (r: string)
    ensures LeadingSpaces(s) + |r| <= |s|
    ensures r == [] || (!IsSpace(r[0]) && !IsSpace(r[|r| - 1]))
  {
    var l := TrimLeft(s);
    TrimRightPrefix(l);
    TrimRight(l)
  }

  /** `lstrip` keeps a suffix. */
  lemma {:induction false} TrimLeftSuffix(s: string)
    ensures TrimLeft(s) == s[|s| - |TrimLeft(s)|..]
  {
    if |s| > 0 && IsSpace(s[0]) {
      TrimLeftSuffix(s[1..]);
    }
  }

  /** `rstrip` keeps a prefix. */
  lemma {:induction false} TrimRightPrefix(s: string)
    ensures TrimRight(s) == s[..|TrimRight(s)|]
  {
    if |s| > 0 && IsSpace(s[|s| - 1]) {
      TrimRightPrefix(s[..|s| - 1]);
    }
  }

  /** What `strip` keeps is the infix after the leading whitespace. */
  lemma TrimInfix(s: string)
    ensures Trim(s) == s[LeadingSpaces(s)..LeadingSpaces(s) + |Trim(s)|]
  {
    var l := TrimLeft(s);
    TrimLeftSuffix(s);
    TrimRightPrefix(l);
    assert Trim(s) == l[..|Trim(s)|];
  }

  /** Something is left after `strip` only if something is left after
      `lstrip`. */
  lemma TrimNonEmpty(s: string)
    requires Trim(s) != []
    ensures TrimLeft(s) != []
  {
  }

  lemma {:induction false} TrimLeftSpaces(s: string)
    ensures forall i :: 0 <= i < |s| - |TrimLeft(s)| ==> IsSpace(s[i])
  {
    if |s| > 0 && IsSpace(s[0]) {
      TrimLeftSpaces(s[1..]);
    }
  }

  lemma {:induction false} TrimRightSpaces(s: string)
    ensures forall i :: |TrimRight(s)| <= i < |s| ==> IsSpace(s[i])
  {
    if |s| > 0 && IsSpace(s[|s| - 1]) {
      TrimRightSpaces(s[..|s| - 1]);
    }
  }

  /** What `strip` drops at the end is whitespace. */
  lemma TrimTrailingSpaces(s: string)
    ensures forall i :: LeadingSpaces(s) + |Trim(s)| <= i < |s| ==> IsSpace(s[i])
  {
    var l := TrimLeft(s);
    var a := |s| - |l|;
    TrimLeftSuffix(s);
    assert Trim(s) == TrimRight(l);
    TrimRightSpaces(l);
    forall i | a + |TrimRight(l)| <= i < |s| ensures IsSpace(s[i]) {
      assert s[i] == l[i - a];
    }
  }

  /** `strip` removes whitespace and nothing else. */
  lemma TrimOnlySpaces(s: string)
    ensures forall i :: 0 <= i < LeadingSpaces(s) ==> IsSpace(s[i])
    ensures forall i :: LeadingSpaces(s) + |Trim(s)| <= i < |s| ==> IsSpace(s[i])
  {
    TrimLeftSpaces(s);
    TrimTrailingSpaces(s);
  }

  /** Text without surrounding whitespace is left alone by `strip`. */
  lemma TrimClean(s: string)
    requires s == [] || (!IsSpace(s[0]) && !IsSpace(s[|s| - 1]))
    ensures Trim(s) == s
  {
  }

  /** `strip` twice is `strip` once. */
  lemma TrimTwice(s: string)
    ensures Trim(Trim(s)) == Trim(s)
  {
    TrimClean(Trim(s));
  }

  /** `sep.join(parts)`. */
  function Join(parts: seq<string>, sep: string): string
  {
    if |parts| == 0 then []
    else if |parts| == 1 then parts[0]
    else parts[0] + sep + Join(parts[1..], sep)
  }

  /** `s.replace(pat, rep)`: every non-overlapping occurrence of `pat`, found
      left to right, is replaced; an empty `pat` inserts `rep` around every
      character. */
  function ReplaceAll(s: string, pat: string, rep: string): string
    decreases |s|
  {
    if pat == [] then
      (if s == [] then rep else rep + [s[0]] + ReplaceAll(s[1..], pat, rep))
    else if |s| < |pat| then s
    else if s[..|pat|] == pat then rep + ReplaceAll(s[|pat|..], pat, rep)
    else [s[0]] + ReplaceAll(s[1..], pat, rep)
  }

  /** An occurrence in the tail is an occurrence one further on. */
  lemma OccursShift(s: string, pat: string, p: int)
    requires |s| > 0 && OccursAt(s[1..], pat, p)
    ensures OccursAt(s, pat, p + 1)
  {
    assert s[1..][p..p + |pat|] == s[p + 1..p + 1 + |pat|];
  }

  /** Where no occurrence starts, `replace` copies the first character. */
  lemma ReplaceAllSkip(s: string, pat: string, rep: string)
    requires |pat| > 0 && |s| > 0 && !OccursAt(s, pat, 0)
    ensures ReplaceAll(s, pat, rep) == [s[0]] + ReplaceAll(s[1..], pat, rep)
  {
    if |s| < |pat| {
      assert ReplaceAll(s[1..], pat, rep) == s[1..];
    }
  }

  /** A text in which `pat` does not occur is left alone by `replace`. */
  lemma {:induction false} ReplaceAllAbsent(s: string, pat: string, rep: string)
    requires |pat| > 0
    requires forall i :: !OccursAt(s, pat, i)
    ensures ReplaceAll(s, pat, rep) == s
    decreases |s|
  {
    if |s| > 0 {
      forall i | true ensures !OccursAt(s[1..], pat, i) {
        if OccursAt(s[1..], pat, i) {
          OccursShift(s, pat, i);
        }
      }
      ReplaceAllAbsent(s[1..], pat, rep);
      ReplaceAllSkip(s, pat, rep);
    }
  }

  /** `replace` copies a prefix verbatim when no occurrence of `pat` starts
      inside it, and carries on with the rest. */
  lemma {:induction false} ReplaceAllPrefix(a: string, b: string, pat: string, rep: string)
    requires |pat| > 0
    requires forall p :: 0 <= p < |a| ==> !OccursAt(a + b, pat, p)
    ensures ReplaceAll(a + b, pat, rep) == a + ReplaceAll(b, pat, rep)
    decreases |a|
  {
    if |a| > 0 {
      var s := a + b;
      assert s[1..] == a[1..] + b;
      forall p | 0 <= p < |a[1..]| ensures !OccursAt(a[1..] + b, pat, p) {
        if OccursAt(s[1..], pat, p) {
          OccursShift(s, pat, p);
        }
      }
      ReplaceAllPrefix(a[1..], b, pat, rep);
      ReplaceAllSkip(s, pat, rep);
      assert a == [a[0]] + a[1..];
    } else {
      assert a + b == b;
    }
  }

  /** `replace` of a text that starts with `pat`. */
  lemma ReplaceAllHead(b: string, pat: string, rep: string)
    requires |pat| > 0
    ensures ReplaceAll(pat + b, pat, rep) == rep + ReplaceAll(b, pat, rep)
  {
    assert (pat + b)[..|pat|] == pat;
    assert (pat + b)[|pat|..] == b;
  }

  /** `rep` can stand in for `pat` without `pat` showing up again: `pat`
      does not occur inside `rep`, and no occurrence can reach across either
      end of `rep` (a suffix of `rep` is never a proper prefix of `pat`, a
      prefix of `rep` never a proper suffix of it). */
  predicate CleanReplacement(pat: string, rep: string)
  {
    && 0 < |pat| <= |rep|
    && (forall i :: 0 <= i <= |rep| - |pat| ==> !OccursAt(rep, pat, i))
    && (forall j :: |rep| - |pat| < j < |rep| ==> rep[j..] != pat[..|rep| - j])
    && (forall k :: 0 < k < |pat| ==> rep[..k] != pat[|pat| - k..])
  }

  /** An occurrence that starts in a text `x` copied ahead of a `replace`
      result is one that `x` followed by the original text already had. */
  lemma {:induction false} ReplaceAllHeadOcc(x: string, s: string, pat: string, rep: string, i: int)
    requires CleanReplacement(pat, rep) && 0 <= i < |x|
    ensures OccursAt(x + ReplaceAll(s, pat, rep), pat, i) ==> OccursAt(x + s, pat, i)
    decreases |s|
  {
    if |s| < |pat| {
    } else if s[..|pat|] == pat {
      var u := ReplaceAll(s[|pat|..], pat, rep);
      assert ReplaceAll(s, pat, rep) == rep + u;
      HeadBeforeReplacement(x, s, u, pat, rep, i);
    } else {
      ReplaceAllSkip(s, pat, rep);
      ReplaceAllHeadOcc(x + [s[0]], s[1..], pat, rep, i);
      HeadShift(x, s[0], ReplaceAll(s[1..], pat, rep), s[1..], pat, i);
      assert [s[0]] + s[1..] == s;
    }
  }

  /** The step of `ReplaceAllHeadOcc` where `s` starts with `pat`. */
  lemma HeadBeforeReplacement(x: string, s: string, u: string, pat: string, rep: string, i: int)
    requires CleanReplacement(pat, rep) && 0 <= i < |x|
    ensures OccursAt(x + (rep + u), pat, i) ==> OccursAt(x + s, pat, i)
  {
    if i + |pat| <= |x| {
      WithinHead(x, rep + u, s, pat, i);
    } else {
      NoStraddleLeft(x, u, pat, rep, i);
    }
  }

  /** Moving one character from the tail onto the head keeps the implication. */
  lemma HeadShift(x: string, c: char, u: string, t: string, pat: string, i: int)
    requires OccursAt((x + [c]) + u, pat, i) ==> OccursAt((x + [c]) + t, pat, i)
    ensures OccursAt(x + ([c] + u), pat, i) ==> OccursAt(x + ([c] + t), pat, i)
  {
    assert (x + [c]) + u == x + ([c] + u);
    assert (x + [c]) + t == x + ([c] + t);
  }

  /** An occurrence inside `x` does not depend on what follows it. */
  lemma WithinHead(x: string, y: string, z: string, pat: string, i: int)
    requires 0 <= i && i + |pat| <= |x|
    ensures OccursAt(x + y, pat, i) <==> OccursAt(x + z, pat, i)
  {
    assert (x + y)[i..i + |pat|] == x[i..i + |pat|] == (x + z)[i..i + |pat|];
  }

  /** No occurrence starts in `x` and runs into a clean replacement. */
  lemma NoStraddleLeft(x: string, u: string, pat: string, rep: string, i: int)
    requires CleanReplacement(pat, rep) && 0 <= i < |x| < i + |pat|
    ensures !OccursAt(x + (rep + u), pat, i)
  {
    var w := x + (rep + u);
    if i + |pat| <= |w| {
      var k := i + |pat| - |x|;
      assert w[i..i + |pat|][|pat| - k..] == rep[..k];
    }
  }

  /** No occurrence starts in a clean replacement and runs past its end. */
  lemma NoStraddleRight(rep: string, rest: string, pat: string, i: int)
    requires CleanReplacement(pat, rep) && 0 <= i < |rep| < i + |pat| <= |rep + rest|
    ensures !OccursAt(rep + rest, pat, i)
  {
    var w := rep + rest;
    assert w[i..|rep|] == rep[i..];
    assert w[i..i + |pat|][..|rep| - i] == w[i..|rep|];
    assert rep[i..] != pat[..|rep| - i];
  }

  /** A clean replacement followed by a text without `pat` has no `pat`. */
  lemma CleanThenAbsent(rep: string, rest: string, pat: string)
    requires CleanReplacement(pat, rep)
    requires forall i :: !OccursAt(rest, pat, i)
    ensures forall i :: !OccursAt(rep + rest, pat, i)
  {
    var r := rep + rest;
    forall i | 0 <= i && i + |pat| <= |r| ensures !OccursAt(r, pat, i) {
      if i + |pat| <= |rep| {
        assert r[i..i + |pat|] == rep[i..i + |pat|];
        assert !OccursAt(rep, pat, i);
      } else if i >= |rep| {
        assert r[i..i + |pat|] == rest[i - |rep|..i - |rep| + |pat|];
        assert !OccursAt(rest, pat, i - |rep|);
      } else {
        NoStraddleRight(rep, rest, pat, i);
      }
    }
  }

  /** A character that does not start `pat` in `s`, followed by the
      replaced tail, starts no occurrence either. */
  lemma CopiedThenAbsent(s: string, pat: string, rep: string)
    requires CleanReplacement(pat, rep) && |s| >= |pat| && s[..|pat|] != pat
    requires forall i :: !OccursAt(ReplaceAll(s[1..], pat, rep), pat, i)
    ensures forall i :: !OccursAt([s[0]] + ReplaceAll(s[1..], pat, rep), pat, i)
  {
    var rest := ReplaceAll(s[1..], pat, rep);
    var r := [s[0]] + rest;
    forall i | 0 <= i && i + |pat| <= |r| ensures !OccursAt(r, pat, i) {
      if i == 0 {
        ReplaceAllHeadOcc([s[0]], s[1..], pat, rep, 0);
        assert [s[0]] + s[1..] == s;
      } else {
        assert r[i..i + |pat|] == rest[i - 1..i - 1 + |pat|];
        assert !OccursAt(rest, pat, i - 1);
      }
    }
  }

  /** With a clean replacement, `replace` leaves no occurrence of `pat`
      behind: every one was replaced and none was created. */
  lemma {:induction false} ReplaceAllGone(s: string, pat: string, rep: string)
    requires CleanReplacement(pat, rep)
    ensures forall i :: !OccursAt(ReplaceAll(s, pat, rep), pat, i)
    ensures !Contains(ReplaceAll(s, pat, rep), pat)
    decreases |s|
  {
    if |s| < |pat| {
    } else if s[..|pat|] == pat {
      ReplaceAllGone(s[|pat|..], pat, rep);
      CleanThenAbsent(rep, ReplaceAll(s[|pat|..], pat, rep), pat);
    } else {
      ReplaceAllGone(s[1..], pat, rep);
      CopiedThenAbsent(s, pat, rep);
    }
    ContainsIff(ReplaceAll(s, pat, rep), pat);
  }

  lemma Regroup(x: string, y: string, b: string)
    ensures x + y + b == x + (y + b)
  {
  }

  /** A head before a split text is a head before its first part. */
  lemma HeadSplit(h: string, ry: string, rb: string, ryb: string)
    requires ryb == ry + rb
    ensures h + ryb == (h + ry) + rb
  {
  }
}
