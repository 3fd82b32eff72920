/** Whole-word search and replace: the handful of regular expressions of the
    form `(?<!m1)(?<!m2)...\bNAME\b` (or `\bNAME(?=\s*\()`) that the formula
    rewriters hand to `re.sub`, written as an explicit left-to-right scanner
    with the same lookbehind, boundary and lookahead checks. */
module Words {
  import opened Text

  /** The regex `\b` at index `p` of `s`: exactly one side is a word character. */
  predicate Boundary(s: string, p: int)
    requires 0 <= p <= |s|
  {
    (p > 0 && IsWordChar(s[p - 1])) != (p < |s| && IsWordChar(s[p]))
  }

  /** Text equality, folding ASCII case when `ci` (regex IGNORECASE). */
  predicate SameText(x: string, y: string, ci: bool)
  {
    if ci then Upper(x) == Upper(y) else x == y
  }

  /** The text just before index `p` is `m` (up to case when `ci`): what a
      negative lookbehind `(?<!m)` rules out. */
  predicate PrecededBy(s: string, m: string, p: int, ci: bool)
  {
    |m| <= p <= |s| && SameText(s[p - |m|..p], m, ci)
  }

  /** One of the lookbehind texts `bs` ends at index `p`. */
  predicate BlockedBy(s: string, p: nat, bs: seq<string>, ci: bool)
  {
    |bs| > 0 && (PrecededBy(s, bs[0], p, ci) || BlockedBy(s, p, bs[1..], ci))
  }

  /** No lookbehind text fits before an index smaller than all of them. */
  lemma {:induction false} NotBlockedBefore(s: string, p: nat, bs: seq<string>, ci: bool)
    requires forall k :: 0 <= k < |bs| ==> p < |bs[k]|
    ensures !BlockedBy(s, p, bs, ci)
    decreases |bs|
  {
    if |bs| > 0 {
      NotBlockedBefore(s, p, bs[1..], ci);
    }
  }

  /** The index of the first non-whitespace character at or after `p`. */
  function SkipSpaces(s: string, p: nat): (q: nat)
    requires p <= |s|
    ensures p <= q <= |s|
    ensures q == |s| || !IsSpace(s[q])
    decreases |s| - p
  {
    if p < |s| && IsSpace(s[p]) then SkipSpaces(s, p + 1) else p
  }

  /** Only whitespace is skipped. */
  lemma {:induction false} SkipSpacesOnlySpaces(s: string, p: nat)
    requires p <= |s|
    ensures forall k :: p <= k < SkipSpaces(s, p) ==> IsSpace(s[k])
    decreases |s| - p
  {
    if p < |s| && IsSpace(s[p]) {
      SkipSpacesOnlySpaces(s, p + 1);
    }
  }

  /** In a text holding `piece` at `p`, skipping spaces from `p` reaches the
      stripped piece. */
  lemma StrippedAt(g: string, p: nat, piece: string)
    requires p + |piece| <= |g| && g[p..p + |piece|] == piece
    requires Trim(piece) != []
    ensures SkipSpaces(g, p) == p + LeadingSpaces(piece)
    ensures OccursAt(g, Trim(piece), p + LeadingSpaces(piece))
  {
    SkipToStripped(g, p, piece);
    StrippedOccurs(g, p, piece);
  }

  /** `StrippedAt` for a point already known to be where skipping stops. */
  lemma StrippedAtPoint(g: string, p: nat, piece: string, t: nat)
    requires p + |piece| <= |g| && g[p..p + |piece|] == piece
    requires Trim(piece) != [] && t == SkipSpaces(g, p)
    ensures t == p + LeadingSpaces(piece) && OccursAt(g, Trim(piece), t)
  {
    StrippedAt(g, p, piece);
  }

  lemma SkipToStripped(g: string, p: nat, piece: string)
    requires p + |piece| <= |g| && g[p..p + |piece|] == piece
    requires Trim(piece) != []
    ensures SkipSpaces(g, p) == p + LeadingSpaces(piece)
  {
    TrimNonEmpty(piece);
    SkipLeadingSpaces(g, p, piece);
  }

  lemma StrippedOccurs(g: string, p: nat, piece: string)
    requires p + |piece| <= |g| && g[p..p + |piece|] == piece
    ensures OccursAt(g, Trim(piece), p + LeadingSpaces(piece))
  {
    TrimInfix(piece);
    OccursInside(g, p, piece, LeadingSpaces(piece), Trim(piece));
  }

  /** A part of a piece occurs in the text where the piece does. */
  lemma OccursInside(g: string, p: nat, piece: string, l: nat, t: string)
    requires p + |piece| <= |g| && g[p..p + |piece|] == piece
    requires l + |t| <= |piece| && t == piece[l..l + |t|]
    ensures OccursAt(g, t, p + l)
  {
    SliceOfSlice(g, p, p + |piece|, l, l + |t|);
  }

  /** Skipping spaces over a piece of text with some non-space character
      stops where `lstrip` would. */
  lemma {:induction false} SkipLeadingSpaces(g: string, p: nat, piece: string)
    requires p + |piece| <= |g| && g[p..p + |piece|] == piece
    requires TrimLeft(piece) != []
    ensures SkipSpaces(g, p) == p + |piece| - |TrimLeft(piece)|
    decreases |piece|
  {
    assert g[p] == piece[0];
    if IsSpace(piece[0]) {
      assert g[p + 1..p + |piece|] == piece[1..];
      SkipLeadingSpaces(g, p + 1, piece[1..]);
    }
  }

  /** What has to follow the name: `\b`, or the lookahead `(?=\s*\()`. */
  datatype Tail = WordEnd | CallAhead

  /** One pattern: the literal name, the lookbehind blockers, IGNORECASE,
      whether a leading `\b` is required, and the trailing condition. */
  datatype Pattern = Pattern(name: string, blockers: seq<string>, ignoreCase: bool,
                             leadBoundary: bool, tail: Tail)

  predicate TailHolds(s: string, q: nat, t: Tail)
    requires q <= |s|
  {
    match t
    case WordEnd => Boundary(s, q)
    case CallAhead => SkipSpaces(s, q) < |s| && s[SkipSpaces(s, q)] == '('
  }

  /** The pattern matches starting at index `p`. */
  predicate MatchesAt(s: string, p: nat, pat: Pattern)
    requires p <= |s|
  {
    && p + |pat.name| <= |s|
    && SameText(s[p..p + |pat.name|], pat.name, pat.ignoreCase)
    && !BlockedBy(s, p, pat.blockers, pat.ignoreCase)
    && (pat.leadBoundary ==> Boundary(s, p))
    && TailHolds(s, p + |pat.name|, pat.tail)
  }

  /** `re.sub(pat, rep, s[i..])` with the lookarounds seeing all of `s`:
      a match is replaced and scanning resumes after it; an empty match
      inserts `rep` and the next character is copied. */
  function SubFrom(s: string, i: nat, pat: Pattern, rep: string): string
    requires i <= |s|
    decreases |s| - i
  {
    if MatchesAt(s, i, pat) then
      if |pat.name| > 0 then rep + SubFrom(s, i + |pat.name|, pat, rep)
      else if i < |s| then rep + [s[i]] + SubFrom(s, i + 1, pat, rep)
      else rep
    else if i < |s| then [s[i]] + SubFrom(s, i + 1, pat, rep)
    else []
  }

  function Sub(s: string, pat: Pattern, rep: string): string
  {
    SubFrom(s, 0, pat, rep)
  }

  /** The pattern matches nowhere in `[i, j)`. */
  predicate NoneFrom(s: string, i: nat, j: nat, pat: Pattern)
    requires i <= j <= |s|
    decreases j - i
  {
    i < j ==> !MatchesAt(s, i, pat) && NoneFrom(s, i + 1, j, pat)
  }

  /** Some match of `pat` starts in `s` at or after `i`. */
  predicate HasMatchFrom(s: string, i: nat, pat: Pattern)
    requires i <= |s|
    decreases |s| - i
  {
    MatchesAt(s, i, pat) || (i < |s| && HasMatchFrom(s, i + 1, pat))
  }

  /** Too close to the end for the name to fit, nothing matches. */
  lemma {:induction false} NoMatchNearEnd(s: string, i: nat, pat: Pattern)
    requires i <= |s| && |s| < i + |pat.name|
    ensures !HasMatchFrom(s, i, pat)
    decreases |s| - i
  {
    if i < |s| {
      NoMatchNearEnd(s, i + 1, pat);
    }
  }

  /** A pattern that matches nowhere from `i` on has no match from `i`. */
  lemma {:induction false} NoMatchAnywhere(s: string, i: nat, pat: Pattern)
    requires i <= |s|
    requires forall p :: i <= p <= |s| ==> !MatchesAt(s, p, pat)
    ensures !HasMatchFrom(s, i, pat)
    decreases |s| - i
  {
    if i < |s| {
      NoMatchAnywhere(s, i + 1, pat);
    }
  }

  /** Where nothing matches, `re.sub` copies the text. */
  lemma {:induction false} SubNoMatch(s: string, i: nat, pat: Pattern, rep: string)
    requires i <= |s|
    requires !HasMatchFrom(s, i, pat)
    ensures SubFrom(s, i, pat, rep) == s[i..]
    decreases |s| - i
  {
    if i < |s| {
      SubNoMatch(s, i + 1, pat, rep);
    }
  }

  /** One step of the scan past a position where nothing matches. */
  lemma SubSkip(s: string, i: nat, pat: Pattern, rep: string)
    requires i < |s| && !MatchesAt(s, i, pat)
    ensures SubFrom(s, i, pat, rep) == [s[i]] + SubFrom(s, i + 1, pat, rep)
  {
  }

  lemma SubHit(s: string, i: nat, pat: Pattern, rep: string)
    requires i <= |s| && |pat.name| > 0 && MatchesAt(s, i, pat)
    ensures i + |pat.name| <= |s|
    ensures SubFrom(s, i, pat, rep) == rep + SubFrom(s, i + |pat.name|, pat, rep)
  {
  }

  /** The inductive step of `SubFirstMatch`: one copied character more. */
  lemma SubFirstMatchStep(s: string, i: nat, p: nat, pat: Pattern, rep: string)
    requires i < p <= |s| && p + |pat.name| <= |s|
    requires !MatchesAt(s, i, pat)
    requires SubFrom(s, i + 1, pat, rep) == s[i + 1..p] + rep + SubFrom(s, p + |pat.name|, pat, rep)
    ensures SubFrom(s, i, pat, rep) == s[i..p] + rep + SubFrom(s, p + |pat.name|, pat, rep)
  {
    SubSkip(s, i, pat, rep);
    assert s[i..p] == [s[i]] + s[i + 1..p];
  }

  /** The text before the first match is copied, the match is replaced, and
      the scan carries on after it. */
  lemma {:induction false} SubFirstMatch(s: string, i: nat, p: nat, pat: Pattern, rep: string)
    requires i <= p <= |s| && |pat.name| > 0
    requires MatchesAt(s, p, pat)
    requires NoneFrom(s, i, p, pat)
    ensures p + |pat.name| <= |s|
    ensures SubFrom(s, i, pat, rep) == s[i..p] + rep + SubFrom(s, p + |pat.name|, pat, rep)
    decreases p - i
  {
    if i < p {
      SubFirstMatch(s, i + 1, p, pat, rep);
      SubFirstMatchStep(s, i, p, pat, rep);
    } else {
      SubHit(s, p, pat, rep);
    }
  }

  /** A scan that changes the text has put `rep` into it. */
  lemma SubChangedHasRep(s: string, pat: Pattern, rep: string)
    requires |pat.name| > 0
    requires Sub(s, pat, rep) != s
    ensures Contains(Sub(s, pat, rep), rep)
  {
    if !HasMatchFrom(s, 0, pat) {
      SubNoMatch(s, 0, pat, rep);
      assert false;
    }
    var p := FirstMatch(s, 0, pat);
    SubFirstMatch(s, 0, p, pat, rep);
    var r := Sub(s, pat, rep);
    assert r[p..p + |rep|] == rep;
    ContainsAt(r, rep, p);
  }

  /** The first match at or after `i`. */
  lemma {:induction false} FirstMatch(s: string, i: nat, pat: Pattern) returns (p: nat)
    requires i <= |s|
    requires HasMatchFrom(s, i, pat)
    ensures i <= p <= |s| && MatchesAt(s, p, pat)
    ensures NoneFrom(s, i, p, pat)
    decreases |s| - i
  {
    if MatchesAt(s, i, pat) {
      p := i;
    } else {
      p := FirstMatch(s, i + 1, pat);
    }
  }

  /** A non-empty name made of word characters only. */
  predicate WordName(name: string)
  {
    |name| > 0 && forall k :: 0 <= k < |name| ==> IsWordChar(name[k])
  }

  lemma SameTextWord(x: string, y: string, k: nat, ci: bool)
    requires SameText(x, y, ci) && k < |y| && IsWordChar(y[k])
    ensures k < |x| && IsWordChar(x[k])
  {
    if ci {
      UpperAt(x, k);
      UpperAt(y, k);
    }
  }

  /** Inside an occurrence of a word name there is no `\b`, so no second
      match can start there. */
  lemma NoMatchInside(s: string, p: nat, q: nat, pat: Pattern)
    requires WordName(pat.name) && pat.leadBoundary
    requires p <= |s| && MatchesAt(s, p, pat)
    requires p < q < p + |pat.name|
    ensures q <= |s| && !MatchesAt(s, q, pat)
  {
    var n := pat.name;
    var x := s[p..p + |n|];
    SameTextWord(x, n, q - 1 - p, pat.ignoreCase);
    SameTextWord(x, n, q - p, pat.ignoreCase);
    assert x[q - 1 - p] == s[q - 1] && x[q - p] == s[q];
    assert !Boundary(s, q);
  }

  /** Reference for a renaming that only adds a marker: `s[i..]` with `pre`
      inserted in front of every position where the pattern matches. */
  function Marked(s: string, i: nat, pat: Pattern, pre: string): (r: string)
    requires i <= |s|
    ensures |r| >= |s| - i
    decreases |s| - i
  {
    if i == |s| then []
    else (if MatchesAt(s, i, pat) then pre else []) + [s[i]] + Marked(s, i + 1, pat, pre)
  }

  lemma {:induction false} MarkedPlain(s: string, i: nat, j: nat, pat: Pattern, pre: string)
    requires i <= j <= |s|
    requires NoneFrom(s, i, j, pat)
    ensures Marked(s, i, pat, pre) == s[i..j] + Marked(s, j, pat, pre)
    decreases j - i
  {
    if i < j {
      MarkedPlain(s, i + 1, j, pat, pre);
      assert s[i..j] == [s[i]] + s[i + 1..j];
    }
  }

  /** No match starts inside a case-sensitive or case-folded match of a
      word name: from `q` to the end of the match at `p` nothing matches. */
  lemma {:induction false} NoMatchWithin(s: string, p: nat, q: nat, pat: Pattern)
    requires WordName(pat.name) && pat.leadBoundary
    requires p <= |s| && MatchesAt(s, p, pat)
    requires p < q <= p + |pat.name|
    ensures p + |pat.name| <= |s|
    ensures NoneFrom(s, q, p + |pat.name|, pat)
    decreases p + |pat.name| - q
  {
    if q < p + |pat.name| {
      NoMatchInside(s, p, q, pat);
      NoMatchWithin(s, p, q + 1, pat);
    }
  }

  lemma MarkedStep(s: string, i: nat, pat: Pattern, pre: string)
    requires i < |s|
    ensures Marked(s, i, pat, pre)
         == (if MatchesAt(s, i, pat) then pre else []) + [s[i]] + Marked(s, i + 1, pat, pre)
  {
  }

  /** A case-sensitive match of the name is the name itself. */
  lemma MatchedText(s: string, i: nat, pat: Pattern)
    requires i <= |s| && !pat.ignoreCase && MatchesAt(s, i, pat)
    ensures s[i..i + |pat.name|] == pat.name
  {
  }

  /** The reference copies the rest of a match verbatim. */
  lemma MarkedAcross(s: string, i: nat, pat: Pattern, pre: string)
    requires WordName(pat.name) && pat.leadBoundary
    requires i <= |s| && MatchesAt(s, i, pat)
    ensures i + |pat.name| <= |s|
    ensures Marked(s, i + 1, pat, pre) == s[i + 1..i + |pat.name|] + Marked(s, i + |pat.name|, pat, pre)
  {
    NoMatchWithin(s, i, i + 1, pat);
    MarkedPlain(s, i + 1, i + |pat.name|, pat, pre);
  }

  /** A non-empty name is its first character and the rest. */
  lemma NameSplit(s: string, i: nat, n: string)
    requires |n| > 0 && i + |n| <= |s| && s[i..i + |n|] == n
    ensures n == [s[i]] + s[i + 1..i + |n|]
  {
    assert n[0] == s[i];
    assert n[1..] == s[i + 1..i + |n|];
  }

  /** The sequence bookkeeping of `MarkingHit`. */
  lemma Splice(pre: string, n: string, c: string, mid: string, tail: string)
    requires n == c + mid
    ensures pre + n + tail == pre + c + (mid + tail)
  {
  }

  /** What the scan and the reference do at a match. */
  lemma HitFacts(s: string, i: nat, pat: Pattern, pre: string)
    requires i <= |s|
    requires WordName(pat.name) && pat.leadBoundary && !pat.ignoreCase
    requires MatchesAt(s, i, pat)
    ensures i < |s| && i + |pat.name| <= |s|
    ensures SubFrom(s, i, pat, pre + pat.name)
            == pre + pat.name + SubFrom(s, i + |pat.name|, pat, pre + pat.name)
    ensures Marked(s, i, pat, pre)
            == pre + [s[i]] + (s[i + 1..i + |pat.name|] + Marked(s, i + |pat.name|, pat, pre))
    ensures pat.name == [s[i]] + s[i + 1..i + |pat.name|]
  {
    MarkedAcross(s, i, pat, pre);
    SubHit(s, i, pat, pre + pat.name);
    MarkedStep(s, i, pat, pre);
    MatchedText(s, i, pat);
    NameSplit(s, i, pat.name);
  }

  /** At a match, the scan and the reference agree once they agree after it. */
  lemma MarkingHit(s: string, i: nat, pat: Pattern, pre: string)
    requires i <= |s|
    requires WordName(pat.name) && pat.leadBoundary && !pat.ignoreCase
    requires MatchesAt(s, i, pat)
    requires i + |pat.name| <= |s|
    requires SubFrom(s, i + |pat.name|, pat, pre + pat.name) == Marked(s, i + |pat.name|, pat, pre)
    ensures SubFrom(s, i, pat, pre + pat.name) == Marked(s, i, pat, pre)
  {
    HitFacts(s, i, pat, pre);
    Splice(pre, pat.name, [s[i]], s[i + 1..i + |pat.name|], Marked(s, i + |pat.name|, pat, pre));
  }

  /** Case-sensitive renaming of a word name to `pre + name` is exactly the
      insertion of `pre` before every match: no other character changes. */
  lemma {:induction false} SubIsMarking(s: string, i: nat, pat: Pattern, pre: string)
    requires i <= |s|
    requires WordName(pat.name) && pat.leadBoundary && !pat.ignoreCase
    ensures SubFrom(s, i, pat, pre + pat.name) == Marked(s, i, pat, pre)
    decreases |s| - i
  {
    if MatchesAt(s, i, pat) {
      SubIsMarking(s, i + |pat.name|, pat, pre);
      MarkingHit(s, i, pat, pre);
    } else if i < |s| {
      SubIsMarking(s, i + 1, pat, pre);
      SubSkip(s, i, pat, pre + pat.name);
    }
  }
}
