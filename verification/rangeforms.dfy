/** The trim-range forms (`_convert_tro_notations`, `_convert_tro_match`):
    `a.:.b`, `a:.b` and `a.:b` between two cell, column or row endpoints,
    optionally behind a sheet name, become `_xlfn._TRO_ALL(a:b)`,
    `_xlfn._TRO_TRAILING(a:b)` and `_xlfn._TRO_LEADING(a:b)`.

    Each form is one `re.sub` of `([A-Za-z_][\w\.]*!)?` + CELL + SEP + CELL
    with CELL = `(\$?[A-Z]+\$?\d+|\$?[A-Z]+|\$?\d+)`, written here as a
    left-to-right scanner.  The regex has no anchor or boundary in front, so
    a match may start in the middle of a word. */
module RangeForms {
  import opened Text

  /** The three forms, in the order they are rewritten. */
  datatype Form = All | Trailing | Leading

  /** The separator each form recognises. */
  function Sep(f: Form): string
  {
    match f
    case All => ".:."
    case Trailing => ":."
    case Leading => ".:"
  }

  /** The function each form is rewritten to. */
  function FuncName(f: Form): string
  {
    match f
    case All => "_xlfn._TRO_ALL"
    case Trailing => "_xlfn._TRO_TRAILING"
    case Leading => "_xlfn._TRO_LEADING"
  }

  /** The character classes the scanner runs over. */
  datatype Class = Letters | Digits | SheetChars

  predicate InClass(c: char, k: Class)
  {
    match k
    case Letters => IsUpper(c)
    case Digits => IsDigit(c)
    case SheetChars => IsWordChar(c) || c == '.'
  }

  /** The end of the longest run of class `k` starting at `i` (a greedy
      `[...]*`). */
  function RunEnd(s: string, i: nat, k: Class): (e: nat)
    requires i <= |s|
    ensures i <= e <= |s|
    ensures e == |s| || !InClass(s[e], k)
    decreases |s| - i
  {
    if i < |s| && InClass(s[i], k) then RunEnd(s, i + 1, k) else i
  }

  /** Everything the run passes over is in the class. */
  lemma {:induction false} RunInClass(s: string, i: nat, k: Class, j: nat)
    requires i <= |s| && i <= j < RunEnd(s, i, k)
    ensures InClass(s[j], k)
    decreases |s| - i
  {
    if i < j {
      RunInClass(s, i + 1, k, j);
    }
  }

  /** A run stops at the first character outside the class. */
  lemma {:induction false} RunStops(s: string, i: nat, k: Class, e: nat)
    requires i <= e <= |s|
    requires forall j :: i <= j < e ==> InClass(s[j], k)
    requires e == |s| || !InClass(s[e], k)
    ensures RunEnd(s, i, k) == e
    decreases e - i
  {
    if i < e {
      RunStops(s, i + 1, k, e);
    }
  }

  /** Where a cell endpoint starting at `i` ends: an optional `$`, then the
      first alternative that matches, each taken greedily -- letters with an
      optional `$` and digits, else letters, else digits.  None when no
      alternative matches.

      Taking each alternative greedily is exact here: a cell is followed
      either by nothing the pattern constrains or by a separator, whose
      first character is neither `$`, a letter nor a digit, so no shorter
      choice of the regex engine could succeed where the greedy one fails. */
  function CellEnd(s: string, i: nat): (r: Option<nat>)
    requires i <= |s|
    ensures r.Some? ==> i < r.value <= |s|
  {
    var j := if i < |s| && s[i] == '$' then i + 1 else i;
    var l := RunEnd(s, j, Letters);
    if l > j then
      if l + 1 < |s| && s[l] == '$' && IsDigit(s[l + 1]) then Some(RunEnd(s, l + 1, Digits))
      else if l < |s| && IsDigit(s[l]) then Some(RunEnd(s, l, Digits))
      else Some(l)
    else if j < |s| && IsDigit(s[j]) then Some(RunEnd(s, j, Digits))
    else None
  }

  /** Where the sheet group `[A-Za-z_][\w\.]*!` starting at `i` ends (just
      after the `!`).  The run cannot give back characters to find the `!`,
      since `!` is not in it. */
  function SheetEnd(s: string, i: nat): (r: Option<nat>)
    requires i <= |s|
    ensures r.Some? ==> i + 2 <= r.value <= |s| && s[r.value - 1] == '!'
  {
    if i < |s| && (IsUpper(s[i]) || IsLower(s[i]) || s[i] == '_') then
      var e := RunEnd(s, i + 1, SheetChars);
      if e < |s| && s[e] == '!' then Some(e + 1) else None
    else None
  }

  /** One match: the sheet name without its `!` (when the optional group
      matched), the two endpoints, and where the match ends. */
  datatype Range = Range(sheet: Option<string>, first: string, last: string, end: nat)

  /** Endpoint, separator, endpoint starting at `p`. */
  function CellsAt(s: string, p: nat, f: Form, sheet: Option<string>): (r: Option<Range>)
    requires p <= |s|
    ensures r.Some? ==> p < r.value.end <= |s|
  {
    match CellEnd(s, p)
    case None => None
    case Some(e1) =>
      if !OccursAt(s, Sep(f), e1) then None
      else
        match CellEnd(s, e1 + |Sep(f)|)
        case None => None
        case Some(e2) => Some(Range(sheet, s[p..e1], s[e1 + |Sep(f)|..e2], e2))
  }

  /** The pattern at `i` with the optional sheet group taking part. */
  function SheetAttempt(s: string, i: nat, f: Form): (r: Option<Range>)
    requires i <= |s|
    ensures r.Some? ==> i < r.value.end <= |s|
  {
    match SheetEnd(s, i)
    case None => None
    case Some(k) => CellsAt(s, k, f, Some(s[i..k - 1]))
  }

  /** The pattern at `i`: the optional sheet group is tried first, and when
      the rest fails after it the engine backtracks to match without it. */
  function MatchAt(s: string, i: nat, f: Form): (r: Option<Range>)
    requires i <= |s|
    ensures r.Some? ==> i < r.value.end <= |s|
  {
    if SheetAttempt(s, i, f).Some? then SheetAttempt(s, i, f) else CellsAt(s, i, f, None)
  }

  /** The argument of the call a match is replaced by: the sheet name, when
      there is one, is put in front of both endpoints. */
  function Inner(m: Range): string
  {
    match m.sheet
    case Some(n) => n + "!" + m.first + ":" + n + "!" + m.last
    case None => m.first + ":" + m.last
  }

  /** The function-call text a match is replaced by. */
  function Call(m: Range, f: Form): string
  {
    FuncName(f) + "(" + Inner(m) + ")"
  }

  /** The sheet name and its `!`, when there is one. */
  function SheetPart(m: Range): string
  {
    match m.sheet
    case Some(n) => n + "!"
    case None => ""
  }

  /** The text a match covers, rebuilt from its parts. */
  function Source(m: Range, f: Form): string
  {
    SheetPart(m) + m.first + Sep(f) + m.last
  }

  /** `re.sub(pattern, convert, s[i..])`. */
  function RewriteFrom(s: string, i: nat, f: Form): string
    requires i <= |s|
    decreases |s| - i
  {
    if i == |s| then []
    else
      match MatchAt(s, i, f)
      case Some(m) => Call(m, f) + RewriteFrom(s, m.end, f)
      case None => [s[i]] + RewriteFrom(s, i + 1, f)
  }

  /** One step of the rewrite where no match starts. */
  lemma RewriteMiss(s: string, i: nat, f: Form)
    requires i < |s| && MatchAt(s, i, f) == None
    ensures RewriteFrom(s, i, f) == [s[i]] + RewriteFrom(s, i + 1, f)
  {
  }

  function Rewrite(s: string, f: Form): string
  {
    RewriteFrom(s, 0, f)
  }

  /** `_convert_tro_notations`: the three forms, `.:.` first. */
  function Convert(s: string): string
  {
    Rewrite(Rewrite(Rewrite(s, All), Trailing), Leading)
  }

  // ---------------------------------------------------------------------
  // What a match covers

  /** Characters an endpoint is made of. */
  predicate CellChar(c: char)
  {
    c == '$' || IsUpper(c) || IsDigit(c)
  }

  predicate CellText(c: string)
  {
    |c| > 0 && forall j :: 0 <= j < |c| ==> CellChar(c[j])
  }

  /** A sheet name as the group admits it, without the `!`. */
  predicate SheetName(n: string)
  {
    && |n| > 0 && (IsUpper(n[0]) || IsLower(n[0]) || n[0] == '_')
    && forall j :: 1 <= j < |n| ==> IsWordChar(n[j]) || n[j] == '.'
  }

  /** The parts of a match have the shapes the pattern admits. */
  predicate Shaped(m: Range)
  {
    && CellText(m.first) && CellText(m.last)
    && (m.sheet.Some? ==> SheetName(m.sheet.value))
  }

  /** The characters a cell endpoint spans are cell characters. */
  lemma CellEndChars(s: string, i: nat)
    requires i <= |s| && CellEnd(s, i).Some?
    ensures CellText(s[i..CellEnd(s, i).value])
  {
    var e := CellEnd(s, i).value;
    var j := if i < |s| && s[i] == '$' then i + 1 else i;
    var l := RunEnd(s, j, Letters);
    forall q | i <= q < e ensures CellChar(s[q]) {
      if q >= j {
        if q < l {
          RunInClass(s, j, Letters, q);
        } else if l > j && l + 1 < |s| && s[l] == '$' && IsDigit(s[l + 1]) {
          if q > l {
            RunInClass(s, l + 1, Digits, q);
          }
        } else if l > j {
          RunInClass(s, l, Digits, q);
        } else {
          RunInClass(s, j, Digits, q);
        }
      }
    }
    assert forall q :: 0 <= q < e - i ==> s[i..e][q] == s[i + q];
  }

  /** The characters a sheet group spans form a sheet name. */
  lemma SheetEndName(s: string, i: nat)
    requires i <= |s| && SheetEnd(s, i).Some?
    ensures SheetName(s[i..SheetEnd(s, i).value - 1])
  {
    var k := SheetEnd(s, i).value;
    var n := s[i..k - 1];
    forall q | 1 <= q < |n| ensures IsWordChar(n[q]) || n[q] == '.' {
      assert n[q] == s[i + q];
      RunInClass(s, i + 1, SheetChars, i + q);
    }
  }

  /** What a match of the endpoints is made of: the two cell ends and the
      separator between them. */
  lemma CellsAtParts(s: string, p: nat, f: Form, sheet: Option<string>, m: Range)
    requires p <= |s| && CellsAt(s, p, f, sheet) == Some(m)
    ensures CellEnd(s, p).Some? && OccursAt(s, Sep(f), CellEnd(s, p).value)
    ensures var q := CellEnd(s, p).value + |Sep(f)|;
            q <= |s| && CellEnd(s, q) == Some(m.end)
    ensures m.first == s[p..CellEnd(s, p).value]
    ensures m.last == s[CellEnd(s, p).value + |Sep(f)|..m.end]
    ensures m.sheet == sheet
  {
  }

  /** A match of the endpoints covers endpoint, separator, endpoint. */
  lemma CellsAtCovers(s: string, p: nat, f: Form, sheet: Option<string>, m: Range)
    requires p <= |s| && CellsAt(s, p, f, sheet) == Some(m)
    ensures s[p..m.end] == m.first + Sep(f) + m.last
    ensures CellText(m.first) && CellText(m.last) && m.sheet == sheet
  {
    CellsAtParts(s, p, f, sheet, m);
    var e1 := CellEnd(s, p).value;
    var q := e1 + |Sep(f)|;
    CellEndChars(s, p);
    CellEndChars(s, q);
    SliceJoin(s, p, e1, m.end);
    SliceJoin(s, e1, q, m.end);
  }

  lemma SourceSheet(m: Range, f: Form, n: string)
    requires m.sheet == Some(n)
    ensures Source(m, f) == n + ("!" + (m.first + Sep(f) + m.last))
  {
  }

  lemma SourcePlain(m: Range, f: Form)
    requires m.sheet.None?
    ensures Source(m, f) == m.first + Sep(f) + m.last
  {
  }

  /** The sheet alternative: name, `!`, and the endpoints after them. */
  lemma SheetCovers(s: string, i: nat, k: nat, f: Form, m: Range)
    requires i < k <= m.end <= |s| && s[k - 1] == '!' && m.sheet == Some(s[i..k - 1])
    requires s[k..m.end] == m.first + Sep(f) + m.last
    ensures s[i..m.end] == Source(m, f)
  {
    var n := s[i..k - 1];
    var body := m.first + Sep(f) + m.last;
    SliceJoin(s, k - 1, k, m.end);
    assert s[k - 1..k] == "!";
    assert s[k - 1..m.end] == "!" + body;
    SliceJoin(s, i, k - 1, m.end);
    SourceSheet(m, f, n);
  }

  lemma ShapedSheet(m: Range, n: string)
    requires CellText(m.first) && CellText(m.last) && m.sheet == Some(n) && SheetName(n)
    ensures Shaped(m)
  {
  }

  /** A match found behind a sheet name. */
  lemma SheetMatchCovers(s: string, i: nat, k: nat, f: Form, m: Range)
    requires i <= |s| && SheetEnd(s, i) == Some(k)
    requires CellsAt(s, k, f, Some(s[i..k - 1])) == Some(m)
    ensures s[i..m.end] == Source(m, f) && Shaped(m)
  {
    var n := s[i..k - 1];
    SheetEndName(s, i);
    CellsAtCovers(s, k, f, Some(n), m);
    SheetCovers(s, i, k, f, m);
    ShapedSheet(m, n);
  }

  /** A match found without a sheet name. */
  lemma PlainMatchCovers(s: string, i: nat, f: Form, m: Range)
    requires i <= |s| && CellsAt(s, i, f, None) == Some(m)
    ensures s[i..m.end] == Source(m, f) && Shaped(m)
  {
    CellsAtCovers(s, i, f, None, m);
    SourcePlain(m, f);
  }

  /** Soundness of the scanner: a match covers exactly the text it
      describes, and its parts have the shapes the pattern admits. */
  lemma MatchCovers(s: string, i: nat, f: Form, m: Range)
    requires i <= |s| && MatchAt(s, i, f) == Some(m)
    ensures s[i..m.end] == Source(m, f) && Shaped(m)
  {
    if SheetAttempt(s, i, f).Some? {
      SheetMatchCovers(s, i, SheetEnd(s, i).value, f, m);
    } else {
      PlainMatchCovers(s, i, f, m);
    }
  }

  // ---------------------------------------------------------------------
  // Reading a call back

  /** The first index of `c` in `s`, or -1. */
  function IndexOf(s: string, c: char): (r: int)
    ensures -1 <= r < |s|
    ensures r >= 0 ==> s[r] == c
  {
    if s == [] then -1
    else if s[0] == c then 0
    else if IndexOf(s[1..], c) < 0 then -1
    else IndexOf(s[1..], c) + 1
  }

  /** `c` is found right after a prefix free of it. */
  lemma {:induction false} IndexOfAfter(a: string, c: char, b: string)
    requires forall j :: 0 <= j < |a| ==> a[j] != c
    ensures IndexOf(a + [c] + b, c) == |a|
  {
    if a != [] {
      assert (a + [c] + b)[1..] == a[1..] + [c] + b;
      IndexOfAfter(a[1..], c, b);
    }
  }

  /** `c` is not found in a text free of it. */
  lemma {:induction false} IndexOfAbsent(a: string, c: char)
    requires forall j :: 0 <= j < |a| ==> a[j] != c
    ensures IndexOf(a, c) == -1
  {
    if a != [] {
      IndexOfAbsent(a[1..], c);
    }
  }

  /** Strips `head` in front and `)` behind. */
  function Unwrap(t: string, head: string): Option<string>
  {
    if |t| < |head| + 1 || t[..|head|] != head || t[|t| - 1] != ')' then None
    else Some(t[|head|..|t| - 1])
  }

  /** Reads an argument back as range text with separator `sep`: split at
      the first `:` and, on its left, at the first `!`; a sheet name on the
      left must be repeated on the right. */
  function Uninner(inner: string, sep: string): Option<string>
  {
    var colon := IndexOf(inner, ':');
    if colon < 0 then None
    else
      var left := inner[..colon];
      var right := inner[colon + 1..];
      var bang := IndexOf(left, '!');
      if bang < 0 then Some(left + sep + right)
      else
        var n := left[..bang];
        if |right| < |n| + 1 || right[..|n| + 1] != n + "!" then None
        else Some(n + "!" + left[bang + 1..] + sep + right[|n| + 1..])
  }

  /** The inverse of `Call`. */
  function Uncall(t: string, f: Form): Option<string>
  {
    match Unwrap(t, FuncName(f) + "(")
    case None => None
    case Some(inner) => Uninner(inner, Sep(f))
  }

  lemma UnwrapWrap(head: string, x: string)
    ensures Unwrap(head + x + ")", head) == Some(x)
  {
    var t := head + x + ")";
    assert t[..|head|] == head;
    assert t[|head|..|t| - 1] == x;
  }

  /** Neither `:` nor `!` occurs in an endpoint or a sheet name. */
  lemma ShapedFree(m: Range)
    requires Shaped(m)
    ensures forall j :: 0 <= j < |m.first| ==> m.first[j] != ':' && m.first[j] != '!'
    ensures m.sheet.Some? ==> forall j :: 0 <= j < |m.sheet.value| ==> m.sheet.value[j] != ':' && m.sheet.value[j] != '!'
  {
  }

  /** Reading back an argument without a sheet. */
  lemma UninnerPlain(a: string, b: string, sep: string)
    requires forall j :: 0 <= j < |a| ==> a[j] != ':' && a[j] != '!'
    ensures Uninner(a + ":" + b, sep) == Some(a + sep + b)
  {
    var inner := a + ":" + b;
    IndexOfAfter(a, ':', b);
    assert inner[..|a|] == a;
    assert inner[|a| + 1..] == b;
    IndexOfAbsent(a, '!');
  }

  /** Reading back an argument with a sheet. */
  lemma UninnerSheet(n: string, a: string, b: string, sep: string)
    requires forall j :: 0 <= j < |n| ==> n[j] != ':' && n[j] != '!'
    requires forall j :: 0 <= j < |a| ==> a[j] != ':'
    ensures Uninner(n + "!" + a + ":" + n + "!" + b, sep) == Some(n + "!" + a + sep + b)
  {
    var left := n + "!" + a;
    var right := n + "!" + b;
    var inner := left + ":" + right;
    assert inner == n + "!" + a + ":" + n + "!" + b;
    forall j | 0 <= j < |left| ensures left[j] != ':' {
      if j > |n| {
        assert left[j] == a[j - |n| - 1];
      }
    }
    IndexOfAfter(left, ':', right);
    assert inner[..|left|] == left;
    assert inner[|left| + 1..] == right;
    IndexOfAfter(n, '!', a);
    assert left[..|n|] == n;
    assert left[|n| + 1..] == a;
    assert right[..|n| + 1] == n + "!";
    assert right[|n| + 1..] == b;
  }

  /** The call a match is replaced by determines the text it replaced. */
  lemma UncallCall(m: Range, f: Form)
    requires Shaped(m)
    ensures Uncall(Call(m, f), f) == Some(Source(m, f))
  {
    UnwrapWrap(FuncName(f) + "(", Inner(m));
    ShapedFree(m);
    if m.sheet.Some? {
      UninnerSheet(m.sheet.value, m.first, m.last, Sep(f));
    } else {
      UninnerPlain(m.first, m.last, Sep(f));
      SourcePlain(m, f);
    }
  }

  /** Every rewrite step can be undone: the call put in for a match reads
      back as the very text it replaced. */
  lemma RewriteStepInvertible(s: string, i: nat, f: Form)
    requires i <= |s| && MatchAt(s, i, f).Some?
    ensures Uncall(Call(MatchAt(s, i, f).value, f), f) == Some(s[i..MatchAt(s, i, f).value.end])
  {
    MatchCovers(s, i, f, MatchAt(s, i, f).value);
    UncallCall(MatchAt(s, i, f).value, f);
  }

  // ---------------------------------------------------------------------
  // Text without the separator

  /** The separator of `f` at `p`, with a cell character on either side:
      the least a match needs. */
  predicate Enclosed(s: string, p: int, f: Form)
  {
    && 0 < p && p + |Sep(f)| < |s| && OccursAt(s, Sep(f), p)
    && CellChar(s[p - 1]) && CellChar(s[p + |Sep(f)|])
  }

  /** The character facts of a covered match. */
  lemma EnclosedBy(s: string, i: nat, a: string, x: string, b: string)
    requires |a| > 0 && |b| > 0 && CellChar(a[|a| - 1]) && CellChar(b[0])
    requires i + |a + x + b| <= |s| && s[i..i + |a + x + b|] == a + x + b
    ensures OccursAt(s, x, i + |a|)
    ensures s[i + |a| - 1] == a[|a| - 1] && s[i + |a| + |x|] == b[0]
  {
    OccursMiddle(s, i, a, x, b);
    var w := a + x + b;
    assert s[i + |a| - 1] == w[|a| - 1];
    assert s[i + |a| + |x|] == w[|a| + |x|];
  }

  /** The separator of a covered match is enclosed by cell characters. */
  lemma CoveredEnclosed(s: string, i: nat, f: Form, m: Range)
    requires i <= m.end <= |s| && s[i..m.end] == Source(m, f) && Shaped(m)
    ensures Enclosed(s, i + |SheetPart(m)| + |m.first|, f)
  {
    var a, x := SheetPart(m) + m.first, Sep(f);
    ShapedEnds(m);
    assert Source(m, f) == a + x + m.last;
    EnclosedBy(s, i, a, x, m.last);
    EnclosedFrom(s, i + |a|, f, x);
  }

  lemma EnclosedFrom(s: string, p: int, f: Form, x: string)
    requires x == Sep(f) && 0 < p && p + |x| < |s| && OccursAt(s, x, p)
    requires CellChar(s[p - 1]) && CellChar(s[p + |x|])
    ensures Enclosed(s, p, f)
  {
  }

  /** The characters on either side of a shaped match's separator. */
  lemma ShapedEnds(m: Range)
    requires Shaped(m)
    ensures var a := SheetPart(m) + m.first;
      |a| > 0 && CellChar(a[|a| - 1]) && |m.last| > 0 && CellChar(m.last[0])
  {
    var a := SheetPart(m) + m.first;
    assert a[|a| - 1] == m.first[|m.first| - 1];
  }

  /** Every match has its separator enclosed by cell characters. */
  lemma MatchEnclosed(s: string, i: nat, f: Form, m: Range)
    requires i <= |s| && MatchAt(s, i, f) == Some(m)
    ensures Enclosed(s, i + |SheetPart(m)| + |m.first|, f)
  {
    MatchCovers(s, i, f, m);
    CoveredEnclosed(s, i, f, m);
  }

  /** Where no separator of the form sits between cell characters, its pass
      copies the text. */
  lemma {:induction false} RewriteFromNotEnclosed(s: string, i: nat, f: Form)
    requires i <= |s| && forall p :: !Enclosed(s, p, f)
    ensures RewriteFrom(s, i, f) == s[i..]
    decreases |s| - i
  {
    if i < |s| {
      if MatchAt(s, i, f).Some? {
        MatchEnclosed(s, i, f, MatchAt(s, i, f).value);
      }
      RewriteFromNotEnclosed(s, i + 1, f);
    }
  }

  lemma RewriteNotEnclosed(s: string, f: Form)
    requires forall p :: !Enclosed(s, p, f)
    ensures Rewrite(s, f) == s
  {
    RewriteFromNotEnclosed(s, 0, f);
  }

  /** Without its separator, a form's pass copies the text. */
  lemma RewriteNoSep(s: string, f: Form)
    requires !Contains(s, Sep(f))
    ensures Rewrite(s, f) == s
  {
    forall p ensures !Enclosed(s, p, f) {
      if Enclosed(s, p, f) {
        ContainsAt(s, Sep(f), p);
      }
    }
    RewriteNotEnclosed(s, f);
  }

  /** `.:.` contains `.:`. */
  lemma AllHasLeading(s: string)
    requires Contains(s, ".:.")
    ensures Contains(s, ".:")
  {
    ContainsIff(s, ".:.");
    var p :| OccursAt(s, ".:.", p);
    assert s[p..p + 2] == s[p..p + 3][..2];
    ContainsAt(s, ".:", p);
  }

  /** Text without `.:` and `:.` passes through all three forms unchanged:
      plain ranges such as `A1:B10` are left alone. */
  lemma ConvertPlain(s: string)
    requires !Contains(s, ".:") && !Contains(s, ":.")
    ensures Convert(s) == s
  {
    if Contains(s, ".:.") {
      AllHasLeading(s);
    }
    RewriteNoSep(s, All);
    RewriteNoSep(s, Trailing);
    RewriteNoSep(s, Leading);
  }

  // ---------------------------------------------------------------------
  // Examples

  /** `a` is never directly followed by `b` in `t`. */
  predicate NoAdjacent(t: string, a: char, b: char)
  {
    forall i :: 0 <= i < |t| - 1 ==> !(t[i] == a && t[i + 1] == b)
  }

  /** An occurrence of a two-character text is its two characters. */
  lemma PairAt(t: string, a: char, b: char, j: int)
    ensures OccursAt(t, [a, b], j) <==> 0 <= j && j + 2 <= |t| && t[j] == a && t[j + 1] == b
  {
    if 0 <= j && j + 2 <= |t| {
      assert t[j..j + 2][0] == t[j] && t[j..j + 2][1] == t[j + 1];
    }
  }

  /** A text in which `a` never precedes `b` does not contain `ab`. */
  lemma NoAdjacentAbsent(t: string, a: char, b: char)
    requires NoAdjacent(t, a, b)
    ensures !Contains(t, [a, b])
  {
    forall j ensures !OccursAt(t, [a, b], j) {
      PairAt(t, a, b, j);
    }
    ContainsIff(t, [a, b]);
  }

  /** A result without `:.` and `.:` is left alone by the later forms. */
  lemma LaterFormsKeep(t: string)
    requires NoAdjacent(t, ':', '.') && NoAdjacent(t, '.', ':')
    ensures Rewrite(Rewrite(t, Trailing), Leading) == t
  {
    NoAdjacentAbsent(t, ':', '.');
    NoAdjacentAbsent(t, '.', ':');
    RewriteNoSep(t, Trailing);
    RewriteNoSep(t, Leading);
  }

  lemma ExampleAllEnds(s: string)
    requires s == "A1.:.B10"
    ensures SheetEnd(s, 0) == None && CellEnd(s, 0) == Some(2) && CellEnd(s, 5) == Some(8)
  {
    RunStops(s, 1, SheetChars, 3);
    RunStops(s, 0, Letters, 1);
    RunStops(s, 1, Digits, 2);
    RunStops(s, 5, Letters, 6);
    RunStops(s, 6, Digits, 8);
  }

  lemma ExampleAllMatch(s: string)
    requires s == "A1.:.B10"
    ensures MatchAt(s, 0, All) == Some(Range(None, "A1", "B10", 8))
  {
    ExampleAllEnds(s);
    assert s[0..2] == "A1" && s[5..8] == "B10";
  }

  lemma ExampleAllPass(s: string)
    requires s == "A1.:.B10"
    ensures Rewrite(s, All) == "_xlfn._TRO_ALL(A1:B10)"
  {
    ExampleAllMatch(s);
    assert RewriteFrom(s, 8, All) == [];
  }

  lemma ExampleAllSeps(t: string)
    requires t == "_xlfn._TRO_ALL(A1:B10)"
    ensures NoAdjacent(t, ':', '.') && NoAdjacent(t, '.', ':')
  {
  }

  /** `A1.:.B10` becomes `_xlfn._TRO_ALL(A1:B10)`. */
  lemma ExampleAll(s: string)
    requires s == "A1.:.B10"
    ensures Convert(s) == "_xlfn._TRO_ALL(A1:B10)"
  {
    var t := "_xlfn._TRO_ALL(A1:B10)";
    ExampleAllPass(s);
    ExampleAllSeps(t);
    LaterFormsKeep(t);
  }

  /** No form applies to `s`. */
  predicate Inert(s: string)
  {
    forall p :: 0 < p < |s| ==> !Enclosed(s, p, All) && !Enclosed(s, p, Trailing) && !Enclosed(s, p, Leading)
  }

  lemma InertKept(s: string)
    requires Inert(s)
    ensures Convert(s) == s
  {
    assert forall p :: !Enclosed(s, p, All) && !Enclosed(s, p, Trailing) && !Enclosed(s, p, Leading) by {
      forall p ensures !Enclosed(s, p, All) && !Enclosed(s, p, Trailing) && !Enclosed(s, p, Leading) {
        if 0 < p < |s| {
          assert !Enclosed(s, p, All);
        }
      }
    }
    RewriteNotEnclosed(s, All);
    RewriteNotEnclosed(s, Trailing);
    RewriteNotEnclosed(s, Leading);
  }

  /** The characters an occurrence of a separator pins down. */
  lemma SepChars(s: string, p: int, f: Form)
    ensures OccursAt(s, Sep(f), p) ==> s[p] == Sep(f)[0] && s[p + 1] == Sep(f)[1]
    ensures OccursAt(s, Sep(f), p) && f == All ==> s[p + 2] == '.'
  {
    if OccursAt(s, Sep(f), p) {
      assert s[p..p + |Sep(f)|][0] == s[p] && s[p..p + |Sep(f)|][1] == s[p + 1];
      if f == All {
        assert s[p..p + 3][2] == s[p + 2];
      }
    }
  }

  lemma LowerCaseInert(s: string)
    requires s == "a1.:.b10"
    ensures Inert(s)
  {
    forall p | 0 < p < |s| ensures !Enclosed(s, p, All) && !Enclosed(s, p, Trailing) && !Enclosed(s, p, Leading) {
      SepChars(s, p, All);
      SepChars(s, p, Trailing);
      SepChars(s, p, Leading);
    }
  }

  /** Lower-case endpoints are not converted: `a1.:.b10` stays as it is. */
  lemma ExampleLowerCase(s: string)
    requires s == "a1.:.b10"
    ensures Convert(s) == s
  {
    LowerCaseInert(s);
    InertKept(s);
  }

  lemma ExampleSheetName(s: string)
    requires s == "Sheet1!A1.:.B10"
    ensures SheetEnd(s, 0) == Some(7)
  {
    RunStops(s, 1, SheetChars, 6);
  }

  lemma ExampleSheetEnds(s: string)
    requires s == "Sheet1!A1.:.B10"
    ensures SheetEnd(s, 0) == Some(7) && CellEnd(s, 7) == Some(9) && CellEnd(s, 12) == Some(15)
  {
    ExampleSheetName(s);
    RunStops(s, 7, Letters, 8);
    RunStops(s, 8, Digits, 9);
    RunStops(s, 12, Letters, 13);
    RunStops(s, 13, Digits, 15);
  }

  lemma ExampleSheetCells(s: string)
    requires s == "Sheet1!A1.:.B10"
    ensures CellsAt(s, 7, All, Some("Sheet1")) == Some(Range(Some("Sheet1"), "A1", "B10", 15))
  {
    ExampleSheetEnds(s);
    assert OccursAt(s, Sep(All), 9);
    assert s[7..9] == "A1" && s[12..15] == "B10";
  }

  lemma ExampleSheetMatch(s: string)
    requires s == "Sheet1!A1.:.B10"
    ensures MatchAt(s, 0, All) == Some(Range(Some("Sheet1"), "A1", "B10", 15))
  {
    ExampleSheetEnds(s);
    ExampleSheetCells(s);
    assert s[0..6] == "Sheet1";
  }

  lemma ExampleSheetSeps(t: string)
    requires t == "_xlfn._TRO_ALL(Sheet1!A1:Sheet1!B10)"
    ensures NoAdjacent(t, ':', '.') && NoAdjacent(t, '.', ':')
  {
  }

  lemma ExampleSheetCall(t: string)
    requires t == "_xlfn._TRO_ALL(Sheet1!A1:Sheet1!B10)"
    ensures Call(Range(Some("Sheet1"), "A1", "B10", 15), All) == t
  {
  }

  lemma ExampleSheetPass(s: string)
    requires s == "Sheet1!A1.:.B10"
    ensures Rewrite(s, All) == "_xlfn._TRO_ALL(Sheet1!A1:Sheet1!B10)"
  {
    ExampleSheetMatch(s);
    ExampleSheetCall("_xlfn._TRO_ALL(Sheet1!A1:Sheet1!B10)");
    assert RewriteFrom(s, 15, All) == [];
  }

  /** A sheet name is put in front of both endpoints:
      `Sheet1!A1.:.B10` becomes `_xlfn._TRO_ALL(Sheet1!A1:Sheet1!B10)`. */
  lemma ExampleSheet(s: string)
    requires s == "Sheet1!A1.:.B10"
    ensures Convert(s) == "_xlfn._TRO_ALL(Sheet1!A1:Sheet1!B10)"
  {
    var t := "_xlfn._TRO_ALL(Sheet1!A1:Sheet1!B10)";
    ExampleSheetPass(s);
    ExampleSheetSeps(t);
    LaterFormsKeep(t);
  }

  lemma ExampleMidTokenEnds(s: string)
    requires s == "a1.:.B10"
    ensures SheetEnd(s, 0) == None && CellEnd(s, 0) == None
    ensures SheetEnd(s, 1) == None && CellEnd(s, 1) == Some(2) && CellEnd(s, 5) == Some(8)
  {
    RunStops(s, 1, SheetChars, 3);
    RunStops(s, 0, Letters, 0);
    RunStops(s, 1, Letters, 1);
    RunStops(s, 1, Digits, 2);
    RunStops(s, 5, Letters, 6);
    RunStops(s, 6, Digits, 8);
  }

  lemma ExampleMidTokenMatch(s: string)
    requires s == "a1.:.B10"
    ensures MatchAt(s, 0, All) == None
    ensures MatchAt(s, 1, All) == Some(Range(None, "1", "B10", 8))
  {
    ExampleMidTokenEnds(s);
    assert s[1..2] == "1" && s[5..8] == "B10";
  }

  lemma ExampleMidTokenTail(s: string)
    requires s == "a1.:.B10"
    ensures RewriteFrom(s, 1, All) == "_xlfn._TRO_ALL(1:B10)"
  {
    ExampleMidTokenMatch(s);
    assert Call(Range(None, "1", "B10", 8), All) == "_xlfn._TRO_ALL(1:B10)";
    assert RewriteFrom(s, 8, All) == [];
  }

  lemma ExampleMidTokenPass(s: string)
    requires s == "a1.:.B10"
    ensures Rewrite(s, All) == "a_xlfn._TRO_ALL(1:B10)"
  {
    ExampleMidTokenMatch(s);
    RewriteMiss(s, 0, All);
    ExampleMidTokenTail(s);
    MidTokenGlue([s[0]], RewriteFrom(s, 1, All));
  }

  lemma MidTokenGlue(a: string, b: string)
    requires a == "a" && b == "_xlfn._TRO_ALL(1:B10)"
    ensures a + b == "a_xlfn._TRO_ALL(1:B10)"
  {
  }

  lemma ExampleMidTokenSeps(t: string)
    requires t == "a_xlfn._TRO_ALL(1:B10)"
    ensures NoAdjacent(t, ':', '.') && NoAdjacent(t, '.', ':')
  {
  }

  /** With no boundary in front of the pattern, a match can start inside a
      token: in `a1.:.B10` the lower-case `a` is skipped and the range is
      taken to start at the row `1`. */
  lemma ExampleMidToken(s: string)
    requires s == "a1.:.B10"
    ensures Convert(s) == "a_xlfn._TRO_ALL(1:B10)"
  {
    var t := "a_xlfn._TRO_ALL(1:B10)";
    ExampleMidTokenPass(s);
    ExampleMidTokenSeps(t);
    LaterFormsKeep(t);
  }
}
