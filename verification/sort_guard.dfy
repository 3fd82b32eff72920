/** The "already prefixed" guard of the name loop, on SORT and SORTBY.

    As written, the pass for a name is skipped when `_xlfn.NAME` occurs
    anywhere in the text, as a plain substring.  `_xlfn.SORTBY` contains
    `_xlfn.SORT`, so once the SORTBY pass has run, the SORT pass is skipped
    and a SORT call keeps no prefix: `SORT(SORTBY(A1))` comes out as
    `SORT(_xlfn.SORTBY(A1))` when the set happens to yield SORTBY first,
    and fully prefixed when it yields SORT first.  The corrected guard asks
    for a word boundary after the name, so SORTBY's prefix no longer
    counts for SORT. */
module SortGuard {
  import opened Text
  import opened Words
  import opened LegacyNames

  /** An occurrence of `p + q` is an occurrence of `p`. */
  lemma OccursShorter(s: string, p: string, q: string, i: int)
    requires OccursAt(s, p + q, i)
    ensures OccursAt(s, p, i)
  {
    assert s[i..i + |p|] == s[i..i + |p + q|][..|p|];
  }

  /** As written: a text showing `_xlfn.SORTBY` passes the substring guard
      for SORT, so the SORT pass changes nothing, whatever SORT calls the
      text still holds. */
  lemma SortBlockedAsWritten(s: string)
    requires Contains(s, "_xlfn.SORTBY")
    ensures Prefixed(s, "SORT", Substring)
    ensures NamePass(s, "SORT", Substring) == s
  {
    ContainsIff(s, "_xlfn.SORTBY");
    var i :| OccursAt(s, "_xlfn.SORTBY", i);
    assert "_xlfn.SORTBY" == Fn + "SORT" + "BY";
    OccursShorter(s, Fn + "SORT", "BY", i);
    ContainsAt(s, Fn + "SORT", i);
  }

  /** The text after the SORTBY pass on `SORT(SORTBY(A1))` holds a
      whole-word SORT that the SORT pass as written leaves without a prefix. */
  lemma SortLeftAsWritten(s: string)
    requires s == "SORT(_xlfn.SORTBY(A1))"
    ensures MatchesAt(s, 0, Word("SORT"))
    ensures NamePass(s, "SORT", Substring) == s
  {
    assert s[0..4] == "SORT";
    assert s[5..17] == "_xlfn.SORTBY";
    ContainsAt(s, "_xlfn.SORTBY", 5);
    SortBlockedAsWritten(s);
  }

  /** No match of a case-sensitive pattern starts where its first
      character is absent, nor at `j`, where it is known not to match. */
  lemma {:induction false} NoMatchButAt(s: string, i: nat, pat: Pattern, j: nat)
    requires i <= |s| && |pat.name| > 0 && !pat.ignoreCase
    requires forall q :: i <= q < |s| && q != j ==> s[q] != pat.name[0]
    requires j <= |s| ==> !MatchesAt(s, j, pat)
    ensures !HasMatchFrom(s, i, pat)
    decreases |s| - i
  {
    if i < |s| {
      NoMatchButAt(s, i + 1, pat, j);
    }
  }

  /** The only underscore of the text starts `_xlfn.SORTBY`, where
      `_xlfn.SORT` is followed by a word character. */
  lemma SortPrefixAbsent(s: string)
    requires s == "SORT(_xlfn.SORTBY(A1))"
    ensures !Prefixed(s, "SORT", WholeWord)
  {
    var pat := Pattern(Fn + "SORT", [], false, false, WordEnd);
    OneUnderscore(s);
    SortByNoMatch(s, pat);
    NoMatchButAt(s, 0, pat, 5);
  }

  lemma OneUnderscore(s: string)
    requires s == "SORT(_xlfn.SORTBY(A1))"
    ensures forall q :: 0 <= q < |s| && q != 5 ==> s[q] != '_'
  {
    forall q | 0 <= q < |s| && q != 5 ensures s[q] != '_' {
      if q < 5 {
        assert s[..5] == "SORT(";
        assert s[q] == s[..5][q];
      } else {
        assert s[6..] == "xlfn.SORTBY(A1))";
        assert s[q] == s[6..][q - 6];
      }
    }
  }

  lemma SortByNoMatch(s: string, pat: Pattern)
    requires s == "SORT(_xlfn.SORTBY(A1))"
    requires pat == Pattern(Fn + "SORT", [], false, false, WordEnd)
    ensures |pat.name| > 0 && pat.name[0] == '_' && !pat.ignoreCase
    ensures !MatchesAt(s, 5, pat)
  {
    assert !Boundary(s, 15) by {
      assert s[14] == 'T' && s[15] == 'B';
    }
  }

  lemma SortAtStart(s: string)
    requires s == "SORT(_xlfn.SORTBY(A1))"
    ensures MatchesAt(s, 0, Word("SORT"))
  {
    assert s[0..4] == "SORT";
  }

  /** Corrected: `_xlfn.SORTBY` does not count as SORT's prefix, so the SORT
      pass runs and puts `_xlfn.` in front of the SORT call. */
  lemma SortRenamedCorrected(s: string)
    requires s == "SORT(_xlfn.SORTBY(A1))"
    ensures !Prefixed(s, "SORT", WholeWord)
    ensures NamePass(s, "SORT", WholeWord) == Marked(s, 0, Word("SORT"), Fn)
    ensures NamePass(s, "SORT", WholeWord)[..6] == Fn
  {
    SortPrefixAbsent(s);
    SortAtStart(s);
    NamePassMarks(s, "SORT", WholeWord);
    MarkedStep(s, 0, Word("SORT"), Fn);
  }
}
