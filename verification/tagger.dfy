/** The future-function tagger (`_add_function_prefixes`): every call of a
    function introduced after Excel 2010 gets its storage prefix, `_xlfn.`
    for most and `_xlfn._xlws.` for SORT and FILTER.  Each registry entry is
    one `re.sub` of `(?<!_xlpm\.)(?<!_xlop\.)(?<!_xleta\.)(?<!_xlfn\.)\bNAME(?=\s*\()`
    under IGNORECASE, skipped altogether when the prefixed name already
    appears anywhere in the text. */
module Tagger {
  import opened Text
  import opened Words

  /** One registry entry: the upper-case function name and its prefix. */
  datatype Entry = Entry(name: string, prefix: string)

  const Xlfn: string := "_xlfn."
  const XlwsPrefix: string := "_xlfn._xlws."

  /** The registry, in the order the tagger visits it. */
  const Registry: seq<Entry> := [
    Entry("UNIQUE", Xlfn), Entry("SORTBY", Xlfn), Entry("SEQUENCE", Xlfn),
    Entry("RANDARRAY", Xlfn), Entry("XLOOKUP", Xlfn), Entry("XMATCH", Xlfn),
    Entry("VSTACK", Xlfn), Entry("HSTACK", Xlfn), Entry("TAKE", Xlfn),
    Entry("DROP", Xlfn), Entry("CHOOSEROWS", Xlfn), Entry("CHOOSECOLS", Xlfn),
    Entry("EXPAND", Xlfn), Entry("TOCOL", Xlfn), Entry("TOROW", Xlfn),
    Entry("WRAPCOLS", Xlfn), Entry("WRAPROWS", Xlfn), Entry("ARRAYTOTEXT", Xlfn),
    Entry("VALUETOTEXT", Xlfn), Entry("TEXTAFTER", Xlfn), Entry("TEXTBEFORE", Xlfn),
    Entry("TEXTSPLIT", Xlfn), Entry("REGEXEXTRACT", Xlfn), Entry("REGEXREPLACE", Xlfn),
    Entry("REGEXTEST", Xlfn), Entry("ISOMITTED", Xlfn), Entry("MAP", Xlfn),
    Entry("REDUCE", Xlfn), Entry("SCAN", Xlfn), Entry("BYCOL", Xlfn),
    Entry("BYROW", Xlfn), Entry("MAKEARRAY", Xlfn), Entry("PERCENTOF", Xlfn),
    Entry("TRIMRANGE", Xlfn), Entry("LAMBDA", Xlfn), Entry("LET", Xlfn),
    Entry("GROUPBY", Xlfn), Entry("PIVOTBY", Xlfn),
    Entry("SORT", XlwsPrefix), Entry("FILTER", XlwsPrefix)
  ]

  /** The lookbehinds: identifiers and names that already carry a prefix. */
  const Blockers: seq<string> := ["_xlpm.", "_xlop.", "_xleta.", "_xlfn."]

  /** The call pattern for one name: case-insensitive, a word boundary in
      front, blocked by the four prefixes, followed by `\s*(`. */
  function CallOf(name: string): Pattern
  {
    Pattern(name, Blockers, true, true, CallAhead)
  }

  /** The text one entry inserts for each call it tags. */
  function Tagged(e: Entry): string
  {
    e.prefix + e.name
  }

  /** One pass of the loop: skip when the tagged name already occurs,
      otherwise substitute every untagged call. */
  function TagOne(s: string, e: Entry): string
  {
    if Contains(s, Tagged(e)) then s else Sub(s, CallOf(e.name), Tagged(e))
  }

  /** The loop over `es`, in order. */
  function TagWith(s: string, es: seq<Entry>): string
    decreases |es|
  {
    if es == [] then s else TagWith(TagOne(s, es[0]), es[1..])
  }

  /** `_add_function_prefixes`. */
  function Tag(s: string): string
  {
    TagWith(s, Registry)
  }

  // ---------------------------------------------------------------------
  // Properties of one pass

  /** A pass leaves the text alone exactly when the tagged name is already
      present or no untagged call of the name exists. */
  lemma TagOneUnchanged(s: string, e: Entry)
    requires |e.name| > 0
    ensures TagOne(s, e) == s <==> Contains(s, Tagged(e)) || !HasMatchFrom(s, 0, CallOf(e.name))
  {
    var pat := CallOf(e.name);
    var rep := Tagged(e);
    if !Contains(s, rep) {
      if HasMatchFrom(s, 0, pat) {
        var p := FirstMatch(s, 0, pat);
        SubFirstMatch(s, 0, p, pat, rep);
        if Sub(s, pat, rep) == s {
          assert s[p..p + |rep|] == rep;
          ContainsAt(s, rep, p);
        }
      } else {
        SubNoMatch(s, 0, pat, rep);
      }
    }
  }

  /** A pass that changes the text leaves the tagged name in it. */
  lemma TagOneMarks(s: string, e: Entry)
    requires |e.name| > 0
    ensures TagOne(s, e) == s || Contains(TagOne(s, e), Tagged(e))
  {
    if !Contains(s, Tagged(e)) && Sub(s, CallOf(e.name), Tagged(e)) != s {
      SubChangedHasRep(s, CallOf(e.name), Tagged(e));
    }
  }

  /** Running a pass twice is the same as running it once. */
  lemma TagOneIdempotent(s: string, e: Entry)
    requires |e.name| > 0
    ensures TagOne(TagOne(s, e), e) == TagOne(s, e)
  {
    TagOneMarks(s, e);
  }

  /** A text without an untagged call of any registry name passes through
      the whole loop unchanged. */
  lemma {:induction false} TagWithNoCall(s: string, es: seq<Entry>)
    requires forall k :: 0 <= k < |es| ==> |es[k].name| > 0 && !HasMatchFrom(s, 0, CallOf(es[k].name))
    ensures TagWith(s, es) == s
    decreases |es|
  {
    if es != [] {
      TagOneUnchanged(s, es[0]);
      TagWithNoCall(s, es[1..]);
    }
  }

  /** Entries at the front of the list that find no untagged call are
      passed over. */
  lemma {:induction false} TagWithSkip(s: string, es: seq<Entry>, j: nat)
    requires j <= |es|
    requires forall k :: 0 <= k < j ==> |es[k].name| > 0 && !HasMatchFrom(s, 0, CallOf(es[k].name))
    ensures TagWith(s, es) == TagWith(s, es[j..])
    decreases j
  {
    if j > 0 {
      TagOneUnchanged(s, es[0]);
      TagWithSkip(s, es[1..], j - 1);
      assert es[1..][j - 1..] == es[j..];
    }
  }

  /** The loop over the whole registry leaves alone a text that has no
      untagged call of a registry name. */
  lemma TagNoCall(s: string)
    requires forall k :: 0 <= k < |Registry| ==> !HasMatchFrom(s, 0, CallOf(Registry[k].name))
    ensures Tag(s) == s
  {
    assert forall k :: 0 <= k < |Registry| ==> |Registry[k].name| > 0;
    TagWithNoCall(s, Registry);
  }

  // ---------------------------------------------------------------------
  // Tagging adds no range separator

  /** A `:` directly against a `.`, the separators of the TRO range forms. */
  predicate Clash(x: char, y: char)
  {
    (x == ':' && y == '.') || (x == '.' && y == ':')
  }

  /** No two neighbouring characters of `t` clash. */
  predicate NoRangeSep(t: string)
  {
    forall i :: 0 <= i < |t| - 1 ==> !Clash(t[i], t[i + 1])
  }

  /** A replacement that can clash with nothing: nonempty, without `:`, and
      neither starting nor ending with `.`. */
  predicate Quiet(r: string)
  {
    |r| > 0 && r[0] != '.' && r[|r| - 1] != '.' && ':' !in r
  }

  /** Two texts without a clash, joined where they do not clash, have none. */
  lemma JoinNoRangeSep(a: string, b: string)
    requires NoRangeSep(a) && NoRangeSep(b)
    requires |a| > 0 && |b| > 0 ==> !Clash(a[|a| - 1], b[0])
    ensures NoRangeSep(a + b)
  {
    forall i | 0 <= i < |a + b| - 1 ensures !Clash((a + b)[i], (a + b)[i + 1]) {
      if i + 1 < |a| {
        assert (a + b)[i] == a[i] && (a + b)[i + 1] == a[i + 1];
      } else if i + 1 == |a| {
        assert (a + b)[i] == a[|a| - 1] && (a + b)[i + 1] == b[0];
      } else {
        assert (a + b)[i] == b[i - |a|] && (a + b)[i + 1] == b[i - |a| + 1];
      }
    }
  }

  /** A quiet replacement put in front of a text without a clash. */
  lemma QuietFront(rep: string, rest: string)
    requires Quiet(rep) && NoRangeSep(rest)
    ensures NoRangeSep(rep + rest)
  {
    forall i | 0 <= i < |rep| - 1 ensures !Clash(rep[i], rep[i + 1]) {
      assert rep[i] != ':' && rep[i + 1] != ':';
    }
    JoinNoRangeSep(rep, rest);
  }

  /** A copied character put in front of what the substitution made of the
      rest, whose head is the replacement's or the next character. */
  lemma CopiedFront(c: char, rest: string, rep: string, next: string)
    requires NoRangeSep(rest) && Quiet(rep) && |next| <= 1
    requires |rest| > 0 ==> rest[0] == rep[0] || (|next| == 1 && rest[0] == next[0])
    requires |next| == 1 ==> !Clash(c, next[0])
    ensures NoRangeSep([c] + rest)
  {
    JoinNoRangeSep([c], rest);
  }

  /** Substituting a quiet replacement keeps a text free of clashes, and the
      result starts with the replacement or with the character it copied. */
  lemma {:induction false} SubFromNoRangeSep(s: string, i: nat, pat: Pattern, rep: string)
    requires i <= |s|
    requires NoRangeSep(s) && Quiet(rep)
    ensures var r := SubFrom(s, i, pat, rep);
            NoRangeSep(r) && (|r| > 0 ==> r[0] == rep[0] || (i < |s| && r[0] == s[i]))
    decreases |s| - i
  {
    if i < |s| {
      var next := if i + 1 < |s| then [s[i + 1]] else [];
      var rest := SubFrom(s, i + 1, pat, rep);
      SubFromNoRangeSep(s, i + 1, pat, rep);
      CopiedFront(s[i], rest, rep, next);
      if MatchesAt(s, i, pat) {
        if |pat.name| > 0 {
          SubFromNoRangeSep(s, i + |pat.name|, pat, rep);
          QuietFront(rep, SubFrom(s, i + |pat.name|, pat, rep));
        } else {
          QuietFront(rep, [s[i]] + rest);
          assert rep + [s[i]] + rest == rep + ([s[i]] + rest);
        }
      }
    }
  }

  /** The shape every registry entry has: one of the two prefixes, and a
      name that starts with a capital, has no `:` and does not end in `.`. */
  predicate PlainEntry(e: Entry)
  {
    && |e.name| > 0 && 'A' <= e.name[0] <= 'Z'
    && ':' !in e.name && e.name[|e.name| - 1] != '.'
    && (e.prefix == Xlfn || e.prefix == XlwsPrefix)
  }

  lemma PlainQuiet(e: Entry)
    requires PlainEntry(e)
    ensures Quiet(Tagged(e))
  {
    assert ':' !in e.prefix;
  }

  /** The registry, eight entries at a time. */
  lemma RegistryPlain0()
    ensures forall k :: 0 <= k < 8 ==> PlainEntry(Registry[k])
  {
  }

  lemma RegistryPlain1()
    ensures forall k :: 8 <= k < 16 ==> PlainEntry(Registry[k])
  {
  }

  lemma RegistryPlain2()
    ensures forall k :: 16 <= k < 24 ==> PlainEntry(Registry[k])
  {
  }

  lemma RegistryPlain3()
    ensures forall k :: 24 <= k < 32 ==> PlainEntry(Registry[k])
  {
  }

  lemma RegistryPlain4()
    ensures forall k :: 32 <= k < 40 ==> PlainEntry(Registry[k])
  {
  }

  /** Every registry entry has the plain shape. */
  lemma RegistryPlain()
    ensures forall k :: 0 <= k < |Registry| ==> PlainEntry(Registry[k])
  {
    RegistryPlain0();
    RegistryPlain1();
    RegistryPlain2();
    RegistryPlain3();
    RegistryPlain4();
  }

  /** Every tagged name of the registry is quiet. */
  lemma RegistryQuiet()
    ensures forall k :: 0 <= k < |Registry| ==> Quiet(Tagged(Registry[k]))
  {
    RegistryPlain();
    forall k | 0 <= k < |Registry| ensures Quiet(Tagged(Registry[k])) {
      PlainQuiet(Registry[k]);
    }
  }

  /** The tagger adds no range separator to a text that has none. */
  lemma {:induction false} TagWithNoRangeSep(s: string, es: seq<Entry>)
    requires NoRangeSep(s)
    requires forall k :: 0 <= k < |es| ==> Quiet(Tagged(es[k]))
    ensures NoRangeSep(TagWith(s, es))
    decreases |es|
  {
    if es != [] {
      if !Contains(s, Tagged(es[0])) {
        SubFromNoRangeSep(s, 0, CallOf(es[0].name), Tagged(es[0]));
      }
      TagWithNoRangeSep(TagOne(s, es[0]), es[1..]);
    }
  }

  lemma TagNoRangeSep(s: string)
    requires NoRangeSep(s)
    ensures NoRangeSep(Tag(s))
  {
    RegistryQuiet();
    TagWithNoRangeSep(s, Registry);
  }

  // ---------------------------------------------------------------------
  // Examples

  lemma SortCallAt(s: string, pat: Pattern)
    requires s == "sort (A1)" && pat == CallOf("SORT")
    ensures MatchesAt(s, 0, pat)
  {
    UpperEq(s[0..4], "SORT");
    NotBlockedBefore(s, 0, Blockers, true);
    assert SkipSpaces(s, 4) == 5;
  }

  lemma SortCallNotAt(s: string, pat: Pattern)
    requires s == "sort (A1)" && pat == CallOf("SORT")
    ensures !MatchesAt(s, 4, pat) && !MatchesAt(s, 5, pat)
  {
    UpperAt("SORT", 0);
    assert !MatchesAt(s, 4, pat) by {
      UpperAt(s[4..8], 0);
    }
    UpperAt(s[5..9], 0);
  }

  /** A lower-case call before an opening parenthesis, even across spaces,
      is tagged with the upper-case name and the double prefix. */
  lemma ExampleSortTagged(s: string)
    requires s == "sort (A1)"
    ensures TagOne(s, Entry("SORT", XlwsPrefix)) == "_xlfn._xlws.SORT (A1)"
  {
    var pat := CallOf("SORT");
    var rep := "_xlfn._xlws.SORT";
    assert Tagged(Entry("SORT", XlwsPrefix)) == rep;
    assert s[4..] == " (A1)";
    assert !Contains(s, rep);
    SortCallAt(s, pat);
    SubHit(s, 0, pat, rep);
    SortCallNotAt(s, pat);
    NoMatchNearEnd(s, 6, pat);
    SubNoMatch(s, 4, pat, rep);
  }

  /** Once one call carries the prefix, the pass is skipped and the other
      calls of the same name stay untagged. */
  lemma ExampleSkipWhenPresent(s: string)
    requires s == "_xlfn.UNIQUE(A1)+UNIQUE(B1)"
    ensures TagOne(s, Entry("UNIQUE", Xlfn)) == s
  {
    assert OccursAt(s, "_xlfn.UNIQUE", 0);
    ContainsAt(s, "_xlfn.UNIQUE", 0);
  }
}
