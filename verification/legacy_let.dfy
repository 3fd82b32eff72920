/** The LET part of the legacy prefix pass on one call:
    `_add_xlpm_to_let_vars`, which marks every bound name with `_xlpm.`,
    in the names themselves, in the values bound after them and in the
    final expression.  The loop over the calls is in `LetScan`. */
module LegacyLet {
  import opened Text
  import opened Words
  import opened Parens
  import opened LegacyNames
  import opened LegacyLambda

  const LetName: string := "_xlfn.LET"

  /** The names of the bindings: every other part, from the first. */
  function LetNames(pairs: seq<string>): (r: seq<string>)
    ensures |r| == |pairs| / 2
    ensures forall k :: 0 <= k < |r| ==> r[k] == pairs[2 * k]
    decreases |pairs|
  {
    if |pairs| < 2 then [] else [pairs[0]] + LetNames(pairs[2..])
  }

  /** The bindings rewritten: each name gains `_xlpm.`, and each value that
      is not empty has `_xlpm.` put in front of the names bound before it.
      An empty value is dropped from the output (the `if var_value:` test). */
  function Bind(pairs: seq<string>, before: seq<string>): (r: seq<string>)
    decreases |pairs|
  {
    if |pairs| < 2 then []
    else
      [Pm + pairs[0]] + (if pairs[1] != [] then [MarkAll(pairs[1], before)] else [])
      + Bind(pairs[2..], before + [pairs[0]])
  }

  /** How many bindings have an empty value. */
  function EmptyValues(pairs: seq<string>): (r: nat)
    ensures r <= |pairs| / 2
    decreases |pairs|
  {
    if |pairs| < 2 then 0 else (if pairs[1] == [] then 1 else 0) + EmptyValues(pairs[2..])
  }

  /** `_add_xlpm_to_let_vars`: the parts before the last come in name/value
      pairs; the last part is the body, where every name gains `_xlpm.`.
      A call with fewer than three parts or an even number of them is left
      as it is.  The parts are already stripped, so the second `strip()` of
      each name changes nothing (`Text.TrimTwice`). */
  function LetVars(x: string): string
  {
    match MatchCall(LetName, x)
    case None => x
    case Some(c) =>
      var ps := Parts(c.content);
      if |ps| < 3 || |ps| % 2 == 0 then x
      else
        c.head + Join(LetBody(ps[..|ps| - 1], ps[|ps| - 1]), ",") + ")"
  }

  /** The rewritten parts: the bindings, then the body with `_xlpm.` in
      front of every name. */
  function LetBody(init: seq<string>, last: string): seq<string>
  {
    Bind(init, []) + [MarkAll(last, LetNames(init))]
  }

  /** A text that is not a LET call, or a call with fewer than three parts
      or an even number of them, is returned as it is. */
  lemma LetVarsKeeps(x: string)
    requires MatchCall(LetName, x).Some? ==>
               var n := |Parts(MatchCall(LetName, x).value.content)|;
               n < 3 || n % 2 == 0
    ensures LetVars(x) == x
  {
  }

  /** A matched LET with an odd number of parts, at least three, is
      rebuilt from its rewritten parts. */
  lemma LetVarsRewrites(x: string, c: Call, ps: seq<string>)
    requires MatchCall(LetName, x) == Some(c) && ps == Parts(c.content)
    requires |ps| >= 3 && |ps| % 2 == 1
    ensures LetVars(x) == c.head + Join(LetBody(ps[..|ps| - 1], ps[|ps| - 1]), ",") + ")"
  {
  }

  // ---------------------------------------------------------------------
  // Properties of one call

  /** Each empty value costs the output one part, and nothing else does. */
  lemma {:induction false} BindLength(pairs: seq<string>, before: seq<string>)
    requires |pairs| % 2 == 0
    ensures |Bind(pairs, before)| + EmptyValues(pairs) == |pairs|
    decreases |pairs|
  {
    if pairs != [] {
      BindLength(pairs[2..], before + [pairs[0]]);
    }
  }

  lemma BindCons(pairs: seq<string>, before: seq<string>)
    requires |pairs| % 2 == 0 && pairs != [] && pairs[1] != []
    ensures Bind(pairs, before)
         == [Pm + pairs[0], MarkAll(pairs[1], before)] + Bind(pairs[2..], before + [pairs[0]])
  {
  }

  /** The names bound before binding `k` of `pairs`, seen from its tail. */
  lemma NamesBefore(pairs: seq<string>, before: seq<string>, k: nat)
    requires |pairs| % 2 == 0 && 1 <= k <= |pairs| / 2
    ensures before + LetNames(pairs)[..k] == (before + [pairs[0]]) + LetNames(pairs[2..])[..k - 1]
  {
    assert LetNames(pairs) == [pairs[0]] + LetNames(pairs[2..]);
    assert LetNames(pairs)[..k] == [pairs[0]] + LetNames(pairs[2..])[..k - 1];
  }

  /** With no empty value the bindings keep their places: name `k` is
      `_xlpm.` + name `k`, and value `k` has `_xlpm.` put in front of the
      names bound before it. */
  lemma {:induction false} BindAllValues(pairs: seq<string>, before: seq<string>)
    requires |pairs| % 2 == 0 && EmptyValues(pairs) == 0
    ensures var r := Bind(pairs, before);
            && |r| == |pairs|
            && (forall k :: 0 <= k < |pairs| / 2 ==> r[2 * k] == Pm + pairs[2 * k])
            && (forall k :: 0 <= k < |pairs| / 2 ==>
                  r[2 * k + 1] == MarkAll(pairs[2 * k + 1], before + LetNames(pairs)[..k]))
    decreases |pairs|
  {
    if pairs != [] {
      var rest := pairs[2..];
      var before' := before + [pairs[0]];
      BindAllValues(rest, before');
      BindCons(pairs, before);
      var r := Bind(pairs, before);
      var r' := Bind(rest, before');
      forall k | 1 <= k < |pairs| / 2
        ensures r[2 * k] == Pm + pairs[2 * k]
        ensures r[2 * k + 1] == MarkAll(pairs[2 * k + 1], before + LetNames(pairs)[..k])
      {
        assert r[2 * k] == r'[2 * (k - 1)] && r[2 * k + 1] == r'[2 * (k - 1) + 1];
        assert rest[2 * (k - 1)] == pairs[2 * k] && rest[2 * (k - 1) + 1] == pairs[2 * k + 1];
        NamesBefore(pairs, before, k);
      }
      assert before + LetNames(pairs)[..0] == before;
    }
  }

  /** A LET whose values are all present is rewritten part for part: the
      parts keep their number and order, names gain `_xlpm.`, each value
      has `_xlpm.` put in front of the names bound before it, and the body
      in front of all of them. */
  lemma LetBodyAllValues(init: seq<string>, last: string)
    requires |init| % 2 == 0 && EmptyValues(init) == 0
    ensures var qs := LetBody(init, last);
            && |qs| == |init| + 1
            && (forall k :: 0 <= k < |init| / 2 ==> qs[2 * k] == Pm + init[2 * k])
            && (forall k :: 0 <= k < |init| / 2 ==>
                  qs[2 * k + 1] == MarkAll(init[2 * k + 1], LetNames(init)[..k]))
            && qs[|init|] == MarkAll(last, LetNames(init))
  {
    BindAllValues(init, []);
    assert forall k :: 0 <= k < |init| / 2 ==> [] + LetNames(init)[..k] == LetNames(init)[..k];
  }

  /** An empty value is dropped: the rewritten parts are fewer than the
      original ones, one fewer for each empty value. */
  lemma LetBodyDropsEmpty(init: seq<string>, last: string)
    requires |init| % 2 == 0
    ensures |LetBody(init, last)| == |init| + 1 - EmptyValues(init)
  {
    BindLength(init, []);
  }
}
