/** Variable scopes of the LAMBDA/LET rewriter (`_process_lambda_let_unified`
    and `_replace_variables_in_scope`): a scope maps a variable name to its
    prefixed form, and a body is renamed by one whole-word substitution per
    scope entry, in the scope's insertion order. */
module Scopes {
  import opened Text
  import opened Words

  /** A `dict` from variable name to prefixed name, in insertion order. */
  type Scope = seq<(string, string)>

  /** The keys in insertion order. */
  function Keys(sc: Scope): (r: seq<string>)
    ensures |r| == |sc|
  {
    if sc == [] then [] else [sc[0].0] + Keys(sc[1..])
  }

  /** `k in scope`. */
  predicate Has(sc: Scope, k: string)
    decreases |sc|
  {
    sc != [] && (sc[0].0 == k || Has(sc[1..], k))
  }

  /** The key list lists exactly the keys of the scope. */
  lemma {:induction false} KeysHas(sc: Scope, k: string)
    ensures k in Keys(sc) <==> Has(sc, k)
    decreases |sc|
  {
    if sc != [] {
      KeysHas(sc[1..], k);
      assert Keys(sc) == [sc[0].0] + Keys(sc[1..]);
    }
  }

  /** The value stored under `k`. */
  function Lookup(sc: Scope, k: string): (r: Option<string>)
    ensures r.None? <==> !Has(sc, k)
  {
    if sc == [] then None
    else if sc[0].0 == k then Some(sc[0].1)
    else Lookup(sc[1..], k)
  }

  /** `scope[k] = v`. */
  function Put(sc: Scope, k: string, v: string): Scope
  {
    if sc == [] then [(k, v)]
    else if sc[0].0 == k then [(k, v)] + sc[1..]
    else [sc[0]] + Put(sc[1..], k, v)
  }

  /** An existing key keeps its place and a new one goes last. */
  lemma {:induction false} PutKeys(sc: Scope, k: string, v: string)
    ensures Keys(Put(sc, k, v)) == if Has(sc, k) then Keys(sc) else Keys(sc) + [k]
    decreases |sc|
  {
    if sc != [] && sc[0].0 != k {
      PutKeys(sc[1..], k, v);
      assert Keys(sc) == [sc[0].0] + Keys(sc[1..]);
      assert Keys(Put(sc, k, v)) == [sc[0].0] + Keys(Put(sc[1..], k, v));
    }
  }

  /** After `scope[k] = v` the keys are the old ones and `k`. */
  lemma {:induction false} PutHas(sc: Scope, k: string, v: string, x: string)
    ensures Has(Put(sc, k, v), x) <==> Has(sc, x) || x == k
    decreases |sc|
  {
    if sc != [] && sc[0].0 != k {
      PutHas(sc[1..], k, v, x);
    }
  }

  /** `k` now maps to `v`. */
  lemma {:induction false} PutLookupSame(sc: Scope, k: string, v: string)
    ensures Lookup(Put(sc, k, v), k) == Some(v)
    decreases |sc|
  {
    if sc != [] && sc[0].0 != k {
      PutLookupSame(sc[1..], k, v);
    }
  }

  /** Every other key maps to what it mapped to before. */
  lemma {:induction false} PutLookupOther(sc: Scope, k: string, v: string, x: string)
    requires x != k
    ensures Lookup(Put(sc, k, v), x) == Lookup(sc, x)
    decreases |sc|
  {
    if sc != [] && sc[0].0 != k {
      PutLookupOther(sc[1..], k, v, x);
    }
  }

  /** `(?<!_xlpm\.)(?<!_xlop\.)\bNAME\b`, case-sensitive. */
  function VarPattern(name: string): Pattern
  {
    Pattern(name, ["_xlpm.", "_xlop."], false, true, WordEnd)
  }

  /** `_replace_variables_in_scope`: one substitution per entry in insertion
      order; all-digit names are skipped. */
  function ReplaceVars(e: string, sc: Scope): string
    decreases |sc|
  {
    if sc == [] then e
    else
      var name := sc[0].0;
      ReplaceVars(if IsAllDigits(name) then e else Sub(e, VarPattern(name), sc[0].1), sc[1..])
  }

  /** Renaming with a longer scope renames with the first part, then the rest. */
  lemma {:induction false} ReplaceVarsAppend(e: string, a: Scope, b: Scope)
    ensures ReplaceVars(e, a + b) == ReplaceVars(ReplaceVars(e, a), b)
    decreases |a|
  {
    if a == [] {
      assert a + b == b;
    } else {
      assert (a + b)[0] == a[0] && (a + b)[1..] == a[1..] + b;
      var name := a[0].0;
      ReplaceVarsAppend(if IsAllDigits(name) then e else Sub(e, VarPattern(name), a[0].1), a[1..], b);
    }
  }

  /** Entries with all-digit names never rename anything. */
  lemma {:induction false} ReplaceVarsDigits(e: string, sc: Scope)
    requires forall j :: 0 <= j < |sc| ==> IsAllDigits(sc[j].0)
    ensures ReplaceVars(e, sc) == e
    decreases |sc|
  {
    if sc != [] {
      ReplaceVarsDigits(e, sc[1..]);
    }
  }

  /** For a parameter name made of word characters, renaming `name` to
      `_xlpm.name` inserts `_xlpm.` in front of exactly the free whole-word
      occurrences of the name: those not already preceded by `_xlpm.` or
      `_xlop.`. */
  lemma ReplaceVarIsMarking(e: string, name: string)
    requires WordName(name) && !IsAllDigits(name)
    ensures ReplaceVars(e, [(name, "_xlpm." + name)]) == Marked(e, 0, VarPattern(name), "_xlpm.")
  {
    SubIsMarking(e, 0, VarPattern(name), "_xlpm.");
  }
}
