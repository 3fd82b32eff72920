/** The LAMBDA/LET rewriter (`_process_lambda_let_unified`): every call
    `LAMBDA(` / `LET(` becomes `_xlfn.LAMBDA(` / `_xlfn.LET(`, parameters and
    LET names get the `_xlpm.` prefix (optional `[p]` parameters are declared
    as `_xlop.p`), and every body is rewritten recursively and then renamed
    with the scope in force there.  LET names enter the scope one at a time,
    so a value sees only the names bound before it. */
module Closure {
  import opened Text
  import opened Words
  import opened Splitting
  import opened Scopes

  /** `f[pos..pos + |name|].upper() == name.upper()`, letter by letter. */
  predicate SameUpper(f: string, pos: nat, name: string)
    requires pos + |name| <= |f|
    decreases |name|
  {
    name == [] || (UpperChar(f[pos]) == UpperChar(name[0]) && SameUpper(f, pos + 1, name[1..]))
  }

  /** `_is_function_at(f, pos, name)`: the name in any case, not preceded
      by a letter, digit, `_` or `.`, and followed directly by `(`. */
  predicate IsFunctionAt(f: string, pos: nat, name: string)
  {
    && pos < |f| && pos + |name| <= |f|
    && SameUpper(f, pos, name)
    && (pos > 0 ==> !(IsAlnum(f[pos - 1]) || f[pos - 1] == '_' || f[pos - 1] == '.'))
    && pos + |name| < |f| && f[pos + |name|] == '('
  }

  /** A LAMBDA or LET call starts at `pos`. */
  predicate BinderAt(f: string, pos: nat)
  {
    IsFunctionAt(f, pos, "LAMBDA") || IsFunctionAt(f, pos, "LET")
  }

  /** A LAMBDA parameter: nothing for a blank one; otherwise its declaration
      and the name it binds. */
  function ParamEntry(p: string): (r: Option<(string, string)>)
    ensures r.None? <==> Trim(p) == []
  {
    var t := Trim(p);
    if t == [] then None
    else if StartsWith(t, "[") && EndsWith(t, "]") && |t| >= 2 then
      var c := t[1..|t| - 1];
      Some(("_xlop." + c, c))
    else Some(("_xlpm." + t, t))
  }

  /** The declarations of the parameters, and the scope they open: each
      bound name maps to `_xlpm.name`, optional or not. */
  function DeclareParams(params: seq<string>, sc: Scope): (r: (seq<string>, Scope))
    ensures |r.0| <= |params|
    decreases |params|
  {
    if params == [] then ([], sc)
    else
      match ParamEntry(params[0])
      case None => DeclareParams(params[1..], sc)
      case Some((decl, name)) =>
        var rest := DeclareParams(params[1..], Put(sc, name, "_xlpm." + name));
        ([decl] + rest.0, rest.1)
  }

  /** Where scanning resumes after a call whose arguments were cut by `c`. */
  function Resume(f: string, c: Cut): (r: nat)
    requires c.end <= |f|
    ensures c.end < r <= |f| || r == c.end == |f|
  {
    if c.end < |f| then c.end + 1 else |f|
  }

  /** `_process_lambda_let_unified(f[i..], sc)` with `f[..i]` as left context. */
  function Walk(f: string, i: nat, sc: Scope): string
    requires i <= |f|
    decreases |f|, 3, |f| - i
  {
    if i == |f| then []
    else
      var (text, next) := Step(f, i, sc);
      text + Walk(f, next, sc)
  }

  /** One turn of the scanning loop at `i`: a LAMBDA or LET call is replaced
      by its rewritten text and scanning resumes after its closing
      parenthesis; any other character is copied. */
  function Step(f: string, i: nat, sc: Scope): (r: (string, nat))
    requires i < |f|
    ensures i < r.1 <= |f|
    decreases |f|, 2, 0
  {
    if IsFunctionAt(f, i, "LAMBDA") then
      var c := CutAt(f, i + 7);
      ScanLongest(f, i + 7, 0, i + 7);
      (LambdaText(f, c, sc), Resume(f, c))
    else if IsFunctionAt(f, i, "LET") then
      var c := CutAt(f, i + 4);
      ScanLongest(f, i + 4, 0, i + 4);
      (LetText(f, c, sc), Resume(f, c))
    else ([f[i]], i + 1)
  }

  /** `_parse_lambda_content`'s reading of the arguments: all but the last
      are parameters, the last is the body (empty when there is none). */
  function LambdaParts(args: seq<string>): (r: (seq<string>, string))
    ensures |r.1| <= Longest(args)
  {
    if |args| == 0 then ([], [])
    else
      LongestBound(args, |args| - 1);
      (args[..|args| - 1], args[|args| - 1])
  }

  /** The text of a LAMBDA call: `_xlfn.LAMBDA(`, the parameter declarations,
      and the body rewritten and renamed in the scope the parameters open. */
  function LambdaText(f: string, c: Cut, sc: Scope): string
    requires |c.pieces| >= 1 && Longest(c.pieces) < |f|
    decreases |f|, 1, 1
  {
    "_xlfn.LAMBDA(" + LambdaInside(f, c, sc) + ")"
  }

  /** Between the parentheses of a rewritten LAMBDA: the declarations, a
      comma when there are both declarations and a body, and the body. */
  function LambdaInside(f: string, c: Cut, sc: Scope): string
    requires |c.pieces| >= 1 && Longest(c.pieces) < |f|
    decreases |f|, 1, 0
  {
    var (params, body) := LambdaParts(LambdaArgs(c));
    var (decls, inner) := DeclareParams(params, sc);
    var sep := if |decls| > 0 && body != [] then "," else "";
    var text := if body != [] then Process(body, inner) else [];
    Join(decls, ",") + sep + text
  }


  /** The length of the longest name or value. */
  function PairsLongest(pairs: seq<(string, string)>): nat
  {
    if pairs == [] then 0 else Max(Max(|pairs[0].0|, |pairs[0].1|), PairsLongest(pairs[1..]))
  }

  /** Arguments taken two at a time as (name, value). */
  function Pairs(args: seq<string>): (r: seq<(string, string)>)
    requires |args| % 2 == 0
    ensures PairsLongest(r) <= Longest(args)
  {
    if args == [] then []
    else
      assert args[1..][1..] == args[2..];
      assert ([(args[0], args[1])] + Pairs(args[2..]))[1..] == Pairs(args[2..]);
      [(args[0], args[1])] + Pairs(args[2..])
  }

  /** `_parse_let_content`'s reading of the arguments: with an odd count,
      (name, value) pairs and the last argument as the final expression;
      with an even count, no bindings and no final expression. */
  function LetParts(args: seq<string>): (r: (seq<(string, string)>, string))
    ensures PairsLongest(r.0) <= Longest(args) && |r.1| <= Longest(args)
  {
    var n := |args|;
    if n % 2 == 1 then
      LongestPrefix(args, n - 1);
      LongestBound(args, n - 1);
      (Pairs(args[..n - 1]), args[n - 1])
    else ([], [])
  }

  /** The text of a LET call: `_xlfn.LET(`, each binding as `_xlpm.name` and
      its value, then the final expression, all comma-separated. */
  function LetText(f: string, c: Cut, sc: Scope): string
    requires Longest(c.pieces) < |f|
    decreases |f|, 1, 1
  {
    "_xlfn.LET(" + LetInside(f, c, sc) + ")"
  }

  /** Between the parentheses of a rewritten LET: the bindings, then the
      final expression, comma-separated. */
  function LetInside(f: string, c: Cut, sc: Scope): string
    requires Longest(c.pieces) < |f|
    decreases |f|, 1, 0
  {
    var (pairs, final) := LetParts(LetArgs(c));
    var (parts, inner) := Bindings(pairs, sc, |f|);
    var last := if final != [] then [Process(final, inner)] else [];
    Join(parts + last, ",")
  }


  /** The scope after binding `pair`: a blank name binds nothing. */
  function Bind(sc: Scope, pair: (string, string)): Scope
  {
    var name := Trim(pair.0);
    if name == [] then sc else Put(sc, name, "_xlpm." + name)
  }

  /** The output of one binding: nothing for a blank name, else the
      prefixed name and the value processed in `sc`. */
  function Head(pair: (string, string), sc: Scope): seq<string>
    decreases |pair.1|, 5, 0
  {
    var name := Trim(pair.0);
    if name == [] then [] else ["_xlpm." + name, Process(pair.1, sc)]
  }

  /** The LET bindings in order: a binding with a blank name is dropped; any
      other value is processed in the scope so far, and only then is its
      name added. */
  function Bindings(pairs: seq<(string, string)>, sc: Scope, bound: nat): (r: (seq<string>, Scope))
    requires PairsLongest(pairs) < bound
    decreases bound, 0, |pairs|
  {
    if pairs == [] then ([], sc)
    else
      var rest := Bindings(pairs[1..], Bind(sc, pairs[0]), bound);
      (Head(pairs[0], sc) + rest.0, rest.1)
  }

  /** A body or value: nested calls rewritten, then renamed in `sc`. */
  function Process(e: string, sc: Scope): string
    decreases |e|, 4, 0
  {
    ReplaceVars(Walk(e, 0, sc), sc)
  }

  /** `_process_lambda_let_unified(f)` at the top level, with an empty scope. */
  function Rewrite(f: string): string
  {
    Walk(f, 0, [])
  }

  // ---------------------------------------------------------------------
  // Text outside LAMBDA/LET calls

  lemma WalkStep(f: string, i: nat, sc: Scope)
    requires i < |f| && !BinderAt(f, i)
    ensures Walk(f, i, sc) == [f[i]] + Walk(f, i + 1, sc)
  {
  }

  lemma WalkPlainStep(f: string, i: nat, j: nat, sc: Scope)
    requires i < j <= |f| && !BinderAt(f, i)
    requires Walk(f, i + 1, sc) == f[i + 1..j] + Walk(f, j, sc)
    ensures Walk(f, i, sc) == f[i..j] + Walk(f, j, sc)
  {
    assert f[i..j] == [f[i]] + f[i + 1..j];
    WalkStep(f, i, sc);
    HeadSplit([f[i]], f[i + 1..j], Walk(f, j, sc), Walk(f, i + 1, sc));
  }

  /** Text without LAMBDA or LET calls is copied unchanged. */
  lemma {:induction false} WalkPlain(f: string, i: nat, j: nat, sc: Scope)
    requires i <= j <= |f|
    requires forall p :: i <= p < j ==> !BinderAt(f, p)
    ensures Walk(f, i, sc) == f[i..j] + Walk(f, j, sc)
    decreases j - i
  {
    if i < j {
      WalkPlain(f, i + 1, j, sc);
      WalkPlainStep(f, i, j, sc);
    } else {
      assert f[i..j] == [];
    }
  }

  /** A formula without LAMBDA or LET calls is left as it is. */
  lemma RewriteUntouched(f: string)
    requires forall p :: 0 <= p < |f| ==> !BinderAt(f, p)
    ensures Rewrite(f) == f
  {
    WalkPlain(f, 0, |f|, []);
  }

  /** A rewritten LAMBDA call is an `_xlfn.LAMBDA(` call with its closing
      parenthesis, whether or not the input closed it. */
  /** `pre + mid + post` starts with `pre` and ends with `post`. */
  lemma Wrapped(pre: string, mid: string, post: string)
    ensures StartsWith(pre + mid + post, pre) && EndsWith(pre + mid + post, post)
  {
    var w := pre + mid + post;
    assert w[..|pre|] == pre;
    assert w[|w| - |post|..] == post;
  }

  /** A rewritten LAMBDA call is an `_xlfn.LAMBDA(` call with its closing
      parenthesis, whether or not the input closed it. */
  lemma LambdaTextShape(f: string, c: Cut, sc: Scope)
    requires |c.pieces| >= 1 && Longest(c.pieces) < |f|
    ensures StartsWith(LambdaText(f, c, sc), "_xlfn.LAMBDA(")
    ensures EndsWith(LambdaText(f, c, sc), ")")
  {
    Wrapped("_xlfn.LAMBDA(", LambdaInside(f, c, sc), ")");
  }

  /** A rewritten LET call is an `_xlfn.LET(` call with its closing
      parenthesis. */
  lemma LetTextShape(f: string, c: Cut, sc: Scope)
    requires Longest(c.pieces) < |f|
    ensures StartsWith(LetText(f, c, sc), "_xlfn.LET(")
    ensures EndsWith(LetText(f, c, sc), ")")
  {
    Wrapped("_xlfn.LET(", LetInside(f, c, sc), ")");
  }

  lemma StartsWithLonger(a: string, b: string, pre: string, longer: string)
    requires StartsWith(a, longer) && StartsWith(longer, pre)
    ensures StartsWith(a + b, pre)
  {
    assert (a + b)[..|pre|] == a[..|longer|][..|pre|];
  }

  /** The output for a call begins with the `_xlfn.` form of its name. */
  lemma WalkAtBinder(f: string, p: nat, sc: Scope)
    requires p < |f| && BinderAt(f, p)
    ensures StartsWith(Walk(f, p, sc), "_xlfn.")
  {
    if IsFunctionAt(f, p, "LAMBDA") {
      WalkAtLambda(f, p, sc, CutAt(f, p + 7));
    } else {
      WalkAtLet(f, p, sc, CutAt(f, p + 4));
    }
  }

  lemma WalkAtLambda(f: string, p: nat, sc: Scope, c: Cut)
    requires p < |f| && IsFunctionAt(f, p, "LAMBDA") && c == CutAt(f, p + 7)
    ensures StartsWith(Walk(f, p, sc), "_xlfn.")
  {
    ScanLongest(f, p + 7, 0, p + 7);
    LambdaTextShape(f, c, sc);
    StartsWithLonger(LambdaText(f, c, sc), Walk(f, Resume(f, c), sc), "_xlfn.", "_xlfn.LAMBDA(");
  }

  lemma WalkAtLet(f: string, p: nat, sc: Scope, c: Cut)
    requires p < |f| && !IsFunctionAt(f, p, "LAMBDA") && IsFunctionAt(f, p, "LET") && c == CutAt(f, p + 4)
    ensures StartsWith(Walk(f, p, sc), "_xlfn.")
  {
    ScanLongest(f, p + 4, 0, p + 4);
    LetTextShape(f, c, sc);
    StartsWithLonger(LetText(f, c, sc), Walk(f, Resume(f, c), sc), "_xlfn.", "_xlfn.LET(");
  }

  /** A rewritten formula keeps the input's text up to the first call, and
      the call's output begins with `_xlfn.`. */
  lemma RewriteAtFirstBinder(f: string, p: nat)
    requires p < |f| && BinderAt(f, p)
    requires forall q :: 0 <= q < p ==> !BinderAt(f, q)
    ensures Rewrite(f) == f[..p] + Walk(f, p, [])
    ensures StartsWith(Walk(f, p, []), "_xlfn.")
  {
    WalkPlain(f, 0, p, []);
    WalkAtBinder(f, p, []);
  }

  // ---------------------------------------------------------------------
  // LAMBDA parameters

  /** Some parameter binds the name `x`. */
  predicate Binds(params: seq<string>, x: string)
    decreases |params|
  {
    params != [] && ((ParamEntry(params[0]).Some? && ParamEntry(params[0]).value.1 == x) || Binds(params[1..], x))
  }

  /** The body's scope holds the outer names and exactly the parameters'
      names. */
  lemma {:induction false} DeclareParamsHas(params: seq<string>, sc: Scope, x: string)
    ensures Has(DeclareParams(params, sc).1, x) <==> Has(sc, x) || Binds(params, x)
    decreases |params|
  {
    if params != [] {
      match ParamEntry(params[0])
      case None =>
        DeclareParamsHas(params[1..], sc, x);
      case Some((decl, name)) =>
        DeclareParamsHas(params[1..], Put(sc, name, "_xlpm." + name), x);
        PutHas(sc, name, "_xlpm." + name, x);
    }
  }

  /** Every parameter, optional or not, is referenced as `_xlpm.name`. */
  lemma {:induction false} DeclareParamsBound(params: seq<string>, sc: Scope, x: string)
    requires Binds(params, x)
    ensures Lookup(DeclareParams(params, sc).1, x) == Some("_xlpm." + x)
    decreases |params|
  {
    match ParamEntry(params[0])
    case None =>
      DeclareParamsBound(params[1..], sc, x);
    case Some((decl, name)) =>
      var inner := Put(sc, name, "_xlpm." + name);
      if Binds(params[1..], x) {
        DeclareParamsBound(params[1..], inner, x);
      } else {
        DeclareParamsOther(params[1..], inner, x);
        PutLookupSame(sc, name, "_xlpm." + name);
      }
  }

  /** A name no parameter binds keeps its outer meaning. */
  lemma {:induction false} DeclareParamsOther(params: seq<string>, sc: Scope, x: string)
    requires !Binds(params, x)
    ensures Lookup(DeclareParams(params, sc).1, x) == Lookup(sc, x)
    decreases |params|
  {
    if params != [] {
      match ParamEntry(params[0])
      case None =>
        DeclareParamsOther(params[1..], sc, x);
      case Some((decl, name)) =>
        DeclareParamsOther(params[1..], Put(sc, name, "_xlpm." + name), x);
        PutLookupOther(sc, name, "_xlpm." + name, x);
    }
  }

  // ---------------------------------------------------------------------
  // LET bindings: no forward references

  /** The names of `pairs`, non-blank ones, put into `sc` in order. */
  function BoundScope(pairs: seq<(string, string)>, sc: Scope): Scope
    decreases |pairs|
  {
    if pairs == [] then sc else BoundScope(pairs[1..], Bind(sc, pairs[0]))
  }

  /** Some pair binds the name `x`. */
  predicate Names(pairs: seq<(string, string)>, x: string)
    decreases |pairs|
  {
    pairs != [] && ((Trim(pairs[0].0) == x && x != []) || Names(pairs[1..], x))
  }

  /** The names in scope after the bindings are the outer names and the
      bindings' own names, nothing else. */
  lemma {:induction false} BoundScopeHas(pairs: seq<(string, string)>, sc: Scope, x: string)
    ensures Has(BoundScope(pairs, sc), x) <==> Has(sc, x) || Names(pairs, x)
    decreases |pairs|
  {
    if pairs != [] {
      BoundScopeHas(pairs[1..], Bind(sc, pairs[0]), x);
      var name := Trim(pairs[0].0);
      if name != [] {
        PutHas(sc, name, "_xlpm." + name, x);
      }
    }
  }

  lemma BindingsCons(pairs: seq<(string, string)>, sc: Scope, bound: nat)
    requires |pairs| > 0 && PairsLongest(pairs) < bound
    ensures Bindings(pairs, sc, bound).1 == Bindings(pairs[1..], Bind(sc, pairs[0]), bound).1
    ensures Bindings(pairs, sc, bound).0
            == Head(pairs[0], sc) + Bindings(pairs[1..], Bind(sc, pairs[0]), bound).0
  {
  }

  /** Binding all pairs leaves the scope that binding them in order builds. */
  lemma {:induction false} BindingsScope(pairs: seq<(string, string)>, sc: Scope, bound: nat)
    requires PairsLongest(pairs) < bound
    ensures Bindings(pairs, sc, bound).1 == BoundScope(pairs, sc)
    decreases |pairs|
  {
    if pairs != [] {
      BindingsScope(pairs[1..], Bind(sc, pairs[0]), bound);
      BindingsCons(pairs, sc, bound);
    }
  }

  lemma {:induction false} PairsLongestParts(a: seq<(string, string)>, b: seq<(string, string)>)
    ensures PairsLongest(a) <= PairsLongest(a + b) && PairsLongest(b) <= PairsLongest(a + b)
    decreases |a|
  {
    if a == [] {
      assert a + b == b;
    } else {
      assert (a + b)[0] == a[0] && (a + b)[1..] == a[1..] + b;
      PairsLongestParts(a[1..], b);
    }
  }

  lemma Regroup3(x: seq<string>, h: seq<string>, y: seq<string>, z: seq<string>, w: seq<string>)
    requires x == h + w && w == y + z
    ensures x == (h + y) + z
  {
  }

  lemma BindingsSplitStep(a: seq<(string, string)>, b: seq<(string, string)>, sc: Scope, bound: nat)
    requires |a| > 0 && PairsLongest(a + b) < bound
    requires PairsLongest(a) < bound && PairsLongest(b) < bound && PairsLongest(a[1..]) < bound
    requires (a + b)[1..] == a[1..] + b && (a + b)[0] == a[0]
    requires Bindings(a[1..] + b, Bind(sc, a[0]), bound).0
             == Bindings(a[1..], Bind(sc, a[0]), bound).0
                + Bindings(b, BoundScope(a[1..], Bind(sc, a[0])), bound).0
    ensures Bindings(a + b, sc, bound).0 == Bindings(a, sc, bound).0 + Bindings(b, BoundScope(a, sc), bound).0
  {
    BindingsCons(a + b, sc, bound);
    BindingsCons(a, sc, bound);
    Regroup3(Bindings(a + b, sc, bound).0, Head(a[0], sc), Bindings(a[1..], Bind(sc, a[0]), bound).0,
             Bindings(b, BoundScope(a, sc), bound).0, Bindings(a[1..] + b, Bind(sc, a[0]), bound).0);
  }

  /** Binding a list in two parts: the second part starts from the scope
      the first part built. */
  lemma {:induction false} BindingsSplit(a: seq<(string, string)>, b: seq<(string, string)>, sc: Scope, bound: nat)
    requires PairsLongest(a + b) < bound
    ensures PairsLongest(a) < bound && PairsLongest(b) < bound
    ensures Bindings(a + b, sc, bound).0 == Bindings(a, sc, bound).0 + Bindings(b, BoundScope(a, sc), bound).0
    decreases |a|
  {
    PairsLongestParts(a, b);
    if a == [] {
      assert a + b == b;
    } else {
      assert (a + b)[1..] == a[1..] + b && (a + b)[0] == a[0];
      BindingsSplit(a[1..], b, Bind(sc, a[0]), bound);
      BindingsSplitStep(a, b, sc, bound);
    }
  }

  lemma HeadNamed(pair: (string, string), sc: Scope)
    requires Trim(pair.0) != []
    ensures Head(pair, sc) == ["_xlpm." + Trim(pair.0), Process(pair.1, sc)]
    ensures Bind(sc, pair) == Put(sc, Trim(pair.0), "_xlpm." + Trim(pair.0))
  {
  }

  lemma Regroup4(x: seq<string>, p: seq<string>, w: seq<string>, h: seq<string>, q: seq<string>)
    requires x == p + w && w == h + q
    ensures x == p + h + q
  {
  }

  /** The value of the `j`-th binding is processed in the scope of the names
      bound before it: later names, its own included, are not visible to it. */
  lemma LetValueScope(pairs: seq<(string, string)>, j: nat, sc: Scope, bound: nat)
    requires j < |pairs| && PairsLongest(pairs) < bound && Trim(pairs[j].0) != []
    ensures PairsLongest(pairs[..j]) < bound && PairsLongest(pairs[j + 1..]) < bound
    ensures var before := BoundScope(pairs[..j], sc);
            var name := Trim(pairs[j].0);
            Bindings(pairs, sc, bound).0
            == Bindings(pairs[..j], sc, bound).0
               + ["_xlpm." + name, Process(pairs[j].1, before)]
               + Bindings(pairs[j + 1..], Put(before, name, "_xlpm." + name), bound).0
  {
    var a, b := pairs[..j], pairs[j..];
    assert pairs == a + b;
    BindingsSplit(a, b, sc, bound);
    var before := BoundScope(a, sc);
    assert b[0] == pairs[j] && b[1..] == pairs[j + 1..];
    BindingsCons(b, before, bound);
    HeadNamed(pairs[j], before);
    Regroup4(Bindings(pairs, sc, bound).0, Bindings(a, sc, bound).0, Bindings(b, before, bound).0,
             Head(pairs[j], before), Bindings(pairs[j + 1..], Bind(before, pairs[j]), bound).0);
  }

  // ---------------------------------------------------------------------
  // Reading the arguments

  /** A parameter in brackets is declared `_xlop.name`, any other non-blank
      one `_xlpm.name`; the name is what is left once the text is stripped
      and the brackets removed. */
  lemma ParamEntryShape(p: string)
    requires Trim(p) != []
    ensures var (decl, name) := ParamEntry(p).value;
            || (Trim(p) == "[" + name + "]" && decl == "_xlop." + name)
            || (Trim(p) == name && decl == "_xlpm." + name)
  {
    var t := Trim(p);
    if StartsWith(t, "[") && EndsWith(t, "]") && |t| >= 2 {
      assert t == [t[0]] + t[1..|t| - 1] + [t[|t| - 1]];
    }
  }

  /** The arguments taken two at a time: pair `k` is arguments `2k` and
      `2k + 1`. */
  lemma {:induction false} PairsSpec(args: seq<string>)
    requires |args| % 2 == 0
    ensures |Pairs(args)| == |args| / 2
    ensures forall k :: 0 <= k < |args| / 2 ==> Pairs(args)[k] == (args[2 * k], args[2 * k + 1])
    decreases |args|
  {
    if args != [] {
      var rest := args[2..];
      PairsSpec(rest);
      forall k | 1 <= k < |args| / 2
        ensures Pairs(args)[k] == (args[2 * k], args[2 * k + 1])
      {
        assert Pairs(args)[k] == Pairs(rest)[k - 1];
        assert rest[2 * (k - 1)] == args[2 * k] && rest[2 * (k - 1) + 1] == args[2 * k + 1];
      }
    }
  }

  /** An odd number of arguments gives one binding per pair before the last
      argument, which is the final expression; an even number gives neither
      bindings nor a final expression. */
  lemma LetPartsSpec(args: seq<string>)
    ensures |args| % 2 == 0 ==> LetParts(args).0 == [] && LetParts(args).1 == []
    ensures |args| % 2 == 1 ==>
              && |LetParts(args).0| == |args| / 2
              && (forall k :: 0 <= k < |args| / 2 ==> LetParts(args).0[k] == (args[2 * k], args[2 * k + 1]))
              && LetParts(args).1 == args[|args| - 1]
  {
    var n := |args|;
    if n % 2 == 1 {
      PairsSpec(args[..n - 1]);
    }
  }

  /** The LAMBDA arguments split into parameters and body: the body is the
      last argument and the parameters are all the others, so a single
      argument is a body without parameters; no argument gives neither. */
  lemma LambdaPartsSpec(args: seq<string>)
    ensures args == [] ==> LambdaParts(args) == ([], [])
    ensures args != [] ==> LambdaParts(args).0 + [LambdaParts(args).1] == args
    ensures |args| == 1 ==> LambdaParts(args) == ([], args[0])
  {
    if args != [] {
      assert args[..|args| - 1] + [args[|args| - 1]] == args;
    }
  }
}
