/** `add_function_prefix`, the older prefix pass for ordinary formulas:
    the keywords LAMBDA and LET gain `_xlfn.`, every LAMBDA call has its
    parameters marked with `_xlpm.`, every LET call its bound names, and
    then every other name of the set of new functions gains `_xlfn.`.

    The pass is modelled with its three choices as parameters: the "already
    prefixed" guard of the name loop, and the bookkeeping of the LAMBDA and
    LET loops.  `AddFunctionPrefixAsWritten` fixes them as the program has
    them; `AddFunctionPrefix` fixes them as corrected. */
module LegacyPrefix {
  import opened Text
  import opened Words
  import opened LegacyNames
  import opened LegacyLambda
  import opened LegacyLet
  import opened LetScan

  /** `_process_let_variables`: the loop over the `_xlfn.LET(` calls with
      `_add_xlpm_to_let_vars` as the rewrite of one call. */
  function Lets(t: string, how: Bookkeeping): string
  {
    LetLoop(t, 0, Scan(LetName, how, LetVars))
  }

  /** `\bLAMBDA\b` renamed to `_xlfn.LAMBDA`, then `\bLET\b` to `_xlfn.LET`. */
  function Keywords(t: string): string
  {
    Sub(Sub(t, Word("LAMBDA"), LambdaName), Word("LET"), LetName)
  }

  /** `_process_lambda_function`: the keywords, the LAMBDA calls, then the
      LET calls. */
  function ProcessLambda(t: string, order: seq<string>, g: Guard, how: Bookkeeping): string
  {
    Lets(Lambdas(Keywords(t), order, g, how), how)
  }

  /** `add_function_prefix`: a text that is empty or does not start with
      `=` is returned as it is; otherwise the text after the `=` is
      processed and the `=` put back. */
  function Prefixing(ft: string, order: seq<string>, g: Guard, how: Bookkeeping): (r: string)
    ensures (ft == [] || ft[0] != '=') ==> r == ft
    ensures ft != [] && ft[0] == '=' ==> r != [] && r[0] == '='
  {
    if ft == [] || ft[0] != '=' then ft
    else "=" + TagText(ProcessLambda(ft[1..], order, g, how), order, g)
  }

  /** The pass as the program has it: a substring guard and the stale
      bookkeeping of both loops. */
  function AddFunctionPrefixAsWritten(ft: string, order: seq<string>): string
  {
    Prefixing(ft, order, Substring, AsWritten)
  }

  /** The pass with the guard and both loops corrected. */
  function AddFunctionPrefix(ft: string, order: seq<string>): string
  {
    Prefixing(ft, order, WholeWord, Corrected)
  }

  // ---------------------------------------------------------------------
  // The keywords

  lemma KeywordNames()
    ensures WordName("LAMBDA") && WordName("LET")
    ensures Fn + "LAMBDA" == LambdaName && Fn + "LET" == LetName
  {
  }

  /** Renaming the keywords only inserts `_xlfn.`: before every whole-word
      LAMBDA, then before every whole-word LET of the result. */
  lemma KeywordsMark(t: string)
    ensures Keywords(t) == Marked(Marked(t, 0, Word("LAMBDA"), Fn), 0, Word("LET"), Fn)
  {
    KeywordNames();
    SubIsMarking(t, 0, Word("LAMBDA"), Fn);
    SubIsMarking(Sub(t, Word("LAMBDA"), LambdaName), 0, Word("LET"), Fn);
  }

  // ---------------------------------------------------------------------
  // A text without capital letters

  /** No call of a name holding a capital letter opens in a text without
      capitals. */
  lemma CapitalNoOpening(t: string, name: string, i: nat, k: nat)
    requires i <= |t| && k < |name| && IsUpper(name[k])
    requires forall q :: 0 <= q < |t| ==> !IsUpper(t[q])
    ensures Opening(t, name, i).None?
  {
  }

  lemma {:induction false} FoundNone(t: string, i: nat)
    requires i <= |t|
    requires forall q :: i <= q <= |t| ==> Opening(t, LambdaName, q).None?
    ensures Found(t, i) == []
    decreases |t| - i
  {
    if i < |t| {
      FoundNone(t, i + 1);
    }
  }

  lemma KeywordsNoCapital(t: string)
    requires forall q :: 0 <= q < |t| ==> !IsUpper(t[q])
    ensures Keywords(t) == t
  {
    NoCapitalNoMatch(t, 0, "LAMBDA");
    SubNoMatch(t, 0, Word("LAMBDA"), LambdaName);
    assert Sub(t, Word("LAMBDA"), LambdaName) == t;
    NoCapitalNoMatch(t, 0, "LET");
    SubNoMatch(t, 0, Word("LET"), LetName);
  }

  lemma LambdasNoCapital(t: string, order: seq<string>, g: Guard, how: Bookkeeping)
    requires forall q :: 0 <= q < |t| ==> !IsUpper(t[q])
    ensures Lambdas(t, order, g, how) == t
  {
    forall q | 0 <= q <= |t| ensures Opening(t, LambdaName, q).None? {
      CapitalNoOpening(t, LambdaName, q, 6);
    }
    FoundNone(t, 0);
    LoopEnd(t, [], order, g, how);
  }

  lemma LetsNoCapital(t: string, how: Bookkeeping)
    requires forall q :: 0 <= q < |t| ==> !IsUpper(t[q])
    ensures Lets(t, how) == t
  {
    var sc := Scan(LetName, how, LetVars);
    forall q | 0 <= q <= |t| ensures Opening(t, sc.name, q).None? {
      CapitalNoOpening(t, LetName, q, 6);
    }
    NoCallKeeps(t, 0, sc);
  }

  lemma ProcessLambdaNoCapital(t: string, order: seq<string>, g: Guard, how: Bookkeeping)
    requires forall q :: 0 <= q < |t| ==> !IsUpper(t[q])
    ensures ProcessLambda(t, order, g, how) == t
  {
    KeywordsNoCapital(t);
    LambdasNoCapital(t, order, g, how);
    LetsNoCapital(t, how);
  }

  lemma NoCapitalRest(ft: string)
    requires ft != [] && forall q :: 0 <= q < |ft| ==> !IsUpper(ft[q])
    ensures forall q :: 0 <= q < |ft| - 1 ==> !IsUpper(ft[1..][q])
  {
    forall q | 0 <= q < |ft| - 1 ensures !IsUpper(ft[1..][q]) {
      assert ft[1..][q] == ft[q + 1];
    }
  }

  /** The pass is case-sensitive: a formula without capital letters, such
      as one whose functions are written in lower case, comes back as it
      went in. */
  lemma NoCapitalUnchanged(ft: string, order: seq<string>, g: Guard, how: Bookkeeping)
    requires IsOrder(order)
    requires forall q :: 0 <= q < |ft| ==> !IsUpper(ft[q])
    ensures Prefixing(ft, order, g, how) == ft
  {
    if ft != [] && ft[0] == '=' {
      var t := ft[1..];
      SignGlue(ft, t);
      NoCapitalRest(ft);
      NoCapitalBody(t, order, g, how);
    }
  }

  lemma SignGlue(ft: string, t: string)
    requires ft != [] && ft[0] == '=' && t == ft[1..]
    ensures ft == "=" + t
  {
    assert ft == [ft[0]] + t;
  }

  lemma NoCapitalBody(s: string, order: seq<string>, g: Guard, how: Bookkeeping)
    requires IsOrder(order)
    requires forall q :: 0 <= q < |s| ==> !IsUpper(s[q])
    ensures TagText(ProcessLambda(s, order, g, how), order, g) == s
  {
    ProcessLambdaNoCapital(s, order, g, how);
    OrderCapitals(order);
    TagTextNoCapital(s, order, g);
  }

  // ---------------------------------------------------------------------
  // A body without LAMBDA and LET

  /** A call of a name holding `n` at offset `k` is an occurrence of `n`. */
  lemma OpensContains(t: string, name: string, q: nat, n: string, k: nat)
    requires q <= |t| && OpensAt(t, name, q)
    requires k + |n| <= |name| && name[k..k + |n|] == n
    ensures Contains(t, n)
  {
    assert t[q..][..|name|] == name;
    assert t[q + k..q + k + |n|] == t[q..][..|name|][k..k + |n|];
    ContainsAt(t, n, q + k);
  }

  lemma KeywordsAbsent(t: string)
    requires !Contains(t, "LAMBDA") && !Contains(t, "LET")
    ensures Keywords(t) == t
  {
    AbsentSub(t, 0, Word("LAMBDA"), LambdaName);
    assert t[0..] == t;
    AbsentSub(t, 0, Word("LET"), LetName);
  }

  /** Without the words LAMBDA and LET the LAMBDA and LET stages have
      nothing to do. */
  lemma ProcessLambdaAbsent(t: string, order: seq<string>, g: Guard, how: Bookkeeping)
    requires !Contains(t, "LAMBDA") && !Contains(t, "LET")
    ensures ProcessLambda(t, order, g, how) == t
  {
    KeywordsAbsent(t);
    assert LambdaName[6..12] == "LAMBDA" && LetName[6..9] == "LET";
    forall q | 0 <= q <= |t| ensures Opening(t, LambdaName, q).None? && Opening(t, LetName, q).None? {
      if OpensAt(t, LambdaName, q) {
        OpensContains(t, LambdaName, q, "LAMBDA", 6);
      }
      if OpensAt(t, LetName, q) {
        OpensContains(t, LetName, q, "LET", 6);
      }
    }
    FoundNone(t, 0);
    LoopEnd(t, [], order, g, how);
    NoCallKeeps(t, 0, Scan(LetName, how, LetVars));
  }

  /** A formula whose body names neither LAMBDA nor LET is `=` and its
      body through the name loop and the `_xlws.` step, and nothing else. */
  lemma PrefixingTagOnly(ft: string, order: seq<string>, g: Guard, how: Bookkeeping)
    requires ft != [] && ft[0] == '='
    requires !Contains(ft[1..], "LAMBDA") && !Contains(ft[1..], "LET")
    ensures Prefixing(ft, order, g, how) == "=" + TagText(ft[1..], order, g)
  {
    ProcessLambdaAbsent(ft[1..], order, g, how);
  }
}
