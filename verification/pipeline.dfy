/** `prepare_spill_formula`: the whole rewrite of one formula, and the array
    attributes the writer puts on its `<f>` element.

    The placeholder generators are parameters (`strTok`, `arrTok`); the
    `uuid4` calls that feed them in the program are outside the model.  The
    aggregate stage is a parameter: `Prepare` is the program, whose
    GROUPBY/PIVOTBY step places the marker with repeated `find(',')`
    (`Aggregate.Naive`); `PrepareCorrected` places it after the top-level
    comma instead (`Aggregate.TopLevel`). */
module Pipeline {
  import opened Text
  import Shield
  import Closure
  import Aggregate
  import Tagger
  import RangeForms
  import Words

  /** What the attribute logic reads from a cell.  A missing `_is_spill`
      attribute reads as `false`, a missing or `None` `_spill_range` as
      `None`, a missing `coordinate` as `None`. */
  datatype Cell = Cell(spill: bool, spillRange: Option<string>, coordinate: Option<string>)

  /** The attribute dictionary: empty, or `{'t': 'array', 'ref': ref}`. */
  datatype Attrs = NoAttrs | ArrayAttrs(ref: string)

  /** `_get_cell_coordinate`. */
  function Coordinate(cell: Cell): string
  {
    match cell.coordinate
    case Some(c) => c
    case None => "A1"
  }

  /** `_get_spill_range`. */
  function SpillRange(cell: Cell): string
  {
    match cell.spillRange
    case Some(r) => r
    case None => Coordinate(cell)
  }

  const LambdaMark: string := "_xlfn.LAMBDA"
  const LetMark: string := "_xlfn.LET"

  /** `_determine_formula_attributes`: a spilling cell gets its spill range;
      otherwise a formula holding a tagged LAMBDA or LET is an array formula
      on the cell itself; anything else gets no attributes. */
  function Attributes(f: string, cell: Cell): (r: Attrs)
    ensures r.ArrayAttrs? <==> cell.spill || Contains(f, LambdaMark) || Contains(f, LetMark)
    ensures r.ArrayAttrs? && cell.spill && cell.spillRange.Some? ==> r.ref == cell.spillRange.value
    ensures r.ArrayAttrs? && !(cell.spill && cell.spillRange.Some?) && cell.coordinate.Some? ==> r.ref == cell.coordinate.value
    ensures r.ArrayAttrs? && !(cell.spill && cell.spillRange.Some?) && cell.coordinate.None? ==> r.ref == "A1"
  {
    if cell.spill then ArrayAttrs(SpillRange(cell))
    else if Contains(f, LambdaMark) || Contains(f, LetMark) then ArrayAttrs(Coordinate(cell))
    else NoAttrs
  }

  /** The rewriting stages between masking and restoring, in program order:
      LAMBDA/LET, GROUPBY/PIVOTBY arguments, function prefixes, TRO forms. */
  function Transform(o: string, how: Aggregate.Placement): string
  {
    RangeForms.Convert(Tagger.Tag(Aggregate.MarkAggregates(Closure.Rewrite(o), how)))
  }

  /** The formula body through all stages: mask strings, mask arrays,
      transform, restore arrays, restore strings. */
  function ProcessBody(b: string, strTok: nat -> string, arrTok: nat -> string, how: Aggregate.Placement): string
  {
    var (o1, t1) := Shield.Mask(Shield.Strings, b, strTok);
    var (o2, t2) := Shield.Mask(Shield.Arrays, o1, arrTok);
    Shield.Restore(Shield.Restore(Transform(o2, how), t2), t1)
  }

  /** `prepare_spill_formula`, with the placement of the aggregate marker
      as a parameter. */
  function PrepareWith(formula: string, cell: Cell, strTok: nat -> string, arrTok: nat -> string, how: Aggregate.Placement): (r: (string, Attrs))
    ensures !StartsWith(formula, "=") ==> r == (formula, NoAttrs)
    ensures StartsWith(formula, "=") ==> |r.0| >= 1 && r.0[0] == '=' && r.1 == Attributes(r.0[1..], cell)
  {
    if |formula| == 0 || formula[0] != '=' then (formula, NoAttrs)
    else
      var final := ProcessBody(formula[1..], strTok, arrTok, how);
      assert ("=" + final)[1..] == final;
      ("=" + final, Attributes(final, cell))
  }

  /** `prepare_spill_formula` as the program runs it. */
  function Prepare(formula: string, cell: Cell, strTok: nat -> string, arrTok: nat -> string): (string, Attrs)
  {
    PrepareWith(formula, cell, strTok, arrTok, Aggregate.Naive)
  }

  /** The same with the aggregate marker after the top-level comma. */
  function PrepareCorrected(formula: string, cell: Cell, strTok: nat -> string, arrTok: nat -> string): (string, Attrs)
  {
    PrepareWith(formula, cell, strTok, arrTok, Aggregate.TopLevel)
  }

  // ---------------------------------------------------------------------
  // Properties

  /** The attributes read the formula only through the two tagged markers. */
  lemma AttributesByMarkers(f: string, g: string, cell: Cell)
    requires Contains(f, LambdaMark) == Contains(g, LambdaMark)
    requires Contains(f, LetMark) == Contains(g, LetMark)
    ensures Attributes(f, cell) == Attributes(g, cell)
  {
  }

  /** For a spilling cell the formula does not matter at all. */
  lemma SpillIgnoresFormula(f: string, g: string, cell: Cell)
    requires cell.spill
    ensures Attributes(f, cell) == Attributes(g, cell) == ArrayAttrs(SpillRange(cell))
  {
  }

  /** When the rewriting stages find nothing to do in the masked text, the
      formula comes back exactly as given: restoring undoes masking. */
  lemma PreparePassThrough(formula: string, cell: Cell, strTok: nat -> string, arrTok: nat -> string, how: Aggregate.Placement, m: char, w: nat)
    requires StartsWith(formula, "=")
    requires Shield.Placeholders(strTok, arrTok, m, w)
    requires forall q :: 0 <= q < |formula| ==> formula[q] != m
    requires var o1 := Shield.Mask(Shield.Strings, formula[1..], strTok).0;
             var o2 := Shield.Mask(Shield.Arrays, o1, arrTok).0;
             Transform(o2, how) == o2
    ensures PrepareWith(formula, cell, strTok, arrTok, how).0 == formula
  {
    var b := formula[1..];
    forall q | 0 <= q < |b| ensures b[q] != m {
      assert b[q] == formula[q + 1];
    }
    Shield.ShieldRoundTrip(b, strTok, arrTok, m, w);
    assert "=" + b == formula;
  }

  // ---------------------------------------------------------------------
  // A body only the tagger touches

  /** Nothing for the LAMBDA/LET, aggregate and range stages to do: no
      LAMBDA or LET call, no GROUPBY or PIVOTBY call, and neither `.:` nor
      `:.`. */
  predicate TagOnly(o: string)
  {
    && (forall p :: 0 <= p < |o| ==> !Closure.BinderAt(o, p))
    && !Words.HasMatchFrom(o, 0, Aggregate.CallPattern("GROUPBY"))
    && !Words.HasMatchFrom(o, 0, Aggregate.CallPattern("PIVOTBY"))
    && !Contains(o, ".:") && !Contains(o, ":.")
  }

  /** Clash-free text is text without the two range separators. */
  lemma NoRangeSepIff(t: string)
    ensures Tagger.NoRangeSep(t) <==> !Contains(t, ".:") && !Contains(t, ":.")
  {
    if Tagger.NoRangeSep(t) {
      RangeForms.NoAdjacentAbsent(t, ':', '.');
      RangeForms.NoAdjacentAbsent(t, '.', ':');
    } else {
      var i :| 0 <= i < |t| - 1 && Tagger.Clash(t[i], t[i + 1]);
      RangeForms.PairAt(t, t[i], t[i + 1], i);
      ContainsAt(t, [t[i], t[i + 1]], i);
    }
  }

  /** On such a body the stages between masking and restoring are the
      function tagger alone, under either aggregate placement. */
  lemma TransformTagOnly(o: string, how: Aggregate.Placement)
    requires TagOnly(o)
    ensures Transform(o, how) == Tagger.Tag(o)
  {
    Closure.RewriteUntouched(o);
    Aggregate.MarkAggregatesNoCall(o, how);
    NoRangeSepIff(o);
    Tagger.TagNoRangeSep(o);
    NoRangeSepIff(Tagger.Tag(o));
    RangeForms.ConvertPlain(Tagger.Tag(o));
  }

  /** A formula whose masked body leaves only tagging to do comes back as
      `=` and the restored tagged body, with the attributes of that text. */
  lemma PrepareTagOnly(formula: string, cell: Cell, strTok: nat -> string, arrTok: nat -> string, how: Aggregate.Placement)
    requires StartsWith(formula, "=")
    requires var o1 := Shield.Mask(Shield.Strings, formula[1..], strTok).0;
             TagOnly(Shield.Mask(Shield.Arrays, o1, arrTok).0)
    ensures var (o1, t1) := Shield.Mask(Shield.Strings, formula[1..], strTok);
            var (o2, t2) := Shield.Mask(Shield.Arrays, o1, arrTok);
            var final := Shield.Restore(Shield.Restore(Tagger.Tag(o2), t2), t1);
            PrepareWith(formula, cell, strTok, arrTok, how) == ("=" + final, Attributes(final, cell))
  {
    var o1 := Shield.Mask(Shield.Strings, formula[1..], strTok).0;
    TransformTagOnly(Shield.Mask(Shield.Arrays, o1, arrTok).0, how);
  }

  /** Without string or array literals nothing is masked: such a formula
      is `=` and its body through the rewriting stages. */
  lemma PrepareNoLiterals(formula: string, cell: Cell, strTok: nat -> string, arrTok: nat -> string, how: Aggregate.Placement)
    requires StartsWith(formula, "=")
    requires forall q :: 0 <= q < |formula| ==> formula[q] != '"' && formula[q] != '{'
    ensures var final := Transform(formula[1..], how);
            PrepareWith(formula, cell, strTok, arrTok, how) == ("=" + final, Attributes(final, cell))
  {
    var b := formula[1..];
    forall q | 0 <= q < |b| ensures b[q] != '"' && b[q] != '{' {
      assert b[q] == formula[q + 1];
    }
    Shield.ShieldNone(b, strTok, arrTok);
  }

  /** So a literal-free formula with a body only the tagger touches is `=`
      and its tagged body. */
  lemma PrepareLiteralFree(formula: string, cell: Cell, strTok: nat -> string, arrTok: nat -> string, how: Aggregate.Placement)
    requires StartsWith(formula, "=")
    requires forall q :: 0 <= q < |formula| ==> formula[q] != '"' && formula[q] != '{'
    requires TagOnly(formula[1..])
    ensures var final := Tagger.Tag(formula[1..]);
            PrepareWith(formula, cell, strTok, arrTok, how) == ("=" + final, Attributes(final, cell))
  {
    PrepareNoLiterals(formula, cell, strTok, arrTok, how);
    TransformTagOnly(formula[1..], how);
  }

  /** After the LAMBDA/LET rewrite, a text with no GROUPBY or PIVOTBY call,
      no unprefixed registry call and no range separator is final: the
      later stages leave it alone. */
  lemma TransformRewritten(o: string, how: Aggregate.Placement)
    requires var t := Closure.Rewrite(o);
             && !Words.HasMatchFrom(t, 0, Aggregate.CallPattern("GROUPBY"))
             && !Words.HasMatchFrom(t, 0, Aggregate.CallPattern("PIVOTBY"))
             && (forall k :: 0 <= k < |Tagger.Registry| ==> !Words.HasMatchFrom(t, 0, Tagger.CallOf(Tagger.Registry[k].name)))
             && !Contains(t, ".:") && !Contains(t, ":.")
    ensures Transform(o, how) == Closure.Rewrite(o)
  {
    var t := Closure.Rewrite(o);
    Aggregate.MarkAggregatesNoCall(t, how);
    Tagger.TagNoCall(t);
    RangeForms.ConvertPlain(t);
  }
}
