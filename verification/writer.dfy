/** The decisions of the cell writer, apart from the XML it emits:
    `_prepare_spill_formula`, the attribute map of `_set_attributes`, and
    what a formula cell puts into its `<f>` and `<v>` elements
    (`etree_write_cell`, mirrored line for line by `lxml_write_cell`).

    The writer does not call the formula pipeline or the older prefix pass:
    a spilling formula gets only the leading-call prefix of
    `_prepare_spill_formula`, and any other formula is written as it is,
    less one leading `=`. */
module Writer {
  import opened Text
  import opened Words
  import opened LegacyNames

  // ---------------------------------------------------------------------
  // Cells

  /** The four kinds of date and time value: `datetime`, `date`, `time`
      and `timedelta`. */
  datatype Moment = DateTime | Day | TimeOfDay | Duration

  /** What a cell can hold, as far as the writer distinguishes it.  A number
      or a boolean is kept as the text `safe_string` gives it; a date or
      time records only its kind and whether its `tzinfo` is set; the
      conversions `to_ISO8601` and `to_excel` are recorded, not computed.
      An `ArrayFormula` carries its attribute dictionary and its text, a
      `DataTableFormula` its attribute dictionary. */
  datatype Value =
    | NoValue
    | Text(s: string)
    | Scalar(shown: string)
    | Temporal(kind: Moment, tz: bool)
    | Iso(of: Value)
    | Serial(of: Value, epoch1904: bool)
    | ArrayFormula(attrs: map<string, string>, text: Option<string>)
    | DataTable(attrs: map<string, string>)
    | Rich(id: nat)

  /** The workbook settings that `_set_attributes` reads. */
  datatype Book = Book(isoDates: bool, epoch1904: bool)

  /** The cell as the writer sees it.  `spill` is `_is_spill` (absent reads
      as false), `spillRange` is `_spill_range` (absent reads as `None`). */
  datatype Cell = Cell(coordinate: string, dataType: string, value: Value, styleId: nat,
                       spill: bool, spillRange: Option<string>, hyperlink: Option<string>)

  /** The two exceptions the writer can raise: the `TypeError` of a date
      with a time zone, and the `AttributeError` of a formula cell whose
      value is not text where the writer calls a string method on it. */
  datatype Failure = TimezoneError | NotText

  datatype Outcome<T> = Ok(ok: T) | Raises(failure: Failure)

  // ---------------------------------------------------------------------
  // `_prepare_spill_formula`

  /** `SPILL_FUNCTIONS`. */
  const SpillFunctions: set<string> :=
    {"UNIQUE", "SORT", "SORTBY", "FILTER", "SEQUENCE", "RANDARRAY", "XLOOKUP", "XMATCH"}

  /** The prefix of the dynamic-array functions that Excel keeps in a
      worksheet namespace. */
  const XlwsPrefix: string := "_xlfn._xlws."

  /** The upper-cased text starts with one of the spill functions. */
  predicate LeadsWithSpill(t: string)
  {
    exists f :: f in SpillFunctions && StartsWith(Upper(t), f)
  }

  /** The loop over the set: `_xlfn.` goes in front of the text at the first
      name, in the set's iteration order `order`, that the upper-cased text
      starts with, and the loop stops.  Every name leads to the same prefix,
      so the outcome does not depend on the order: the text gains `_xlfn.`
      once exactly when it starts with a spill function. */
  method PrefixLeading(t: string, order: seq<string>) returns (r: string)
    requires forall f :: f in SpillFunctions <==> f in order
    ensures LeadsWithSpill(t) ==> r == Fn + t
    ensures !LeadsWithSpill(t) ==> r == t
  {
    var u := Upper(t);
    r := t;
    var k := 0;
    while k < |order|
      invariant 0 <= k <= |order|
      invariant forall j :: 0 <= j < k ==> !StartsWith(u, order[j])
    {
      if StartsWith(u, order[k]) {
        r := Fn + t;
        return;
      }
      k := k + 1;
    }
  }

  /** The text with `_xlfn.` in front when it starts with a spill function:
      what `PrefixLeading` computes in any order. */
  function Leading(t: string): string
  {
    if LeadsWithSpill(t) then Fn + t else t
  }

  /** The text starts with `_xlfn.NAME`; with the corrected guard, with the
      name ending there as a whole word. */
  predicate LeadsWith(t: string, name: string, g: Guard)
  {
    StartsWith(t, Fn + name) && (g == WholeWord ==> Boundary(t, |Fn + name|))
  }

  /** Every `_xlfn.NAME` becomes `_xlfn._xlws.NAME`: as a substring
      (`str.replace`), or, corrected, as a whole word. */
  function XlwsRename(t: string, name: string, g: Guard): string
  {
    match g
    case Substring => ReplaceAll(t, Fn + name, XlwsPrefix + name)
    case WholeWord => Sub(t, Pattern(Fn + name, [], false, true, WordEnd), XlwsPrefix + name)
  }

  /** The SORT and FILTER special case: a text starting with `_xlfn.SORT`
      or `_xlfn.FILTER` has the worksheet namespace put into that prefix. */
  function XlwsStep(t: string, g: Guard): (r: string)
    ensures LeadsWith(t, "SORT", g) ==> StartsWith(r, XlwsPrefix + "SORT")
    ensures !LeadsWith(t, "SORT", g) && LeadsWith(t, "FILTER", g) ==> StartsWith(r, XlwsPrefix + "FILTER")
    ensures !LeadsWith(t, "SORT", g) && !LeadsWith(t, "FILTER", g) ==> r == t
    ensures g == Substring && LeadsWith(t, "SORT", g) ==> !Contains(r, Fn + "SORT")
    ensures g == Substring && !LeadsWith(t, "SORT", g) && LeadsWith(t, "FILTER", g) ==> !Contains(r, Fn + "FILTER")
  {
    if LeadsWith(t, "SORT", g) then
      RenameLeads(t, "SORT", g);
      XlwsClean("SORT");
      ReplaceAllGone(t, Fn + "SORT", XlwsPrefix + "SORT");
      XlwsRename(t, "SORT", g)
    else if LeadsWith(t, "FILTER", g) then
      RenameLeads(t, "FILTER", g);
      XlwsClean("FILTER");
      ReplaceAllGone(t, Fn + "FILTER", XlwsPrefix + "FILTER");
      XlwsRename(t, "FILTER", g)
    else t
  }

  /** `_xlfn._xlws.NAME` can replace `_xlfn.NAME` without leaving one: the
      only underscores of either sit where the two prefixes start, and the
      pattern's `_xlfn.` does not match the inserted `_xlws.`. */
  lemma XlwsClean(name: string)
    requires name == "SORT" || name == "FILTER"
    ensures CleanReplacement(Fn + name, XlwsPrefix + name)
  {
    var pat := Fn + name;
    var rep := XlwsPrefix + name;
    forall i | 0 <= i <= |rep| - |pat| ensures !OccursAt(rep, pat, i) {
      OccursChar(rep, pat, i, 0);
      OccursChar(rep, pat, i, 3);
      OccursChar(rep, pat, i, 6);
    }
    forall j | |rep| - |pat| < j < |rep| ensures rep[j..] != pat[..|rep| - j] {
      assert rep[j..][0] == rep[j];
    }
    forall k | 0 < k < |pat| ensures rep[..k] != pat[|pat| - k..] {
      assert pat[|pat| - k..][0] == pat[|pat| - k];
    }
  }

  /** A text that starts with the prefixed name starts, once renamed, with
      the renamed prefix. */
  lemma RenameLeads(t: string, name: string, g: Guard)
    requires |name| > 0 && LeadsWith(t, name, g)
    ensures StartsWith(XlwsRename(t, name, g), XlwsPrefix + name)
  {
    var m := Fn + name;
    if g == Substring {
      assert t == m + t[|m|..];
      ReplaceAllHead(t[|m|..], m, XlwsPrefix + name);
    } else {
      var pat := Pattern(m, [], false, true, WordEnd);
      assert MatchesAt(t, 0, pat) by {
        assert t[0..|m|] == m;
      }
      SubHit(t, 0, pat, XlwsPrefix + name);
    }
  }

  /** What `ref` reads: `_spill_range` when it is set and not empty (the
      `or` of the source tests truthiness), otherwise the coordinate. */
  function SpillRef(cell: Cell): (r: string)
    ensures cell.spillRange.Some? && cell.spillRange.value != [] ==> r == cell.spillRange.value
    ensures cell.spillRange.None? || cell.spillRange.value == [] ==> r == cell.coordinate
  {
    match cell.spillRange
    case Some(s) => if s != [] then s else cell.coordinate
    case None => cell.coordinate
  }

  /** One leading `=` removed. */
  function DropEquals(t: string): (r: string)
    ensures t != [] && t[0] == '=' ==> t == "=" + r
    ensures (t == [] || t[0] != '=') ==> r == t
  {
    if t != [] && t[0] == '=' then t[1..] else t
  }

  /** The array attributes of the `<f>` element of a spilling formula. */
  function SpillAttrs(cell: Cell): map<string, string>
  {
    map["t" := "array", "ref" := SpillRef(cell)]
  }

  /** `_prepare_spill_formula` with the guard of the SORT and FILTER case as
      a parameter: a cell that does not spill keeps its text and gets no
      attributes; a spilling one loses one leading `=`, gains `_xlfn.` when
      it starts with a spill function, has the SORT and FILTER case applied
      and gets the array attributes. */
  function PrepareSpillWith(t: string, cell: Cell, g: Guard): (r: (string, map<string, string>))
    ensures !cell.spill ==> r == (t, map[])
    ensures cell.spill ==> r.1 == SpillAttrs(cell) && r.1["t"] == "array"
  {
    if !cell.spill then (t, map[])
    else (XlwsStep(Leading(DropEquals(t)), g), SpillAttrs(cell))
  }

  /** The program's version: a plain `startswith` and `str.replace`, under
      which `_xlfn.SORTBY` counts as `_xlfn.SORT`. */
  function PrepareSpillAsWritten(t: string, cell: Cell): (string, map<string, string>)
  {
    PrepareSpillWith(t, cell, Substring)
  }

  /** The corrected version, with SORT and FILTER matched as whole words,
      as the older prefix pass does for the same renaming. */
  function PrepareSpill(t: string, cell: Cell): (string, map<string, string>)
  {
    PrepareSpillWith(t, cell, WholeWord)
  }

  // ---------------------------------------------------------------------
  // The spill prefix is applied once

  /** No spill function starts with `_`, so a text starting with `_`, such
      as one that already carries `_xlfn.`, gains no second prefix. */
  lemma UnderscoreNoSpill(t: string)
    requires t != [] && t[0] == '_'
    ensures !LeadsWithSpill(t)
  {
    UpperAt(t, 0);
    forall f | f in SpillFunctions ensures !StartsWith(Upper(t), f) {
      assert f[0] != '_';
    }
  }

  /** A text starting with `_xlfn._xlws.` does not start with `_xlfn.SORT`
      or `_xlfn.FILTER`. */
  lemma XlwsNoLead(t: string, g: Guard)
    requires StartsWith(t, XlwsPrefix)
    ensures !LeadsWith(t, "SORT", g) && !LeadsWith(t, "FILTER", g)
  {
    assert t[6] == XlwsPrefix[6];
  }

  /** The text the SORT and FILTER step leaves starts with `_` when it was
      changed, or when the text it got had the prefix. */
  lemma XlwsStable(x: string, g: Guard)
    requires LeadsWith(x, "SORT", g) || LeadsWith(x, "FILTER", g)
    ensures var r := XlwsStep(x, g); r != [] && r[0] == '_' && XlwsStep(r, g) == r
  {
    var r := XlwsStep(x, g);
    if LeadsWith(x, "SORT", g) {
      assert r[..|XlwsPrefix + "SORT"|] == XlwsPrefix + "SORT";
      assert r[..|XlwsPrefix|] == XlwsPrefix;
    } else {
      assert r[..|XlwsPrefix + "FILTER"|] == XlwsPrefix + "FILTER";
      assert r[..|XlwsPrefix|] == XlwsPrefix;
    }
    XlwsNoLead(r, g);
  }

  /** `_prepare_spill_formula` is stable on its own output: run again on the
      text it returned (one that does not itself start with `=`), it
      returns the same text and attributes, so no prefix is ever doubled. */
  lemma PrepareSpillStable(t: string, cell: Cell, g: Guard)
    requires cell.spill
    requires var r := PrepareSpillWith(t, cell, g).0; r == [] || r[0] != '='
    ensures var r := PrepareSpillWith(t, cell, g);
            PrepareSpillWith(r.0, cell, g) == r
  {
    var b := DropEquals(t);
    var x := Leading(b);
    var r := XlwsStep(x, g);
    if LeadsWith(x, "SORT", g) || LeadsWith(x, "FILTER", g) {
      XlwsStable(x, g);
      UnderscoreNoSpill(r);
    } else if LeadsWithSpill(b) {
      assert r == Fn + b && r[0] == '_';
      UnderscoreNoSpill(r);
    } else {
      assert r == b;
    }
  }

  // ---------------------------------------------------------------------
  // SORTBY under the SORT case

  lemma SortByLeads(b: string)
    requires b == "SORTBY(A1,B1)"
    ensures LeadsWithSpill(b)
  {
    forall i | 0 <= i < 4 ensures Upper(b)[i] == b[i] {
      UpperAt(b, i);
    }
    assert Upper(b)[..4] == "SORT";
    assert "SORT" in SpillFunctions;
  }

  /** On `=SORTBY(A1,B1)` the spilling path comes down to the SORT and
      FILTER step on the prefixed text. */
  lemma SortByPrefixed(t: string, cell: Cell, g: Guard, x: string)
    requires t == "=SORTBY(A1,B1)" && cell.spill && x == "_xlfn.SORTBY(A1,B1)"
    ensures PrepareSpillWith(t, cell, g).0 == XlwsStep(x, g)
  {
    var b := t[1..];
    assert b == "SORTBY(A1,B1)";
    SortByLeads(b);
    assert Leading(b) == x;
  }

  /** `_xlfn.SORTBY(` starts with `_xlfn.SORT` as a substring, but not as a
      whole word, and not with `_xlfn.FILTER`. */
  lemma SortByLeadsWith(x: string)
    requires x == "_xlfn.SORTBY(A1,B1)"
    ensures LeadsWith(x, "SORT", Substring)
    ensures !LeadsWith(x, "SORT", WholeWord) && !LeadsWith(x, "FILTER", WholeWord)
  {
    assert x[..10] == Fn + "SORT";
    assert !Boundary(x, 10) by {
      assert x[9] == 'T' && x[10] == 'B';
    }
    assert x[6] != (Fn + "FILTER")[6];
  }

  lemma ReplaceSortBy(x: string)
    requires x == "_xlfn.SORTBY(A1,B1)"
    ensures XlwsRename(x, "SORT", Substring) == "_xlfn._xlws.SORTBY(A1,B1)"
  {
    assert x == "_xlfn.SORT" + "BY(A1,B1)";
    ReplaceAllHead("BY(A1,B1)", "_xlfn.SORT", XlwsPrefix + "SORT");
    assert ReplaceAll("BY(A1,B1)", "_xlfn.SORT", XlwsPrefix + "SORT") == "BY(A1,B1)";
  }

  /** As written: a spilling `=SORTBY(A1,B1)` is written with the worksheet
      namespace, `_xlfn._xlws.SORTBY(A1,B1)`, because `_xlfn.SORTBY` starts
      with `_xlfn.SORT`. */
  lemma SortByAsWritten(t: string, cell: Cell)
    requires t == "=SORTBY(A1,B1)" && cell.spill
    ensures PrepareSpillAsWritten(t, cell).0 == "_xlfn._xlws.SORTBY(A1,B1)"
  {
    var x := "_xlfn.SORTBY(A1,B1)";
    SortByPrefixed(t, cell, Substring, x);
    SortByLeadsWith(x);
    ReplaceSortBy(x);
  }

  /** Corrected: SORTBY keeps the plain `_xlfn.` prefix, the one the
      function registry of the formula pipeline gives it. */
  lemma SortByCorrected(t: string, cell: Cell)
    requires t == "=SORTBY(A1,B1)" && cell.spill
    ensures PrepareSpill(t, cell).0 == "_xlfn.SORTBY(A1,B1)"
  {
    var x := "_xlfn.SORTBY(A1,B1)";
    SortByPrefixed(t, cell, WholeWord, x);
    SortByLeadsWith(x);
  }

  // ---------------------------------------------------------------------
  // `_set_attributes`

  function DigitChar(d: nat): (c: char)
    requires d < 10
    ensures IsDigit(c)
  {
    ('0' as int + d) as char
  }

  function DigitValue(c: char): nat
  {
    if IsDigit(c) then c as int - '0' as int else 0
  }

  /** `f"{n}"` for a non-negative integer: its decimal digits. */
  function Decimal(n: nat): (r: string)
    ensures IsAllDigits(r)
    decreases n
  {
    if n < 10 then [DigitChar(n)] else Decimal(n / 10) + [DigitChar(n % 10)]
  }

  /** The number a string of decimal digits spells. */
  function DecimalValue(s: string): nat
  {
    if s == [] then 0 else 10 * DecimalValue(s[..|s| - 1]) + DigitValue(s[|s| - 1])
  }

  /** The style attribute reads back as the style id. */
  lemma {:induction false} DecimalRoundTrip(n: nat)
    ensures DecimalValue(Decimal(n)) == n
    decreases n
  {
    if n >= 10 {
      DecimalRoundTrip(n / 10);
      var s := Decimal(n / 10) + [DigitChar(n % 10)];
      assert s[..|s| - 1] == Decimal(n / 10);
    }
  }

  /** A date or time whose `tzinfo` is set; only `datetime` and `time` have
      one. */
  predicate HasTimezone(v: Value)
  {
    v.Temporal? && (v.kind == DateTime || v.kind == TimeOfDay) && v.tz
  }

  predicate IsDuration(v: Value)
  {
    v.Temporal? && v.kind == Duration
  }

  /** What `_set_attributes` hands back: the value to write, the attributes
      of `<c>`, and the sheet's hyperlink list after the call. */
  datatype Prepared = Prepared(value: Value, attrs: map<string, string>, links: seq<string>)

  /** `_set_attributes`.  The `t` a date cell ends up with: `d` when the
      workbook writes ISO dates and the value is not a `timedelta`,
      otherwise `n`. */
  function DateType(cell: Cell, book: Book): string
  {
    if book.isoDates && !IsDuration(cell.value) then "d" else "n"
  }

  function SetAttributes(cell: Cell, styled: bool, book: Book, links: seq<string>): (r: Outcome<Prepared>)
    ensures r.Raises? <==> cell.dataType == "d" && HasTimezone(cell.value)
    ensures r.Raises? ==> r.failure == TimezoneError
    ensures r.Ok? ==> var a := r.ok.attrs;
            && a.Keys <= {"r", "s", "t", "cm"}
            && "r" in a && a["r"] == cell.coordinate
            && ("s" in a <==> styled)
            && (styled ==> a["s"] == Decimal(cell.styleId))
            && ("t" in a <==> cell.dataType != "f")
            && (cell.dataType == "s" ==> a["t"] == "inlineStr")
            && (cell.dataType == "d" ==> a["t"] == DateType(cell, book))
            && (cell.dataType !in {"s", "d", "f"} ==> a["t"] == cell.dataType)
            && ("cm" in a <==> cell.dataType == "f" && cell.spill)
            && ("cm" in a ==> a["cm"] == "1")
    ensures r.Ok? && cell.dataType != "d" ==> r.ok.value == cell.value
    ensures r.Ok? && cell.dataType == "d" ==>
              r.ok.value == (if DateType(cell, book) == "d" then Iso(cell.value)
                             else Serial(cell.value, book.epoch1904))
    ensures r.Ok? ==> r.ok.links == links + (if cell.hyperlink.Some? then [cell.hyperlink.value] else [])
  {
    var a0 := map["r" := cell.coordinate];
    var a1 := if styled then a0["s" := Decimal(cell.styleId)] else a0;
    var a2 := if cell.dataType == "s" then a1["t" := "inlineStr"]
              else if cell.dataType != "f" then a1["t" := cell.dataType]
              else a1;
    var a3 := if cell.dataType == "f" && cell.spill then a2["cm" := "1"] else a2;
    if cell.dataType == "d" && HasTimezone(cell.value) then Raises(TimezoneError)
    else
      var v := if cell.dataType != "d" then cell.value
               else if book.isoDates && !IsDuration(cell.value) then Iso(cell.value)
               else Serial(cell.value, book.epoch1904);
      var a := if cell.dataType == "d" && !(book.isoDates && !IsDuration(cell.value))
               then a3["t" := "n"] else a3;
      var links' := if cell.hyperlink.Some? then links + [cell.hyperlink.value] else links;
      Ok(Prepared(v, a, links'))
  }

  // ---------------------------------------------------------------------
  // The formula and value slots

  /** The `<f>` element: its attributes and its text, if any. */
  datatype FormulaElement = FormulaElement(attrs: map<string, string>, text: Option<string>)

  /** What follows `<f>`: an inline string, a rich-text tree, or the `<v>`
      element with its value (`NoValue` for an empty `<v/>`). */
  datatype Content = InlineString(v: Value) | RichTree(v: Value) | Slot(v: Value)

  /** The `<c>` element: bare when the value is empty, otherwise with an
      optional `<f>` and the content. */
  datatype CellElement =
    | Bare(attrs: map<string, string>)
    | Full(attrs: map<string, string>, formula: Option<FormulaElement>, content: Content)

  /** `attrib.get('t') == "dataTable"`. */
  predicate IsDataTable(a: map<string, string>)
  {
    "t" in a && a["t"] == "dataTable"
  }

  /** The formula branch: the `<f>` element and the value left for `<v>`.  A
      spilling formula must be text; a plain one is text, an
      `ArrayFormula` or a `DataTableFormula`.  Text is written without one
      leading `=` (a spilling one as `_prepare_spill_formula` returns it),
      and the value then becomes `"0"` for a spilling formula and `None`
      otherwise; text under a `dataTable` attribute is not written and
      stays the value.  The guard of the SORT and FILTER case is a
      parameter: the program's is `Substring`. */
  function FormulaSlot(cell: Cell, v: Value, g: Guard): (r: Outcome<(FormulaElement, Value)>)
    ensures r.Raises? <==> !v.Text? && (cell.spill || !(v.ArrayFormula? || v.DataTable?))
    ensures r.Ok? && v.Text? && cell.spill ==>
              var (f, s) := PrepareSpillWith(v.s, cell, g);
              r.ok == (FormulaElement(s, Some(f)), Text("0"))
    ensures r.Ok? && v.Text? && !cell.spill ==>
              r.ok == (FormulaElement(map[], Some(DropEquals(v.s))), NoValue)
    ensures r.Ok? && v.DataTable? ==> r.ok == (FormulaElement(v.attrs, None), NoValue)
    ensures r.Ok? && v.ArrayFormula? && v.text.Some? && !IsDataTable(v.attrs) ==>
              r.ok == (FormulaElement(v.attrs, Some(DropEquals(v.text.value))), NoValue)
    ensures r.Ok? && v.ArrayFormula? && v.text.None? ==> r.ok == (FormulaElement(v.attrs, None), NoValue)
    ensures r.Ok? && v.ArrayFormula? && v.text.Some? && IsDataTable(v.attrs) ==>
              r.ok == (FormulaElement(v.attrs, None), Text(v.text.value))
  {
    if cell.spill then
      match v
      case Text(s) =>
        var (f, a) := PrepareSpillWith(s, cell, g);
        Ok((FormulaElement(a, Some(f)), Text("0")))
      case _ => Raises(NotText)
    else
      match v
      case Text(s) => Ok((FormulaElement(map[], Some(DropEquals(s))), NoValue))
      case ArrayFormula(a, text) =>
        if text.None? then Ok((FormulaElement(a, None), NoValue))
        else if IsDataTable(a) then Ok((FormulaElement(a, None), Text(text.value)))
        else Ok((FormulaElement(a, Some(DropEquals(text.value))), NoValue))
      case DataTable(a) => Ok((FormulaElement(a, None), NoValue))
      case _ => Raises(NotText)
  }

  /** `value is None or value == ""`. */
  predicate IsEmpty(v: Value)
  {
    v == NoValue || v == Text([])
  }

  /** `etree_write_cell` and `lxml_write_cell`: the attributes, then a bare
      `<c>` for an empty value; otherwise the formula branch for a formula
      cell, then an inline string for a string cell or the `<v>` slot for
      any other.  The hyperlink list comes back with the element.  The
      program writes with `WriteCell(..., Substring)`. */
  function WriteCell(cell: Cell, styled: bool, book: Book, links: seq<string>, g: Guard): Outcome<(CellElement, seq<string>)>
  {
    match SetAttributes(cell, styled, book, links)
    case Raises(e) => Raises(e)
    case Ok(p) =>
      if IsEmpty(p.value) then Ok((Bare(p.attrs), p.links))
      else
        var fv := if cell.dataType == "f" then FormulaSlot(cell, p.value, g)
                  else Ok((FormulaElement(map[], None), p.value));
        match fv
        case Raises(e) => Raises(e)
        case Ok((f, v)) =>
          var formula := if cell.dataType == "f" then Some(f) else None;
          var content := if cell.dataType == "s" then (if v.Rich? then RichTree(v) else InlineString(v))
                         else Slot(v);
          Ok((Full(p.attrs, formula, content), p.links))
  }

  // ---------------------------------------------------------------------
  // What a cell is written as

  /** An empty value gives a bare `<c>` carrying only the attributes. */
  lemma WriteEmpty(cell: Cell, styled: bool, book: Book, links: seq<string>, g: Guard)
    requires cell.dataType != "d" && IsEmpty(cell.value)
    ensures var w := WriteCell(cell, styled, book, links, g);
            w.Ok? && w.ok.0.Bare? && "r" in w.ok.0.attrs && w.ok.0.attrs["r"] == cell.coordinate
  {
  }

  /** A spilling formula is written as `_prepare_spill_formula` returns it,
      under the array attributes, with `cm="1"` on the cell and `0` as its
      value. */
  lemma WriteSpilling(cell: Cell, styled: bool, book: Book, links: seq<string>, g: Guard, s: string)
    requires cell.dataType == "f" && cell.spill && cell.value == Text(s) && s != []
    ensures var w := WriteCell(cell, styled, book, links, g);
            && w.Ok? && w.ok.0.Full?
            && w.ok.0.formula == Some(FormulaElement(SpillAttrs(cell), Some(PrepareSpillWith(s, cell, g).0)))
            && w.ok.0.content == Slot(Text("0"))
            && "cm" in w.ok.0.attrs && w.ok.0.attrs["cm"] == "1" && "t" !in w.ok.0.attrs
  {
    var p := SetAttributes(cell, styled, book, links);
    assert p.Ok? && p.ok.value == cell.value;
  }

  /** A formula that does not spill is written with one leading `=` taken
      off, which `=` put back in front restores, and an empty `<v/>`. */
  lemma WritePlain(cell: Cell, styled: bool, book: Book, links: seq<string>, g: Guard, s: string)
    requires cell.dataType == "f" && !cell.spill && cell.value == Text(s) && s != []
    ensures var w := WriteCell(cell, styled, book, links, g);
            && w.Ok? && w.ok.0.Full?
            && w.ok.0.formula.Some? && w.ok.0.formula.value.attrs == map[]
            && w.ok.0.formula.value.text.Some?
            && (if s[0] == '=' then "=" + w.ok.0.formula.value.text.value == s
                else w.ok.0.formula.value.text.value == s)
            && w.ok.0.content == Slot(NoValue)
            && "cm" !in w.ok.0.attrs && "t" !in w.ok.0.attrs
  {
    var p := SetAttributes(cell, styled, book, links);
    assert p.Ok? && p.ok.value == cell.value;
  }

  /** A `DataTableFormula` gives an `<f>` with its own attributes and no
      text, and an empty `<v/>`. */
  lemma WriteDataTable(cell: Cell, styled: bool, book: Book, links: seq<string>, g: Guard, a: map<string, string>)
    requires cell.dataType == "f" && !cell.spill && cell.value == DataTable(a)
    ensures var w := WriteCell(cell, styled, book, links, g);
            && w.Ok? && w.ok.0.Full?
            && w.ok.0.formula == Some(FormulaElement(a, None))
            && w.ok.0.content == Slot(NoValue)
  {
    var p := SetAttributes(cell, styled, book, links);
    assert p.Ok? && p.ok.value == cell.value;
  }

  /** `cm="1"` and the spilling `<f>` go together: a written cell carries
      `cm` exactly when it has a formula element and spills, and then the
      formula element carries the spill's array attributes. */
  lemma CmMarksSpill(cell: Cell, styled: bool, book: Book, links: seq<string>, g: Guard)
    requires var w := WriteCell(cell, styled, book, links, g); w.Ok? && w.ok.0.Full?
    ensures var e := WriteCell(cell, styled, book, links, g).ok.0;
            && ("cm" in e.attrs <==> e.formula.Some? && cell.spill)
            && ("cm" in e.attrs ==> e.formula.value.attrs == SpillAttrs(cell))
  {
    var p := SetAttributes(cell, styled, book, links);
    assert p.Ok?;
    if cell.dataType == "f" && cell.spill {
      assert p.ok.value == cell.value;
      assert FormulaSlot(cell, p.ok.value, g).Ok?;
    }
  }

  /** A cell that holds no formula has no `<f>`, and its value goes into the
      content as `_set_attributes` left it. */
  lemma WriteValue(cell: Cell, styled: bool, book: Book, links: seq<string>, g: Guard)
    requires cell.dataType != "f"
    requires var p := SetAttributes(cell, styled, book, links); p.Ok? && !IsEmpty(p.ok.value)
    ensures var w := WriteCell(cell, styled, book, links, g);
            && w.Ok? && w.ok.0.Full? && w.ok.0.formula.None?
            && w.ok.0.content.v == SetAttributes(cell, styled, book, links).ok.value
            && (w.ok.0.content.Slot? <==> cell.dataType != "s")
  {
  }

  /** Writing fails exactly on a date with a time zone, or on a formula
      cell whose value the formula branch cannot read as text. */
  lemma WriteFails(cell: Cell, styled: bool, book: Book, links: seq<string>, g: Guard)
    requires cell.dataType == "f" && !IsEmpty(cell.value)
    ensures WriteCell(cell, styled, book, links, g).Raises? <==>
              !cell.value.Text? && (cell.spill || !(cell.value.ArrayFormula? || cell.value.DataTable?))
  {
    var p := SetAttributes(cell, styled, book, links);
    assert p.Ok? && p.ok.value == cell.value;
  }

  /** End to end, a spilling `=SORTBY(A1,B1)` is written as
      `_xlfn._xlws.SORTBY(A1,B1)` by the program and as
      `_xlfn.SORTBY(A1,B1)` under the whole-word guard. */
  lemma WriteSortBy(cell: Cell, styled: bool, book: Book, links: seq<string>)
    requires cell.dataType == "f" && cell.spill && cell.value == Text("=SORTBY(A1,B1)")
    ensures var w := WriteCell(cell, styled, book, links, Substring);
            w.Ok? && w.ok.0.Full? && w.ok.0.formula.Some?
            && w.ok.0.formula.value.text == Some("_xlfn._xlws.SORTBY(A1,B1)")
    ensures var w := WriteCell(cell, styled, book, links, WholeWord);
            w.Ok? && w.ok.0.Full? && w.ok.0.formula.Some?
            && w.ok.0.formula.value.text == Some("_xlfn.SORTBY(A1,B1)")
  {
    var t := "=SORTBY(A1,B1)";
    WriteSpilling(cell, styled, book, links, Substring, t);
    WriteSpilling(cell, styled, book, links, WholeWord, t);
    SortByAsWritten(t, cell);
    SortByCorrected(t, cell);
  }
}
