/**
 * Schema cleaning of `DataProcessor._clean_null_columns`: Null, List and Struct
 * columns become text, columns without any value are dropped, remaining gaps
 * are filled with "", and a last-resort pass turns every column into text.
 */
module Normalizer {
  import opened Results
  import opened Frames

  /**
   * The decisions the dataframe libraries make that the model takes as given:
   * whether a nested column can be cast to Utf8 and how its values then read,
   * whether `to_pandas()` succeeds, and how Python's `str()` prints a value.
   */
  datatype Engine = Engine(
    castsToText: ColType -> bool,
    castText: Value -> string,
    toPandasOk: Table -> bool,
    pyStr: Value -> string)

  datatype NormalizationError = NormalizationFailure

  /** Column types collected into the cast dictionary: Null, and anything whose dtype name starts with List or Struct. */
  predicate NeedsText(t: ColType)
  {
    t.Null? || t.List? || t.Struct?
  }

  /** A Null column always casts to Utf8; nested columns cast when the library allows it. */
  predicate CastOk(e: Engine, t: ColType)
  {
    !NeedsText(t) || t.Null? || e.castsToText(t)
  }

  predicate CastSucceeds(e: Engine, t: Table)
  {
    forall i :: 0 <= i < |t.columns| ==> CastOk(e, t.columns[i].ty)
  }

  function CastCell(e: Engine, c: Cell): Cell
  {
    match c
    case None => None
    case Some(v) => Some(Text(e.castText(v)))
  }

  /** `df.cast({col: pl.Utf8})` on the columns that need it; the others are untouched. */
  function CastColumn(e: Engine, c: Column): (r: Column)
    ensures r.name == c.name && |r.cells| == |c.cells|
    ensures !NeedsText(r.ty)
    ensures !NeedsText(c.ty) ==> r == c
    ensures NeedsText(c.ty) ==> r.ty == Utf8
    ensures NeedsText(c.ty) ==> forall j :: 0 <= j < |c.cells| && c.cells[j].Some? ==>
      r.cells[j] == Some(Text(e.castText(c.cells[j].value)))
    ensures forall j :: 0 <= j < |c.cells| ==> (r.cells[j].None? <==> c.cells[j].None?)
    ensures HasValue(r) <==> HasValue(c)
    ensures forall h: nat :: ColumnOk(c, h) ==> ColumnOk(r, h)
  {
    if NeedsText(c.ty) then
      var r := Column(c.name, Utf8, seq(|c.cells|, j requires 0 <= j < |c.cells| => CastCell(e, c.cells[j])));
      assert forall j :: 0 <= j < |c.cells| ==> r.cells[j] == CastCell(e, c.cells[j]);
      assert HasValue(r) ==> HasValue(c);
      r
    else c
  }

  function CastTable(e: Engine, t: Table): (r: Table)
    ensures r.height == t.height && |r.columns| == |t.columns|
    ensures forall i :: 0 <= i < |t.columns| ==> r.columns[i] == CastColumn(e, t.columns[i])
  {
    Table(t.height, seq(|t.columns|, i requires 0 <= i < |t.columns| => CastColumn(e, t.columns[i])))
  }

  /** `dropna(axis=1, how='all')`: keep exactly the columns with a value, in order. */
  function DropEmpty(cols: seq<Column>): (r: seq<Column>)
    ensures forall c :: c in r ==> c in cols && HasValue(c)
    ensures forall c :: c in cols && HasValue(c) ==> c in r
    ensures Subsequence(r, cols)
  {
    if |cols| == 0 then []
    else if HasValue(cols[0]) then [cols[0]] + DropEmpty(cols[1..])
    else DropEmpty(cols[1..])
  }

  function FillCell(c: Cell): Cell
  {
    match c
    case None => Some(Text(""))
    case Some(v) => c
  }

  /** `fillna('')` on one column. */
  function FillColumn(c: Column): (r: Column)
    ensures r.name == c.name && r.ty == c.ty && |r.cells| == |c.cells|
    ensures Complete(r)
    ensures forall j :: 0 <= j < |c.cells| && c.cells[j].None? ==> r.cells[j] == Some(Text(""))
    ensures forall j :: 0 <= j < |c.cells| && c.cells[j].Some? ==> r.cells[j] == c.cells[j]
  {
    Column(c.name, c.ty, seq(|c.cells|, j requires 0 <= j < |c.cells| => FillCell(c.cells[j])))
  }

  function FillAll(cols: seq<Column>): (r: seq<Column>)
    ensures |r| == |cols| && Names(r) == Names(cols)
    ensures forall i :: 0 <= i < |cols| ==> r[i] == FillColumn(cols[i])
  {
    seq(|cols|, i requires 0 <= i < |cols| => FillColumn(cols[i]))
  }

  /**
   * `pl.from_pandas` after the fill: a column that mixes the filler "" with
   * numbers, booleans or other typed values cannot be converted back.
   */
  predicate ConvertsBack(cols: seq<Column>)
  {
    forall i, j :: 0 <= i < |cols| && 0 <= j < |cols[i].cells| ==> CellFits(cols[i].cells[j], cols[i].ty)
  }

  /** The table the main path builds after the cast: drop empty columns, fill the rest. */
  function MainPath(e: Engine, t: Table): Table
  {
    Table(t.height, FillAll(DropEmpty(CastTable(e, t).columns)))
  }

  /** The main path ran without any library call raising. */
  predicate MainPathOk(e: Engine, t: Table)
  {
    && CastSucceeds(e, t)
    && e.toPandasOk(CastTable(e, t))
    && ConvertsBack(MainPath(e, t).columns)
  }

  /** The table the last-resort pass starts from: the local `df` was rebound only if the cast succeeded. */
  function LastResortInput(e: Engine, t: Table): Table
  {
    if CastSucceeds(e, t) then CastTable(e, t) else t
  }

  /** Python's `str()` of a cell value; text prints as itself. */
  function PyStr(e: Engine, v: Value): string
  {
    if v.Text? then v.s else e.pyStr(v)
  }

  /** The intended last-resort rendering of one column: every value as text, gaps as "". */
  function StringifyColumn(e: Engine, c: Column): (r: Column)
    ensures r.name == c.name && r.ty == Utf8 && |r.cells| == |c.cells|
    ensures forall j :: 0 <= j < |c.cells| ==>
      r.cells[j] == (if c.cells[j].None? then Some(Text("")) else Some(Text(PyStr(e, c.cells[j].value))))
  {
    Column(c.name, Utf8, seq(|c.cells|, j requires 0 <= j < |c.cells| =>
      if c.cells[j].None? then Some(Text("")) else Some(Text(PyStr(e, c.cells[j].value)))))
  }

  /** The last-resort pass: every column becomes a complete text column; only `to_pandas()` can still fail. */
  function LastResort(e: Engine, df: Table): (r: Result<Table, NormalizationError>)
    requires forall i :: 0 <= i < |df.columns| ==> |df.columns[i].cells| == df.height
    requires Distinct(Names(df.columns))
    ensures r.Success? <==> e.toPandasOk(df)
    ensures r.Success? ==> Valid(r.value) && r.value.height == df.height
    ensures r.Success? ==> Names(r.value.columns) == Names(df.columns)
    ensures r.Success? ==> forall i :: 0 <= i < |df.columns| ==>
      r.value.columns[i].ty == Utf8 && Complete(r.value.columns[i])
    ensures r.Success? ==> forall i :: 0 <= i < |df.columns| ==> r.value.columns[i] == StringifyColumn(e, df.columns[i])
  {
    if !e.toPandasOk(df) then Failure(NormalizationFailure)
    else
      var cols := seq(|df.columns|, i requires 0 <= i < |df.columns| => StringifyColumn(e, df.columns[i]));
      assert Names(cols) == Names(df.columns);
      Success(Table(df.height, cols))
  }

  /**
   * How one input column appears in the main path's output: Null and nested
   * columns as Utf8 with their values rendered by the cast, every missing cell
   * as "", every other value unchanged.
   */
  predicate CleanedFrom(e: Engine, c: Column, r: Column)
  {
    && r.name == c.name
    && r.ty == (if NeedsText(c.ty) then Utf8 else c.ty)
    && |r.cells| == |c.cells|
    && forall j :: 0 <= j < |c.cells| ==>
         r.cells[j] == (match c.cells[j]
                        case None => Some(Text(""))
                        case Some(v) => if NeedsText(c.ty) then Some(Text(e.castText(v))) else Some(v))
  }

  /**
   * `_clean_null_columns`: the main path when every library call succeeds,
   * otherwise the last resort as written, where missing cells keep the
   * placeholder `astype(str)` prints for them.
   */
  function Clean(e: Engine, t: Table): (r: Result<Table, NormalizationError>)
    requires Valid(t)
    ensures r.Success? ==> Valid(r.value) && r.value.height == t.height
    ensures r.Success? ==> forall i :: 0 <= i < |r.value.columns| ==>
      !NeedsText(r.value.columns[i].ty) && Complete(r.value.columns[i])
    ensures r.Success? ==> Subsequence(Names(r.value.columns), Names(t.columns))
    ensures MainPathOk(e, t) ==> r.Success?
    ensures MainPathOk(e, t) ==> forall i :: 0 <= i < |t.columns| ==>
      (t.columns[i].name in Names(r.value.columns) <==> HasValue(t.columns[i]))
    ensures MainPathOk(e, t) ==> forall k :: 0 <= k < |r.value.columns| ==>
      exists i :: 0 <= i < |t.columns| && CleanedFrom(e, t.columns[i], r.value.columns[k])
    ensures !MainPathOk(e, t) ==> (r.Success? <==> e.toPandasOk(LastResortInput(e, t)))
    ensures !MainPathOk(e, t) && r.Success? ==>
      Names(r.value.columns) == Names(t.columns) && forall i :: 0 <= i < |r.value.columns| ==> r.value.columns[i].ty == Utf8
    ensures !MainPathOk(e, t) && r.Success? ==> forall i :: 0 <= i < |t.columns| ==>
      r.value.columns[i] == StringifyColumnAsWritten(e, LastResortInput(e, t).columns[i])
  {
    var cast := CastTable(e, t);
    if CastSucceeds(e, t) && e.toPandasOk(cast) && ConvertsBack(MainPath(e, t).columns) then
      MainPathFacts(e, t);
      Success(MainPath(e, t))
    else
      var input := LastResortInput(e, t);
      assert Names(input.columns) == Names(t.columns);
      SubsequenceRefl(Names(t.columns));
      if e.toPandasOk(input) then
        LastResortAsWrittenShape(e, input);
        LastResortAsWritten(e, input)
      else LastResortAsWritten(e, input)
  }

  /** The main path's output, when it converts back, is a valid table with the promised shape. */
  lemma MainPathFacts(e: Engine, t: Table)
    requires Valid(t)
    requires ConvertsBack(MainPath(e, t).columns)
    ensures Valid(MainPath(e, t))
    ensures Subsequence(Names(MainPath(e, t).columns), Names(t.columns))
    ensures forall i :: 0 <= i < |MainPath(e, t).columns| ==>
      !NeedsText(MainPath(e, t).columns[i].ty) && Complete(MainPath(e, t).columns[i])
    ensures forall i :: 0 <= i < |t.columns| ==>
      (t.columns[i].name in Names(MainPath(e, t).columns) <==> HasValue(t.columns[i]))
    ensures forall k :: 0 <= k < |MainPath(e, t).columns| ==>
      exists i :: 0 <= i < |t.columns| && CleanedFrom(e, t.columns[i], MainPath(e, t).columns[k])
  {
    var cast := CastTable(e, t);
    var kept := DropEmpty(cast.columns);
    var out := MainPath(e, t);
    assert Names(cast.columns) == Names(t.columns);
    SubsequenceNames(kept, cast.columns);
    SubsequenceDistinct(Names(kept), Names(cast.columns));
    forall k | 0 <= k < |out.columns|
      ensures ColumnOk(out.columns[k], out.height)
      ensures !NeedsText(out.columns[k].ty) && Complete(out.columns[k])
      ensures exists i :: 0 <= i < |t.columns| && CleanedFrom(e, t.columns[i], out.columns[k])
    {
      MainPathColumn(e, t, k);
    }
    forall i | 0 <= i < |t.columns|
      ensures t.columns[i].name in Names(out.columns) <==> HasValue(t.columns[i])
    {
      MainPathKeeps(e, t, i);
    }
  }

  /** One output column of the main path: filled, cast, and derived from the input column of the same position in the cast table. */
  lemma MainPathColumn(e: Engine, t: Table, k: nat)
    requires Valid(t)
    requires ConvertsBack(MainPath(e, t).columns)
    requires k < |MainPath(e, t).columns|
    ensures ColumnOk(MainPath(e, t).columns[k], t.height)
    ensures !NeedsText(MainPath(e, t).columns[k].ty) && Complete(MainPath(e, t).columns[k])
    ensures exists i :: 0 <= i < |t.columns| && CleanedFrom(e, t.columns[i], MainPath(e, t).columns[k])
  {
    var cast := CastTable(e, t);
    var kept := DropEmpty(cast.columns);
    var out := MainPath(e, t);
    assert out.columns[k] == FillColumn(kept[k]);
    assert kept[k] in kept;
    var i :| 0 <= i < |cast.columns| && cast.columns[i] == kept[k];
    assert ColumnOk(t.columns[i], t.height);
    assert CleanedFrom(e, t.columns[i], out.columns[k]);
  }

  /** An input column's name survives the main path exactly when the column has a value. */
  lemma MainPathKeeps(e: Engine, t: Table, i: nat)
    requires Valid(t)
    requires i < |t.columns|
    ensures t.columns[i].name in Names(MainPath(e, t).columns) <==> HasValue(t.columns[i])
  {
    var cast := CastTable(e, t);
    var kept := DropEmpty(cast.columns);
    var out := MainPath(e, t);
    assert Names(out.columns) == Names(kept);
    var c := cast.columns[i];
    if HasValue(t.columns[i]) {
      assert c in cast.columns;
      assert c in kept;
      var k :| 0 <= k < |kept| && kept[k] == c;
      assert Names(kept)[k] == t.columns[i].name;
    }
    if t.columns[i].name in Names(kept) {
      var k :| 0 <= k < |kept| && Names(kept)[k] == t.columns[i].name;
      assert kept[k] in kept;
      var i' :| 0 <= i' < |cast.columns| && cast.columns[i'] == kept[k];
      assert Names(t.columns)[i'] == Names(t.columns)[i];
      assert i' == i;
      assert HasValue(cast.columns[i]);
    }
  }

  /**
   * When the main path's `from_pandas` succeeds: exactly when every column that
   * is kept and has gaps ends up as text, so the filler "" fits it.
   */
  lemma MainPathConvertsBackIff(e: Engine, t: Table)
    requires Valid(t)
    ensures ConvertsBack(MainPath(e, t).columns) <==>
      forall i :: 0 <= i < |t.columns| && HasValue(t.columns[i]) && !Complete(t.columns[i]) ==>
        t.columns[i].ty.Utf8? || NeedsText(t.columns[i].ty)
  {
    var cast := CastTable(e, t);
    var kept := DropEmpty(cast.columns);
    var out := MainPath(e, t).columns;
    if ConvertsBack(out) {
      forall i | 0 <= i < |t.columns| && HasValue(t.columns[i]) && !Complete(t.columns[i])
        ensures t.columns[i].ty.Utf8? || NeedsText(t.columns[i].ty)
      {
        var c := cast.columns[i];
        assert c in cast.columns;
        var k :| 0 <= k < |kept| && kept[k] == c;
        var j :| 0 <= j < |t.columns[i].cells| && t.columns[i].cells[j].None?;
        assert out[k].cells[j] == Some(Text(""));
        assert CellFits(out[k].cells[j], out[k].ty);
      }
    } else {
      var k, j :| 0 <= k < |out| && 0 <= j < |out[k].cells| && !CellFits(out[k].cells[j], out[k].ty);
      assert kept[k] in kept;
      var i :| 0 <= i < |cast.columns| && cast.columns[i] == kept[k];
      assert ColumnOk(t.columns[i], t.height);
      assert HasValue(t.columns[i]);
      assert t.columns[i].cells[j].None?;
      assert !Complete(t.columns[i]);
    }
  }

  /**
   * What pandas' `astype(str)` prints for a missing cell: numeric columns hold
   * NaN and print "nan"; other columns print a non-empty placeholder ("None"
   * for object columns, "NaT" for datetimes), which the model writes as "None".
   */
  function PandasMissingText(t: ColType): (r: string)
    ensures r != ""
  {
    if t.Int? || t.Float? then "nan" else "None"
  }

  /** The last-resort rendering of one column as written: `astype(str)` runs before `fillna('')`. */
  function StringifyColumnAsWritten(e: Engine, c: Column): (r: Column)
    ensures r.name == c.name && r.ty == Utf8 && |r.cells| == |c.cells|
    ensures forall j :: 0 <= j < |c.cells| && c.cells[j].None? ==> r.cells[j] == Some(Text(PandasMissingText(c.ty)))
    ensures forall j :: 0 <= j < |c.cells| && c.cells[j].Some? ==> r.cells[j] == Some(Text(PyStr(e, c.cells[j].value)))
    ensures Complete(r)
  {
    Column(c.name, Utf8, seq(|c.cells|, j requires 0 <= j < |c.cells| =>
      if c.cells[j].None? then Some(Text(PandasMissingText(c.ty))) else Some(Text(PyStr(e, c.cells[j].value)))))
  }

  /** The last-resort pass as written: only `to_pandas()` can fail; every column is rendered by `astype(str)`. */
  function LastResortAsWritten(e: Engine, df: Table): (r: Result<Table, NormalizationError>)
    ensures r.Success? <==> e.toPandasOk(df)
    ensures r.Success? ==> r.value.height == df.height && |r.value.columns| == |df.columns|
    ensures r.Success? ==> forall i :: 0 <= i < |df.columns| ==> r.value.columns[i] == StringifyColumnAsWritten(e, df.columns[i])
  {
    if !e.toPandasOk(df) then Failure(NormalizationFailure)
    else Success(Table(df.height, seq(|df.columns|, i requires 0 <= i < |df.columns| => StringifyColumnAsWritten(e, df.columns[i]))))
  }

  /** On a rectangular, uniquely named table the as-written pass yields a valid table of complete text columns with the same names. */
  lemma LastResortAsWrittenShape(e: Engine, df: Table)
    requires forall i :: 0 <= i < |df.columns| ==> |df.columns[i].cells| == df.height
    requires Distinct(Names(df.columns))
    requires e.toPandasOk(df)
    ensures Valid(LastResortAsWritten(e, df).value)
    ensures Names(LastResortAsWritten(e, df).value.columns) == Names(df.columns)
    ensures forall i :: 0 <= i < |df.columns| ==>
      LastResortAsWritten(e, df).value.columns[i].ty == Utf8 && Complete(LastResortAsWritten(e, df).value.columns[i])
  {
    var r := LastResortAsWritten(e, df).value;
    assert Names(r.columns) == Names(df.columns);
  }

  /**
   * The `fillna('')` after `astype(str)` has nothing left to fill: a missing
   * cell comes out of the last resort as the placeholder "None" or "nan",
   * where the intended pass yields "".
   */
  lemma LastResortAsWrittenKeepsPlaceholder(e: Engine, df: Table, i: nat, j: nat)
    requires forall k :: 0 <= k < |df.columns| ==> |df.columns[k].cells| == df.height
    requires Distinct(Names(df.columns))
    requires e.toPandasOk(df)
    requires i < |df.columns| && j < |df.columns[i].cells| && df.columns[i].cells[j].None?
    ensures LastResortAsWritten(e, df).value.columns[i].cells[j] != Some(Text(""))
    ensures LastResort(e, df).value.columns[i].cells[j] == Some(Text(""))
  {
  }
}
