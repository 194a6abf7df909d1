/**
 * `DataProcessor._add_metadata`: clean the table, then set five audit columns
 * with `with_columns`, each a literal broadcast over every row. A literal
 * whose name is already a column replaces that column in place; otherwise it
 * is appended at the end.
 */
module Annotator {
  import opened Results
  import opened Frames
  import opened Normalizer

  const AuditNames: seq<string> := ["_source_file", "_cluster", "_ingested_at", "_file_size_bytes", "_row_count"]

  /** The per-file facts the audit columns carry; the row count is the height before cleaning. */
  datatype Audit = Audit(sourceFile: string, cluster: string, ingestedAt: string, fileSizeBytes: nat, rowCount: nat)

  function AuditValues(a: Audit): seq<Value>
  {
    [Text(a.sourceFile), Text(a.cluster), Text(a.ingestedAt), Integer(a.fileSizeBytes), Integer(a.rowCount)]
  }

  const AuditTypes: seq<ColType> := [Utf8, Utf8, Utf8, Int, Int]

  /** `pl.lit(v).alias(name)` broadcast to `height` rows. */
  function Literal(name: string, ty: ColType, v: Value, height: nat): (r: Column)
    ensures r.name == name && r.ty == ty && |r.cells| == height
    ensures forall j :: 0 <= j < height ==> r.cells[j] == Some(v)
  {
    Column(name, ty, seq(height, j => Some(v)))
  }

  function AuditColumns(a: Audit, height: nat): (r: seq<Column>)
    ensures |r| == 5 && Names(r) == AuditNames
    ensures forall k :: 0 <= k < 5 ==> r[k] == Literal(AuditNames[k], AuditTypes[k], AuditValues(a)[k], height)
  {
    seq(5, k requires 0 <= k < 5 => Literal(AuditNames[k], AuditTypes[k], AuditValues(a)[k], height))
  }

  /** The position of the first column called `n`, or the number of columns when there is none. */
  function IndexOf(cols: seq<Column>, n: string): (r: nat)
    ensures r <= |cols|
    ensures r < |cols| ==> cols[r].name == n
    ensures forall i :: 0 <= i < r ==> cols[i].name != n
  {
    if |cols| == 0 then 0
    else if cols[0].name == n then 0
    else
      var r := IndexOf(cols[1..], n);
      assert forall i :: 1 <= i <= r ==> cols[i] == cols[1..][i - 1];
      1 + r
  }

  /** `with_columns` for one literal column: replace the same-named column in place, or append. */
  function WithColumn(t: Table, c: Column): (r: Table)
    ensures r.height == t.height
    ensures c.name in Names(t.columns) ==> Names(r.columns) == Names(t.columns)
    ensures c.name !in Names(t.columns) ==> r.columns == t.columns + [c]
    ensures c in r.columns
    ensures forall i :: 0 <= i < |t.columns| && t.columns[i].name != c.name ==> r.columns[i] == t.columns[i]
    ensures forall d :: d in r.columns ==> d == c || d in t.columns
    ensures Valid(t) && ColumnOk(c, t.height) ==> Valid(r)
  {
    var k := IndexOf(t.columns, c.name);
    if k < |t.columns| then
      var r := Table(t.height, t.columns[k := c]);
      assert Names(r.columns) == Names(t.columns);
      r
    else
      var r := Table(t.height, t.columns + [c]);
      assert Names(r.columns) == Names(t.columns) + [c.name];
      r
  }

  /** `with_columns` for a list of literal columns, applied left to right. */
  function WithColumns(t: Table, cs: seq<Column>): (r: Table)
    ensures r.height == t.height
    ensures Names(t.columns) <= Names(r.columns)
    ensures forall n :: n in Names(r.columns) <==> n in Names(t.columns) || n in Names(cs)
    ensures forall i :: 0 <= i < |t.columns| && t.columns[i].name !in Names(cs) ==> r.columns[i] == t.columns[i]
    ensures forall d :: d in r.columns ==> d in cs || d in t.columns
    ensures Valid(t) && (forall k :: 0 <= k < |cs| ==> ColumnOk(cs[k], t.height)) ==> Valid(r)
    decreases |cs|
  {
    if |cs| == 0 then t
    else
      var t' := WithColumn(t, cs[0]);
      assert Names(cs) == [cs[0].name] + Names(cs[1..]);
      assert forall n :: n in Names(t'.columns) <==> n in Names(t.columns) || n == cs[0].name;
      WithColumns(t', cs[1..])
  }

  /** Dropping the first of distinct names leaves distinct names without it. */
  lemma DistinctTail(cs: seq<Column>)
    requires |cs| > 0 && Distinct(Names(cs))
    ensures cs[0].name !in Names(cs[1..]) && Distinct(Names(cs[1..]))
  {
    assert forall k :: 0 <= k < |cs| - 1 ==> Names(cs[1..])[k] == Names(cs)[k + 1];
  }

  /** With distinct names no later literal overwrites an earlier one, so every literal is in the result. */
  lemma {:induction false} WithColumnsContains(t: Table, cs: seq<Column>)
    requires Distinct(Names(cs))
    ensures forall k :: 0 <= k < |cs| ==> cs[k] in WithColumns(t, cs).columns
    decreases |cs|
  {
    if |cs| > 0 {
      var t' := WithColumn(t, cs[0]);
      var r := WithColumns(t', cs[1..]);
      assert r == WithColumns(t, cs);
      DistinctTail(cs);
      WithColumnsContains(t', cs[1..]);
      var p :| 0 <= p < |t'.columns| && t'.columns[p] == cs[0];
      assert cs[0] in r.columns;
      forall k | 0 < k < |cs| ensures cs[k] in r.columns {
        assert cs[1..][k - 1] == cs[k];
      }
    }
  }

  /** The table has a column called `name` holding `v` in every row. */
  predicate ConstantColumn(t: Table, name: string, v: Value)
  {
    exists i :: 0 <= i < |t.columns| && t.columns[i].name == name &&
      forall j :: 0 <= j < |t.columns[i].cells| ==> t.columns[i].cells[j] == Some(v)
  }

  /** Setting constant, text-safe columns with distinct names on a cleaned table. */
  lemma {:induction false} SetConstantColumns(t: Table, cs: seq<Column>, vals: seq<Value>)
    requires Valid(t)
    requires forall i :: 0 <= i < |t.columns| ==> !NeedsText(t.columns[i].ty)
    requires |vals| == |cs| && Distinct(Names(cs))
    requires forall k :: 0 <= k < |cs| ==> ColumnOk(cs[k], t.height) && !NeedsText(cs[k].ty)
    requires forall k, j :: 0 <= k < |cs| && 0 <= j < |cs[k].cells| ==> cs[k].cells[j] == Some(vals[k])
    ensures Valid(WithColumns(t, cs))
    ensures forall k :: 0 <= k < |cs| ==> ConstantColumn(WithColumns(t, cs), cs[k].name, vals[k])
    ensures forall i :: 0 <= i < |WithColumns(t, cs).columns| ==> !NeedsText(WithColumns(t, cs).columns[i].ty)
  {
    var r := WithColumns(t, cs);
    WithColumnsContains(t, cs);
    forall k | 0 <= k < |cs|
      ensures ConstantColumn(r, cs[k].name, vals[k])
    {
      assert cs[k] in r.columns;
      var i :| 0 <= i < |r.columns| && r.columns[i] == cs[k];
    }
    forall i | 0 <= i < |r.columns| ensures !NeedsText(r.columns[i].ty) {
      assert r.columns[i] in r.columns;
      if r.columns[i] !in cs {
        var p :| 0 <= p < |t.columns| && t.columns[p] == r.columns[i];
      }
    }
  }

  lemma AuditColumnsOk(a: Audit, height: nat)
    ensures Distinct(Names(AuditColumns(a, height)))
    ensures forall k :: 0 <= k < 5 ==> ColumnOk(AuditColumns(a, height)[k], height) && !NeedsText(AuditColumns(a, height)[k].ty)
    ensures forall k, j :: 0 <= k < 5 && 0 <= j < |AuditColumns(a, height)[k].cells| ==>
      AuditColumns(a, height)[k].cells[j] == Some(AuditValues(a)[k])
    ensures forall k :: 0 <= k < 5 ==> AuditColumns(a, height)[k].name == AuditNames[k]
  {
  }

  /** The audit columns, by name, on a cleaned table. */
  lemma AuditedShape(clean: Table, a: Audit)
    requires Valid(clean)
    requires forall i :: 0 <= i < |clean.columns| ==> !NeedsText(clean.columns[i].ty)
    ensures Valid(WithColumns(clean, AuditColumns(a, clean.height)))
    ensures forall i :: 0 <= i < |WithColumns(clean, AuditColumns(a, clean.height)).columns| ==>
      !NeedsText(WithColumns(clean, AuditColumns(a, clean.height)).columns[i].ty)
    ensures forall d :: d in WithColumns(clean, AuditColumns(a, clean.height)).columns && d.name !in AuditNames ==> d in clean.columns
    ensures
      var r := WithColumns(clean, AuditColumns(a, clean.height));
      && ConstantColumn(r, "_source_file", Text(a.sourceFile))
      && ConstantColumn(r, "_cluster", Text(a.cluster))
      && ConstantColumn(r, "_ingested_at", Text(a.ingestedAt))
      && ConstantColumn(r, "_file_size_bytes", Integer(a.fileSizeBytes))
      && ConstantColumn(r, "_row_count", Integer(a.rowCount))
  {
    var cs := AuditColumns(a, clean.height);
    var r := WithColumns(clean, cs);
    var vs := AuditValues(a);
    AuditColumnsOk(a, clean.height);
    SetConstantColumns(clean, cs, vs);
    assert ConstantColumn(r, cs[0].name, vs[0]);
    assert ConstantColumn(r, cs[1].name, vs[1]);
    assert ConstantColumn(r, cs[2].name, vs[2]);
    assert ConstantColumn(r, cs[3].name, vs[3]);
    assert ConstantColumn(r, cs[4].name, vs[4]);
  }

  /** `_add_metadata`: the cleaned table with the five audit columns set; the row count is the height before cleaning. */
  function AddMetadata(e: Engine, df: Table, sourceFile: string, cluster: string, ingestedAt: string, fileSizeBytes: nat)
    : (r: Result<Table, NormalizationError>)
    requires Valid(df)
    ensures r.Success? <==> Clean(e, df).Success?
    ensures r.Success? ==> Valid(r.value) && r.value.height == df.height
    ensures r.Success? ==> Names(Clean(e, df).value.columns) <= Names(r.value.columns)
    ensures r.Success? ==> forall n :: n in Names(r.value.columns) <==>
      n in Names(Clean(e, df).value.columns) || n in AuditNames
    ensures r.Success? ==> forall d :: d in r.value.columns && d.name !in AuditNames ==> d in Clean(e, df).value.columns
    ensures r.Success? ==> forall i :: 0 <= i < |r.value.columns| ==> !NeedsText(r.value.columns[i].ty)
    ensures r.Success? ==>
      && ConstantColumn(r.value, "_source_file", Text(sourceFile))
      && ConstantColumn(r.value, "_cluster", Text(cluster))
      && ConstantColumn(r.value, "_ingested_at", Text(ingestedAt))
      && ConstantColumn(r.value, "_file_size_bytes", Integer(fileSizeBytes))
      && ConstantColumn(r.value, "_row_count", Integer(r.value.height))
  {
    match Clean(e, df)
    case Failure(err) => Failure(err)
    case Success(clean) =>
      var a := Audit(sourceFile, cluster, ingestedAt, fileSizeBytes, df.height);
      var cs := AuditColumns(a, clean.height);
      var r := WithColumns(clean, cs);
      AuditedShape(clean, a);
      Success(r)
  }
}
