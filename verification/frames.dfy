/**
 * Dataframes as the pipeline sees them: an ordered sequence of named columns,
 * each with a type tag and one optional cell per row.
 */
module Frames {
  import opened Results

  /** Column type tags of the dataframe library; `Other` covers every remaining dtype by name. */
  datatype ColType = Null | Utf8 | Int | Float | Bool | List | Struct | Other(name: string)

  /** A present cell value. */
  datatype Value =
    | Text(s: string)
    | Integer(n: int)
    | Real(r: real)
    | Flag(b: bool)
    | Composite(items: seq<Value>)
    | Opaque(repr: string)

  /** `None` is a missing cell (a null in the dataframe, a NaN/None after conversion to pandas). */
  type Cell = Option<Value>

  datatype Column = Column(name: string, ty: ColType, cells: seq<Cell>)

  datatype Table = Table(height: nat, columns: seq<Column>)

  /** Which values a column of a given type can hold; a `Null` column holds none. */
  predicate Fits(v: Value, t: ColType)
  {
    match v
    case Text(_) => t.Utf8?
    case Integer(_) => t.Int?
    case Real(_) => t.Float?
    case Flag(_) => t.Bool?
    case Composite(_) => t.List? || t.Struct?
    case Opaque(_) => t.Other?
  }

  predicate CellFits(c: Cell, t: ColType)
  {
    c.None? || Fits(c.value, t)
  }

  /** A column has one cell per row and every present cell fits its type. */
  predicate ColumnOk(c: Column, height: nat)
  {
    && |c.cells| == height
    && forall j :: 0 <= j < |c.cells| ==> CellFits(c.cells[j], c.ty)
  }

  function Names(cols: seq<Column>): (r: seq<string>)
    ensures |r| == |cols|
    ensures forall i :: 0 <= i < |cols| ==> r[i] == cols[i].name
  {
    seq(|cols|, i requires 0 <= i < |cols| => cols[i].name)
  }

  predicate Distinct(xs: seq<string>)
  {
    forall i, j :: 0 <= i < j < |xs| ==> xs[i] != xs[j]
  }

  /** Every dataframe the libraries hand out: rectangular, well-typed, uniquely named. */
  predicate Valid(t: Table)
  {
    && (forall i :: 0 <= i < |t.columns| ==> ColumnOk(t.columns[i], t.height))
    && Distinct(Names(t.columns))
  }

  type Frame = t: Table | Valid(t) witness Table(0, [])

  /** `notna().any()`: the column has a value in at least one row. */
  predicate HasValue(c: Column)
  {
    exists j :: 0 <= j < |c.cells| && c.cells[j].Some?
  }

  /** No row of the column is missing. */
  predicate Complete(c: Column)
  {
    forall j :: 0 <= j < |c.cells| ==> c.cells[j].Some?
  }

  /** `xs` is `ys` with some elements removed and the rest kept in order. */
  predicate Subsequence<T(==)>(xs: seq<T>, ys: seq<T>)
    decreases |ys|
  {
    || |xs| == 0
    || (&& |ys| > 0
        && ((xs[0] == ys[0] && Subsequence(xs[1..], ys[1..])) || Subsequence(xs, ys[1..])))
  }

  lemma {:induction false} SubsequenceRefl<T>(xs: seq<T>)
    ensures Subsequence(xs, xs)
    decreases |xs|
  {
    if |xs| > 0 {
      SubsequenceRefl(xs[1..]);
    }
  }

  /** Every element kept by a subsequence comes from the original sequence. */
  lemma {:induction false} SubsequenceMembers<T>(xs: seq<T>, ys: seq<T>)
    requires Subsequence(xs, ys)
    ensures forall x :: x in xs ==> x in ys
    decreases |ys|
  {
    if |xs| > 0 {
      if xs[0] == ys[0] && Subsequence(xs[1..], ys[1..]) {
        SubsequenceMembers(xs[1..], ys[1..]);
        assert forall x :: x in xs ==> x == xs[0] || x in xs[1..];
      } else {
        SubsequenceMembers(xs, ys[1..]);
      }
    }
  }

  /** Dropping elements cannot introduce a repetition. */
  lemma {:induction false} SubsequenceDistinct(xs: seq<string>, ys: seq<string>)
    requires Subsequence(xs, ys)
    requires Distinct(ys)
    ensures Distinct(xs)
    decreases |ys|
  {
    if |xs| > 0 {
      assert Distinct(ys[1..]) by {
        forall i, j | 0 <= i < j < |ys[1..]|
          ensures ys[1..][i] != ys[1..][j]
        {
          assert ys[1..][i] == ys[i + 1] && ys[1..][j] == ys[j + 1];
        }
      }
      if xs[0] == ys[0] && Subsequence(xs[1..], ys[1..]) {
        SubsequenceDistinct(xs[1..], ys[1..]);
        SubsequenceMembers(xs[1..], ys[1..]);
        forall i, j | 0 <= i < j < |xs|
          ensures xs[i] != xs[j]
        {
          if i == 0 {
            assert xs[j] == xs[1..][j - 1];
            assert xs[j] in ys[1..];
          } else {
            assert xs[i] == xs[1..][i - 1] && xs[j] == xs[1..][j - 1];
          }
        }
      } else {
        SubsequenceDistinct(xs, ys[1..]);
      }
    }
  }

  /** Keeping a subsequence of columns keeps a subsequence of their names. */
  lemma {:induction false} SubsequenceNames(xs: seq<Column>, ys: seq<Column>)
    requires Subsequence(xs, ys)
    ensures Subsequence(Names(xs), Names(ys))
    decreases |ys|
  {
    if |xs| > 0 {
      assert Names(ys)[1..] == Names(ys[1..]);
      if xs[0] == ys[0] && Subsequence(xs[1..], ys[1..]) {
        assert Names(xs)[1..] == Names(xs[1..]);
        SubsequenceNames(xs[1..], ys[1..]);
      } else {
        SubsequenceNames(xs, ys[1..]);
      }
    }
  }
}
