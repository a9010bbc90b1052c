/** `df.fillna(df.select_dtypes(include=["number"]).mean(), inplace=True)`:
    every missing cell of a number column becomes that column's mean over its
    present values, the means all taken from the table before any fill. */
module MeanFill {
  import opened Wrappers
  import opened Tables

  /** The cells of column `j`, top to bottom. */
  function ColumnCells(rows: seq<Row>, j: nat): (cs: seq<Cell>)
    requires HasColumn(rows, j)
    ensures |cs| == |rows| && forall i :: 0 <= i < |rows| ==> cs[i] == rows[i][j]
  {
    seq(|rows|, i requires 0 <= i < |rows| => rows[i][j])
  }

  /** How many cells hold a number. */
  function PresentCount(cs: seq<Cell>): (n: nat)
    ensures n <= |cs|
  {
    if cs == [] then 0
    else PresentCount(cs[..|cs| - 1]) + (if cs[|cs| - 1].Num? then 1 else 0)
  }

  /** The sum of the numbers. */
  function PresentSum(cs: seq<Cell>): real {
    if cs == [] then 0.0
    else PresentSum(cs[..|cs| - 1]) + (if cs[|cs| - 1].Num? then cs[|cs| - 1].value else 0.0)
  }

  /** How many cells are missing. */
  function MissingCount(cs: seq<Cell>): (n: nat)
    ensures n <= |cs|
  {
    if cs == [] then 0
    else MissingCount(cs[..|cs| - 1]) + (if cs[|cs| - 1].Missing? then 1 else 0)
  }

  /** pandas' `mean()` with missing values skipped; `None` stands for the NaN
      it gives a column without any present value. */
  function Mean(cs: seq<Cell>): (m: Option<real>)
    ensures m.None? <==> PresentCount(cs) == 0
  {
    var n := PresentCount(cs);
    if n == 0 then None else Some(PresentSum(cs) / n as real)
  }

  /** The fill value of each column: its mean for a number column, nothing for
      any other column (the mean series has no entry for it). */
  function Means(t: Table): (means: seq<Option<real>>)
    requires WellFormed(t)
    ensures |means| == |t.columns|
    ensures forall j :: 0 <= j < |means| ==>
      means[j] == if t.columns[j].kind == NumberColumn then Mean(ColumnCells(t.rows, j)) else None
    ensures forall j :: 0 <= j < |means| ==>
      (means[j].Some? <==> t.columns[j].kind == NumberColumn && PresentCount(ColumnCells(t.rows, j)) > 0)
  {
    seq(|t.columns|, j requires 0 <= j < |t.columns| =>
      if t.columns[j].kind == NumberColumn then Mean(ColumnCells(t.rows, j)) else None)
  }

  /** `fillna` on one cell: only a missing cell with a fill value changes. */
  function FillCell(c: Cell, m: Option<real>): (r: Cell)
    ensures r != c ==> c.Missing? && m.Some? && r == Num(m.value)
  {
    if c.Missing? && m.Some? then Num(m.value) else c
  }

  function FillRow(r: Row, means: seq<Option<real>>): (r': Row)
    requires |r| == |means|
    ensures |r'| == |r|
    ensures forall j :: 0 <= j < |r| ==> r'[j] == FillCell(r[j], means[j])
  {
    seq(|r|, j requires 0 <= j < |r| => FillCell(r[j], means[j]))
  }

  /** `fillna` on a list of cells with one fill value. */
  function FillCells(cs: seq<Cell>, m: Option<real>): (r: seq<Cell>)
    ensures |r| == |cs| && forall i :: 0 <= i < |cs| ==> r[i] == FillCell(cs[i], m)
  {
    seq(|cs|, i requires 0 <= i < |cs| => FillCell(cs[i], m))
  }

  function FillRows(rows: seq<Row>, means: seq<Option<real>>): (rs: seq<Row>)
    requires forall i :: 0 <= i < |rows| ==> |rows[i]| == |means|
    ensures |rs| == |rows|
    ensures forall i :: 0 <= i < |rows| ==> rs[i] == FillRow(rows[i], means)
  {
    if rows == [] then []
    else FillRows(rows[..|rows| - 1], means) + [FillRow(rows[|rows| - 1], means)]
  }

  /** The table after the fill. A cell changes only if it is missing, its
      column is a number column and that column has a present value; it then
      becomes the mean of the column as it was before the fill. */
  function FillMissing(t: Table): (r: Table)
    requires WellFormed(t)
    ensures WellFormed(r) && r.columns == t.columns && |r.rows| == |t.rows|
    ensures forall i, j :: 0 <= i < |t.rows| && 0 <= j < |t.columns| ==>
      r.rows[i][j] == if t.columns[j].kind == NumberColumn && t.rows[i][j].Missing? && PresentCount(ColumnCells(t.rows, j)) > 0
                      then Num(Mean(ColumnCells(t.rows, j)).value)
                      else t.rows[i][j]
  {
    Table(t.columns, FillRows(t.rows, Means(t)))
  }

  /** Column `j` of the filled rows is column `j` filled with its value. */
  lemma FilledColumn(rows: seq<Row>, means: seq<Option<real>>, j: nat)
    requires forall i :: 0 <= i < |rows| ==> |rows[i]| == |means|
    requires j < |means|
    ensures HasColumn(FillRows(rows, means), j)
    ensures ColumnCells(FillRows(rows, means), j) == FillCells(ColumnCells(rows, j), means[j])
  {
  }

  /** `m` once for every missing cell. */
  function MissingTotal(cs: seq<Cell>, m: real): real {
    if cs == [] then 0.0
    else MissingTotal(cs[..|cs| - 1], m) + (if cs[|cs| - 1].Missing? then m else 0.0)
  }

  lemma {:induction false} MissingTotalIsProduct(cs: seq<Cell>, m: real)
    ensures MissingTotal(cs, m) == MissingCount(cs) as real * m
  {
    if cs != [] {
      var n := |cs| - 1;
      MissingTotalIsProduct(cs[..n], m);
      var k := MissingCount(cs[..n]) as real;
      if cs[n].Missing? {
        assert (k + 1.0) * m == k * m + m;
      }
    }
  }

  /** Filling with `m` turns each missing cell into a present one worth `m`. */
  lemma {:induction false} FilledStatistics(cs: seq<Cell>, m: real)
    ensures PresentCount(FillCells(cs, Some(m))) == PresentCount(cs) + MissingCount(cs)
    ensures PresentSum(FillCells(cs, Some(m))) == PresentSum(cs) + MissingTotal(cs, m)
  {
    var f := FillCells(cs, Some(m));
    if cs != [] {
      var n := |cs| - 1;
      FilledStatistics(cs[..n], m);
      assert f[..n] == FillCells(cs[..n], Some(m));
    }
  }

  /** Padding a sample with copies of its mean keeps the mean. */
  lemma MeanOfPadded(s: real, c: nat, k: nat)
    requires c > 0
    ensures (s + k as real * (s / c as real)) / (c + k) as real == s / c as real
  {
    var q := s / c as real;
    assert s == q * c as real;
    assert (c + k) as real == c as real + k as real;
    assert s + k as real * q == q * (c + k) as real;
  }

  /** Filling a list of cells with its own mean keeps that mean. */
  lemma FillCellsKeepsMean(cs: seq<Cell>, m: real)
    requires Mean(cs) == Some(m)
    ensures Mean(FillCells(cs, Some(m))) == Some(m)
  {
    var c, s, k := PresentCount(cs), PresentSum(cs), MissingCount(cs);
    var f := FillCells(cs, Some(m));
    FilledStatistics(cs, m);
    MissingTotalIsProduct(cs, m);
    assert m == s / c as real;
    assert PresentCount(f) == c + k;
    assert PresentSum(f) == s + k as real * (s / c as real);
    MeanOfPadded(s, c, k);
  }

  /** The fill keeps every column's mean. */
  lemma FillKeepsMeans(t: Table, j: nat)
    requires WellFormed(t) && j < |t.columns|
    ensures HasColumn(FillMissing(t).rows, j)
    ensures Mean(ColumnCells(FillMissing(t).rows, j)) == Mean(ColumnCells(t.rows, j))
  {
    var means := Means(t);
    var cs := ColumnCells(t.rows, j);
    FilledColumn(t.rows, means, j);
    var f := ColumnCells(FillMissing(t).rows, j);
    assert f == FillCells(cs, means[j]);
    if means[j].Some? {
      FillCellsKeepsMean(cs, means[j].value);
    } else {
      assert f == cs;
    }
  }

  /** After the fill a number column with a present value has no missing cell,
      and a column without any present value (or not a number column) is
      exactly as it was. */
  lemma FillCoverage(t: Table, j: nat)
    requires WellFormed(t) && j < |t.columns|
    ensures t.columns[j].kind == NumberColumn && PresentCount(ColumnCells(t.rows, j)) > 0 ==>
      forall i :: 0 <= i < |t.rows| ==> !FillMissing(t).rows[i][j].Missing?
    ensures t.columns[j].kind != NumberColumn || PresentCount(ColumnCells(t.rows, j)) == 0 ==>
      forall i :: 0 <= i < |t.rows| ==> FillMissing(t).rows[i][j] == t.rows[i][j]
  {
  }

  /** Filling twice is filling once. */
  lemma FillIdempotent(t: Table)
    requires WellFormed(t)
    ensures FillMissing(FillMissing(t)) == FillMissing(t)
  {
    var r := FillMissing(t);
    forall j | 0 <= j < |t.columns|
      ensures Means(r)[j] == Means(t)[j]
    {
      FillKeepsMeans(t, j);
    }
    assert Means(r) == Means(t);
    var rr := FillMissing(r);
    forall i | 0 <= i < |r.rows|
      ensures rr.rows[i] == r.rows[i]
    {
      assert |rr.rows[i]| == |r.rows[i]|;
      forall j | 0 <= j < |t.columns|
        ensures rr.rows[i][j] == r.rows[i][j]
      {
        assert rr.rows[i][j] == FillCell(r.rows[i][j], Means(t)[j]);
      }
    }
  }

  /** The number column [1, missing, 3] is filled with 2. */
  lemma FillExample()
    ensures FillMissing(Table([Column("n", NumberColumn)], [[Num(1.0)], [Missing], [Num(3.0)]])).rows
         == [[Num(1.0)], [Num(2.0)], [Num(3.0)]]
  {
    var rows := [[Num(1.0)], [Missing], [Num(3.0)]];
    var cs := ColumnCells(rows, 0);
    assert cs == [Num(1.0), Missing, Num(3.0)];
    var c1, c2 := [Num(1.0)], [Num(1.0), Missing];
    assert c1[..0] == [] && c2[..1] == c1 && cs[..2] == c2;
    assert PresentCount(c1) == 1 && PresentSum(c1) == 1.0;
    assert PresentCount(c2) == 1 && PresentSum(c2) == 1.0;
    assert PresentCount(cs) == 2 && PresentSum(cs) == 4.0;
    var r := FillMissing(Table([Column("n", NumberColumn)], rows)).rows;
    assert Mean(cs) == Some(2.0);
    assert r[1][0] == Num(2.0);
    assert r[1] == [Num(2.0)];
    assert r[0] == [Num(1.0)] && r[2] == [Num(3.0)];
  }
}
