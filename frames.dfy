/** The DataFrame `df` of one uploaded file, which the script rebinds or
    updates in place step by step. */
module Frames {
  import opened Tables
  import Dedupe
  import MeanFill
  import Whitespace
  import Selection

  class Frame {
    var columns: seq<Column>
    var rows: seq<Row>

    /** The table the frame currently holds. */
    function Value(): Table
      reads this
    {
      Table(columns, rows)
    }

    ghost predicate Valid()
      reads this
    {
      WellFormed(Value())
    }

    /** The frame `load_file` returns for a supported upload. */
    constructor (t: Table)
      requires WellFormed(t)
      ensures Valid() && Value() == t
    {
      columns := t.columns;
      rows := t.rows;
    }

    /** `df = df.drop_duplicates()` */
    method DropDuplicates()
      requires Valid()
      modifies this
      ensures Valid() && Value() == Dedupe.DropDuplicates(old(Value()))
    {
      var r := Dedupe.DropDuplicates(Value());
      rows := r.rows;
    }

    /** `df.fillna(df.select_dtypes(include=["number"]).mean(), inplace=True)`:
        the means are computed first, then every row is filled with them. */
    method FillMissing()
      requires Valid()
      modifies this
      ensures Valid() && Value() == MeanFill.FillMissing(old(Value()))
    {
      var means := MeanFill.Means(Value());
      rows := MeanFill.FillRows(rows, means);
    }

    /** `df.columns = df.columns.str.strip()`, then
        `df[col] = df[col].str.strip()` for each object column in turn. */
    method CleanWhitespace()
      requires Valid()
      modifies this
      ensures Valid() && Value() == Whitespace.CleanWhitespace(old(Value()))
    {
      var cols := Whitespace.StripNames(columns);
      var rs := rows;
      ghost var rows0 := rows;
      var j := 0;
      while j < |cols|
        invariant 0 <= j <= |cols|
        invariant |rs| == |rows0|
        invariant forall i :: 0 <= i < |rs| ==> |rs[i]| == |cols|
        invariant forall i, k :: 0 <= i < |rs| && 0 <= k < j ==>
          rs[i][k] == if cols[k].kind == ObjectColumn then Whitespace.StripCell(rows0[i][k]) else rows0[i][k]
        invariant forall i, k :: 0 <= i < |rs| && j <= k < |cols| ==> rs[i][k] == rows0[i][k]
      {
        if cols[j].kind == ObjectColumn {
          rs := Whitespace.StripColumn(rs, j);
        }
        j := j + 1;
      }
      ghost var want := Whitespace.CleanWhitespace(Value());
      assert cols == want.columns;
      forall i | 0 <= i < |rs| ensures rs[i] == want.rows[i] {
        assert |rs[i]| == |want.rows[i]|;
      }
      columns, rows := cols, rs;
    }

    /** `if selected_columns: df = df[selected_columns]` */
    method SelectColumns(sel: seq<string>)
      requires Valid() && Selection.SelectionValid(Value(), sel)
      modifies this
      ensures Valid() && Value() == Selection.SelectColumns(old(Value()), sel)
    {
      if sel != [] {
        var r := Selection.Project(Value(), Selection.SelectedPositions(columns, sel));
        columns, rows := r.columns, r.rows;
      }
    }
  }
}
