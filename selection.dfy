/** Column projection `df = df[selected_columns]`, done only when the
    selection is non-empty (`if selected_columns:`). */
module Selection {
  import opened Tables

  /** Every position of a column called `name`, in increasing order. */
  function Positions(cols: seq<Column>, name: string): (p: seq<nat>)
    ensures forall k :: 0 <= k < |p| ==> p[k] < |cols| && cols[p[k]].name == name
    ensures forall k, l :: 0 <= k < l < |p| ==> p[k] < p[l]
  {
    if cols == [] then []
    else
      var p := Positions(cols[..|cols| - 1], name);
      if cols[|cols| - 1].name == name then p + [|cols| - 1] else p
  }

  /** The positions pandas takes, label by label, for a list of labels: every
      column carrying the first label, then every column carrying the second,
      and so on. */
  function SelectedPositions(cols: seq<Column>, sel: seq<string>): (p: seq<nat>)
    ensures forall k :: 0 <= k < |p| ==> p[k] < |cols| && cols[p[k]].name in sel
  {
    if sel == [] then []
    else
      var p := SelectedPositions(cols, sel[..|sel| - 1]);
      var q := Positions(cols, sel[|sel| - 1]);
      assert forall x :: x in sel ==> x in sel[..|sel| - 1] || x == sel[|sel| - 1];
      p + q
  }

  /** Every column carrying `name` is among its positions. */
  lemma {:induction false} PositionsComplete(cols: seq<Column>, name: string)
    ensures forall i :: 0 <= i < |cols| && cols[i].name == name ==> i in Positions(cols, name)
  {
    if cols != [] {
      var n := |cols| - 1;
      PositionsComplete(cols[..n], name);
      assert forall i :: 0 <= i < n ==> cols[i] == cols[..n][i];
    }
  }

  /** Every column carrying a selected label is among the selected positions. */
  lemma {:induction false} SelectedPositionsComplete(cols: seq<Column>, sel: seq<string>)
    ensures forall i :: 0 <= i < |cols| && cols[i].name in sel ==> i in SelectedPositions(cols, sel)
  {
    if sel != [] {
      var n := |sel| - 1;
      SelectedPositionsComplete(cols, sel[..n]);
      PositionsComplete(cols, sel[n]);
      assert forall x :: x in sel ==> x in sel[..n] || x == sel[n];
    }
  }

  /** The sub-table made of the columns at positions `p`, in that order. */
  function Project(t: Table, p: seq<nat>): (r: Table)
    requires WellFormed(t)
    requires forall k :: 0 <= k < |p| ==> p[k] < |t.columns|
    ensures WellFormed(r) && |r.rows| == |t.rows| && |r.columns| == |p|
    ensures forall k :: 0 <= k < |p| ==> r.columns[k] == t.columns[p[k]]
    ensures forall i, k :: 0 <= i < |t.rows| && 0 <= k < |p| ==> r.rows[i][k] == t.rows[i][p[k]]
  {
    Table(seq(|p|, k requires 0 <= k < |p| => t.columns[p[k]]),
          seq(|t.rows|, i requires 0 <= i < |t.rows| => seq(|p|, k requires 0 <= k < |p| => t.rows[i][p[k]])))
  }

  /** Every selected label names a column: the selection widget only offers
      the table's own column names (pandas would raise a KeyError otherwise). */
  predicate SelectionValid(t: Table, sel: seq<string>) {
    forall n :: n in sel ==> n in Names(t.columns)
  }

  /** The guarded projection. */
  function SelectColumns(t: Table, sel: seq<string>): (r: Table)
    requires WellFormed(t) && SelectionValid(t, sel)
    ensures WellFormed(r) && |r.rows| == |t.rows|
    ensures sel == [] ==> r == t
    ensures forall c :: c in r.columns ==> c in t.columns
    ensures sel != [] ==> forall c :: c in r.columns <==> c in t.columns && c.name in sel
  {
    if sel == [] then t
    else
      var p := SelectedPositions(t.columns, sel);
      var r := Project(t, p);
      assert forall c :: c in r.columns ==> c in t.columns && c.name in sel by {
        forall c | c in r.columns ensures c in t.columns && c.name in sel {
          var k :| 0 <= k < |p| && r.columns[k] == c;
        }
      }
      assert forall c :: c in t.columns && c.name in sel ==> c in r.columns by {
        SelectedPositionsComplete(t.columns, sel);
        forall c | c in t.columns && c.name in sel ensures c in r.columns {
          var i :| 0 <= i < |t.columns| && t.columns[i] == c;
          var k :| 0 <= k < |p| && p[k] == i;
          assert r.columns[k] == c;
        }
      }
      r
  }

  /** The position of the first column called `name`. */
  function IndexOf(cols: seq<Column>, name: string): (j: nat)
    requires name in Names(cols)
    ensures j < |cols| && cols[j].name == name
    ensures forall i :: 0 <= i < j ==> cols[i].name != name
  {
    IndexFrom(cols, name, 0)
  }

  /** The first position at or after `i` carrying `name`. */
  function IndexFrom(cols: seq<Column>, name: string, i: nat): (j: nat)
    requires i <= |cols|
    requires exists k :: i <= k < |cols| && cols[k].name == name
    ensures i <= j < |cols| && cols[j].name == name
    ensures forall k :: i <= k < j ==> cols[k].name != name
    decreases |cols| - i
  {
    if cols[i].name == name then i else IndexFrom(cols, name, i + 1)
  }

  /** A label no column carries has no position. */
  lemma {:induction false} AbsentNoPosition(cols: seq<Column>, name: string)
    requires name !in Names(cols)
    ensures Positions(cols, name) == []
  {
    if cols != [] {
      var n := |cols| - 1;
      assert Names(cols)[n] == cols[n].name;
      assert Names(cols[..n]) == Names(cols)[..n];
      AbsentNoPosition(cols[..n], name);
    }
  }

  /** With distinct column names a label has exactly one position. */
  lemma {:induction false} UniquePosition(cols: seq<Column>, name: string)
    requires DistinctNames(cols) && name in Names(cols)
    ensures Positions(cols, name) == [IndexOf(cols, name)]
  {
    var n := |cols| - 1;
    var pre := cols[..n];
    assert Names(pre) == Names(cols)[..n];
    assert Names(cols) == Names(pre) + [cols[n].name];
    if cols[n].name == name {
      assert name !in Names(pre);
      AbsentNoPosition(pre, name);
      assert IndexOf(cols, name) == n;
    } else {
      assert name in Names(pre);
      UniquePosition(pre, name);
      assert IndexOf(pre, name) == IndexOf(cols, name);
    }
  }

  /** With distinct column names the positions taken are one per label, the
      column of each label in the order of the selection. */
  lemma {:induction false} SelectedPositionsDistinct(cols: seq<Column>, sel: seq<string>)
    requires DistinctNames(cols)
    requires forall n :: n in sel ==> n in Names(cols)
    ensures |SelectedPositions(cols, sel)| == |sel|
    ensures forall k :: 0 <= k < |sel| ==> SelectedPositions(cols, sel)[k] == IndexOf(cols, sel[k])
  {
    if sel != [] {
      var n := |sel| - 1;
      var pre := sel[..n];
      var q := SelectedPositions(cols, pre);
      assert |q| == n && forall k :: 0 <= k < n ==> sel[k] in Names(cols) && q[k] == IndexOf(cols, sel[k]) by {
        assert forall x :: x in pre ==> x in sel;
        SelectedPositionsDistinct(cols, pre);
        assert forall k :: 0 <= k < n ==> sel[k] == pre[k];
      }
      assert SelectedPositions(cols, sel) == q + Positions(cols, sel[n]);
      assert Positions(cols, sel[n]) == [IndexOf(cols, sel[n])] by {
        assert sel[n] in sel;
        UniquePosition(cols, sel[n]);
      }
      AppendIndexOf(cols, sel, q);
    }
  }

  lemma AppendIndexOf(cols: seq<Column>, sel: seq<string>, q: seq<nat>)
    requires sel != [] && forall n :: n in sel ==> n in Names(cols)
    requires |q| == |sel| - 1
    requires forall k :: 0 <= k < |q| ==> sel[k] in Names(cols) && q[k] == IndexOf(cols, sel[k])
    ensures forall k :: 0 <= k < |sel| ==> (q + [IndexOf(cols, sel[|sel| - 1])])[k] == IndexOf(cols, sel[k])
  {
  }

  /** A non-empty selection over distinct column names yields exactly the
      selected columns, in selection order, each with its cells, and the same
      rows. */
  lemma SelectExactly(t: Table, sel: seq<string>)
    requires WellFormed(t) && SelectionValid(t, sel) && DistinctNames(t.columns) && sel != []
    ensures var r := SelectColumns(t, sel);
      && Names(r.columns) == sel
      && |r.rows| == |t.rows|
      && (forall k :: 0 <= k < |sel| ==> r.columns[k] == t.columns[IndexOf(t.columns, sel[k])])
      && (forall i, k :: 0 <= i < |t.rows| && 0 <= k < |sel| ==>
            r.rows[i][k] == t.rows[i][IndexOf(t.columns, sel[k])])
  {
    SelectedPositionsDistinct(t.columns, sel);
    var r := SelectColumns(t, sel);
    assert Names(r.columns) == sel;
  }

  /** With distinct column names, a column's own name finds it. */
  lemma IndexOfOwnName(cols: seq<Column>, k: nat)
    requires DistinctNames(cols) && k < |cols|
    ensures cols[k].name in Names(cols) && IndexOf(cols, cols[k].name) == k
  {
    assert Names(cols)[k] == cols[k].name;
  }

  /** Selecting every column (the widget's default) leaves a table with
      distinct column names unchanged. */
  lemma SelectAllIsIdentity(t: Table)
    requires WellFormed(t) && DistinctNames(t.columns)
    ensures SelectionValid(t, Names(t.columns))
    ensures SelectColumns(t, Names(t.columns)) == t
  {
    var sel := Names(t.columns);
    if sel != [] {
      var p := SelectedPositions(t.columns, sel);
      SelectedPositionsDistinct(t.columns, sel);
      forall k | 0 <= k < |sel| ensures p[k] == k {
        IndexOfOwnName(t.columns, k);
      }
      ProjectAll(t, p);
    } else {
      assert t.columns == [];
    }
  }

  /** Projecting on every position in order gives the table back. */
  lemma ProjectAll(t: Table, p: seq<nat>)
    requires WellFormed(t) && |p| == |t.columns|
    requires forall k :: 0 <= k < |p| ==> p[k] == k
    ensures Project(t, p) == t
  {
    var r := Project(t, p);
    assert r.columns == t.columns;
    forall i | 0 <= i < |t.rows| ensures r.rows[i] == t.rows[i] {
      assert |r.rows[i]| == |t.rows[i]|;
    }
    assert r.rows == t.rows;
  }

  /** Selecting ["A", "C"] from columns A, B, C gives columns A, C. */
  lemma SelectExample(rows: seq<Row>)
    requires forall i :: 0 <= i < |rows| ==> |rows[i]| == 3
    ensures var t := Table([Column("A", NumberColumn), Column("B", ObjectColumn), Column("C", OtherColumn)], rows);
      && SelectionValid(t, ["A", "C"])
      && SelectColumns(t, ["A", "C"]).columns == [Column("A", NumberColumn), Column("C", OtherColumn)]
      && |SelectColumns(t, ["A", "C"]).rows| == |rows|
  {
    var cols := [Column("A", NumberColumn), Column("B", ObjectColumn), Column("C", OtherColumn)];
    var t := Table(cols, rows);
    var sel := ["A", "C"];
    assert DistinctNames(cols) && SelectionValid(t, sel) by {
      assert Names(cols) == ["A", "B", "C"];
    }
    assert IndexOf(cols, "A") == 0 && IndexOf(cols, "C") == 2 by {
      assert Names(cols) == ["A", "B", "C"];
    }
    SelectExactly(t, sel);
  }
}
