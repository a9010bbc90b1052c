/** Whitespace cleanup: `df.columns = df.columns.str.strip()` followed by
    `df[col] = df[col].str.strip()` for every object column. */
module Whitespace {
  import opened Text
  import opened Tables

  /** `.str.strip()` on one cell of an object column: a string is stripped;
      anything that is not a string comes back missing, as pandas' string
      accessor does for non-string elements. */
  function StripCell(c: Cell): (r: Cell)
    ensures c.Str? ==> r == Str(Strip(c.text))
    ensures !c.Str? ==> r == Missing
  {
    match c
    case Str(s) => Str(Strip(s))
    case _ => Missing
  }

  lemma StripCellIdempotent(c: Cell)
    ensures StripCell(StripCell(c)) == StripCell(c)
  {
    if c.Str? {
      StripIdempotent(c.text);
    }
  }

  /** `df.columns.str.strip()`: every name stripped, dtypes untouched. */
  function StripNames(cols: seq<Column>): (r: seq<Column>)
    ensures |r| == |cols|
    ensures forall j :: 0 <= j < |cols| ==> r[j] == Column(Strip(cols[j].name), cols[j].kind)
  {
    seq(|cols|, j requires 0 <= j < |cols| => Column(Strip(cols[j].name), cols[j].kind))
  }

  /** `df[col] = df[col].str.strip()` for the column at position `j`. */
  function StripColumn(rows: seq<Row>, j: nat): (r: seq<Row>)
    requires HasColumn(rows, j)
    ensures |r| == |rows|
    ensures forall i :: 0 <= i < |rows| ==> r[i] == rows[i][j := StripCell(rows[i][j])]
  {
    seq(|rows|, i requires 0 <= i < |rows| => rows[i][j := StripCell(rows[i][j])])
  }

  /** A row after the cleanup: object cells stripped, the others kept. */
  function CleanRow(r: Row, cols: seq<Column>): (r': Row)
    requires |r| == |cols|
    ensures |r'| == |r|
    ensures forall j :: 0 <= j < |r| ==>
      r'[j] == if cols[j].kind == ObjectColumn then StripCell(r[j]) else r[j]
  {
    seq(|r|, j requires 0 <= j < |r| => if cols[j].kind == ObjectColumn then StripCell(r[j]) else r[j])
  }

  /** The table after the cleanup: the same number of rows and columns, every
      column name stripped, every cell of an object column stripped, every
      cell of any other column untouched. */
  function CleanWhitespace(t: Table): (r: Table)
    requires WellFormed(t)
    ensures WellFormed(r) && |r.columns| == |t.columns| && |r.rows| == |t.rows|
    ensures forall j :: 0 <= j < |t.columns| ==>
      r.columns[j].name == Strip(t.columns[j].name) && r.columns[j].kind == t.columns[j].kind
    ensures forall i, j :: 0 <= i < |t.rows| && 0 <= j < |t.columns| ==>
      r.rows[i][j] == if t.columns[j].kind == ObjectColumn then StripCell(t.rows[i][j]) else t.rows[i][j]
  {
    Table(StripNames(t.columns), seq(|t.rows|, i requires 0 <= i < |t.rows| => CleanRow(t.rows[i], t.columns)))
  }

  /** Cleaning twice is cleaning once. */
  lemma CleanIdempotent(t: Table)
    requires WellFormed(t)
    ensures CleanWhitespace(CleanWhitespace(t)) == CleanWhitespace(t)
  {
    var r := CleanWhitespace(t);
    var rr := CleanWhitespace(r);
    forall j | 0 <= j < |t.columns|
      ensures rr.columns[j] == r.columns[j]
    {
      StripIdempotent(t.columns[j].name);
    }
    forall i | 0 <= i < |t.rows|
      ensures rr.rows[i] == r.rows[i]
    {
      forall j | 0 <= j < |t.columns|
        ensures rr.rows[i][j] == r.rows[i][j]
      {
        StripCellIdempotent(t.rows[i][j]);
      }
    }
  }

  /** A name and a text cell padded with blanks lose the padding; the cell
      of the number column is kept as it is. */
  lemma CleanExample(name: string, text: string, v: real)
    requires IsStripped(name) && IsStripped(text)
    ensures var t := Table([Column(" " + name + " ", ObjectColumn), Column("n", NumberColumn)], [[Str(" " + text + " "), Num(v)]]);
      var r := CleanWhitespace(t);
      && r.columns[0] == Column(name, ObjectColumn)
      && r.rows[0][0] == Str(text)
      && r.rows[0][1] == Num(v)
  {
    assert AllSpace(" ");
    StripExact(" ", name, " ");
    StripExact(" ", text, " ");
  }
}
