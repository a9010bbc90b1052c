/** The abstract table the cleaning steps work on: pandas' DataFrame reduced
    to an ordered list of typed columns and a list of rows of nullable cells. */
module Tables {

  /** How `select_dtypes` sees a column: "number", "object" (text), or any
      other dtype (dates, booleans, ...). The tags are given with the table. */
  datatype Kind = NumberColumn | ObjectColumn | OtherColumn

  /** A cell: missing (NaN/None), a number, a string, or some other value
      carried by its printed form. */
  datatype Cell = Missing | Num(value: real) | Str(text: string) | OtherValue(shown: string)

  datatype Column = Column(name: string, kind: Kind)

  type Row = seq<Cell>

  datatype Table = Table(columns: seq<Column>, rows: seq<Row>)

  /** Every row has one cell per column. */
  predicate WellFormed(t: Table) {
    forall i :: 0 <= i < |t.rows| ==> |t.rows[i]| == |t.columns|
  }

  /** Every row has a cell at position `j`. */
  predicate HasColumn(rows: seq<Row>, j: nat) {
    forall i :: 0 <= i < |rows| ==> j < |rows[i]|
  }

  function Names(cols: seq<Column>): (names: seq<string>)
    ensures |names| == |cols|
    ensures forall j :: 0 <= j < |cols| ==> names[j] == cols[j].name
  {
    seq(|cols|, j requires 0 <= j < |cols| => cols[j].name)
  }

  predicate DistinctNames(cols: seq<Column>) {
    forall i, j :: 0 <= i < j < |cols| ==> cols[i].name != cols[j].name
  }
}
