/**
 The tabular data the checks work on. A table is an ordered sequence of
 records; every record maps a column name to a cell, and a cell is either a
 value or null (pandas' NA, which covers both NaN and None).
 */
module Tables {
  import opened Wrappers

  /** A non-null cell value: a number, or a piece of text as an object column holds it. */
  datatype Value = Num(n: real) | Text(s: string)

  /** None is a null cell. */
  type Cell = Option<Value>

  type Row = map<string, Cell>

  /** Column labels in their order, and the records. */
  datatype Table = Table(columns: seq<string>, rows: seq<Row>)

  /** The cell of a record in a column; a record without that column reads as null. */
  function Get(row: Row, column: string): Cell
  {
    if column in row then row[column] else None
  }

  /** The column's cells, one per record, in record order. */
  function Column(t: Table, column: string): (cells: seq<Cell>)
    ensures |cells| == |t.rows|
    ensures forall i :: 0 <= i < |t.rows| ==> cells[i] == Get(t.rows[i], column)
  {
    seq(|t.rows|, i requires 0 <= i < |t.rows| => Get(t.rows[i], column))
  }

  /** The set of column labels. */
  function ColumnSet(t: Table): set<string>
  {
    set c | c in t.columns
  }

  /** No value occurs twice; null counts as a value, as in pandas' is_unique. */
  predicate Unique<K(==)>(keys: seq<K>)
  {
    forall i, j :: 0 <= i < j < |keys| ==> keys[i] != keys[j]
  }

  /** Strictly increasing row positions. */
  predicate Increasing(ps: seq<nat>)
  {
    forall a, b :: 0 <= a < b < |ps| ==> ps[a] < ps[b]
  }
}
