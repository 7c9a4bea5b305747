/**
  Tabular data as the time-ordered splitter sees it: a frame of rows, each
  carrying a stable index label, and a label series addressed by that label.
 */
module Frames {

  /** A row identifier: the frame's index label, kept by every subset of rows. */
  type Id = int

  /** One row: its index label and its cells by column name. Feature cells are
      only carried through, so every cell holds an integer (the period column
      after its conversion to int). */
  datatype Row = Row(id: Id, cells: map<string, int>)

  /** A frame: its column names and its rows in order. */
  datatype Frame = Frame(columns: set<string>, rows: seq<Row>)

  /** One entry of a label series: an index label and the label stored under it. */
  datatype Entry<L> = Entry(id: Id, value: L)

  datatype Option<+T> = None | Some(value: T)

  datatype Result<+T, +E> = Success(value: T) | Failure(error: E)

  /** Every row has a cell for exactly the frame's columns. */
  predicate WellFormed(x: Frame) {
    forall i :: 0 <= i < |x.rows| ==> x.rows[i].cells.Keys == x.columns
  }

  /** Every row has a cell in column `col`. */
  predicate HasColumn(rows: seq<Row>, col: string) {
    forall i :: 0 <= i < |rows| ==> col in rows[i].cells
  }

  /** No two rows share an index label. */
  predicate UniqueIds(rows: seq<Row>) {
    forall i, j :: 0 <= i < |rows| && 0 <= j < |rows| && i != j ==> rows[i].id != rows[j].id
  }

  /** The index labels of some rows. */
  function Ids(rows: seq<Row>): set<Id> {
    set i | 0 <= i < |rows| :: rows[i].id
  }

  /** The values of column `col`, one per row, in row order. */
  function Column(rows: seq<Row>, col: string): seq<int>
    requires HasColumn(rows, col)
  {
    seq(|rows|, i requires 0 <= i < |rows| => rows[i].cells[col])
  }
}
