/**
 * Rows of an executed query, with the query library's record and column types
 * replaced by explicit data: a column is identified by its table and its name,
 * and a row maps columns to nullable values.
 */
module Rows {
  import opened Wrappers

  /** A column value as the query library hands it out (never null itself; null is None). */
  datatype Value = IntValue(i: int) | TextValue(s: string) | BoolValue(b: bool)

  /** The generated table class a type is bound to. */
  type TableId = string

  /** A table field: a column of one table. */
  datatype Column = Column(table: TableId, name: string)

  /** One record of the result: its column values, None standing for SQL NULL. */
  type Row = map<Column, Option<Value>>

  /** `record.get(column)`; a column the row does not carry reads as null. */
  function Get(r: Row, c: Column): Option<Value>
  {
    if c in r then r[c] else None
  }
}
