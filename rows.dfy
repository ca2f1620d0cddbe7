/** The rows of the `mqtt_data` table and the integer range SQLite can store. */
module Rows {

  /** Bounds of a 64-bit signed SQLite INTEGER. Python's sqlite3 refuses to bind an
      integer outside them (it raises OverflowError before the statement runs). */
  const Int64Min: int := -0x8000_0000_0000_0000
  const Int64Max: int := 0x7FFF_FFFF_FFFF_FFFF

  predicate FitsInt64(x: int) {
    Int64Min <= x <= Int64Max
  }

  /** Number of `valueN` columns: the `data` array of a message must unpack into them. */
  const ValueCount: nat := 8

  /** One row of `mqtt_data`: the columns of the CREATE TABLE statement, in order. */
  datatype Row = Row(
    timestamp: int, id: int,
    value1: int, value2: int, value3: int, value4: int,
    value5: int, value6: int, value7: int, value8: int)

  /** The ten column values of a row in declaration order. */
  function Columns(r: Row): seq<int> {
    [r.timestamp, r.id, r.value1, r.value2, r.value3, r.value4,
     r.value5, r.value6, r.value7, r.value8]
  }

  /** Every column of the row is a value SQLite can hold. */
  predicate RowFits(r: Row) {
    forall i | 0 <= i < |Columns(r)| :: FitsInt64(Columns(r)[i])
  }

  /** The row the INSERT writes for timestamp `ts`, id `id` and the unpacked `data`
      array: `ts` and `id` go first, then the eight values in array order. */
  function RowOf(ts: int, id: int, values: seq<int>): (r: Row)
    requires |values| == ValueCount
    ensures Columns(r) == [ts, id] + values
    ensures r.timestamp == ts && r.id == id
  {
    Row(ts, id, values[0], values[1], values[2], values[3],
        values[4], values[5], values[6], values[7])
  }
}
