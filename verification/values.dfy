/**
 * Cell values and rows as the answer checker sees them.
 *
 * A row is a plain JavaScript object built from a result set: a mapping from
 * column name to the value the SQL engine returned. The engine only ever
 * returns `null`, numbers and strings (blobs and reals are not modelled).
 * JavaScript's `undefined` is included only because reading a key that an
 * object lacks yields it; no engine cell is ever `undefined`.
 */
module Values {

  datatype Value = Undefined | Null | Int(i: int) | Text(s: string)

  /** A result row: column name to cell value. */
  type Row = map<string, Value>

  /** `row[key]` in JavaScript: the stored value, or `undefined` when the key is absent. */
  function Lookup(row: Row, key: string): Value
  {
    if key in row then row[key] else Undefined
  }

  /** A value the SQL engine can produce. */
  predicate IsSqlValue(v: Value)
  {
    !v.Undefined?
  }

  /** A row none of whose columns holds `undefined`, as every row built from engine output is. */
  predicate WellFormedRow(row: Row)
  {
    forall k :: k in row ==> IsSqlValue(row[k])
  }

  predicate WellFormedRows(rows: seq<Row>)
  {
    forall i :: 0 <= i < |rows| ==> WellFormedRow(rows[i])
  }
}
