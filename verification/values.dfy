/** Values that flow between records, the query builder and the backend.

    The persistence layer never inspects a value beyond equality, so one small
    sum type stands in for the dynamically typed values of the program.
    `Undefined` is what a property read yields when the property is absent.
 */
module Values {

  datatype Value = Undefined | Null | Number(n: int) | Text(s: string) | Flag(b: bool)

  /** A row, a filter or a set of property values: a finite map from a key
      (a column name, an alias or a property key) to a value. */
  type Row = map<string, Value>

  /** Reading `row[key]` the way a property access does: a missing key reads as `Undefined`. */
  function Lookup(row: Row, key: string): Value
  {
    if key in row then row[key] else Undefined
  }

  /** Why a call into the backend, or the step right after it, failed. */
  datatype Error =
    | BackendError(message: string)  // the backend rejected the statement or the connection is gone
    | NoReturnedRow                  // an INSERT ... RETURNING came back with no row to read the id from

  /** The result of a step that may fail; a failure carries the error that propagates to the caller. */
  datatype Outcome<+T> = Ok(value: T) | Failed(error: Error)

  /** An optional value, standing in for a result that may be `null`. */
  datatype Option<+T> = None | Some(value: T)
}
