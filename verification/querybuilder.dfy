/** The query-builder surface the manager drives.

    A builder is a single-use accumulator bound to one table and one adapter.
    The SQL text it would assemble is not modelled: a builder is the record of
    the calls made on it, and executing it hands that record to the backend.
 */
module QueryBuilder {
  import opened Values

  /** One chained builder call. */
  datatype Clause =
    | Where(column: string, value: Value)          // equality predicate, ANDed with the others
    | Select(columns: seq<(string, string)>)       // (source column, alias) pairs
    | Insert(values: Row)                          // column name to value
    | Update(values: Row)                          // column name to new value
    | Returning(column: string)                    // echo this column back in the result rows

  /** Which factory produced the builder: `adapter.table(...)` returns a
      `Table` façade, `adapter.queryBuilder(...)` a bare `QueryBuilder`. */
  datatype Facade = TableFacade | QueryBuilderFacade

  /** A builder: its table, the adapter it belongs to, and the calls made on it so far. */
  datatype Builder = Builder(facade: Facade, tableName: string, adapterId: nat, clauses: seq<Clause>)
  {
    /** A chained call: the same builder with one more clause at the end. */
    function Add(c: Clause): Builder
    {
      this.(clauses := clauses + [c])
    }
  }
}
