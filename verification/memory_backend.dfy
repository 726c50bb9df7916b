/** A reference backend: an in-memory table that answers the statements
    `find` builds, comparing values by plain equality (so a `Null` filter
    value matches a stored `Null`, unlike SQL's `column = NULL`). It gives the manager's
    `where` translation, its aliased select list and its hydration an
    independent meaning to be checked against.
 */
module MemoryBackend {
  import opened Values
  import opened Mapping
  import opened Metadata
  import opened QueryBuilder
  import opened Adapters
  import opened Manager

  /** A stored table: its name and its rows, each keyed by column name. */
  datatype StoredTable = StoredTable(name: string, rows: seq<Row>)

  /** A stored row seen through the references `table.column` a query may use. */
  function Qualify(table: string, row: Row): Row
  {
    QualifiedInjective(table);
    map n | n in row :: Qualified(table, n) := row[n]
  }

  lemma QualifySpec(table: string, row: Row, n: string)
    ensures Qualified(table, n) in Qualify(table, row) <==> n in row
    ensures n in row ==> Qualify(table, row)[Qualified(table, n)] == row[n]
  {
    QualifiedInjective(table);
    if Qualified(table, n) in Qualify(table, row) {
      var n' :| n' in row && Qualified(table, n') == Qualified(table, n);
    }
  }

  /** The row a select list produces from a stored row: each `(source, alias)`
      pair whose source names a column of the row yields that value under the alias. */
  function Project(table: string, pairs: seq<(string, string)>, row: Row): Row
  {
    Remap(pairs, Qualify(table, row))
  }

  /** A row passes every `where` of the statement. */
  predicate SatisfiesWheres(row: Row, clauses: seq<Clause>)
  {
    forall j :: 0 <= j < |clauses| && clauses[j].Where? ==>
      clauses[j].column in row && row[clauses[j].column] == clauses[j].value
  }

  /** The select list of a statement: the pairs of its `select` calls, in call order. */
  function SelectedPairs(clauses: seq<Clause>): seq<(string, string)>
    decreases |clauses|
  {
    if |clauses| == 0 then []
    else
      var last := clauses[|clauses| - 1];
      SelectedPairs(clauses[..|clauses| - 1]) + (if last.Select? then last.columns else [])
  }

  /** The answer to a select statement: each stored row that passes its
      `where`s, projected through its select list, in table order. */
  function AnswerRows(table: string, clauses: seq<Clause>, rows: seq<Row>): seq<Row>
    decreases |rows|
  {
    if |rows| == 0 then []
    else
      (if SatisfiesWheres(rows[0], clauses) then [Project(table, SelectedPairs(clauses), rows[0])] else [])
      + AnswerRows(table, clauses, rows[1..])
  }

  function Answer(t: StoredTable, q: Builder): seq<Row>
  {
    AnswerRows(t.name, q.clauses, t.rows)
  }

  /** The filter's meaning, stated on stored rows without any query: every
      declared property the filter mentions has its value in the row's column. */
  predicate MatchesFilter(d: Descriptor, filter: Row, row: Row)
  {
    forall i :: 0 <= i < |d.columns| && d.columns[i].propertyKey in filter ==>
      d.columns[i].name in row && row[d.columns[i].name] == filter[d.columns[i].propertyKey]
  }

  /** A row passes an optional filter: always when there is none. */
  predicate Passes(d: Descriptor, filter: Option<Row>, row: Row)
  {
    filter.None? || MatchesFilter(d, filter.value, row)
  }

  /** The stored rows `find` should return, in table order. */
  function Matching(d: Descriptor, filter: Option<Row>, rows: seq<Row>): seq<Row>
    decreases |rows|
  {
    if |rows| == 0 then []
    else
      (if Passes(d, filter, rows[0]) then [rows[0]] else [])
      + Matching(d, filter, rows[1..])
  }

  /** The column values a stored row comes back with after being selected
      through `clauses` and hydrated. */
  function Reread(d: Descriptor, clauses: seq<Clause>, row: Row): Row
  {
    GetValues(d, Hydrate(d, Project(d.tableName, SelectedPairs(clauses), row)))
  }

  /** Every stored row has exactly the descriptor's columns. */
  predicate Complete(d: Descriptor, rows: seq<Row>)
  {
    forall i :: 0 <= i < |rows| ==> rows[i].Keys == ColumnNames(d)
  }

  lemma {:induction false} NoSelectAmongWheres(clauses: seq<Clause>)
    requires forall j :: 0 <= j < |clauses| ==> clauses[j].Where?
    ensures SelectedPairs(clauses) == []
    decreases |clauses|
  {
    if |clauses| > 0 {
      NoSelectAmongWheres(clauses[..|clauses| - 1]);
    }
  }

  /** The statement `setupQueryBuilder` builds selects exactly the aliased column list. */
  lemma SetupSelectsColumns(a: Adapter, d: Descriptor, options: FindOptions)
    ensures SelectedPairs(SetupQueryBuilder(a, d, options).clauses) == SelectList(d)
  {
    var cs := SetupQueryBuilder(a, d, options).clauses;
    var wheres := cs[..|cs| - 1];
    assert forall j :: 0 <= j < |wheres| ==> wheres[j].Where? by {
      forall j | 0 <= j < |wheres| ensures wheres[j].Where? {
        assert wheres[j] == cs[j];
      }
    }
    NoSelectAmongWheres(wheres);
  }

  /** A stored row passes the `where`s `setupQueryBuilder` emits exactly when
      it matches the filter; without a filter every row passes. */
  lemma WheresMeanFilter(a: Adapter, d: Descriptor, options: FindOptions, row: Row)
    requires WellFormed(d)
    ensures SatisfiesWheres(row, SetupQueryBuilder(a, d, options).clauses)
        <==> options.where.None? || MatchesFilter(d, options.where.value, row)
  {
    var q := SetupQueryBuilder(a, d, options);
    if options.where.Some? {
      var filter := options.where.value;
      SetupTranslatesFilter(a, d, filter);
      if SatisfiesWheres(row, q.clauses) {
        forall i | 0 <= i < |d.columns| && d.columns[i].propertyKey in filter
          ensures d.columns[i].name in row && row[d.columns[i].name] == filter[d.columns[i].propertyKey]
        {
          var c := Where(d.columns[i].name, filter[d.columns[i].propertyKey]);
          assert c in q.clauses;
          var j :| 0 <= j < |q.clauses| && q.clauses[j] == c;
        }
      }
      if MatchesFilter(d, filter, row) {
        forall j | 0 <= j < |q.clauses| && q.clauses[j].Where?
          ensures q.clauses[j].column in row && row[q.clauses[j].column] == q.clauses[j].value
        {
          assert j < |q.clauses| - 1;
          assert IsFilterEntry(d, filter, q.clauses[j]);
        }
      }
    }
  }

  /** One declared column of a stored row survives the select and the de-aliasing. */
  lemma ColumnThroughAliases(d: Descriptor, row: Row, i: int)
    requires WellFormed(d)
    requires 0 <= i < |d.columns| && d.columns[i].name in row
    ensures d.columns[i].name in DeAlias(d, Project(d.tableName, SelectList(d), row))
    ensures DeAlias(d, Project(d.tableName, SelectList(d), row))[d.columns[i].name] == row[d.columns[i].name]
  {
    var t := d.tableName;
    var sel := SelectList(d);
    var back := AliasToName(d);
    var q := Qualify(t, row);
    var p := Remap(sel, q);
    QualifySpec(t, row, d.columns[i].name);
    RemapAt(sel, q, i);
    RemapAt(back, p, i);
  }

  /** Selecting a complete stored row through the aliased column list and
      de-aliasing the answer gives the stored row back. */
  lemma AliasRoundTrip(d: Descriptor, row: Row)
    requires WellFormed(d)
    requires row.Keys == ColumnNames(d)
    ensures DeAlias(d, Project(d.tableName, SelectList(d), row)) == row
  {
    var back := AliasToName(d);
    var p := Project(d.tableName, SelectList(d), row);
    var r := Remap(back, p);
    forall k | k in row ensures k in r && r[k] == row[k] {
      var i :| 0 <= i < |d.columns| && d.columns[i].name == k;
      ColumnThroughAliases(d, row, i);
    }
    forall k | k in r ensures k in row {
      RemapKeys(back, p, k);
      var i :| 0 <= i < |back| && back[i].1 == k && back[i].0 in p;
      assert d.columns[i].name == k;
    }
  }

  /** A complete stored row, selected and hydrated, yields a saved record
      whose column values are the stored row. */
  lemma HydrateSelectedRow(d: Descriptor, row: Row)
    requires WellFormed(d)
    requires row.Keys == ColumnNames(d)
    ensures GetValues(d, Hydrate(d, Project(d.tableName, SelectList(d), row))) == row
  {
    AliasRoundTrip(d, row);
    PropertyKeyRoundTrip(d, row);
    assert Restrict(row, ColumnNames(d)) == row;
  }

  /** One stored row through the statement `find` builds: it passes the
      `where`s exactly when it matches the filter, and its projection hydrates
      back to its own values. */
  lemma RowThroughFind(a: Adapter, d: Descriptor, options: FindOptions, row: Row)
    requires WellFormed(d)
    requires row.Keys == ColumnNames(d)
    ensures SatisfiesWheres(row, SetupQueryBuilder(a, d, options).clauses) <==> Passes(d, options.where, row)
    ensures Reread(d, SetupQueryBuilder(a, d, options).clauses, row) == row
  {
    var q := SetupQueryBuilder(a, d, options);
    assert SatisfiesWheres(row, q.clauses) <==> Passes(d, options.where, row) by {
      WheresMeanFilter(a, d, options, row);
    }
    assert Reread(d, q.clauses, row) == row by {
      SetupSelectsColumns(a, d, options);
      HydrateSelectedRow(d, row);
    }
  }

  /** When the statement's `where`s agree with the filter on every stored row
      and every row rereads as itself, the answer hydrates to the matching rows. */
  lemma {:induction false} AnswerIsMatching(d: Descriptor, clauses: seq<Clause>, filter: Option<Row>, rows: seq<Row>)
    requires forall k :: 0 <= k < |rows| ==> (SatisfiesWheres(rows[k], clauses) <==> Passes(d, filter, rows[k]))
    requires forall k :: 0 <= k < |rows| ==> Reread(d, clauses, rows[k]) == rows[k]
    ensures |AnswerRows(d.tableName, clauses, rows)| == |Matching(d, filter, rows)|
    ensures forall i :: 0 <= i < |AnswerRows(d.tableName, clauses, rows)| ==>
      GetValues(d, Hydrate(d, AnswerRows(d.tableName, clauses, rows)[i])) == Matching(d, filter, rows)[i]
    decreases |rows|
  {
    if |rows| > 0 {
      var answer := AnswerRows(d.tableName, clauses, rows);
      var expected := Matching(d, filter, rows);
      var rest := rows[1..];
      assert forall k :: 0 <= k < |rest| ==> rest[k] == rows[k + 1];
      AnswerIsMatching(d, clauses, filter, rest);
      var answerRest := AnswerRows(d.tableName, clauses, rest);
      var expectedRest := Matching(d, filter, rest);
      var passes := SatisfiesWheres(rows[0], clauses);
      var head := Project(d.tableName, SelectedPairs(clauses), rows[0]);
      assert answer == (if passes then [head] else []) + answerRest;
      assert expected == (if passes then [rows[0]] else []) + expectedRest;
      assert Reread(d, clauses, rows[0]) == rows[0];
      HydratedPrefix(d, passes, head, rows[0], answerRest, expectedRest);
    }
  }

  /** Prefixing one answer row that rereads as `row`, or none, keeps the
      answer hydrating pointwise to the expected rows. */
  lemma HydratedPrefix(d: Descriptor, passes: bool, head: Row, row: Row, answerRest: seq<Row>, expectedRest: seq<Row>)
    requires passes ==> GetValues(d, Hydrate(d, head)) == row
    requires |answerRest| == |expectedRest|
    requires forall i :: 0 <= i < |answerRest| ==> GetValues(d, Hydrate(d, answerRest[i])) == expectedRest[i]
    ensures var answer := (if passes then [head] else []) + answerRest;
            var expected := (if passes then [row] else []) + expectedRest;
            && |answer| == |expected|
            && forall i :: 0 <= i < |answer| ==> GetValues(d, Hydrate(d, answer[i])) == expected[i]
  {
  }

  /** The hypotheses of `AnswerIsMatching` for the statement `find` builds. */
  lemma FindStatementAgrees(a: Adapter, d: Descriptor, options: FindOptions, rows: seq<Row>)
    requires WellFormed(d)
    requires Complete(d, rows)
    ensures var q := SetupQueryBuilder(a, d, options);
      && (forall k :: 0 <= k < |rows| ==> (SatisfiesWheres(rows[k], q.clauses) <==> Passes(d, options.where, rows[k])))
      && (forall k :: 0 <= k < |rows| ==> Reread(d, q.clauses, rows[k]) == rows[k])
  {
    forall k | 0 <= k < |rows|
      ensures SatisfiesWheres(rows[k], SetupQueryBuilder(a, d, options).clauses) <==> Passes(d, options.where, rows[k])
      ensures Reread(d, SetupQueryBuilder(a, d, options).clauses, rows[k]) == rows[k]
    {
      RowThroughFind(a, d, options, rows[k]);
    }
  }

  /** Run against an in-memory table of complete rows, `find` returns one
      saved record per row that matches the filter (every row without one),
      in table order, each carrying exactly that row's values. */
  lemma FindOnMemoryTable(a: Adapter, d: Descriptor, options: FindOptions, t: StoredTable)
    requires WellFormed(d)
    requires t.name == d.tableName
    requires Complete(d, t.rows)
    ensures var q := SetupQueryBuilder(a, d, options);
            var found := Find(a, d, options, Ok(Answer(t, q)));
            var expected := Matching(d, options.where, t.rows);
            && found.outcome.Ok?
            && |found.outcome.value| == |expected|
            && forall i :: 0 <= i < |expected| ==>
                 found.outcome.value[i].saved && GetValues(d, found.outcome.value[i]) == expected[i]
  {
    var q := SetupQueryBuilder(a, d, options);
    FindStatementAgrees(a, d, options, t.rows);
    AnswerIsMatching(d, q.clauses, options.where, t.rows);
  }

  /** Against the same table, `findOne` returns `null` exactly when no row
      matches, and otherwise the first matching row's values. */
  lemma FindOneOnMemoryTable(a: Adapter, d: Descriptor, options: FindOptions, t: StoredTable)
    requires WellFormed(d)
    requires t.name == d.tableName
    requires Complete(d, t.rows)
    ensures var q := SetupQueryBuilder(a, d, options);
            var found := FindOne(a, d, options, Ok(Answer(t, q)));
            var expected := Matching(d, options.where, t.rows);
            && found.outcome.Ok?
            && (found.outcome.value.None? <==> expected == [])
            && (found.outcome.value.Some? ==>
                  found.outcome.value.value.saved && GetValues(d, found.outcome.value.value) == expected[0])
  {
    var q := SetupQueryBuilder(a, d, options);
    FindStatementAgrees(a, d, options, t.rows);
    AnswerIsMatching(d, q.clauses, options.where, t.rows);
  }
}
