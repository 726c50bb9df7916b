/** The manager: `save`, `find` and `findOne`.

    Each operation is a pure function of the adapter, the model's descriptor,
    the record or options, and an oracle `exec` standing for what executing
    the built statement returned: the result rows, or the backend error that
    the awaited promise rejects with. Each returns the statements it executed
    (builders, in execution order) together with its own outcome.
 */
module Manager {
  import opened Values
  import opened Metadata
  import opened QueryBuilder
  import opened Adapters

  // ---------------------------------------------------------------------
  // save
  // ---------------------------------------------------------------------

  /** The statements `save` executed and the record it resolves with. */
  datatype SaveResult = SaveResult(statements: seq<Builder>, outcome: Outcome<Record>)

  /** The UPDATE of the dirty path: scoped to the record's current primary
      key value and carrying the diff. */
  function UpdateStatement(a: Adapter, d: Descriptor, rec: Record, diff: Row): (q: Builder)
    ensures q == Builder(TableFacade, d.tableName, a.id,
      [Where(d.primaryKey.name, Lookup(rec.props, d.primaryKey.propertyKey)), Update(diff)])
  {
    Table(a, d.tableName)
      .Add(Where(d.primaryKey.name, Lookup(rec.props, d.primaryKey.propertyKey)))
      .Add(Update(diff))
  }

  /** The INSERT of the unsaved path, with `returning(pk)` on postgres. */
  function InsertStatement(a: Adapter, d: Descriptor, values: Row): (q: Builder)
    ensures q == Builder(TableFacade, d.tableName, a.id,
      [Insert(values)] + (if a.dialect == Postgres then [Returning(d.primaryKey.name)] else []))
    ensures Returning(d.primaryKey.name) in q.clauses <==> a.dialect == Postgres
    ensures forall c :: c in q.clauses && c.Returning? ==> a.dialect == Postgres
  {
    var query := Table(a, d.tableName).Add(Insert(values));
    if a.dialect == Postgres then query.Add(Returning(d.primaryKey.name)) else query
  }

  /** The id an insert produced: on postgres the primary-key column of the
      last returned row (reading the last element of an empty result throws),
      elsewhere the adapter's `lastInsertedId` as the backend left it. */
  function InsertedId(a: Adapter, pk: Column, rows: seq<Row>): (id: Outcome<Value>)
    ensures a.dialect == Postgres && |rows| > 0 ==> id == Ok(Lookup(rows[|rows| - 1], pk.name))
    ensures a.dialect == Postgres && |rows| == 0 ==> id == Failed(NoReturnedRow)
    ensures a.dialect != Postgres ==> id == Ok(Number(a.lastInsertedId))
  {
    if a.dialect == Postgres then
      if |rows| == 0 then Failed(NoReturnedRow) else Ok(Lookup(rows[|rows| - 1], pk.name))
    else
      Ok(Number(a.lastInsertedId))
  }

  /** `Object.assign(model, mapValueProperties(class, values, "propertyKey"))`:
      writes every value that maps to a property, leaves the rest alone. */
  function WriteBack(d: Descriptor, rec: Record, values: Row): (r: Record)
    ensures r.saved == rec.saved && r.snapshot == rec.snapshot
    ensures forall k :: k in ToPropertyKeys(d, values) ==> k in r.props && r.props[k] == ToPropertyKeys(d, values)[k]
    ensures forall k :: k !in ToPropertyKeys(d, values) ==>
      (k in r.props <==> k in rec.props) && (k in rec.props ==> r.props[k] == rec.props[k])
  {
    rec.(props := rec.props + ToPropertyKeys(d, values))
  }

  /** `Manager.save(model)`. */
  function Save(a: Adapter, d: Descriptor, rec: Record, exec: Outcome<seq<Row>>): (r: SaveResult)
    // saved and clean: no I/O, properties untouched
    ensures rec.saved && !CompareWithOriginal(d, rec).isDirty ==>
      r.statements == [] && r.outcome.Ok? && r.outcome.value.props == rec.props
    // saved and dirty: one UPDATE of exactly the diff, scoped by the current primary key
    ensures rec.saved && CompareWithOriginal(d, rec).isDirty ==>
      r.statements == [Builder(TableFacade, d.tableName, a.id,
        [Where(d.primaryKey.name, Lookup(rec.props, d.primaryKey.propertyKey)),
         Update(CompareWithOriginal(d, rec).diff)])]
    // unsaved: one INSERT of all values, and nothing else but `returning` on postgres
    ensures !rec.saved ==>
      r.statements == [Builder(TableFacade, d.tableName, a.id,
        [Insert(GetValues(d, rec))] + (if a.dialect == Postgres then [Returning(d.primaryKey.name)] else []))]
    // the update path never rewrites properties
    ensures rec.saved && r.outcome.Ok? ==> r.outcome.value.props == rec.props
    // a backend failure propagates unchanged, and nothing else fails but an empty RETURNING result
    ensures r.statements != [] && exec.Failed? ==> r.outcome == Failed(exec.error)
    ensures r.outcome.Failed? ==>
      exec.Failed? || (!rec.saved && a.dialect == Postgres && exec.value == [] && r.outcome.error == NoReturnedRow)
    // an INSERT ... RETURNING that comes back empty fails: there is no last row to read the id from
    ensures !rec.saved && a.dialect == Postgres && exec == Ok([]) ==> r.outcome == Failed(NoReturnedRow)
    // on success the record is saved and its snapshot is current
    ensures r.outcome.Ok? ==> Synced(d, r.outcome.value)
  {
    if rec.saved then
      var comparison := CompareWithOriginal(d, rec);
      if !comparison.isDirty then
        SaveResult([], Ok(MarkSaved(d, rec)))
      else
        var statement := UpdateStatement(a, d, rec, comparison.diff);
        match exec
        case Failed(e) => SaveResult([statement], Failed(e))
        case Ok(_) => SaveResult([statement], Ok(MarkSaved(d, rec)))
    else
      var values := GetValues(d, rec);
      var statement := InsertStatement(a, d, values);
      match exec
      case Failed(e) => SaveResult([statement], Failed(e))
      case Ok(rows) =>
        match InsertedId(a, d.primaryKey, rows)
        case Failed(e) => SaveResult([statement], Failed(e))
        case Ok(id) =>
          SaveResult([statement], Ok(MarkSaved(d, WriteBack(d, rec, values[d.primaryKey.name := id]))))
  }

  /** `returning(pk)` is requested exactly on the insert path of the postgres dialect. */
  lemma ReturningOnlyOnPostgresInsert(a: Adapter, d: Descriptor, rec: Record, exec: Outcome<seq<Row>>)
    ensures (exists s, c :: s in Save(a, d, rec, exec).statements && c in s.clauses && c.Returning?)
        <==> !rec.saved && a.dialect == Postgres
  {
    var r := Save(a, d, rec, exec);
    if !rec.saved {
      var s := InsertStatement(a, d, GetValues(d, rec));
      assert r.statements == [s];
      if a.dialect == Postgres {
        var c := Returning(d.primaryKey.name);
        assert s in r.statements && c in s.clauses && c.Returning?;
      }
    } else if r.statements != [] {
      assert forall c :: c in r.statements[0].clauses ==> !c.Returning?;
    }
  }

  /** What the insert path sends and then writes back: all current values
      with the new id under the primary-key column. */
  function InsertedValues(d: Descriptor, rec: Record, id: Value): Row
  {
    GetValues(d, rec)[d.primaryKey.name := id]
  }

  /** `Object.assign` of the property-keyed values: every property whose
      column is in `values` takes that value, every other property is kept. */
  lemma WriteBackSpec(d: Descriptor, rec: Record, values: Row)
    requires WellFormed(d)
    ensures forall i :: 0 <= i < |d.columns| ==>
      (d.columns[i].propertyKey in WriteBack(d, rec, values).props <==>
        d.columns[i].propertyKey in rec.props || d.columns[i].name in values)
    ensures forall i :: 0 <= i < |d.columns| && d.columns[i].name in values ==>
      WriteBack(d, rec, values).props[d.columns[i].propertyKey] == values[d.columns[i].name]
    ensures forall i :: 0 <= i < |d.columns| && d.columns[i].name !in values && d.columns[i].propertyKey in rec.props ==>
      WriteBack(d, rec, values).props[d.columns[i].propertyKey] == rec.props[d.columns[i].propertyKey]
    ensures forall k :: k !in PropertyKeys(d) ==>
      (k in WriteBack(d, rec, values).props <==> k in rec.props)
      && (k in rec.props ==> WriteBack(d, rec, values).props[k] == rec.props[k])
  {
    ToPropertyKeysSpec(d, values);
  }

  /** After a successful insert the primary-key property holds the new id,
      every mapped property holds the value written back for its column,
      properties that map to no column are untouched, and the snapshot is
      exactly the inserted values including the id. */
  lemma InsertWritesBack(a: Adapter, d: Descriptor, rec: Record, rows: seq<Row>)
    requires WellFormed(d)
    requires !rec.saved
    requires InsertedId(a, d.primaryKey, rows).Ok?
    ensures var r := Save(a, d, rec, Ok(rows));
            var id := InsertedId(a, d.primaryKey, rows).value;
            var inserted := InsertedValues(d, rec, id);
            && r.outcome.Ok?
            && d.primaryKey.propertyKey in r.outcome.value.props
            && r.outcome.value.props[d.primaryKey.propertyKey] == id
            && (forall i :: 0 <= i < |d.columns| ==>
                  (d.columns[i].propertyKey in r.outcome.value.props <==> d.columns[i].name in inserted))
            && (forall i :: 0 <= i < |d.columns| && d.columns[i].name in inserted ==>
                  r.outcome.value.props[d.columns[i].propertyKey] == inserted[d.columns[i].name])
            && (forall k :: k !in PropertyKeys(d) ==>
                  (k in r.outcome.value.props <==> k in rec.props)
                  && (k in rec.props ==> r.outcome.value.props[k] == rec.props[k]))
            && r.outcome.value.snapshot == inserted
  {
    var id := InsertedId(a, d.primaryKey, rows).value;
    var inserted := InsertedValues(d, rec, id);
    var written := WriteBack(d, rec, inserted);
    assert Save(a, d, rec, Ok(rows)).outcome == Ok(MarkSaved(d, written));
    var pkIndex :| 0 <= pkIndex < |d.columns| && d.columns[pkIndex] == d.primaryKey;
    WriteBackSpec(d, rec, inserted);
    InsertedColumns(d, rec, id);
    WrittenValuesAreInserted(d, written, inserted);
  }

  /** A column is among the inserted values exactly when its property was set
      or it is the primary key. */
  lemma InsertedColumns(d: Descriptor, rec: Record, id: Value)
    requires WellFormed(d)
    ensures InsertedValues(d, rec, id).Keys <= ColumnNames(d)
    ensures forall i :: 0 <= i < |d.columns| && d.columns[i].propertyKey in rec.props ==>
      d.columns[i].name in InsertedValues(d, rec, id)
  {
    ToColumnNamesSpec(d, rec.props);
    var pkIndex :| 0 <= pkIndex < |d.columns| && d.columns[pkIndex] == d.primaryKey;
    assert d.primaryKey.name in ColumnNames(d);
  }

  /** When every mapped property holds its column's value and a property is
      set exactly when its column is present, `getValues` gives back those values. */
  lemma WrittenValuesAreInserted(d: Descriptor, written: Record, inserted: Row)
    requires WellFormed(d)
    requires inserted.Keys <= ColumnNames(d)
    requires forall i :: 0 <= i < |d.columns| ==>
      (d.columns[i].propertyKey in written.props <==> d.columns[i].name in inserted)
    requires forall i :: 0 <= i < |d.columns| && d.columns[i].name in inserted ==>
      written.props[d.columns[i].propertyKey] == inserted[d.columns[i].name]
    ensures GetValues(d, written) == inserted
  {
    ToColumnNamesSpec(d, written.props);
    var snapshot := GetValues(d, written);
    forall n | n in snapshot ensures n in inserted && snapshot[n] == inserted[n] {
      var i :| 0 <= i < |d.columns| && d.columns[i].name == n;
    }
    forall n | n in inserted ensures n in snapshot {
      var i :| 0 <= i < |d.columns| && d.columns[i].name == n;
    }
  }

  /** On postgres the new primary key is read from the last returned row,
      however many rows came back. */
  lemma PostgresIdFromLastRow(a: Adapter, d: Descriptor, rec: Record, rows: seq<Row>)
    requires WellFormed(d) && !rec.saved && a.dialect == Postgres
    requires |rows| > 0
    ensures var r := Save(a, d, rec, Ok(rows));
            && r.outcome.Ok?
            && d.primaryKey.propertyKey in r.outcome.value.props
            && r.outcome.value.props[d.primaryKey.propertyKey] == Lookup(rows[|rows| - 1], d.primaryKey.name)
  {
    InsertWritesBack(a, d, rec, rows);
  }

  /** On any other dialect the new primary key is the adapter's `lastInsertedId`
      and the result rows are not consulted. */
  lemma OtherDialectIdFromAdapter(a: Adapter, d: Descriptor, rec: Record, rows: seq<Row>)
    requires WellFormed(d) && !rec.saved && a.dialect != Postgres
    ensures var r := Save(a, d, rec, Ok(rows));
            && r.outcome.Ok?
            && d.primaryKey.propertyKey in r.outcome.value.props
            && r.outcome.value.props[d.primaryKey.propertyKey] == Number(a.lastInsertedId)
  {
    InsertWritesBack(a, d, rec, rows);
  }

  /** A record a successful `save` returned is saved again without any I/O
      and comes back unchanged, whatever the backend would have answered. */
  lemma SaveIsIdempotent(a: Adapter, d: Descriptor, rec: Record, exec: Outcome<seq<Row>>,
                         a': Adapter, exec': Outcome<seq<Row>>)
    requires Save(a, d, rec, exec).outcome.Ok?
    ensures var saved := Save(a, d, rec, exec).outcome.value;
            Save(a', d, saved, exec') == SaveResult([], Ok(saved))
  {
  }

  /** Changing one property of a synced record to a new value makes the
      next `save` send an UPDATE whose diff is exactly that one column. */
  lemma SaveAfterOneChange(a: Adapter, d: Descriptor, rec: Record, i: int, v: Value, exec: Outcome<seq<Row>>)
    requires WellFormed(d) && Synced(d, rec)
    requires 0 <= i < |d.columns|
    requires d.columns[i].propertyKey !in rec.props || rec.props[d.columns[i].propertyKey] != v
    ensures var changed := rec.(props := rec.props[d.columns[i].propertyKey := v]);
            Save(a, d, changed, exec).statements
              == [Builder(TableFacade, d.tableName, a.id,
                   [Where(d.primaryKey.name, Lookup(changed.props, d.primaryKey.propertyKey)),
                    Update(map[d.columns[i].name := v])])]
  {
    var changed := rec.(props := rec.props[d.columns[i].propertyKey := v]);
    var n := d.columns[i].name;
    GetValuesAfterChange(d, rec, i, v);
    ToColumnNamesSpec(d, rec.props);
    var current := GetValues(d, changed);
    assert current == rec.snapshot[n := v];
    assert n !in rec.snapshot || rec.snapshot[n] != v;
    var c := CompareWithOriginal(d, changed);
    assert n in c.diff;
    assert c.diff == map[n := v];
  }

  /** Changing the primary-key property of a synced record and saving scopes
      the UPDATE by the NEW key value, not the one the row is stored under:
      the `where` reads the record's current key, as the source does. */
  lemma SaveAfterKeyChange(a: Adapter, d: Descriptor, rec: Record, v: Value, exec: Outcome<seq<Row>>)
    requires WellFormed(d) && Synced(d, rec)
    requires d.primaryKey.propertyKey !in rec.props || rec.props[d.primaryKey.propertyKey] != v
    ensures var changed := rec.(props := rec.props[d.primaryKey.propertyKey := v]);
            Save(a, d, changed, exec).statements
              == [Builder(TableFacade, d.tableName, a.id,
                   [Where(d.primaryKey.name, v), Update(map[d.primaryKey.name := v])])]
  {
    var i :| 0 <= i < |d.columns| && d.columns[i] == d.primaryKey;
    SaveAfterOneChange(a, d, rec, i, v, exec);
  }

  // ---------------------------------------------------------------------
  // find / findOne
  // ---------------------------------------------------------------------

  /** `FindOptions`: an optional equality filter keyed by property key. */
  datatype FindOptions = FindOptions(where: Option<Row>)

  /** One `where(column, value)` per entry of a column-keyed filter, in
      declared column order. */
  function WhereEntries(cols: seq<Column>, values: Row): (w: seq<Clause>)
    ensures |w| <= |cols|
    ensures forall j :: 0 <= j < |w| ==> w[j].Where? && w[j].column in values && w[j].value == values[w[j].column]
    decreases |cols|
  {
    if |cols| == 0 then []
    else
      (if cols[0].name in values then [Where(cols[0].name, values[cols[0].name])] else [])
      + WhereEntries(cols[1..], values)
  }

  /** Every emitted clause is a `where` for an entry of the filter, every entry
      of the filter that names a column is emitted, and with distinct column
      names no column is constrained twice. */
  lemma {:induction false} WhereEntriesSpec(cols: seq<Column>, values: Row)
    ensures forall j :: 0 <= j < |WhereEntries(cols, values)| ==>
      var c := WhereEntries(cols, values)[j];
      && c.Where? && c.column in values && c.value == values[c.column]
      && exists i :: 0 <= i < |cols| && cols[i].name == c.column
    ensures forall i :: 0 <= i < |cols| && cols[i].name in values ==>
      Where(cols[i].name, values[cols[i].name]) in WhereEntries(cols, values)
    ensures (forall i, j :: 0 <= i < j < |cols| ==> cols[i].name != cols[j].name) ==>
      forall j, k :: 0 <= j < k < |WhereEntries(cols, values)| ==>
        WhereEntries(cols, values)[j].column != WhereEntries(cols, values)[k].column
  {
    WhereEntriesNameColumns(cols, values);
    WhereEntriesComplete(cols, values);
    if forall i, j :: 0 <= i < j < |cols| ==> cols[i].name != cols[j].name {
      WhereEntriesDistinct(cols, values);
    }
  }

  /** Some column of `cols` is called `name`. */
  predicate NamesColumn(cols: seq<Column>, name: string)
  {
    exists i :: 0 <= i < |cols| && cols[i].name == name
  }

  /** Every emitted `where` names one of the columns. */
  lemma {:induction false} WhereEntriesNameColumns(cols: seq<Column>, values: Row)
    ensures forall j :: 0 <= j < |WhereEntries(cols, values)| ==>
      NamesColumn(cols, WhereEntries(cols, values)[j].column)
    decreases |cols|
  {
    if |cols| > 0 {
      var rest := cols[1..];
      WhereEntriesNameColumns(rest, values);
      var w := WhereEntries(cols, values);
      var head := if cols[0].name in values then [Where(cols[0].name, values[cols[0].name])] else [];
      var tail := WhereEntries(rest, values);
      assert w == head + tail;
      forall j | 0 <= j < |w|
        ensures NamesColumn(cols, w[j].column)
      {
        if j >= |head| {
          assert NamesColumn(rest, tail[j - |head|].column);
          var i :| 0 <= i < |rest| && rest[i].name == tail[j - |head|].column;
          assert cols[i + 1] == rest[i];
        } else {
          assert cols[0].name == w[j].column;
        }
      }
    }
  }

  /** Every filter entry that names a column is emitted. */
  lemma {:induction false} WhereEntriesComplete(cols: seq<Column>, values: Row)
    ensures forall i :: 0 <= i < |cols| && cols[i].name in values ==>
      Where(cols[i].name, values[cols[i].name]) in WhereEntries(cols, values)
    decreases |cols|
  {
    if |cols| > 0 {
      var rest := cols[1..];
      WhereEntriesComplete(rest, values);
      var w := WhereEntries(cols, values);
      var head := if cols[0].name in values then [Where(cols[0].name, values[cols[0].name])] else [];
      var tail := WhereEntries(rest, values);
      assert w == head + tail;
      forall i | 0 <= i < |cols| && cols[i].name in values
        ensures Where(cols[i].name, values[cols[i].name]) in w
      {
        if i > 0 {
          assert rest[i - 1] == cols[i];
          assert Where(cols[i].name, values[cols[i].name]) in tail;
        } else {
          assert w[0] == Where(cols[0].name, values[cols[0].name]);
        }
      }
    }
  }

  /** With distinct column names, no two emitted `where`s name the same column. */
  lemma {:induction false} WhereEntriesDistinct(cols: seq<Column>, values: Row)
    requires forall i, j :: 0 <= i < j < |cols| ==> cols[i].name != cols[j].name
    ensures forall j, k :: 0 <= j < k < |WhereEntries(cols, values)| ==>
      WhereEntries(cols, values)[j].column != WhereEntries(cols, values)[k].column
    decreases |cols|
  {
    if |cols| > 0 {
      var rest := cols[1..];
      assert forall i, j :: 0 <= i < j < |rest| ==> rest[i].name != rest[j].name by {
        forall i, j | 0 <= i < j < |rest| ensures rest[i].name != rest[j].name {
          assert rest[i] == cols[i + 1] && rest[j] == cols[j + 1];
        }
      }
      WhereEntriesDistinct(rest, values);
      WhereEntriesNameColumns(rest, values);
      var w := WhereEntries(cols, values);
      var head := if cols[0].name in values then [Where(cols[0].name, values[cols[0].name])] else [];
      var tail := WhereEntries(rest, values);
      assert w == head + tail;
      forall j, k | 0 <= j < k < |w| ensures w[j].column != w[k].column {
        if j < |head| {
          assert NamesColumn(rest, tail[k - |head|].column);
          var m :| 0 <= m < |rest| && rest[m].name == tail[k - |head|].column;
          assert rest[m] == cols[m + 1];
        }
      }
    }
  }

  /** `setupQueryBuilder(modelClass, options)`: a `Table` façade on the
      model's table with the `where` calls of the filter, if there is one,
      followed by exactly one `select` of the aliased column list. */
  function SetupQueryBuilder(a: Adapter, d: Descriptor, options: FindOptions): (q: Builder)
    ensures q.facade == TableFacade && q.tableName == d.tableName && q.adapterId == a.id
    ensures |q.clauses| > 0 && q.clauses[|q.clauses| - 1] == Select(SelectList(d))
    ensures forall j :: 0 <= j < |q.clauses| - 1 ==> q.clauses[j].Where?
    ensures options.where.None? ==> q.clauses == [Select(SelectList(d))]
  {
    var query := Table(a, d.tableName);
    var filtered :=
      match options.where
      case None => query
      case Some(filter) => query.(clauses := query.clauses + WhereEntries(d.columns, ToColumnNames(d, filter)));
    WhereEntriesSpec(d.columns, if options.where.Some? then ToColumnNames(d, options.where.value) else map[]);
    filtered.Add(Select(SelectList(d)))
  }

  /** `c` is `where(column, value)` for a declared column whose property the
      filter constrains to `value`. */
  predicate IsFilterEntry(d: Descriptor, filter: Row, c: Clause)
  {
    && c.Where?
    && exists i :: 0 <= i < |d.columns| && d.columns[i].name == c.column
                && d.columns[i].propertyKey in filter && c.value == filter[d.columns[i].propertyKey]
  }

  /** With a filter, the `where` calls are exactly the filter's entries for
      declared properties, re-keyed to column names, each column at most once;
      filter keys that name no property are dropped. */
  lemma SetupTranslatesFilter(a: Adapter, d: Descriptor, filter: Row)
    requires WellFormed(d)
    ensures var q := SetupQueryBuilder(a, d, FindOptions(Some(filter)));
      forall j :: 0 <= j < |q.clauses| - 1 ==> IsFilterEntry(d, filter, q.clauses[j])
    ensures var q := SetupQueryBuilder(a, d, FindOptions(Some(filter)));
      forall i :: 0 <= i < |d.columns| && d.columns[i].propertyKey in filter ==>
        Where(d.columns[i].name, filter[d.columns[i].propertyKey]) in q.clauses
    ensures var q := SetupQueryBuilder(a, d, FindOptions(Some(filter)));
      forall j, k :: 0 <= j < k < |q.clauses| - 1 ==> q.clauses[j].column != q.clauses[k].column
  {
    var values := ToColumnNames(d, filter);
    var q := SetupQueryBuilder(a, d, FindOptions(Some(filter)));
    var w := WhereEntries(d.columns, values);
    WhereEntriesSpec(d.columns, values);
    ToColumnNamesSpec(d, filter);
    assert q.clauses == w + [Select(SelectList(d))];
    forall j | 0 <= j < |q.clauses| - 1
      ensures IsFilterEntry(d, filter, q.clauses[j])
    {
      assert q.clauses[j] == w[j];
      var i :| 0 <= i < |d.columns| && d.columns[i].name == w[j].column;
      assert d.columns[i].propertyKey in filter;
      assert w[j] == Where(d.columns[i].name, filter[d.columns[i].propertyKey]);
      assert q.clauses[j] == Where(d.columns[i].name, filter[d.columns[i].propertyKey]);
    }
    forall i | 0 <= i < |d.columns| && d.columns[i].propertyKey in filter
      ensures Where(d.columns[i].name, filter[d.columns[i].propertyKey]) in q.clauses
    {
      assert Where(d.columns[i].name, values[d.columns[i].name]) in w;
    }
  }

  /** The records `find` resolves with. */
  datatype FindResult = FindResult(statement: Builder, outcome: Outcome<seq<Record>>)

  /** `Manager.find(modelClass, options)`: every returned row hydrated as a
      saved record, in the backend's order. */
  function Find(a: Adapter, d: Descriptor, options: FindOptions, exec: Outcome<seq<Row>>): (r: FindResult)
    ensures r.statement == SetupQueryBuilder(a, d, options)
    ensures exec.Failed? ==> r.outcome == Failed(exec.error)
    ensures exec.Ok? ==> r.outcome.Ok? && |r.outcome.value| == |exec.value|
    ensures exec.Ok? ==> forall i :: 0 <= i < |exec.value| ==> r.outcome.value[i] == Hydrate(d, exec.value[i])
    ensures r.outcome.Ok? ==> forall i :: 0 <= i < |r.outcome.value| ==> Synced(d, r.outcome.value[i])
  {
    var query := SetupQueryBuilder(a, d, options);
    match exec
    case Failed(e) => FindResult(query, Failed(e))
    case Ok(rows) => FindResult(query, Ok(seq(|rows|, i requires 0 <= i < |rows| => Hydrate(d, rows[i]))))
  }

  /** The record `findOne` resolves with, `None` standing for `null`. */
  datatype FindOneResult = FindOneResult(statement: Builder, outcome: Outcome<Option<Record>>)

  /** `Manager.findOne(modelClass, options)`: `null` on an empty result,
      otherwise the first row hydrated as a saved record. */
  function FindOne(a: Adapter, d: Descriptor, options: FindOptions, exec: Outcome<seq<Row>>): (r: FindOneResult)
    ensures r.statement == SetupQueryBuilder(a, d, options)
    ensures exec.Failed? ==> r.outcome == Failed(exec.error)
    ensures exec.Ok? ==> (r.outcome == Ok(None) <==> |exec.value| == 0)
    ensures exec.Ok? && |exec.value| > 0 ==> r.outcome == Ok(Some(Hydrate(d, exec.value[0])))
    ensures r.outcome.Ok? && r.outcome.value.Some? ==> Synced(d, r.outcome.value.value)
  {
    var query := SetupQueryBuilder(a, d, options);
    match exec
    case Failed(e) => FindOneResult(query, Failed(e))
    case Ok(rows) =>
      if |rows| >= 1 then FindOneResult(query, Ok(Some(Hydrate(d, rows[0]))))
      else FindOneResult(query, Ok(None))
  }

  /** `findOne` issues the same query as `find` and resolves with the first
      record `find` would, or `null` exactly when `find` finds nothing. */
  lemma FindOneIsFirstOfFind(a: Adapter, d: Descriptor, options: FindOptions, exec: Outcome<seq<Row>>)
    ensures FindOne(a, d, options, exec).statement == Find(a, d, options, exec).statement
    ensures Find(a, d, options, exec).outcome.Failed? <==> FindOne(a, d, options, exec).outcome.Failed?
    ensures Find(a, d, options, exec).outcome.Ok? ==>
      var all := Find(a, d, options, exec).outcome.value;
      var one := FindOne(a, d, options, exec).outcome.value;
      (one.None? <==> all == []) && (one.Some? ==> one.value == all[0])
  {
  }
}
