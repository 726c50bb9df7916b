# cotton persistence core, modelled in Dafny

This project models the persistence orchestration of the cotton ORM: the
`Manager` that decides what a `save`, `find` or `findOne` sends to the
database, and the backend-independent part of the `Adapter` (its model
registry, its builder factories, `truncateModels`).

Everything below the query-builder calls is a parameter:

- A model class is an explicit `Descriptor`: table name, ordered
  `(name, propertyKey)` columns and the primary key.
- A model instance is a `Record`: property values, the hidden `saved` flag
  and the snapshot taken at the last save or load.
- A query builder is a `Builder`: the table, the owning adapter and the list
  of chained calls (`where`, `select`, `insert`, `update`, `returning`).
  Executing a builder is recorded by listing it among the statements an
  operation returns.
- What the backend answers is an input oracle: the result rows, or the
  error the awaited call rejects with. `adapter.lastInsertedId` is an adapter
  field holding the id the backend reported for the last insert.

`save`, `find` and `findOne` are pure functions returning the statements
they executed and the record(s) they resolve with.

The helpers of `utils/models.ts` are not part of this model. `Metadata`
gives each one an explicit definition, and those definitions are the
assumptions the proofs rest on:

- `getValues` and `mapValueProperties` re-key a map along the declared
  columns, in declared order. Absent properties are skipped and keys that
  name no column are dropped.
- `compareWithOriginal` reports the current column values that are missing
  from the snapshot or differ from it.
- `setSaved(model, true)` marks the record saved and resets its snapshot to
  the current values.
- `mapSingleQueryResult`/`createModel` undo the `table__column` aliasing and
  build a saved record from the row.

`MemoryBackend` is a reference in-memory table that answers a select
statement by filtering on plain value equality and projecting the selected
columns. A `Null` filter value therefore matches a stored `Null`, unlike
SQL's three-valued `column = NULL`. It is used to state what `find` and `findOne`
return, independently of how the statement is built.

The manager reads `adapter.dialect` and `adapter.lastInsertedId`
(src/manager.ts:79, 87-89), but `adapter.ts` declares neither: it has
`type` (src/adapters/adapter.ts:30). The model follows the manager, so both
are fields of `Adapter`. The dialect test is `dialect == "postgres"`.

## Model

| member | source | states |
|---|---|---|
| Manager.Save | src/manager.ts:50-105 | Saved and clean: no statement, properties untouched. Saved and dirty: exactly one statement, `where(pk.name, record[pk.propertyKey])` then `update(diff)` with the diff unchanged. Unsaved: exactly one statement, `insert(getValues)` plus `returning(pk.name)` only on postgres, never an update or where. A backend error propagates unchanged. The only other failure is an empty RETURNING result, and an empty RETURNING result always fails with `NoReturnedRow`. Every success ends with the record saved and its snapshot current. |
| Manager.WriteBack | src/manager.ts:94-98 | Every property the re-keyed values name takes that value. Every other property keeps its presence and value. The `saved` flag and the snapshot are untouched. |
| Manager.ReturningOnlyOnPostgresInsert | src/manager.ts:77-81 | Some executed statement carries `returning` if and only if the record was unsaved and the dialect is `"postgres"`. |
| Manager.InsertWritesBack | src/manager.ts:84-98 | After a successful insert, the primary-key property holds the new id. Every mapped property holds the inserted value of its column. A property set exactly when its column was inserted. Properties mapping to no column keep their presence and value. The snapshot equals the inserted values including the id. |
| Manager.WriteBackSpec | src/manager.ts:94-98 | `Object.assign` of the property-keyed values overwrites exactly the properties whose column is present. Every other property keeps its presence and value. |
| Manager.PostgresIdFromLastRow | src/manager.ts:86-92 | On postgres, with any non-empty result, the new primary key is the pk column of the last returned row, not the first. |
| Manager.OtherDialectIdFromAdapter | src/manager.ts:86-92 | On any other dialect the new primary key is the `Value.Number` of `adapter.lastInsertedId`, whatever rows came back. |
| Manager.SaveIsIdempotent | src/manager.ts:56-104 | A record returned by a successful save comes back unchanged from a second save, with no statement, whatever the adapter or backend. |
| Manager.SaveAfterOneChange | src/manager.ts:56-68 | Change one mapped property of a synced record to a new value: the next save sends one update whose diff is exactly that column with the new value, scoped by the current primary key. |
| Manager.SaveAfterKeyChange | src/manager.ts:56-68 | Change the primary-key property of a synced record: the next save's update is scoped by the NEW key value, with the diff holding just that column. |
| Manager.WhereEntries | src/manager.ts:172-174 | Emits at most as many clauses as there are declared columns. Every clause is a `where(column, value)` taken from an entry of the column-keyed filter. |
| Manager.WhereEntriesSpec | src/manager.ts:171-174 | Every emitted clause is `where(column, value)` for an entry of the column-keyed filter. Every entry naming a declared column is emitted. With distinct column names, no column is constrained twice. |
| Manager.SetupQueryBuilder | src/manager.ts:162-186 | The builder is a `Table` façade on the model's table and this adapter. Its last call is the one `select` of the aliased column list, and every earlier call is a `where`. Without a filter the `select` is the only call. |
| Manager.SetupTranslatesFilter | src/manager.ts:169-175 | With a filter, the `where` calls are exactly the filter entries for declared properties, re-keyed from property key to column name, each column at most once. |
| Manager.Find | src/manager.ts:113-125 | Issues the statement `setupQueryBuilder` builds. A backend error propagates. Otherwise there is one hydrated record per row, in backend order, each saved with its snapshot current. |
| Manager.FindOne | src/manager.ts:134-154 | Same statement as `find`. Resolves with `null` if and only if the result is empty, otherwise with `result[0]` hydrated as a saved record. |
| Manager.FindOneIsFirstOfFind | src/manager.ts:113-154 | `findOne` issues the same statement as `find` and fails exactly when `find` fails. It resolves with `null` exactly when `find` finds nothing, otherwise with `find`'s first record. |
| MemoryBackend.WheresMeanFilter | src/manager.ts:169-175 | A stored row passes the emitted `where` calls if and only if it matches the filter property by property. Without a filter every row passes. |
| MemoryBackend.AliasRoundTrip | src/manager.ts:177-183 | A complete stored row selected through the `[table.col, table__col]` list and then de-aliased is the stored row again. |
| MemoryBackend.HydrateSelectedRow | src/manager.ts:144-150 | A complete stored row, selected and hydrated, yields a record whose column values are exactly that row. |
| MemoryBackend.FindOnMemoryTable | src/manager.ts:113-125 | Against an in-memory table of complete rows, `find` returns one saved record per matching row, in table order, each with exactly that row's values. Without a filter that is every row. |
| MemoryBackend.FindOneOnMemoryTable | src/manager.ts:134-154 | Against the same table, `findOne` returns `null` exactly when no row matches, and otherwise the first matching row's values as a saved record. |
| Metadata.CompareWithOriginal | src/manager.ts:57-59 | `isDirty` holds exactly when some current column value is missing from the snapshot or differs from it, and exactly when the diff is non-empty. The diff holds exactly the changed columns, each with its current value. |
| Metadata.MarkSaved | src/manager.ts:102 | The properties are untouched, and the record ends saved with its snapshot equal to its current column values. |
| Metadata.SelectList | src/manager.ts:177-182 | One pair per declared column, and for a well-formed model no two aliases collide. The `[table.col, table__col]` shape of the pairs is in the definition; `AliasRoundTrip` states what it achieves. |
| Metadata.ToColumnNamesSpec | src/manager.ts:171 | Re-keying a filter to column names keeps a column exactly when its property is present, with the property's value. Nothing outside the declared columns survives. |
| Metadata.ToPropertyKeysSpec | src/manager.ts:97 | Re-keying values to property keys keeps a property exactly when its column is present, with the column's value. Nothing outside the declared properties survives. |
| Metadata.PropertyKeyRoundTrip | src/manager.ts:97 | Re-keying column values to property keys and back returns them, restricted to declared columns. |
| Metadata.GetValuesAfterChange | src/manager.ts:57 | Setting one mapped property changes exactly that column of the record's current values. |
| Metadata.Hydrate | src/manager.ts:146-150 | A hydrated record is saved and its snapshot equals its current values. |
| Adapters.NewAdapter | src/adapters/adapter.ts:28-29 | A fresh adapter's `getModels()` is empty. |
| Adapters.NewQueryBuilder | src/adapters/adapter.ts:65-67 | `queryBuilder(name)` is a fresh builder with no calls, bound to `name` and to this adapter. |
| Adapters.Table | src/adapters/adapter.ts:91-93 | `table(name)` is a fresh `Table` façade with no calls, bound to `name` and to this adapter. |
| Adapters.AddModel | src/adapters/adapter.ts:74-77 | `getModels()` becomes the previous list with `m` appended, without de-duplication. `m`'s back-reference is this adapter. Other classes' back-references and the adapter's other fields are unchanged. |
| Adapters.RegisterAllAppends | src/adapters/adapter.ts:74-84 | After registering a sequence of classes, `getModels()` is the earlier list followed by that sequence, in call order with repeats kept. Each class points back at this adapter, and other classes are untouched. |
| Adapters.SecondRegistrationWins | src/adapters/adapter.ts:74-77 | Registering a class with a second adapter moves its back-reference there. The class stays in the first adapter's list. |
| Adapters.TruncateModels | src/adapters/adapter.ts:98-102 | Calls truncate once per registered entry, in registration order, stopping at the first failure. Success holds if and only if every truncate succeeded, and then every entry was called. On failure the calls are exactly a prefix ending at the first failing entry, and its error propagates. |

The update statement is scoped by the record's current primary-key property
(src/manager.ts:62-65). If that property itself was changed since the last
save, the `where` names the new key, not the one the row is stored under
(`SaveAfterKeyChange`). The model keeps this behaviour as written.

## Left out

- The abstract `query`, `execute`, `connect` and `disconnect` (src/adapters/adapter.ts:37-58) are backend I/O. Only their results appear, as the `exec` oracle and the `lastInsertedId` field.
- Promises and `await`: each operation is one sequential step. Concurrent saves of one instance are not modelled.
- `utils/models.ts` (reflection, `compareWithOriginal`, `mapValueProperties`, `createModel(s)`, `mapQueryResult`) is not part of this model. `Metadata` replaces each helper with the definition listed above, and those definitions are assumptions.
- The order of `Object.entries` over the re-keyed filter is taken to be declared column order. This is an assumption about `mapValueProperties`.
- `Model.truncate`, the SQL text assembly of `QueryBuilder`/`Table`, `QueryOptions` and `ConnectionOptions` (src/adapters/adapter.ts:6-21) are left out. They are foreign to the core or opaque.
- `DeepPartial` (src/manager.ts:21-25) is left out: a filter is a flat map from property key to value. Nested filters on relations are not modelled.
- Backend value coercion and the `as number` cast on the id (src/manager.ts:88) are not modelled. Values are one small sum type compared by equality.
- Field initialisers of `new modelClass()` are not modelled: a hydrated record starts with no properties besides those of the row.
- Adapters.GetModels: returns the registry as a value. The source returns its live private array, so a caller that mutates it changes what `truncateModels` iterates without setting back-references. That aliasing is not modelled.
- An empty result on the postgres insert path is a failure (`NoReturnedRow`), as reading a property of `result[-1]` throws. The INSERT has already been executed at that point, and the record stays unsaved.
- The insert half of the insert-then-find round trip is not modelled, because the in-memory backend answers selects only. `HydrateSelectedRow` covers the find half for any stored row.
