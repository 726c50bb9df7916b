/** The model metadata the persistence layer consults: an explicit descriptor
    per model class (table name, ordered columns, primary key) and a record
    that carries its property values together with the hidden `saved` flag
    and the snapshot taken at the last save or load.

    The functions below stand in for the reflection helpers of
    `utils/models.ts`, which is not part of this model: their behaviour here
    is the contract the manager relies on, stated as an assumption.
 */
module Metadata {
  import opened Values
  import opened Mapping

  /** A mapped column: its database name and the in-memory property that holds it. */
  datatype Column = Column(name: string, propertyKey: string)

  /** What the metadata provider knows about a model class. */
  datatype Descriptor = Descriptor(tableName: string, columns: seq<Column>, primaryKey: Column)

  /** A model instance: property values keyed by property key, plus the
      bookkeeping the manager keeps on it (snapshot keyed by column name). */
  datatype Record = Record(props: Row, saved: bool, snapshot: Row)

  /** The primary key is one of the columns, and neither column names nor
      property keys repeat. */
  predicate WellFormed(d: Descriptor)
  {
    && d.primaryKey in d.columns
    && (forall i, j :: 0 <= i < j < |d.columns| ==> d.columns[i].name != d.columns[j].name)
    && (forall i, j :: 0 <= i < j < |d.columns| ==> d.columns[i].propertyKey != d.columns[j].propertyKey)
  }

  function ColumnNames(d: Descriptor): set<string>
  {
    set i | 0 <= i < |d.columns| :: d.columns[i].name
  }

  function PropertyKeys(d: Descriptor): set<string>
  {
    set i | 0 <= i < |d.columns| :: d.columns[i].propertyKey
  }

  /** The entries of `m` whose key lies in `keys`. */
  function Restrict(m: Row, keys: set<string>): Row
  {
    map k | k in m && k in keys :: m[k]
  }

  function NameToKey(d: Descriptor): seq<(string, string)>
  {
    seq(|d.columns|, i requires 0 <= i < |d.columns| => (d.columns[i].name, d.columns[i].propertyKey))
  }

  function KeyToName(d: Descriptor): seq<(string, string)>
  {
    seq(|d.columns|, i requires 0 <= i < |d.columns| => (d.columns[i].propertyKey, d.columns[i].name))
  }

  /** `mapValueProperties(class, values, "propertyKey")`: re-keys a
      column-keyed map by property key, column by column in declared order. */
  function ToPropertyKeys(d: Descriptor, values: Row): Row
  {
    Remap(NameToKey(d), values)
  }

  /** `mapValueProperties(class, values, "name")`: re-keys a property-keyed
      map by column name; keys that name no column are dropped. */
  function ToColumnNames(d: Descriptor, values: Row): Row
  {
    Remap(KeyToName(d), values)
  }

  /** `getValues(model)`: the record's column values, keyed by column name;
      a column whose property is absent is left out. */
  function GetValues(d: Descriptor, rec: Record): Row
  {
    ToColumnNames(d, rec.props)
  }

  /** The result of `compareWithOriginal(model)`. */
  datatype Comparison = Comparison(isDirty: bool, diff: Row)

  /** The current column values that are missing from, or differ from, the snapshot. */
  function CompareWithOriginal(d: Descriptor, rec: Record): (c: Comparison)
    ensures c.isDirty <==> exists n :: n in GetValues(d, rec) && (n !in rec.snapshot || rec.snapshot[n] != GetValues(d, rec)[n])
    ensures c.isDirty <==> c.diff != map[]
    // the diff is minimal: exactly the changed columns, with their current values
    ensures forall n :: n in c.diff ==> n in GetValues(d, rec) && c.diff[n] == GetValues(d, rec)[n]
    ensures forall n :: n in c.diff ==> n !in rec.snapshot || rec.snapshot[n] != GetValues(d, rec)[n]
    ensures forall n :: n in GetValues(d, rec) && (n !in rec.snapshot || rec.snapshot[n] != GetValues(d, rec)[n]) ==> n in c.diff
  {
    var current := GetValues(d, rec);
    var diff := map n | n in current && (n !in rec.snapshot || rec.snapshot[n] != current[n]) :: current[n];
    assert forall n :: n in current && (n !in rec.snapshot || rec.snapshot[n] != current[n]) ==> n in diff;
    Comparison(diff != map[], diff)
  }

  /** `setSaved(model, true)`: the record is marked saved and its snapshot is
      reset to its current column values. */
  function MarkSaved(d: Descriptor, rec: Record): (r: Record)
    ensures r.props == rec.props
    ensures Synced(d, r)
  {
    rec.(saved := true, snapshot := GetValues(d, rec))
  }

  /** A saved record whose snapshot matches its current values. */
  predicate Synced(d: Descriptor, rec: Record)
  {
    rec.saved && rec.snapshot == GetValues(d, rec)
  }

  /** `table.column`, the column reference a select list uses. */
  function Qualified(table: string, column: string): string
  {
    table + "." + column
  }

  /** `table__column`, the alias a select list gives a column. */
  function Alias(table: string, column: string): string
  {
    table + "__" + column
  }

  /** The arguments of the one `select` call: one `(table.column, table__column)`
      pair per declared column, in declared order. */
  function SelectList(d: Descriptor): (pairs: seq<(string, string)>)
    ensures |pairs| == |d.columns|
    // with distinct column names no two aliases collide
    ensures WellFormed(d) ==> DistinctTargets(pairs)
  {
    var pairs := seq(|d.columns|, i requires 0 <= i < |d.columns| =>
      (Qualified(d.tableName, d.columns[i].name), Alias(d.tableName, d.columns[i].name)));
    AliasesDistinct(d, pairs);
    pairs
  }

  lemma AliasesDistinct(d: Descriptor, pairs: seq<(string, string)>)
    requires |pairs| == |d.columns|
    requires forall i :: 0 <= i < |pairs| ==> pairs[i].1 == Alias(d.tableName, d.columns[i].name)
    ensures WellFormed(d) ==> DistinctTargets(pairs)
  {
    if WellFormed(d) {
      forall i, j | 0 <= i < j < |pairs| ensures pairs[i].1 != pairs[j].1 {
        if pairs[i].1 == pairs[j].1 {
          AliasInjective(d.tableName, d.columns[i].name, d.columns[j].name);
        }
      }
    }
  }

  function AliasToName(d: Descriptor): seq<(string, string)>
  {
    seq(|d.columns|, i requires 0 <= i < |d.columns| => (Alias(d.tableName, d.columns[i].name), d.columns[i].name))
  }

  /** `mapSingleQueryResult(class, row)`: undoes the `table__column` aliasing of a result row. */
  function DeAlias(d: Descriptor, row: Row): Row
  {
    Remap(AliasToName(d), row)
  }

  /** `createModel(class, mapSingleQueryResult(class, row), true)`: a fresh
      record whose properties come from the de-aliased row, marked saved. */
  function Hydrate(d: Descriptor, row: Row): (rec: Record)
    ensures Synced(d, rec)
  {
    MarkSaved(d, Record(ToPropertyKeys(d, DeAlias(d, row)), false, map[]))
  }

  // ---------------------------------------------------------------------
  // Facts about the re-keying functions under a well-formed descriptor.
  // ---------------------------------------------------------------------

  /** Property-keyed to column-keyed: each column is present exactly when its
      property is, with the property's value, and nothing else is present. */
  lemma ToColumnNamesSpec(d: Descriptor, m: Row)
    requires WellFormed(d)
    ensures forall i :: 0 <= i < |d.columns| ==>
      (d.columns[i].name in ToColumnNames(d, m) <==> d.columns[i].propertyKey in m)
    ensures forall i :: 0 <= i < |d.columns| && d.columns[i].propertyKey in m ==>
      ToColumnNames(d, m)[d.columns[i].name] == m[d.columns[i].propertyKey]
    ensures ToColumnNames(d, m).Keys <= ColumnNames(d)
  {
    var pairs := KeyToName(d);
    var r := ToColumnNames(d, m);
    forall i | 0 <= i < |d.columns|
      ensures d.columns[i].name in r <==> d.columns[i].propertyKey in m
      ensures d.columns[i].propertyKey in m ==> r[d.columns[i].name] == m[d.columns[i].propertyKey]
    {
      if d.columns[i].propertyKey in m {
        RemapAt(pairs, m, i);
      }
      RemapKeys(pairs, m, d.columns[i].name);
      if d.columns[i].name in r {
        var j :| 0 <= j < |pairs| && pairs[j].1 == d.columns[i].name && pairs[j].0 in m;
        assert j == i;
      }
    }
    forall k | k in r ensures k in ColumnNames(d) {
      RemapKeys(pairs, m, k);
      var j :| 0 <= j < |pairs| && pairs[j].1 == k && pairs[j].0 in m;
      assert d.columns[j].name == k;
    }
  }

  /** Column-keyed to property-keyed: each property is present exactly when
      its column is, with the column's value, and nothing else is present. */
  lemma ToPropertyKeysSpec(d: Descriptor, m: Row)
    requires WellFormed(d)
    ensures forall i :: 0 <= i < |d.columns| ==>
      (d.columns[i].propertyKey in ToPropertyKeys(d, m) <==> d.columns[i].name in m)
    ensures forall i :: 0 <= i < |d.columns| && d.columns[i].name in m ==>
      ToPropertyKeys(d, m)[d.columns[i].propertyKey] == m[d.columns[i].name]
    ensures ToPropertyKeys(d, m).Keys <= PropertyKeys(d)
  {
    var pairs := NameToKey(d);
    var r := ToPropertyKeys(d, m);
    forall i | 0 <= i < |d.columns|
      ensures d.columns[i].propertyKey in r <==> d.columns[i].name in m
      ensures d.columns[i].name in m ==> r[d.columns[i].propertyKey] == m[d.columns[i].name]
    {
      if d.columns[i].name in m {
        RemapAt(pairs, m, i);
      }
      RemapKeys(pairs, m, d.columns[i].propertyKey);
      if d.columns[i].propertyKey in r {
        var j :| 0 <= j < |pairs| && pairs[j].1 == d.columns[i].propertyKey && pairs[j].0 in m;
        assert j == i;
      }
    }
    forall k | k in r ensures k in PropertyKeys(d) {
      RemapKeys(pairs, m, k);
      var j :| 0 <= j < |pairs| && pairs[j].1 == k && pairs[j].0 in m;
      assert d.columns[j].propertyKey == k;
    }
  }

  /** Re-keying a column-keyed map by property key and back returns its
      entries for declared columns: `mapValueProperties` in one direction is
      undone by the other. */
  lemma PropertyKeyRoundTrip(d: Descriptor, m: Row)
    requires WellFormed(d)
    ensures ToColumnNames(d, ToPropertyKeys(d, m)) == Restrict(m, ColumnNames(d))
  {
    var p := ToPropertyKeys(d, m);
    var lhs := ToColumnNames(d, p);
    var rhs := Restrict(m, ColumnNames(d));
    forall k | k in lhs ensures k in rhs && lhs[k] == rhs[k] {
      ToColumnNamesSpec(d, p);
      assert k in ColumnNames(d);
      var i :| 0 <= i < |d.columns| && d.columns[i].name == k;
      ToPropertyKeysSpec(d, m);
      assert d.columns[i].propertyKey in p;
      assert lhs[k] == p[d.columns[i].propertyKey] == m[k];
    }
    forall k | k in rhs ensures k in lhs {
      var i :| 0 <= i < |d.columns| && d.columns[i].name == k;
      ToPropertyKeysSpec(d, m);
      assert d.columns[i].propertyKey in p;
      ToColumnNamesSpec(d, p);
    }
  }

  /** Changing one mapped property changes exactly that column of `getValues`. */
  lemma GetValuesAfterChange(d: Descriptor, rec: Record, i: int, v: Value)
    requires WellFormed(d)
    requires 0 <= i < |d.columns|
    ensures GetValues(d, rec.(props := rec.props[d.columns[i].propertyKey := v]))
         == GetValues(d, rec)[d.columns[i].name := v]
  {
    var changed := rec.(props := rec.props[d.columns[i].propertyKey := v]);
    var lhs := GetValues(d, changed);
    var rhs := GetValues(d, rec)[d.columns[i].name := v];
    ToColumnNamesSpec(d, rec.props);
    ToColumnNamesSpec(d, changed.props);
    forall k | k in lhs ensures k in rhs && lhs[k] == rhs[k] {
      var j :| 0 <= j < |d.columns| && d.columns[j].name == k;
    }
    forall k | k in rhs ensures k in lhs {
      if k != d.columns[i].name {
        var j :| 0 <= j < |d.columns| && d.columns[j].name == k;
      }
    }
  }

  /** A synced record compares clean: saving it has nothing to send. */
  lemma SyncedIsClean(d: Descriptor, rec: Record)
    requires Synced(d, rec)
    ensures !CompareWithOriginal(d, rec).isDirty
    ensures CompareWithOriginal(d, rec).diff == map[]
  {
  }

  lemma AliasInjective(table: string, a: string, b: string)
    requires Alias(table, a) == Alias(table, b)
    ensures a == b
  {
    assert a == Alias(table, a)[|table| + 2..];
    assert b == Alias(table, b)[|table| + 2..];
  }

  /** Distinct columns of one table have distinct qualified references. */
  lemma QualifiedInjective(table: string)
    ensures forall a, b :: Qualified(table, a) == Qualified(table, b) ==> a == b
  {
    forall a, b | Qualified(table, a) == Qualified(table, b) ensures a == b {
      assert a == Qualified(table, a)[|table| + 1..];
      assert b == Qualified(table, b)[|table| + 1..];
    }
  }
}
