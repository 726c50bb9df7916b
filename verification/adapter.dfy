/** The adapter: the backend-independent part of a database adapter — its
    model registry, its builder factories and the dialect tag and
    last-inserted id the manager reads. Running SQL, connecting and
    disconnecting belong to concrete backends and appear here only through
    their results.
 */
module Adapters {
  import opened Values
  import opened QueryBuilder

  /** The identity of an adapter object. */
  type AdapterId = nat

  /** The identity of a registered model class. */
  type ModelClass = string

  /** The dialect whose driver reports no last-inserted id. */
  const Postgres: string := "postgres"

  /** An adapter: identity, dialect tag, the id the backend last reported for
      an insert, and the registered model classes in registration order. */
  datatype Adapter = Adapter(id: AdapterId, dialect: string, lastInsertedId: int, models: seq<ModelClass>)

  /** The static `adapter` field of each model class, for all classes at
      once: the adapter that registered the class last. */
  type BackReferences = map<ModelClass, AdapterId>

  /** A freshly constructed adapter: its registry starts empty. */
  function NewAdapter(id: AdapterId, dialect: string, lastInsertedId: int): (a: Adapter)
    ensures a.id == id && a.dialect == dialect && a.lastInsertedId == lastInsertedId
    ensures GetModels(a) == []
  {
    Adapter(id, dialect, lastInsertedId, [])
  }

  /** `getModels()`: the registered classes in registration order. */
  function GetModels(a: Adapter): (ms: seq<ModelClass>)
    ensures ms == a.models
  {
    a.models
  }

  /** `queryBuilder(tableName)`: a fresh builder bound to the table and to this adapter. */
  function NewQueryBuilder(a: Adapter, tableName: string): (b: Builder)
    ensures b.facade == QueryBuilderFacade
    ensures b.tableName == tableName && b.adapterId == a.id && b.clauses == []
  {
    Builder(QueryBuilderFacade, tableName, a.id, [])
  }

  /** `table(tableName)`: a fresh `Table` façade bound to the table and to this adapter. */
  function Table(a: Adapter, tableName: string): (b: Builder)
    ensures b.facade == TableFacade
    ensures b.tableName == tableName && b.adapterId == a.id && b.clauses == []
  {
    Builder(TableFacade, tableName, a.id, [])
  }

  /** The adapter and the class back-references after a registration. */
  datatype Registration = Registration(adapter: Adapter, backRefs: BackReferences)

  /** `addModel(model)`: points the class's back-reference at this adapter
      and appends the class to the registry, without checking for duplicates. */
  function AddModel(a: Adapter, refs: BackReferences, m: ModelClass): (r: Registration)
    ensures GetModels(r.adapter) == GetModels(a) + [m]
    ensures r.adapter.id == a.id && r.adapter.dialect == a.dialect && r.adapter.lastInsertedId == a.lastInsertedId
    ensures m in r.backRefs && r.backRefs[m] == a.id
    ensures forall c :: c != m ==> (c in r.backRefs <==> c in refs)
    ensures forall c :: c != m && c in refs ==> r.backRefs[c] == refs[c]
  {
    Registration(a.(models := a.models + [m]), refs[m := a.id])
  }

  /** Registering `ms` one after the other. */
  function RegisterAll(a: Adapter, refs: BackReferences, ms: seq<ModelClass>): Registration
    decreases |ms|
  {
    if |ms| == 0 then Registration(a, refs)
    else
      var r := AddModel(a, refs, ms[0]);
      RegisterAll(r.adapter, r.backRefs, ms[1..])
  }

  /** After a run of registrations the registry lists exactly those classes
      after the earlier ones, in call order and with repeats kept, and every
      one of them points back at this adapter; other classes are untouched. */
  lemma {:induction false} RegisterAllAppends(a: Adapter, refs: BackReferences, ms: seq<ModelClass>)
    ensures GetModels(RegisterAll(a, refs, ms).adapter) == GetModels(a) + ms
    ensures RegisterAll(a, refs, ms).adapter.id == a.id
    ensures forall i :: 0 <= i < |ms| ==>
      ms[i] in RegisterAll(a, refs, ms).backRefs && RegisterAll(a, refs, ms).backRefs[ms[i]] == a.id
    ensures forall c :: c !in ms ==>
      (c in RegisterAll(a, refs, ms).backRefs <==> c in refs)
    ensures forall c :: c !in ms && c in refs ==> RegisterAll(a, refs, ms).backRefs[c] == refs[c]
    decreases |ms|
  {
    if |ms| > 0 {
      var r := AddModel(a, refs, ms[0]);
      RegisterAllAppends(r.adapter, r.backRefs, ms[1..]);
      assert a.models + [ms[0]] + ms[1..] == a.models + ms;
      var final := RegisterAll(a, refs, ms);
      forall i | 0 <= i < |ms| ensures ms[i] in final.backRefs && final.backRefs[ms[i]] == a.id {
        if i > 0 {
          assert ms[i] == ms[1..][i - 1];
        } else if ms[0] !in ms[1..] {
          assert ms[0] in r.backRefs;
        }
      }
    }
  }

  /** Registering a class with a second adapter moves its back-reference to
      the second adapter while the first adapter's registry still lists it. */
  lemma SecondRegistrationWins(a1: Adapter, a2: Adapter, refs: BackReferences, m: ModelClass)
    requires a1.id != a2.id
    ensures var r1 := AddModel(a1, refs, m);
            var r2 := AddModel(a2, r1.backRefs, m);
            && r2.backRefs[m] == a2.id
            && m in GetModels(r1.adapter)
            && m in GetModels(r2.adapter)
  {
  }

  /** `truncateModels()`: truncates the registered classes one at a time in
      registration order. `results[k]` is what the k-th truncate call
      reports; the first failure stops the loop and propagates. Returns the
      classes whose truncate was called, in call order. */
  method TruncateModels(a: Adapter, results: seq<Outcome<()>>) returns (calls: seq<ModelClass>, status: Outcome<()>)
    requires |results| == |GetModels(a)|
    ensures status.Ok? <==> forall k :: 0 <= k < |results| ==> results[k].Ok?
    ensures status.Ok? ==> calls == GetModels(a)
    ensures status.Failed? ==>
      && 0 < |calls| <= |GetModels(a)|
      && calls == GetModels(a)[..|calls|]
      && results[|calls| - 1] == status
      && forall k :: 0 <= k < |calls| - 1 ==> results[k].Ok?
  {
    calls := [];
    var i := 0;
    while i < |a.models|
      invariant 0 <= i <= |a.models|
      invariant calls == a.models[..i]
      invariant forall k :: 0 <= k < i ==> results[k].Ok?
    {
      calls := calls + [a.models[i]];
      if results[i].Failed? {
        assert calls == a.models[..i + 1];
        return calls, results[i];
      }
      i := i + 1;
    }
    assert calls == a.models;
    status := Ok(());
  }
}
