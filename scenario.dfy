/** The repository's test scenario: its schema, the hits its query causes, and the hit map the
    code as written produces from them. */
module Scenario {
  import opened EventLog
  import opened GraphQLTypes
  import opened HitStore
  import opened HitMap
  import opened Plugin

  /** A field with an author-supplied resolver, and one without. */
  function Resolved(name: string, id: nat): Field { Field(name, Some(Original(id)), false) }
  function Plain(name: string): Field { Field(name, None, false) }

  /** The test schema's type map: its own types (all with definition nodes), the built-in
      scalars it uses, and the introspection types (their field lists shortened). */
  function TestTypeMap(): seq<TypeDef> {
    [ TypeDef("Date", ScalarKind, true, []),
      TypeDef("Status", EnumKind, true, []),
      TypeDef("TypeObject", ObjectKind, true,
              [Resolved("plainField", 6), Resolved("scalarField", 7), Resolved("objectField", 8), Plain("enumField")]),
      TypeDef("ObjectTypeField", ObjectKind, true, [Resolved("intField", 5), Plain("zeroField")]),
      TypeDef("TypeInput", InputObjectKind, true, [Plain("inputField"), Plain("inputObjectField")]),
      TypeDef("InputObjectField", InputObjectKind, true, [Plain("inputIntField")]),
      TypeDef("Query", ObjectKind, true, [Resolved("testPlain", 1), Resolved("testObject", 2)]),
      TypeDef("Mutation", ObjectKind, true, [Resolved("testInput", 3), Resolved("neverCalled", 4)]),
      TypeDef("String", ScalarKind, false, []),
      TypeDef("Int", ScalarKind, false, []),
      TypeDef("Boolean", ScalarKind, false, []),
      TypeDef("__Schema", ObjectKind, false, [Resolved("types", 100)]),
      TypeDef("__Type", ObjectKind, false, [Resolved("kind", 101), Resolved("name", 102)]),
      TypeDef("__TypeKind", EnumKind, false, []),
      TypeDef("__Field", ObjectKind, false, [Resolved("name", 103)]),
      TypeDef("__InputValue", ObjectKind, false, [Resolved("name", 104)]),
      TypeDef("__EnumValue", ObjectKind, false, [Resolved("name", 105)]),
      TypeDef("__Directive", ObjectKind, false, [Resolved("name", 106)]),
      TypeDef("__DirectiveLocation", EnumKind, false, [])
    ]
  }

  function QueryHit(f: string): Event { Event(Hit, "Query", f) }
  function ObjectHit(f: string): Event { Event(Hit, "TypeObject", f) }
  function Repeat(e: Event, n: nat): seq<Event> { seq(n, _ => e) }

  /** The `hit` events of the test query, one per field resolution, in execution order:
      `A`, `B` and `BB` (three `testPlain`), then
      `C: testObject { plainField x:enumField y:enumField z:enumField }`, then
      `D: testObject { plainField scalarField objectField { intField } }`. */
  function TestQueryHits(): seq<Event> {
    Repeat(QueryHit("testPlain"), 3)
    + [QueryHit("testObject")] + [ObjectHit("plainField")] + Repeat(ObjectHit("enumField"), 3)
    + [QueryHit("testObject")] + [ObjectHit("plainField")] + [ObjectHit("scalarField")]
    + [ObjectHit("objectField")] + [Event(Hit, "ObjectTypeField", "intField")]
  }

  /** The hit map the test expects after the query: zero entries for every field of the test
      schema's object and input types that the query does not reach. */
  function ExpectedByTest(): Table {
    map["Query" := map["testPlain" := 3, "testObject" := 2],
        "TypeObject" := map["plainField" := 2, "scalarField" := 1, "objectField" := 1, "enumField" := 3],
        "ObjectTypeField" := map["intField" := 1, "zeroField" := 0],
        "TypeInput" := map["inputField" := 0, "inputObjectField" := 0],
        "InputObjectField" := map["inputIntField" := 0],
        "Mutation" := map["testInput" := 0, "neverCalled" := 0]]
  }

  /** The same table without its zero entries and without the types left empty by that. */
  function ObservedHitMap(): Table {
    map["Query" := map["testPlain" := 3, "testObject" := 2],
        "TypeObject" := map["plainField" := 2, "scalarField" := 1, "objectField" := 1, "enumField" := 3],
        "ObjectTypeField" := map["intField" := 1]]
  }

  lemma {:induction false} HitsForRepeat(e: Event, n: nat, t: string, f: string)
    ensures HitsFor(Repeat(e, n), t, f) == if IsHitFor(e, t, f) then n else 0
  {
    if n > 0 {
      assert Repeat(e, n)[..n - 1] == Repeat(e, n - 1);
      HitsForRepeat(e, n - 1, t, f);
    }
  }

  /** Which types of the test schema the walk instruments. */
  lemma TestSelection()
    ensures forall k | 2 <= k < 8 :: IsWrappable(TestTypeMap()[k])
    ensures forall k | 0 <= k < |TestTypeMap()| && (k < 2 || 8 <= k) :: !IsWrappable(TestTypeMap()[k])
  {
    TestDeclaredSelection();
    TestBuiltInsSkipped();
  }

  /** The declared types: the scalar and the enum are skipped, the object and input types selected. */
  lemma TestDeclaredSelection()
    ensures forall k | 2 <= k < 8 :: IsWrappable(TestTypeMap()[k])
    ensures !IsWrappable(TestTypeMap()[0]) && !IsWrappable(TestTypeMap()[1])
  {
  }

  /** The built-in scalars and the introspection types are skipped. */
  lemma TestBuiltInsSkipped()
    ensures forall k | 8 <= k < |TestTypeMap()| :: !IsWrappable(TestTypeMap()[k])
  {
    var types := TestTypeMap();
    forall k | 8 <= k < |types|
      ensures !IsWrappable(types[k])
    {
      if types[k].kind == ObjectKind {
        assert types[k].name[0] == '_' && types[k].name[1] == '_';
      }
    }
  }

  /** Every key's count over the test query is its count in the observed table. */
  lemma TestQueryCounts(t: string, f: string)
    ensures HitsFor(TestQueryHits(), t, f) == Count(ObservedHitMap(), t, f)
  {
    var plain, enums := Repeat(QueryHit("testPlain"), 3), Repeat(ObjectHit("enumField"), 3);
    HitsForRepeat(QueryHit("testPlain"), 3, t, f);
    HitsForRepeat(ObjectHit("enumField"), 3, t, f);
    var c := plain + [QueryHit("testObject")] + [ObjectHit("plainField")];
    HitsForSnoc(plain, QueryHit("testObject"), t, f);
    HitsForSnoc(plain + [QueryHit("testObject")], ObjectHit("plainField"), t, f);
    HitsForConcat(c, enums, t, f);
    var d := c + enums + [QueryHit("testObject")] + [ObjectHit("plainField")] + [ObjectHit("scalarField")];
    HitsForSnoc(c + enums, QueryHit("testObject"), t, f);
    HitsForSnoc(c + enums + [QueryHit("testObject")], ObjectHit("plainField"), t, f);
    HitsForSnoc(c + enums + [QueryHit("testObject")] + [ObjectHit("plainField")], ObjectHit("scalarField"), t, f);
    HitsForSnoc(d, ObjectHit("objectField"), t, f);
    HitsForSnoc(d + [ObjectHit("objectField")], Event(Hit, "ObjectTypeField", "intField"), t, f);
  }

  /** The walk's `wrap` events leave the store as it was. */
  lemma TestWalkIsSilent()
    ensures Replay(map[], WalkEvents(TestTypeMap()) + TestQueryHits()) == Replay(map[], TestQueryHits())
  {
    WalkEventsAreWraps(TestTypeMap());
    ReplayConcat(map[], WalkEvents(TestTypeMap()), TestQueryHits());
    ReplayIgnoresWraps(map[], WalkEvents(TestTypeMap()));
  }

  /** Over the test query, the store holds each key the observed table holds, with its count. */
  lemma TestStoredEntries(t: string, f: string)
    ensures Count(Replay(map[], TestQueryHits()), t, f) == Count(ObservedHitMap(), t, f)
    ensures HasEntry(Replay(map[], TestQueryHits()), t, f) <==> HasEntry(ObservedHitMap(), t, f)
  {
    TestQueryCounts(t, f);
    ReplayCounts(map[], TestQueryHits(), t, f);
    ReplayEntries(map[], TestQueryHits(), t, f);
  }

  /** Over the test query, the store holds exactly the observed table's types. */
  lemma TestStoredTypes(t: string)
    ensures t in Replay(map[], TestQueryHits()) <==> t in ObservedHitMap()
  {
    var hits := TestQueryHits();
    ReplayTypeKeys(map[], hits, t);
    if t in Replay(map[], hits) {
      TypeHitHasFieldHit(hits, t);
      var f :| HitsFor(hits, t, f) > 0;
      TestQueryCounts(t, f);
    } else if t == "Query" {
      TestStoredEntries(t, "testPlain");
    } else if t == "TypeObject" {
      TestStoredEntries(t, "plainField");
    } else if t == "ObjectTypeField" {
      TestStoredEntries(t, "intField");
    }
  }

  /** The hit map the code computes for the test is the observed table: the counts the test
      expects for the fields it hits, and no entry at all for the fields it never hits,
      where the test expects zero entries. */
  lemma TestHitMap()
    ensures Replay(map[], WalkEvents(TestTypeMap()) + TestQueryHits()) == ObservedHitMap()
    ensures ObservedHitMap() != ExpectedByTest()
  {
    var m := Replay(map[], TestQueryHits());
    forall t, f
      ensures Count(m, t, f) == Count(ObservedHitMap(), t, f)
      ensures HasEntry(m, t, f) <==> HasEntry(ObservedHitMap(), t, f)
    {
      TestStoredEntries(t, f);
    }
    forall t
      ensures t in m <==> t in ObservedHitMap()
    {
      TestStoredTypes(t);
    }
    TablesEqual(m, ObservedHitMap());
    TestWalkIsSilent();
    assert "Mutation" in ExpectedByTest();
  }

  /** The walk announces the fields the test expects at zero. */
  lemma TestWrapEvents()
    ensures Event(Wrap, "Mutation", "neverCalled") in WalkEvents(TestTypeMap())
    ensures Event(Wrap, "ObjectTypeField", "zeroField") in WalkEvents(TestTypeMap())
    ensures Event(Wrap, "TypeInput", "inputField") in WalkEvents(TestTypeMap())
  {
    var types := TestTypeMap();
    TestAnnounced(types, 7, 1);
    TestAnnounced(types, 3, 1);
    TestAnnounced(types, 4, 0);
  }

  lemma TestAnnounced(types: seq<TypeDef>, k: nat, j: nat)
    requires types == TestTypeMap() && 2 <= k < 8 && j < |types[k].fields|
    ensures Event(Wrap, types[k].name, types[k].fields[j].name) in WalkEvents(types)
  {
    TestSelection();
    WalkEventsComplete(types, types[k].name, types[k].fields[j].name);
  }
}
