/** The plugin as registered: one emitter, a memory store subscribed to it, the walk of the
    schema, and the `getHitMap` accessor; plus what the whole arrangement counts. */
module Plugin {
  import opened EventLog
  import opened GraphQLTypes
  import opened HitStore
  import opened HitMap

  class HitMapPlugin {
    const schema: GqlSchema
    const ee: Emitter
    const store: MemoryStore
    /** The type map as registration found it. */
    ghost const original: seq<TypeDef>

    /** The store subscribed before anything was emitted and has seen every event so far. */
    ghost predicate Valid()
      reads this, ee, store
    {
      store.eventEmitter == ee && store.start == 0 && store.consumed == |ee.log| && store.Valid()
    }

    /** The schema is this registration's walk of a type map that no registration had walked,
        so every interceptor in it emits to this plugin's emitter, and every `hit` emitted so
        far names a field of a selected type. */
    ghost predicate Owns()
      reads this, schema, ee
    {
      && InterceptorFree(original)
      && schema.typeMap == Walk(original)
      && forall k | 0 <= k < |ee.log| && ee.log[k].kind == Hit ::
           Discovered(original, ee.log[k].typeName, ee.log[k].fieldName)
    }

    /** Registration: create the emitter and the store, then walk the schema. The walk's `wrap`
        events reach no listener of the store, which therefore stays empty. */
    constructor (schema: GqlSchema)
      modifies schema
      ensures Valid() && this.schema == schema && fresh(ee) && fresh(store)
      ensures original == old(schema.typeMap)
      ensures schema.typeMap == Walk(old(schema.typeMap))
      ensures ee.log == WalkEvents(old(schema.typeMap))
      ensures store.store == map[]
      ensures InterceptorFree(old(schema.typeMap)) ==> Owns()
    {
      ghost var before := schema.typeMap;
      var emitter := new Emitter();
      var memoryStore := new MemoryStore(emitter);
      this.schema := schema;
      this.ee := emitter;
      this.store := memoryStore;
      this.original := before;
      new;
      WrapGqlSchema(schema, emitter);
      memoryStore.Dispatch();
      WalkEventsAreWraps(before);
      assert ee.log[0..] == ee.log;
      ReplayIgnoresWraps(map[], ee.log);
    }

    /** `getHitMap`: the store's `readHits`. Every count equals the number of `hit` events
        emitted for its key, and a key is present exactly when it was hit at least once. */
    function GetHitMap(): (hitMap: Table)
      requires Valid()
      reads this, ee, store
      ensures forall t, f :: Count(hitMap, t, f) == HitsFor(ee.log, t, f)
      ensures forall t, f :: HasEntry(hitMap, t, f) <==> HitsFor(ee.log, t, f) > 0
      ensures AllPositive(hitMap)
    {
      assert ee.log[0..|ee.log|] == ee.log;
      ReplayCountsAll(map[], ee.log);
      ReplayEntriesAll(map[], ee.log);
      StoredCountsPositive(store);
      store.ReadHits()
    }

    /** The execution engine resolving field `j` of type `i`: it calls the field's `resolve`
        (or reads the property when there is none); the store sees the emitted events. A field
        of a selected type emits its own `hit` once; any other field emits nothing. */
    method ResolveField(impl: Impl, i: nat, j: nat, args: seq<Value>) returns (out: Outcome)
      requires Valid() && Owns()
      requires i < |schema.typeMap| && j < |schema.typeMap[i].fields|
      modifies ee, store
      ensures Valid() && Owns()
      ensures var c := Invoke(impl, EffectiveResolver(schema.typeMap[i].fields[j]), args);
              out == c.outcome && ee.log == old(ee.log) + c.hits
      ensures ee.log == old(ee.log) +
                (if IsWrappable(original[i]) then [Event(Hit, original[i].name, original[i].fields[j].name)] else [])
    {
      assert |original| == |schema.typeMap| && i < |original|;
      WalkResult(original, i);
      assert j < |original[i].fields| && NoInterceptor(original[i].fields[j]);
      if IsWrappable(original[i]) {
        SelectedFieldEmitsOneHit(impl, original, i, j, args);
      } else {
        UnselectedFieldEmitsNothing(impl, original, i, j, args);
      }
      var field := schema.typeMap[i].fields[j];
      var resolve := if field.resolve.Some? then field.resolve.value else Default(field.name);
      ghost var log0 := ee.log;
      out := CallResolver(ee, impl, resolve, args);
      assert ee.log[0..store.consumed] == log0[0..store.consumed];
      store.Dispatch();
      assert forall k | |log0| <= k < |ee.log| && ee.log[k].kind == Hit ::
               Discovered(original, ee.log[k].typeName, ee.log[k].fieldName);
    }
  }

  /** Only selected types' fields ever reach a registration's hit map: no scalar, enum,
      interface, union or introspection type, and no field the walk did not announce. */
  lemma HitMapOnlyDiscovered(p: HitMapPlugin)
    requires p.Valid() && p.Owns()
    ensures forall t, f :: HasEntry(p.GetHitMap(), t, f) ==> Discovered(p.original, t, f)
    ensures forall t, f :: HasEntry(p.GetHitMap(), t, f) ==> Event(Wrap, t, f) in WalkEvents(p.original)
    ensures forall t | t in p.GetHitMap() ::
              exists k :: 0 <= k < |p.original| && IsWrappable(p.original[k]) && p.original[k].name == t
  {
    forall t, f | HasEntry(p.GetHitMap(), t, f)
      ensures Discovered(p.original, t, f) && Event(Wrap, t, f) in WalkEvents(p.original)
    {
      HitsForWitness(p.ee.log, t, f);
      WalkEventsComplete(p.original, t, f);
    }
    forall t | t in p.GetHitMap()
      ensures exists k :: 0 <= k < |p.original| && IsWrappable(p.original[k]) && p.original[k].name == t
    {
      assert p.ee.log[0..|p.ee.log|] == p.ee.log;
      ReplayTypeKeys(map[], p.ee.log, t);
      TypeHitHasFieldHit(p.ee.log, t);
      var f :| HitsFor(p.ee.log, t, f) > 0;
      HitsForWitness(p.ee.log, t, f);
    }
  }

  lemma ReplayEntriesAll(s: Table, events: seq<Event>)
    ensures forall t, f :: HasEntry(Replay(s, events), t, f) <==> HasEntry(s, t, f) || HitsFor(events, t, f) > 0
  {
    forall t, f ensures HasEntry(Replay(s, events), t, f) <==> HasEntry(s, t, f) || HitsFor(events, t, f) > 0 {
      ReplayEntries(s, events, t, f);
    }
  }

  /** From registration on, the hit map counts only the hits emitted after the walk: a key's
      count is its number of `hit` events, and it is present iff hit at least once. */
  lemma CountsAfterWalk(types: seq<TypeDef>, hits: seq<Event>, t: string, f: string)
    ensures Count(Replay(map[], WalkEvents(types) + hits), t, f) == HitsFor(hits, t, f)
    ensures HasEntry(Replay(map[], WalkEvents(types) + hits), t, f) <==> HitsFor(hits, t, f) > 0
  {
    WalkEventsAreWraps(types);
    ReplayConcat(map[], WalkEvents(types), hits);
    ReplayIgnoresWraps(map[], WalkEvents(types));
    ReplayCounts(map[], hits, t, f);
    ReplayEntries(map[], hits, t, f);
  }

  /** A field the walk announced with a `wrap` event but that was never hit is absent from the
      hit map: the store has no `wrap` listener that would create a zero entry. */
  lemma DiscoveredButNeverHitIsAbsent(types: seq<TypeDef>, hits: seq<Event>, k: nat, j: nat)
    requires k < |types| && IsWrappable(types[k]) && j < |types[k].fields|
    requires HitsFor(hits, types[k].name, types[k].fields[j].name) == 0
    ensures Event(Wrap, types[k].name, types[k].fields[j].name) in WalkEvents(types)
    ensures !HasEntry(Replay(map[], WalkEvents(types) + hits), types[k].name, types[k].fields[j].name)
  {
    WalkEventsDiscovered(types, types[k].name, types[k].fields[j].name);
    CountsAfterWalk(types, hits, types[k].name, types[k].fields[j].name);
  }
}
