# mercurius-hit-map, modelled in Dafny

mercurius-hit-map is a Fastify plugin for the Mercurius GraphQL server. It counts how often
every field resolver of a schema runs. At registration it makes an event emitter and an
in-memory store that listens for `hit` events. It then walks the schema's type map. Every
object and input-object type that is not an introspection type gets each of its fields'
`resolve` replaced by a `hitResolver` interceptor. The interceptor emits a `hit` event naming
the type and the field, then calls the resolver it replaced: the field's own, or else a
synthesised property reader. The store keeps a two-level table typeName → fieldName → count,
and `getHitMap()` returns a top-level copy of it.

The project models this core:

- `event_log.dfy` (`EventLog`). The emitter is reduced to the ordered log of emitted `wrap`
  and `hit` events. It also defines the number of `hit` events per key.
- `memory_store.dfy` (`HitStore`). The table, and one `storeHit` as a pure function (`Bump`).
  A fold of deliveries over an event log (`Replay`). The `MemoryStore` class with its
  `store` field, the `storeHit` and `readHits` methods, and a `Dispatch` method. `Dispatch`
  delivers the emitted events to the store's `hit` listener in order.
- `graphql_types.dfy` (`GraphQLTypes`). The parts of graphql-js's schema objects the walk
  touches: named types with their kind, their definition-node flag and their fields. Each
  field has an optional resolver and the plugin's visited marker. Resolvers are values:
  an author's resolver whose behaviour is a parameter, the default property reader, or the
  interceptor around another resolver.
- `hit_map.dfy` (`HitMap`). `isSystemType` and the type selection, `buildDefaultResolver`,
  `hitCounter` and its `hitResolver`, and the in-place walk `wrapType` / `wrapGqlSchema`. The
  walk is a method with loops, proved against the functions `Walk` and `WalkEvents`. It also
  holds the properties of the walk.
- `plugin.dfy` (`Plugin`). The registered plugin: the emitter, the store and the walked schema
  together. It holds `getHitMap`, one field resolution by the engine, and the end-to-end
  counting properties.
- `scenario.dfy` (`Scenario`). The repository's test: its schema, the `hit` events its query
  causes, and the exact hit map the code computes for it.

The model follows the code as written:

- The store subscribes to `hit` only. A field that was walked but never hit therefore has no
  entry, and a type with no hit field has no key. The repository's test expects zero entries
  for such fields; how the code differs is described under "Where the code and its test
  differ".
- The visited marker is written but never read, because the guards that would read it are
  commented out. Only a second registration walks a schema again, since the walk runs once
  per registration. That second walk nests its interceptor around the first one. One call
  then emits two `hit` events, one to each registration's emitter, so each store counts the
  call once. The walk-level lemmas show the nesting. The plugin-level model covers one
  registration per schema (see "## Left out").
- Nothing isolates errors. A resolver's error or return value passes through the
  interceptor unchanged, after the `hit` event has been emitted.

## Model

| member | source | states |
|---|---|---|
| EventLog.Emitter.constructor | index.js:15 | a fresh emitter has emitted nothing |
| EventLog.Emitter.Emit | index.js:33-38 | emitting appends exactly that event to the log |
| EventLog.HitsForConcat | lib/MemoryStore.js:10-21 | the hit count of a key over two logs in sequence is the sum of its counts over each |
| EventLog.HitsForMultiset | lib/MemoryStore.js:10-21 | a key's hit count is the multiplicity of its `hit` event in the log, so it does not depend on the order of the events |
| EventLog.HitsForWitness | lib/MemoryStore.js:10-21 | a key with a positive count has a `hit` event for it in the log |
| EventLog.TypeHitHasFieldHit | index.js:33-38 | every `hit` event for a type names one of its fields, so a type with hits has a field with hits |
| HitStore.Bump | lib/MemoryStore.js:10-21 | one `storeHit` raises the key's count by exactly one, a missing entry counting as 0, and adds the type key if it was missing |
| HitStore.BumpCount | lib/MemoryStore.js:13-20 | one `storeHit` changes no other key's count, sibling fields of the same type included |
| HitStore.BumpEntry | lib/MemoryStore.js:13-18 | an entry exists after `storeHit` iff it existed before or it is the stored key |
| HitStore.BumpPositive | lib/MemoryStore.js:16-20 | `storeHit` never leaves a count of 0 behind: it resets a missing or zero count to 0 and then increments it |
| HitStore.Deliver | lib/MemoryStore.js:7 | the store's listener ignores a `wrap` event; a `hit` event raises exactly its key's count by one and adds its type key |
| HitStore.MemoryStore.constructor | lib/MemoryStore.js:4-8 | the store starts empty and subscribed at the emitter's current position, so only later events reach it |
| HitStore.MemoryStore.StoreHit | lib/MemoryStore.js:10-21 | the imperative `storeHit` leaves exactly the table `Bump` specifies |
| HitStore.MemoryStore.Dispatch | lib/MemoryStore.js:7 | delivering every pending event in order leaves the store equal to the replay of all events since subscription; a `wrap` event reaches no listener |
| HitStore.MemoryStore.ReadHits | lib/MemoryStore.js:23-25 | `readHits` returns a copy with the same type keys bound to the same inner tables, equal as a value to the store |
| HitStore.ReplayCounts | lib/MemoryStore.js:7-21 | after a log is delivered, a key's count has grown by exactly its number of `hit` events |
| HitStore.ReplayEntries | lib/MemoryStore.js:7-21 | an entry exists after delivery iff it existed before or at least one `hit` event named it |
| HitStore.ReplayTypeKeys | lib/MemoryStore.js:13-15 | a type key exists after delivery iff it existed before or some `hit` event named that type |
| HitStore.ReplayPositive | lib/MemoryStore.js:16-20 | delivery keeps every stored count at 1 or more |
| HitStore.ReplayConcat | lib/MemoryStore.js:7 | delivering two logs one after the other is delivering their concatenation |
| HitStore.ReplayMonotone | lib/MemoryStore.js:20 | counts never decrease as more events arrive |
| HitStore.ReplayIgnoresWraps | lib/MemoryStore.js:7 | a log of `wrap` events only leaves the table unchanged, because the store listens to `hit` alone |
| HitStore.StoredCountsPositive | lib/MemoryStore.js:16-20 | a store in a valid state holds no zero and no missing count for any key it has |
| HitMap.IsSystemType | index.js:72-75 | a system type is one without a definition node whose name starts with two underscores |
| HitMap.IsWrappable | index.js:47-49 | a type declared in the schema source is selected iff it is an object or input-object type; no other kind is ever selected; a selected type without a definition node does not start with `__` |
| HitMap.SystemTypeExamples | index.js:72-75 | the built-in `__` types without a definition node are system types; a declared `__UserType`, a `_Private` name and `Query` are not |
| HitMap.BuildDefaultResolver | index.js:68-70 | the synthesised resolver is no interceptor; it emits nothing and returns the first argument's property named like the field, and throws a TypeError when called without a parent |
| HitMap.Invoke | index.js:32-40 | a resolver call emits only `hit` events; a resolver that is no interceptor emits none; an interceptor emits its own `hit` first |
| HitMap.InvokeIsTransparent | index.js:32-40 | a chain of interceptors ends exactly as the innermost resolver does on the same arguments, and emits one `hit` per interceptor, outermost first |
| HitMap.CallResolver | index.js:32-40 | running a resolver emits its `hit` events before delegating, and returns or throws what the wrapped resolver returns or throws |
| HitMap.HitCounter | index.js:24-31 | `hitCounter` emits one `wrap` event for the field and returns the interceptor around the given resolver |
| HitMap.WrapType | index.js:55-66 | wrapping a type replaces every field by its visited, intercepted form, field order kept, emits one `wrap` per field in field order, and changes no other type |
| HitMap.WrapGqlSchema | index.js:44-53 | the walk leaves the type map equal to `Walk` of the old one and emits exactly `WalkEvents` of the old one |
| HitMap.WalkResult | index.js:55-66 | after a walk every field of a selected type is visited and intercepted around its effective resolver under its own names; other types are unchanged; names, kinds and field names are kept |
| HitMap.WalkEventsAreWraps | index.js:25-30 | a walk emits only `wrap` events |
| HitMap.WalkEventsSound | index.js:46-50 | every `wrap` event of a walk names a field of a selected type |
| HitMap.WalkEventsComplete | index.js:58-63 | every field of every selected type is announced by a `wrap` event |
| HitMap.WalkEventsDiscovered | index.js:44-66 | a walk emits a `wrap` event for (type, field) iff the field belongs to a selected type |
| HitMap.WalkedFieldHitsOnce | index.js:60-63 | a walked field emits one `hit` for its own (type, field) per call, ahead of whatever its effective resolver emits, and ends as that resolver does |
| HitMap.DefaultFieldCounted | index.js:68-70 | a walked field with no resolver of its own emits its `hit` and returns the parent's property of the field's name, `undefined` when absent |
| HitMap.WalkKeepsSelection | index.js:47-49 | walking keeps every type's selection, so a second walk selects the same types |
| HitMap.WalkTwiceEmitsTwice | index.js:56-64 | with the visited checks commented out, a second walk nests a second interceptor around the first, and one call then emits two `hit` events for the field, with the outcome unchanged |
| HitMap.WalkNotIdempotent | index.js:61-64 | a walk is not idempotent on any schema with a selected type that has a field |
| HitMap.UnselectedFieldEmitsNothing | index.js:46-50 | a field of a type the walk skips, and that carries no interceptor, emits nothing when resolved after the walk |
| HitMap.SelectedFieldEmitsOneHit | index.js:59-63 | a field of a selected type that carried no interceptor emits exactly its own `hit` per resolution after one walk |
| Plugin.HitMapPlugin.constructor | index.js:14-22 | registration walks the schema and emits exactly its `wrap` events, none of which reaches the store, so the store is empty and up to date; on a schema no registration had walked, the plugin owns every interceptor in it |
| Plugin.HitMapPlugin.GetHitMap | index.js:18 | every count in the hit map equals the number of `hit` events emitted for that key; a key is present iff it was hit at least once; no count is 0 |
| Plugin.HitMapPlugin.ResolveField | index.js:32-40 | the engine resolving a field gets the effective resolver's outcome; a field of a selected type emits its own `hit` once and any other field nothing; the store has seen every event |
| Plugin.HitMapOnlyDiscovered | index.js:44-53 | every entry of a registration's hit map is a field of a selected type that the walk announced, and every type key names a selected type, so scalars, enums and introspection types never appear |
| Plugin.CountsAfterWalk | lib/MemoryStore.js:4-21 | after registration and any later `hit` events, a key's count is its number of hits, and it is present iff hit at least once |
| Plugin.DiscoveredButNeverHitIsAbsent | lib/MemoryStore.js:7 | a field announced by a `wrap` event but never hit has no entry in the hit map |
| Scenario.TestSelection | test/plugin.test.js:9-51 | in the test schema the walk selects `TypeObject`, `ObjectTypeField`, `TypeInput`, `InputObjectField`, `Query` and `Mutation`, and no scalar, enum or introspection type |
| Scenario.TestQueryCounts | test/plugin.test.js:110-117 | the test query hits `testPlain` 3 times, `testObject` and `plainField` twice, `enumField` 3 times, `scalarField`, `objectField` and `intField` once, and nothing else |
| Scenario.TestWrapEvents | test/plugin.test.js:28-50 | the walk announces `Mutation.neverCalled`, `ObjectTypeField.zeroField` and `TypeInput.inputField` |
| Scenario.TestHitMap | test/plugin.test.js:141-168 | the code's hit map after the test query holds the counts the test expects and no entries for unhit fields, so it differs from the table the test expects |

## Left out

- The Fastify plugin wiring (`fastify-plugin` metadata, `app.decorate`, the `next` callback)
  and the HTTP layer of the test are not modelled. `getHitMap` being `async` only wraps the
  same table in a promise.
- EventEmitter internals (listener registration and listener arrays) are not modelled. `emit`
  calls its listeners synchronously; the model appends to a log instead, and the store reads
  the log in order. `Plugin.HitMapPlugin.ResolveField` delivers a call's events right after
  the call. The table's contents are the same, but the model does not show the store
  mid-call.
- The `rawType` and `rawField` payload of the events are not modelled: no listener in the
  core reads them.
- graphql-js itself is not modelled: its classes, `getTypeMap`/`getFields` and the execution
  engine. Type kinds are an enumeration, and a type map is a sequence in enumeration order.
  The scenario's order is an illustration, and no property here depends on order.
- When a field has no `resolve`, the engine falls back to its own default resolver. The
  model uses the plugin's default property reader instead; neither is wrapped unless the
  walk reaches the field.
- HitStore.Bump: counts are unbounded. In JavaScript they are IEEE doubles, and `++`
  (lib/MemoryStore.js:20) stops changing a count once it reaches 2^53.
- HitMap.CallResolver: an interceptor does not record which emitter its `hitCounter` closure
  captured (index.js:24-40). Every `hit` of a chain of interceptors goes to the one emitter
  given. This matches the source for every chain a single registration creates. For a
  schema registered twice, the source sends the outer interceptor's `hit` to the second
  registration's emitter and the inner one's to the first; the model does not capture that.
- Plugin.HitMapPlugin.ResolveField: requires `Owns()`, one registration per schema: the schema
  is this registration's walk of a type map without interceptors. A second registration on
  the same schema is modelled only at the walk level (`HitMap.WalkTwiceEmitsTwice`),
  not as two plugins with two stores.
- HitMap.ReadProperty: JavaScript property reads on primitives (`length` of a string, and
  so on) and through prototypes are modelled as `undefined`.
- HitStore.MemoryStore.ReadHits: the copy is shallow, so the inner tables are shared with the
  store and later hits show through an earlier result. The value model does not capture this
  aliasing.
- The scenario shortens the introspection types' field lists. It does not model the
  resolvers' return values, only which fields are resolved and how many times.
- Author resolvers are a parameter of the model (`Impl`), including whether they throw.
  Asynchronous resolvers and promises are not modelled.

## Where the code and its test differ

The repository's test expects zero entries in the hit map for fields the query never reaches
(test/plugin.test.js:154-166). Examples are `ObjectTypeField.zeroField`, every field of
`TypeInput` and `InputObjectField`, and both fields of `Mutation`. The walk does announce each
of these fields with a `wrap` event (`Scenario.TestWrapEvents`). But `MemoryStore` subscribes
only to `hit` (lib/MemoryStore.js:7), so nothing creates those entries.
`Plugin.DiscoveredButNeverHitIsAbsent` proves this in general. `Scenario.TestHitMap` proves the
exact table the code produces for the test query: it is the expected table with every zero
entry removed, and with the types left empty by that removal removed too. The model keeps the
code's behaviour. It does not add a `wrap` listener that would seed zero counts.
