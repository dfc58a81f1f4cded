/** The schema walker and the hit-counting interceptor: selects the object and input-object
    types that are not introspection types, and replaces every field's resolver by one that
    emits a `hit` event and then delegates to the field's effective resolver. */
module HitMap {
  import opened EventLog
  import opened GraphQLTypes

  // ---------------------------------------------------------------------------------------
  // Type selection

  /** The introspection test: no definition node, and the name starts with the reserved `__`. */
  function IsSystemType(t: TypeDef): (b: bool)
    ensures b <==> !t.hasAstNode && |t.name| >= 2 && t.name[0] == '_' && t.name[1] == '_'
  {
    !t.hasAstNode && "__" <= t.name
  }

  /** The walker visits object and input-object types that are not introspection types: a type
      declared in the schema source is visited iff it has fields, and no scalar, enum,
      interface or union type is ever visited. */
  function IsWrappable(t: TypeDef): (b: bool)
    ensures t.hasAstNode ==> (b <==> t.kind == ObjectKind || t.kind == InputObjectKind)
    ensures !(t.kind == ObjectKind || t.kind == InputObjectKind) ==> !b
    ensures b && !t.hasAstNode ==> |t.name| < 2 || t.name[..2] != "__"
  {
    (t.kind == ObjectKind || t.kind == InputObjectKind) && !IsSystemType(t)
  }

  /** The built-in introspection types are system types; a user type named with the reserved
      prefix but declared in the schema source is not, and neither is a single-underscore name. */
  lemma SystemTypeExamples(fields: seq<Field>)
    ensures forall name | name in ["__Schema", "__Type", "__TypeKind", "__Field", "__InputValue",
                                   "__EnumValue", "__Directive", "__DirectiveLocation"] ::
              IsSystemType(TypeDef(name, ObjectKind, false, fields))
    ensures !IsSystemType(TypeDef("__UserType", ObjectKind, true, fields))
    ensures IsWrappable(TypeDef("__UserType", ObjectKind, true, fields))
    ensures !IsSystemType(TypeDef("_Private", ObjectKind, false, fields))
    ensures !IsSystemType(TypeDef("Query", ObjectKind, false, fields))
  {
    assert "_Private"[1] != '_';
  }

  // ---------------------------------------------------------------------------------------
  // Resolvers and what calling them does

  /** The resolver synthesised for a field that has none: it reads the parent's property named
      like the field. */
  function BuildDefaultResolver(objectField: Field): (r: Resolver)
    ensures !r.Wrapped?
    ensures forall impl: Impl, parent: Value, rest: seq<Value> ::
              Invoke(impl, r, [parent] + rest) == Call([], ReadProperty(parent, objectField.name))
    ensures forall impl: Impl :: Invoke(impl, r, []) == Call([], Threw(TypeError))
  {
    Default(objectField.name)
  }

  /** The resolver the walker wraps: the field's own, or else the synthesised default. */
  function EffectiveResolver(f: Field): Resolver {
    if f.resolve.Some? then f.resolve.value else BuildDefaultResolver(f)
  }

  /** `parent[name]` in JavaScript: a TypeError on `undefined` and `null`; a missing property is
      `undefined`. */
  function ReadProperty(parent: Value, name: string): Outcome {
    match parent
    case Undefined => Threw(TypeError)
    case Null => Threw(TypeError)
    case Primitive(_) => Returned(Undefined)
    case Record(props) => Returned(if name in props then props[name] else Undefined)
  }

  /** The events a call emits, in order, and how it ends. */
  datatype Call = Call(hits: seq<Event>, outcome: Outcome)

  /** Calling resolver `r` with `args`. */
  function Invoke(impl: Impl, r: Resolver, args: seq<Value>): (c: Call)
    ensures forall k :: 0 <= k < |c.hits| ==> c.hits[k].kind == Hit
    ensures !r.Wrapped? ==> c.hits == []
    ensures r.Wrapped? ==> |c.hits| > 0 && c.hits[0] == Event(Hit, r.typeName, r.fieldName)
  {
    match r
    case Original(id) => Call([], impl(id, args))
    case Default(name) => Call([], ReadProperty(if |args| > 0 then args[0] else Undefined, name))
    case Wrapped(t, f, inner) =>
      var c := Invoke(impl, inner, args);
      Call([Event(Hit, t, f)] + c.hits, c.outcome)
  }

  /** The resolver inside all interceptors. */
  function Core(r: Resolver): (c: Resolver)
    ensures !c.Wrapped?
  {
    if r.Wrapped? then Core(r.inner) else r
  }

  /** The `hit` events of the chain of interceptors around a resolver, outermost first. */
  function Labels(r: Resolver): (hits: seq<Event>)
    ensures forall k :: 0 <= k < |hits| ==> hits[k].kind == Hit
  {
    if r.Wrapped? then [Event(Hit, r.typeName, r.fieldName)] + Labels(r.inner) else []
  }

  /** Interceptors are transparent: a call ends exactly as the innermost resolver's does, on the
      same arguments, and emits one `hit` per interceptor whatever the arguments and the
      resolvers' behaviour. */
  lemma {:induction false} InvokeIsTransparent(impl: Impl, r: Resolver, args: seq<Value>)
    ensures Invoke(impl, r, args).outcome == Invoke(impl, Core(r), args).outcome
    ensures Invoke(impl, r, args).hits == Labels(r)
  {
    match r
    case Original(_) =>
    case Default(_) =>
    case Wrapped(_, _, inner) => InvokeIsTransparent(impl, inner, args);
  }

  /** Runs resolver `r` against the emitter: for an interceptor (`hitResolver`) emit its `hit`
      event, then call the resolver it wraps with the same arguments and return its outcome. */
  method CallResolver(ee: Emitter, impl: Impl, r: Resolver, args: seq<Value>) returns (out: Outcome)
    modifies ee
    ensures ee.log == old(ee.log) + Invoke(impl, r, args).hits
    ensures out == Invoke(impl, r, args).outcome
    decreases r
  {
    match r
    case Original(id) =>
      out := impl(id, args);
    case Default(name) =>
      var parent := if |args| > 0 then args[0] else Undefined;
      out := ReadProperty(parent, name);
    case Wrapped(typeName, fieldName, originalFn) =>
      ee.Emit(Event(Hit, typeName, fieldName));
      out := CallResolver(ee, impl, originalFn, args);
  }

  /** Announces the field with a `wrap` event and returns the interceptor around `originalFn`. */
  method HitCounter(ee: Emitter, originalFn: Resolver, typeName: string, fieldName: string)
    returns (hitResolver: Resolver)
    modifies ee
    ensures ee.log == old(ee.log) + [Event(Wrap, typeName, fieldName)]
    ensures hitResolver == Wrapped(typeName, fieldName, originalFn)
  {
    ee.Emit(Event(Wrap, typeName, fieldName));
    hitResolver := Wrapped(typeName, fieldName, originalFn);
  }

  // ---------------------------------------------------------------------------------------
  // The walk, as functions of the schema before it

  /** A field once the walker has passed: marked visited, its resolver the interceptor around
      its effective resolver. */
  function WrapField(typeName: string, f: Field): Field {
    f.(resolve := Some(Wrapped(typeName, f.name, EffectiveResolver(f))), visited := true)
  }

  function WrapFields(typeName: string, fields: seq<Field>): seq<Field> {
    seq(|fields|, k requires 0 <= k < |fields| => WrapField(typeName, fields[k]))
  }

  /** The `wrap` events emitted while wrapping `fields`, in field order. */
  function WrapEvents(typeName: string, fields: seq<Field>): seq<Event> {
    seq(|fields|, k requires 0 <= k < |fields| => Event(Wrap, typeName, fields[k].name))
  }

  function WalkType(t: TypeDef): TypeDef {
    if IsWrappable(t) then t.(fields := WrapFields(t.name, t.fields)) else t
  }

  function Walk(types: seq<TypeDef>): seq<TypeDef> {
    seq(|types|, k requires 0 <= k < |types| => WalkType(types[k]))
  }

  function TypeWrapEvents(t: TypeDef): seq<Event> {
    if IsWrappable(t) then WrapEvents(t.name, t.fields) else []
  }

  /** The `wrap` events of a whole walk: type-map order, then field order. */
  function WalkEvents(types: seq<TypeDef>): seq<Event> {
    if types == [] then []
    else WalkEvents(types[..|types| - 1]) + TypeWrapEvents(types[|types| - 1])
  }

  /** (t, f) names a field of a type the walker selects. */
  ghost predicate Discovered(types: seq<TypeDef>, t: string, f: string) {
    exists k, j :: 0 <= k < |types| && 0 <= j < |types[k].fields| && IsWrappable(types[k])
                   && types[k].name == t && types[k].fields[j].name == f
  }

  /** A field whose `resolve` is not an interceptor: how every field of a schema that no
      registration has walked looks. */
  predicate NoInterceptor(f: Field) {
    f.resolve.None? || !f.resolve.value.Wrapped?
  }

  predicate InterceptorFree(types: seq<TypeDef>) {
    forall k, j | 0 <= k < |types| && 0 <= j < |types[k].fields| :: NoInterceptor(types[k].fields[j])
  }

  // ---------------------------------------------------------------------------------------
  // The walk, in place

  /** The fields of a type once the walker has passed its first `j` fields. */
  function PartialWrap(typeName: string, fields: seq<Field>, j: nat): seq<Field> {
    seq(|fields|, k requires 0 <= k < |fields| => if k < j then WrapField(typeName, fields[k]) else fields[k])
  }

  /** Wrapping one more field extends the wrapped prefix and its `wrap` events by that field. */
  lemma WrapStep(typeName: string, fields: seq<Field>, j: nat)
    requires j < |fields|
    ensures PartialWrap(typeName, fields, j + 1) == PartialWrap(typeName, fields, j)[j := WrapField(typeName, fields[j])]
    ensures WrapEvents(typeName, fields[..j + 1])
            == WrapEvents(typeName, fields[..j]) + [Event(Wrap, typeName, fields[j].name)]
  {
  }

  lemma WrapBounds(typeName: string, fields: seq<Field>)
    ensures PartialWrap(typeName, fields, 0) == fields
    ensures PartialWrap(typeName, fields, |fields|) == WrapFields(typeName, fields)
    ensures fields[..|fields|] == fields && WrapEvents(typeName, fields[..0]) == []
  {
  }

  /** The type map once the walk has passed its first `i` types. */
  function PartialWalk(types: seq<TypeDef>, i: nat): seq<TypeDef> {
    seq(|types|, k requires 0 <= k < |types| => if k < i then WalkType(types[k]) else types[k])
  }

  /** Walking one more type extends the walked prefix and its `wrap` events by that type. */
  lemma WalkStep(types: seq<TypeDef>, i: nat)
    requires i < |types|
    ensures PartialWalk(types, i + 1) == PartialWalk(types, i)[i := WalkType(types[i])]
    ensures WalkEvents(types[..i + 1]) == WalkEvents(types[..i]) + TypeWrapEvents(types[i])
  {
    assert types[..i + 1][..i] == types[..i];
  }

  lemma WalkBounds(types: seq<TypeDef>)
    ensures PartialWalk(types, 0) == types
    ensures PartialWalk(types, |types|) == Walk(types)
    ensures types[..|types|] == types && WalkEvents(types[..0]) == []
  {
  }

  /** Wraps every field of the type at position `i`, in field order. */
  method WrapType(schema: GqlSchema, i: nat, ee: Emitter)
    requires i < |schema.typeMap|
    modifies schema, ee
    ensures schema.typeMap == old(schema.typeMap)[i := old(schema.typeMap[i]).(fields := WrapFields(old(schema.typeMap[i]).name, old(schema.typeMap[i]).fields))]
    ensures ee.log == old(ee.log) + WrapEvents(old(schema.typeMap[i]).name, old(schema.typeMap[i]).fields)
  {
    var objectType := schema.typeMap[i];
    var fields := objectType.fields;
    WrapBounds(objectType.name, fields);
    var j := 0;
    while j < |fields|
      invariant 0 <= j <= |fields|
      invariant schema.typeMap == old(schema.typeMap)[i := objectType.(fields := PartialWrap(objectType.name, fields, j))]
      invariant ee.log == old(ee.log) + WrapEvents(objectType.name, fields[..j])
    {
      var typeField := schema.typeMap[i].fields[j];
      WrapStep(objectType.name, fields, j);
      var resolveFn := if typeField.resolve.Some? then typeField.resolve.value else BuildDefaultResolver(typeField);
      typeField := typeField.(visited := true);
      var wrapped := HitCounter(ee, resolveFn, objectType.name, typeField.name);
      typeField := typeField.(resolve := Some(wrapped));
      schema.typeMap := schema.typeMap[i := schema.typeMap[i].(fields := schema.typeMap[i].fields[j := typeField])];
      j := j + 1;
    }
  }

  /** Walks the type map in order and wraps every field of every selected type. The visited
      marker is written but never consulted, so a second walk wraps the fields again. */
  method WrapGqlSchema(schema: GqlSchema, ee: Emitter)
    modifies schema, ee
    ensures schema.typeMap == Walk(old(schema.typeMap))
    ensures ee.log == old(ee.log) + WalkEvents(old(schema.typeMap))
  {
    ghost var before := schema.typeMap;
    WalkBounds(before);
    var n := |schema.typeMap|;
    var i := 0;
    while i < n
      invariant 0 <= i <= n == |before|
      invariant schema.typeMap == PartialWalk(before, i)
      invariant ee.log == old(ee.log) + WalkEvents(before[..i])
    {
      ghost var log := ee.log;
      var t := schema.typeMap[i];
      assert t == before[i];
      WalkStep(before, i);
      if (t.kind == ObjectKind || t.kind == InputObjectKind) && !IsSystemType(t) {
        WrapType(schema, i, ee);
        assert schema.typeMap == PartialWalk(before, i)[i := WalkType(t)];
        assert ee.log == log + TypeWrapEvents(t);
      } else {
        assert WalkType(t) == t && TypeWrapEvents(t) == [];
      }
      i := i + 1;
    }
  }

  // ---------------------------------------------------------------------------------------
  // Properties of the walk

  /** After a walk every field of a selected type is visited and intercepted around its
      effective resolver, under its own (type, field) names; other types are left untouched;
      names, kinds, definition nodes and field names are kept. */
  lemma WalkResult(types: seq<TypeDef>, k: nat)
    requires k < |types|
    ensures |Walk(types)| == |types|
    ensures Walk(types)[k].name == types[k].name && Walk(types)[k].kind == types[k].kind
    ensures Walk(types)[k].hasAstNode == types[k].hasAstNode
    ensures |Walk(types)[k].fields| == |types[k].fields|
    ensures !IsWrappable(types[k]) ==> Walk(types)[k] == types[k]
    ensures IsWrappable(types[k]) ==>
      forall j :: 0 <= j < |types[k].fields| ==>
        var f := types[k].fields[j];
        Walk(types)[k].fields[j] == Field(f.name, Some(Wrapped(types[k].name, f.name, EffectiveResolver(f))), true)
  {
  }

  /** Every event of a walk is a `wrap` event. */
  lemma {:induction false} WalkEventsAreWraps(types: seq<TypeDef>)
    ensures forall k :: 0 <= k < |WalkEvents(types)| ==> WalkEvents(types)[k].kind == Wrap
    decreases |types|
  {
    if types != [] {
      WalkEventsAreWraps(types[..|types| - 1]);
    }
  }

  /** Every `wrap` event of a walk names a field of a selected type. */
  lemma {:induction false} WalkEventsSound(types: seq<TypeDef>, t: string, f: string)
    requires Event(Wrap, t, f) in WalkEvents(types)
    ensures Discovered(types, t, f)
    decreases |types|
  {
    var n := |types| - 1;
    var init, last := types[..n], types[n];
    var e := Event(Wrap, t, f);
    assert WalkEvents(types) == WalkEvents(init) + TypeWrapEvents(last);
    if e in WalkEvents(init) {
      WalkEventsSound(init, t, f);
      var k, j :| 0 <= k < |init| && 0 <= j < |init[k].fields| && IsWrappable(init[k])
                  && init[k].name == t && init[k].fields[j].name == f;
      assert types[k] == init[k];
    } else {
      var j :| 0 <= j < |TypeWrapEvents(last)| && TypeWrapEvents(last)[j] == e;
      assert types[n].fields[j].name == f;
    }
  }

  /** Every field of a selected type is announced by a `wrap` event of the walk. */
  lemma {:induction false} WalkEventsComplete(types: seq<TypeDef>, t: string, f: string)
    requires Discovered(types, t, f)
    ensures Event(Wrap, t, f) in WalkEvents(types)
    decreases |types|
  {
    var n := |types| - 1;
    var init, last := types[..n], types[n];
    var e := Event(Wrap, t, f);
    assert WalkEvents(types) == WalkEvents(init) + TypeWrapEvents(last);
    var k, j :| 0 <= k < |types| && 0 <= j < |types[k].fields| && IsWrappable(types[k])
                && types[k].name == t && types[k].fields[j].name == f;
    if k < n {
      assert init[k] == types[k];
      WalkEventsComplete(init, t, f);
    } else {
      assert TypeWrapEvents(last)[j] == e;
    }
  }

  /** A walk emits a `wrap` event for (t, f) exactly when f is a field of a selected type t. */
  lemma WalkEventsDiscovered(types: seq<TypeDef>, t: string, f: string)
    ensures Event(Wrap, t, f) in WalkEvents(types) <==> Discovered(types, t, f)
  {
    if Event(Wrap, t, f) in WalkEvents(types) {
      WalkEventsSound(types, t, f);
    }
    if Discovered(types, t, f) {
      WalkEventsComplete(types, t, f);
    }
  }

  /** A walked field emits one `hit` for its own (type, field) per call, ahead of whatever its
      effective resolver emits, and ends exactly as that resolver does. */
  lemma WalkedFieldHitsOnce(impl: Impl, types: seq<TypeDef>, k: nat, j: nat, args: seq<Value>)
    requires k < |types| && IsWrappable(types[k]) && j < |types[k].fields|
    ensures k < |Walk(types)| && j < |Walk(types)[k].fields|
    ensures var f := types[k].fields[j];
            Invoke(impl, EffectiveResolver(Walk(types)[k].fields[j]), args)
            == Call([Event(Hit, types[k].name, f.name)] + Invoke(impl, EffectiveResolver(f), args).hits,
                    Invoke(impl, EffectiveResolver(f), args).outcome)
  {
    WalkResult(types, k);
    var f := types[k].fields[j];
    InvokeIsTransparent(impl, EffectiveResolver(f), args);
  }

  /** A field without its own resolver is counted like any other and returns the parent's
      property of its name (`undefined` when absent). */
  lemma DefaultFieldCounted(impl: Impl, types: seq<TypeDef>, k: nat, j: nat, props: map<string, Value>, rest: seq<Value>)
    requires k < |types| && IsWrappable(types[k]) && j < |types[k].fields|
    requires types[k].fields[j].resolve.None?
    ensures k < |Walk(types)| && j < |Walk(types)[k].fields|
    ensures var name := types[k].fields[j].name;
            Invoke(impl, EffectiveResolver(Walk(types)[k].fields[j]), [Record(props)] + rest)
            == Call([Event(Hit, types[k].name, name)], Returned(if name in props then props[name] else Undefined))
  {
    WalkedFieldHitsOnce(impl, types, k, j, [Record(props)] + rest);
  }

  /** Walking keeps every type's selection, so a second walk selects the same types. */
  lemma WalkKeepsSelection(types: seq<TypeDef>, k: nat)
    requires k < |types|
    ensures k < |Walk(types)| && IsWrappable(Walk(types)[k]) == IsWrappable(types[k])
  {
    WalkResult(types, k);
  }

  /** Walking twice, which only a second registration does, nests a second interceptor around
      the first: one call emits two `hit` events for the field ahead of whatever its effective
      resolver emits, and still ends as that resolver does. */
  lemma WalkTwiceEmitsTwice(impl: Impl, types: seq<TypeDef>, k: nat, j: nat, args: seq<Value>)
    requires k < |types| && IsWrappable(types[k]) && j < |types[k].fields|
    ensures k < |Walk(Walk(types))| && j < |Walk(Walk(types))[k].fields|
    ensures var f := types[k].fields[j];
            var hit := Event(Hit, types[k].name, f.name);
            && Walk(Walk(types))[k].fields[j].resolve
               == Some(Wrapped(types[k].name, f.name, Wrapped(types[k].name, f.name, EffectiveResolver(f))))
            && Invoke(impl, EffectiveResolver(Walk(Walk(types))[k].fields[j]), args)
               == Call([hit, hit] + Invoke(impl, EffectiveResolver(f), args).hits,
                       Invoke(impl, EffectiveResolver(f), args).outcome)
  {
    WalkResult(types, k);
    WalkKeepsSelection(types, k);
    WalkResult(Walk(types), k);
  }

  /** Consequently a walk is not idempotent on any schema with a selected type that has a field. */
  lemma WalkNotIdempotent(types: seq<TypeDef>, k: nat)
    requires k < |types| && IsWrappable(types[k]) && |types[k].fields| > 0
    ensures Walk(Walk(types)) != Walk(types)
  {
    WalkResult(types, k);
    WalkKeepsSelection(types, k);
    WalkResult(Walk(types), k);
    var f := Walk(types)[k].fields[0];
    assert Walk(Walk(types))[k].fields[0].resolve.value.inner == f.resolve.value;
  }

  /** A field of a type the walk does not select emits nothing when resolved: it never reaches
      the hit map. */
  lemma UnselectedFieldEmitsNothing(impl: Impl, types: seq<TypeDef>, k: nat, j: nat, args: seq<Value>)
    requires k < |types| && !IsWrappable(types[k]) && j < |types[k].fields|
    requires NoInterceptor(types[k].fields[j])
    ensures k < |Walk(types)| && j < |Walk(types)[k].fields|
    ensures Invoke(impl, EffectiveResolver(Walk(types)[k].fields[j]), args).hits == []
  {
    WalkResult(types, k);
  }

  /** A field of a selected type, walked once, emits exactly its own `hit` per resolution. */
  lemma SelectedFieldEmitsOneHit(impl: Impl, types: seq<TypeDef>, k: nat, j: nat, args: seq<Value>)
    requires k < |types| && IsWrappable(types[k]) && j < |types[k].fields|
    requires NoInterceptor(types[k].fields[j])
    ensures k < |Walk(types)| && j < |Walk(types)[k].fields|
    ensures Invoke(impl, EffectiveResolver(Walk(types)[k].fields[j]), args).hits
            == [Event(Hit, types[k].name, types[k].fields[j].name)]
  {
    WalkedFieldHitsOnce(impl, types, k, j, args);
  }
}
