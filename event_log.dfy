/** The plugin's event emitter, reduced to the one thing counting depends on:
    the ordered log of the events it has emitted. */
module EventLog {

  /** The two event names the plugin emits: `wrap` at instrumentation time, `hit` at resolution time. */
  datatype EventKind = Wrap | Hit

  /** An emitted event. The raw type and field handles the source attaches are left out. */
  datatype Event = Event(kind: EventKind, typeName: string, fieldName: string)

  predicate IsHitFor(e: Event, typeName: string, fieldName: string) {
    e.kind == Hit && e.typeName == typeName && e.fieldName == fieldName
  }

  /** The number of `hit` events for (typeName, fieldName) in `events`. */
  function HitsFor(events: seq<Event>, typeName: string, fieldName: string): nat
  {
    if events == [] then 0
    else HitsFor(events[..|events| - 1], typeName, fieldName)
         + (if IsHitFor(events[|events| - 1], typeName, fieldName) then 1 else 0)
  }

  /** The number of `hit` events for any field of `typeName` in `events`. */
  function HitsForType(events: seq<Event>, typeName: string): nat
  {
    if events == [] then 0
    else HitsForType(events[..|events| - 1], typeName)
         + (if events[|events| - 1].kind == Hit && events[|events| - 1].typeName == typeName then 1 else 0)
  }

  lemma {:induction false} HitsForConcat(a: seq<Event>, b: seq<Event>, typeName: string, fieldName: string)
    ensures HitsFor(a + b, typeName, fieldName) == HitsFor(a, typeName, fieldName) + HitsFor(b, typeName, fieldName)
    decreases |b|
  {
    if b == [] {
      assert a + b == a;
    } else {
      var b' := b[..|b| - 1];
      assert (a + b)[..|a + b| - 1] == a + b';
      assert (a + b)[|a + b| - 1] == b[|b| - 1];
      HitsForConcat(a, b', typeName, fieldName);
    }
  }

  /** Appending one event adds one to the count of its own key and nothing to the others. */
  lemma HitsForSnoc(events: seq<Event>, e: Event, typeName: string, fieldName: string)
    ensures HitsFor(events + [e], typeName, fieldName)
         == HitsFor(events, typeName, fieldName) + (if IsHitFor(e, typeName, fieldName) then 1 else 0)
  {
    assert (events + [e])[..|events|] == events;
  }

  /** A type is hit only through a hit on one of its fields. */
  lemma {:induction false} TypeHitHasFieldHit(events: seq<Event>, typeName: string)
    requires HitsForType(events, typeName) > 0
    ensures exists fieldName :: HitsFor(events, typeName, fieldName) > 0
    decreases |events|
  {
    var init, last := events[..|events| - 1], events[|events| - 1];
    if last.kind == Hit && last.typeName == typeName {
      assert HitsFor(events, typeName, last.fieldName) > 0;
    } else {
      TypeHitHasFieldHit(init, typeName);
      var fieldName :| HitsFor(init, typeName, fieldName) > 0;
      assert HitsFor(events, typeName, fieldName) > 0;
    }
  }

  /** A key's count is the multiplicity of its `hit` event in the log, so it does not depend
      on the order in which the events were emitted. */
  lemma {:induction false} HitsForMultiset(events: seq<Event>, typeName: string, fieldName: string)
    ensures HitsFor(events, typeName, fieldName) == multiset(events)[Event(Hit, typeName, fieldName)]
    decreases |events|
  {
    if events != [] {
      var init := events[..|events| - 1];
      assert events == init + [events[|events| - 1]];
      HitsForMultiset(init, typeName, fieldName);
    }
  }

  /** A key with a positive count has a `hit` event for it somewhere in the log. */
  lemma {:induction false} HitsForWitness(events: seq<Event>, typeName: string, fieldName: string)
    requires HitsFor(events, typeName, fieldName) > 0
    ensures exists k :: 0 <= k < |events| && IsHitFor(events[k], typeName, fieldName)
    decreases |events|
  {
    var n := |events| - 1;
    if !IsHitFor(events[n], typeName, fieldName) {
      HitsForWitness(events[..n], typeName, fieldName);
      var k :| 0 <= k < n && IsHitFor(events[..n][k], typeName, fieldName);
      assert events[k] == events[..n][k];
    }
  }

  /** The emitter: `emit` appends to the log; delivery to listeners is modelled by the listeners
      reading the log in order. */
  class Emitter {
    var log: seq<Event>

    constructor ()
      ensures log == []
    {
      log := [];
    }

    method Emit(e: Event)
      modifies this
      ensures log == old(log) + [e]
    {
      log := log + [e];
    }
  }
}
