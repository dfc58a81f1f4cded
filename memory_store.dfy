/** The in-memory hit store: a two-level table typeName -> fieldName -> count, updated by the
    listener the store registers for `hit` events. */
module HitStore {
  import opened EventLog

  type Table = map<string, map<string, nat>>

  /** Whether the table holds an entry for (t, f). */
  predicate HasEntry(s: Table, t: string, f: string) {
    t in s && f in s[t]
  }

  /** The count stored for (t, f), a missing entry read as 0. */
  function Count(s: Table, t: string, f: string): nat {
    if HasEntry(s, t, f) then s[t][f] else 0
  }

  /** Every stored count is at least 1. */
  predicate AllPositive(s: Table) {
    forall t, f :: t in s && f in s[t] ==> s[t][f] >= 1
  }

  /** The table after one `storeHit(t, f)`: the key's count has grown by one, and the type now
      has an entry; the lemmas below say that nothing else changes. */
  function Bump(s: Table, t: string, f: string): (r: Table)
    ensures Count(r, t, f) == Count(s, t, f) + 1
    ensures r.Keys == s.Keys + {t}
  {
    var inner := if t in s then s[t] else map[];
    s[t := inner[f := Count(s, t, f) + 1]]
  }

  /** `storeHit(t, f)` adds exactly one to the count of (t, f) and leaves every other key's
      count as it was, sibling fields of the same type included. */
  lemma BumpCount(s: Table, t: string, f: string, t': string, f': string)
    ensures Count(Bump(s, t, f), t', f') == Count(s, t', f') + (if t' == t && f' == f then 1 else 0)
  {
  }

  /** `storeHit(t, f)` creates the entry for (t, f) if it was missing, and no other entry. */
  lemma BumpEntry(s: Table, t: string, f: string, t': string, f': string)
    ensures HasEntry(Bump(s, t, f), t', f') <==> HasEntry(s, t', f') || (t' == t && f' == f)
  {
  }

  /** `storeHit` never stores a count below 1. */
  lemma BumpPositive(s: Table, t: string, f: string)
    requires AllPositive(s)
    ensures AllPositive(Bump(s, t, f))
  {
  }

  /** What the `hit` listener does with one emitted event: only `hit` events reach `storeHit`. */
  function Deliver(s: Table, e: Event): (r: Table)
    ensures e.kind == Wrap ==> r == s
    ensures e.kind == Hit ==> Count(r, e.typeName, e.fieldName) == Count(s, e.typeName, e.fieldName) + 1
    ensures e.kind == Hit ==> r.Keys == s.Keys + {e.typeName}
  {
    if e.kind == Hit then Bump(s, e.typeName, e.fieldName) else s
  }

  /** The table after delivering `events` in order. */
  function Replay(s: Table, events: seq<Event>): Table
  {
    if events == [] then s
    else Deliver(Replay(s, events[..|events| - 1]), events[|events| - 1])
  }

  /** The count for a key grows by exactly the number of `hit` events for it. */
  lemma {:induction false} ReplayCounts(s: Table, events: seq<Event>, t: string, f: string)
    ensures Count(Replay(s, events), t, f) == Count(s, t, f) + HitsFor(events, t, f)
    decreases |events|
  {
    if events != [] {
      var e := events[|events| - 1];
      ReplayCounts(s, events[..|events| - 1], t, f);
      BumpCount(Replay(s, events[..|events| - 1]), e.typeName, e.fieldName, t, f);
    }
  }

  lemma ReplayCountsAll(s: Table, events: seq<Event>)
    ensures forall t, f :: Count(Replay(s, events), t, f) == Count(s, t, f) + HitsFor(events, t, f)
  {
    forall t, f ensures Count(Replay(s, events), t, f) == Count(s, t, f) + HitsFor(events, t, f) {
      ReplayCounts(s, events, t, f);
    }
  }

  /** An entry exists afterwards iff it existed before or some `hit` event named it. */
  lemma {:induction false} ReplayEntries(s: Table, events: seq<Event>, t: string, f: string)
    ensures HasEntry(Replay(s, events), t, f) <==> HasEntry(s, t, f) || HitsFor(events, t, f) > 0
    decreases |events|
  {
    if events != [] {
      var e := events[|events| - 1];
      ReplayEntries(s, events[..|events| - 1], t, f);
      BumpEntry(Replay(s, events[..|events| - 1]), e.typeName, e.fieldName, t, f);
    }
  }

  /** A type key exists afterwards iff it existed before or some `hit` event named that type. */
  lemma {:induction false} ReplayTypeKeys(s: Table, events: seq<Event>, t: string)
    ensures t in Replay(s, events) <==> t in s || HitsForType(events, t) > 0
    decreases |events|
  {
    if events != [] {
      ReplayTypeKeys(s, events[..|events| - 1], t);
    }
  }

  /** Two tables with the same type keys, the same entries and the same counts are equal. */
  lemma TablesEqual(a: Table, b: Table)
    requires forall t :: t in a <==> t in b
    requires forall t, f :: HasEntry(a, t, f) <==> HasEntry(b, t, f)
    requires forall t, f :: Count(a, t, f) == Count(b, t, f)
    ensures a == b
  {
    forall t | t in a
      ensures a[t] == b[t]
    {
      assert forall f :: f in a[t] <==> HasEntry(a, t, f);
      assert forall f | f in a[t] :: a[t][f] == Count(a, t, f);
      assert forall f | f in b[t] :: b[t][f] == Count(b, t, f);
    }
  }

  /** No delivery ever stores a count below 1. */
  lemma {:induction false} ReplayPositive(s: Table, events: seq<Event>)
    requires AllPositive(s)
    ensures AllPositive(Replay(s, events))
    decreases |events|
  {
    if events != [] {
      var e := events[|events| - 1];
      ReplayPositive(s, events[..|events| - 1]);
      BumpPositive(Replay(s, events[..|events| - 1]), e.typeName, e.fieldName);
    }
  }

  /** Delivering two logs one after the other is delivering their concatenation. */
  lemma {:induction false} ReplayConcat(s: Table, a: seq<Event>, b: seq<Event>)
    ensures Replay(s, a + b) == Replay(Replay(s, a), b)
    decreases |b|
  {
    if b == [] {
      assert a + b == a;
    } else {
      var b' := b[..|b| - 1];
      assert (a + b)[..|a + b| - 1] == a + b';
      ReplayConcat(s, a, b');
    }
  }

  /** Counts never decrease as more events are delivered. */
  lemma ReplayMonotone(s: Table, a: seq<Event>, b: seq<Event>, t: string, f: string)
    ensures Count(Replay(s, a), t, f) <= Count(Replay(s, a + b), t, f)
  {
    ReplayConcat(s, a, b);
    ReplayCounts(Replay(s, a), b, t, f);
  }

  /** A log of `wrap` events only leaves the table as it is. */
  lemma {:induction false} ReplayIgnoresWraps(s: Table, events: seq<Event>)
    requires forall k :: 0 <= k < |events| ==> events[k].kind == Wrap
    ensures Replay(s, events) == s
    decreases |events|
  {
    if events != [] {
      ReplayIgnoresWraps(s, events[..|events| - 1]);
    }
  }

  /** Delivering one more event of a log extends the delivered slice by that event. */
  lemma ReplayStep(s: Table, log: seq<Event>, from: nat, to: nat)
    requires from <= to < |log|
    ensures Replay(s, log[from..to + 1]) == Deliver(Replay(s, log[from..to]), log[to])
  {
    assert log[from..to + 1][..to - from] == log[from..to];
  }

  /** Delivering a log from `start` is delivering it up to `mid`, then the rest. */
  lemma ReplaySlices(log: seq<Event>, start: nat, mid: nat)
    requires start <= mid <= |log|
    ensures Replay(map[], log[start..]) == Replay(Replay(map[], log[start..mid]), log[mid..])
  {
    assert log[start..] == log[start..mid] + log[mid..];
    ReplayConcat(map[], log[start..mid], log[mid..]);
  }

  class MemoryStore {
    var store: Table
    /** The emitter the store subscribed to, and the log position at which it subscribed. */
    const eventEmitter: Emitter
    const start: nat
    /** How far into the emitter's log the `hit` listener has been delivered. */
    var consumed: nat

    /** The store holds exactly the effect of the events delivered since it subscribed. */
    ghost predicate Valid()
      reads this, eventEmitter
    {
      start <= consumed <= |eventEmitter.log|
      && store == Replay(map[], eventEmitter.log[start..consumed])
    }

    /** Creates an empty table and subscribes to `hit` events: only events emitted from now on reach it. */
    constructor (eventEmitter: Emitter)
      ensures Valid()
      ensures store == map[]
      ensures this.eventEmitter == eventEmitter
      ensures start == consumed == |eventEmitter.log|
    {
      this.store := map[];
      this.eventEmitter := eventEmitter;
      this.start := |eventEmitter.log|;
      this.consumed := |eventEmitter.log|;
    }

    /** Records one hit: creates the missing type and field entries, then increments. */
    method StoreHit(hitEvent: Event)
      modifies this`store
      ensures store == Bump(old(store), hitEvent.typeName, hitEvent.fieldName)
    {
      var typeName, fieldName := hitEvent.typeName, hitEvent.fieldName;
      ghost var s0 := store;
      ghost var inner := if typeName in s0 then s0[typeName] else map[];
      ghost var count := Count(s0, typeName, fieldName);
      if typeName !in store {
        store := store[typeName := map[]];
      }
      assert store == s0[typeName := inner];
      if fieldName !in store[typeName] || store[typeName][fieldName] == 0 {
        store := store[typeName := store[typeName][fieldName := 0]];
      } else {
        assert inner[fieldName := count] == inner;
      }
      assert store == s0[typeName := inner[fieldName := count]];
      assert store[typeName][fieldName := count + 1] == inner[fieldName := count + 1];
      store := store[typeName := store[typeName][fieldName := store[typeName][fieldName] + 1]];
      assert store == s0[typeName := inner[fieldName := count + 1]];
    }

    /** Delivers every event emitted since the last delivery, in order, to the `hit` listener;
        `wrap` events have no listener in the store. */
    method Dispatch()
      requires Valid()
      modifies this`store, this`consumed
      ensures Valid()
      ensures consumed == |eventEmitter.log|
      ensures store == Replay(old(store), eventEmitter.log[old(consumed)..])
    {
      ghost var s0, c0 := store, consumed;
      ghost var log := eventEmitter.log;
      assert log[c0..consumed] == [];
      while consumed < |eventEmitter.log|
        invariant c0 <= consumed <= |log| && eventEmitter.log == log
        invariant store == Replay(s0, log[c0..consumed])
        invariant s0 == Replay(map[], log[start..c0])
        decreases |log| - consumed
      {
        ghost var prev := store;
        var e := eventEmitter.log[consumed];
        ReplayStep(s0, log, c0, consumed);
        if e.kind == Hit {
          StoreHit(e);
        }
        assert store == Deliver(prev, e);
        consumed := consumed + 1;
      }
      assert log[start..consumed] == log[start..] && log[c0..consumed] == log[c0..];
      ReplaySlices(log, start, c0);
    }

    /** A top-level copy of the table: the same type keys, each mapped to the same inner table,
        so as a value the copy is the table itself. */
    function ReadHits(): (hits: Table)
      reads this
      ensures hits == store
    {
      map t | t in store :: store[t]
    }
  }

  /** Every count a valid store holds is at least 1: zero-count entries never appear. */
  lemma StoredCountsPositive(m: MemoryStore)
    requires m.Valid()
    ensures AllPositive(m.store)
  {
    ReplayPositive(map[], m.eventEmitter.log[m.start..m.consumed]);
  }
}
