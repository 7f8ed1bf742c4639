/**
  One commit's events, handled as a batch: each touched entity is recomputed once, whatever the number
  of its events, and a definition event anywhere in the batch is honoured before the first recompute.
 */
module BatchDispatch {
  import opened Computed
  import opened Options
  import opened Sequences
  import opened Materializer

  datatype Key = Key(tenant: string, typeId: string, entityId: string)

  /** A link event concerns rollups only; an event whose payload does not decode is reported and passed over. */
  datatype Event =
    | DefinitionEvent(rebuild: Option<string>)
    | LinkEvent
    | ValueEvent(key: Key)
    | Undecodable

  predicate Touches(events: seq<Event>, k: Key) {
    ValueEvent(k) in events
  }

  predicate ChangesDefinitions(events: seq<Event>) {
    exists i :: 0 <= i < |events| && events[i].DefinitionEvent?
  }

  /** By first event: whoever is touched earlier is listed earlier. */
  predicate InTouchOrder(events: seq<Event>, order: seq<Key>) {
    forall i, j, e :: 0 <= i < j < |order| && 0 <= e < |events| && events[e] == ValueEvent(order[j]) ==>
      ValueEvent(order[i]) in events[..e]
  }

  /** Each touched entity once, in order of its first event. */
  ghost predicate Coalesced(events: seq<Event>, order: seq<Key>) {
    && Distinct(order) && InTouchOrder(events, order)
    && (forall k :: k in order <==> Touches(events, k))
  }

  /** Each type whose definitions changed once. */
  ghost predicate Rebuilds(events: seq<Event>, types: seq<string>) {
    Distinct(types) && forall t :: t in types <==> DefinitionEvent(Some(t)) in events
  }

  function Append<T(==)>(xs: seq<T>, x: Option<T>): seq<T> {
    if x.Some? && x.value !in xs then xs + [x.value] else xs
  }

  function KeyOf(e: Event): Option<Key> {
    if e.ValueEvent? then Some(e.key) else None
  }

  function RebuildOf(e: Event): Option<string> {
    if e.DefinitionEvent? then e.rebuild else None
  }

  lemma CoalescedOneMore(before: seq<Event>, e: Event, order: seq<Key>)
    requires Coalesced(before, order)
    ensures Coalesced(before + [e], Append(order, KeyOf(e)))
  {
    var events, order' := before + [e], Append(order, KeyOf(e));
    forall i, j, x | 0 <= i < j < |order'| && 0 <= x < |events| && events[x] == ValueEvent(order'[j])
      ensures ValueEvent(order'[i]) in events[..x]
    {
      if x < |before| {
        assert Touches(before, order'[j]) && events[..x] == before[..x];
      } else {
        assert events[..x] == before && Touches(before, order'[i]);
      }
    }
  }

  lemma RebuildsOneMore(before: seq<Event>, e: Event, types: seq<string>)
    requires Rebuilds(before, types)
    ensures Rebuilds(before + [e], Append(types, RebuildOf(e)))
  {
  }

  /** How many payloads do not decode. */
  function ErrorsIn(events: seq<Event>): nat {
    multiset(events)[Undecodable]
  }

  lemma DefinitionsOneMore(before: seq<Event>, e: Event)
    ensures ChangesDefinitions(before + [e]) <==> ChangesDefinitions(before) || e.DefinitionEvent?
  {
    var events := before + [e];
    assert events[|before|] == e;
    if i :| 0 <= i < |before| && before[i].DefinitionEvent? { assert events[i].DefinitionEvent?; }
  }

  /** Each entity once, each rebuilt type once. */
  method Coalesce(events: seq<Event>) returns (order: seq<Key>, rebuilds: seq<string>, invalidated: bool, errors: nat)
    ensures Coalesced(events, order) && Rebuilds(events, rebuilds)
    ensures invalidated <==> ChangesDefinitions(events)
    ensures errors == ErrorsIn(events)
  {
    var seen: set<Key> := {};
    var rebuilt: set<string> := {};
    order, rebuilds, invalidated, errors := [], [], false, 0;
    for n := 0 to |events|
      invariant Coalesced(events[..n], order) && (forall k :: k in seen <==> k in order)
      invariant Rebuilds(events[..n], rebuilds) && (forall t :: t in rebuilt <==> t in rebuilds)
      invariant invalidated <==> ChangesDefinitions(events[..n])
      invariant errors == ErrorsIn(events[..n])
    {
      assert events[..n + 1] == events[..n] + [events[n]];
      CoalescedOneMore(events[..n], events[n], order);
      RebuildsOneMore(events[..n], events[n], rebuilds);
      DefinitionsOneMore(events[..n], events[n]);
      match events[n] {
        case DefinitionEvent(rebuild) =>
          invalidated := true;
          if rebuild.Some? && rebuild.value !in rebuilt {
            rebuilt := rebuilt + {rebuild.value};
            rebuilds := rebuilds + [rebuild.value];
          }
        case LinkEvent =>
        case Undecodable => errors := errors + 1;
        case ValueEvent(k) =>
          if k !in seen {
            seen := seen + {k};
            order := order + [k];
          }
      }
    }
    assert events[..|events|] == events;
  }

  /** The materializer over every entity of the tenants it serves. */
  class Projection<V(==,!new)> {
    const entities: map<Key, Entity<V>>

    constructor (entities: map<Key, Entity<V>>)
      ensures this.entities == entities
    {
      this.entities := entities;
    }

    ghost predicate WellFormed() {
      && (forall k :: k in entities ==> entities[k].WellFormed())
      && (forall k, l :: k in entities && l in entities && entities[k] == entities[l] ==> k == l)
    }

    ghost predicate FastPathsRight()
      reads entities.Values
    {
      forall k :: k in entities ==> entities[k].FastPathRight()
    }

    /** What the fast path remembers of every type is dropped. */
    method Invalidate()
      requires WellFormed()
      modifies entities.Values
      ensures FastPathsRight()
      ensures forall k :: k in entities ==> entities[k].hasComputed == None && entities[k].cells == old(entities[k].cells)
    {
      var todo := entities.Keys;
      while todo != {}
        invariant todo <= entities.Keys
        invariant forall k :: k in entities ==> entities[k].cells == old(entities[k].cells)
        invariant forall k :: k in entities.Keys - todo ==> entities[k].hasComputed == None
        decreases todo
      {
        var k :| k in todo;
        entities[k].hasComputed := None;
        todo := todo - {k};
      }
    }

    /** One entity's turn. */
    method RecomputeOne(k: Key) returns (ok: bool)
      requires k in entities && entities[k].WellFormed() && entities[k].Accepting() && entities[k].FastPathRight()
      modifies entities[k]
      ensures entities[k].FastPathRight() && (entities[k].RefusesNothing() ==> ok)
      ensures ViewOf(entities[k].cells) == Solve(entities[k].order, ViewOf(old(entities[k].cells)))
    {
      var entity := entities[k];
      ok := entity.Recompute();
      KeptIsSameOutside(entity.order, old(entity.cells), entity.cells);
      SettledIsSolved(entity.order, ViewOf(old(entity.cells)), entity.cells);
    }

    /** Afterwards every touched entity holds the one solution of its formulas over its own sources, and no
        other entity has changed.  A stale fast path is harmless when the batch says definitions changed.
        The recomputes that stopped at a refused write are reported in `failed`. */
    method HandleBatch(events: seq<Event>) returns (recomputed: seq<Key>, rebuilds: seq<string>, errors: nat, failed: seq<Key>)
      requires WellFormed() && (FastPathsRight() || ChangesDefinitions(events))
      requires forall k :: Touches(events, k) ==> k in entities && entities[k].Accepting()
      modifies entities.Values
      ensures FastPathsRight()
      ensures Coalesced(events, recomputed) && Rebuilds(events, rebuilds) && errors == ErrorsIn(events)
      ensures forall k :: k in failed ==> Touches(events, k) && k in entities && !entities[k].RefusesNothing()
      ensures forall k :: k in entities && Touches(events, k) ==>
        ViewOf(entities[k].cells) == Solve(entities[k].order, ViewOf(old(entities[k].cells)))
      ensures forall k :: k in entities && !Touches(events, k) ==> entities[k].cells == old(entities[k].cells)
    {
      var invalidated;
      recomputed, rebuilds, invalidated, errors := Coalesce(events);
      if invalidated { Invalidate(); }
      failed := [];
      for n := 0 to |recomputed|
        invariant FastPathsRight()
        invariant forall k :: k in failed ==> k in recomputed && !entities[k].RefusesNothing()
        invariant forall k :: k in recomputed[..n] ==>
          ViewOf(entities[k].cells) == Solve(entities[k].order, ViewOf(old(entities[k].cells)))
        invariant forall k :: k in entities && k !in recomputed[..n] ==> entities[k].cells == old(entities[k].cells)
      {
        var k := recomputed[n];
        assert recomputed[..n + 1] == recomputed[..n] + [k];
        var ok := RecomputeOne(k);
        if !ok { failed := failed + [k]; }
      }
      assert recomputed[..|recomputed|] == recomputed;
    }
  }
}
