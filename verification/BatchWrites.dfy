/**
  Writing a batch of mutations, and previewing it.

  A batch is applied in canonical entity order so that concurrent transactions take
  summary-row locks in one order (see LockOrder).  The caller never asked for that order and
  must not be able to tell: what the transaction stores is what the caller's own order
  would have stored.  What happens after the commit is the subject of Publishing.
 */
module BatchWrites {
  import opened Ordering
  import opened Options
  import opened Mutations

  // ------------------------------------------------------------ canonical order

  function KeyAt(keys: seq<string>, i: int): string {
    if 0 <= i < |keys| then keys[i] else ""
  }

  /** The comparison of the sort: entity ids, and nothing else. */
  function ByKey(keys: seq<string>): (int, int) -> bool {
    (i, j) => StrLeq(KeyAt(keys, i), KeyAt(keys, j))
  }

  lemma ByKeyIsPreorder(keys: seq<string>)
    ensures TotalPreorder(ByKey(keys))
  {
    forall i, j ensures ByKey(keys)(i, j) || ByKey(keys)(j, i) {
      StrLessTrichotomy(KeyAt(keys, i), KeyAt(keys, j));
    }
    forall i, j, k | ByKey(keys)(i, j) && ByKey(keys)(j, k) ensures ByKey(keys)(i, k) {
      StrLeqTransitive(KeyAt(keys, i), KeyAt(keys, j), KeyAt(keys, k));
    }
  }

  lemma TiedIsSameKey(keys: seq<string>, i: int, j: int)
    ensures Tied(i, j, ByKey(keys)) <==> KeyAt(keys, i) == KeyAt(keys, j)
  {
    StrLessTrichotomy(KeyAt(keys, i), KeyAt(keys, j));
  }

  function Indices(n: nat): (r: seq<int>)
    ensures |r| == n && forall i :: 0 <= i < n ==> r[i] == i
  {
    seq(n, i => i)
  }

  /** By entity id, ties in the caller's order. */
  predicate Precedes(keys: seq<string>, i: int, j: int) {
    StrLess(KeyAt(keys, i), KeyAt(keys, j)) || (KeyAt(keys, i) == KeyAt(keys, j) && i < j)
  }

  /** The indices of the items sorted by entity id, ties in the caller's order. */
  method CanonicalOrder(keys: seq<string>) returns (order: seq<int>)
    ensures multiset(order) == multiset(Indices(|keys|))
    ensures IsStableSort(Indices(|keys|), order, ByKey(keys))
    ensures forall a, b :: 0 <= a < b < |order| ==> Precedes(keys, order[a], order[b])
  {
    order := [];
    for i := 0 to |keys|
      invariant order == Indices(i)
    {
      order := order + [i];
    }
    order := StableSort(order, ByKey(keys));
    ByKeyIsPreorder(keys);
    StableSortIsStableSort(Indices(|keys|), ByKey(keys));
    StableOrderIsStrict(keys, order);
  }

  lemma StableOrderIsStrict(keys: seq<string>, order: seq<int>)
    requires IsStableSort(Indices(|keys|), order, ByKey(keys))
    ensures forall a, b :: 0 <= a < b < |order| ==> Precedes(keys, order[a], order[b])
  {
    forall a, b | 0 <= a < b < |order|
      ensures Precedes(keys, order[a], order[b])
    {
      assert ByKey(keys)(order[a], order[b]);
      StrLessTrichotomy(KeyAt(keys, order[a]), KeyAt(keys, order[b]));
      if KeyAt(keys, order[a]) == KeyAt(keys, order[b]) {
        var z := order[a];
        TiedIsSameKey(keys, order[b], z);
        TiedIsSameKey(keys, z, z);
        assert Class(order, z, ByKey(keys)) == Class(Indices(|keys|), z, ByKey(keys));
        ClassIncreases(Indices(|keys|), z, ByKey(keys));
        ClassHasBoth(order, a, b, z, ByKey(keys));
      }
    }
  }

  /** A class of an increasing list is increasing... */
  lemma {:induction false} ClassIncreases(xs: seq<int>, z: int, le: (int, int) -> bool)
    requires forall i, j :: 0 <= i < j < |xs| ==> xs[i] < xs[j]
    ensures forall i, j :: 0 <= i < j < |Class(xs, z, le)| ==> Class(xs, z, le)[i] < Class(xs, z, le)[j]
  {
    if |xs| == 0 {
    } else {
      ClassIncreases(xs[1..], z, le);
      var rest := Class(xs[1..], z, le);
      forall j | 0 <= j < |rest| ensures xs[0] < rest[j] {
        assert rest[j] in xs[1..];
      }
    }
  }

  /** ...and keeps two members of the list in their order. */
  lemma {:induction false} ClassHasBoth(xs: seq<int>, a: nat, b: nat, z: int, le: (int, int) -> bool)
    requires a < b < |xs| && Tied(xs[a], z, le) && Tied(xs[b], z, le)
    ensures exists i, j :: 0 <= i < j < |Class(xs, z, le)| && Class(xs, z, le)[i] == xs[a] && Class(xs, z, le)[j] == xs[b]
  {
    var c, rest := Class(xs, z, le), Class(xs[1..], z, le);
    var d := if Tied(xs[0], z, le) then 1 else 0;
    if a == 0 {
      assert xs[1..][b - 1] == xs[b] && xs[b] in rest;
      var j :| 0 <= j < |rest| && rest[j] == xs[b];
      assert c[0] == xs[0] && c[j + 1] == xs[b];
    } else {
      ClassHasBoth(xs[1..], a - 1, b - 1, z, le);
      var i, j :| 0 <= i < j < |rest| && rest[i] == xs[1..][a - 1] && rest[j] == xs[1..][b - 1];
      assert c[i + d] == xs[a] && c[j + d] == xs[b];
    }
  }

  // ------------------------------------------------------------------- overlay

  /** A single-valued cell of an entity. */
  datatype Scope = Scope(attribute: string, locale: string, channel: string)
  datatype CellKey = CellKey(entity: string, scope: Scope)

  function ScopeOf(m: Mutation): Scope {
    Scope(m.attribute, m.locale, m.channel)
  }

  /** Decoding a raw value; None when the attribute or the value is refused. */
  type Parse<!V> = (string, string) -> Option<V>

  /** One mutation's effect on the cells of its own entity. */
  function Effect<V>(parse: Parse<V>, cells: map<Scope, V>, m: Mutation): map<Scope, V> {
    if m.kind == "remove" then cells - {ScopeOf(m)}
    else if m.kind == "set" && parse(m.attribute, m.value).Some? then cells[ScopeOf(m) := parse(m.attribute, m.value).value]
    else cells
  }

  /** A list of mutations' effect on the cells of one entity, first to last. */
  function Overlay<V>(parse: Parse<V>, cells: map<Scope, V>, muts: seq<Mutation>): map<Scope, V> {
    if |muts| == 0 then cells
    else
      var k := |muts| - 1;
      Effect(parse, Overlay(parse, cells, muts[..k]), muts[k])
  }

  /** The mutations of one entity, in the batch's order. */
  function ForEntity(muts: seq<Mutation>, entity: string): seq<Mutation> {
    if |muts| == 0 then []
    else
      var k := |muts| - 1;
      ForEntity(muts[..k], entity) + if muts[k].entity == entity then [muts[k]] else []
  }

  function CellsOf<V>(cells: map<CellKey, V>, entity: string): map<Scope, V> {
    map k | k in cells && k.entity == entity :: k.scope := cells[k]
  }

  predicate InRange(muts: seq<Mutation>, idxs: seq<int>) {
    forall k :: 0 <= k < |idxs| ==> 0 <= idxs[k] < |muts|
  }

  function Picked(muts: seq<Mutation>, idxs: seq<int>): (r: seq<Mutation>)
    requires InRange(muts, idxs)
    ensures |r| == |idxs| && forall k :: 0 <= k < |idxs| ==> r[k] == muts[idxs[k]]
  {
    seq(|idxs|, k requires 0 <= k < |idxs| => muts[idxs[k]])
  }

  function EntitiesOf(muts: seq<Mutation>): (ks: seq<string>)
    ensures |ks| == |muts| && forall i :: 0 <= i < |muts| ==> ks[i] == muts[i].entity
  {
    seq(|muts|, i requires 0 <= i < |muts| => muts[i].entity)
  }

  lemma {:induction false} ForEntityConcat(xs: seq<Mutation>, ys: seq<Mutation>, entity: string)
    ensures ForEntity(xs + ys, entity) == ForEntity(xs, entity) + ForEntity(ys, entity)
  {
    if |ys| == 0 {
      assert xs + ys == xs;
    } else {
      var k := |ys| - 1;
      assert (xs + ys)[..|xs + ys| - 1] == xs + ys[..k];
      ForEntityConcat(xs, ys[..k], entity);
    }
  }

  /** The mutations of one entity, picked by index, are the picked class of its indices. */
  lemma {:induction false} ForEntityIsClass(muts: seq<Mutation>, idxs: seq<int>, z: int, entity: string)
    requires InRange(muts, idxs) && 0 <= z < |muts| && muts[z].entity == entity
    ensures InRange(muts, Class(idxs, z, ByKey(EntitiesOf(muts))))
    ensures ForEntity(Picked(muts, idxs), entity) == Picked(muts, Class(idxs, z, ByKey(EntitiesOf(muts))))
  {
    if |idxs| == 0 {
    } else {
      ForEntityIsClass(muts, idxs[1..], z, entity);
      TiedIsSameKey(EntitiesOf(muts), idxs[0], z);
      ForEntityPickedFirst(muts, idxs, entity);
      PickedFirst(muts, idxs[0], Class(idxs[1..], z, ByKey(EntitiesOf(muts))));
    }
  }

  lemma PickedFirst(muts: seq<Mutation>, i: int, idxs: seq<int>)
    requires 0 <= i < |muts| && InRange(muts, idxs)
    ensures InRange(muts, [i] + idxs) && Picked(muts, [i] + idxs) == [muts[i]] + Picked(muts, idxs)
  {
  }

  lemma ForEntityPickedFirst(muts: seq<Mutation>, idxs: seq<int>, entity: string)
    requires InRange(muts, idxs) && |idxs| != 0
    ensures var rest := ForEntity(Picked(muts, idxs[1..]), entity);
      ForEntity(Picked(muts, idxs), entity) == (if muts[idxs[0]].entity == entity then [muts[idxs[0]]] else []) + rest
  {
    var first := [muts[idxs[0]]];
    assert Picked(muts, idxs) == first + Picked(muts, idxs[1..]);
    ForEntityConcat(first, Picked(muts, idxs[1..]), entity);
    assert first[..0] == [];
  }

  lemma {:induction false} ForEntityEmpty(muts: seq<Mutation>, entity: string)
    requires forall i :: 0 <= i < |muts| ==> muts[i].entity != entity
    ensures ForEntity(muts, entity) == []
  {
    if |muts| != 0 { ForEntityEmpty(muts[..|muts| - 1], entity); }
  }

  lemma OrderInRange(muts: seq<Mutation>, order: seq<int>)
    requires multiset(order) == multiset(Indices(|muts|))
    ensures InRange(muts, order)
  {
    forall k | 0 <= k < |order| ensures 0 <= order[k] < |muts| {
      assert order[k] in multiset(order) && order[k] in Indices(|muts|);
    }
  }

  /** The canonical order is invisible to every entity: it sees its mutations in the caller's order. */
  lemma ReorderIsInvisible(muts: seq<Mutation>, order: seq<int>, entity: string)
    requires InRange(muts, order)
    requires forall z :: Class(order, z, ByKey(EntitiesOf(muts))) == Class(Indices(|muts|), z, ByKey(EntitiesOf(muts)))
    ensures ForEntity(Picked(muts, order), entity) == ForEntity(muts, entity)
  {
    assert Picked(muts, Indices(|muts|)) == muts;
    if z :| 0 <= z < |muts| && muts[z].entity == entity {
      ForEntityIsClass(muts, order, z, entity);
      ForEntityIsClass(muts, Indices(|muts|), z, entity);
    } else {
      ForEntityEmpty(muts, entity);
      ForEntityEmpty(Picked(muts, order), entity);
    }
  }

  // ------------------------------------------------------------ applying a batch

  predicate Applicable<V>(parse: Parse<V>, m: Mutation) {
    m.kind == "remove" || (m.kind == "set" && parse(m.attribute, m.value).Some?)
  }

  datatype Outcome = Committed | Refused(item: int) | CheckFailed

  /** Every entity's cells show the mutations applied so far. */
  ghost predicate Applied<V>(parse: Parse<V>, start: map<CellKey, V>, cells: map<CellKey, V>, done: seq<Mutation>) {
    forall e :: CellsOf(cells, e) == Overlay(parse, CellsOf(start, e), ForEntity(done, e))
  }

  lemma AppliedOneMore<V>(parse: Parse<V>, start: map<CellKey, V>, before: map<CellKey, V>, after: map<CellKey, V>,
                          done: seq<Mutation>, m: Mutation)
    requires Applied(parse, start, before, done) && Applicable(parse, m)
    requires var key := CellKey(m.entity, ScopeOf(m));
             after == if m.kind == "remove" then before - {key} else before[key := parse(m.attribute, m.value).value]
    ensures Applied(parse, start, after, done + [m])
  {
    forall e ensures CellsOf(after, e) == Overlay(parse, CellsOf(start, e), ForEntity(done + [m], e)) {
      OneWrite(parse, before, after, m, e);
      OverlaySnoc(parse, CellsOf(start, e), done, m, e);
    }
  }

  lemma EveryIndexIsListed(n: nat, order: seq<int>)
    requires multiset(order) == multiset(Indices(n))
    ensures forall i :: 0 <= i < n ==> i in order
  {
    forall i | 0 <= i < n ensures i in order { assert Indices(n)[i] in multiset(order); }
  }

  /** Does the mutation change the stored row, and so emit an event?  A row written under an older
      definition version counts as changed when it is set again. */
  predicate Emits<V(==)>(parse: Parse<V>, outdated: CellKey -> bool, cells: map<Scope, V>, m: Mutation)
    requires Applicable(parse, m)
  {
    if m.kind == "remove" then ScopeOf(m) in cells
    else ScopeOf(m) !in cells || cells[ScopeOf(m)] != parse(m.attribute, m.value).value || outdated(CellKey(m.entity, ScopeOf(m)))
  }

  /** Some mutation of the list emits an event. */
  predicate Touches<V(==)>(parse: Parse<V>, outdated: CellKey -> bool, cells: map<Scope, V>, muts: seq<Mutation>) {
    if |muts| == 0 then false
    else
      var k := |muts| - 1;
      || Touches(parse, outdated, cells, muts[..k])
      || (Applicable(parse, muts[k]) && Emits(parse, outdated, Overlay(parse, cells, muts[..k]), muts[k]))
  }

  /** The entities listed are those a mutation done so far has emitted an event for. */
  ghost predicate ListsTouched<V>(parse: Parse<V>, outdated: CellKey -> bool, start: map<CellKey, V>, done: seq<Mutation>, touched: seq<string>) {
    forall e :: e in touched <==> Touches(parse, outdated, CellsOf(start, e), ForEntity(done, e))
  }

  lemma TouchedOneMore<V>(parse: Parse<V>, outdated: CellKey -> bool, start: map<CellKey, V>, before: map<CellKey, V>,
                          done: seq<Mutation>, m: Mutation, touched: seq<string>)
    requires Applied(parse, start, before, done) && Applicable(parse, m)
    requires ListsTouched(parse, outdated, start, done, touched)
    ensures ListsTouched(parse, outdated, start, done + [m],
      if Emits(parse, outdated, CellsOf(before, m.entity), m) then touched + [m.entity] else touched)
  {
    forall e ensures Touches(parse, outdated, CellsOf(start, e), ForEntity(done + [m], e)) <==>
      e in touched || (e == m.entity && Emits(parse, outdated, CellsOf(before, m.entity), m))
    {
      var mine := ForEntity(done, e);
      assert (done + [m])[..|done|] == done && (mine + [m])[..|mine|] == mine && mine + [] == mine;
    }
  }

  /** An entity no event was emitted for is as it was. */
  lemma {:induction false} UntouchedIsUnchanged<V>(parse: Parse<V>, outdated: CellKey -> bool, cells: map<Scope, V>, muts: seq<Mutation>)
    requires forall i :: 0 <= i < |muts| ==> Applicable(parse, muts[i])
    requires !Touches(parse, outdated, cells, muts)
    ensures Overlay(parse, cells, muts) == cells
  {
    if |muts| != 0 { UntouchedIsUnchanged(parse, outdated, cells, muts[..|muts| - 1]); }
  }

  /** Why a batch did not commit. */
  ghost predicate Justified<V>(out: Outcome, muts: seq<Mutation>, parse: Parse<V>, accepts: (Mutation, map<CellKey, V>) -> bool,
                               checks: map<CellKey, V> -> bool, seen: map<CellKey, V>)
  {
    match out
    case Committed => checks(seen) || |muts| == 0
    case Refused(i) => 0 <= i < |muts| && !(Applicable(parse, muts[i]) && accepts(muts[i], seen))
    case CheckFailed => !checks(seen)
  }

  // ------------------------------------------- which mutation decides a cell

  /** The mutation sets or removes this cell: by its own fields. */
  predicate Names(m: Mutation, entity: string, attribute: string, locale: string, channel: string) {
    && (m.kind == "set" || m.kind == "remove")
    && m.entity == entity && m.attribute == attribute && m.locale == locale && m.channel == channel
  }

  /** The last mutation about a cell. */
  ghost predicate LastAbout(muts: seq<Mutation>, i: nat, entity: string, attribute: string, locale: string, channel: string) {
    && i < |muts| && Names(muts[i], entity, attribute, locale, channel)
    && forall j :: i < j < |muts| ==> !Names(muts[j], entity, attribute, locale, channel)
  }

  ghost predicate AnyAbout(muts: seq<Mutation>, entity: string, attribute: string, locale: string, channel: string) {
    exists i :: 0 <= i < |muts| && Names(muts[i], entity, attribute, locale, channel)
  }

  /** What the mutation leaves at its cell: a removal no value, a set the value it decodes to. */
  ghost predicate Leaves<V>(parse: Parse<V>, m: Mutation, there: bool, left: Option<V>) {
    if m.kind == "remove" then !there else m.kind == "set" && there && left == parse(m.attribute, m.value)
  }

  /** What is stored under the key is what the last mutation about the cell leaves, or, when none is about it,
      what was stored before. */
  ghost predicate DecidedByLast<K, V>(parse: Parse<V>, before: map<K, V>, after: map<K, V>, key: K, muts: seq<Mutation>,
                                      e: string, a: string, l: string, c: string)
  {
    if AnyAbout(muts, e, a, l, c) then
      exists i: nat :: LastAbout(muts, i, e, a, l, c) && Leaves(parse, muts[i], key in after, if key in after then Some(after[key]) else None)
    else
      (key in after <==> key in before) && (key in after ==> after[key] == before[key])
  }

  /** So of every cell, under the entity, attribute, locale and channel the mutations name. */
  ghost predicate LastDecides<V>(parse: Parse<V>, before: map<CellKey, V>, after: map<CellKey, V>, muts: seq<Mutation>) {
    forall e, a, l, c :: DecidedByLast(parse, before, after, CellKey(e, Scope(a, l, c)), muts, e, a, l, c)
  }

  /** A mutation behind the others decides its own cell... */
  lemma LastIsLast(muts: seq<Mutation>, e: string, a: string, l: string, c: string)
    requires |muts| != 0 && Names(muts[|muts| - 1], e, a, l, c)
    ensures AnyAbout(muts, e, a, l, c) && LastAbout(muts, |muts| - 1, e, a, l, c)
  {
  }

  /** ...and no other. */
  lemma AboutBeforeOther(muts: seq<Mutation>, e: string, a: string, l: string, c: string)
    requires |muts| != 0 && !Names(muts[|muts| - 1], e, a, l, c)
    ensures AnyAbout(muts[..|muts| - 1], e, a, l, c) <==> AnyAbout(muts, e, a, l, c)
    ensures forall i: nat :: LastAbout(muts[..|muts| - 1], i, e, a, l, c) ==> LastAbout(muts, i, e, a, l, c)
  {
    var init := muts[..|muts| - 1];
    if i :| 0 <= i < |init| && Names(init[i], e, a, l, c) { assert Names(muts[i], e, a, l, c); }
    if i :| 0 <= i < |muts| && Names(muts[i], e, a, l, c) { assert Names(init[i], e, a, l, c); }
  }

  lemma EffectElsewhere<V>(parse: Parse<V>, cells: map<Scope, V>, m: Mutation, a: string, l: string, c: string)
    requires !Names(m, m.entity, a, l, c)
    ensures var s, after := Scope(a, l, c), Effect(parse, cells, m);
      (s in after <==> s in cells) && (s in after ==> after[s] == cells[s])
  {
  }

  lemma EffectHere<V>(parse: Parse<V>, cells: map<Scope, V>, m: Mutation)
    requires Applicable(parse, m)
    ensures var s, after := Scope(m.attribute, m.locale, m.channel), Effect(parse, cells, m);
      Leaves(parse, m, s in after, if s in after then Some(after[s]) else None)
  {
  }

  lemma NamedDecides<V>(parse: Parse<V>, cells: map<Scope, V>, before: map<Scope, V>, muts: seq<Mutation>,
                        e: string, a: string, l: string, c: string)
    requires |muts| != 0 && Names(muts[|muts| - 1], e, a, l, c) && !Undecodable(parse, e, muts[|muts| - 1])
    ensures DecidedByLast(parse, cells, Effect(parse, before, muts[|muts| - 1]), Scope(a, l, c), muts, e, a, l, c)
  {
    LastIsLast(muts, e, a, l, c);
    EffectHere(parse, before, muts[|muts| - 1]);
  }

  lemma OtherLeavesDecided<V>(parse: Parse<V>, cells: map<Scope, V>, before: map<Scope, V>, after: map<Scope, V>, muts: seq<Mutation>,
                              e: string, a: string, l: string, c: string)
    requires |muts| != 0 && !Names(muts[|muts| - 1], e, a, l, c)
    requires DecidedByLast(parse, cells, before, Scope(a, l, c), muts[..|muts| - 1], e, a, l, c)
    requires var s := Scope(a, l, c); (s in after <==> s in before) && (s in after ==> after[s] == before[s])
    ensures DecidedByLast(parse, cells, after, Scope(a, l, c), muts, e, a, l, c)
  {
    AboutBeforeOther(muts, e, a, l, c);
    var init, s := muts[..|muts| - 1], Scope(a, l, c);
    if AnyAbout(muts, e, a, l, c) {
      var i: nat :| LastAbout(init, i, e, a, l, c) && Leaves(parse, init[i], s in before, if s in before then Some(before[s]) else None);
      assert LastAbout(muts, i, e, a, l, c) && muts[i] == init[i];
    }
  }

  /** One more mutation of the batch, of this entity or of another. */
  lemma DecidedOneMore<V>(parse: Parse<V>, cells: map<Scope, V>, before: map<Scope, V>, muts: seq<Mutation>,
                          e: string, a: string, l: string, c: string)
    requires |muts| != 0 && !Undecodable(parse, e, muts[|muts| - 1])
    requires DecidedByLast(parse, cells, before, Scope(a, l, c), muts[..|muts| - 1], e, a, l, c)
    ensures var m := muts[|muts| - 1];
      DecidedByLast(parse, cells, if m.entity == e then Effect(parse, before, m) else before, Scope(a, l, c), muts, e, a, l, c)
  {
    var m := muts[|muts| - 1];
    if Names(m, e, a, l, c) {
      NamedDecides(parse, cells, before, muts, e, a, l, c);
    } else {
      if m.entity == e { EffectElsewhere(parse, before, m, a, l, c); }
      OtherLeavesDecided(parse, cells, before, if m.entity == e then Effect(parse, before, m) else before, muts, e, a, l, c);
    }
  }

  /** The overlay of an entity's mutations, scope by scope. */
  lemma {:induction false} OverlayIsDecidedByTheLast<V>(parse: Parse<V>, cells: map<Scope, V>, muts: seq<Mutation>,
                                                        e: string, a: string, l: string, c: string)
    requires AllDecode(parse, e, muts)
    ensures DecidedByLast(parse, cells, Overlay(parse, cells, ForEntity(muts, e)), Scope(a, l, c), muts, e, a, l, c)
  {
    if |muts| != 0 {
      var k := |muts| - 1;
      assert muts == muts[..k] + [muts[k]];
      assert muts[k] in muts;
      OverlayIsDecidedByTheLast(parse, cells, muts[..k], e, a, l, c);
      OverlaySnoc(parse, cells, muts[..k], muts[k], e);
      DecidedOneMore(parse, cells, Overlay(parse, cells, ForEntity(muts[..k], e)), muts, e, a, l, c);
    }
  }

  lemma InCellsOf<V>(cells: map<CellKey, V>, e: string, s: Scope)
    ensures s in CellsOf(cells, e) <==> CellKey(e, s) in cells
    ensures s in CellsOf(cells, e) ==> CellsOf(cells, e)[s] == cells[CellKey(e, s)]
  {
    assert CellKey(e, s).scope == s;
  }

  lemma AppliedLastDecides<V>(parse: Parse<V>, before: map<CellKey, V>, after: map<CellKey, V>, muts: seq<Mutation>)
    requires Applied(parse, before, after, muts) && forall i :: 0 <= i < |muts| ==> Applicable(parse, muts[i])
    ensures LastDecides(parse, before, after, muts)
  {
    forall e, a, l, c ensures DecidedByLast(parse, before, after, CellKey(e, Scope(a, l, c)), muts, e, a, l, c) {
      OverlayIsDecidedByTheLast(parse, CellsOf(before, e), muts, e, a, l, c);
      InCellsOf(before, e, Scope(a, l, c));
      InCellsOf(after, e, Scope(a, l, c));
    }
  }

  class ValueStore<V(==)> {
    var cells: map<CellKey, V>

    constructor (cells: map<CellKey, V>)
      ensures this.cells == cells
    {
      this.cells := cells;
    }

    /** One transaction: every mutation, in canonical entity order, or none.  `accepts` stands for
        permissions, validation, dependencies and uniqueness, judged on the rows written so far;
        `checks` for the end-of-transaction checks; `seen` is the rows the last of them was judged on.
        A batch that commits leaves each entity exactly what the caller's own order would have left
        it, and has emitted events for the entities in `touched`. */
    method Transact(muts: seq<Mutation>, parse: Parse<V>, outdated: CellKey -> bool,
                    accepts: (Mutation, map<CellKey, V>) -> bool, checks: map<CellKey, V> -> bool)
      returns (out: Outcome, touched: seq<string>, ghost seen: map<CellKey, V>)
      modifies this
      ensures Justified(out, muts, parse, accepts, checks, seen)
      ensures !out.Committed? ==> cells == old(cells)
      ensures out.Committed? ==> Applied(parse, old(cells), cells, muts) && ListsTouched(parse, outdated, old(cells), muts, touched)
      ensures out.Committed? ==> forall i :: 0 <= i < |muts| ==> Applicable(parse, muts[i])
      ensures out.Committed? ==> LastDecides(parse, old(cells), cells, muts)
    {
      touched, seen := [], cells;
      if |muts| == 0 {
        AppliedLastDecides(parse, cells, cells, muts);
        return Committed, touched, seen;
      }
      var order := CanonicalOrder(EntitiesOf(muts));
      ghost var start := cells;
      var rollback := cells;
      OrderInRange(muts, order);
      for k := 0 to |order|
        invariant Applied(parse, start, cells, Picked(muts, order[..k]))
        invariant ListsTouched(parse, outdated, start, Picked(muts, order[..k]), touched)
        invariant forall j :: 0 <= j < k ==> Applicable(parse, muts[order[j]])
      {
        var m := muts[order[k]];
        seen := cells;
        if !Applicable(parse, m) || !accepts(m, cells) {
          cells := rollback;
          return Refused(order[k]), [], seen;
        }
        ghost var done := Picked(muts, order[..k]);
        assert Picked(muts, order[..k + 1]) == done + [m];
        TouchedOneMore(parse, outdated, start, cells, done, m, touched);
        if Emits(parse, outdated, CellsOf(cells, m.entity), m) { touched := touched + [m.entity]; }
        var key := CellKey(m.entity, ScopeOf(m));
        ghost var before := cells;
        cells := if m.kind == "remove" then cells - {key} else cells[key := parse(m.attribute, m.value).value];
        AppliedOneMore(parse, start, before, cells, done, m);
      }
      assert order[..|order|] == order;
      forall e ensures ForEntity(Picked(muts, order), e) == ForEntity(muts, e) { ReorderIsInvisible(muts, order, e); }
      EveryIndexIsListed(|muts|, order);
      assert forall i :: i in order ==> Applicable(parse, muts[i]);
      seen := cells;
      if !checks(cells) {
        cells := rollback;
        return CheckFailed, [], seen;
      }
      AppliedLastDecides(parse, start, cells, muts);
      return Committed, touched, seen;
    }
  }

  lemma OneWrite<V>(parse: Parse<V>, before: map<CellKey, V>, after: map<CellKey, V>, m: Mutation, e: string)
    requires Applicable(parse, m)
    requires var key := CellKey(m.entity, ScopeOf(m));
             after == if m.kind == "remove" then before - {key} else before[key := parse(m.attribute, m.value).value]
    ensures CellsOf(after, e) == if m.entity == e then Effect(parse, CellsOf(before, e), m) else CellsOf(before, e)
  {
    var x := CellsOf(after, e);
    var y := if m.entity == e then Effect(parse, CellsOf(before, e), m) else CellsOf(before, e);
    forall s ensures (s in x <==> s in y) && (s in x ==> x[s] == y[s]) {
      assert CellKey(e, s) in after <==> s in x;
      assert CellKey(e, s) in before <==> s in CellsOf(before, e);
    }
    assert x.Keys == y.Keys;
  }

  lemma OverlaySnoc<V>(parse: Parse<V>, cells: map<Scope, V>, muts: seq<Mutation>, m: Mutation, e: string)
    ensures Overlay(parse, cells, ForEntity(muts + [m], e)) ==
            if m.entity == e then Effect(parse, Overlay(parse, cells, ForEntity(muts, e)), m) else Overlay(parse, cells, ForEntity(muts, e))
  {
    assert (muts + [m])[..|muts|] == muts;
    var mine := ForEntity(muts, e);
    assert (mine + [m])[..|mine|] == mine && mine + [] == mine;
  }

  // ----------------------------------------------------------------- preview

  datatype Snapshot<V> = Snapshot(scope: Scope, value: V)

  /** A list of snapshots shows a map: every snapshot is an entry, every entry is shown. */
  ghost predicate Shows<V>(out: seq<Snapshot<V>>, cells: map<Scope, V>) {
    && (forall i :: 0 <= i < |out| ==> out[i].scope in cells && cells[out[i].scope] == out[i].value)
    && (forall s :: s in cells ==> Snapshot(s, cells[s]) in out)
  }

  function LiveMap<V>(live: seq<Snapshot<V>>): map<Scope, V> {
    if |live| == 0 then map[]
    else LiveMap(live[..|live| - 1])[live[|live| - 1].scope := live[|live| - 1].value]
  }

  /** How often a scope comes into being: live at the start, or set while absent. */
  function Openings<V>(parse: Parse<V>, base: map<Scope, V>, muts: seq<Mutation>, s: Scope): nat {
    if |muts| == 0 then if s in base then 1 else 0
    else
      var k := |muts| - 1;
      var before := Overlay(parse, base, muts[..k]);
      Openings(parse, base, muts[..k], s) + if s !in before && s in Effect(parse, before, muts[k]) then 1 else 0
  }

  function Count(order: seq<Scope>, s: Scope): nat {
    multiset(order)[s]
  }

  function ScopesOf<V>(out: seq<Snapshot<V>>): (r: seq<Scope>)
    ensures |r| == |out| && forall i :: 0 <= i < |out| ==> r[i] == out[i].scope
  {
    seq(|out|, i requires 0 <= i < |out| => out[i].scope)
  }

  ghost predicate Undecodable<V>(parse: Parse<V>, entity: string, m: Mutation) {
    m.entity == entity && m.kind == "set" && parse(m.attribute, m.value).None?
  }

  /** The scopes and values after an entity's mutations, in the caller's order, and the keys as they
      came into being. */
  method OverlayAll<V>(live: map<Scope, V>, listed: seq<Scope>, entity: string, muts: seq<Mutation>, parse: Parse<V>)
    returns (ok: bool, byKey: map<Scope, V>, order: seq<Scope>)
    requires ListsOpenings(parse, live, [], listed)
    ensures ok <==> AllDecode(parse, entity, muts)
    ensures ok ==> Overlaid(parse, live, ForEntity(muts, entity), byKey, order)
  {
    ok, byKey, order := true, live, listed;
    ghost var mine := [];
    for i := 0 to |muts|
      invariant ok && AllDecode(parse, entity, muts[..i])
      invariant mine == ForEntity(muts[..i], entity)
      invariant Overlaid(parse, live, mine, byKey, order)
    {
      ForEntitySnoc(muts, i, entity);
      AllDecodeSnoc(parse, entity, muts, i);
      if muts[i].entity == entity {
        byKey, order, ok := OverlayNext(live, mine, byKey, order, muts[i], parse);
        if !ok { return; }
        mine := mine + [muts[i]];
      }
    }
    assert muts[..|muts|] == muts;
  }

  ghost predicate AllDecode<V>(parse: Parse<V>, entity: string, muts: seq<Mutation>) {
    forall m :: m in muts ==> !Undecodable(parse, entity, m)
  }

  lemma AllDecodeSnoc<V>(parse: Parse<V>, entity: string, muts: seq<Mutation>, i: nat)
    requires i < |muts|
    ensures AllDecode(parse, entity, muts[..i + 1]) <==> AllDecode(parse, entity, muts[..i]) && !Undecodable(parse, entity, muts[i])
    ensures AllDecode(parse, entity, muts) ==> !Undecodable(parse, entity, muts[i])
  {
    assert muts[..i + 1] == muts[..i] + [muts[i]];
    assert muts[i] in muts;
  }

  ghost predicate Overlaid<V>(parse: Parse<V>, live: map<Scope, V>, mine: seq<Mutation>, byKey: map<Scope, V>, order: seq<Scope>) {
    byKey == Overlay(parse, live, mine) && ListsOpenings(parse, live, mine, order)
  }

  method OverlayNext<V>(ghost live: map<Scope, V>, ghost mine: seq<Mutation>, before: map<Scope, V>, listed: seq<Scope>, m: Mutation, parse: Parse<V>)
    returns (byKey: map<Scope, V>, order: seq<Scope>, ok: bool)
    requires Overlaid(parse, live, mine, before, listed)
    ensures !ok <==> Undecodable(parse, m.entity, m)
    ensures ok ==> Overlaid(parse, live, mine + [m], byKey, order)
  {
    byKey, order, ok := OverlayOne(before, listed, m, parse);
    if ok { OpeningsSnoc(parse, live, mine, m, listed, order); }
  }

  ghost predicate IsShown<V>(out: seq<Snapshot<V>>, s: Scope) {
    exists j :: 0 <= j < |out| && out[j].scope == s
  }

  /** The list shows this value, or none, and no other value of the scope. */
  ghost predicate ShowsOnly<V>(out: seq<Snapshot<V>>, s: Scope, shown: bool, value: Option<V>) {
    (IsShown(out, s) <==> shown) && forall j :: 0 <= j < |out| && out[j].scope == s ==> Some(out[j].value) == value
  }

  ghost predicate LastLive<V>(live: seq<Snapshot<V>>, k: nat, s: Scope) {
    k < |live| && live[k].scope == s && forall j :: k < j < |live| ==> live[j].scope != s
  }

  /** What is shown of a scope is what the last mutation of the entity about it leaves, or, when none is, the
      live value. */
  ghost predicate ShowsLast<V>(parse: Parse<V>, live: seq<Snapshot<V>>, out: seq<Snapshot<V>>, muts: seq<Mutation>, e: string) {
    forall a, l, c :: var s := Scope(a, l, c);
      if AnyAbout(muts, e, a, l, c) then
        exists i: nat :: LastAbout(muts, i, e, a, l, c) &&
          ShowsOnly(out, s, muts[i].kind == "set", if muts[i].kind == "set" then parse(muts[i].attribute, muts[i].value) else None)
      else if IsShown(live, s) then exists k: nat :: LastLive(live, k, s) && ShowsOnly(out, s, true, Some(live[k].value))
      else !IsShown(out, s)
  }

  lemma {:induction false} LiveMapAt<V>(live: seq<Snapshot<V>>, s: Scope) returns (k: nat)
    ensures s in LiveMap(live) <==> IsShown(live, s)
    ensures s in LiveMap(live) ==> LastLive(live, k, s) && LiveMap(live)[s] == live[k].value
  {
    k := 0;
    if |live| != 0 {
      var n := |live| - 1;
      if live[n].scope == s {
        k := n;
      } else {
        k := LiveMapAt(live[..n], s);
        if IsShown(live[..n], s) {
          assert live[..n][k] == live[k];
        }
        if j :| 0 <= j < |live| && live[j].scope == s { assert live[..n][j].scope == s; }
      }
    }
  }

  lemma MapIsShown<V>(out: seq<Snapshot<V>>, cells: map<Scope, V>, s: Scope)
    requires Shows(out, cells)
    ensures ShowsOnly(out, s, s in cells, if s in cells then Some(cells[s]) else None)
  {
    if s in cells { assert Snapshot(s, cells[s]) in out; }
  }

  lemma ShownOverlayShowsLast<V>(parse: Parse<V>, live: seq<Snapshot<V>>, out: seq<Snapshot<V>>, muts: seq<Mutation>, e: string)
    requires AllDecode(parse, e, muts)
    requires Shows(out, Overlay(parse, LiveMap(live), ForEntity(muts, e)))
    ensures ShowsLast(parse, live, out, muts, e)
  {
    forall a, l, c
      ensures var s := Scope(a, l, c);
        if AnyAbout(muts, e, a, l, c) then
          exists i: nat :: LastAbout(muts, i, e, a, l, c) &&
            ShowsOnly(out, s, muts[i].kind == "set", if muts[i].kind == "set" then parse(muts[i].attribute, muts[i].value) else None)
        else if IsShown(live, s) then exists k: nat :: LastLive(live, k, s) && ShowsOnly(out, s, true, Some(live[k].value))
        else !IsShown(out, s)
    {
      var cells := Overlay(parse, LiveMap(live), ForEntity(muts, e));
      OverlayIsDecidedByTheLast(parse, LiveMap(live), muts, e, a, l, c);
      MapIsShown(out, cells, Scope(a, l, c));
      var k := LiveMapAt(live, Scope(a, l, c));
    }
  }

  /** The entity's live values with the mutations overlaid in the caller's order. As a map it is
      the overlay; as a list it shows a scope once per time the scope came into being. */
  method Preview<V>(live: seq<Snapshot<V>>, entity: string, muts: seq<Mutation>, parse: Parse<V>)
    returns (out: Option<seq<Snapshot<V>>>)
    ensures out.None? <==> exists i :: 0 <= i < |muts| && Undecodable(parse, entity, muts[i])
    ensures out.Some? ==> Shows(out.value, Overlay(parse, LiveMap(live), ForEntity(muts, entity)))
    ensures out.Some? ==> ShowsLast(parse, live, out.value, muts, entity)
    ensures out.Some? ==> RepeatsOpenings(parse, LiveMap(live), ForEntity(muts, entity), out.value)
    ensures out.Some? ==> forall s :: Count(ScopesOf(out.value), s) >= 2 <==>
      s in Overlay(parse, LiveMap(live), ForEntity(muts, entity)) && Reopened(parse, LiveMap(live), ForEntity(muts, entity), s)
  {
    var base, listed := IndexLive(live);
    var ok, byKey, order := OverlayAll(base, listed, entity, muts, parse);
    assert ok <==> forall i :: 0 <= i < |muts| ==> !Undecodable(parse, entity, muts[i]);
    if !ok { return None; }
    ghost var mine := ForEntity(muts, entity);
    PresentIsListed(parse, base, mine, order);
    var shown := ListInOrder(byKey, order);
    ShownRepeats(parse, base, mine, order, shown);
    forall s ensures Count(ScopesOf(shown), s) >= 2 <==> s in Overlay(parse, base, mine) && Reopened(parse, base, mine, s) {
      RepeatedExactlyWhenReopened(parse, base, mine, shown, s);
    }
    ShownOverlayShowsLast(parse, live, shown, muts, entity);
    return Some(shown);
  }

  lemma ForEntitySnoc(muts: seq<Mutation>, i: nat, entity: string)
    requires i < |muts|
    ensures ForEntity(muts[..i + 1], entity) ==
            if muts[i].entity == entity then ForEntity(muts[..i], entity) + [muts[i]] else ForEntity(muts[..i], entity)
  {
    assert muts[..i + 1][..i] == muts[..i];
  }

  method OverlayOne<V>(before: map<Scope, V>, listed: seq<Scope>, m: Mutation, parse: Parse<V>)
    returns (byKey: map<Scope, V>, order: seq<Scope>, ok: bool)
    ensures !ok <==> Undecodable(parse, m.entity, m)
    ensures ok ==> byKey == Effect(parse, before, m)
    ensures ok ==> forall s :: Count(order, s) == Count(listed, s) + if Opens(parse, before, m, s) then 1 else 0
  {
    byKey, order, ok := before, listed, true;
    if m.kind == "remove" {
      byKey := byKey - {ScopeOf(m)};
    } else if m.kind == "set" {
      var v := parse(m.attribute, m.value);
      if v.None? { return byKey, order, false; }
      if ScopeOf(m) !in byKey { order := order + [ScopeOf(m)]; }
      byKey := byKey[ScopeOf(m) := v.value];
    }
  }

  method IndexLive<V>(live: seq<Snapshot<V>>) returns (byKey: map<Scope, V>, order: seq<Scope>)
    ensures byKey == LiveMap(live)
    ensures forall s :: Count(order, s) == if s in byKey then 1 else 0
  {
    byKey, order := map[], [];
    for i := 0 to |live|
      invariant byKey == LiveMap(live[..i])
      invariant forall s :: Count(order, s) == if s in byKey then 1 else 0
    {
      assert live[..i + 1][..i] == live[..i];
      if live[i].scope !in byKey { order := order + [live[i].scope]; }
      byKey := byKey[live[i].scope := live[i].value];
    }
    assert live[..|live|] == live;
  }

  /** Walks the scopes in order and shows those the map still holds. */
  method ListInOrder<V>(byKey: map<Scope, V>, order: seq<Scope>) returns (shown: seq<Snapshot<V>>)
    requires forall s :: s in byKey ==> s in order
    ensures Shows(shown, byKey)
    ensures SameCounts(byKey.Keys, ScopesOf(shown), order)
  {
    shown := [];
    for i := 0 to |order|
      invariant forall j :: 0 <= j < |shown| ==> shown[j].scope in byKey && byKey[shown[j].scope] == shown[j].value
      invariant forall s :: s in byKey && s in order[..i] ==> Snapshot(s, byKey[s]) in shown
      invariant forall s :: s in byKey ==> Count(ScopesOf(shown), s) == Count(order[..i], s)
    {
      assert order[..i + 1] == order[..i] + [order[i]];
      if order[i] in byKey {
        var snap := Snapshot(order[i], byKey[order[i]]);
        assert ScopesOf(shown + [snap]) == ScopesOf(shown) + [order[i]];
        shown := shown + [snap];
      }
    }
    assert order[..|order|] == order;
  }

  /** Does this mutation bring the scope into being? */
  ghost predicate Opens<V>(parse: Parse<V>, before: map<Scope, V>, m: Mutation, s: Scope) {
    s !in before && s in Effect(parse, before, m)
  }

  /** The key list holds each scope as often as it came into being... */
  ghost predicate ListsOpenings<V>(parse: Parse<V>, base: map<Scope, V>, mine: seq<Mutation>, order: seq<Scope>) {
    forall s :: Count(order, s) == Openings(parse, base, mine, s)
  }

  /** ...and so does what is shown of the scopes that are left. */
  ghost predicate RepeatsOpenings<V>(parse: Parse<V>, base: map<Scope, V>, mine: seq<Mutation>, out: seq<Snapshot<V>>) {
    forall s :: s in Overlay(parse, base, mine) ==> Count(ScopesOf(out), s) == Openings(parse, base, mine, s)
  }

  lemma OpeningsSnoc<V>(parse: Parse<V>, base: map<Scope, V>, mine: seq<Mutation>, m: Mutation, listed: seq<Scope>, order: seq<Scope>)
    requires ListsOpenings(parse, base, mine, listed)
    requires forall s :: Count(order, s) == Count(listed, s) + if Opens(parse, Overlay(parse, base, mine), m, s) then 1 else 0
    ensures ListsOpenings(parse, base, mine + [m], order)
    ensures Overlay(parse, base, mine + [m]) == Effect(parse, Overlay(parse, base, mine), m)
  {
    assert (mine + [m])[..|mine|] == mine;
  }

  ghost predicate SameCounts(scopes: set<Scope>, xs: seq<Scope>, ys: seq<Scope>) {
    forall s :: s in scopes ==> Count(xs, s) == Count(ys, s)
  }

  lemma ShownRepeats<V>(parse: Parse<V>, base: map<Scope, V>, mine: seq<Mutation>, order: seq<Scope>, shown: seq<Snapshot<V>>)
    requires ListsOpenings(parse, base, mine, order)
    requires SameCounts(Overlay(parse, base, mine).Keys, ScopesOf(shown), order)
    ensures RepeatsOpenings(parse, base, mine, shown)
  {
    forall s | s in Overlay(parse, base, mine) ensures Count(ScopesOf(shown), s) == Openings(parse, base, mine, s) {
      assert s in Overlay(parse, base, mine).Keys;
    }
  }

  lemma PresentIsListed<V>(parse: Parse<V>, base: map<Scope, V>, mine: seq<Mutation>, order: seq<Scope>)
    requires ListsOpenings(parse, base, mine, order)
    ensures forall s :: s in Overlay(parse, base, mine) ==> s in order
  {
    forall s | s in Overlay(parse, base, mine) ensures s in order {
      PresentWasOpened(parse, base, mine, s);
      assert Count(order, s) > 0;
    }
  }

  // --------------------------------------------- when a preview repeats itself

  /** A scope that was there is removed, and set again later. */
  ghost predicate Reopened<V>(parse: Parse<V>, base: map<Scope, V>, muts: seq<Mutation>, s: Scope) {
    exists i, j :: 0 <= i < j < |muts| && RemovedAt(parse, base, muts, s, i) && SetAt(parse, muts, s, j)
  }

  ghost predicate RemovedAt<V>(parse: Parse<V>, base: map<Scope, V>, muts: seq<Mutation>, s: Scope, i: nat)
    requires i < |muts|
  {
    muts[i].kind == "remove" && ScopeOf(muts[i]) == s && s in Overlay(parse, base, muts[..i])
  }

  ghost predicate SetAt<V>(parse: Parse<V>, muts: seq<Mutation>, s: Scope, j: nat)
    requires j < |muts|
  {
    muts[j].kind == "set" && ScopeOf(muts[j]) == s && parse(muts[j].attribute, muts[j].value).Some?
  }

  lemma {:induction false} PresentWasOpened<V>(parse: Parse<V>, base: map<Scope, V>, muts: seq<Mutation>, s: Scope)
    requires s in Overlay(parse, base, muts)
    ensures Openings(parse, base, muts, s) >= 1
  {
    if |muts| != 0 && s in Overlay(parse, base, muts[..|muts| - 1]) {
      PresentWasOpened(parse, base, muts[..|muts| - 1], s);
    }
  }

  lemma {:induction false} OpenedThenGoneWasRemoved<V>(parse: Parse<V>, base: map<Scope, V>, muts: seq<Mutation>, s: Scope)
    returns (i: nat)
    requires Openings(parse, base, muts, s) >= 1 && s !in Overlay(parse, base, muts)
    ensures i < |muts| && RemovedAt(parse, base, muts, s, i)
  {
    var k := |muts| - 1;
    if s in Overlay(parse, base, muts[..k]) {
      i := k;
    } else {
      i := OpenedThenGoneWasRemoved(parse, base, muts[..k], s);
      assert muts[..k][..i] == muts[..i];
    }
  }

  lemma {:induction false} OpeningsGrow<V>(parse: Parse<V>, base: map<Scope, V>, muts: seq<Mutation>, s: Scope, i: nat)
    requires i <= |muts|
    ensures Openings(parse, base, muts[..i], s) <= Openings(parse, base, muts, s)
    decreases |muts| - i
  {
    if i == |muts| {
      assert muts[..i] == muts;
    } else {
      assert muts[..i + 1][..i] == muts[..i];
      OpeningsGrow(parse, base, muts, s, i + 1);
    }
  }

  lemma SetWhileAbsentOpens<V>(parse: Parse<V>, base: map<Scope, V>, muts: seq<Mutation>, s: Scope, i: nat, j: nat)
    requires i < j < |muts| && RemovedAt(parse, base, muts, s, i) && SetAt(parse, muts, s, j)
    requires s !in Overlay(parse, base, muts[..j])
    ensures Openings(parse, base, muts[..j + 1], s) >= 2
  {
    assert muts[..j + 1][..j] == muts[..j] && muts[..j][..i] == muts[..i];
    OpeningsGrow(parse, base, muts[..j], s, i);
    PresentWasOpened(parse, base, muts[..i], s);
  }

  /** After a removal, the next set of the scope opens it again. */
  lemma {:induction false} SetAfterRemovalReopens<V>(parse: Parse<V>, base: map<Scope, V>, muts: seq<Mutation>, s: Scope, i: nat, j: nat)
    requires i < j < |muts| && RemovedAt(parse, base, muts, s, i) && SetAt(parse, muts, s, j)
    ensures Openings(parse, base, muts[..j + 1], s) >= 2
  {
    if s !in Overlay(parse, base, muts[..j]) {
      SetWhileAbsentOpens(parse, base, muts, s, i, j);
    } else {
      var m := Reappears(parse, base, muts, s, i, j);
      SetAfterRemovalReopens(parse, base, muts, s, i, m);
      OpeningsGrow(parse, base, muts[..j + 1], s, m + 1);
      assert muts[..j + 1][..m + 1] == muts[..m + 1];
    }
  }

  lemma {:induction false} Reappears<V>(parse: Parse<V>, base: map<Scope, V>, muts: seq<Mutation>, s: Scope, i: nat, j: nat)
    returns (m: nat)
    requires i < j < |muts| && RemovedAt(parse, base, muts, s, i) && s in Overlay(parse, base, muts[..j])
    ensures i < m < j && SetAt(parse, muts, s, m)
  {
    assert muts[..j][..j - 1] == muts[..j - 1];
    if s in Overlay(parse, base, muts[..j - 1]) && j - 1 > i {
      m := Reappears(parse, base, muts, s, i, j - 1);
    } else {
      m := j - 1;
    }
  }

  lemma {:induction false} RepeatedWasReopened<V>(parse: Parse<V>, base: map<Scope, V>, muts: seq<Mutation>, s: Scope)
    returns (i: nat, j: nat)
    requires Openings(parse, base, muts, s) >= 2
    ensures i < j < |muts| && RemovedAt(parse, base, muts, s, i) && SetAt(parse, muts, s, j)
  {
    var k := |muts| - 1;
    if Openings(parse, base, muts[..k], s) >= 2 {
      i, j := RepeatedWasReopened(parse, base, muts[..k], s);
    } else {
      i := OpenedThenGoneWasRemoved(parse, base, muts[..k], s);
      j := k;
    }
    assert muts[..k][..i] == muts[..i];
  }

  /** A scope comes into being more than once exactly when it is removed and set again. */
  lemma OpenedTwiceExactlyWhenReopened<V>(parse: Parse<V>, base: map<Scope, V>, muts: seq<Mutation>, s: Scope)
    ensures Openings(parse, base, muts, s) >= 2 <==> Reopened(parse, base, muts, s)
  {
    if Openings(parse, base, muts, s) >= 2 {
      var i, j := RepeatedWasReopened(parse, base, muts, s);
    }
    if Reopened(parse, base, muts, s) {
      var i, j :| 0 <= i < j < |muts| && RemovedAt(parse, base, muts, s, i) && SetAt(parse, muts, s, j);
      SetAfterRemovalReopens(parse, base, muts, s, i, j);
      OpeningsGrow(parse, base, muts, s, j + 1);
    }
  }

  /** A list that shows the overlaid map, each scope as often as it came into being, lists a scope more
      than once exactly when the batch removes it and sets it again, and leaves it set. */
  lemma RepeatedExactlyWhenReopened<V>(parse: Parse<V>, base: map<Scope, V>, mine: seq<Mutation>, out: seq<Snapshot<V>>, s: Scope)
    requires Shows(out, Overlay(parse, base, mine)) && RepeatsOpenings(parse, base, mine, out)
    ensures Count(ScopesOf(out), s) >= 2 <==> s in Overlay(parse, base, mine) && Reopened(parse, base, mine, s)
  {
    OpenedTwiceExactlyWhenReopened(parse, base, mine, s);
    if s in ScopesOf(out) { assert exists i :: 0 <= i < |out| && out[i].scope == s; }
  }

  const PRICE := Scope("price", "", "")
  const REMOVE_THEN_SET := [Mutation("remove", "price", "e1", "", "", ""), Mutation("set", "price", "e1", "", "", "7")]

  function Sevens(): Parse<int> {
    (attribute, text) => Some(7)
  }

  lemma OverlayOfTwo<V>(parse: Parse<V>, base: map<Scope, V>, x: Mutation, y: Mutation)
    ensures Overlay(parse, base, [x]) == Effect(parse, base, x)
    ensures Overlay(parse, base, [x, y]) == Effect(parse, Effect(parse, base, x), y)
    ensures [x, y][..1] == [x] && [x][..0] == []
  {
    assert [x, y][..1] == [x] && [x][..0] == [];
  }

  lemma ForEntityOfTwo(x: Mutation, y: Mutation)
    requires x.entity == y.entity
    ensures ForEntity([x, y], x.entity) == [x, y]
  {
    assert [x, y][..1] == [x] && [x][..0] == [];
    assert ForEntity([x], x.entity) == [x];
  }

  /** A scope removed and set again has come into being twice. */
  lemma RemovedAndSetAgain<V>(parse: Parse<V>, base: map<Scope, V>, x: Mutation, y: Mutation)
    requires x.kind == "remove" && ScopeOf(x) in base
    requires y.kind == "set" && ScopeOf(y) == ScopeOf(x) && parse(y.attribute, y.value).Some?
    ensures Openings(parse, base, [x, y], ScopeOf(x)) == 2
    ensures ScopeOf(x) in Overlay(parse, base, [x, y])
  {
    OverlayOfTwo(parse, base, x, y);
    assert Openings(parse, base, [x], ScopeOf(x)) == 1;
  }

  /** A set along both dimensions replaces the value stored at that locale and channel. */
  lemma ALocalizedSetReplacesItsCell()
    ensures Overlay(Sevens(), map[Scope("title", "en", "web") := 5], [Mutation("set", "title", "e1", "en", "web", "7")]) ==
            map[Scope("title", "en", "web") := 7]
  {
    var m := Mutation("set", "title", "e1", "en", "web", "7");
    assert [m][..0] == [];
  }

  /** A value removed and set again, at a concrete input: the preview lists its scope twice. */
  method PreviewListsAScopeTwice() returns (shown: seq<Snapshot<int>>)
    ensures Count(ScopesOf(shown), PRICE) == 2
  {
    var live := [Snapshot(PRICE, 5)];
    assert live[..0] == [] && LiveMap(live) == map[PRICE := 5];
    RemovedAndSetAgain(Sevens(), LiveMap(live), REMOVE_THEN_SET[0], REMOVE_THEN_SET[1]);
    ForEntityOfTwo(REMOVE_THEN_SET[0], REMOVE_THEN_SET[1]);
    var out := Preview(live, "e1", REMOVE_THEN_SET, Sevens());
    shown := out.value;
  }
}
