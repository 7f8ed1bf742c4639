/**
  Publishing a batch: the transaction, and the recompute of computed attributes that follows its
  commit before the call returns.

  A preview does neither of the two things a publish adds: it does not recompute, and it shows a
  media value as declared where the publish stores the copy the tenant already holds.  This file
  says what a publish leaves, and exactly when that is what the preview showed.
 */
module Publishing {
  import opened Options
  import opened Mutations
  import opened BatchWrites
  import opened RefGraph
  import opened Computed
  import opened Materializer

  // ------------------------------------------------------------ the base scope

  function BaseScope(name: string): Scope {
    Scope(name, "", "")
  }

  /** What formulas read of an entity: the values without locale and channel. */
  function BaseView<V>(cells: map<Scope, V>): View<V> {
    map s | s in cells && s == BaseScope(s.attribute) :: s.attribute := cells[s]
  }

  /** The cells with the base-scope values replaced. */
  function WithBase<V>(cells: map<Scope, V>, view: View<V>): map<Scope, V> {
    (map s | s in cells && s != BaseScope(s.attribute) :: s := cells[s]) + (map n | n in view :: BaseScope(n) := view[n])
  }

  lemma BaseViewAt<V>(cells: map<Scope, V>, n: string)
    ensures n in BaseView(cells) <==> BaseScope(n) in cells
    ensures n in BaseView(cells) ==> BaseView(cells)[n] == cells[BaseScope(n)]
  {
    assert BaseScope(n) == BaseScope(BaseScope(n).attribute);
  }

  lemma BaseViewOfWithBase<V>(cells: map<Scope, V>, view: View<V>)
    ensures BaseView(WithBase(cells, view)) == view
  {
    forall n ensures SameAt(BaseView(WithBase(cells, view)), view, n) { BaseViewAt(WithBase(cells, view), n); }
    ViewsEqual(BaseView(WithBase(cells, view)), view);
  }

  lemma CellsEqual<V>(x: map<Scope, V>, y: map<Scope, V>)
    requires forall s :: AgreeAt(x, y, s)
    ensures x == y
  {
    forall s ensures s in x <==> s in y { assert AgreeAt(x, y, s); }
    forall s | s in x ensures x[s] == y[s] { assert AgreeAt(x, y, s); }
  }

  ghost predicate AgreeAt<V>(x: map<Scope, V>, y: map<Scope, V>, s: Scope) {
    (s in x <==> s in y) && (s in x ==> x[s] == y[s])
  }

  /** Putting back the base-scope values that are there changes nothing. */
  lemma WithOwnBase<V>(cells: map<Scope, V>)
    ensures WithBase(cells, BaseView(cells)) == cells
  {
    forall s ensures AgreeAt(WithBase(cells, BaseView(cells)), cells, s) { BaseViewAt(cells, s.attribute); }
    CellsEqual(WithBase(cells, BaseView(cells)), cells);
  }

  /** The cells once every active attribute has been computed from the others. */
  ghost function Recomputed<V>(order: seq<Attr<V>>, cells: map<Scope, V>): map<Scope, V>
    requires WellOrdered(order)
  {
    WithBase(cells, Solve(order, BaseView(cells)))
  }

  /** What a committed publish leaves of one entity. */
  ghost function PublishedCells<V>(order: seq<Attr<V>>, parse: Parse<V>, outdated: CellKey -> bool, before: map<Scope, V>,
                                   mine: seq<Mutation>): map<Scope, V>
    requires WellOrdered(order)
  {
    var written := Overlay(parse, before, mine);
    if Touches(parse, outdated, before, mine) then Recomputed(order, written) else written
  }

  // ------------------------------------------------------------- the publish

  /** Rows for the base-scope values of an entity, under whatever ids and definition versions they carry. */
  function RowsOf<V>(entity: string, view: View<V>, stamp: CellKey -> (nat, nat)): Cells<V> {
    map n | n in view :: Cell(stamp(CellKey(entity, BaseScope(n))).0, view[n], stamp(CellKey(entity, BaseScope(n))).1)
  }

  /** Two dependency orders of the same attributes own the same names and are settled together. */
  lemma OrdersAgree<V>(computed: seq<Attr<V>>, xs: seq<Attr<V>>, ys: seq<Attr<V>>, cells: Cells<V>)
    requires IsOrder(xs, computed) && IsOrder(ys, computed)
    ensures forall n :: NameIn(ys, n) ==> NameIn(xs, n)
    ensures AllSettled(xs, cells) ==> AllSettled(ys, cells)
  {
    forall n | NameIn(ys, n) ensures NameIn(xs, n) {
      var i :| 0 <= i < |ys| && ys[i].name == n;
      assert ys[i] in ys && ys[i] in xs;
      var j :| 0 <= j < |xs| && xs[j] == ys[i];
    }
    if AllSettled(xs, cells) {
      forall i | 0 <= i < |ys| ensures Settled(ys[i], cells) {
        assert ys[i] in ys && ys[i] in xs;
        var j :| 0 <= j < |xs| && xs[j] == ys[i];
      }
    }
  }

  lemma SettledIsSolvedInAnyOrder<V>(computed: seq<Attr<V>>, xs: seq<Attr<V>>, ys: seq<Attr<V>>, before: Cells<V>, after: Cells<V>)
    requires IsOrder(xs, computed) && IsOrder(ys, computed)
    requires Kept(xs, before, after) && AllSettled(xs, after)
    ensures ViewOf(after) == Solve(ys, ViewOf(before))
  {
    OrdersAgree(computed, xs, ys, after);
    OrdersAgree(computed, ys, xs, after);
    KeptIsSameOutside(xs, before, after);
    SettledIsSolved(ys, ViewOf(before), after);
  }

  /** A base-scope cell of an active computed attribute. */
  ghost predicate Owned<V>(order: seq<Attr<V>>, s: Scope) {
    s == BaseScope(s.attribute) && NameIn(order, s.attribute)
  }

  lemma WithBaseAt<V>(cells: map<Scope, V>, view: View<V>, s: Scope)
    ensures var after, based := WithBase(cells, view), s == BaseScope(s.attribute);
      && (s in after <==> if based then s.attribute in view else s in cells)
      && (s in after ==> after[s] == if based then view[s.attribute] else cells[s])
  {
  }

  /** A recompute leaves every cell no active attribute owns. */
  lemma RecomputedKeepsOthers<V>(order: seq<Attr<V>>, cells: map<Scope, V>, s: Scope)
    requires WellOrdered(order) && !Owned(order, s)
    ensures AgreeAt(Recomputed(order, cells), cells, s)
  {
    WithBaseAt(cells, Solve(order, BaseView(cells)), s);
    if s == BaseScope(s.attribute) {
      SolveKeepsOthers(order, BaseView(cells), s.attribute);
      BaseViewAt(cells, s.attribute);
    }
  }

  /** The stored cell shows this value, or is absent. */
  ghost predicate CellShows<V>(cells: map<CellKey, V>, key: CellKey, value: Option<V>) {
    match value
    case None => key !in cells
    case Some(v) => key in cells && cells[key] == v
  }

  /** What a formula is given of an entity: its stored cells without locale and channel, under the names it reads. */
  ghost predicate GivenOf<V>(refs: seq<string>, cells: map<CellKey, V>, e: string, given: View<V>) {
    && (forall n :: n in given <==> n in refs && CellKey(e, Scope(n, "", "")) in cells)
    && (forall n :: n in given ==> given[n] == cells[CellKey(e, Scope(n, "", ""))])
  }

  /** The attribute's cell shows its formula's result over the entity's stored cells, or its rollup's result. */
  ghost predicate ShowsItsResult<V(!new)>(a: Attr<V>, cells: map<CellKey, V>, e: string) {
    && (a.spec.Formula? ==>
          exists given :: GivenOf(a.spec.refs, cells, e, given) && CellShows(cells, CellKey(e, Scope(a.name, "", "")), a.spec.eval(given)))
    && (a.spec.Rollup? ==> CellShows(cells, CellKey(e, Scope(a.name, "", "")), a.spec.result))
  }

  ghost predicate ActiveNamed<V>(computed: seq<Attr<V>>, name: string) {
    exists a :: a in computed && Active(computed, a) && a.name == name
  }

  lemma OwnedIsActive<V>(computed: seq<Attr<V>>, order: seq<Attr<V>>, a: string, l: string, c: string)
    requires IsOrder(order, computed) && Owned(order, Scope(a, l, c))
    ensures l == "" && c == "" && ActiveNamed(computed, a)
  {
    var i :| 0 <= i < |order| && order[i].name == a;
    assert order[i] in order;
  }

  /** A cell no active attribute owns is decided by the last mutation about it. */
  lemma PublishedOtherIsDecided<V>(computed: seq<Attr<V>>, order: seq<Attr<V>>, parse: Parse<V>, outdated: CellKey -> bool,
                                   before: map<CellKey, V>, after: map<CellKey, V>, muts: seq<Mutation>,
                                   e: string, a: string, l: string, c: string)
    requires IsOrder(order, computed) && (l != "" || c != "" || !ActiveNamed(computed, a))
    requires forall i :: 0 <= i < |muts| ==> Applicable(parse, muts[i])
    requires CellsOf(after, e) == PublishedCells(order, parse, outdated, CellsOf(before, e), ForEntity(muts, e))
    ensures DecidedByLast(parse, before, after, CellKey(e, Scope(a, l, c)), muts, e, a, l, c)
  {
    var written := Overlay(parse, CellsOf(before, e), ForEntity(muts, e));
    if Owned(order, Scope(a, l, c)) { OwnedIsActive(computed, order, a, l, c); }
    OverlayIsDecidedByTheLast(parse, CellsOf(before, e), muts, e, a, l, c);
    RecomputedKeepsOthers(order, written, Scope(a, l, c));
    InCellsOf(before, e, Scope(a, l, c));
    InCellsOf(after, e, Scope(a, l, c));
  }

  /** The entity's base-scope cell under a name is the view's. */
  ghost predicate CellIs<V>(view: View<V>, cells: map<CellKey, V>, e: string, n: string) {
    var key := CellKey(e, Scope(n, "", ""));
    (n in view <==> key in cells) && (n in view ==> view[n] == cells[key])
  }

  /** A base-scope cell behind a recompute is the solution's. */
  lemma RecomputedCellAt<V>(order: seq<Attr<V>>, written: map<Scope, V>, after: map<CellKey, V>, e: string, n: string)
    requires WellOrdered(order) && CellsOf(after, e) == Recomputed(order, written)
    ensures CellIs(Solve(order, BaseView(written)), after, e, n)
  {
    BaseViewOfWithBase(written, Solve(order, BaseView(written)));
    BaseViewAt(CellsOf(after, e), n);
    InCellsOf(after, e, BaseScope(n));
  }

  /** A result over the view is a result over the cells that are the view's. */
  lemma ViewResultIsShown<V(!new)>(a: Attr<V>, view: View<V>, cells: map<CellKey, V>, e: string, given: View<V>)
    requires a.spec.Formula? && forall n :: CellIs(view, cells, e, n)
    requires forall n :: n in given <==> n in a.spec.refs && n in view
    requires forall n :: n in given ==> given[n] == view[n]
    requires match a.spec.eval(given) case None => a.name !in view case Some(v) => a.name in view && view[a.name] == v
    ensures ShowsItsResult(a, cells, e)
  {
    assert CellIs(view, cells, e, a.name);
    assert GivenOf(a.spec.refs, cells, e, given) by {
      forall n ensures n in given <==> n in a.spec.refs && CellKey(e, Scope(n, "", "")) in cells { assert CellIs(view, cells, e, n); }
      forall n | n in given ensures given[n] == cells[CellKey(e, Scope(n, "", ""))] { assert CellIs(view, cells, e, n); }
    }
  }

  lemma FormulaShowsItsResult<V(!new)>(order: seq<Attr<V>>, written: map<Scope, V>, after: map<CellKey, V>, e: string, p: nat)
    requires WellOrdered(order) && p < |order| && order[p].spec.Formula?
    requires CellsOf(after, e) == Recomputed(order, written)
    ensures ShowsItsResult(order[p], after, e)
  {
    var refs, solution := order[p].spec.refs, Solve(order, BaseView(written));
    var given := map n | n in refs && n in solution :: solution[n];
    SolutionShowsResults(order, BaseView(written), p, given);
    forall n ensures CellIs(solution, after, e, n) { RecomputedCellAt(order, written, after, e, n); }
    ViewResultIsShown(order[p], solution, after, e, given);
  }

  lemma RollupShowsItsResult<V(!new)>(order: seq<Attr<V>>, written: map<Scope, V>, after: map<CellKey, V>, e: string, p: nat)
    requires WellOrdered(order) && p < |order| && order[p].spec.Rollup?
    requires CellsOf(after, e) == Recomputed(order, written)
    ensures ShowsItsResult(order[p], after, e)
  {
    SolveSettles(order, BaseView(written), p);
    RecomputedCellAt(order, written, after, e, order[p].name);
  }

  /** Recomputed cells show every active attribute's result. */
  lemma RecomputedShowsResults<V(!new)>(computed: seq<Attr<V>>, order: seq<Attr<V>>, written: map<Scope, V>, after: map<CellKey, V>,
                                        e: string, a: Attr<V>)
    requires IsOrder(order, computed) && a in computed && Active(computed, a)
    requires CellsOf(after, e) == Recomputed(order, written)
    ensures ShowsItsResult(a, after, e)
  {
    assert a in order;
    var p :| 0 <= p < |order| && order[p] == a;
    if a.spec.Formula? { FormulaShowsItsResult(order, written, after, e, p); } else { RollupShowsItsResult(order, written, after, e, p); }
  }

  class Interactor<V(==,!new)> {
    const store: ValueStore<V>
    const computedOf: string -> seq<Attr<V>>
    ghost const orderOf: string -> seq<Attr<V>>

    constructor (store: ValueStore<V>, computedOf: string -> seq<Attr<V>>, ghost orderOf: string -> seq<Attr<V>>)
      ensures this.store == store && this.computedOf == computedOf && this.orderOf == orderOf
    {
      this.store := store;
      this.computedOf := computedOf;
      this.orderOf := orderOf;
    }

    /** Each entity's computed attributes have distinct names and, as they always can, a dependency order. */
    ghost predicate WellFormed() {
      forall e :: DistinctNames(computedOf(e)) && IsOrder(orderOf(e), computedOf(e))
    }

    /** The listed entities have been recomputed, the others not. */
    ghost predicate RecomputedSoFar(entities: seq<string>, before: map<CellKey, V>, after: map<CellKey, V>)
      requires WellFormed()
    {
      && (forall e :: e in entities ==> CellsOf(after, e) == Recomputed(orderOf(e), CellsOf(before, e)))
      && (forall e :: e !in entities ==> CellsOf(after, e) == CellsOf(before, e))
    }

    /** Every entity holds what a publish of the batch leaves of it. */
    ghost predicate Published(muts: seq<Mutation>, parse: Parse<V>, outdated: CellKey -> bool, before: map<CellKey, V>, after: map<CellKey, V>)
      requires WellFormed()
    {
      forall e :: CellsOf(after, e) == PublishedCells(orderOf(e), parse, outdated, CellsOf(before, e), ForEntity(muts, e))
    }

    /** In terms of the mutations' own fields: a cell no active attribute owns is what the last mutation about it
        leaves... */
    ghost predicate OthersAreDecided(muts: seq<Mutation>, parse: Parse<V>, before: map<CellKey, V>, after: map<CellKey, V>) {
      forall e, a, l, c :: Unowned(e, a, l, c) ==>
        DecidedByLast(parse, before, after, CellKey(e, Scope(a, l, c)), muts, e, a, l, c)
    }

    ghost predicate Unowned(e: string, a: string, l: string, c: string) {
      l != "" || c != "" || !ActiveNamed(computedOf(e), a)
    }

    /** ...and where the batch has touched the entity, every active attribute shows its result over the cells
        then stored. */
    ghost predicate ActivesShowResults(muts: seq<Mutation>, parse: Parse<V>, outdated: CellKey -> bool, before: map<CellKey, V>, after: map<CellKey, V>) {
      forall e, a :: a in computedOf(e) && Active(computedOf(e), a) && Touches(parse, outdated, CellsOf(before, e), ForEntity(muts, e)) ==>
        ShowsItsResult(a, after, e)
    }

    lemma PublishedIsByFields(muts: seq<Mutation>, parse: Parse<V>, outdated: CellKey -> bool, before: map<CellKey, V>, after: map<CellKey, V>)
      requires WellFormed() && Published(muts, parse, outdated, before, after)
      requires forall i :: 0 <= i < |muts| ==> Applicable(parse, muts[i])
      ensures OthersAreDecided(muts, parse, before, after) && ActivesShowResults(muts, parse, outdated, before, after)
    {
      forall e, a, l, c | Unowned(e, a, l, c)
        ensures DecidedByLast(parse, before, after, CellKey(e, Scope(a, l, c)), muts, e, a, l, c)
      {
        PublishedOtherIsDecided(computedOf(e), orderOf(e), parse, outdated, before, after, muts, e, a, l, c);
      }
      forall e, a | a in computedOf(e) && Active(computedOf(e), a) && Touches(parse, outdated, CellsOf(before, e), ForEntity(muts, e))
        ensures ShowsItsResult(a, after, e)
      {
        RecomputedShowsResults(computedOf(e), orderOf(e), Overlay(parse, CellsOf(before, e), ForEntity(muts, e)), after, e, a);
      }
    }

    /** The recompute of one entity: its own base-scope cells, and no others. */
    method RecomputeEntity(e: string, stamp: CellKey -> (nat, nat))
      requires WellFormed()
      modifies store
      ensures CellsOf(store.cells, e) == Recomputed(orderOf(e), CellsOf(old(store.cells), e))
      ensures forall f :: f != e ==> CellsOf(store.cells, f) == CellsOf(old(store.cells), f)
    {
      var before := BaseView(CellsOf(store.cells, e));
      var rows := RowsOf(e, before, stamp);
      assert ViewOf(rows) == before;
      var entity := new Entity(computedOf(e), rows, (n, v) => true);
      var ok := entity.Recompute();
      SettledIsSolvedInAnyOrder(computedOf(e), entity.order, orderOf(e), rows, entity.cells);
      BaseReplaced(store.cells, e, ViewOf(entity.cells));
      store.cells := ReplaceBase(store.cells, e, ViewOf(entity.cells));
    }

    /** A batch is written in one transaction; once it is committed, every entity an event was emitted
        for is recomputed, and only then does the call return. */
    method ApplyMutations(muts: seq<Mutation>, parse: Parse<V>, outdated: CellKey -> bool,
                          accepts: (Mutation, map<CellKey, V>) -> bool, checks: map<CellKey, V> -> bool,
                          stamp: CellKey -> (nat, nat))
      returns (out: Outcome, ghost seen: map<CellKey, V>)
      requires WellFormed()
      modifies store
      ensures Justified(out, muts, parse, accepts, checks, seen)
      ensures !out.Committed? ==> store.cells == old(store.cells)
      ensures out.Committed? ==> forall i :: 0 <= i < |muts| ==> Applicable(parse, muts[i])
      ensures out.Committed? ==> Published(muts, parse, outdated, old(store.cells), store.cells)
      ensures out.Committed? ==> OthersAreDecided(muts, parse, old(store.cells), store.cells)
      ensures out.Committed? ==> ActivesShowResults(muts, parse, outdated, old(store.cells), store.cells)
    {
      ghost var before := store.cells;
      var touched;
      out, touched, seen := store.Transact(muts, parse, outdated, accepts, checks);
      if !out.Committed? { return; }
      ghost var written := store.cells;
      for i := 0 to |touched|
        invariant RecomputedSoFar(touched[..i], written, store.cells)
      {
        assert touched[..i + 1] == touched[..i] + [touched[i]];
        if touched[i] in touched[..i] { continue; }
        RecomputeEntity(touched[i], stamp);
      }
      assert touched[..|touched|] == touched;
      PublishedIsByFields(muts, parse, outdated, before, store.cells);
    }
  }

  /** The stored cells with one entity's base-scope values replaced. */
  function ReplaceBase<V>(cells: map<CellKey, V>, e: string, view: View<V>): map<CellKey, V> {
    (map k | k in cells && (k.entity != e || k.scope != BaseScope(k.scope.attribute)) :: k := cells[k])
    + (map n | n in view :: CellKey(e, BaseScope(n)) := view[n])
  }

  lemma ReplaceBaseKey<V>(cells: map<CellKey, V>, e: string, view: View<V>, k: CellKey)
    ensures var after, based := ReplaceBase(cells, e, view), k.entity == e && k.scope == BaseScope(k.scope.attribute);
      && (k in after <==> if based then k.scope.attribute in view else k in cells)
      && (k in after ==> after[k] == if based then view[k.scope.attribute] else cells[k])
  {
  }

  lemma ReplaceBaseAt<V>(cells: map<CellKey, V>, e: string, view: View<V>, f: string, s: Scope)
    ensures AgreeAt(CellsOf(ReplaceBase(cells, e, view), f), if f == e then WithBase(CellsOf(cells, e), view) else CellsOf(cells, f), s)
  {
    var after := ReplaceBase(cells, e, view);
    ReplaceBaseKey(cells, e, view, CellKey(f, s));
    WithBaseAt(CellsOf(cells, e), view, s);
    InCellsOf(after, f, s);
    InCellsOf(cells, f, s);
  }

  lemma BaseReplaced<V>(cells: map<CellKey, V>, e: string, view: View<V>)
    ensures CellsOf(ReplaceBase(cells, e, view), e) == WithBase(CellsOf(cells, e), view)
    ensures forall f :: f != e ==> CellsOf(ReplaceBase(cells, e, view), f) == CellsOf(cells, f)
  {
    forall s ensures AgreeAt(CellsOf(ReplaceBase(cells, e, view), e), WithBase(CellsOf(cells, e), view), s) {
      ReplaceBaseAt(cells, e, view, e, s);
    }
    CellsEqual(CellsOf(ReplaceBase(cells, e, view), e), WithBase(CellsOf(cells, e), view));
    forall f | f != e ensures CellsOf(ReplaceBase(cells, e, view), f) == CellsOf(cells, f) {
      forall s ensures AgreeAt(CellsOf(ReplaceBase(cells, e, view), f), CellsOf(cells, f), s) {
        ReplaceBaseAt(cells, e, view, f, s);
      }
      CellsEqual(CellsOf(ReplaceBase(cells, e, view), f), CellsOf(cells, f));
    }
  }

  // ------------------------------------------- the preview and the publish

  /** The write path's decoding: a media value becomes the copy stored for its object key, or is refused. */
  function Adopting<V>(parse: Parse<V>, media: string -> bool, stored: V -> Option<V>): Parse<V> {
    (attribute, text) =>
      match parse(attribute, text)
      case None => None
      case Some(v) => if media(attribute) then stored(v) else Some(v)
  }

  /** The last mutation of a scope. */
  function LastOn(mine: seq<Mutation>, s: Scope): Option<Mutation> {
    if |mine| == 0 then None
    else
      var k := |mine| - 1;
      if ScopeOf(mine[k]) == s then Some(mine[k]) else LastOn(mine[..k], s)
  }

  /** The scope's last mutation sets no media value, or declares exactly what is stored for its key. */
  predicate DeclaredAsStored<V(==)>(parse: Parse<V>, media: string -> bool, stored: V -> Option<V>, mine: seq<Mutation>, s: Scope) {
    match LastOn(mine, s)
    case None => true
    case Some(m) =>
      m.kind == "set" && media(m.attribute) && parse(m.attribute, m.value).Some? ==>
        stored(parse(m.attribute, m.value).value) == parse(m.attribute, m.value)
  }

  /** The last mutation of a scope decides it. */
  lemma {:induction false} OverlayAt<V>(parse: Parse<V>, cells: map<Scope, V>, mine: seq<Mutation>, s: Scope)
    requires forall i :: 0 <= i < |mine| ==> Applicable(parse, mine[i])
    ensures var last, after := LastOn(mine, s), Overlay(parse, cells, mine);
      if last.None? then AgreeAt(after, cells, s)
      else if last.value.kind == "remove" then s !in after
      else last.value.kind == "set" && s in after && Some(after[s]) == parse(last.value.attribute, last.value.value)
  {
    if |mine| != 0 { OverlayAt(parse, cells, mine[..|mine| - 1], s); }
  }

  lemma ShownExactlyWhenDeclaredAsStored<V>(parse: Parse<V>, media: string -> bool, stored: V -> Option<V>,
                                            live: map<Scope, V>, mine: seq<Mutation>, s: Scope)
    requires forall i :: 0 <= i < |mine| ==> Applicable(Adopting(parse, media, stored), mine[i])
    ensures AgreeAt(Overlay(parse, live, mine), Overlay(Adopting(parse, media, stored), live, mine), s)
      <==> DeclaredAsStored(parse, media, stored, mine, s)
  {
    forall i | 0 <= i < |mine| ensures Applicable(parse, mine[i]) { assert Applicable(Adopting(parse, media, stored), mine[i]); }
    OverlayAt(parse, live, mine, s);
    OverlayAt(Adopting(parse, media, stored), live, mine, s);
  }

  /** Every active attribute shows the value its formula has over these very cells. */
  ghost predicate SettledInValue<V>(order: seq<Attr<V>>, cells: map<Scope, V>)
    requires WellOrdered(order)
  {
    forall i :: 0 <= i < |order| ==> ShowsFormula(order[i], BaseView(cells))
  }

  /** Rows of these values under the versions their attributes have now. */
  ghost function CurrentRows<V>(order: seq<Attr<V>>, view: View<V>): Cells<V> {
    map n | n in view :: Cell(0, view[n], CurrentVersion(order, n))
  }

  ghost function CurrentVersion<V>(order: seq<Attr<V>>, n: string): nat {
    if |order| == 0 then 0 else if order[0].name == n then order[0].version else CurrentVersion(order[1..], n)
  }

  lemma {:induction false} CurrentVersionOf<V>(order: seq<Attr<V>>, p: nat)
    requires DistinctNames(order) && p < |order|
    ensures CurrentVersion(order, order[p].name) == order[p].version
  {
    if p > 0 { CurrentVersionOf(order[1..], p - 1); }
  }

  /** Values that satisfy every formula are their own solution, and no others are. */
  lemma SettledInValueIsSolved<V>(order: seq<Attr<V>>, cells: map<Scope, V>)
    requires WellOrdered(order)
    ensures SettledInValue(order, cells) <==> Solve(order, BaseView(cells)) == BaseView(cells)
  {
    var view := BaseView(cells);
    var rows := CurrentRows(order, view);
    assert ViewOf(rows) == view;
    if SettledInValue(order, cells) {
      forall i | 0 <= i < |order| ensures Settled(order[i], rows) {
        assert ShowsFormula(order[i], view);
        CurrentVersionOf(order, i);
      }
      SettledIsSolved(order, view, rows);
    }
    if Solve(order, view) == view {
      forall i | 0 <= i < |order| ensures ShowsFormula(order[i], view) { SolveSettles(order, view, i); }
    }
  }

  lemma AgreeingOutsideIsSameOutside<V>(order: seq<Attr<V>>, x: map<Scope, V>, y: map<Scope, V>)
    requires forall s :: !Owned(order, s) ==> AgreeAt(x, y, s)
    ensures SameOutside(order, BaseView(x), BaseView(y))
  {
    forall n | !NameIn(order, n) ensures SameAt(BaseView(x), BaseView(y), n) {
      assert !Owned(order, BaseScope(n));
      BaseViewAt(x, n);
      BaseViewAt(y, n);
    }
  }

  /** What was shown is what the recompute of the written cells leaves, exactly when it is what was written
      wherever no active attribute owns the cell, and satisfies every formula. */
  lemma ShownIsRecomputedExactly<V>(order: seq<Attr<V>>, shown: map<Scope, V>, written: map<Scope, V>)
    requires WellOrdered(order)
    ensures shown == Recomputed(order, written) <==>
      (forall s :: !Owned(order, s) ==> AgreeAt(shown, written, s)) && SettledInValue(order, shown)
  {
    var after := Recomputed(order, written);
    SettledInValueIsSolved(order, shown);
    BaseViewOfWithBase(written, Solve(order, BaseView(written)));
    if shown == after {
      forall s | !Owned(order, s) ensures AgreeAt(shown, written, s) { RecomputedKeepsOthers(order, written, s); }
      AgreeingOutsideIsSameOutside(order, shown, written);
      SolveForgetsOwned(order, BaseView(shown), BaseView(written));
    }
    if (forall s :: !Owned(order, s) ==> AgreeAt(shown, written, s)) && SettledInValue(order, shown) {
      AgreeingOutsideIsSameOutside(order, shown, written);
      SolveForgetsOwned(order, BaseView(shown), BaseView(written));
      forall s ensures AgreeAt(shown, after, s) {
        if Owned(order, s) {
          BaseViewAt(shown, s.attribute);
          BaseViewAt(after, s.attribute);
        } else {
          RecomputedKeepsOthers(order, written, s);
        }
      }
      CellsEqual(shown, after);
    }
  }

  /** When what a preview shows is what the publish leaves: every set the preview decodes is stored as it
      was declared, and, if the publish recomputes, the previewed cells satisfy every formula. */
  ghost predicate PreviewHolds<V>(order: seq<Attr<V>>, parse: Parse<V>, media: string -> bool, stored: V -> Option<V>,
                                  outdated: CellKey -> bool, live: map<Scope, V>, mine: seq<Mutation>)
    requires WellOrdered(order)
  {
    if Touches(Adopting(parse, media, stored), outdated, live, mine) then
      && (forall s :: !Owned(order, s) ==> DeclaredAsStored(parse, media, stored, mine, s))
      && SettledInValue(order, Overlay(parse, live, mine))
    else
      forall s :: DeclaredAsStored(parse, media, stored, mine, s)
  }

  lemma PreviewHoldsExactly<V>(order: seq<Attr<V>>, parse: Parse<V>, media: string -> bool, stored: V -> Option<V>,
                               outdated: CellKey -> bool, live: map<Scope, V>, mine: seq<Mutation>)
    requires WellOrdered(order)
    requires forall i :: 0 <= i < |mine| ==> Applicable(Adopting(parse, media, stored), mine[i])
    ensures PreviewHolds(order, parse, media, stored, outdated, live, mine) <==>
      Overlay(parse, live, mine) == PublishedCells(order, Adopting(parse, media, stored), outdated, live, mine)
  {
    var shown, written := Overlay(parse, live, mine), Overlay(Adopting(parse, media, stored), live, mine);
    forall s ensures AgreeAt(shown, written, s) <==> DeclaredAsStored(parse, media, stored, mine, s) {
      ShownExactlyWhenDeclaredAsStored(parse, media, stored, live, mine, s);
    }
    if Touches(Adopting(parse, media, stored), outdated, live, mine) {
      ShownIsRecomputedExactly(order, shown, written);
    } else if forall s :: DeclaredAsStored(parse, media, stored, mine, s) {
      CellsEqual(shown, written);
    }
  }

  /** A list shows one map only. */
  lemma ShowsOneMap<V>(out: seq<Snapshot<V>>, x: map<Scope, V>, y: map<Scope, V>)
    requires Shows(out, x)
    ensures Shows(out, y) <==> x == y
  {
    if Shows(out, y) {
      forall s ensures AgreeAt(x, y, s) {
        if s in x { assert Snapshot(s, x[s]) in out; }
        if s in y { assert Snapshot(s, y[s]) in out; }
      }
      CellsEqual(x, y);
    }
  }

  lemma {:induction false} ForEntityIsPart(muts: seq<Mutation>, entity: string, m: Mutation)
    requires m in ForEntity(muts, entity)
    ensures m in muts
  {
    var k := |muts| - 1;
    if m != muts[k] { ForEntityIsPart(muts[..k], entity, m); }
  }

  /** An approver previews a batch in the caller's order; then it is published.  When that commits, the preview
      showed what is stored exactly when PreviewHolds. */
  method PreviewThenPublish<V(!new)>(interactor: Interactor<V>, live: seq<Snapshot<V>>, entity: string, muts: seq<Mutation>, parse: Parse<V>,
                               media: string -> bool, stored: V -> Option<V>, outdated: CellKey -> bool,
                               accepts: (Mutation, map<CellKey, V>) -> bool, checks: map<CellKey, V> -> bool,
                               stamp: CellKey -> (nat, nat))
    returns (preview: Option<seq<Snapshot<V>>>, out: Outcome)
    requires interactor.WellFormed() && LiveMap(live) == CellsOf(interactor.store.cells, entity)
    modifies interactor.store
    ensures out.Committed? ==> preview.Some? && (Shows(preview.value, CellsOf(interactor.store.cells, entity)) <==>
      PreviewHolds(interactor.orderOf(entity), parse, media, stored, outdated, LiveMap(live), ForEntity(muts, entity)))
  {
    preview := Preview(live, entity, muts, parse);
    ghost var seen;
    out, seen := interactor.ApplyMutations(muts, Adopting(parse, media, stored), outdated, accepts, checks, stamp);
    if out.Committed? {
      ghost var mine := ForEntity(muts, entity);
      forall i | 0 <= i < |muts| ensures !Undecodable(parse, entity, muts[i]) {
        assert Applicable(Adopting(parse, media, stored), muts[i]);
      }
      forall i | 0 <= i < |mine| ensures Applicable(Adopting(parse, media, stored), mine[i]) { ForEntityIsPart(muts, entity, mine[i]); }
      PreviewHoldsExactly(interactor.orderOf(entity), parse, media, stored, outdated, LiveMap(live), mine);
      ShowsOneMap(preview.value, Overlay(parse, LiveMap(live), mine), CellsOf(interactor.store.cells, entity));
    }
  }

  // ---------------------------------------------------- two concrete inputs

  const TOTAL := Scope("total", "", "")
  const SET_PRICE := Mutation("set", "price", "e1", "", "", "7")

  function Doubled(): Attr<int> {
    Attr("total", 1, Formula(["price"], inputs => if "price" in inputs then Some(2 * inputs["price"]) else None))
  }

  lemma DoubledIsActive()
    ensures DistinctNames([Doubled()]) && IsOrder([Doubled()], [Doubled()])
  {
    var computed := [Doubled()];
    var g := ComputedGraph(computed);
    DepGraphAt(computed, NamesOf(AsNodes(computed)), 0);
    assert forall n :: n in NamesOf(AsNodes(computed)) ==> n == "total";
    assert g["total"] == [];
    ClosedSetIsAWall(g, {"total"}, "total", "total");
    assert Active(computed, computed[0]);
  }

  lemma OverlayOfOne<V>(parse: Parse<V>, cells: map<Scope, V>, m: Mutation)
    ensures Overlay(parse, cells, [m]) == Effect(parse, cells, m)
  {
    assert [m][..0] == [];
  }

  /** With price 5 and a total of twice the price, a batch that sets the price to 7 is previewed with a
      total of 10 and published with one of 14. */
  lemma PreviewMissesTheTotal()
    ensures IsOrder([Doubled()], [Doubled()])
    ensures var live := map[PRICE := 5, TOTAL := 10];
      && Overlay(Sevens(), live, [SET_PRICE]) == map[PRICE := 7, TOTAL := 10]
      && PublishedCells([Doubled()], Sevens(), k => false, live, [SET_PRICE]) == map[PRICE := 7, TOTAL := 14]
  {
    DoubledIsActive();
    var live := map[PRICE := 5, TOTAL := 10];
    var order := [Doubled()];
    OverlayOfOne(Sevens(), live, SET_PRICE);
    var written := Overlay(Sevens(), live, [SET_PRICE]);
    assert written == map[PRICE := 7, TOTAL := 10];
    assert [SET_PRICE][..0] == [] && Touches(Sevens(), k => false, live, [SET_PRICE]);
    SolveOfOne(Doubled(), BaseView(written));
    BaseViewAt(written, "price");
    assert Solve(order, BaseView(written)) == BaseView(written)["total" := 14];
    forall s ensures AgreeAt(Recomputed(order, written), map[PRICE := 7, TOTAL := 14], s) {
      BaseViewAt(written, s.attribute);
      WithBaseAt(written, BaseView(written)["total" := 14], s);
    }
    CellsEqual(Recomputed(order, written), map[PRICE := 7, TOTAL := 14]);
  }

  lemma SolveOfOne<V>(a: Attr<V>, base: View<V>)
    requires !a.spec.Unparseable?
    ensures Solve([a], base) == match Eval(a, base) case None => base - {a.name} case Some(v) => base[a.name := v]
  {
    assert [a][..0] == [];
  }

  /** A single mutation emits an event exactly when it removes a value that is there, or sets one that is not,
      or is another, or was written under an older definition version. */
  lemma EmitsExactly<V>(parse: Parse<V>, outdated: CellKey -> bool, cells: map<Scope, V>, m: Mutation)
    requires m.kind == "set" || m.kind == "remove"
    ensures var s := Scope(m.attribute, m.locale, m.channel);
      Touches(parse, outdated, cells, [m]) <==>
        if m.kind == "remove" then s in cells
        else parse(m.attribute, m.value).Some? && (s !in cells || parse(m.attribute, m.value) != Some(cells[s]) || outdated(CellKey(m.entity, s)))
  {
    assert [m][..0] == [];
  }

  const PHOTO := Scope("photo", "", "")

  /** A photo declared as 8 bytes under a key stored with 9 is previewed with 8 and stored with 9. */
  lemma PreviewShowsTheDeclaredPhoto()
    ensures var m, parse := Mutation("set", "photo", "e1", "", "", "8 bytes"), (attribute: string, text: string) => Some(text);
      var publish := Adopting(parse, attribute => attribute == "photo", v => Some("9 bytes"));
      && Overlay(parse, map[], [m]) == map[PHOTO := "8 bytes"]
      && PublishedCells([], publish, k => false, map[], [m]) == map[PHOTO := "9 bytes"]
  {
    var m, parse := Mutation("set", "photo", "e1", "", "", "8 bytes"), (attribute: string, text: string) => Some(text);
    var publish := Adopting(parse, attribute => attribute == "photo", v => Some("9 bytes"));
    OverlayOfOne(parse, map[], m);
    OverlayOfOne(publish, map[], m);
    WithOwnBase(Overlay(publish, map[], [m]));
  }
}
