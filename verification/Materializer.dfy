/**
  The materializer of one entity's computed attributes.

  A recompute evaluates every formula against a snapshot and writes each result.
  A write that changes a row dispatches its event synchronously after commit, and
  that runs a NESTED recompute before the outer pass resumes, snapshot now stale.
  This file proves that the nest terminates and where it ends.
 */
module Materializer {
  import opened Ordering
  import opened RefGraph
  import opened Computed
  import opened Options

  /** The order a pass visits attributes in: rollups first, otherwise as listed. */
  function RollupsFirst<V>(computed: seq<Attr<V>>): (pass: seq<Attr<V>>)
    ensures multiset(pass) == multiset(computed)
  {
    StableSort(computed, NotAfter)
  }

  predicate NotAfter<V>(x: Attr<V>, y: Attr<V>) {
    !(y.spec.Rollup? && !x.spec.Rollup?)
  }

  /** The attributes of one kind, as listed. */
  function OfKind<V>(attrs: seq<Attr<V>>, rollup: bool): (r: seq<Attr<V>>)
    ensures forall i :: 0 <= i < |r| ==> r[i].spec.Rollup? == rollup
  {
    if attrs == [] then []
    else (if attrs[0].spec.Rollup? == rollup then [attrs[0]] else []) + OfKind(attrs[1..], rollup)
  }

  lemma OfKindCons<V>(attrs: seq<Attr<V>>)
    requires attrs != []
    ensures OfKind(attrs, attrs[0].spec.Rollup?) == [attrs[0]] + OfKind(attrs[1..], attrs[0].spec.Rollup?)
    ensures OfKind(attrs, !attrs[0].spec.Rollup?) == OfKind(attrs[1..], !attrs[0].spec.Rollup?)
  {
  }

  lemma RollupsFirstCons<V>(computed: seq<Attr<V>>)
    requires computed != []
    ensures RollupsFirst(computed) == Insert(computed[0], RollupsFirst(computed[1..]), NotAfter)
  {
  }

  lemma InsertIntoItsKind<V>(x: Attr<V>, rollups: seq<Attr<V>>, others: seq<Attr<V>>)
    requires forall i :: 0 <= i < |rollups| ==> rollups[i].spec.Rollup?
    requires forall i :: 0 <= i < |others| ==> !others[i].spec.Rollup?
    ensures x.spec.Rollup? ==> Insert(x, rollups + others, NotAfter) == [x] + rollups + others
    ensures !x.spec.Rollup? ==> Insert(x, rollups + others, NotAfter) == rollups + ([x] + others)
  {
    if x.spec.Rollup? {
      InsertInFront(x, rollups + others);
      assert [x] + (rollups + others) == [x] + rollups + others;
    } else {
      InsertBehind(x, rollups, others);
    }
  }

  /** A pass takes every rollup, as listed, and then everything else, as listed. */
  lemma {:induction false} PassIsRollupsThenOthers<V>(computed: seq<Attr<V>>)
    ensures RollupsFirst(computed) == OfKind(computed, true) + OfKind(computed, false)
  {
    if computed == [] {
    } else {
      PassIsRollupsThenOthers(computed[1..]);
      RollupsFirstCons(computed);
      OfKindCons(computed);
      InsertIntoItsKind(computed[0], OfKind(computed[1..], true), OfKind(computed[1..], false));
    }
  }

  lemma InsertInFront<V>(x: Attr<V>, ys: seq<Attr<V>>)
    requires x.spec.Rollup? || ys == [] || !ys[0].spec.Rollup?
    ensures Insert(x, ys, NotAfter) == [x] + ys
  {
  }

  lemma {:induction false} InsertBehind<V>(x: Attr<V>, rollups: seq<Attr<V>>, others: seq<Attr<V>>)
    requires !x.spec.Rollup? && forall i :: 0 <= i < |rollups| ==> rollups[i].spec.Rollup?
    requires forall i :: 0 <= i < |others| ==> !others[i].spec.Rollup?
    ensures Insert(x, rollups + others, NotAfter) == rollups + ([x] + others)
  {
    if rollups == [] {
      assert rollups + others == others;
      InsertInFront(x, others);
    } else {
      var ys, tail := rollups + others, rollups[1..];
      assert ys[0] == rollups[0] && ys[1..] == tail + others;
      InsertBehind(x, tail, others);
      assert Insert(x, ys, NotAfter) == [ys[0]] + Insert(x, ys[1..], NotAfter);
      assert [rollups[0]] + (tail + ([x] + others)) == rollups + ([x] + others);
    }
  }

  /** The upsert of a single-valued row: an existing row keeps its id. */
  function Put<V>(cells: Cells<V>, freshId: nat, a: Attr<V>, v: V): (r: Cells<V>)
    ensures a.name in r && r[a.name].value == v && r[a.name].version == a.version
    ensures a.name in cells ==> r[a.name].id == cells[a.name].id
    ensures OnlyChangesAt(cells, r, a.name)
  {
    cells[a.name := Cell(if a.name in cells then cells[a.name].id else freshId, v, a.version)]
  }

  /** Where a pass stands: until its first changed write the stored rows ARE its snapshot;
      after it, every nested pass has left them settled. */
  ghost predicate InPass<V>(order: seq<Attr<V>>, cells: Cells<V>, snapshot: Cells<V>, inputs: View<V>, wrote: bool)
    requires WellOrdered(order)
  {
    && Kept(order, snapshot, cells)
    && Feeds(order, inputs, snapshot)
    && (if wrote then AllSettled(order, cells) else cells == snapshot && inputs == ViewOf(snapshot))
  }

  /** Any changed write of a pass, first or stale, leaves less unsettled than the pass began with. */
  lemma PassWriteShrinks<V>(order: seq<Attr<V>>, c: Attr<V>, cells: Cells<V>, snapshot: Cells<V>, inputs: View<V>,
                            wrote: bool, after: Cells<V>)
    requires WellOrdered(order) && c in order && InPass(order, cells, snapshot, inputs, wrote)
    requires OnlyChangesAt(cells, after, c.name)
    requires match Eval(c, inputs)
             case None => c.name in cells && c.name !in after
             case Some(v) => SetChanges(cells, c, v) && !SetChanges(after, c, v)
    ensures Unsettled(order, after) < Unsettled(order, snapshot)
  {
    var p :| 0 <= p < |order| && order[p] == c;
    if wrote {
      KeptIsSameOutside(order, snapshot, cells);
      assert Settled(order[p], cells);
      StaleWriteShrinks(order, p, snapshot, inputs, cells, after);
    } else {
      FirstWriteShrinks(order, p, snapshot, after);
    }
  }

  /** A rollup's fresh result replaces the stale one in what later formulas read. */
  function Feed<V>(c: Attr<V>, result: Option<V>, inputs: View<V>): View<V> {
    if !c.spec.Rollup? then inputs
    else
      match result
      case None => map n | n in inputs && n != c.name :: inputs[n]
      case Some(v) => inputs[c.name := v]
  }

  lemma FeedKeepsFeeds<V>(order: seq<Attr<V>>, c: Attr<V>, snapshot: Cells<V>, inputs: View<V>)
    requires WellOrdered(order) && c in order && Feeds(order, inputs, snapshot)
    ensures Feeds(order, Feed(c, Eval(c, inputs), inputs), snapshot)
    ensures Settled(c, snapshot) && inputs == ViewOf(snapshot) ==> Feed(c, Eval(c, inputs), inputs) == inputs
  {
    var p :| 0 <= p < |order| && order[p] == c;
    var fed := Feed(c, Eval(c, inputs), inputs);
    forall n ensures SameAt(fed, ViewOf(snapshot), n) || FedRollup(order, fed, n) {
      assert SameAt(inputs, ViewOf(snapshot), n) || FedRollup(order, inputs, n);
      if c.spec.Rollup? && n == c.name { assert order[p].name == n; }
    }
  }

  lemma NothingToSettle<V>(order: seq<Attr<V>>, computed: seq<Attr<V>>, cells: Cells<V>)
    requires IsOrder(order, computed) && |computed| == 0
    ensures AllSettled(order, cells)
  {
    assert forall i :: 0 <= i < |order| ==> order[i] in order;
  }

  ghost predicate VisitedSettled<V>(computed: seq<Attr<V>>, visited: seq<Attr<V>>, cells: Cells<V>) {
    forall a :: a in visited && Active(computed, a) ==> Settled(a, cells)
  }

  lemma VisitedOneMore<V>(computed: seq<Attr<V>>, pass: seq<Attr<V>>, k: nat, cells: Cells<V>)
    requires k < |pass|
    ensures VisitedSettled(computed, pass[..k], cells) && (Active(computed, pass[k]) ==> Settled(pass[k], cells)) ==>
      VisitedSettled(computed, pass[..k + 1], cells)
  {
    assert pass[..k + 1] == pass[..k] + [pass[k]];
  }

  lemma ActiveIsInOrder<V>(order: seq<Attr<V>>, computed: seq<Attr<V>>, pass: seq<Attr<V>>, k: nat)
    requires IsOrder(order, computed) && multiset(pass) == multiset(computed) && k < |pass| && Active(computed, pass[k])
    ensures pass[k] in order
  {
    assert pass[k] in multiset(pass);
  }

  lemma VisitedAllSettled<V>(order: seq<Attr<V>>, computed: seq<Attr<V>>, pass: seq<Attr<V>>, cells: Cells<V>)
    requires IsOrder(order, computed) && multiset(pass) == multiset(computed)
    requires VisitedSettled(computed, pass, cells)
    ensures AllSettled(order, cells)
  {
    forall i | 0 <= i < |order| ensures Settled(order[i], cells) {
      assert order[i] in order;
      assert order[i] in multiset(computed);
    }
  }

  // -------------------------------------------------- a store that refuses values

  /** The active attributes are listed, as a pass visits them, after the active ones they read. */
  ghost predicate ListedInOrder<V>(computed: seq<Attr<V>>, pass: seq<Attr<V>>) {
    forall i, j :: 0 <= i <= j < |pass| && Active(computed, pass[i]) && Active(computed, pass[j]) ==> pass[j].name !in RefsOf(pass[i])
  }

  /** The store takes the value the solution gives each attribute. */
  ghost predicate AcceptsSolution<V>(order: seq<Attr<V>>, storable: (string, V) -> bool, sources: View<V>)
    requires WellOrdered(order)
  {
    forall i :: 0 <= i < |order| ==> Takes(order[i], storable, Solve(order, sources))
  }

  ghost predicate Takes<V>(a: Attr<V>, storable: (string, V) -> bool, inputs: View<V>)
    requires !a.spec.Unparseable?
  {
    match Eval(a, inputs)
    case None => true
    case Some(v) => storable(a.name, v)
  }

  lemma KeptAcceptsSolution<V>(order: seq<Attr<V>>, storable: (string, V) -> bool, x: Cells<V>, y: Cells<V>)
    requires WellOrdered(order) && Kept(order, x, y)
    ensures AcceptsSolution(order, storable, ViewOf(x)) <==> AcceptsSolution(order, storable, ViewOf(y))
  {
    KeptIsSameOutside(order, x, y);
    SolveForgetsOwned(order, ViewOf(x), ViewOf(y));
  }

  /** What an attribute reads is outside the order, or was visited before it. */
  lemma RefWasVisited<V>(order: seq<Attr<V>>, computed: seq<Attr<V>>, pass: seq<Attr<V>>, k: nat, n: string) returns (i: nat)
    requires IsOrder(order, computed) && multiset(pass) == multiset(computed) && ListedInOrder(computed, pass)
    requires k < |pass| && Active(computed, pass[k]) && n in RefsOf(pass[k]) && NameIn(order, n)
    ensures i < k && pass[i] in order && pass[i].name == n && Active(computed, pass[i])
  {
    var j :| 0 <= j < |order| && order[j].name == n;
    assert order[j] in order && order[j] in multiset(computed) && order[j] in pass;
    i :| 0 <= i < |pass| && pass[i] == order[j];
  }

  /** Listed in order, an attribute whose predecessors are all settled evaluates to its value in the solution. */
  lemma {:induction false} VisitedEvaluateToSolution<V>(order: seq<Attr<V>>, computed: seq<Attr<V>>, pass: seq<Attr<V>>, k: nat, cells: Cells<V>)
    requires IsOrder(order, computed) && multiset(pass) == multiset(computed) && ListedInOrder(computed, pass)
    requires k < |pass| && Active(computed, pass[k]) && VisitedSettled(computed, pass[..k], cells)
    ensures Eval(pass[k], ViewOf(cells)) == Eval(pass[k], Solve(order, ViewOf(cells)))
  {
    var solution := Solve(order, ViewOf(cells));
    forall n | n in RefsOf(pass[k]) ensures SameAt(ViewOf(cells), solution, n) {
      if NameIn(order, n) {
        var i := RefWasVisited(order, computed, pass, k, n);
        assert pass[..k][i] in pass[..k] && pass[..k][..i] == pass[..i];
        VisitedEvaluateToSolution(order, computed, pass, i, cells);
        var p :| 0 <= p < |order| && order[p] == pass[i];
        SolveSettles(order, ViewOf(cells), p);
      } else {
        SolveKeepsOthers(order, ViewOf(cells), n);
      }
    }
    EvalReadsOnlyItsRefs(pass[k], ViewOf(cells), solution);
  }

  lemma FirstWriteIsTaken<V>(order: seq<Attr<V>>, computed: seq<Attr<V>>, pass: seq<Attr<V>>, k: nat, cells: Cells<V>, storable: (string, V) -> bool)
    requires IsOrder(order, computed) && multiset(pass) == multiset(computed) && ListedInOrder(computed, pass)
    requires k < |pass| && Active(computed, pass[k]) && VisitedSettled(computed, pass[..k], cells)
    requires AcceptsSolution(order, storable, ViewOf(cells))
    ensures Takes(pass[k], storable, ViewOf(cells))
  {
    VisitedEvaluateToSolution(order, computed, pass, k, cells);
    ActiveIsInOrder(order, computed, pass, k);
    var p :| 0 <= p < |order| && order[p] == pass[k];
    assert Takes(order[p], storable, Solve(order, ViewOf(cells)));
  }

  lemma SettledActivesHoldTheirResults<V(!new)>(order: seq<Attr<V>>, computed: seq<Attr<V>>, cells: Cells<V>)
    requires IsOrder(order, computed) && AllSettled(order, cells)
    ensures forall a :: a in computed && Active(computed, a) ==> HoldsItsResult(a, cells)
  {
    forall a | a in computed && Active(computed, a) ensures HoldsItsResult(a, cells) {
      assert a in order;
      var i :| 0 <= i < |order| && order[i] == a;
      assert Settled(order[i], cells);
      SettledHoldsItsResult(a, cells);
    }
  }

  lemma KeptOutsideActives<V>(order: seq<Attr<V>>, computed: seq<Attr<V>>, x: Cells<V>, y: Cells<V>)
    requires IsOrder(order, computed) && Kept(order, x, y)
    ensures forall n :: (forall a :: a in computed && Active(computed, a) ==> a.name != n) ==>
      (n in y <==> n in x) && (n in y ==> y[n] == x[n])
  {
    assert forall i :: 0 <= i < |order| ==> order[i] in order;
  }

  class Entity<V(==,!new)> {
    const computed: seq<Attr<V>>
    /** What the store takes as an attribute's value; a write of anything else is refused. */
    const storable: (string, V) -> bool
    var cells: Cells<V>
    var nextId: nat
    /** The per-type fast path: does the type have any computed attribute? */
    var hasComputed: Option<bool>
    /** The active attributes, each after everything active it reads. */
    ghost const order: seq<Attr<V>>

    ghost predicate WellFormed() {
      DistinctNames(computed) && IsOrder(order, computed)
    }

    /** The store refuses nothing, or at least nothing of the solution to attributes listed in order. */
    ghost predicate Accepting()
      requires WellFormed()
      reads this`cells
    {
      || RefusesNothing()
      || (ListedInOrder(computed, RollupsFirst(computed)) && AcceptsSolution(order, storable, ViewOf(cells)))
    }

    ghost predicate RefusesNothing() {
      forall n, v :: storable(n, v)
    }

    ghost predicate FastPathRight()
      reads this`hasComputed
    {
      hasComputed.Some? ==> hasComputed.value == (|computed| > 0)
    }

    constructor (computed: seq<Attr<V>>, cells: Cells<V>, storable: (string, V) -> bool)
      requires DistinctNames(computed)
      ensures WellFormed() && FastPathRight() && this.computed == computed && this.cells == cells && this.storable == storable
    {
      this.computed := computed;
      this.storable := storable;
      this.cells := cells;
      nextId := 0;
      hasComputed := None;
      ghost var o := OrderExists(computed);
      order := o;
    }

    /** A committed write dispatches before it returns: its recompute has finished by then, and should it
        have stopped at a refused write, that is reported and not raised. */
    method Dispatch(ghost bound: nat)
      requires WellFormed() && Accepting() && FastPathRight() && Unsettled(order, cells) < bound
      modifies this
      ensures FastPathRight() && AllSettled(order, cells) && Kept(order, old(cells), cells)
      decreases bound, 0
    {
      var ok := Recompute();
    }

    /** `Values().Set`: refused, or an upsert that emits an event exactly when the row changes. */
    method Set(c: Attr<V>, v: V, ghost bound: nat) returns (changed: bool, refused: bool)
      requires WellFormed() && Accepting() && FastPathRight() && c in order
      requires SetChanges(cells, c, v) ==> Unsettled(order, Put(cells, nextId, c, v)) < bound
      modifies this
      ensures FastPathRight() && Kept(order, old(cells), cells)
      ensures refused <==> !storable(c.name, v)
      ensures changed <==> !refused && SetChanges(old(cells), c, v)
      ensures if changed then AllSettled(order, cells) else cells == old(cells)
      decreases bound, 1
    {
      if !storable(c.name, v) { return false, true; }
      if c.name in cells && cells[c.name].value == v && cells[c.name].version == c.version {
        return false, false;
      }
      ghost var before := cells;
      cells := Put(cells, nextId, c, v);
      nextId := nextId + 1;
      OnlyChangesActiveKeeps(order, c, before, cells);
      KeptAcceptsSolution(order, storable, before, cells);
      ghost var written := cells;
      Dispatch(bound);
      KeptTransitive(order, before, written, cells);
      return true, false;
    }

    /** `Values().Remove` of a row id the pass read in its snapshot; a row a nested pass
        already removed or replaced is tolerated. */
    method Remove(c: Attr<V>, id: nat, ghost bound: nat) returns (changed: bool)
      requires WellFormed() && Accepting() && FastPathRight() && c in order
      requires c.name in cells ==> Unsettled(order, cells - {c.name}) < bound
      modifies this
      ensures FastPathRight() && Kept(order, old(cells), cells)
      ensures changed <==> c.name in old(cells) && old(cells)[c.name].id == id
      ensures if changed then AllSettled(order, cells) else cells == old(cells)
      decreases bound, 1
    {
      if c.name !in cells || cells[c.name].id != id { return false; }
      ghost var before := cells;
      cells := cells - {c.name};
      OnlyChangesActiveKeeps(order, c, before, cells);
      KeptAcceptsSolution(order, storable, before, cells);
      ghost var written := cells;
      Dispatch(bound);
      KeptTransitive(order, before, written, cells);
      return true;
    }

    /** The write a pass makes for one attribute: set the result, or clear the row it saw.  Only a stale
        result can be refused. */
    method Materialize(c: Attr<V>, result: Option<V>, snapshot: Cells<V>, ghost inputs: View<V>, ghost wrote: bool)
      returns (ghost changed: bool, refused: bool)
      requires WellFormed() && Accepting() && FastPathRight() && c in order && InPass(order, cells, snapshot, inputs, wrote)
      requires result == Eval(c, inputs) && (!wrote ==> Takes(c, storable, inputs))
      modifies this
      ensures FastPathRight() && InPass(order, cells, snapshot, Feed(c, result, inputs), wrote || changed)
      ensures !wrote && !changed ==> Settled(c, snapshot)
      ensures refused <==> result.Some? && !storable(c.name, result.value)
      ensures refused ==> wrote && cells == old(cells)
      decreases Unsettled(order, snapshot), 2
    {
      changed, refused := false, false;
      ghost var before := cells;
      FeedKeepsFeeds(order, c, snapshot, inputs);
      match result {
        case None =>
          if c.name in snapshot {
            if c.name in before { PassWriteShrinks(order, c, before, snapshot, inputs, wrote, before - {c.name}); }
            changed := Remove(c, snapshot[c.name].id, Unsettled(order, snapshot));
          }
        case Some(v) =>
          if SetChanges(before, c, v) {
            PassWriteShrinks(order, c, before, snapshot, inputs, wrote, Put(before, nextId, c, v));
          }
          changed, refused := Set(c, v, Unsettled(order, snapshot));
      }
      KeptTransitive(order, snapshot, before, cells);
    }

    /** One pass over a snapshot of the rows, some of whose attributes are caught in a cycle.  It stops at
        a refused write; by then an earlier write's nested pass has settled everything. */
    method Pass(cyclic: set<string>) returns (ok: bool)
      requires WellFormed() && Accepting() && FastPathRight()
      requires forall n :: n in cyclic <==> Reaches(ComputedGraph(computed), n, n)
      modifies this
      ensures FastPathRight() && AllSettled(order, cells) && Kept(order, old(cells), cells)
      ensures RefusesNothing() ==> ok
      decreases Unsettled(order, cells), 3
    {
      var snapshot := cells;
      var inputs := ViewOf(snapshot);
      var pass := RollupsFirst(computed);
      ghost var wrote := false;
      for k := 0 to |pass|
        invariant FastPathRight()
        invariant InPass(order, cells, snapshot, inputs, wrote)
        invariant !wrote ==> VisitedSettled(computed, pass[..k], snapshot)
      {
        var c := pass[k];
        VisitedOneMore(computed, pass, k, snapshot);
        if c.name in cyclic || c.spec.Unparseable? { continue; }
        ActiveIsInOrder(order, computed, pass, k);
        var result := Eval(c, inputs);
        KeptAcceptsSolution(order, storable, snapshot, cells);
        if !wrote && !RefusesNothing() { FirstWriteIsTaken(order, computed, pass, k, snapshot, storable); }
        ghost var changed;
        var refused;
        changed, refused := Materialize(c, result, snapshot, inputs, wrote);
        if refused { return false; }
        inputs := Feed(c, result, inputs);
        wrote := wrote || changed;
      }
      assert pass[..|pass|] == pass;
      if !wrote { VisitedAllSettled(order, computed, pass, snapshot); }
      return true;
    }

    /** Whatever rows it starts from, it ends in the one assignment where every active attribute's row holds
        its result over the rows then stored, a missing input missing; nothing else is touched. */
    method Recompute() returns (ok: bool)
      requires WellFormed() && Accepting() && FastPathRight()
      modifies this
      ensures FastPathRight() && AllSettled(order, cells) && Kept(order, old(cells), cells)
      ensures forall a :: a in computed && Active(computed, a) ==> HoldsItsResult(a, cells)
      ensures forall n :: (forall a :: a in computed && Active(computed, a) ==> a.name != n) ==>
        (n in cells <==> n in old(cells)) && (n in cells ==> cells[n] == old(cells)[n])
      ensures RefusesNothing() ==> ok
      decreases Unsettled(order, cells), 4
    {
      if |computed| == 0 { NothingToSettle(order, computed, cells); }
      if hasComputed == Some(false) { return true; }
      hasComputed := Some(|computed| > 0);
      if |computed| == 0 { return true; }
      ghost var before := cells;
      var cyclic := CyclicNames(AsNodes(computed));
      ok := Pass(cyclic);
      SettledActivesHoldTheirResults(order, computed, cells);
      KeptOutsideActives(order, computed, before, cells);
    }

    /** A caller's write to a source attribute, and the event it dispatches.  The names a
        caller may write are the ones no active attribute owns. */
    method WriteSource(name: string, content: Option<Cell<V>>) returns (changed: bool)
      requires WellFormed() && FastPathRight() && !NameIn(order, name)
      requires RefusesNothing() ||
        (ListedInOrder(computed, RollupsFirst(computed)) && AcceptsSolution(order, storable, ViewOf(Written(cells, name, content))))
      modifies this
      ensures FastPathRight()
      ensures changed <==> Written(old(cells), name, content) != old(cells)
      ensures !changed ==> cells == old(cells)
      ensures changed ==> AllSettled(order, cells)
      ensures changed ==> ViewOf(cells) == Solve(order, ViewOf(Written(old(cells), name, content)))
    {
      ghost var before := cells;
      match content {
        case None =>
          if name !in cells { return false; }
          cells := cells - {name};
        case Some(cell) =>
          if name in cells && cells[name] == cell { return false; }
          cells := cells[name := cell];
      }
      ghost var written := cells;
      assert written == Written(before, name, content);
      Dispatch(Unsettled(order, cells) + 1);
      KeptIsSameOutside(order, written, cells);
      SettledIsSolved(order, ViewOf(written), cells);
      return true;
    }
  }

  /** The rows right after a write to a source attribute, before anything is recomputed. */
  ghost function Written<V>(cells: Cells<V>, name: string, content: Option<Cell<V>>): Cells<V> {
    match content
    case None => cells - {name}
    case Some(cell) => cells[name := cell]
  }

  /** Setting the value a row already holds, under a newer definition version, changes the row. */
  lemma SameValueUnderANewVersionChanges()
    ensures var rows := map["total" := Cell(1, 5, 1)];
      var total := Attr("total", 2, Formula([], inputs => Some(5)));
      SetChanges(rows, total, 5) && Put(rows, 9, total, 5) == map["total" := Cell(1, 5, 2)] && ViewOf(Put(rows, 9, total, 5)) == ViewOf(rows)
  {
    var rows := map["total" := Cell(1, 5, 1)];
    var total := Attr("total", 2, Formula([], inputs => Some(5)));
    assert Put(rows, 9, total, 5) == map["total" := Cell(1, 5, 2)];
    assert ViewOf(rows) == map["total" := 5] == ViewOf(Put(rows, 9, total, 5));
  }

  /** A pass over these rows finds nothing to change before it comes to a result the store refuses. */
  ghost predicate StopsUnwritten<V>(computed: seq<Attr<V>>, pass: seq<Attr<V>>, storable: (string, V) -> bool, cells: Cells<V>, k: nat)
    requires k < |pass|
  {
    VisitedSettled(computed, pass[..k], cells) && Active(computed, pass[k]) && !Takes(pass[k], storable, ViewOf(cells))
  }

  function Negated(): Attr<int> {
    Attr("x", 1, Formula(["src"], inputs => if "src" in inputs then Some(-1 * inputs["src"]) else None))
  }

  function Total(): Attr<int> {
    Attr("y", 1, Formula(["x", "src"], inputs => if "x" in inputs && "src" in inputs then Some(inputs["x"] + inputs["src"]) else None))
  }

  lemma NamesAreTheTwo<V>(x: Attr<V>, y: Attr<V>)
    ensures forall n :: n in NamesOf(AsNodes([x, y])) ==> n == x.name || n == y.name
  {
  }

  lemma ReadsNeither<V>(x: Attr<V>, y: Attr<V>, i: nat)
    requires x.name != y.name && i < 2 && [x, y][i].spec.Formula?
    requires x.name !in RefsOf([x, y][i]) && y.name !in RefsOf([x, y][i])
    ensures Succ(ComputedGraph([x, y]), [x, y][i].name) == []
  {
    var names := NamesOf(AsNodes([x, y]));
    DepGraphAt([x, y], names, i);
    NamesAreTheTwo(x, y);
    assert forall n :: n in RefsOf([x, y][i]) ==> n !in names;
    WithinNothing(RefsOf([x, y][i]), names);
  }

  lemma ReadsAtMost<V>(reader: Attr<V>, read: Attr<V>)
    requires reader.name != read.name && reader.spec.Formula? && reader.name !in RefsOf(reader)
    ensures forall r :: r in Succ(ComputedGraph([reader, read]), reader.name) ==> r == read.name
  {
    DepGraphAt([reader, read], NamesOf(AsNodes([reader, read])), 0);
    NamesAreTheTwo(reader, read);
  }

  /** An attribute that reads another, which reads neither of them: both are active, in either listing. */
  lemma BothAreActive<V>(reader: Attr<V>, read: Attr<V>)
    requires reader.name != read.name && reader.spec.Formula? && read.spec.Formula?
    requires reader.name !in RefsOf(reader) && reader.name !in RefsOf(read) && read.name !in RefsOf(read)
    ensures Active([reader, read], reader) && Active([reader, read], read)
  {
    var g := ComputedGraph([reader, read]);
    ReadsNeither(reader, read, 1);
    ClosedSetIsAWall(g, {read.name}, read.name, read.name);
    ReadsAtMost(reader, read);
    ClosedSetIsAWall(g, {reader.name, read.name}, reader.name, reader.name);
  }

  lemma ReaderComesSecond<V>(reader: Attr<V>, read: Attr<V>)
    requires reader.name != read.name && reader.spec.Formula? && read.spec.Formula?
    requires reader.name !in RefsOf(reader) && reader.name !in RefsOf(read) && read.name !in RefsOf(read)
    ensures DistinctNames([reader, read]) && IsOrder([read, reader], [reader, read])
  {
    BothAreActive(reader, read);
  }

  lemma FormulasAreVisitedAsListed<V>(x: Attr<V>, y: Attr<V>)
    requires x.spec.Formula? && y.spec.Formula?
    ensures RollupsFirst([x, y]) == [x, y]
  {
    assert [x, y][1..] == [y] && [y][1..] == [];
    RollupsFirstCons([x, y]);
    RollupsFirstCons([y]);
    InsertInFront(y, []);
    InsertInFront(x, [y]);
  }

  lemma SolveOfTwo<V>(a: Attr<V>, b: Attr<V>, base: View<V>, x: V, y: V)
    requires !a.spec.Unparseable? && !b.spec.Unparseable?
    requires Eval(a, base) == Some(x) && Eval(b, base[a.name := x]) == Some(y)
    ensures Solve([a, b], base) == base[a.name := x][b.name := y]
  {
    assert [a, b][..1] == [a] && [a][..0] == [];
    assert Solve([a], base) == base[a.name := x];
  }

  /** A store may take every value of the solution and the pass still stop, unsettled and without a write: when
      an attribute listed before one it reads comes, over the old value of that one, to something refused. */
  lemma AStaleResultStopsThePass<V>(reader: Attr<V>, read: Attr<V>, rows: Cells<V>, storable: (string, V) -> bool, x: V, y: V)
    requires reader.name != read.name && reader.spec.Formula? && read.spec.Formula?
    requires reader.name !in RefsOf(reader) && reader.name !in RefsOf(read) && read.name !in RefsOf(read)
    requires Eval(read, ViewOf(rows)) == Some(x) && Eval(reader, ViewOf(rows)[read.name := x]) == Some(y)
    requires storable(read.name, x) && storable(reader.name, y)
    requires !Takes(reader, storable, ViewOf(rows))
    ensures var computed, order := [reader, read], [read, reader];
      && IsOrder(order, computed) && AcceptsSolution(order, storable, ViewOf(rows)) && !AllSettled(order, rows)
      && |RollupsFirst(computed)| == 2 && StopsUnwritten(computed, RollupsFirst(computed), storable, rows, 0)
  {
    var order := [read, reader];
    ReaderComesSecond(reader, read);
    BothAreActive(reader, read);
    FormulasAreVisitedAsListed(reader, read);
    SolveOfTwo(read, reader, ViewOf(rows), x, y);
    var solution := Solve(order, ViewOf(rows));
    SolveSettles(order, ViewOf(rows), 0);
    SolveSettles(order, ViewOf(rows), 1);
    assert solution[read.name] == x && solution[reader.name] == y;
    if AllSettled(order, rows) {
      assert Settled(order[0], rows);
      SettledIsSolved(order, ViewOf(rows), rows);
    }
  }

  /** Say the source goes from 1 to 20 under a bound of 10.  The solution is x = -20 and y = 0; but y, listed
      first, comes to 19 over the old x. */
  lemma XAndYAfterTheSourceMoved()
    ensures var before := map["src" := 20, "x" := -1, "y" := 0];
      Eval(Total(), before) == Some(19) && Eval(Negated(), before) == Some(-20) && Eval(Total(), before["x" := -20]) == Some(0)
  {
    var before := map["src" := 20, "x" := -1, "y" := 0];
    assert Eval(Total(), before) == Some(-1 + 20);
    assert Eval(Negated(), before) == Some(-1 * 20);
    assert Eval(Total(), before["x" := -20]) == Some(-20 + 20);
  }

  /** Convergence does not depend on the order attributes are listed in: two listings of
      the same attributes over the same sources settle to the same values. */
  lemma ListingOrderIsInvisible<V>(xs: seq<Attr<V>>, ys: seq<Attr<V>>, xOrder: seq<Attr<V>>, yOrder: seq<Attr<V>>,
                                   x: Cells<V>, y: Cells<V>)
    requires DistinctNames(xs) && DistinctNames(ys) && (forall a :: a in xs <==> a in ys)
    requires IsOrder(xOrder, xs) && IsOrder(yOrder, ys)
    requires SameOutside(xOrder, ViewOf(x), ViewOf(y))
    requires AllSettled(xOrder, x) && AllSettled(yOrder, y)
    ensures ViewOf(x) == ViewOf(y)
  {
    GraphIgnoresListing(xs, ys);
    forall i | 0 <= i < |xOrder| ensures Settled(xOrder[i], y) {
      assert xOrder[i] in xOrder && xOrder[i] in yOrder;
    }
    SettledIsUnique(xOrder, x, y);
  }
}
