/**
  Any number of writers and recomputes on one entity, interleaved step by step.

  A committed write and the recompute it dispatches are separate steps, so are a
  pass's snapshot and each of its writes, and passes on different replicas overlap
  freely.  Passes are not even made to nest: every interleaving the system can
  produce is among the runs below.  A schema change, a failed write and a process
  crash between a commit and its dispatch are not steps.
 */
module MaterializerRuns {
  import opened Computed
  import opened Options
  import opened Materializer

  datatype Frame<!V> =
    | Pending                                                            // dispatched, nothing read yet
    | Running(snapshot: Cells<V>, inputs: View<V>, todo: seq<Attr<V>>)   // between its writes

  datatype State<!V> = State(cells: Cells<V>, nextId: nat, frames: map<nat, Frame<V>>)

  datatype Step<V> =
    | WriteSource(name: string, content: Option<Cell<V>>, dispatched: nat)
    | StartRecompute(frame: nat)                 // a background rebuild
    | TakeSnapshot(frame: nat)
    | Visit(frame: nat, dispatched: nat)
    | Finish(frame: nat)

  /** The rows after a pass handles one attribute: set, clear the row it saw, or nothing. */
  ghost function VisitRows<V>(c: Attr<V>, result: Option<V>, snapshot: Cells<V>, cells: Cells<V>, freshId: nat): Cells<V> {
    match result
    case None =>
      if c.name in snapshot && c.name in cells && cells[c.name].id == snapshot[c.name].id then cells - {c.name} else cells
    case Some(v) =>
      if SetChanges(cells, c, v) then Put(cells, freshId, c, v) else cells
  }

  ghost predicate Next<V>(computed: seq<Attr<V>>, order: seq<Attr<V>>, s: State<V>, step: Step<V>, s': State<V>)
    requires IsOrder(order, computed)
  {
    match step
    case WriteSource(name, content, dispatched) =>
      && !NameIn(order, name) && dispatched !in s.frames
      && s'.cells == Written(s.cells, name, content) && s'.nextId == s.nextId
      && s'.frames == if s'.cells == s.cells then s.frames else s.frames[dispatched := Pending]
    case StartRecompute(frame) =>
      frame !in s.frames && s' == s.(frames := s.frames[frame := Pending])
    case TakeSnapshot(frame) =>
      && frame in s.frames && s.frames[frame].Pending?
      && s' == s.(frames := s.frames[frame := Running(s.cells, ViewOf(s.cells), RollupsFirst(computed))])
    case Visit(frame, dispatched) =>
      && frame in s.frames && dispatched !in s.frames
      && s.frames[frame].Running? && s.frames[frame].todo != []
      && VisitHead(computed, s, s.frames[frame], frame, dispatched, s')
    case Finish(frame) =>
      && frame in s.frames && s.frames[frame].Running? && s.frames[frame].todo == []
      && s' == s.(frames := s.frames - {frame})
  }

  ghost predicate VisitHead<V>(computed: seq<Attr<V>>, s: State<V>, f: Frame<V>, frame: nat, dispatched: nat, s': State<V>)
    requires f.Running? && f.todo != []
  {
    var c, rest := f.todo[0], f.todo[1..];
    if !Active(computed, c) then
      s' == s.(frames := s.frames[frame := f.(todo := rest)])
    else
      var result := Eval(c, f.inputs);
      var cells := VisitRows(c, result, f.snapshot, s.cells, s.nextId);
      var frames := s.frames[frame := Running(f.snapshot, Feed(c, result, f.inputs), rest)];
      if cells == s.cells then s' == s.(frames := frames)
      else s' == State(cells, s.nextId + 1, frames[dispatched := Pending])
  }

  // -------------------------------------------------------------- invariant

  ghost predicate SameRow<V>(x: Cells<V>, y: Cells<V>, n: string) {
    (n in x <==> n in y) && (n in x ==> x[n] == y[n])
  }

  /** This frame will still look at `a`, and what it will look at is current. */
  ghost predicate WillSettle<V>(f: Frame<V>, a: Attr<V>, cells: Cells<V>) {
    f.Pending? ||
    (&& a in f.todo
     && SameRow(f.snapshot, cells, a.name)
     && forall n :: n in RefsOf(a) ==> SameRow(f.snapshot, cells, n) && SameAt(f.inputs, ViewOf(cells), n))
  }

  ghost predicate Attended<V>(a: Attr<V>, s: State<V>) {
    exists id :: id in s.frames && WillSettle(s.frames[id], a, s.cells)
  }

  /** Every attribute holds its formula's value, or somebody in flight is going to see to it. */
  ghost predicate Inv<V>(order: seq<Attr<V>>, s: State<V>)
    requires WellOrdered(order)
  {
    forall a :: a in order ==> Settled(a, s.cells) || Attended(a, s)
  }

  lemma PendingAttendsToAll<V>(order: seq<Attr<V>>, s: State<V>, id: nat)
    requires WellOrdered(order) && id in s.frames && s.frames[id].Pending?
    ensures Inv(order, s)
  {
    forall a | a in order ensures Attended(a, s) {
      assert WillSettle(s.frames[id], a, s.cells);
    }
  }

  lemma IdleVisitWroteNothing<V>(c: Attr<V>, result: Option<V>, snapshot: Cells<V>, cells: Cells<V>, freshId: nat)
    requires VisitRows(c, result, snapshot, cells, freshId) == cells
    ensures match result
            case None => !(c.name in snapshot && c.name in cells && cells[c.name].id == snapshot[c.name].id)
            case Some(v) => !SetChanges(cells, c, v)
  {
    match result {
      case None =>
        assert c.name !in cells - {c.name};
      case Some(v) =>
        var put := Put(cells, freshId, c, v);
        assert put[c.name].value == v && put[c.name].version == c.version;
    }
  }

  /** A visit that changes nothing leaves the visited attribute settled, if the frame was attending to it. */
  lemma IdleVisitSettles<V>(f: Frame<V>, a: Attr<V>, cells: Cells<V>, freshId: nat)
    requires f.Running? && !a.spec.Unparseable? && WillSettle(f, a, cells)
    requires VisitRows(a, Eval(a, f.inputs), f.snapshot, cells, freshId) == cells
    ensures Settled(a, cells)
  {
    EvalReadsOnlyItsRefs(a, f.inputs, ViewOf(cells));
    IdleVisitWroteNothing(a, Eval(a, f.inputs), f.snapshot, cells, freshId);
  }

  /** ...and the frame keeps attending to everything else it was attending to. */
  lemma IdleVisitKeepsAttending<V>(f: Frame<V>, c: Attr<V>, a: Attr<V>, cells: Cells<V>, freshId: nat)
    requires f.Running? && f.todo != [] && f.todo[0] == c && a != c
    requires !c.spec.Unparseable? && WillSettle(f, a, cells)
    requires VisitRows(c, Eval(c, f.inputs), f.snapshot, cells, freshId) == cells
    ensures WillSettle(Running(f.snapshot, Feed(c, Eval(c, f.inputs), f.inputs), f.todo[1..]), a, cells)
  {
    var fed := Feed(c, Eval(c, f.inputs), f.inputs);
    IdleVisitWroteNothing(c, Eval(c, f.inputs), f.snapshot, cells, freshId);
    forall n | n in RefsOf(a) ensures SameAt(fed, ViewOf(cells), n) {
      assert SameAt(f.inputs, ViewOf(cells), n) && SameRow(f.snapshot, cells, n);
    }
    assert f.todo == [c] + f.todo[1..];
  }

  lemma VisitKeepsInv<V>(computed: seq<Attr<V>>, order: seq<Attr<V>>, s: State<V>, frame: nat, dispatched: nat, s': State<V>)
    requires IsOrder(order, computed) && Inv(order, s)
    requires Next(computed, order, s, Visit(frame, dispatched), s')
    ensures Inv(order, s')
  {
    var f := s.frames[frame];
    var c := f.todo[0];
    if s'.cells != s.cells {
      PendingAttendsToAll(order, s', dispatched);
    } else {
      forall a | a in order ensures Settled(a, s'.cells) || Attended(a, s') {
        if !Settled(a, s.cells) {
          var id :| id in s.frames && WillSettle(s.frames[id], a, s.cells);
          if id == frame {
            assert f.todo == [c] + f.todo[1..];
            if Active(computed, c) {
              if a == c { IdleVisitSettles(f, a, s.cells, s.nextId); }
              else { IdleVisitKeepsAttending(f, c, a, s.cells, s.nextId); }
            }
          }
          assert Settled(a, s.cells) || WillSettle(s'.frames[id], a, s'.cells);
        }
      }
    }
  }

  lemma StepKeepsInv<V>(computed: seq<Attr<V>>, order: seq<Attr<V>>, s: State<V>, step: Step<V>, s': State<V>)
    requires IsOrder(order, computed) && Inv(order, s) && Next(computed, order, s, step, s')
    ensures Inv(order, s')
  {
    match step {
      case WriteSource(name, content, dispatched) =>
        if s'.cells != s.cells { PendingAttendsToAll(order, s', dispatched); }
        else { assert forall id :: id in s.frames ==> s'.frames[id] == s.frames[id]; }
      case StartRecompute(frame) =>
        PendingAttendsToAll(order, s', frame);
      case TakeSnapshot(frame) =>
        SnapshotAttendsToAll(computed, order, s, frame, s');
      case Visit(frame, dispatched) =>
        VisitKeepsInv(computed, order, s, frame, dispatched, s');
      case Finish(frame) =>
        forall a | a in order ensures Settled(a, s'.cells) || Attended(a, s') {
          if !Settled(a, s.cells) {
            var id :| id in s.frames && WillSettle(s.frames[id], a, s.cells);
            assert id in s'.frames && s'.frames[id] == s.frames[id];
          }
        }
    }
  }

  lemma SnapshotAttendsToAll<V>(computed: seq<Attr<V>>, order: seq<Attr<V>>, s: State<V>, frame: nat, s': State<V>)
    requires IsOrder(order, computed) && Next(computed, order, s, TakeSnapshot(frame), s')
    ensures Inv(order, s')
  {
    forall a | a in order ensures Attended(a, s') {
      assert a in multiset(computed) && a in multiset(RollupsFirst(computed));
      assert WillSettle(s'.frames[frame], a, s'.cells);
    }
  }

  // ------------------------------------------------------------------- runs

  /** A run starts from rows that agree with the formulas, or with a recompute dispatched. */
  ghost predicate Starts<V>(order: seq<Attr<V>>, s: State<V>)
    requires WellOrdered(order)
  {
    (s.frames == map[] && AllSettled(order, s.cells)) || (exists id :: id in s.frames && s.frames[id].Pending?)
  }

  ghost predicate IsRun<V>(computed: seq<Attr<V>>, order: seq<Attr<V>>, states: seq<State<V>>, steps: seq<Step<V>>)
    requires IsOrder(order, computed)
  {
    |states| == |steps| + 1 && Starts(order, states[0]) && FollowsUpTo(computed, order, states, steps, |steps|)
  }

  ghost predicate FollowsUpTo<V>(computed: seq<Attr<V>>, order: seq<Attr<V>>, states: seq<State<V>>, steps: seq<Step<V>>, n: nat)
    requires IsOrder(order, computed) && n <= |steps| && |states| == |steps| + 1
  {
    n == 0 || (FollowsUpTo(computed, order, states, steps, n - 1) && Next(computed, order, states[n - 1], steps[n - 1], states[n]))
  }

  lemma {:induction false} FollowsAt<V>(computed: seq<Attr<V>>, order: seq<Attr<V>>, states: seq<State<V>>, steps: seq<Step<V>>, n: nat, k: nat)
    requires IsOrder(order, computed) && k < n <= |steps| && |states| == |steps| + 1
    requires FollowsUpTo(computed, order, states, steps, n)
    ensures Next(computed, order, states[k], steps[k], states[k + 1])
  {
    if k < n - 1 { FollowsAt(computed, order, states, steps, n - 1, k); }
  }

  lemma StartsInv<V>(order: seq<Attr<V>>, s: State<V>)
    requires WellOrdered(order) && Starts(order, s)
    ensures Inv(order, s)
  {
    if id :| id in s.frames && s.frames[id].Pending? {
      PendingAttendsToAll(order, s, id);
    } else {
      assert forall a :: a in order ==> exists p :: 0 <= p < |order| && order[p] == a;
    }
  }

  lemma RunStartsInv<V>(computed: seq<Attr<V>>, order: seq<Attr<V>>, states: seq<State<V>>, steps: seq<Step<V>>)
    requires IsOrder(order, computed) && IsRun(computed, order, states, steps)
    ensures Inv(order, states[0])
  {
    StartsInv(order, states[0]);
  }

  lemma RunStepKeepsInv<V>(computed: seq<Attr<V>>, order: seq<Attr<V>>, states: seq<State<V>>, steps: seq<Step<V>>, k: nat)
    requires IsOrder(order, computed) && IsRun(computed, order, states, steps) && k < |steps| && Inv(order, states[k])
    ensures Inv(order, states[k + 1])
  {
    FollowsAt(computed, order, states, steps, |steps|, k);
    StepKeepsInv(computed, order, states[k], steps[k], states[k + 1]);
  }

  lemma {:induction false} RunKeepsInv<V>(computed: seq<Attr<V>>, order: seq<Attr<V>>, states: seq<State<V>>, steps: seq<Step<V>>, i: nat)
    requires IsOrder(order, computed) && IsRun(computed, order, states, steps) && i < |states|
    ensures Inv(order, states[i])
  {
    RunStartsInv(computed, order, states, steps);
    for k := 0 to i
      invariant Inv(order, states[k])
    {
      RunStepKeepsInv(computed, order, states, steps, k);
    }
  }

  /** Whenever no recompute is in flight, every active attribute equals its formula over the
      stored values: the rows are the reference meaning of their own sources. */
  lemma QuiescentIsConverged<V(!new)>(computed: seq<Attr<V>>, order: seq<Attr<V>>, states: seq<State<V>>, steps: seq<Step<V>>, i: nat)
    requires IsOrder(order, computed) && IsRun(computed, order, states, steps) && i < |states|
    requires states[i].frames == map[]
    ensures AllSettled(order, states[i].cells)
    ensures ViewOf(states[i].cells) == Solve(order, ViewOf(states[i].cells))
    ensures forall a :: a in computed && Active(computed, a) ==> HoldsItsResult(a, states[i].cells)
  {
    RunKeepsInv(computed, order, states, steps, i);
    forall p | 0 <= p < |order| ensures Settled(order[p], states[i].cells) {
      assert order[p] in order;
    }
    SettledIsSolved(order, ViewOf(states[i].cells), states[i].cells);
    SettledActivesHoldTheirResults(order, computed, states[i].cells);
  }
}
