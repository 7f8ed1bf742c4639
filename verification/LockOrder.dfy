/**
  The locks a batch of value writes takes, all of them held to commit, and when
  concurrent batches can block each other for good.

  A set locks its attribute's definition, then for a media value the object key, then the value
  row it rewrites, then the entity's summary row; a removal locks only the last two.  The canonical
  entity order sorts the summary rows and nothing else, so two batches can deadlock; this file says
  exactly when, and which batches never do.
 */
module LockOrder {
  import opened Options
  import opened Ordering
  import opened Mutations
  import opened BatchWrites
  import opened Traces

  datatype Lock =
    | DefinitionRow(attribute: string)
    | MediaKey(key: string)
    | ValueRow(entity: string, scope: Scope)
    | SummaryRow(entity: string)

  /** What a mutation finds when its turn comes: nothing to change, no row yet, or a row to rewrite. */
  datatype Found = Unchanged | NewRow | OldRow

  /** A mutation with what decides its locks. */
  datatype Write = Write(mutation: Mutation, mediaKey: Option<string>, found: Found)

  function EntityOf(w: Write): string {
    w.mutation.entity
  }

  /** The locks of one mutation, in the order it asks for them. */
  function LocksOf(w: Write): seq<Lock> {
    (if w.mutation.kind == "set" then
       [DefinitionRow(w.mutation.attribute)] + if w.mediaKey.Some? then [MediaKey(w.mediaKey.value)] else []
     else [])
    + (if w.found.OldRow? then [ValueRow(EntityOf(w), ScopeOf(w.mutation))] else [])
    + (if w.found.Unchanged? then [] else [SummaryRow(EntityOf(w))])
  }

  /** The locks of a batch, mutation by mutation. */
  function PlanOf(batch: seq<Write>): seq<Lock> {
    if |batch| == 0 then []
    else PlanOf(batch[..|batch| - 1]) + LocksOf(batch[|batch| - 1])
  }

  /** The batch as a transaction applies it. */
  ghost predicate Canonical(batch: seq<Write>) {
    forall i, j :: 0 <= i < j < |batch| ==> StrLeq(EntityOf(batch[i]), EntityOf(batch[j]))
  }

  /** Sorting the indices as the batch write does makes the batch canonical. */
  lemma CanonicalOrderMakesCanonical(batch: seq<Write>, keys: seq<string>, order: seq<int>)
    requires |keys| == |batch| && forall k :: 0 <= k < |batch| ==> keys[k] == EntityOf(batch[k])
    requires forall k :: 0 <= k < |order| ==> 0 <= order[k] < |batch|
    requires forall a, b :: 0 <= a < b < |order| ==> Precedes(keys, order[a], order[b])
    ensures Canonical(seq(|order|, k requires 0 <= k < |order| => batch[order[k]]))
  {
    forall i, j | 0 <= i < j < |order| ensures StrLeq(EntityOf(batch[order[i]]), EntityOf(batch[order[j]])) {
      assert Precedes(keys, order[i], order[j]);
      StrLessTrichotomy(keys[order[i]], keys[order[j]]);
    }
  }

  /** A mutation takes this lock: the definition row of the attribute it sets, the key of the media value it sets,
      the value row it rewrites, the summary row of the entity it changes. */
  ghost predicate TakesLock(w: Write, l: Lock) {
    match l
    case DefinitionRow(attribute) => w.mutation.kind == "set" && w.mutation.attribute == attribute
    case MediaKey(key) => w.mutation.kind == "set" && w.mediaKey == Some(key)
    case ValueRow(entity, scope) =>
      && w.found == OldRow && w.mutation.entity == entity
      && scope == Scope(w.mutation.attribute, w.mutation.locale, w.mutation.channel)
    case SummaryRow(entity) => w.found != Unchanged && w.mutation.entity == entity
  }

  lemma LocksOfExactly(w: Write, l: Lock)
    ensures l in LocksOf(w) <==> TakesLock(w, l)
  {
  }

  /** A batch takes exactly the locks its mutations take. */
  lemma {:induction false} PlanHoldsExactly(batch: seq<Write>, l: Lock)
    ensures l in PlanOf(batch) <==> exists w :: w in batch && TakesLock(w, l)
  {
    if |batch| != 0 {
      var k := |batch| - 1;
      PlanHoldsExactly(batch[..k], l);
      LocksOfExactly(batch[k], l);
      assert batch == batch[..k] + [batch[k]];
    }
  }

  // ------------------------------------------------------------ transactions

  /** The locks a transaction takes, in its order, and how many it has taken. */
  datatype Txn = Txn(plan: seq<Lock>, pos: nat, done: bool)

  type State = map<nat, Txn>

  predicate Holds(t: Txn, lock: Lock) {
    !t.done && t.pos <= |t.plan| && lock in t.plan[..t.pos]
  }

  predicate Waiting(t: Txn) {
    !t.done && t.pos < |t.plan|
  }

  /** `id` wants a lock `other` holds. */
  predicate Blocks(s: State, id: nat, other: nat) {
    id in s && other in s && id != other && Waiting(s[id]) && Holds(s[other], Want(s, id))
  }

  /** The next lock a waiting transaction takes. */
  function Want(s: State, id: nat): Lock
    requires id in s && Waiting(s[id])
  {
    s[id].plan[s[id].pos]
  }

  /** The next lock is free (or already its own), or everything is written and it can commit. */
  ghost predicate CanStep(s: State, id: nat) {
    id in s && !s[id].done && forall other :: !Blocks(s, id, other)
  }

  datatype Step = Begin(id: nat, plan: seq<Lock>) | Advance(id: nat) | Rollback(id: nat)

  function Advanced(t: Txn): Txn {
    if t.pos < |t.plan| then t.(pos := t.pos + 1) else t.(done := true)
  }

  ghost predicate Next(s: State, step: Step, s': State) {
    match step
    case Begin(id, plan) => id !in s && s' == s[id := Txn(plan, 0, false)]
    case Advance(id) => CanStep(s, id) && s' == s[id := Advanced(s[id])]
    case Rollback(id) => id in s && s' == s[id := s[id].(done := true)]
  }

  ghost predicate IsRun(states: seq<State>, steps: seq<Step>) {
    Trace(Next, states, steps) && states[0] == map[]
  }

  /** Locks are exclusive. */
  ghost predicate Exclusive(s: State) {
    && (forall id :: id in s ==> s[id].pos <= |s[id].plan|)
    && (forall a, b, l :: a in s && b in s && Holds(s[a], l) && Holds(s[b], l) ==> a == b)
  }

  /** A lock held after a step was held before it, or is the one the step took. */
  lemma HoldsAfter(s: State, step: Step, s': State, id: nat, l: Lock)
    requires Next(s, step, s') && id in s' && Holds(s'[id], l)
    ensures id in s && (Holds(s[id], l) || (step == Advance(id) && Waiting(s[id]) && l == Want(s, id)))
  {
    if step == Advance(id) && Waiting(s[id]) {
      assert s'[id].plan[..s'[id].pos] == s[id].plan[..s[id].pos] + [Want(s, id)];
    }
  }

  /** The lock a step takes is held by nobody else. */
  lemma TakenWasFree(s: State, id: nat, s': State, other: nat)
    requires Next(s, Advance(id), s') && Waiting(s[id]) && other in s && other != id
    ensures !Holds(s[other], Want(s, id))
  {
    assert !Blocks(s, id, other);
  }

  lemma StepKeepsExclusive(s: State, step: Step, s': State)
    requires Exclusive(s) && Next(s, step, s')
    ensures Exclusive(s')
  {
    forall a, b, l | a in s' && b in s' && Holds(s'[a], l) && Holds(s'[b], l) ensures a == b {
      HoldsAfter(s, step, s', a, l);
      HoldsAfter(s, step, s', b, l);
      if a != b {
        if step == Advance(a) && Waiting(s[a]) { TakenWasFree(s, a, s', b); }
        if step == Advance(b) && Waiting(s[b]) { TakenWasFree(s, b, s', a); }
      }
    }
  }

  lemma {:induction false} RunKeepsExclusive(states: seq<State>, steps: seq<Step>, k: nat)
    requires IsRun(states, steps) && k < |states|
    ensures Exclusive(states[k])
  {
    if k == 0 {
    } else {
      RunKeepsExclusive(states, steps, k - 1);
      assert Next(states[k - 1], steps[k - 1], states[k - 1 + 1]);
      StepKeepsExclusive(states[k - 1], steps[k - 1], states[k]);
    }
  }

  // ------------------------------------------- when two batches can deadlock

  /** The plans cross: each has taken what the other wants next, and they share nothing so far. */
  ghost predicate CrossAt(p: seq<Lock>, q: seq<Lock>, i: nat, j: nat) {
    && i < |p| && j < |q|
    && (forall l :: !(l in p[..i] && l in q[..j]))
    && p[i] in q[..j] && q[j] in p[..i]
  }

  ghost predicate Deadlocked(s: State, a: nat, b: nat) {
    Blocks(s, a, b) && Blocks(s, b, a)
  }

  /** Some run, whoever else takes part, ends with transactions of these plans waiting for each other. */
  ghost predicate CanDeadlock(p: seq<Lock>, q: seq<Lock>) {
    exists states, steps, a, b :: DeadlockRun(states, steps, a, b, p, q)
  }

  ghost predicate DeadlockRun(states: seq<State>, steps: seq<Step>, a: nat, b: nat, p: seq<Lock>, q: seq<Lock>) {
    IsRun(states, steps) && Deadlocked(states[|steps|], a, b) && states[|steps|][a].plan == p && states[|steps|][b].plan == q
  }

  lemma DeadlockCrosses(s: State, a: nat, b: nat)
    requires Exclusive(s) && Deadlocked(s, a, b)
    ensures CrossAt(s[a].plan, s[b].plan, s[a].pos, s[b].pos)
  {
    forall l ensures !(l in s[a].plan[..s[a].pos] && l in s[b].plan[..s[b].pos]) {
      if l in s[a].plan[..s[a].pos] && l in s[b].plan[..s[b].pos] { assert Holds(s[a], l) && Holds(s[b], l); }
    }
  }

  /** A transaction takes its first n locks while nobody holds any of them. */
  lemma {:induction false} Takes(s: State, id: nat, n: nat) returns (states: seq<State>, steps: seq<Step>)
    requires id in s && !s[id].done && s[id].pos == 0 && n <= |s[id].plan|
    requires forall other, i :: other in s && other != id && 0 <= i < n ==> !Holds(s[other], s[id].plan[i])
    ensures Trace(Next, states, steps) && states[0] == s
    ensures states[|steps|] == s[id := s[id].(pos := n)]
  {
    if n == 0 {
      states, steps := [s], [];
      assert s == s[id := s[id].(pos := n)];
    } else {
      var before, taken := Takes(s, id, n - 1);
      var t := before[|taken|];
      var u := s[id := s[id].(pos := n)];
      assert Next(t, Advance(id), u) by {
        forall other ensures !Blocks(t, id, other) {
          assert other in s && other != id ==> !Holds(s[other], s[id].plan[n - 1]);
        }
      }
      assert Trace(Next, [t, u], [Advance(id)]);
      Join(Next, before, taken, [t, u], [Advance(id)]);
      states, steps := before + [t, u][1..], taken + [Advance(id)];
    }
  }

  /** Crossing plans do deadlock: each transaction advances to the crossing. */
  lemma CrossingDeadlocks(p: seq<Lock>, q: seq<Lock>, i: nat, j: nat) returns (states: seq<State>, steps: seq<Step>)
    requires CrossAt(p, q, i, j)
    ensures DeadlockRun(states, steps, 0, 1, p, q)
    ensures states[|steps|] == map[0 := Txn(p, i, false), 1 := Txn(q, j, false)]
  {
    var s1: State := map[0 := Txn(p, 0, false)];
    var s2: State := map[0 := Txn(p, 0, false), 1 := Txn(q, 0, false)];
    var s0: State := map[];
    assert s1 == s0[0 := Txn(p, 0, false)] && s2 == s1[1 := Txn(q, 0, false)];
    var begun, begins := [s0, s1, s2], [Begin(0, p), Begin(1, q)];
    assert Trace(Next, begun, begins);
    var xs, first := Takes(s2, 0, i);
    Join(Next, begun, begins, xs, first);
    var s3 := xs[|first|];
    assert s3 == map[0 := Txn(p, i, false), 1 := Txn(q, 0, false)];
    var ys, second := Takes(s3, 1, j);
    Join(Next, begun + xs[1..], begins + first, ys, second);
    states, steps := begun + xs[1..] + ys[1..], begins + first + second;
    assert ys[|second|] == map[0 := Txn(p, i, false), 1 := Txn(q, j, false)];
  }

  /** Two batches can come to wait for each other exactly when their plans cross. */
  lemma CanDeadlockExactly(p: seq<Lock>, q: seq<Lock>)
    ensures CanDeadlock(p, q) <==> exists i, j :: CrossAt(p, q, i, j)
  {
    if CanDeadlock(p, q) {
      var states, steps, a, b :| DeadlockRun(states, steps, a, b, p, q);
      RunKeepsExclusive(states, steps, |steps|);
      DeadlockCrosses(states[|steps|], a, b);
    }
    if i, j :| CrossAt(p, q, i, j) {
      var states, steps := CrossingDeadlocks(p, q, i, j);
    }
  }

  function SetOf(entity: string, attribute: string): Write {
    Write(Mutation("set", attribute, entity, "", "", "1"), None, NewRow)
  }

  function RemovalOf(entity: string, attribute: string): Write {
    Write(Mutation("remove", attribute, entity, "", "", ""), None, OldRow)
  }

  lemma PlanOfTwo(x: Write, y: Write)
    ensures PlanOf([x, y]) == LocksOf(x) + LocksOf(y)
  {
    assert [x, y][..1] == [x] && [x][..0] == [];
    assert PlanOf([x]) == [] + LocksOf(x);
  }

  lemma PlanOfTwoSets(entity: string, a: string, b: string)
    ensures Canonical([SetOf(entity, a), SetOf(entity, b)])
    ensures PlanOf([SetOf(entity, a), SetOf(entity, b)]) ==
            [DefinitionRow(a), SummaryRow(entity), DefinitionRow(b), SummaryRow(entity)]
  {
    StrLessTrichotomy(entity, entity);
    PlanOfTwo(SetOf(entity, a), SetOf(entity, b));
  }

  lemma OppositePlansCross(a: Lock, b: Lock, x: Lock, y: Lock)
    requires a != b && x != y && {a, b} !! {x, y}
    ensures CrossAt([a, x, b, x], [b, y, a, y], 2, 2)
  {
    assert [a, x, b, x][..2] == [a, x] && [b, y, a, y][..2] == [b, y];
  }

  /** Two batches in canonical order, over different entities, each waiting for the other's definition. */
  lemma CanonicalBatchesCanDeadlock() returns (states: seq<State>, steps: seq<Step>)
    ensures var x, y := [SetOf("e1", "A"), SetOf("e1", "B")], [SetOf("e2", "B"), SetOf("e2", "A")];
      Canonical(x) && Canonical(y) && DeadlockRun(states, steps, 0, 1, PlanOf(x), PlanOf(y))
    ensures forall id: nat :: !CanStep(states[|steps|], id)
  {
    PlanOfTwoSets("e1", "A", "B");
    PlanOfTwoSets("e2", "B", "A");
    OppositePlansCross(DefinitionRow("A"), DefinitionRow("B"), SummaryRow("e1"), SummaryRow("e2"));
    states, steps := CrossingDeadlocks(PlanOf([SetOf("e1", "A"), SetOf("e1", "B")]), PlanOf([SetOf("e2", "B"), SetOf("e2", "A")]), 2, 2);
    NobodyCanStep(states[|steps|]);
  }

  lemma NobodyCanStep(s: State)
    requires s.Keys == {0, 1} && Deadlocked(s, 0, 1)
    ensures forall id: nat :: !CanStep(s, id)
  {
    assert !CanStep(s, 0) && !CanStep(s, 1);
  }

  /** Removals alone can deadlock too, on one entity: the value rows are in no order. */
  lemma RemovalsCanDeadlock()
    ensures CanDeadlock(PlanOf([RemovalOf("e1", "A"), RemovalOf("e1", "B")]), PlanOf([RemovalOf("e1", "B"), RemovalOf("e1", "A")]))
  {
    var a, b := RemovalOf("e1", "A"), RemovalOf("e1", "B");
    PlanOfTwo(a, b);
    PlanOfTwo(b, a);
    var p, q := PlanOf([a, b]), PlanOf([b, a]);
    var rowA, rowB := ValueRow("e1", Scope("A", "", "")), ValueRow("e1", Scope("B", "", ""));
    assert p == [rowA, SummaryRow("e1"), rowB, SummaryRow("e1")];
    assert q == [rowB, SummaryRow("e1"), rowA, SummaryRow("e1")];
    assert p[..1] == [rowA] && q[..2] == [rowB, SummaryRow("e1")];
    assert CrossAt(p, q, 1, 2);
    CanDeadlockExactly(p, q);
  }

  // ------------------------------------------------- batches that never do

  function Rank(l: Lock): nat {
    if l.DefinitionRow? then 0 else if l.MediaKey? then 1 else 2
  }

  /** Definitions below media keys below rows; rows by entity, a value row below its summary row. */
  predicate Below(x: Lock, y: Lock) {
    || Rank(x) < Rank(y)
    || (Rank(x) == 2 == Rank(y) && (StrLess(x.entity, y.entity) || (x.entity == y.entity && x.ValueRow? && y.SummaryRow?)))
  }

  lemma StrLessTransitive(a: string, b: string, c: string)
    requires StrLess(a, b) && StrLess(b, c)
    ensures StrLess(a, c)
  {
    StrLessTrichotomy(a, b);
    StrLessTrichotomy(b, c);
    StrLessTrichotomy(a, c);
    StrLeqTransitive(a, b, c);
  }

  lemma BelowIsStrictOrder(x: Lock, y: Lock, z: Lock)
    ensures !Below(x, x)
    ensures Below(x, y) && Below(y, z) ==> Below(x, z)
  {
    if Rank(x) == 2 { StrLessTrichotomy(x.entity, x.entity); }
    if Rank(x) == Rank(y) == Rank(z) == 2 && StrLess(x.entity, y.entity) && StrLess(y.entity, z.entity) {
      StrLessTransitive(x.entity, y.entity, z.entity);
    }
  }

  /** Every lock taken for the first time lies above everything taken before it. */
  ghost predicate InOrder(plan: seq<Lock>) {
    forall i, j :: 0 <= i < j < |plan| ==> plan[j] in plan[..j] || Below(plan[i], plan[j])
  }

  /** All removals, or all sets of one attribute (and one media key, if any); no entity twice. */
  ghost predicate Tidy(batch: seq<Write>) {
    && (forall i, j :: 0 <= i < j < |batch| ==> EntityOf(batch[i]) != EntityOf(batch[j]))
    && ((forall i :: 0 <= i < |batch| ==> batch[i].mutation.kind == "remove") ||
        (forall i :: 0 <= i < |batch| ==> batch[i].mutation.kind == "set" && SameHead(batch[i], batch[0])))
  }

  predicate SameHead(x: Write, y: Write) {
    x.mutation.attribute == y.mutation.attribute && x.mediaKey == y.mediaKey
  }

  lemma InOrderOneMore(plan: seq<Lock>, l: Lock)
    requires InOrder(plan) && (l in plan || forall x :: x in plan ==> Below(x, l))
    ensures InOrder(plan + [l])
  {
    var p := plan + [l];
    forall i, j | 0 <= i < j < |p| ensures p[j] in p[..j] || Below(p[i], p[j]) {
      if j < |plan| {
        assert p[..j] == plan[..j] && p[i] == plan[i];
      } else {
        assert p[..j] == plan && p[i] in plan;
      }
    }
  }

  lemma {:induction false} InOrderMore(plan: seq<Lock>, ls: seq<Lock>)
    requires InOrder(plan)
    requires forall i :: 0 <= i < |ls| ==> ls[i] in plan || forall x :: x in plan || x in ls[..i] ==> Below(x, ls[i])
    ensures InOrder(plan + ls)
  {
    if |ls| == 0 {
      assert plan + ls == plan;
    } else {
      var k := |ls| - 1;
      forall i | 0 <= i < k ensures ls[..k][i] in plan || forall x :: x in plan || x in ls[..k][..i] ==> Below(x, ls[..k][i]) {
        assert ls[..k][..i] == ls[..i];
      }
      InOrderMore(plan, ls[..k]);
      InOrderOneMore(plan + ls[..k], ls[k]);
      assert plan + ls == plan + ls[..k] + [ls[k]];
    }
  }

  /** Every lock of a plan is one of a member's: a head lock, or a row of its entity. */
  lemma {:induction false} PlanSource(batch: seq<Write>, l: Lock) returns (i: nat)
    requires l in PlanOf(batch)
    ensures i < |batch| && l in LocksOf(batch[i])
  {
    var k := |batch| - 1;
    if l in LocksOf(batch[k]) {
      i := k;
    } else {
      i := PlanSource(batch[..k], l);
    }
  }

  lemma {:induction false} PlanHas(batch: seq<Write>, i: nat, l: Lock)
    requires i < |batch| && l in LocksOf(batch[i])
    ensures l in PlanOf(batch)
  {
    if i < |batch| - 1 { PlanHas(batch[..|batch| - 1], i, l); }
  }

  /** A head lock is the attribute's definition or the media key; the others are rows of the entity. */
  predicate HeadOf(w: Write, l: Lock) {
    w.mutation.kind == "set" && (l == DefinitionRow(w.mutation.attribute) || (w.mediaKey.Some? && l == MediaKey(w.mediaKey.value)))
  }

  lemma LockKinds(w: Write, l: Lock)
    requires l in LocksOf(w)
    ensures Rank(l) < 2 ==> HeadOf(w, l)
    ensures Rank(l) == 2 ==> l.entity == EntityOf(w)
  {
  }

  /** Rows of a later entity lie above the whole plan before it. */
  lemma RowsGoOnTop(batch: seq<Write>, x: Lock, l: Lock)
    requires |batch| > 0 && Canonical(batch) && Tidy(batch)
    requires x in PlanOf(batch[..|batch| - 1]) && l in LocksOf(batch[|batch| - 1]) && Rank(l) == 2
    ensures Below(x, l)
  {
    var k := |batch| - 1;
    var i := PlanSource(batch[..k], x);
    LockKinds(batch[i], x);
    LockKinds(batch[k], l);
    StrLessTrichotomy(EntityOf(batch[i]), EntityOf(batch[k]));
  }

  /** The head locks of a later mutation are held already. */
  lemma HeadsAreHeld(batch: seq<Write>, l: Lock)
    requires |batch| > 1 && Tidy(batch) && l in LocksOf(batch[|batch| - 1]) && Rank(l) < 2
    ensures l in PlanOf(batch[..|batch| - 1])
  {
    var k := |batch| - 1;
    LockKinds(batch[k], l);
    assert batch[k].mutation.kind != "remove" && SameHead(batch[k], batch[0]);
    assert batch[0].mutation.kind == "set";
    assert l in LocksOf(batch[0]);
    PlanHas(batch[..k], 0, l);
  }

  /** One mutation's locks, each above the ones before it. */
  lemma LocksAscend(w: Write, i: nat, x: Lock)
    requires i < |LocksOf(w)| && x in LocksOf(w)[..i]
    ensures Below(x, LocksOf(w)[i])
  {
  }

  /** A tidy batch in canonical order takes its locks in the common order. */
  lemma {:induction false} TidyBatchIsInOrder(batch: seq<Write>)
    requires Canonical(batch) && Tidy(batch)
    ensures InOrder(PlanOf(batch))
  {
    if |batch| == 0 {
    } else {
      var k := |batch| - 1;
      TidyBatchIsInOrder(batch[..k]);
      var plan, ls := PlanOf(batch[..k]), LocksOf(batch[k]);
      forall i | 0 <= i < |ls| ensures ls[i] in plan || forall x :: x in plan || x in ls[..i] ==> Below(x, ls[i]) {
        if Rank(ls[i]) < 2 && k > 0 {
          HeadsAreHeld(batch, ls[i]);
        } else {
          forall x | x in plan || x in ls[..i] ensures Below(x, ls[i]) {
            if x in plan { RowsGoOnTop(batch, x, ls[i]); } else { LocksAscend(batch[k], i, x); }
          }
        }
      }
      InOrderMore(plan, ls);
    }
  }

  /** Every transaction of the run keeps to the common order. */
  ghost predicate OrderedRun(states: seq<State>, steps: seq<Step>) {
    IsRun(states, steps) && forall i :: 0 <= i < |steps| && steps[i].Begin? ==> InOrder(steps[i].plan)
  }

  ghost predicate Inv(s: State) {
    Exclusive(s) && forall id :: id in s ==> InOrder(s[id].plan)
  }

  lemma {:induction false} RunKeepsInv(states: seq<State>, steps: seq<Step>, k: nat)
    requires OrderedRun(states, steps) && k < |states|
    ensures Inv(states[k])
  {
    if k == 0 {
    } else {
      RunKeepsInv(states, steps, k - 1);
      assert Next(states[k - 1], steps[k - 1], states[k - 1 + 1]);
      StepKeepsExclusive(states[k - 1], steps[k - 1], states[k]);
    }
  }

  /** What a blocked transaction wants lies strictly below what its blocker, if blocked too, wants. */
  lemma WantsIncrease(s: State, id: nat, other: nat, third: nat)
    requires Inv(s) && Blocks(s, id, other) && Blocks(s, other, third)
    ensures Below(Want(s, id), Want(s, other))
  {
    var t := s[other];
    assert Holds(t, Want(s, id)) && Holds(s[third], Want(s, other));
    if Want(s, other) in t.plan[..t.pos] { assert Holds(t, Want(s, other)); }
    var i :| 0 <= i < t.pos && t.plan[..t.pos][i] == Want(s, id);
  }

  /** A chain of transactions, each waiting for the next. */
  ghost predicate WaitChain(s: State, p: seq<nat>) {
    |p| >= 2 && forall i :: 0 <= i < |p| - 1 ==> Blocks(s, p[i], p[i + 1])
  }

  lemma {:induction false} WantsIncreaseAlong(s: State, p: seq<nat>, i: nat, j: nat)
    requires Inv(s) && WaitChain(s, p) && i < j < |p| - 1
    ensures Blocks(s, p[i], p[i + 1]) && Blocks(s, p[j], p[j + 1])
    ensures Below(Want(s, p[i]), Want(s, p[j]))
  {
    assert Blocks(s, p[i], p[i + 1]) && Blocks(s, p[j], p[j + 1]);
    assert Blocks(s, p[j - 1], p[j - 1 + 1]);
    WantsIncrease(s, p[j - 1], p[j], p[j + 1]);
    if i < j - 1 {
      WantsIncreaseAlong(s, p, i, j - 1);
      BelowIsStrictOrder(Want(s, p[i]), Want(s, p[j - 1]), Want(s, p[j]));
    }
  }

  /** While every plan is in order, no waiting cycle forms. */
  lemma NoWaitingCycle(states: seq<State>, steps: seq<Step>, k: nat, p: seq<nat>)
    requires OrderedRun(states, steps) && k < |states| && WaitChain(states[k], p)
    ensures p[0] != p[|p| - 1]
  {
    var s := states[k];
    RunKeepsInv(states, steps, k);
    if p[0] == p[|p| - 1] {
      var q := p + [p[1]];
      assert Blocks(s, p[0], p[0 + 1]);
      assert forall i :: 0 <= i < |q| - 1 ==> Blocks(s, q[i], q[i + 1]) by {
        forall i | 0 <= i < |q| - 1 ensures Blocks(s, q[i], q[i + 1]) {
          if i < |p| - 1 { assert Blocks(s, p[i], p[i + 1]); }
        }
      }
      WantsIncreaseAlong(s, q, 0, |p| - 1);
      BelowIsStrictOrder(Want(s, p[0]), Want(s, p[0]), Want(s, p[0]));
    }
  }

  /** A waiting transaction whose want no other's lies above. */
  lemma {:induction false} MaximalWant(s: State, ids: set<nat>) returns (id: nat)
    requires ids != {} && forall i :: i in ids ==> i in s && Waiting(s[i])
    ensures id in ids && forall i :: i in ids ==> !Below(Want(s, id), Want(s, i))
    decreases ids
  {
    id :| id in ids;
    var above := set i | i in ids && Below(Want(s, id), Want(s, i));
    if above != {} {
      BelowIsStrictOrder(Want(s, id), Want(s, id), Want(s, id));
      var top := MaximalWant(s, above);
      forall i | i in ids ensures !Below(Want(s, top), Want(s, i)) {
        BelowIsStrictOrder(Want(s, id), Want(s, top), Want(s, i));
      }
      id := top;
    } else {
      forall i | i in ids ensures !Below(Want(s, id), Want(s, i)) { assert i !in above; }
    }
  }

  /** While every plan is in order and a transaction is unfinished, some unfinished transaction can step. */
  lemma SomeoneCanStep(states: seq<State>, steps: seq<Step>, k: nat, unfinished: nat) returns (id: nat)
    requires OrderedRun(states, steps) && k < |states| && unfinished in states[k] && !states[k][unfinished].done
    ensures CanStep(states[k], id)
  {
    var s := states[k];
    RunKeepsInv(states, steps, k);
    var waiting := set i | i in s && Waiting(s[i]);
    if waiting == {} {
      assert unfinished !in waiting;
      id := unfinished;
    } else {
      id := MaximalWant(s, waiting);
      if other :| Blocks(s, id, other) {
        if third :| Blocks(s, other, third) {
          assert other in waiting;
          WantsIncrease(s, id, other, third);
        } else {
          id := other;
        }
      }
    }
  }

  /** Tidy batches in canonical order, however many run at once, always leave someone who can step. */
  lemma TidyBatchesNeverDeadlock(states: seq<State>, steps: seq<Step>, k: nat, unfinished: nat) returns (id: nat)
    requires IsRun(states, steps) && k < |states| && unfinished in states[k] && !states[k][unfinished].done
    requires forall i :: 0 <= i < |steps| && steps[i].Begin? ==> IsTidyPlan(steps[i].plan)
    ensures CanStep(states[k], id)
  {
    forall i | 0 <= i < |steps| && steps[i].Begin? ensures InOrder(steps[i].plan) {
      assert IsTidyPlan(steps[i].plan);
      var batch :| Canonical(batch) && Tidy(batch) && PlanOf(batch) == steps[i].plan;
      TidyBatchIsInOrder(batch);
    }
    id := SomeoneCanStep(states, steps, k, unfinished);
  }

  ghost predicate IsTidyPlan(plan: seq<Lock>) {
    exists batch :: Canonical(batch) && Tidy(batch) && PlanOf(batch) == plan
  }
}
