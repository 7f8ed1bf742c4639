/**
  Media objects and the value rows that reference them, under uploads, adoptions,
  removals, purges and blob collections that interleave freely.

  An adoption reuses an object key another row already references.  It holds the key's lock
  from its liveness check to its commit; a collection recounts and deletes under the same lock.
  A collection scheduled by a removal or an overwrite leaves the row that caused it out of the
  count; one scheduled by an erasure leaves nothing out.
 */
module MediaRuns {
  import Traces
  import opened Options

  datatype Row = Row(key: string, live: bool)

  datatype Actor =
    | Uploading(key: string)                                  // bytes stored, row not committed
    | Adopting(key: string, target: Option<nat>)              // found an owner, lock not yet taken
    | AdoptLocked(key: string, target: Option<nat>)
    | AdoptSafe(key: string, target: Option<nat>)             // referenced by a live row, or probed
    | Collecting(key: string, exclude: Option<nat>)
    | CollectLocked(key: string, exclude: Option<nat>)
    | CollectDoomed(key: string, exclude: Option<nat>)        // counted zero, about to delete

  predicate HoldsLock(a: Actor) {
    a.AdoptLocked? || a.AdoptSafe? || a.CollectLocked? || a.CollectDoomed?
  }

  datatype State = State(
    blobs: set<string>,
    used: set<string>,               // every key ever minted
    rows: map<nat, Row>,             // committed rows, archived ones included
    minted: set<nat>,                // every row id ever used
    locks: map<string, nat>,
    actors: map<nat, Actor>)

  datatype Step =
    | Put(a: nat, key: string)
    | CommitUpload(a: nat, row: nat)
    | AbortUpload(a: nat)
    | FindOwner(a: nat, key: string, target: Option<nat>)
    | Lock(a: nat)
    | Probe(a: nat)
    | CommitAdoption(a: nat, row: nat)
    | Archive(a: nat, row: nat)
    | Purge(a: nat, row: nat)
    | Count(a: nat)
    | Delete(a: nat)
    | Drop(a: nat)                   // retained by the batched count, failed, or crashed

  predicate LiveElsewhere(rows: map<nat, Row>, key: string, exclude: Option<nat>) {
    exists r :: r in rows && rows[r].live && rows[r].key == key && exclude != Some(r)
  }

  predicate Owned(rows: map<nat, Row>, key: string) {
    exists r :: r in rows && rows[r].key == key
  }

  /** A commit writes a new row, or overwrites the key of a live one. */
  predicate Writable(s: State, row: nat) {
    if row in s.rows then s.rows[row].live else row !in s.minted
  }

  predicate Enabled(s: State, step: Step) {
    match step
    case Put(a, key) => a !in s.actors && key !in s.used
    case CommitUpload(a, row) => a in s.actors && s.actors[a].Uploading? && Writable(s, row)
    case AbortUpload(a) => a in s.actors && s.actors[a].Uploading?
    case FindOwner(a, key, target) => a !in s.actors && Owned(s.rows, key)
    case Lock(a) => a in s.actors && (s.actors[a].Adopting? || s.actors[a].Collecting?) && s.actors[a].key !in s.locks
    case Probe(a) => a in s.actors && s.actors[a].AdoptLocked?
    case CommitAdoption(a, row) =>
      a in s.actors && s.actors[a].AdoptSafe? && Writable(s, row) && (s.actors[a].target == if row in s.rows then Some(row) else None)
    case Archive(a, row) => a !in s.actors && row in s.rows && s.rows[row].live
    case Purge(a, row) => a !in s.actors && row in s.rows
    case Count(a) => a in s.actors && s.actors[a].CollectLocked?
    case Delete(a) => a in s.actors && s.actors[a].CollectDoomed?
    case Drop(a) => a in s.actors && !s.actors[a].Uploading?
  }

  function Unlocked(s: State, a: nat): map<string, nat>
    requires a in s.actors
  {
    if HoldsLock(s.actors[a]) then s.locks - {s.actors[a].key} else s.locks
  }

  function Gone(s: State, a: nat): State
    requires a in s.actors
  {
    s.(actors := s.actors - {a}, locks := Unlocked(s, a))
  }

  /** After its commit an overwriting write collects the key it replaced; others are finished. */
  function Committed(s: State, a: nat, row: nat, key: string): State
    requires a in s.actors
  {
    var written := s.(rows := s.rows[row := Row(key, true)], minted := s.minted + {row}, locks := Unlocked(s, a));
    if row in s.rows && s.rows[row].key != key then
      written.(actors := s.actors[a := Collecting(s.rows[row].key, Some(row))])
    else
      written.(actors := s.actors - {a})
  }

  function Do(s: State, step: Step): State
    requires Enabled(s, step)
  {
    match step
    case Put(a, key) => s.(blobs := s.blobs + {key}, used := s.used + {key}, actors := s.actors[a := Uploading(key)])
    case CommitUpload(a, row) => Committed(s, a, row, s.actors[a].key)
    case AbortUpload(a) => Gone(s, a).(blobs := s.blobs - {s.actors[a].key})
    case FindOwner(a, key, target) => s.(actors := s.actors[a := Adopting(key, target)])
    case Lock(a) =>
      var w := s.actors[a];
      s.(locks := s.locks[w.key := a],
         actors := s.actors[a := if w.Adopting? then AdoptLocked(w.key, w.target) else CollectLocked(w.key, w.exclude)])
    case Probe(a) =>
      var w := s.actors[a];
      if LiveElsewhere(s.rows, w.key, None) || w.key in s.blobs then s.(actors := s.actors[a := AdoptSafe(w.key, w.target)])
      else Gone(s, a)
    case CommitAdoption(a, row) => Committed(s, a, row, s.actors[a].key)
    case Archive(a, row) =>
      s.(rows := s.rows[row := s.rows[row].(live := false)], actors := s.actors[a := Collecting(s.rows[row].key, Some(row))])
    case Purge(a, row) =>
      s.(rows := s.rows - {row}, actors := s.actors[a := Collecting(s.rows[row].key, None)])
    case Count(a) =>
      var w := s.actors[a];
      if LiveElsewhere(s.rows, w.key, w.exclude) then Gone(s, a)
      else s.(actors := s.actors[a := CollectDoomed(w.key, w.exclude)])
    case Delete(a) => Gone(s, a).(blobs := s.blobs - {s.actors[a].key})
    case Drop(a) => Gone(s, a)
  }

  ghost predicate Next(s: State, step: Step, s': State) {
    Enabled(s, step) && s' == Do(s, step)
  }

  ghost predicate Init(s: State) {
    s.blobs == {} && s.used == {} && s.rows == map[] && s.minted == {} && s.locks == map[] && s.actors == map[]
  }

  ghost predicate IsRun(states: seq<State>, steps: seq<Step>) {
    && |states| == |steps| + 1 && Init(states[0])
    && forall i :: 0 <= i < |steps| ==> Next(states[i], steps[i], states[i + 1])
  }

  // --------------------------------------------------------------- invariant

  /** Every committed live row's bytes exist. */
  ghost predicate NoDangling(s: State) {
    forall r :: r in s.rows && s.rows[r].live ==> s.rows[r].key in s.blobs
  }

  ghost predicate ActorOk(s: State, a: nat)
    requires a in s.actors
  {
    var w := s.actors[a];
    && w.key in s.used
    && (HoldsLock(w) ==> w.key in s.locks && s.locks[w.key] == a)
    && (w.Uploading? ==> w.key in s.blobs && !Owned(s.rows, w.key) && forall b :: b in s.actors && b != a ==> s.actors[b].key != w.key)
    && (w.AdoptSafe? ==> w.key in s.blobs)
    && (w.CollectDoomed? ==> !LiveElsewhere(s.rows, w.key, None))
  }

  ghost predicate Inv(s: State) {
    && NoDangling(s)
    && s.rows.Keys <= s.minted
    && (forall r :: r in s.rows ==> s.rows[r].key in s.used)
    && (forall k :: k in s.locks ==> s.locks[k] in s.actors && HoldsLock(s.actors[s.locks[k]]) && s.actors[s.locks[k]].key == k)
    && (forall a :: a in s.actors ==> ActorOk(s, a))
  }

  /** The recount leaves out no row that still references the key. */
  predicate Honest(s: State, step: Step) {
    step.Count? && step.a in s.actors && s.actors[step.a].CollectLocked? && s.actors[step.a].exclude.Some? ==>
      var w := s.actors[step.a]; !(w.exclude.value in s.rows && s.rows[w.exclude.value] == Row(w.key, true))
  }

  lemma CommitKeepsInv(s: State, a: nat, row: nat)
    requires Inv(s) && a in s.actors && Writable(s, row) && (s.actors[a].Uploading? || s.actors[a].AdoptSafe?)
    ensures Inv(Committed(s, a, row, s.actors[a].key))
  {
    var key, s' := s.actors[a].key, Committed(s, a, row, s.actors[a].key);
    assert ActorOk(s, a);
    forall b | b in s'.actors ensures ActorOk(s', b) {
      if b != a {
        assert ActorOk(s, b);
        if s.actors[b].CollectDoomed? {
          assert s.actors[b].key != key;
          assert LiveElsewhere(s'.rows, s.actors[b].key, None) ==> LiveElsewhere(s.rows, s.actors[b].key, None);
        }
        if s.actors[b].Uploading? {
          assert row in s.rows ==> s.rows[row].key != s.actors[b].key;
        }
      }
    }
  }

  /** Steps that leave rows and blobs alone. */
  predicate Quiet(step: Step) {
    step.FindOwner? || step.Lock? || step.Probe? || step.Count? || step.Drop?
  }

  lemma QuietBystanderIsOk(s: State, step: Step, s': State, b: nat)
    requires Inv(s) && Next(s, step, s') && Quiet(step) && b in s'.actors && b != step.a
    ensures ActorOk(s', b)
  {
    assert ActorOk(s, b);
    if step.a in s.actors { assert ActorOk(s, step.a); }
  }

  lemma QuietMoverIsOk(s: State, step: Step, s': State)
    requires Inv(s) && Next(s, step, s') && Honest(s, step) && Quiet(step) && step.a in s'.actors
    ensures ActorOk(s', step.a)
  {
    if step.a in s.actors { assert ActorOk(s, step.a); }
  }

  lemma QuietStepKeepsInv(s: State, step: Step, s': State)
    requires Inv(s) && Next(s, step, s') && Honest(s, step) && Quiet(step)
    ensures Inv(s')
  {
    forall b | b in s'.actors ensures ActorOk(s', b) {
      if b == step.a { QuietMoverIsOk(s, step, s'); } else { QuietBystanderIsOk(s, step, s', b); }
    }
    QuietLocksAreHeld(s, step, s');
  }

  lemma QuietLocksAreHeld(s: State, step: Step, s': State)
    requires Inv(s) && Next(s, step, s') && Quiet(step)
    ensures forall k :: k in s'.locks ==> s'.locks[k] in s'.actors && HoldsLock(s'.actors[s'.locks[k]]) && s'.actors[s'.locks[k]].key == k
  {
    if step.a in s.actors { assert ActorOk(s, step.a); }
  }

  /** Steps that take live rows away. */
  lemma ShrinkingStepKeepsInv(s: State, step: Step, s': State)
    requires Inv(s) && Next(s, step, s') && (step.Archive? || step.Purge?)
    ensures Inv(s')
  {
    forall b | b in s'.actors ensures ActorOk(s', b) {
      if b in s.actors {
        assert ActorOk(s, b);
        assert LiveElsewhere(s'.rows, s.actors[b].key, None) ==> LiveElsewhere(s.rows, s.actors[b].key, None);
      }
      forall c | c in s.actors && s.actors[c].Uploading? ensures s.actors[c].key != s.rows[step.row].key { assert ActorOk(s, c); }
    }
  }

  /** Steps that delete bytes. */
  lemma DeletingStepKeepsInv(s: State, step: Step, s': State)
    requires Inv(s) && Next(s, step, s') && (step.AbortUpload? || step.Delete?)
    ensures Inv(s')
  {
    assert ActorOk(s, step.a);
    forall b | b in s'.actors ensures ActorOk(s', b) {
      assert ActorOk(s, b);
    }
    forall r | r in s'.rows && s'.rows[r].live ensures s'.rows[r].key in s'.blobs {
      assert s.rows[r].key in s.blobs;
    }
  }

  lemma StepKeepsInv(s: State, step: Step, s': State)
    requires Inv(s) && Next(s, step, s') && Honest(s, step)
    ensures Inv(s')
  {
    match step {
      case CommitUpload(a, row) => CommitKeepsInv(s, a, row);
      case CommitAdoption(a, row) => CommitKeepsInv(s, a, row);
      case Put(a, key) =>
        forall b | b in s.actors ensures ActorOk(s', b) { assert ActorOk(s, b); }
      case Archive(_, _) => ShrinkingStepKeepsInv(s, step, s');
      case Purge(_, _) => ShrinkingStepKeepsInv(s, step, s');
      case AbortUpload(_) => DeletingStepKeepsInv(s, step, s');
      case Delete(_) => DeletingStepKeepsInv(s, step, s');
      case _ => QuietStepKeepsInv(s, step, s');
    }
  }

  lemma {:induction false} RunKeepsInv(states: seq<State>, steps: seq<Step>, i: nat)
    requires IsRun(states, steps) && i < |states|
    requires forall k :: 0 <= k < i ==> Honest(states[k], steps[k])
    ensures Inv(states[i])
  {
    if i == 0 {
    } else {
      RunKeepsInv(states, steps, i - 1);
      StepKeepsInv(states[i - 1], steps[i - 1], states[i - 1 + 1]);
    }
  }

  /** In every interleaving whose collections are the erasure's - which leave no row out of the
      recount - every committed live row's bytes exist, at every moment. */
  lemma ErasureNeverDangles(states: seq<State>, steps: seq<Step>, i: nat)
    requires IsRun(states, steps) && i < |states|
    requires forall k :: 0 <= k < i && steps[k].Count? && steps[k].a in states[k].actors && states[k].actors[steps[k].a].CollectLocked? ==>
      states[k].actors[steps[k].a].exclude == None
    ensures NoDangling(states[i])
  {
    RunKeepsInv(states, steps, i);
  }

  // -------------------------------------------- collections that leave a row out

  /** A recount that finds nothing, and its delete, keep every live row's bytes if and only if the
      row it left out does not reference the key. */
  lemma CollectionIsSafeIffHonest(s: State, a: nat)
    requires Inv(s) && a in s.actors && s.actors[a].CollectLocked?
    requires !LiveElsewhere(s.rows, s.actors[a].key, s.actors[a].exclude)
    ensures NoDangling(Do(Do(s, Count(a)), Delete(a))) <==> Honest(s, Count(a))
  {
    var w, s' := s.actors[a], Do(Do(s, Count(a)), Delete(a));
    assert s'.blobs == s.blobs - {w.key} && s'.rows == s.rows;
    if !Honest(s, Count(a)) {
      var r := w.exclude.value;
      assert r in s'.rows && s'.rows[r].live && s'.rows[r].key !in s'.blobs;
    } else {
      forall r | r in s'.rows && s'.rows[r].live ensures s'.rows[r].key in s'.blobs {
        assert s.rows[r].key in s.blobs;
      }
    }
  }

  /** No write of a run replaced the key of a live row. */
  ghost predicate NoOverwrites(states: seq<State>, steps: seq<Step>, n: nat)
    requires |states| == |steps| + 1 && n <= |steps|
  {
    forall k :: 0 <= k < n ==>
      (steps[k].CommitUpload? || steps[k].CommitAdoption? ==> steps[k].row !in states[k].rows)
  }

  /** Then a row left out of a count is archived or gone, and stays so. */
  ghost predicate ExcludedIsDead(s: State) {
    && s.rows.Keys <= s.minted
    && forall a :: a in s.actors && (s.actors[a].Collecting? || s.actors[a].CollectLocked? || s.actors[a].CollectDoomed?) && s.actors[a].exclude.Some? ==>
      var r := s.actors[a].exclude.value; r in s.minted && (r in s.rows ==> !s.rows[r].live)
  }

  lemma {:induction false} WithoutOverwritesCountsAreHonest(states: seq<State>, steps: seq<Step>, i: nat)
    requires IsRun(states, steps) && i < |states| && NoOverwrites(states, steps, i)
    ensures ExcludedIsDead(states[i])
    ensures forall k :: 0 <= k < i ==> Honest(states[k], steps[k])
  {
    if i == 0 {
    } else {
      WithoutOverwritesCountsAreHonest(states, steps, i - 1);
      assert Next(states[i - 1], steps[i - 1], states[i - 1 + 1]);
      assert ExcludedIsDead(states[i]);
    }
  }

  /** Uploads and adoptions into new rows, removals, purges and every kind of collection: no
      interleaving of them leaves a live row without its bytes. */
  lemma NewRowsNeverDangle(states: seq<State>, steps: seq<Step>, i: nat)
    requires IsRun(states, steps) && i < |states| && NoOverwrites(states, steps, i)
    ensures NoDangling(states[i])
  {
    WithoutOverwritesCountsAreHonest(states, steps, i);
    RunKeepsInv(states, steps, i);
  }

  // ------------------------------------------------- an overwrite can dangle

  ghost predicate IsTrace(states: seq<State>, steps: seq<Step>) {
    |states| == |steps| + 1 && forall i :: 0 <= i < |steps| ==> Next(states[i], steps[i], states[i + 1])
  }

  lemma Joined(xs: seq<State>, p: seq<Step>, ys: seq<State>, q: seq<Step>)
    requires IsTrace(xs, p) && IsTrace(ys, q) && ys[0] == xs[|xs| - 1]
    ensures IsTrace(xs + ys[1..], p + q) && (xs + ys[1..])[0] == xs[0] && (xs + ys[1..])[|p + q|] == ys[|ys| - 1]
  {
    Traces.Join(Next, xs, p, ys, q);
  }

  /** Store bytes and commit them to a row. */
  lemma Upload(s: State, key: string, row: nat) returns (states: seq<State>, steps: seq<Step>)
    requires s.actors == map[] && s.locks == map[] && key !in s.used && Writable(s, row)
    ensures IsTrace(states, steps) && states[0] == s
    ensures states[|states| - 1] == State(s.blobs + {key}, s.used + {key}, s.rows[row := Row(key, true)], s.minted + {row}, map[],
      if row in s.rows && s.rows[row].key != key then map[0 := Collecting(s.rows[row].key, Some(row))] else map[])
  {
    var s1 := Do(s, Put(0, key));
    var s2 := Do(s1, CommitUpload(0, row));
    assert s1.actors - {0} == map[];
    states, steps := [s, s1, s2], [Put(0, key), CommitUpload(0, row)];
  }

  /** Adopt a key some row references, as actor `a`, while at most actor 0 is about. */
  lemma Adopt(s: State, a: nat, key: string, row: nat) returns (states: seq<State>, steps: seq<Step>)
    requires a !in s.actors && s.locks == map[] && Owned(s.rows, key) && key in s.blobs && Writable(s, row)
    ensures IsTrace(states, steps) && states[0] == s
    ensures states[|states| - 1] == s.(rows := s.rows[row := Row(key, true)], minted := s.minted + {row},
      actors := if row in s.rows && s.rows[row].key != key then s.actors[a := Collecting(s.rows[row].key, Some(row))] else s.actors)
  {
    var target := if row in s.rows then Some(row) else None;
    steps := [FindOwner(a, key, target), Lock(a), Probe(a), CommitAdoption(a, row)];
    var s1 := Do(s, steps[0]);
    var s2 := Do(s1, steps[1]);
    var s3 := Do(s2, steps[2]);
    var s4 := Do(s3, steps[3]);
    assert s3.actors - {a} == s.actors && s3.locks - {key} == map[];
    assert s3.actors[a := Collecting("", Some(row))] == s.actors[a := Collecting("", Some(row))];
    states := [s, s1, s2, s3, s4];
  }

  lemma ArchiveAndRetain(s: State, row: nat) returns (states: seq<State>, steps: seq<Step>)
    requires s.actors == map[] && s.locks == map[] && row in s.rows && s.rows[row].live
    ensures IsTrace(states, steps) && states[0] == s
    ensures states[|states| - 1] == s.(rows := s.rows[row := s.rows[row].(live := false)])
  {
    var s1 := Do(s, Archive(0, row));
    var s2 := Do(s1, Drop(0));
    assert s1.actors - {0} == map[];
    states, steps := [s, s1, s2], [Archive(0, row), Drop(0)];
  }

  lemma CollectZero(s: State) returns (states: seq<State>, steps: seq<Step>)
    requires 0 in s.actors && s.actors[0].Collecting? && s.locks == map[]
    requires !LiveElsewhere(s.rows, s.actors[0].key, s.actors[0].exclude)
    ensures IsTrace(states, steps) && states[0] == s
    ensures states[|states| - 1].rows == s.rows && states[|states| - 1].blobs == s.blobs - {s.actors[0].key}
  {
    var s1 := Do(s, Lock(0));
    var s2 := Do(s1, Count(0));
    var s3 := Do(s2, Delete(0));
    states, steps := [s, s1, s2, s3], [Lock(0), Count(0), Delete(0)];
  }

  /** With overwrites the promise fails. A row's key is replaced, and before the collection this
      scheduled takes the lock, the same row adopts its old key back; the recount leaves that row
      out, and the bytes of a live row are deleted. */
  lemma OverwriteCanDangle() returns (states: seq<State>, steps: seq<Step>)
    ensures IsRun(states, steps) && !NoDangling(states[|states| - 1])
  {
    var s := State({}, {}, map[], {}, map[], map[]);
    states, steps := Upload(s, "k1", 1);
    var xs, p := Adopt(states[|states| - 1], 0, "k1", 2);
    Joined(states, steps, xs, p);
    states, steps := states + xs[1..], steps + p;
    xs, p := ArchiveAndRetain(states[|states| - 1], 2);
    Joined(states, steps, xs, p);
    states, steps := states + xs[1..], steps + p;
    assert states[|states| - 1].rows == map[1 := Row("k1", true), 2 := Row("k1", false)];
    xs, p := Upload(states[|states| - 1], "k2", 1);
    Joined(states, steps, xs, p);
    states, steps := states + xs[1..], steps + p;
    assert states[|states| - 1].rows == map[1 := Row("k2", true), 2 := Row("k1", false)];
    assert states[|states| - 1].actors == map[0 := Collecting("k1", Some(1))];
    assert states[|states| - 1].rows[2].key == "k1";
    xs, p := Adopt(states[|states| - 1], 1, "k1", 1);
    Joined(states, steps, xs, p);
    states, steps := states + xs[1..], steps + p;
    var e := states[|states| - 1];
    assert e.rows == map[1 := Row("k1", true), 2 := Row("k1", false)] && e.actors[0] == Collecting("k1", Some(1));
    xs, p := CollectZero(e);
    Joined(states, steps, xs, p);
    states, steps := states + xs[1..], steps + p;
    assert states[|states| - 1].rows[1] == Row("k1", true) && "k1" !in states[|states| - 1].blobs;
  }
}
