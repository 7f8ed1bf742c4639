/**
  Any number of link creates and unlinks under one definition, interleaved read by read.

  A create holds the definition's row lock from its first read to its commit.  Bounds may be
  changed between creates by whoever holds that lock, and an entity may be linked to itself.
 */
module CardinalityRuns {
  import opened Ordering
  import opened Options
  import opened Cardinality

  datatype Create =
    | Begun(parent: string, child: string)                                  // holds the lock
    | Unpaired(parent: string, child: string)                               // found no live link
    | ParentCounted(parent: string, child: string, p: Counts)
    | Passed(parent: string, child: string)                                 // all checks passed

  datatype State = State(def: Definition, links: Links, minted: set<nat>, lock: Option<nat>, creates: map<nat, Create>)

  datatype Step =
    | Begin(a: nat, parent: string, child: string)
    | LookForPair(a: nat)
    | CountParent(a: nat)
    | CountChild(a: nat)
    | Commit(a: nat, id: nat)
    | Abort(a: nat)
    | Unlink(id: nat)
    | Rebound(maxChildren: Option<nat>, maxParents: Option<nat>)

  function Closed(s: State, a: nat): State {
    s.(lock := None, creates := s.creates - {a})
  }

  predicate Enabled(s: State, step: Step) {
    match step
    case Begin(a, _, _) => a !in s.creates && s.lock.None?
    case LookForPair(a) => a in s.creates && s.creates[a].Begun?
    case CountParent(a) => a in s.creates && s.creates[a].Unpaired?
    case CountChild(a) => a in s.creates && s.creates[a].ParentCounted?
    case Commit(a, id) => a in s.creates && s.creates[a].Passed? && id !in s.minted
    case Abort(a) => a in s.creates
    case Unlink(id) => id in s.links && s.links[id].live
    case Rebound(_, _) => s.lock.None?
  }

  function Do(s: State, step: Step): State
    requires Enabled(s, step)
  {
    match step
    case Begin(a, parent, child) =>
      var (p, c) := Canonical(s.def, parent, child);
      s.(lock := Some(a), creates := s.creates[a := Begun(p, c)])
    case LookForPair(a) =>
      var w := s.creates[a];
      if Linked(s.links, w.parent, w.child) then Closed(s, a) else s.(creates := s.creates[a := Unpaired(w.parent, w.child)])
    case CountParent(a) =>
      var w := s.creates[a];
      s.(creates := s.creates[a := ParentCounted(w.parent, w.child, CountLiveLinks(s.links, w.parent))])
    case CountChild(a) =>
      var w := s.creates[a];
      var refused := EnforceCardinality(s.def, w.parent, w.child, w.p, CountLiveLinks(s.links, w.child));
      if refused.Some? || (w.parent == w.child && s.def.sameTypes) then Closed(s, a)
      else s.(creates := s.creates[a := Passed(w.parent, w.child)])
    case Commit(a, id) =>
      var w := s.creates[a];
      Closed(s, a).(links := s.links[id := Row(w.parent, w.child, true)], minted := s.minted + {id})
    case Abort(a) => Closed(s, a)
    case Unlink(id) => s.(links := s.links[id := s.links[id].(live := false)])
    case Rebound(c, p) => s.(def := s.def.(maxChildren := c, maxParents := p))
  }

  ghost predicate Next(s: State, step: Step, s': State) {
    Enabled(s, step) && s' == Do(s, step)
  }

  ghost predicate IsRun(states: seq<State>, steps: seq<Step>) {
    && |states| == |steps| + 1
    && states[0] == State(states[0].def, map[], {}, None, map[])
    && forall i :: 0 <= i < |steps| ==> Next(states[i], steps[i], states[i + 1])
  }

  // --------------------------------------------------------------- invariant

  ghost predicate AtMost(x: Counts, y: Counts) {
    x.asParent <= y.asParent && x.asChild <= y.asChild
  }

  /** What a create has read is an upper bound of what is there: only unlinks can have intervened. */
  ghost predicate CreateOk(s: State, w: Create) {
    && (s.def.symmetric ==> StrLeq(w.parent, w.child))
    && (!w.Begun? ==> !Linked(s.links, w.parent, w.child))
    && (w.ParentCounted? ==> AtMost(CountLiveLinks(s.links, w.parent), w.p))
    && (w.Passed? ==>
          && !(w.parent == w.child && s.def.sameTypes)
          && EnforceCardinality(s.def, w.parent, w.child, CountLiveLinks(s.links, w.parent), CountLiveLinks(s.links, w.child)).None?)
  }

  ghost predicate Inv(s: State) {
    && OnePerPair(s.def, s.links) && s.links.Keys <= s.minted
    && (forall a :: a in s.creates ==> s.lock == Some(a) && CreateOk(s, s.creates[a]))
  }

  lemma FewerCountsStillPass(def: Definition, parent: string, child: string, p: Counts, c: Counts, p': Counts, c': Counts)
    requires EnforceCardinality(def, parent, child, p, c).None? && AtMost(p', p) && AtMost(c', c)
    ensures EnforceCardinality(def, parent, child, p', c').None?
  {
  }

  lemma UnlinkKeepsInv(s: State, id: nat)
    requires Inv(s) && Enabled(s, Unlink(id))
    ensures Inv(Do(s, Unlink(id)))
  {
    var s' := Do(s, Unlink(id));
    forall e ensures AtMost(CountLiveLinks(s'.links, e), CountLiveLinks(s.links, e)) { CountsAfterUnlink(s.links, id, e); }
    UnlinkKeepsBounds(s.def, s.links, id);
    forall a | a in s'.creates ensures CreateOk(s', s'.creates[a]) {
      var w := s.creates[a];
      assert Linked(s'.links, w.parent, w.child) ==> Linked(s.links, w.parent, w.child);
      if w.Passed? {
        FewerCountsStillPass(s.def, w.parent, w.child, CountLiveLinks(s.links, w.parent), CountLiveLinks(s.links, w.child),
                             CountLiveLinks(s'.links, w.parent), CountLiveLinks(s'.links, w.child));
      }
    }
  }

  lemma StepKeepsInv(s: State, step: Step, s': State)
    requires Inv(s) && Next(s, step, s')
    ensures Inv(s')
  {
    match step {
      case Unlink(id) => UnlinkKeepsInv(s, id);
      case Begin(a, parent, child) => StrLessTrichotomy(parent, child);
      case CountChild(a) =>
        var w := s.creates[a];
        if s'.creates != s.creates - {a} {
          FewerCountsStillPass(s.def, w.parent, w.child, w.p, CountLiveLinks(s.links, w.child),
                               CountLiveLinks(s.links, w.parent), CountLiveLinks(s.links, w.child));
        }
      case _ =>
    }
  }

  lemma {:induction false} RunKeepsInv(states: seq<State>, steps: seq<Step>, i: nat)
    requires IsRun(states, steps) && i < |states|
    ensures Inv(states[i])
  {
    if i > 0 {
      RunKeepsInv(states, steps, i - 1);
      StepKeepsInv(states[i - 1], steps[i - 1], states[i - 1 + 1]);
    }
  }

  /** The two steps that can take an entity past its bounds: the commit of a self-link with one place left
      under a symmetric definition, and a bound set below what the entity has. */
  ghost predicate Breaks(s: State, step: Step, e: string)
    requires Enabled(s, step)
  {
    match step
    case Commit(a, _) => s.creates[a].parent == e && Overshoots(s.def, s.links, e, s.creates[a].child)
    case Rebound(_, _) => !WithinBoundsAt(Do(s, step).def, s.links, e)
    case _ => false
  }

  ghost predicate LeavesBounds(s: State, step: Step, e: string) {
    Enabled(s, step) && !Breaks(s, step, e)
  }

  lemma NoLinksAreWithinBounds(def: Definition, e: string)
    ensures WithinBoundsAt(def, map[], e)
  {
    assert AsParent(map[], e) == {} && AsChild(map[], e) == {};
  }

  /** No other step does. */
  lemma StepKeepsBoundsIff(s: State, step: Step, s': State, e: string)
    requires Inv(s) && Next(s, step, s') && WithinBoundsAt(s.def, s.links, e)
    ensures WithinBoundsAt(s'.def, s'.links, e) <==> !Breaks(s, step, e)
  {
    match step {
      case Commit(a, id) =>
        var w := s.creates[a];
        CheckedLinkKeepsBoundsIff(s.def, s.links, id, w.parent, w.child, e);
      case Unlink(id) => UnlinkKeepsBoundsAt(s.def, s.links, id, e);
      case _ =>
    }
  }

  /** In every interleaving, at every moment: no pair has two live links. */
  lemma PairsStayUnique(states: seq<State>, steps: seq<Step>, i: nat)
    requires IsRun(states, steps) && i < |states|
    ensures OnePerPair(states[i].def, states[i].links)
  {
    RunKeepsInv(states, steps, i);
  }

  /** In every interleaving, at every moment: an entity is within its bounds, as long as no step so far broke them. */
  lemma {:induction false} BoundsHoldThroughout(states: seq<State>, steps: seq<Step>, i: nat, e: string)
    requires IsRun(states, steps) && i < |states|
    requires forall k :: 0 <= k < i ==> LeavesBounds(states[k], steps[k], e)
    ensures WithinBoundsAt(states[i].def, states[i].links, e)
  {
    if i > 0 {
      BoundsHoldThroughout(states, steps, i - 1, e);
      RunKeepsInv(states, steps, i - 1);
      assert LeavesBounds(states[i - 1], steps[i - 1], e);
      StepKeepsBoundsIff(states[i - 1], steps[i - 1], states[i - 1 + 1], e);
    } else {
      NoLinksAreWithinBounds(states[0].def, e);
    }
  }
}
