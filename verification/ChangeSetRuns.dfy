/**
  One change-set and any number of publishers, approvers, schedulers and crashes.

  Every usecase is cut at the points where others may run: loading, reading the clock,
  the compare-and-swap, the commit of the batch.  Any actor may stop for good at any
  point; the clock is shared and never runs backwards.
 */
module ChangeSetRuns {
  import Traces
  import opened Options
  import opened Mutations
  import opened ChangeSets

  datatype Intent = Editing(edit: Edit) | Publishes

  datatype Actor =
    | Loaded(intent: Intent, base: ChangeSet)
    | Staged(intent: Intent, base: ChangeSet, seen: int, record: ChangeSet)   // about to swap
    | Claimed(base: ChangeSet, claim: ChangeSet)                       // swap won, batch not applied
    | Applied(claim: ChangeSet)                                        // batch committed
    | Failed(base: ChangeSet, claim: ChangeSet)                        // batch rolled back
    | Finalising(claim: ChangeSet, record: ChangeSet)
    | Releasing(base: ChangeSet, claim: ChangeSet, record: ChangeSet)

  /** Between claim and finalise or release. */
  predicate Holds(a: Actor) {
    !a.Loaded? && !a.Staged?
  }

  /** Its batch is committed and the record does not say so yet. */
  predicate Owes(a: Actor) {
    a.Applied? || a.Finalising?
  }

  datatype State = State(
    stored: ChangeSet,
    clock: int,
    actors: map<nat, Actor>,
    committed: seq<seq<Mutation>>,           // batches this set's publishes committed
    lost: nat,                               // committed, but the finalise never landed
    lastClaim: Option<int>,                  // stamp of the newest claim that won
    submitted: Option<seq<Mutation>>,        // the list as it was submitted
    approvedList: Option<seq<Mutation>>)     // the list as it was approved

  datatype Step =
    | Load(who: nat, intent: Intent)
    | Stage(who: nat, seen: int, stamped: int)
    | Swap(who: nat)
    | Apply(who: nat, ok: bool)
    | Wrap(who: nat, stamped: int)           // stamp the finalise or the release
    | Stop(who: nat)                         // crash, refusal, or an error returned to the caller
    | Tick(now: int)

  function Gone(s: State, who: nat): State
    requires who in s.actors
  {
    s.(actors := s.actors - {who}, lost := s.lost + if Owes(s.actors[who]) then 1 else 0)
  }

  function SwapWins(s: State, who: nat): State
    requires who in s.actors && Swaps(s.actors[who])
  {
    var a := s.actors[who];
    var stored := Swapped(s.stored, a.record);
    match a
    case Staged(Publishes, base, _, record) =>
      s.(stored := stored, lastClaim := Some(record.updatedAt),
         actors := s.actors[who := Claimed(base, record.(version := record.version + 1))])
    case Staged(Editing(edit), base, _, record) =>
      s.(stored := stored, actors := s.actors - {who},
         submitted := if edit.Submit? then Some(stored.mutations) else s.submitted,
         approvedList := if edit.Approve? then Some(stored.mutations) else s.approvedList)
    case _ =>
      s.(stored := stored, actors := s.actors - {who})
  }

  predicate Swaps(a: Actor) {
    a.Staged? || a.Finalising? || a.Releasing?
  }

  function Decided(a: Actor, seen: int, stamped: int): Decision
    requires a.Loaded?
  {
    if a.intent.Publishes? then Claim(a.base, seen, stamped) else Decide(a.intent.edit, a.base)
  }

  predicate Enabled(s: State, step: Step) {
    match step
    case Load(who, _) => who !in s.actors
    case Stage(who, seen, stamped) =>
      who in s.actors && s.actors[who].Loaded? && s.clock <= seen <= stamped && Decided(s.actors[who], seen, stamped).Write?
    case Swap(who) => who in s.actors && Swaps(s.actors[who])
    case Apply(who, _) => who in s.actors && s.actors[who].Claimed?
    case Wrap(who, stamped) => who in s.actors && (s.actors[who].Applied? || s.actors[who].Failed?) && s.clock <= stamped
    case Stop(who) => who in s.actors
    case Tick(now) => s.clock <= now
  }

  function Do(s: State, step: Step): State
    requires Enabled(s, step)
  {
    match step
    case Load(who, intent) => s.(actors := s.actors[who := Loaded(intent, s.stored)])
    case Stage(who, seen, stamped) =>
      var a := s.actors[who];
      var record := Decided(a, seen, stamped).record.(updatedAt := stamped);
      s.(clock := stamped, actors := s.actors[who := Staged(a.intent, a.base, seen, record)])
    case Swap(who) =>
      if s.actors[who].record.version == s.stored.version then SwapWins(s, who) else Gone(s, who)
    case Apply(who, ok) =>
      var a := s.actors[who];
      if ok then s.(committed := s.committed + [a.claim.mutations], actors := s.actors[who := Applied(a.claim)])
      else s.(actors := s.actors[who := Failed(a.base, a.claim)])
    case Wrap(who, stamped) =>
      var a := s.actors[who];
      var wrapped := if a.Applied? then Finalising(a.claim, Finalise(a.claim, stamped))
                     else Releasing(a.base, a.claim, Release(a.base, a.claim, stamped));
      s.(clock := stamped, actors := s.actors[who := wrapped])
    case Stop(who) => Gone(s, who)
    case Tick(now) => s.(clock := now)
  }

  ghost predicate Next(s: State, step: Step, s': State) {
    Enabled(s, step) && s' == Do(s, step)
  }

  ghost predicate Init(s: State) {
    && s.stored.state == Draft && s.stored.mutations == [] && s.stored.updatedAt <= s.clock
    && s.actors == map[] && s.committed == [] && s.lost == 0
    && s.lastClaim == None && s.submitted == None && s.approvedList == None
  }

  ghost predicate IsTrace(states: seq<State>, steps: seq<Step>) {
    && |states| == |steps| + 1
    && forall i :: 0 <= i < |steps| ==> Next(states[i], steps[i], states[i + 1])
  }

  ghost predicate IsRun(states: seq<State>, steps: seq<Step>) {
    IsTrace(states, steps) && Init(states[0])
  }

  // ------------------------------------------------- versions and the claim

  ghost predicate CameFromUnpublished(a: Actor) {
    a.Claimed? || a.Failed? || a.Releasing? ==> a.base.state != Published
  }

  /** An actor that holds the current version holds the current record, and what it is
      about to write is a decision that record allows. */
  ghost predicate KnowsVersion(s: State, a: Actor) {
    match a
    case Loaded(_, base) =>
      base.version <= s.stored.version && (base.version == s.stored.version ==> base == s.stored)
    case Staged(intent, base, seen, record) =>
      && base.version <= s.stored.version
      && (base.version == s.stored.version ==> base == s.stored && (s.lastClaim.Some? ==> s.lastClaim.value <= record.updatedAt))
      && seen <= record.updatedAt <= s.clock
      && (match intent
          case Publishes => Claim(base, seen, record.updatedAt) == Write(record)
          case Editing(edit) => Decide(edit, base).Write? && record == Decide(edit, base).record.(updatedAt := record.updatedAt))
    case _ =>
      && a.claim.state == Publishing && CameFromUnpublished(a)
      && a.claim.version <= s.stored.version && (a.claim.version == s.stored.version ==> a.claim == s.stored)
      && (a.Finalising? ==> a.record == Finalise(a.claim, a.record.updatedAt))
      && (a.Releasing? ==> a.record == Release(a.base, a.claim, a.record.updatedAt))
  }

  /** A holder whose version has moved on was reclaimed, and not before its claim was stale. */
  ghost predicate Fenced(s: State, a: Actor) {
    Holds(a) ==>
      && s.lastClaim.Some? && a.claim.updatedAt <= s.lastClaim.value
      && (a.claim.version < s.stored.version ==> a.claim.updatedAt + PUBLISH_CLAIM_TTL <= s.lastClaim.value)
  }

  /** Of two holders, the older claim is at least the TTL older than the newer. */
  ghost predicate Apart(a: Actor, b: Actor) {
    Holds(a) && Holds(b) ==>
      && a.claim.version != b.claim.version
      && (a.claim.version < b.claim.version ==> a.claim.updatedAt + PUBLISH_CLAIM_TTL <= b.claim.updatedAt)
  }

  ghost predicate FenceInv(s: State) {
    && (s.lastClaim.Some? ==> s.lastClaim.value <= s.clock)
    && (s.stored.state == Publishing ==> s.lastClaim == Some(s.stored.updatedAt))
    && (forall i :: i in s.actors ==> KnowsVersion(s, s.actors[i]) && Fenced(s, s.actors[i]))
    && (forall i, j :: i in s.actors && j in s.actors && i != j ==> Apart(s.actors[i], s.actors[j]))
  }

  /** A swap that wins moves the version past everybody else. */
  lemma WinKeepsOthers(s: State, who: nat, b: Actor)
    requires FenceInv(s) && who in s.actors
    requires Swaps(s.actors[who])
    requires s.actors[who].record.version == s.stored.version
    requires KnowsVersion(s, b) && Fenced(s, b) && Apart(s.actors[who], b) && Apart(b, s.actors[who])
    ensures var s' := SwapWins(s, who); KnowsVersion(s', b) && Fenced(s', b) && s'.stored.version == s.stored.version + 1
    ensures who in SwapWins(s, who).actors ==>
              Apart(SwapWins(s, who).actors[who], b) && Apart(b, SwapWins(s, who).actors[who])
  {
    assert KnowsVersion(s, s.actors[who]) && Fenced(s, s.actors[who]);
  }

  /** The record is the winner's, and a claim that won is the newest. */
  lemma WinnerKnows(s: State, who: nat)
    requires FenceInv(s) && who in s.actors
    requires Swaps(s.actors[who])
    requires s.actors[who].record.version == s.stored.version
    ensures var s' := SwapWins(s, who);
      && (s'.lastClaim.Some? ==> s'.lastClaim.value <= s'.clock)
      && (s'.stored.state == Publishing ==> s'.lastClaim == Some(s'.stored.updatedAt))
      && (who in s'.actors ==> KnowsVersion(s', s'.actors[who]) && Fenced(s', s'.actors[who]))
  {
    assert KnowsVersion(s, s.actors[who]) && Fenced(s, s.actors[who]);
  }

  lemma WinKeepsFenceInv(s: State, who: nat)
    requires FenceInv(s) && who in s.actors
    requires Swaps(s.actors[who])
    requires s.actors[who].record.version == s.stored.version
    ensures FenceInv(SwapWins(s, who))
  {
    var s' := SwapWins(s, who);
    WinnerKnows(s, who);
    forall i | i in s'.actors && i != who ensures KnowsVersion(s', s'.actors[i]) && Fenced(s', s'.actors[i])
      && (who in s'.actors ==> Apart(s'.actors[who], s'.actors[i]) && Apart(s'.actors[i], s'.actors[who]))
    {
      WinKeepsOthers(s, who, s.actors[i]);
    }
  }

  /** A step that leaves the record alone. */
  predicate Quiet(s: State, step: Step)
    requires Enabled(s, step)
  {
    step.Swap? ==> s.actors[step.who].record.version != s.stored.version
  }

  /** What an actor knows outlasts such a step of another. */
  lemma BystanderKnows(s: State, s': State, b: Actor)
    requires s'.stored == s.stored && s'.lastClaim == s.lastClaim && s.clock <= s'.clock
    requires KnowsVersion(s, b) && Fenced(s, b)
    ensures KnowsVersion(s', b) && Fenced(s', b)
  {
  }

  /** The actor a step moves on, if it is still there. */
  function Mover(step: Step): Option<nat> {
    match step
    case Load(who, _) => Some(who)
    case Stage(who, _, _) => Some(who)
    case Apply(who, _) => Some(who)
    case Wrap(who, _) => Some(who)
    case _ => None
  }

  lemma LoaderKnows(s: State, who: nat, intent: Intent)
    requires FenceInv(s) && Enabled(s, Load(who, intent))
    ensures KnowsVersion(Do(s, Load(who, intent)), Loaded(intent, s.stored))
  {
  }

  lemma StagerKnows(s: State, who: nat, seen: int, stamped: int)
    requires FenceInv(s) && Enabled(s, Stage(who, seen, stamped))
    ensures var s' := Do(s, Stage(who, seen, stamped)); KnowsVersion(s', s'.actors[who])
  {
    assert KnowsVersion(s, s.actors[who]);
  }

  /** A holder keeps its claim while it applies and wraps up. */
  lemma HolderKnows(s: State, step: Step, s': State, who: nat)
    requires FenceInv(s) && Next(s, step, s') && Mover(step) == Some(who) && (step.Apply? || step.Wrap?)
    ensures KnowsVersion(s', s'.actors[who]) && Fenced(s', s'.actors[who])
    ensures Holds(s.actors[who]) && Holds(s'.actors[who]) && s'.actors[who].claim == s.actors[who].claim
  {
    assert KnowsVersion(s, s.actors[who]) && Fenced(s, s.actors[who]);
  }

  lemma QuietStepKeepsFenceInv(s: State, step: Step, s': State)
    requires FenceInv(s) && Next(s, step, s') && Quiet(s, step)
    ensures FenceInv(s')
  {
    forall i | i in s'.actors ensures KnowsVersion(s', s'.actors[i]) && Fenced(s', s'.actors[i]) {
      if Mover(step) == Some(i) {
        match step
        case Load(_, intent) => LoaderKnows(s, i, intent);
        case Stage(_, seen, stamped) => StagerKnows(s, i, seen, stamped);
        case _ => HolderKnows(s, step, s', i);
      } else {
        BystanderKnows(s, s', s.actors[i]);
      }
    }
    forall i, j | i in s'.actors && j in s'.actors && i != j ensures Apart(s'.actors[i], s'.actors[j]) {
      if Holds(s'.actors[i]) && Holds(s'.actors[j]) { assert Apart(s.actors[i], s.actors[j]); }
    }
  }

  lemma StepKeepsFenceInv(s: State, step: Step, s': State)
    requires FenceInv(s) && Next(s, step, s')
    ensures FenceInv(s')
  {
    if Quiet(s, step) {
      QuietStepKeepsFenceInv(s, step, s');
    } else {
      WinKeepsFenceInv(s, step.who);
    }
  }

  lemma {:induction false} RunKeepsFenceInv(states: seq<State>, steps: seq<Step>, i: nat)
    requires IsRun(states, steps) && i < |states|
    ensures FenceInv(states[i])
  {
    if i == 0 {
    } else {
      RunKeepsFenceInv(states, steps, i - 1);
      StepKeepsFenceInv(states[i - 1], steps[i - 1], states[i - 1 + 1]);
    }
  }

  /** Two publishers between claim and finalise: the older claim is at least the TTL old. */
  lemma OlderClaimIsStale(states: seq<State>, steps: seq<Step>, i: nat, a: nat, b: nat)
    requires IsRun(states, steps) && i < |states| && a != b
    requires a in states[i].actors && b in states[i].actors && Holds(states[i].actors[a]) && Holds(states[i].actors[b])
    ensures var x, y := states[i].actors[a].claim, states[i].actors[b].claim;
            x.version != y.version &&
            (if x.version < y.version then x else y).updatedAt + PUBLISH_CLAIM_TTL <= states[i].clock
  {
    RunKeepsFenceInv(states, steps, i);
    assert Apart(states[i].actors[a], states[i].actors[b]) && Apart(states[i].actors[b], states[i].actors[a]);
    assert Fenced(states[i], states[i].actors[a]) && Fenced(states[i], states[i].actors[b]);
  }

  lemma {:induction false} VersionsOnlyGrow(states: seq<State>, steps: seq<Step>, i: nat, j: nat)
    requires IsRun(states, steps) && i <= j < |states|
    ensures states[i].stored.version <= states[j].stored.version
    decreases j - i
  {
    if i < j {
      VersionsOnlyGrow(states, steps, i, j - 1);
      assert Next(states[j - 1], steps[j - 1], states[j - 1 + 1]);
    }
  }

  /** A claimant whose claim was retaken never finalises or releases: whatever it tries to
      write from then on loses the swap. */
  lemma RetakenClaimNeverLands(states: seq<State>, steps: seq<Step>, i: nat, j: nat, who: nat)
    requires IsRun(states, steps) && i <= j < |steps|
    requires who in states[i].actors && Holds(states[i].actors[who])
    requires states[i].actors[who].claim.version < states[i].stored.version
    requires steps[j] == Swap(who) && who in states[j].actors && Holds(states[j].actors[who])
    requires states[j].actors[who].claim == states[i].actors[who].claim
    ensures states[j + 1].stored == states[j].stored
  {
    VersionsOnlyGrow(states, steps, i, j);
    RunKeepsFenceInv(states, steps, j);
    assert KnowsVersion(states[j], states[j].actors[who]);
    assert Next(states[j], steps[j], states[j + 1]);
  }

  /** Whoever changes a publishing record either holds that very claim or found it stale;
      no edit, submit, approve or reject ever does. */
  lemma PublishingIsLeftByItsClaim(states: seq<State>, steps: seq<Step>, i: nat)
    requires IsRun(states, steps) && i < |steps|
    requires states[i].stored.state == Publishing && states[i + 1].stored != states[i].stored
    ensures steps[i].Swap? && steps[i].who in states[i].actors
    ensures var a := states[i].actors[steps[i].who];
            (Holds(a) && a.claim == states[i].stored) ||
            (a.Staged? && a.intent.Publishes? && a.seen - states[i].stored.updatedAt >= PUBLISH_CLAIM_TTL)
  {
    RunKeepsFenceInv(states, steps, i);
    assert Next(states[i], steps[i], states[i + 1]);
    assert KnowsVersion(states[i], states[i].actors[steps[i].who]);
  }

  // ------------------------------------------------------- counting effects

  ghost function Owing(s: State): set<nat> {
    set i | i in s.actors && Owes(s.actors[i])
  }

  /** Every committed batch is accounted for: by the published record, by a publisher about
      to say so, or as lost. */
  ghost predicate CountInv(s: State) {
    |s.committed| == (if s.stored.state == Published then 1 else 0) + |Owing(s)| + s.lost
  }

  lemma OwingWithout(s: State, who: nat)
    requires who in s.actors
    ensures |Owing(s.(actors := s.actors - {who}))| == |Owing(s)| - (if Owes(s.actors[who]) then 1 else 0)
  {
    assert Owing(s.(actors := s.actors - {who})) == Owing(s) - {who};
  }

  lemma OwingWith(s: State, who: nat, a: Actor)
    requires who in s.actors ==> !Owes(s.actors[who])
    ensures |Owing(s.(actors := s.actors[who := a]))| == |Owing(s)| + (if Owes(a) then 1 else 0)
  {
    assert Owing(s.(actors := s.actors[who := a])) == Owing(s) + (if Owes(a) then {who} else {});
  }

  /** Once published, a record never changes again. */
  lemma PublishedIsFinal(s: State, step: Step, s': State)
    requires FenceInv(s) && Next(s, step, s') && s.stored.state == Published
    ensures s'.stored == s.stored
  {
    if step.Swap? { assert KnowsVersion(s, s.actors[step.who]); }
  }

  lemma WinKeepsCount(s: State, who: nat)
    requires FenceInv(s) && CountInv(s) && who in s.actors
    requires Swaps(s.actors[who])
    requires s.actors[who].record.version == s.stored.version
    ensures CountInv(SwapWins(s, who))
  {
    var a, s' := s.actors[who], SwapWins(s, who);
    assert KnowsVersion(s, a);
    if a.Staged? && a.intent.Publishes? {
      OwingWith(s, who, s'.actors[who]);
      assert Owing(s') == Owing(s.(actors := s'.actors));
    } else {
      OwingWithout(s, who);
      assert Owing(s') == Owing(s.(actors := s'.actors));
    }
  }

  /** Whoever goes without saying what it committed is counted as lost. */
  lemma GoneKeepsCount(s: State, who: nat)
    requires CountInv(s) && who in s.actors
    ensures CountInv(Gone(s, who))
  {
    OwingWithout(s, who);
    assert Owing(Gone(s, who)) == Owing(s.(actors := s.actors - {who}));
  }

  lemma StepKeepsCount(s: State, step: Step, s': State)
    requires FenceInv(s) && CountInv(s) && Next(s, step, s')
    ensures CountInv(s')
  {
    match step {
      case Load(who, intent) => OwingWith(s, who, s'.actors[who]);
      case Stage(who, _, _) =>
        OwingWith(s, who, s'.actors[who]);
        assert Owing(s') == Owing(s.(actors := s'.actors));
      case Swap(who) =>
        if s.actors[who].record.version == s.stored.version { WinKeepsCount(s, who); } else { GoneKeepsCount(s, who); }
      case Apply(who, ok) =>
        OwingWith(s, who, s'.actors[who]);
        assert Owing(s') == Owing(s.(actors := s'.actors));
      case Wrap(who, _) =>
        assert Owing(s') == Owing(s);
      case Stop(who) => GoneKeepsCount(s, who);
      case Tick(_) =>
        assert Owing(s') == Owing(s);
    }
  }

  lemma {:induction false} RunKeepsCount(states: seq<State>, steps: seq<Step>, i: nat)
    requires IsRun(states, steps) && i < |states|
    ensures CountInv(states[i])
  {
    if i > 0 {
      RunKeepsCount(states, steps, i - 1);
      RunKeepsFenceInv(states, steps, i - 1);
      StepKeepsCount(states[i - 1], steps[i - 1], states[i - 1 + 1]);
    } else {
      assert Owing(states[0]) == {};
    }
  }

  /** In EVERY run a published set's batch was committed at least once - exactly once if and
      only if no other publisher committed it and failed to say so. */
  lemma PublishedMeansCommitted(states: seq<State>, steps: seq<Step>, i: nat)
    requires IsRun(states, steps) && i < |states| && states[i].stored.state == Published
    ensures |states[i].committed| >= 1
    ensures |states[i].committed| == 1 <==> states[i].lost == 0 && forall a :: a in states[i].actors ==> !Owes(states[i].actors[a])
  {
    RunKeepsCount(states, steps, i);
    if forall a :: a in states[i].actors ==> !Owes(states[i].actors[a]) {
      assert Owing(states[i]) == {};
    } else {
      var a :| a in states[i].actors && Owes(states[i].actors[a]);
      assert a in Owing(states[i]);
    }
  }

  /** In every run and every other state, the live data is untouched exactly when no commit lost its
      claim and no publisher has committed and not yet said so. */
  lemma UntouchedExactly(states: seq<State>, steps: seq<Step>, i: nat)
    requires IsRun(states, steps) && i < |states| && states[i].stored.state != Published
    ensures states[i].committed == [] <==> states[i].lost == 0 && forall a :: a in states[i].actors ==> !Owes(states[i].actors[a])
  {
    RunKeepsCount(states, steps, i);
    if forall a :: a in states[i].actors ==> !Owes(states[i].actors[a]) {
      assert Owing(states[i]) == {};
    } else {
      var a :| a in states[i].actors && Owes(states[i].actors[a]);
      assert a in Owing(states[i]);
    }
  }

  // ---------------------------------------------- runs in which no claim is retaken

  /** A publisher takes over a stale claim. */
  predicate Retakes(s: State, step: Step) {
    step.Swap? && step.who in s.actors &&
    var a := s.actors[step.who];
    a.Staged? && a.intent.Publishes? && a.base.state == Publishing && a.record.version == s.stored.version
  }

  /** At most one publisher is past its claim, and nothing is lost but by the one that crashed. */
  ghost predicate OneClaimInv(s: State) {
    && (forall i :: i in s.actors && Holds(s.actors[i]) ==>
          s.stored.state == Publishing && s.actors[i].claim.version == s.stored.version && s.lost == 0)
    && (s.stored.state != Publishing ==> s.lost == 0)
  }

  lemma SwapKeepsOneClaim(s: State, who: nat, s': State)
    requires FenceInv(s) && OneClaimInv(s) && Next(s, Swap(who), s') && !Retakes(s, Swap(who))
    ensures OneClaimInv(s')
  {
    assert KnowsVersion(s, s.actors[who]);
    forall i | i in s.actors && i != who ensures Apart(s.actors[i], s.actors[who]) {}
  }

  lemma StepKeepsOneClaim(s: State, step: Step, s': State)
    requires FenceInv(s) && OneClaimInv(s) && Next(s, step, s') && !Retakes(s, step)
    ensures OneClaimInv(s')
  {
    match step {
      case Swap(who) => SwapKeepsOneClaim(s, who, s');
      case Stop(who) =>
        forall i | i in s.actors && i != who ensures Apart(s.actors[i], s.actors[who]) {}
      case _ =>
    }
  }

  lemma {:induction false} UnretakenRunKeepsInv(states: seq<State>, steps: seq<Step>, i: nat)
    requires IsRun(states, steps) && i < |states|
    requires forall k :: 0 <= k < i ==> !Retakes(states[k], steps[k])
    ensures OneClaimInv(states[i])
  {
    if i == 0 {
    } else {
      UnretakenRunKeepsInv(states, steps, i - 1);
      RunKeepsFenceInv(states, steps, i - 1);
      StepKeepsOneClaim(states[i - 1], steps[i - 1], states[i - 1 + 1]);
    }
  }

  /** While no stale claim is retaken, published means committed exactly once, and every state but
      publishing and published means the live data was never touched. */
  lemma UnretakenRunsCommitExactlyOnce(states: seq<State>, steps: seq<Step>, i: nat)
    requires IsRun(states, steps) && i < |states|
    requires forall k :: 0 <= k < i ==> !Retakes(states[k], steps[k])
    ensures states[i].stored.state == Published ==> |states[i].committed| == 1
    ensures states[i].stored.state !in {Published, Publishing} ==> states[i].committed == []
  {
    UnretakenRunKeepsInv(states, steps, i);
    RunKeepsCount(states, steps, i);
    if states[i].stored.state != Publishing { assert Owing(states[i]) == {}; }
  }

  /** Whoever claimed has finalised or released before the claim went stale. */
  ghost predicate Timely(s: State) {
    s.stored.state == Publishing ==> s.clock < s.stored.updatedAt + PUBLISH_CLAIM_TTL
  }

  /** Then there is no stale claim to retake. */
  lemma TimelyIsUnretaken(s: State, step: Step)
    requires FenceInv(s) && Timely(s)
    ensures !Retakes(s, step)
  {
    if step.Swap? && step.who in s.actors { assert KnowsVersion(s, s.actors[step.who]); }
  }

  /** In particular, while every claim is settled within its TTL. */
  lemma TimelyRunsCommitExactlyOnce(states: seq<State>, steps: seq<Step>, i: nat)
    requires IsRun(states, steps) && i < |states|
    requires forall k :: 0 <= k < i ==> Timely(states[k])
    ensures states[i].stored.state == Published ==> |states[i].committed| == 1
    ensures states[i].stored.state !in {Published, Publishing} ==> states[i].committed == []
  {
    forall k | 0 <= k < i ensures !Retakes(states[k], steps[k]) {
      RunKeepsFenceInv(states, steps, k);
      TimelyIsUnretaken(states[k], steps[k]);
    }
    UnretakenRunsCommitExactlyOnce(states, steps, i);
  }

  // -------------------------------------------- the condition is not optional

  lemma Joined(xs: seq<State>, p: seq<Step>, ys: seq<State>, q: seq<Step>)
    requires IsTrace(xs, p) && IsTrace(ys, q) && ys[0] == xs[|xs| - 1]
    ensures IsTrace(xs + ys[1..], p + q)
  {
    Traces.Join(Next, xs, p, ys, q);
  }

  /** A usecase of a newcomer that runs up to its first swap while the others rest. */
  lemma RunsToItsSwap(s: State, who: nat, intent: Intent, now: int) returns (states: seq<State>, steps: seq<Step>)
    requires who !in s.actors && s.clock <= now && Decided(Loaded(intent, s.stored), now, now).Write?
    ensures IsTrace(states, steps) && states[0] == s
    ensures var record := Decided(Loaded(intent, s.stored), now, now).record.(updatedAt := now);
            states[|states| - 1] == SwapWins(s.(clock := now, actors := s.actors[who := Staged(intent, s.stored, now, record)]), who)
  {
    var s1 := Do(s, Load(who, intent));
    var s2 := Do(s1, Stage(who, now, now));
    steps := [Load(who, intent), Stage(who, now, now), Swap(who)];
    states := [s, s1, s2, Do(s2, Swap(who))];
    assert s2.actors == s.actors[who := s2.actors[who]];
  }

  lemma EditsAlone(s: State, who: nat, edit: Edit, now: int) returns (states: seq<State>, steps: seq<Step>)
    requires who !in s.actors && s.clock <= now && Decide(edit, s.stored).Write?
    ensures IsTrace(states, steps) && states[0] == s
    ensures var e := states[|states| - 1];
            e.actors == s.actors && e.clock == now && e.committed == s.committed &&
            e.stored == Decide(edit, s.stored).record.(updatedAt := now, version := s.stored.version + 1)
  {
    states, steps := RunsToItsSwap(s, who, Editing(edit), now);
  }

  lemma CommitsAndCrashes(s: State, who: nat, now: int) returns (states: seq<State>, steps: seq<Step>)
    requires who !in s.actors && s.clock <= now && Claim(s.stored, now, now).Write?
    ensures IsTrace(states, steps) && states[0] == s
    ensures var e := states[|states| - 1];
            e.actors == s.actors && e.clock == now && |e.committed| == |s.committed| + 1 &&
            e.stored.state == Publishing && e.stored.updatedAt == now
  {
    var xs, p := RunsToItsSwap(s, who, Publishes, now);
    var s3 := xs[|xs| - 1];
    var s4 := Do(s3, Apply(who, true));
    var s5 := Do(s4, Stop(who));
    Joined(xs, p, [s3, s4, s5], [Apply(who, true), Stop(who)]);
    states, steps := xs + [s3, s4, s5][1..], p + [Apply(who, true), Stop(who)];
  }

  lemma FailsAndReleases(s: State, who: nat, now: int) returns (states: seq<State>, steps: seq<Step>)
    requires who !in s.actors && s.clock <= now && Claim(s.stored, now, now).Write? && s.stored.state == Publishing
    ensures IsTrace(states, steps) && states[0] == s
    ensures var e := states[|states| - 1];
            e.actors == s.actors && e.clock == now && e.committed == s.committed && e.stored.state == Approved
  {
    var xs, p := RunsToItsSwap(s, who, Publishes, now);
    var s3 := xs[|xs| - 1];
    var s4 := Do(s3, Apply(who, false));
    var s5 := Do(s4, Wrap(who, now));
    var s6 := Do(s5, Swap(who));
    var q := [Apply(who, false), Wrap(who, now), Swap(who)];
    Joined(xs, p, [s3, s4, s5, s6], q);
    states, steps := xs + [s3, s4, s5, s6][1..], p + q;
  }

  /** A claim that is stale, or once it is, can end rejected whatever was committed under it and whoever else is
      at work: a newcomer retakes it, fails, hands it back as approved, and it is rejected. */
  lemma StaleClaimCanBeRejected(s: State, who: nat) returns (states: seq<State>, steps: seq<Step>)
    requires s.stored.state == Publishing && who !in s.actors
    ensures IsTrace(states, steps) && states[0] == s
    ensures states[|states| - 1].stored.state == Rejected && states[|states| - 1].committed == s.committed
  {
    var due := s.stored.updatedAt + PUBLISH_CLAIM_TTL;
    var now := if s.clock < due then due else s.clock;
    states, steps := FailsAndReleases(s, who, now);
    var xs, p := EditsAlone(states[|states| - 1], who, Reject, now);
    Joined(states, steps, xs, p);
    states, steps := states + xs[1..], steps + p;
  }

  /** With a claim retaken the second half can fail: a claim stranded after its commit is
      retaken, fails, returns to approved and is rejected - rejected, with live data changed. */
  lemma RejectedCanHaveCommitted() returns (states: seq<State>, steps: seq<Step>)
    ensures IsRun(states, steps)
    ensures states[|states| - 1].stored.state == Rejected && |states[|states| - 1].committed| == 1
  {
    var cs := ChangeSet(Draft, false, "ann", "", [], None, 0, None, 1);
    var s := State(cs, 0, map[], [], 0, None, None, None);
    states, steps := EditsAlone(s, 0, AddMutation(Mutation("set", "price", "e1", "", "", "10"), true), 0);
    var xs, p := CommitsAndCrashes(states[|states| - 1], 0, 0);
    Joined(states, steps, xs, p);
    states, steps := states + xs[1..], steps + p;
    xs, p := StaleClaimCanBeRejected(states[|states| - 1], 0);
    Joined(states, steps, xs, p);
    states, steps := states + xs[1..], steps + p;
  }

  // --------------------------------------------------------------- the list

  /** The mutation a step adds to the stored list: that of an addition whose swap wins. */
  function AddedBy(s: State, step: Step): seq<Mutation> {
    if step.Swap? && step.who in s.actors then
      match s.actors[step.who]
      case Staged(Editing(AddMutation(m, _)), _, _, record) => if record.version == s.stored.version then [m] else []
      case _ => []
    else []
  }

  lemma WinAdds(s: State, who: nat)
    requires FenceInv(s) && who in s.actors && Swaps(s.actors[who]) && s.actors[who].record.version == s.stored.version
    ensures SwapWins(s, who).stored.mutations == s.stored.mutations + AddedBy(s, Swap(who))
  {
    assert KnowsVersion(s, s.actors[who]);
  }

  lemma StepAdds(s: State, step: Step, s': State)
    requires FenceInv(s) && Next(s, step, s')
    ensures s'.stored.mutations == s.stored.mutations + AddedBy(s, step)
  {
    if !Quiet(s, step) { WinAdds(s, step.who); }
  }

  /** All that was added up to a state, in order. */
  ghost function Added(states: seq<State>, steps: seq<Step>, i: nat): seq<Mutation>
    requires |states| == |steps| + 1 && i < |states|
  {
    if i == 0 then [] else Added(states, steps, i - 1) + AddedBy(states[i - 1], steps[i - 1])
  }

  /** In every run the list is the mutations added so far, in the order they were added: nothing that anybody
      does loses, repeats or moves one. */
  lemma {:induction false} ListIsWhatWasAdded(states: seq<State>, steps: seq<Step>, i: nat)
    requires IsRun(states, steps) && i < |states|
    ensures states[i].stored.mutations == Added(states, steps, i)
  {
    if i > 0 {
      ListIsWhatWasAdded(states, steps, i - 1);
      RunKeepsFenceInv(states, steps, i - 1);
      StepAdds(states[i - 1], steps[i - 1], states[i - 1 + 1]);
    }
  }

  // -------------------------------------------------------- approval safety

  /** With approval required: where the record stands in its life, who approved it, and that
      the list that is or was applied is the list that was submitted and then approved. */
  ghost predicate ApprovalInv(s: State) {
    s.stored.requireApproval ==>
      && (match s.stored.state
          case Draft => s.submitted == None && s.approvedList == None
          case InReview => s.submitted == Some(s.stored.mutations) && s.approvedList == None
          case Rejected => true
          case _ => s.approvedList == Some(s.stored.mutations) && s.stored.approver != "" && s.stored.approver != s.stored.author)
      && (s.approvedList.Some? ==> s.submitted == s.approvedList && s.stored.state !in {Draft, InReview})
      && (forall b :: b in s.committed ==> s.approvedList == Some(b))
      && (forall i :: i in s.actors && Holds(s.actors[i]) ==> s.approvedList == Some(s.actors[i].claim.mutations))
      && (forall i :: i in s.actors && (s.actors[i].Claimed? || s.actors[i].Failed? || s.actors[i].Releasing?) ==>
            s.actors[i].base.state in {Approved, Publishing})
  }

  lemma StepKeepsApprovalInv(s: State, step: Step, s': State)
    requires FenceInv(s) && ApprovalInv(s) && Next(s, step, s')
    ensures ApprovalInv(s') && s'.stored.requireApproval == s.stored.requireApproval && s'.stored.author == s.stored.author
  {
    if step.Swap? && s.actors[step.who].record.version == s.stored.version {
      WinKeepsApproval(s, step.who, s');
    }
  }

  /** A swap that wins: an approval records whose it is, a claim takes the approved list. */
  lemma WinKeepsApproval(s: State, who: nat, s': State)
    requires FenceInv(s) && ApprovalInv(s) && Next(s, Swap(who), s') && s.actors[who].record.version == s.stored.version
    ensures ApprovalInv(s') && s'.stored.requireApproval == s.stored.requireApproval && s'.stored.author == s.stored.author
  {
    assert KnowsVersion(s, s.actors[who]);
  }

  lemma {:induction false} RunKeepsApprovalInv(states: seq<State>, steps: seq<Step>, i: nat)
    requires IsRun(states, steps) && i < |states|
    ensures ApprovalInv(states[i])
    ensures states[i].stored.requireApproval == states[0].stored.requireApproval
  {
    if i == 0 {
    } else {
      RunKeepsApprovalInv(states, steps, i - 1);
      RunKeepsFenceInv(states, steps, i - 1);
      StepKeepsApprovalInv(states[i - 1], steps[i - 1], states[i - 1 + 1]);
    }
  }

  /** A set that demands approval is approved, publishing or published only with an identified
      approver who is not its author, and every batch it ever commits - through crashes, releases
      and reclaims - is the list that was submitted and approved. */
  lemma OnlyApprovedListsAreCommitted(states: seq<State>, steps: seq<Step>, i: nat)
    requires IsRun(states, steps) && i < |states| && states[0].stored.requireApproval
    ensures states[i].stored.state in {Approved, Publishing, Published} ==>
              states[i].stored.approver != "" && states[i].stored.approver != states[i].stored.author
    ensures forall b :: b in states[i].committed ==> states[i].submitted == states[i].approvedList == Some(b)
    ensures states[i].stored.state in {Approved, Publishing, Published} ==>
              states[i].submitted == states[i].approvedList == Some(states[i].stored.mutations)
  {
    RunKeepsApprovalInv(states, steps, i);
  }
}
