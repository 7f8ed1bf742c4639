/**
  Change-sets: a reviewable batch of value mutations, its compare-and-swap store and
  the usecases over it.  The decisions are functions of a record; the usecases load a
  record, decide, and write it back; ChangeSetRuns interleaves their steps.
 */
module ChangeSets {
  import opened Options
  import opened Mutations

  datatype Stage = Draft | InReview | Approved | Publishing | Published | Rejected

  datatype ChangeSet = ChangeSet(
    state: Stage,
    requireApproval: bool,
    author: string,
    approver: string,
    mutations: seq<Mutation>,
    publishAt: Option<int>,
    updatedAt: int,
    publishedAt: Option<int>,
    version: nat)

  datatype Refusal =
    | NotADraft | UnknownKind | NotWritable | NoMutations | NotInReview
    | ApproverUnidentified | ApproverIsAuthor | AlreadyPublished | ClaimHeld | NotPublishable

  datatype Decision = Write(record: ChangeSet) | Refuse(why: Refusal)

  /** Seconds a publish claim is honoured. */
  const PUBLISH_CLAIM_TTL := 15 * 60

  // ---------------------------------------------------------------- decisions

  /** What the four usecases that go through `mutate` do. `writable` is the field ACL's answer. */
  datatype Edit = AddMutation(m: Mutation, writable: bool) | Submit | Approve(actor: string) | Reject

  function Decide(edit: Edit, cs: ChangeSet): Decision {
    match edit
    case AddMutation(m, writable) =>
      if cs.state != Draft then Refuse(NotADraft)
      else if m.kind != "set" && m.kind != "remove" then Refuse(UnknownKind)
      else if !writable then Refuse(NotWritable)
      else Write(cs.(mutations := cs.mutations + [m]))
    case Submit =>
      if cs.state != Draft then Refuse(NotADraft)
      else if cs.mutations == [] then Refuse(NoMutations)
      else Write(cs.(state := InReview))
    case Approve(actor) =>
      if cs.state != InReview then Refuse(NotInReview)
      else if cs.requireApproval && actor == "" then Refuse(ApproverUnidentified)
      else if cs.requireApproval && actor == cs.author then Refuse(ApproverIsAuthor)
      else Write(cs.(state := Approved, approver := actor))
    case Reject =>
      if cs.state == Published then Refuse(AlreadyPublished)
      else if cs.state == Publishing then Refuse(ClaimHeld)
      else Write(cs.(state := Rejected))
  }

  /** The claim a publish writes first: checked at time `seen`, stamped at time `stamped`. */
  function Claim(cs: ChangeSet, seen: int, stamped: int): Decision {
    var claimed := Write(cs.(state := Publishing, updatedAt := stamped));
    match cs.state
    case Approved => claimed
    case Draft => if cs.requireApproval then Refuse(NotPublishable) else claimed
    case InReview => if cs.requireApproval then Refuse(NotPublishable) else claimed
    case Publishing => if seen - cs.updatedAt < PUBLISH_CLAIM_TTL then Refuse(ClaimHeld) else claimed
    case Published => Refuse(NotPublishable)
    case Rejected => Refuse(NotPublishable)
  }

  /** What hands a failed claim back; a reclaimed one does not go back to publishing. */
  function Release(loaded: ChangeSet, claimed: ChangeSet, now: int): ChangeSet {
    claimed.(state := if loaded.state == Publishing then Approved else loaded.state, updatedAt := now)
  }

  function Finalise(claimed: ChangeSet, now: int): ChangeSet {
    claimed.(state := Published, publishedAt := Some(now), updatedAt := now)
  }

  /** The row an update that wins leaves behind; the author column is never written. */
  function Swapped(stored: ChangeSet, cs: ChangeSet): ChangeSet {
    cs.(author := stored.author, version := stored.version + 1)
  }

  // ----------------------------------------------------------------- usecases

  /** Approved with its publish time arrived, or publishing under a claim gone stale. */
  predicate DueBy(cs: ChangeSet, now: int) {
    (cs.state == Approved && cs.publishAt.Some? && cs.publishAt.value <= now) ||
    (cs.state == Publishing && cs.updatedAt <= now - PUBLISH_CLAIM_TTL)
  }

  // ------------------------------------------------ the decisions, field by field

  /** What an edit may write, said of the record before and after. */
  ghost predicate EditDone(edit: Edit, before: ChangeSet, after: ChangeSet) {
    && after.requireApproval == before.requireApproval && after.author == before.author && after.publishAt == before.publishAt
    && after.publishedAt == before.publishedAt && after.version == before.version + 1
    && (match edit
        case AddMutation(m, _) =>
          before.state == Draft == after.state && after.approver == before.approver
          && |after.mutations| == |before.mutations| + 1 && before.mutations <= after.mutations && after.mutations[|before.mutations|] == m
        case Submit =>
          before.state == Draft && after.state == InReview && after.approver == before.approver && after.mutations == before.mutations
        case Approve(actor) =>
          before.state == InReview && after.state == Approved && after.approver == actor && after.mutations == before.mutations
        case Reject =>
          after.state == Rejected && after.approver == before.approver && after.mutations == before.mutations)
  }

  /** When an edit is let through, said of the record and the caller. */
  ghost predicate MayEdit(edit: Edit, cs: ChangeSet) {
    match edit
    case AddMutation(m, writable) => cs.state == Draft && m.kind in {"set", "remove"} && writable
    case Submit => cs.state == Draft && |cs.mutations| > 0
    case Approve(actor) => cs.state == InReview && (cs.requireApproval ==> |actor| > 0 && actor != cs.author)
    case Reject => cs.state !in {Published, Publishing}
  }

  /** When a publish is let through: approved, or needing no approval and not decided yet, or abandoned for
      the time a claim is honoured. */
  ghost predicate MayClaim(cs: ChangeSet, seen: int) {
    || cs.state == Approved
    || (!cs.requireApproval && cs.state in {Draft, InReview})
    || (cs.state == Publishing && seen >= cs.updatedAt + PUBLISH_CLAIM_TTL)
  }

  /** The reason an edit is refused for is one that holds. */
  ghost predicate Holds(why: Refusal, edit: Edit, cs: ChangeSet) {
    match why
    case NotADraft => (edit.AddMutation? || edit.Submit?) && cs.state != Draft
    case UnknownKind => edit.AddMutation? && edit.m.kind !in {"set", "remove"}
    case NotWritable => edit.AddMutation? && !edit.writable
    case NoMutations => edit.Submit? && |cs.mutations| == 0
    case NotInReview => edit.Approve? && cs.state != InReview
    case ApproverUnidentified => edit.Approve? && cs.requireApproval && |edit.actor| == 0
    case ApproverIsAuthor => edit.Approve? && cs.requireApproval && edit.actor == cs.author
    case AlreadyPublished => edit.Reject? && cs.state == Published
    case ClaimHeld => edit.Reject? && cs.state == Publishing
    case NotPublishable => false
  }

  lemma DecideExactly(edit: Edit, cs: ChangeSet, now: int)
    ensures Decide(edit, cs).Write? <==> MayEdit(edit, cs)
    ensures Decide(edit, cs).Write? ==> EditDone(edit, cs, Decide(edit, cs).record.(updatedAt := now, version := cs.version + 1))
    ensures Decide(edit, cs).Refuse? ==> Holds(Decide(edit, cs).why, edit, cs)
  {
  }

  lemma ClaimExactly(cs: ChangeSet, seen: int, stamped: int)
    ensures Claim(cs, seen, stamped).Write? <==> MayClaim(cs, seen)
    ensures Claim(cs, seen, stamped).Write? ==> Claim(cs, seen, stamped).record == cs.(state := Publishing, updatedAt := stamped)
  {
  }

  /** A claim is honoured for fifteen minutes to the second. */
  lemma AClaimLastsFifteenMinutes(cs: ChangeSet)
    requires cs.state == Publishing && cs.updatedAt == 0
    ensures Claim(cs, 899, 899) == Refuse(ClaimHeld) && Claim(cs, 900, 900).Write?
    ensures !DueBy(cs, 899) && DueBy(cs, 900)
  {
  }

  /** A tick has nothing to do with this set: not approved with its time arrived, and not abandoned. */
  ghost predicate NotYetDue(cs: ChangeSet, now: int) {
    match cs.state
    case Approved => cs.publishAt.None? || now < cs.publishAt.value
    case Publishing => now < cs.updatedAt + PUBLISH_CLAIM_TTL
    case _ => true
  }

  lemma DueExactly(cs: ChangeSet, now: int)
    ensures DueBy(cs, now) <==> !NotYetDue(cs, now)
  {
  }

  /** The record a publish leaves: published with its own list, or the claim handed back. */
  ghost predicate PublishedFrom(before: ChangeSet, after: ChangeSet) {
    after == before.(state := Published, publishedAt := Some(after.updatedAt), updatedAt := after.updatedAt, version := before.version + 2)
  }

  ghost predicate ReturnedFrom(before: ChangeSet, after: ChangeSet) {
    after == before.(state := if before.state == Publishing then Approved else before.state, updatedAt := after.updatedAt, version := before.version + 2)
  }

  class Interactor {
    var sets: map<nat, ChangeSet>
    var clock: int
    /** Every batch `ApplyMutations` committed, with the set it came from. */
    var committed: seq<(nat, seq<Mutation>)>

    constructor ()
      ensures sets == map[] && committed == []
    {
      sets := map[];
      committed := [];
      clock := 0;
    }

    /** A clock reading; the clock never runs backwards. */
    method Now() returns (t: int)
      modifies this`clock
      ensures t == clock && old(clock) <= clock
    {
      var passed :| passed >= 0;
      clock := clock + passed;
      t := clock;
    }

    /** The compare-and-swap: persists only over the version the caller loaded. */
    method Update(id: nat, cs: ChangeSet) returns (ok: bool)
      modifies this`sets
      ensures ok <==> id in old(sets) && old(sets)[id].version == cs.version
      ensures sets == if ok then old(sets)[id := Swapped(old(sets)[id], cs)] else old(sets)
    {
      if id !in sets || sets[id].version != cs.version { return false; }
      sets := sets[id := Swapped(sets[id], cs)];
      ok := true;
    }

    /** Load, decide, persist. */
    method Mutate(id: nat, edit: Edit) returns (out: Option<Decision>)
      modifies this`sets, this`clock
      ensures out.None? <==> id !in old(sets)
      ensures out.Some? && out.value.Refuse? ==> sets == old(sets) && out.value == Decide(edit, old(sets)[id])
      ensures out.Some? && out.value.Write? ==>
        && Decide(edit, old(sets)[id]).Write?
        && sets == old(sets)[id := out.value.record]
        && out.value.record == Decide(edit, old(sets)[id]).record.(updatedAt := clock, version := old(sets)[id].version + 1)
      ensures out.Some? ==> (out.value.Write? <==> MayEdit(edit, old(sets)[id]))
      ensures out.Some? && out.value.Write? ==> EditDone(edit, old(sets)[id], sets[id])
      ensures out.Some? && out.value.Refuse? ==> Holds(out.value.why, edit, old(sets)[id])
    {
      if id !in sets { return None; }
      var decision := Decide(edit, sets[id]);
      match decision {
        case Refuse(_) =>
          DecideExactly(edit, sets[id], clock);
          return Some(decision);
        case Write(record) =>
          var now := Now();
          DecideExactly(edit, sets[id], now);
          var cs := record.(updatedAt := now);
          var ok := Update(id, cs);
          return Some(Write(cs.(version := cs.version + 1)));
      }
    }

    /** `ApplyMutations`: one transaction, so its batch is committed whole or not at all. */
    method ApplyMutations(id: nat, batch: seq<Mutation>) returns (ok: bool)
      modifies this`committed
      ensures committed == if ok then old(committed) + [(id, batch)] else old(committed)
    {
      ok := *;
      if ok { committed := committed + [(id, batch)]; }
    }

    /** The publish of a set loaded as `cs`. If the record has moved on since, nothing happens. Otherwise it
        commits the set's batch once and ends published, or commits nothing and hands the claim back. */
    method Publish(id: nat, cs: ChangeSet) returns (published: bool)
      modifies this
      ensures old(clock) <= clock && sets.Keys == old(sets.Keys)
      ensures forall i :: i in sets && i != id ==> sets[i] == old(sets)[i]
      ensures committed == if published then old(committed) + [(id, cs.mutations)] else old(committed)
      ensures !Current(old(sets), id, cs) ==> !published && sets == old(sets)
      ensures published ==> sets[id].state == Published && sets[id].mutations == cs.mutations
      ensures published ==> PublishedFrom(cs.(author := old(sets)[id].author), sets[id])
      ensures !published && id in sets ==> sets[id] == old(sets)[id] || ReturnedFrom(cs.(author := old(sets)[id].author), sets[id])
      ensures Current(old(sets), id, cs) && MayClaim(cs, old(clock)) ==> sets[id].version >= cs.version + 2
      ensures !MayClaim(cs, clock) ==> !published && sets == old(sets)
    {
      var seen := Now();
      var stamped := Now();
      var claim := Claim(cs, seen, stamped);
      if claim.Refuse? { return false; }
      var claimed := claim.record;
      var ok := Update(id, claimed);
      if !ok { return false; }
      claimed := claimed.(version := claimed.version + 1);
      ok := ApplyMutations(id, claimed.mutations);
      var now := Now();
      if !ok {
        var released := Update(id, Release(cs, claimed, now));
        return false;
      }
      published := Update(id, Finalise(claimed, now));
    }

    /** The scheduler's tick. It reads the clock and lists the sets that are due by then; `rival` is what
        somebody else writes to a listed set before the tick reaches it.  What becomes of each set, and
        which batches are committed, is said set by set. */
    method PublishDue(rival: nat -> Option<ChangeSet>) returns (count: nat, ghost at: int)
      modifies this
      ensures old(clock) <= at <= clock && sets.Keys == old(sets.Keys)
      ensures old(committed) <= committed && |committed| == old(|committed|) + count
      ensures OneBatchEach(committed[old(|committed|)..])
      ensures forall b :: b in committed[old(|committed|)..] ==> b.0 in sets
      ensures forall i :: i in sets ==> TickLeaves(i, old(sets)[i], sets[i], rival(i), at, committed[old(|committed|)..])
    {
      var now := Now();
      at := now;
      var listed := sets;
      var due := set i | i in sets && DueBy(sets[i], now);
      ghost var done := committed;
      count := 0;
      TickStarts(sets, rival, now, due);
      assert committed[|done|..] == [];
      while due != {}
        invariant now <= clock && done <= committed && |committed| == |done| + count
        invariant TickedSoFar(listed, sets, rival, now, due, committed[|done|..])
        decreases due
      {
        var id :| id in due;
        ghost var before, made := sets, committed[|done|..];
        TurnIsDue(listed, sets, rival, now, due, made, id);
        var published := TickOne(id, listed[id], rival, now);
        if published { count := count + 1; }
        assert committed[|done|..] == if published then made + [(id, listed[id].mutations)] else made;
        TickGoesOn(listed, before, sets, rival, now, due, made, id, published);
        due := due - {id};
      }
    }

    /** One listed set's turn. */
    method TickOne(id: nat, cs: ChangeSet, rival: nat -> Option<ChangeSet>, ghost now: int) returns (published: bool)
      requires id in sets && sets[id] == cs && DueBy(cs, now) && now <= clock
      modifies this
      ensures old(clock) <= clock && sets.Keys == old(sets.Keys)
      ensures forall i :: i in sets && i != id ==> sets[i] == old(sets)[i]
      ensures Ticked(cs, sets[id], rival(id))
      ensures committed == if published then old(committed) + [(id, cs.mutations)] else old(committed)
      ensures if published then rival(id).None? && PublishedFrom(cs, sets[id]) else rival(id).None? ==> ReturnedFrom(cs, sets[id])
    {
      RivalWrites(id, rival(id));
      published := Publish(id, cs);
    }

    /** Somebody else's update of a set, over the version that is there. */
    method RivalWrites(id: nat, record: Option<ChangeSet>)
      requires id in sets
      modifies this`sets
      ensures sets == if record.Some? then old(sets)[id := Swapped(old(sets)[id], record.value)] else old(sets)
    {
      if record.Some? {
        var ok := Update(id, record.value.(version := sets[id].version));
      }
    }
  }

  /** The record is still the version that was loaded. */
  predicate Current(sets: map<nat, ChangeSet>, id: nat, cs: ChangeSet) {
    id in sets && sets[id].version == cs.version
  }

  /** What a tick leaves of a set it listed: what a rival wrote, or the set published or handed back. */
  ghost predicate Ticked(before: ChangeSet, after: ChangeSet, rival: Option<ChangeSet>) {
    match rival
    case Some(record) => after == record.(author := before.author, version := before.version + 1)
    case None => PublishedFrom(before, after) || ReturnedFrom(before, after)
  }

  /** No set's batch twice. */
  ghost predicate OneBatchEach(batches: seq<(nat, seq<Mutation>)>) {
    forall j, k :: 0 <= j < k < |batches| ==> batches[j].0 != batches[k].0
  }

  /** What a tick leaves of one set: nothing is done to it before its time; then it is the rival's, or it is
      published and its list committed, or it is handed back and nothing committed. */
  ghost predicate TickLeaves(id: nat, before: ChangeSet, after: ChangeSet, rival: Option<ChangeSet>, now: int,
                             batches: seq<(nat, seq<Mutation>)>) {
    if NotYetDue(before, now) then after == before && NoBatch(id, batches)
    else if rival.Some? then Ticked(before, after, rival) && NoBatch(id, batches)
    else
      || (PublishedFrom(before, after) && (id, before.mutations) in batches)
      || (ReturnedFrom(before, after) && NoBatch(id, batches))
  }

  ghost predicate NoBatch(id: nat, batches: seq<(nat, seq<Mutation>)>) {
    forall b :: b in batches ==> b.0 != id
  }

  /** The listed sets have had their turn, or are as they were listed. */
  ghost predicate TickedSoFar(listed: map<nat, ChangeSet>, sets: map<nat, ChangeSet>, rival: nat -> Option<ChangeSet>, now: int,
                              due: set<nat>, batches: seq<(nat, seq<Mutation>)>) {
    && due <= listed.Keys == sets.Keys && OneBatchEach(batches) && (forall b :: b in batches ==> b.0 in sets)
    && forall i :: i in sets ==>
         if i in due then sets[i] == listed[i] && !NotYetDue(listed[i], now) && NoBatch(i, batches)
         else TickLeaves(i, listed[i], sets[i], rival(i), now, batches)
  }

  lemma TickStarts(sets: map<nat, ChangeSet>, rival: nat -> Option<ChangeSet>, now: int, due: set<nat>)
    requires due == set i | i in sets && DueBy(sets[i], now)
    ensures TickedSoFar(sets, sets, rival, now, due, [])
  {
    forall i | i in sets ensures i in due <==> !NotYetDue(sets[i], now) { DueExactly(sets[i], now); }
  }

  lemma TurnIsDue(listed: map<nat, ChangeSet>, sets: map<nat, ChangeSet>, rival: nat -> Option<ChangeSet>, now: int,
                  due: set<nat>, batches: seq<(nat, seq<Mutation>)>, id: nat)
    requires TickedSoFar(listed, sets, rival, now, due, batches) && id in due
    ensures id in sets && id in listed && sets[id] == listed[id] && DueBy(listed[id], now)
  {
    DueExactly(listed[id], now);
  }

  lemma TickGoesOn(listed: map<nat, ChangeSet>, sets: map<nat, ChangeSet>, after: map<nat, ChangeSet>, rival: nat -> Option<ChangeSet>,
                   now: int, due: set<nat>, batches: seq<(nat, seq<Mutation>)>, id: nat, published: bool)
    requires TickedSoFar(listed, sets, rival, now, due, batches) && id in due && id in listed
    requires after.Keys == sets.Keys && forall i :: i in after && i != id ==> after[i] == sets[i]
    requires if published then rival(id).None? && PublishedFrom(listed[id], after[id])
             else Ticked(listed[id], after[id], rival(id)) && (rival(id).None? ==> ReturnedFrom(listed[id], after[id]))
    ensures TickedSoFar(listed, after, rival, now, due - {id}, if published then batches + [(id, listed[id].mutations)] else batches)
  {
    var more := if published then batches + [(id, listed[id].mutations)] else batches;
    if published { assert more[|batches|] == (id, listed[id].mutations); }
    forall i | i in after
      ensures if i in due - {id} then after[i] == listed[i] && !NotYetDue(listed[i], now) && NoBatch(i, more)
              else TickLeaves(i, listed[i], after[i], rival(i), now, more)
    {
    }
  }
}
