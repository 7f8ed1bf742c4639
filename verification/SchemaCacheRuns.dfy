/**
  Queries, definition changes and invalidation events of one tenant, interleaved on one
  replica.  The definitions live in the shared database: a change may come from anywhere
  and bumps the persisted version by one, so version `v` means "the first v changes".

  A query reads the clock, resolves a version (from the memo or from the database, where
  the read and the write of the memo are separate steps), consults the cache, and builds
  when it must.  A build reads at least the definitions current when it starts.  Evictions
  happen at any time: which entry goes is the LRU's affair and does not matter here.
 */
module SchemaCacheRuns {
  import Traces
  import opened Options
  import opened SchemaCache

  /** A cached schema: the version it is tagged with, and the changes it is built from. */
  datatype Cached = Cached(gen: nat, built: nat)

  datatype Query =
    | Asked(access: string, at: int)                                // has read the clock
    | Reading(access: string, at: int)                              // memo missing or expired
    | Read(access: string, at: int, found: nat)                     // memo not yet written
    | Resolved(access: string, at: int, version: Option<nat>)       // None: the read failed
    | Building(access: string, at: int, version: Option<nat>, from: nat)
    | Served(at: int, version: Option<nat>, built: nat)

  datatype State = State(
    clock: int,
    changes: seq<int>,                 // when each definition change committed
    memo: Option<Memo>,
    cache: map<string, Cached>,
    queries: map<nat, Query>)

  datatype Step =
    | Tick(now: int)
    | Change
    | Handle
    | Ask(q: nat, access: string)
    | CheckMemo(q: nat)
    | ReadVersion(q: nat, ok: bool)
    | WriteMemo(q: nat)
    | Lookup(q: nat)
    | Finish(q: nat, built: nat)
    | Evict(access: string)
    | Leave(q: nat)                    // served and gone, or failed

  predicate Fresh(m: Option<Memo>, now: int, ttl: int) {
    m.Some? && ttl > 0 && now - m.value.fetchedAt < ttl
  }

  predicate Hit(s: State, q: Query)
    requires q.Resolved?
  {
    q.access in s.cache && (q.version.Some? ==> s.cache[q.access].gen == q.version.value)
  }

  predicate Enabled(s: State, step: Step) {
    match step
    case Tick(now) => s.clock <= now
    case Change => true
    case Handle => true
    case Ask(q, _) => q !in s.queries
    case CheckMemo(q) => q in s.queries && s.queries[q].Asked?
    case ReadVersion(q, _) => q in s.queries && s.queries[q].Reading?
    case WriteMemo(q) => q in s.queries && s.queries[q].Read?
    case Lookup(q) => q in s.queries && s.queries[q].Resolved?
    case Finish(q, built) => q in s.queries && s.queries[q].Building? && s.queries[q].from <= built <= |s.changes|
    case Evict(_) => true
    case Leave(q) => q in s.queries
  }

  function Do(s: State, ttl: int, step: Step): State
    requires Enabled(s, step)
  {
    match step
    case Tick(now) => s.(clock := now)
    case Change => s.(changes := s.changes + [s.clock])
    case Handle => s.(memo := None)
    case Ask(q, access) => s.(queries := s.queries[q := Asked(access, s.clock)])
    case CheckMemo(q) =>
      var a := s.queries[q];
      s.(queries := s.queries[q := if Fresh(s.memo, a.at, ttl) then Resolved(a.access, a.at, Some(s.memo.value.version))
                                   else Reading(a.access, a.at)])
    case ReadVersion(q, ok) =>
      var a := s.queries[q];
      s.(queries := s.queries[q := if ok then Read(a.access, a.at, |s.changes|) else Resolved(a.access, a.at, None)])
    case WriteMemo(q) =>
      var a := s.queries[q];
      s.(memo := Some(Memo(a.found, a.at)), queries := s.queries[q := Resolved(a.access, a.at, Some(a.found))])
    case Lookup(q) =>
      var a := s.queries[q];
      s.(queries := s.queries[q := if Hit(s, a) then Served(a.at, a.version, s.cache[a.access].built)
                                   else Building(a.access, a.at, a.version, |s.changes|)])
    case Finish(q, built) =>
      var a := s.queries[q];
      var gen := if a.version.Some? then a.version.value else 0;
      s.(cache := s.cache[a.access := Cached(gen, built)], queries := s.queries[q := Served(a.at, a.version, built)])
    case Evict(access) => s.(cache := s.cache - {access})
    case Leave(q) => s.(queries := s.queries - {q})
  }

  ghost predicate Next(s: State, ttl: int, step: Step, s': State) {
    Enabled(s, step) && s' == Do(s, ttl, step)
  }

  ghost predicate Init(s: State) {
    && s.memo == None && s.cache == map[] && s.queries == map[]
    && forall i :: 0 <= i < |s.changes| ==> s.changes[i] <= s.clock
  }

  ghost predicate IsRun(states: seq<State>, ttl: int, steps: seq<Step>) {
    && |states| == |steps| + 1 && Init(states[0])
    && forall i :: 0 <= i < |steps| ==> Next(states[i], ttl, steps[i], states[i + 1])
  }

  // --------------------------------------------------------------- staleness

  /** Version `v` contains every change committed before time `t`. */
  ghost predicate ContainsBefore(changes: seq<int>, v: nat, t: int) {
    v <= |changes| && forall i :: v <= i < |changes| ==> changes[i] >= t
  }

  /** What a query asking at `at` is owed: with a TTL, every change committed by `at - ttl`;
      without one, every change committed before it asked. */
  ghost predicate FreshEnough(changes: seq<int>, v: nat, at: int, ttl: int) {
    ContainsBefore(changes, v, if ttl > 0 then at - ttl + 1 else at)
  }

  ghost predicate QueryOk(s: State, ttl: int, q: Query) {
    && q.at <= s.clock
    && match q
       case Asked(_, _) => true
       case Reading(_, _) => true
       case Read(_, at, found) => ContainsBefore(s.changes, found, at)
       case Resolved(_, at, version) => version.Some? ==> FreshEnough(s.changes, version.value, at, ttl)
       case Building(_, at, version, from) =>
         from <= |s.changes| && (version.Some? ==> version.value <= from && FreshEnough(s.changes, version.value, at, ttl))
       case Served(at, version, built) =>
         built <= |s.changes| && (version.Some? ==> FreshEnough(s.changes, built, at, ttl))
  }

  ghost predicate Inv(s: State, ttl: int) {
    && (forall i :: 0 <= i < |s.changes| ==> s.changes[i] <= s.clock)
    && (s.memo.Some? ==> s.memo.value.fetchedAt <= s.clock && ContainsBefore(s.changes, s.memo.value.version, s.memo.value.fetchedAt))
    && (forall a :: a in s.cache ==> s.cache[a].gen <= s.cache[a].built <= |s.changes|)
    && (forall q :: q in s.queries ==> QueryOk(s, ttl, s.queries[q]))
  }

  /** What was fine for a query stays so while time passes and definitions change. */
  lemma QueryStaysOk(s: State, ttl: int, s': State, q: Query)
    requires QueryOk(s, ttl, q) && s.clock <= s'.clock
    requires s'.changes == s.changes || s'.changes == s.changes + [s.clock]
    ensures QueryOk(s', ttl, q)
  {
  }

  /** The query a step is about. */
  function Mover(step: Step): Option<nat> {
    match step
    case Ask(q, _) => Some(q)
    case CheckMemo(q) => Some(q)
    case ReadVersion(q, _) => Some(q)
    case WriteMemo(q) => Some(q)
    case Lookup(q) => Some(q)
    case Finish(q, _) => Some(q)
    case _ => None
  }

  lemma MoverIsOk(s: State, ttl: int, step: Step, s': State)
    requires Inv(s, ttl) && Next(s, ttl, step, s') && Mover(step).Some?
    ensures QueryOk(s', ttl, s'.queries[Mover(step).value])
  {
    match step {
      case CheckMemo(q) => assert QueryOk(s, ttl, s.queries[q]);
      case ReadVersion(q, _) => assert QueryOk(s, ttl, s.queries[q]);
      case WriteMemo(q) => assert QueryOk(s, ttl, s.queries[q]);
      case Lookup(q) => assert QueryOk(s, ttl, s.queries[q]);
      case Finish(q, _) => assert QueryOk(s, ttl, s.queries[q]);
      case _ =>
    }
  }

  lemma StepKeepsInv(s: State, ttl: int, step: Step, s': State)
    requires Inv(s, ttl) && Next(s, ttl, step, s')
    ensures Inv(s', ttl)
  {
    forall q | q in s'.queries ensures QueryOk(s', ttl, s'.queries[q]) {
      if Mover(step) == Some(q) {
        MoverIsOk(s, ttl, step, s');
      } else {
        QueryStaysOk(s, ttl, s', s.queries[q]);
      }
    }
    StoresStayOk(s, ttl, step, s');
  }

  lemma StoresStayOk(s: State, ttl: int, step: Step, s': State)
    requires Inv(s, ttl) && Next(s, ttl, step, s')
    ensures forall i :: 0 <= i < |s'.changes| ==> s'.changes[i] <= s'.clock
    ensures s'.memo.Some? ==> s'.memo.value.fetchedAt <= s'.clock && ContainsBefore(s'.changes, s'.memo.value.version, s'.memo.value.fetchedAt)
    ensures forall a :: a in s'.cache ==> s'.cache[a].gen <= s'.cache[a].built <= |s'.changes|
  {
    match step {
      case WriteMemo(q) => assert QueryOk(s, ttl, s.queries[q]);
      case Finish(q, _) => assert QueryOk(s, ttl, s.queries[q]);
      case _ =>
    }
  }

  lemma {:induction false} RunKeepsInv(states: seq<State>, ttl: int, steps: seq<Step>, i: nat)
    requires IsRun(states, ttl, steps) && i < |states|
    ensures Inv(states[i], ttl)
  {
    if i == 0 {
    } else {
      RunKeepsInv(states, ttl, steps, i - 1);
      StepKeepsInv(states[i - 1], ttl, steps[i - 1], states[i - 1 + 1]);
    }
  }

  /** A cached schema is never older than its tag. */
  lemma EntriesAreAtLeastTheirTag(states: seq<State>, ttl: int, steps: seq<Step>, i: nat, access: string)
    requires IsRun(states, ttl, steps) && i < |states| && access in states[i].cache
    ensures states[i].cache[access].gen <= states[i].cache[access].built <= |states[i].changes|
  {
    RunKeepsInv(states, ttl, steps, i);
  }

  /** A query whose version lookup succeeded is served a schema that contains every change
      committed at least a memo TTL before it asked (with no TTL: every change before it asked). */
  lemma ServedWithinTheTTL(states: seq<State>, ttl: int, steps: seq<Step>, i: nat, q: nat, c: nat)
    requires IsRun(states, ttl, steps) && i < |states| && q in states[i].queries
    requires states[i].queries[q].Served? && states[i].queries[q].version.Some?
    requires c < |states[i].changes|
    requires if ttl > 0 then states[i].changes[c] <= states[i].queries[q].at - ttl
             else states[i].changes[c] < states[i].queries[q].at
    ensures c < states[i].queries[q].built
  {
    RunKeepsInv(states, ttl, steps, i);
    assert QueryOk(states[i], ttl, states[i].queries[q]);
  }

  // ----------------------------------------------------- the event's promise

  ghost predicate IsTrace(states: seq<State>, ttl: int, steps: seq<Step>) {
    |states| == |steps| + 1 && forall i :: 0 <= i < |steps| ==> Next(states[i], ttl, steps[i], states[i + 1])
  }

  /** What a build in flight will tag its schema with. */
  function Tag(version: Option<nat>): nat {
    if version.Some? then version.value else 0
  }

  /** A schema from before the latest change is cached under this version, or about to be. */
  ghost predicate OldSchemaUnder(s: State, gen: nat) {
    || (exists a :: a in s.cache && s.cache[a].gen == gen && s.cache[a].built < |s.changes|)
    || (exists q :: q in s.queries && s.queries[q].Building? && Tag(s.queries[q].version) == gen && s.queries[q].from < |s.changes|)
  }

  /** A memo of this version, stamped at this time, would still be believed and find an old schema. */
  ghost predicate Harmful(s: State, ttl: int, found: nat, at: int) {
    ttl > 0 && s.clock - at < ttl && OldSchemaUnder(s, found)
  }

  /** A version read is under way whose answer would be such a memo. */
  ghost predicate Overtaken(s: State, ttl: int) {
    exists r :: r in s.queries && s.queries[r].Read? && Harmful(s, ttl, s.queries[r].found, s.queries[r].at)
  }

  /** From s, with the event handled first, some query asked later is served, at a version it looked
      up, a schema that lacks a change committed before the event. */
  ghost predicate Misses(s: State, ttl: int, states: seq<State>, steps: seq<Step>, q: nat) {
    && IsTrace(states, ttl, steps) && states[0] == s && steps != [] && steps[0] == Handle
    && q !in s.queries && q in states[|states| - 1].queries
    && var served := states[|states| - 1].queries[q];
    served.Served? && served.version.Some? && served.built < |s.changes|
  }

  ghost predicate CanMiss(s: State, ttl: int) {
    exists states, steps, q :: Misses(s, ttl, states, steps, q)
  }

  /** What holds from the event on when no harmful read was under way at `s`: the memo and the reads
      are harmless, every old schema is one `s` had, and no query asked since carries its version. */
  ghost predicate Shielded(s: State, ttl: int, t: State) {
    && s.clock <= t.clock && |s.changes| <= |t.changes|
    && (t.memo.Some? ==> !Harmful(s, ttl, t.memo.value.version, t.memo.value.fetchedAt))
    && (forall a :: a in t.cache ==> t.cache[a].built >= |s.changes| || OldSchemaUnder(s, t.cache[a].gen))
    && (forall q :: q in t.queries ==> QueryShielded(s, ttl, t.queries[q]) && (q !in s.queries ==> LateQueryShielded(s, t.queries[q])))
  }

  ghost predicate QueryShielded(s: State, ttl: int, q: Query) {
    match q
    case Read(_, at, found) => !Harmful(s, ttl, found, at)
    case Building(_, _, version, from) => from >= |s.changes| || OldSchemaUnder(s, Tag(version))
    case _ => true
  }

  ghost predicate LateQueryShielded(s: State, q: Query) {
    && q.at >= s.clock
    && match q
       case Read(_, _, found) => !OldSchemaUnder(s, found)
       case Resolved(_, _, version) => version.Some? ==> !OldSchemaUnder(s, version.value)
       case Building(_, _, _, from) => from >= |s.changes|
       case Served(_, version, built) => version.Some? ==> built >= |s.changes|
       case _ => true
  }

  /** Old schemas are tagged with old versions. */
  lemma OldSchemasAreOld(s: State, ttl: int, gen: nat)
    requires Inv(s, ttl) && OldSchemaUnder(s, gen)
    ensures gen < |s.changes|
  {
    if a :| a in s.cache && s.cache[a].gen == gen && s.cache[a].built < |s.changes| {
    } else {
      var q :| q in s.queries && s.queries[q].Building? && Tag(s.queries[q].version) == gen && s.queries[q].from < |s.changes|;
      assert QueryOk(s, ttl, s.queries[q]);
    }
  }

  lemma HandleShields(s: State, ttl: int)
    requires Inv(s, ttl) && !Overtaken(s, ttl)
    ensures Shielded(s, ttl, Do(s, ttl, Handle))
  {
    var t := Do(s, ttl, Handle);
    forall q | q in t.queries ensures QueryShielded(s, ttl, t.queries[q]) {
      if t.queries[q].Building? && t.queries[q].from < |s.changes| { assert OldSchemaUnder(s, Tag(s.queries[q].version)); }
    }
    forall a | a in t.cache && t.cache[a].built < |s.changes| ensures OldSchemaUnder(s, t.cache[a].gen) {}
  }

  /** The query that moves stays shielded. */
  lemma MoverIsShielded(s: State, ttl: int, t: State, step: Step, t': State)
    requires Inv(s, ttl) && Shielded(s, ttl, t) && Next(t, ttl, step, t') && Mover(step).Some?
    ensures var q := Mover(step).value;
      QueryShielded(s, ttl, t'.queries[q]) && (q !in s.queries ==> LateQueryShielded(s, t'.queries[q]))
  {
    match step {
      case ReadVersion(_, _) => if OldSchemaUnder(s, |t.changes|) { OldSchemasAreOld(s, ttl, |t.changes|); }
      case _ =>
    }
  }

  lemma StepKeepsShielded(s: State, ttl: int, t: State, step: Step, t': State)
    requires Inv(s, ttl) && Shielded(s, ttl, t) && Next(t, ttl, step, t')
    ensures Shielded(s, ttl, t')
  {
    forall q | q in t'.queries
      ensures QueryShielded(s, ttl, t'.queries[q]) && (q !in s.queries ==> LateQueryShielded(s, t'.queries[q]))
    {
      if Mover(step) == Some(q) {
        MoverIsShielded(s, ttl, t, step, t');
      } else {
        assert t'.queries[q] == t.queries[q];
      }
    }
    assert step.WriteMemo? ==> QueryShielded(s, ttl, t.queries[step.q]);
    assert step.Finish? ==> QueryShielded(s, ttl, t.queries[step.q]);
  }

  lemma {:induction false} TraceStaysShielded(s: State, ttl: int, states: seq<State>, steps: seq<Step>, i: nat)
    requires Inv(s, ttl) && !Overtaken(s, ttl)
    requires IsTrace(states, ttl, steps) && states[0] == s && steps != [] && steps[0] == Handle && 1 <= i < |states|
    ensures Shielded(s, ttl, states[i])
  {
    if i == 1 {
      HandleShields(s, ttl);
      assert Next(states[0], ttl, steps[0], states[0 + 1]);
    } else {
      TraceStaysShielded(s, ttl, states, steps, i - 1);
      StepKeepsShielded(s, ttl, states[i - 1], steps[i - 1], states[i - 1 + 1]);
    }
  }

  lemma {:induction false} UnusedId(ids: set<nat>) returns (n: nat)
    ensures forall i :: i in ids ==> i < n
  {
    if ids == {} {
      n := 0;
    } else {
      var i :| i in ids;
      var m := UnusedId(ids - {i});
      n := if m <= i then i + 1 else m;
      assert forall j :: j in ids ==> j == i || j in ids - {i};
    }
  }

  /** The overtaken read writes its memo, and a query asked next believes it. */
  lemma ServedFromTheOldMemo(s: State, ttl: int, r: nat, access: string, n: nat) returns (states: seq<State>, steps: seq<Step>)
    requires ttl > 0 && r in s.queries && n !in s.queries && s.queries[r].Read? && s.clock - s.queries[r].at < ttl
    requires access in s.cache && s.cache[access].gen == s.queries[r].found
    ensures IsTrace(states, ttl, steps) && |steps| == 4 && states[0] == s
    ensures n in states[4].queries && states[4].queries[n] == Served(s.clock, Some(s.queries[r].found), s.cache[access].built)
  {
    steps := [WriteMemo(r), Ask(n, access), CheckMemo(n), Lookup(n)];
    var s1 := Do(s, ttl, steps[0]);
    var s2 := Do(s1, ttl, steps[1]);
    var s3 := Do(s2, ttl, steps[2]);
    var s4 := Do(s3, ttl, steps[3]);
    states := [s, s1, s2, s3, s4];
  }

  /** The event is handled, and if the old schema is only being built, it is finished. */
  lemma OldSchemaGetsCached(s: State, ttl: int, gen: nat) returns (states: seq<State>, steps: seq<Step>, access: string)
    requires OldSchemaUnder(s, gen)
    ensures IsTrace(states, ttl, steps) && states[0] == s && steps != [] && steps[0] == Handle
    ensures var e := states[|states| - 1];
      && e.clock == s.clock && e.queries.Keys == s.queries.Keys
      && (forall q :: q in s.queries && s.queries[q].Read? ==> e.queries[q] == s.queries[q])
      && access in e.cache && e.cache[access].gen == gen && e.cache[access].built < |s.changes|
  {
    var s1 := Do(s, ttl, Handle);
    if a :| a in s.cache && s.cache[a].gen == gen && s.cache[a].built < |s.changes| {
      states, steps, access := [s, s1], [Handle], a;
    } else {
      var q :| q in s.queries && s.queries[q].Building? && Tag(s.queries[q].version) == gen && s.queries[q].from < |s.changes|;
      var finish := Finish(q, s.queries[q].from);
      states, steps, access := [s, s1, Do(s1, ttl, finish)], [Handle, finish], s.queries[q].access;
    }
  }

  /** The exact condition: a query asked after the event can miss a change committed before it if and
      only if, when the event is handled, a version read is under way that will leave a memo young
      enough to be believed, with a schema from before the change cached or being built under it. */
  lemma MissesExactlyWhenOvertaken(s: State, ttl: int)
    requires Inv(s, ttl)
    ensures CanMiss(s, ttl) <==> Overtaken(s, ttl)
  {
    if Overtaken(s, ttl) {
      var r :| r in s.queries && s.queries[r].Read? && Harmful(s, ttl, s.queries[r].found, s.queries[r].at);
      var xs, p, access := OldSchemaGetsCached(s, ttl, s.queries[r].found);
      var n := UnusedId(s.queries.Keys);
      var ys, q := ServedFromTheOldMemo(xs[|xs| - 1], ttl, r, access, n);
      TracesJoin(xs, p, ys, q, ttl);
      assert (xs + ys[1..])[|xs + ys[1..]| - 1] == ys[4];
      assert Misses(s, ttl, xs + ys[1..], p + q, n);
    } else if CanMiss(s, ttl) {
      var states: seq<State>, steps: seq<Step>, q: nat :| Misses(s, ttl, states, steps, q);
      TraceStaysShielded(s, ttl, states, steps, |states| - 1);
      assert false;
    }
  }

  /** So the promise is kept in every run where no such read is under way: once the event is handled,
      every query asked later that resolves a version is served all changes so far. */
  lemma HandledChangeIsSeen(states: seq<State>, ttl: int, steps: seq<Step>, h: nat, i: nat, q: nat)
    requires IsRun(states, ttl, steps) && h < i < |states| && steps[h] == Handle
    requires !Overtaken(states[h], ttl)
    requires q !in states[h].queries && q in states[i].queries
    requires states[i].queries[q].Served? && states[i].queries[q].version.Some?
    ensures states[i].queries[q].built >= |states[h].changes|
  {
    if states[i].queries[q].built < |states[h].changes| {
      MissInARun(states, ttl, steps, h, i, q);
      RunKeepsInv(states, ttl, steps, h);
      MissesExactlyWhenOvertaken(states[h], ttl);
    }
  }

  /** Such a query, in a run, is a miss of the run from the event on. */
  lemma MissInARun(states: seq<State>, ttl: int, steps: seq<Step>, h: nat, i: nat, q: nat)
    requires IsRun(states, ttl, steps) && h < i < |states| && steps[h] == Handle
    requires q !in states[h].queries && q in states[i].queries
    requires states[i].queries[q].Served? && states[i].queries[q].version.Some?
    requires states[i].queries[q].built < |states[h].changes|
    ensures CanMiss(states[h], ttl)
  {
    var xs, p := states[h..i + 1], steps[h..i];
    forall k | 0 <= k < |p| ensures Next(xs[k], ttl, p[k], xs[k + 1]) {
      assert Next(states[h + k], ttl, steps[h + k], states[h + k + 1]);
    }
    assert Misses(states[h], ttl, xs, p, q);
  }

  /** A query that finds nothing cached and no usable memo, up to the cache entry it leaves. */
  lemma ColdQuery(s: State, ttl: int, access: string) returns (states: seq<State>, steps: seq<Step>)
    requires s.queries == map[] && access !in s.cache && !Fresh(s.memo, s.clock, ttl)
    ensures IsTrace(states, ttl, steps) && states[0] == s
    ensures states[|states| - 1] == s.(memo := Some(Memo(|s.changes|, s.clock)),
                                       cache := s.cache[access := Cached(|s.changes|, |s.changes|)])
  {
    var xs, p := ColdResolve(s, ttl, access);
    var ys, q := ColdBuild(xs[4], ttl, access);
    TracesJoin(xs, p, ys, q, ttl);
    states, steps := xs + ys[1..], p + q;
    assert states[|states| - 1] == ys[3];
  }

  lemma ColdResolve(s: State, ttl: int, access: string) returns (states: seq<State>, steps: seq<Step>)
    requires s.queries == map[] && !Fresh(s.memo, s.clock, ttl)
    ensures IsTrace(states, ttl, steps) && |steps| == 4 && states[0] == s
    ensures states[4] == s.(memo := Some(Memo(|s.changes|, s.clock)), queries := map[0 := Resolved(access, s.clock, Some(|s.changes|))])
  {
    steps := [Ask(0, access), CheckMemo(0), ReadVersion(0, true), WriteMemo(0)];
    var s1 := Do(s, ttl, steps[0]);
    var s2 := Do(s1, ttl, steps[1]);
    var s3 := Do(s2, ttl, steps[2]);
    var s4 := Do(s3, ttl, steps[3]);
    states := [s, s1, s2, s3, s4];
  }

  lemma ColdBuild(s: State, ttl: int, access: string) returns (states: seq<State>, steps: seq<Step>)
    requires s.queries == map[0 := Resolved(access, s.clock, Some(|s.changes|))] && access !in s.cache
    ensures IsTrace(states, ttl, steps) && |steps| == 3 && states[0] == s
    ensures states[3] == s.(queries := map[], cache := s.cache[access := Cached(|s.changes|, |s.changes|)])
  {
    steps := [Lookup(0), Finish(0, |s.changes|), Leave(0)];
    var s1 := Do(s, ttl, steps[0]);
    var s2 := Do(s1, ttl, steps[1]);
    var s3 := Do(s2, ttl, steps[2]);
    assert s3.queries == map[];
    states := [s, s1, s2, s3];
  }

  /** A version read overtaken by a change and its event writes the old version back, and a query
      asked after the event is still served the old schema. */
  lemma OvertakenRead(s: State, ttl: int, access: string, other: string) returns (states: seq<State>, steps: seq<Step>)
    requires s.queries == map[] && ttl > 0 && !Fresh(s.memo, s.clock, ttl)
    requires access in s.cache && s.cache[access] == Cached(|s.changes|, |s.changes|)
    ensures IsTrace(states, ttl, steps) && states[0] == s && |steps| == 9 && steps[4] == Handle
    ensures 2 !in states[4].queries && |states[4].changes| == |s.changes| + 1
    ensures var e := states[9]; 2 in e.queries && e.queries[2] == Served(s.clock, Some(|s.changes|), |s.changes|)
  {
    var xs, p := ReadThenChange(s, ttl, other);
    var ys, q := ServedFromTheOldMemo(xs[5], ttl, 1, access, 2);
    TracesJoin(xs, p, ys, q, ttl);
    states, steps := xs + ys[1..], p + q;
  }

  lemma TracesJoin(xs: seq<State>, p: seq<Step>, ys: seq<State>, q: seq<Step>, ttl: int)
    requires IsTrace(xs, ttl, p) && IsTrace(ys, ttl, q) && xs[|xs| - 1] == ys[0]
    ensures IsTrace(xs + ys[1..], ttl, p + q)
  {
    Traces.Join((s, step, s') => Next(s, ttl, step, s'), xs, p, ys, q);
  }

  /** A query reads the version and stalls; a change and its event go by. */
  lemma ReadThenChange(s: State, ttl: int, other: string) returns (states: seq<State>, steps: seq<Step>)
    requires s.queries == map[] && !Fresh(s.memo, s.clock, ttl)
    ensures IsTrace(states, ttl, steps) && |steps| == 5 && states[0] == s && steps[4] == Handle
    ensures states[4].queries == states[5].queries == map[1 := Read(other, s.clock, |s.changes|)]
    ensures states[4].changes == states[5].changes && |states[4].changes| == |s.changes| + 1
    ensures states[5].clock == s.clock && states[5].cache == s.cache && states[5].memo == None
  {
    steps := [Ask(1, other), CheckMemo(1), ReadVersion(1, true), Change, Handle];
    var s1 := Do(s, ttl, steps[0]);
    var s2 := Do(s1, ttl, steps[1]);
    var s3 := Do(s2, ttl, steps[2]);
    var s4 := Do(s3, ttl, steps[3]);
    var s5 := Do(s4, ttl, steps[4]);
    states := [s, s1, s2, s3, s4, s5];
  }

  /** So the event alone does not make the replica see its own change at once: with a read under
      way, a query asked after the event can miss a change committed before it. */
  lemma HandledChangeCanBeMissed(ttl: int) returns (states: seq<State>, steps: seq<Step>, h: nat)
    requires ttl > 0
    ensures IsRun(states, ttl, steps) && h < |steps| && steps[h] == Handle
    ensures 2 !in states[h].queries
    ensures 2 in states[|states| - 1].queries
    ensures var q := states[|states| - 1].queries[2]; q.Served? && q.version.Some? && q.built < |states[h].changes|
  {
    var s := State(0, [], None, map[], map[]);
    var xs, p := ColdQuery(s, ttl, "admin");
    var idle := Do(xs[|xs| - 1], ttl, Tick(ttl));
    var ys, q := OvertakenRead(idle, ttl, "admin", "viewer");
    states, steps, h := xs + ys, p + [Tick(ttl)] + q, |p| + 1 + 4;
    forall i | 0 <= i < |steps| ensures Next(states[i], ttl, steps[i], states[i + 1]) {
      if i < |p| {
        assert Next(xs[i], ttl, p[i], xs[i + 1]);
      } else if i > |p| {
        var k := i - |p| - 1;
        assert states[i] == ys[k] && states[i + 1] == ys[k + 1] && steps[i] == q[k];
        assert Next(ys[k], ttl, q[k], ys[k + 1]);
      }
    }
  }
}
