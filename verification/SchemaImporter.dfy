/**
  The import as it runs: lookups by name from maps loaded at the start of each phase and kept in step
  with every creation, against the run over the tenant itself.
 */
module SchemaImporter {
  import opened Options
  import opened TypeOrder
  import opened SchemaImport

  datatype KindCount = KindCount(created: nat, skipped: nat)
  datatype ImportResult = ImportResult(types: KindCount, attributes: KindCount, relationships: KindCount, dependencies: KindCount)

  function Created(res: ImportResult): nat {
    res.types.created + res.attributes.created + res.relationships.created + res.dependencies.created
  }

  // ------------------------------------------------------------ what is loaded

  function TypeIds(s: Tenant): map<string, nat> {
    map n | n in s.types :: s.types[n].id
  }

  function AttributeIds(s: Tenant): map<AttrKey, nat> {
    map k | k in s.attributes :: s.attributes[k].id
  }

  /** Identifiers are never reused. */
  ghost predicate AttributeIdsDiffer(s: Tenant) {
    && (forall k :: k in s.attributes ==> s.attributes[k].id < s.nextId)
    && (forall k, l :: k in s.attributes && l in s.attributes && s.attributes[k].id == s.attributes[l].id ==> k == l)
  }

  ghost predicate FamiliesLoaded(s: Tenant, familyIds: map<nat, Option<nat>>) {
    forall k :: k in s.attributes ==> s.attributes[k].id in familyIds && familyIds[s.attributes[k].id] == s.attributes[k].familyId
  }

  method LoadFamilies(s: Tenant) returns (familyIds: map<nat, Option<nat>>)
    requires AttributeIdsDiffer(s)
    ensures FamiliesLoaded(s, familyIds)
  {
    familyIds := map[];
    var todo := s.attributes.Keys;
    while todo != {}
      invariant todo <= s.attributes.Keys
      invariant forall k :: k in s.attributes.Keys - todo ==> s.attributes[k].id in familyIds && familyIds[s.attributes[k].id] == s.attributes[k].familyId
      decreases todo
    {
      var k :| k in todo;
      familyIds := familyIds[s.attributes[k].id := s.attributes[k].familyId];
      todo := todo - {k};
    }
  }

  ghost predicate AttributesLoaded(s: Tenant, ids: map<AttrKey, nat>, familyIds: map<nat, Option<nat>>) {
    AttributeIdsDiffer(s) && ids == AttributeIds(s) && FamiliesLoaded(s, familyIds)
  }

  lemma AttributesOneMore(s: Tenant, key: AttrKey, row: AttrRow, ids: map<AttrKey, nat>, familyIds: map<nat, Option<nat>>)
    requires AttributesLoaded(s, ids, familyIds) && key !in s.attributes && row.id == s.nextId
    ensures var t := s.(attributes := s.attributes[key := row], nextId := s.nextId + 1);
      AttributesLoaded(t, ids[key := row.id], familyIds[row.id := row.familyId])
  {
  }

  function KnownRules(rules: seq<Rule>): set<RuleKey> {
    (set i | 0 <= i < |rules| :: WholeOf(rules[i])) + (set i | 0 <= i < |rules| :: IdentityOf(rules[i]))
  }

  lemma KnownRulesOneMore(rules: seq<Rule>, r: Rule)
    ensures KnownRules(rules + [r]) == KnownRules(rules) + {WholeOf(r), IdentityOf(r)}
  {
    var more := rules + [r];
    forall x ensures x in KnownRules(more) <==> x in KnownRules(rules) + {WholeOf(r), IdentityOf(r)} {
      if x in KnownRules(rules) {
        var i :| 0 <= i < |rules| && (x == WholeOf(rules[i]) || x == IdentityOf(rules[i]));
        assert more[i] == rules[i];
      }
      assert more[|rules|] == r;
    }
  }

  /** Asking for the whole rule first changes nothing: it is never known without its identity. */
  lemma KnownIsHavingTheRule(rules: seq<Rule>, r: Rule)
    ensures WholeOf(r) in KnownRules(rules) || IdentityOf(r) in KnownRules(rules) <==> HasRule(rules, IdentityOf(r))
  {
    if WholeOf(r) in KnownRules(rules) {
      var i :| 0 <= i < |rules| && WholeOf(rules[i]) == WholeOf(r);
      assert IdentityOf(rules[i]) == IdentityOf(r);
    }
  }

  /** What became of one entry. */
  datatype Taken = New | Present | Failed(verdict: Verdict)

  /** One entry's turn with k creations to spare: what became of it, and the tenant and creations left. */
  function Taking(item: Item, s: Tenant, canon: Canon, k: nat): (Taken, Tenant, nat) {
    match TurnOf(item, s, canon)
    case Skip => (Present, s, k)
    case Refuse => (Failed(Refused), s, k)
    case Create(s') => if k == 0 then (Failed(CutOff), s, 0) else (New, s', k - 1)
  }

  lemma RunTakes(items: seq<Item>, s: Tenant, canon: Canon, k: nat)
    requires items != []
    ensures var (taken, s', k') := Taking(items[0], s, canon, k);
      Run(items, s, canon, k) == if taken.Failed? then Outcome(taken.verdict, s', k') else Run(items[1..], s', canon, k')
  {
  }

  /** An attribute's turn, case by case. */
  lemma TakingAnAttribute(a: Attribute, s: Tenant, canon: Canon, k: nat)
    ensures var row := AttrRow(s.nextId, if a.unitFamily != "" && a.unitFamily in s.families then Some(s.families[a.unitFamily]) else None, a.content);
      var next := s.(attributes := s.attributes[a.key := row], nextId := s.nextId + 1);
      Taking(AttributeItem(a), s, canon, k) ==
        if a.key.typeName !in s.types then (Failed(Refused), s, k)
        else if a.key in s.attributes then (Present, s, k)
        else if a.unitFamily != "" && a.unitFamily !in s.families then (Failed(Refused), s, k)
        else if k == 0 then (Failed(CutOff), s, 0) else (New, next, k - 1)
  {
  }

  // What a phase leaves alone.

  predicate OnlyFamilies(s: Tenant, t: Tenant) {
    t.types == s.types && t.attributes == s.attributes && t.relationships == s.relationships && t.rules == s.rules && s.nextId <= t.nextId
  }

  predicate OnlyTypes(s: Tenant, t: Tenant) {
    t.families == s.families && t.attributes == s.attributes && t.relationships == s.relationships && t.rules == s.rules && s.nextId <= t.nextId
  }

  predicate OnlyAttributes(s: Tenant, t: Tenant) {
    t.families == s.families && t.types == s.types && t.relationships == s.relationships && t.rules == s.rules
  }

  predicate OnlyRules(s: Tenant, t: Tenant) {
    t.families == s.families && t.types == s.types && t.attributes == s.attributes && t.relationships == s.relationships && s.nextId <= t.nextId
  }

  predicate OnlyRelationships(s: Tenant, t: Tenant) {
    t.families == s.families && t.types == s.types && t.attributes == s.attributes && t.rules == s.rules && s.nextId <= t.nextId
  }

  /** Wherever an import ends, it has only added, and only what the bundle says. */
  lemma RunLeavesTheBundle(b: Bundle, s: Tenant, canon: Canon, k: nat)
    ensures var t := Run(Items(b), s, canon, k).tenant; Keeps(s, t) && NewRowsAreTheBundles(b, s, t, canon)
  {
    RunKeeps(Items(b), s, canon, k);
    CreatedRowsHoldTheirEntries(Items(b), s, canon, k);
    ComesFromTheBundle(b, s, Run(Items(b), s, canon, k).tenant, canon);
  }

  lemma FinishedRunHoldsTheBundle(b: Bundle, ordered: seq<Type>, s: Tenant, canon: Canon, k: nat)
    requires Run(Items(b), s, canon, k).verdict.Finished? && SortedTypes(b.types) == Some(ordered) && InParentOrder(b.types, ordered)
    ensures BundleIsThere(b, Run(Items(b), s, canon, k).tenant, canon)
  {
    FinishedHoldsEveryEntry(Items(b), s, canon, k);
    ItemsThereIsBundleThere(b, ordered, Run(Items(b), s, canon, k).tenant, canon);
  }

  class Interactor {
    const canon: Canon
    var tenant: Tenant
    var creations: nat

    constructor (canon: Canon, tenant: Tenant, creations: nat)
      ensures this.canon == canon && this.tenant == tenant && this.creations == creations
    {
      this.canon, this.tenant, this.creations := canon, tenant, creations;
    }

    /** What is left of a run: these entries, from here. */
    ghost function Rest(items: seq<Item>): Outcome
      reads this
    {
      Run(items, tenant, canon, creations)
    }

    ghost function Now(v: Verdict): Outcome
      reads this
    {
      Outcome(v, tenant, creations)
    }

    // ------------------------------------------------------ creating one object

    /** Commits a new tenant state, unless this is where the run is cut off. */
    method Commit(next: Tenant) returns (ok: bool)
      modifies this`tenant, this`creations
      ensures ok <==> old(creations) > 0
      ensures ok ==> tenant == next && creations == old(creations) - 1
      ensures !ok ==> tenant == old(tenant) && creations == old(creations)
    {
      ok := creations > 0;
      if ok { tenant, creations := next, creations - 1; }
    }

    // ----------------------------------------------------------------- phases

    method ImportFamilies(families: seq<Family>) returns (v: Verdict, idByName: map<string, nat>)
      modifies this`tenant, this`creations
      ensures Now(v) == old(Rest(FamilyItems(families))) && !v.Refused?
      ensures idByName == tenant.families && OnlyFamilies(old(tenant), tenant)
    {
      ghost var items := FamilyItems(families);
      idByName := tenant.families;
      for i := 0 to |families|
        invariant Rest(items[i..]) == old(Rest(items))
        invariant idByName == tenant.families && OnlyFamilies(old(tenant), tenant)
      {
        assert items[i..][0] == FamilyItem(families[i]) && items[i..][1..] == items[i + 1..];
        var f := families[i];
        if f.name in idByName { continue; }
        var id := tenant.nextId;
        var ok := Commit(tenant.(families := tenant.families[f.name := id], nextId := id + 1));
        if !ok { return CutOff, idByName; }
        idByName := idByName[f.name := id];
      }
      v := Finished;
    }

    method TakeType(t: Type, idByName: map<string, nat>) returns (taken: Taken)
      requires idByName == TypeIds(tenant)
      modifies this`tenant, this`creations
      ensures (taken, tenant, creations) == old(Taking(TypeItem(t), tenant, canon, creations))
    {
      if t.internalName in idByName { return Present; }
      var parentId := None;
      if t.parent != "" {
        if t.parent !in idByName { return Failed(Refused); }
        parentId := Some(idByName[t.parent]);
      }
      var row := TypeRow(tenant.nextId, parentId, t.content);
      var ok := Commit(tenant.(types := tenant.types[t.internalName := row], nextId := tenant.nextId + 1));
      taken := if ok then New else Failed(CutOff);
    }

    method ImportTypes(ordered: seq<Type>) returns (v: Verdict, idByName: map<string, nat>, count: KindCount)
      modifies this`tenant, this`creations
      ensures Now(v) == old(Rest(TypeItems(ordered)))
      ensures idByName == TypeIds(tenant) && OnlyTypes(old(tenant), tenant)
      ensures count.created == old(creations) - creations
      ensures v.Finished? ==> count.created + count.skipped == |ordered|
    {
      ghost var items := TypeItems(ordered);
      idByName := TypeIds(tenant);
      count := KindCount(0, 0);
      for i := 0 to |ordered|
        invariant Rest(items[i..]) == old(Rest(items))
        invariant idByName == TypeIds(tenant) && OnlyTypes(old(tenant), tenant)
        invariant count.created == old(creations) - creations && count.created + count.skipped == i
      {
        assert items[i..][0] == TypeItem(ordered[i]) && items[i..][1..] == items[i + 1..];
        RunTakes(items[i..], tenant, canon, creations);
        var id := tenant.nextId;
        var taken := TakeType(ordered[i], idByName);
        match taken
        case Present => count := count.(skipped := count.skipped + 1);
        case Failed(verdict) => return verdict, idByName, count;
        case New =>
          idByName := idByName[ordered[i].internalName := id];
          count := count.(created := count.created + 1);
      }
      v := Finished;
    }

    method TakeAttribute(a: Attribute, typeIds: map<string, nat>, unitIds: map<string, nat>, ids: map<AttrKey, nat>, familyIds: map<nat, Option<nat>>)
      returns (taken: Taken, ids': map<AttrKey, nat>, familyIds': map<nat, Option<nat>>)
      requires typeIds == TypeIds(tenant) && unitIds == tenant.families && AttributesLoaded(tenant, ids, familyIds)
      modifies this`tenant, this`creations
      ensures (taken, tenant, creations) == old(Taking(AttributeItem(a), tenant, canon, creations))
      ensures AttributesLoaded(tenant, ids', familyIds') && OnlyAttributes(old(tenant), tenant)
    {
      ids', familyIds' := ids, familyIds;
      TakingAnAttribute(a, tenant, canon, creations);
      var row := AttrRow(tenant.nextId, None, a.content);
      if a.key.typeName !in typeIds { taken := Failed(Refused); return; }
      if a.key in ids { taken := Present; return; }
      if a.unitFamily != "" {
        if a.unitFamily !in unitIds { taken := Failed(Refused); return; }
        row := row.(familyId := Some(unitIds[a.unitFamily]));
      }
      AttributesOneMore(tenant, a.key, row, ids, familyIds);
      var ok := Commit(tenant.(attributes := tenant.attributes[a.key := row], nextId := tenant.nextId + 1));
      if !ok { taken := Failed(CutOff); return; }
      ids', familyIds' := ids[a.key := row.id], familyIds[row.id := row.familyId];
      taken := New;
    }

    method ImportAttributes(attributes: seq<Attribute>, typeIds: map<string, nat>, unitIds: map<string, nat>)
      returns (v: Verdict, ids: map<AttrKey, nat>, familyIds: map<nat, Option<nat>>, count: KindCount)
      requires typeIds == TypeIds(tenant) && unitIds == tenant.families && AttributeIdsDiffer(tenant)
      modifies this`tenant, this`creations
      ensures Now(v) == old(Rest(AttributeItems(attributes)))
      ensures AttributesLoaded(tenant, ids, familyIds) && OnlyAttributes(old(tenant), tenant)
      ensures count.created == old(creations) - creations
      ensures v.Finished? ==> count.created + count.skipped == |attributes|
    {
      ghost var items := AttributeItems(attributes);
      ids := AttributeIds(tenant);
      familyIds := LoadFamilies(tenant);
      count := KindCount(0, 0);
      for i := 0 to |attributes|
        invariant Rest(items[i..]) == old(Rest(items))
        invariant AttributesLoaded(tenant, ids, familyIds) && OnlyAttributes(old(tenant), tenant)
        invariant count.created == old(creations) - creations && count.created + count.skipped == i
      {
        assert items[i..][0] == AttributeItem(attributes[i]) && items[i..][1..] == items[i + 1..];
        RunTakes(items[i..], tenant, canon, creations);
        var taken;
        taken, ids, familyIds := TakeAttribute(attributes[i], typeIds, unitIds, ids, familyIds);
        match taken
        case Present => count := count.(skipped := count.skipped + 1);
        case Failed(verdict) => return verdict, ids, familyIds, count;
        case New => count := count.(created := count.created + 1);
      }
      v := Finished;
    }

    method TakeRelationship(r: RelationshipDefinition, names: set<string>, typeIds: map<string, nat>) returns (taken: Taken)
      requires typeIds == TypeIds(tenant) && names == tenant.relationships.Keys
      modifies this`tenant, this`creations
      ensures (taken, tenant, creations) == old(Taking(RelationshipItem(r), tenant, canon, creations))
    {
      if r.internalName in names { return Present; }
      if r.parentType !in typeIds || r.childType !in typeIds { return Failed(Refused); }
      var row := RelRow(typeIds[r.parentType], typeIds[r.childType], r.content);
      var ok := Commit(tenant.(relationships := tenant.relationships[r.internalName := row], nextId := tenant.nextId + 1));
      taken := if ok then New else Failed(CutOff);
    }

    method ImportRelationships(rels: seq<RelationshipDefinition>, typeIds: map<string, nat>) returns (v: Verdict, count: KindCount)
      requires typeIds == TypeIds(tenant)
      modifies this`tenant, this`creations
      ensures Now(v) == old(Rest(RelationshipItems(rels)))
      ensures OnlyRelationships(old(tenant), tenant)
      ensures count.created == old(creations) - creations
      ensures v.Finished? ==> count.created + count.skipped == |rels|
    {
      ghost var items := RelationshipItems(rels);
      var names := tenant.relationships.Keys;
      count := KindCount(0, 0);
      for i := 0 to |rels|
        invariant Rest(items[i..]) == old(Rest(items))
        invariant names == tenant.relationships.Keys && OnlyRelationships(old(tenant), tenant)
        invariant count.created == old(creations) - creations && count.created + count.skipped == i
      {
        assert items[i..][0] == RelationshipItem(rels[i]) && items[i..][1..] == items[i + 1..];
        RunTakes(items[i..], tenant, canon, creations);
        var taken := TakeRelationship(rels[i], names, typeIds);
        match taken
        case Present => count := count.(skipped := count.skipped + 1);
        case Failed(verdict) => return verdict, count;
        case New =>
          names := names + {rels[i].internalName};
          count := count.(created := count.created + 1);
      }
      v := Finished;
    }

    method TakeDependency(d: Dependency, known: set<RuleKey>, ids: map<AttrKey, nat>, familyIds: map<nat, Option<nat>>)
      returns (taken: Taken, known': set<RuleKey>)
      requires AttributesLoaded(tenant, ids, familyIds) && known == KnownRules(tenant.rules)
      modifies this`tenant, this`creations
      ensures (taken, tenant, creations) == old(Taking(DependencyItem(d), tenant, canon, creations))
      ensures known' == KnownRules(tenant.rules) && AttributesLoaded(tenant, ids, familyIds) && OnlyRules(old(tenant), tenant)
    {
      known' := known;
      if d.source !in ids || d.target !in ids { taken := Failed(Refused); return; }
      var src, tgt := ids[d.source], ids[d.target];
      var conditions, effect := canon(d.conditions, familyIds[src]), canon(d.effect, familyIds[tgt]);
      if conditions.None? || effect.None? { taken := Failed(Refused); return; }
      var rule := Rule(src, tgt, conditions.value, effect.value);
      KnownIsHavingTheRule(tenant.rules, rule);
      if WholeOf(rule) in known || IdentityOf(rule) in known { taken := Present; return; }
      KnownRulesOneMore(tenant.rules, rule);
      var ok := Commit(tenant.(rules := tenant.rules + [rule], nextId := tenant.nextId + 1));
      if !ok { taken := Failed(CutOff); return; }
      known' := known + {WholeOf(rule), IdentityOf(rule)};
      taken := New;
    }

    method ImportDependencies(deps: seq<Dependency>, ids: map<AttrKey, nat>, familyIds: map<nat, Option<nat>>)
      returns (v: Verdict, count: KindCount)
      requires AttributesLoaded(tenant, ids, familyIds)
      modifies this`tenant, this`creations
      ensures Now(v) == old(Rest(DependencyItems(deps)))
      ensures OnlyRules(old(tenant), tenant)
      ensures count.created == old(creations) - creations
      ensures v.Finished? ==> count.created + count.skipped == |deps|
    {
      ghost var items := DependencyItems(deps);
      var known := KnownRules(tenant.rules);
      count := KindCount(0, 0);
      for i := 0 to |deps|
        invariant Rest(items[i..]) == old(Rest(items))
        invariant known == KnownRules(tenant.rules) && OnlyRules(old(tenant), tenant)
        invariant AttributesLoaded(tenant, ids, familyIds)
        invariant count.created == old(creations) - creations && count.created + count.skipped == i
      {
        assert items[i..][0] == DependencyItem(deps[i]) && items[i..][1..] == items[i + 1..];
        RunTakes(items[i..], tenant, canon, creations);
        var taken;
        taken, known := TakeDependency(deps[i], known, ids, familyIds);
        match taken
        case Present => count := count.(skipped := count.skipped + 1);
        case Failed(verdict) => return verdict, count;
        case New => count := count.(created := count.created + 1);
      }
      v := Finished;
    }

    // ----------------------------------------------------------------- import

    /** The whole import is the run over the tenant itself.  Its counts cover the bundle, and are
        the creations made behind the families'. */
    method Import(b: Bundle) returns (v: Verdict, res: ImportResult)
      requires AttributeIdsDiffer(tenant)
      modifies this`tenant, this`creations
      ensures Now(v) == old(Rest(Items(b)))
      ensures Keeps(old(tenant), tenant) && NewRowsAreTheBundles(b, old(tenant), tenant, canon)
      ensures v.Finished? ==> BundleIsThere(b, tenant, canon)
      ensures v.Refused? ==> CannotBeImported(b, tenant, canon)
      ensures v.CutOff? ==> creations == 0
      ensures v.Finished? ==> Created(res) == old(Rest(FamilyItems(b.families))).spare - creations
      ensures v.Finished? ==> SortedTypes(b.types).Some? && res.types.created + res.types.skipped == |SortedTypes(b.types).value|
      ensures v.Finished? ==> res.attributes.created + res.attributes.skipped == |b.attributes|
      ensures v.Finished? ==> res.relationships.created + res.relationships.skipped == |b.relationships|
      ensures v.Finished? ==> res.dependencies.created + res.dependencies.skipped == |b.dependencies|
    {
      var zero := KindCount(0, 0);
      res := ImportResult(zero, zero, zero, zero);
      ghost var before, allowed := tenant, creations;
      RunLeavesTheBundle(b, before, canon, allowed);
      ghost var tail := Items(b)[|b.families|..];
      assert Items(b) == FamilyItems(b.families) + tail;
      RunConcat(FamilyItems(b.families), tail, tenant, canon, creations);
      var unitIds;
      v, unitIds := ImportFamilies(b.families);
      if v != Finished { return; }
      var sorted := TopoSortTypes(b.types);
      if sorted.None? {
        assert tail == [CyclicTypes];
        return Refused, res;
      }
      v, res := ImportSorted(b, sorted.value, unitIds);
      if v == Finished { FinishedRunHoldsTheBundle(b, sorted.value, before, canon, allowed); }
      if v == Refused { RefusedBundleCannotBeImported(b, before, canon, allowed); }
    }

    method ImportSorted(b: Bundle, ordered: seq<Type>, unitIds: map<string, nat>) returns (v: Verdict, res: ImportResult)
      requires AttributeIdsDiffer(tenant) && unitIds == tenant.families
      modifies this`tenant, this`creations
      ensures Now(v) == old(Rest(TypeItems(ordered) +
        (AttributeItems(b.attributes) + (RelationshipItems(b.relationships) + DependencyItems(b.dependencies)))))
      ensures v.Finished? ==> Created(res) == old(creations) - creations
      ensures v.Finished? ==> res.types.created + res.types.skipped == |ordered|
      ensures v.Finished? ==> res.attributes.created + res.attributes.skipped == |b.attributes|
      ensures v.Finished? ==> res.relationships.created + res.relationships.skipped == |b.relationships|
      ensures v.Finished? ==> res.dependencies.created + res.dependencies.skipped == |b.dependencies|
    {
      var zero := KindCount(0, 0);
      res := ImportResult(zero, zero, zero, zero);
      ghost var rs, ds := RelationshipItems(b.relationships), DependencyItems(b.dependencies);
      ghost var ats := AttributeItems(b.attributes);
      RunConcat(TypeItems(ordered), ats + (rs + ds), tenant, canon, creations);
      var typeIds, ids, familyIds, types, attributes, relationships, dependencies;
      v, typeIds, types := ImportTypes(ordered);
      if v != Finished { return; }
      RunConcat(ats, rs + ds, tenant, canon, creations);
      v, ids, familyIds, attributes := ImportAttributes(b.attributes, typeIds, unitIds);
      if v != Finished { return; }
      RunConcat(rs, ds, tenant, canon, creations);
      v, relationships := ImportRelationships(b.relationships, typeIds);
      if v != Finished { return; }
      v, dependencies := ImportDependencies(b.dependencies, ids, familyIds);
      res := ImportResult(types, attributes, relationships, dependencies);
    }
  }
}
