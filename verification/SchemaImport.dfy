/**
  Applying a schema bundle to a tenant, one creation at a time.

  An import is not one transaction: each creation commits on its own and any of them may be the last.
  `creations` is how many get through before the run is cut off.
 */
module SchemaImport {
  import opened Options
  import opened TypeOrder

  datatype AttrKey = AttrKey(typeName: string, name: string)

  // ------------------------------------------------------------------ bundle

  datatype Family = Family(name: string, content: string)
  datatype Attribute = Attribute(key: AttrKey, unitFamily: string, content: string)
  datatype RelationshipDefinition = RelationshipDefinition(internalName: string, parentType: string, childType: string, content: string)
  datatype Dependency = Dependency(source: AttrKey, target: AttrKey, conditions: string, effect: string)

  datatype Bundle = Bundle(families: seq<Family>, types: seq<Type>, attributes: seq<Attribute>,
                           relationships: seq<RelationshipDefinition>, dependencies: seq<Dependency>)

  // ------------------------------------------------------------------ tenant

  datatype TypeRow = TypeRow(id: nat, parentId: Option<nat>, content: string)
  datatype AttrRow = AttrRow(id: nat, familyId: Option<nat>, content: string)
  datatype RelRow = RelRow(parentTypeId: nat, childTypeId: nat, content: string)

  /** A stored rule: its operands are rebased to their unit family and canonical. */
  datatype Rule = Rule(source: nat, target: nat, conditions: string, effect: string)

  /** The rule without its effect: which values decide, about which attribute. */
  datatype RuleKey =
    | Whole(source: nat, target: nat, conditions: string, effect: string)
    | Identity(source: nat, target: nat, conditions: string)

  function IdentityOf(r: Rule): RuleKey {
    Identity(r.source, r.target, r.conditions)
  }

  function WholeOf(r: Rule): RuleKey {
    Whole(r.source, r.target, r.conditions, r.effect)
  }

  datatype Tenant = Tenant(families: map<string, nat>, types: map<string, TypeRow>, attributes: map<AttrKey, AttrRow>,
                           relationships: map<string, RelRow>, rules: seq<Rule>, nextId: nat)

  /** Raw operands to their canonical form under an attribute's unit family; malformed ones have none. */
  type Canon = (string, Option<nat>) -> Option<string>

  // ----------------------------------------------------------- one entry's turn

  /** The entries in the order an import takes them. */
  datatype Item =
    | FamilyItem(family: Family)
    | CyclicTypes
    | TypeItem(t: Type)
    | AttributeItem(a: Attribute)
    | RelationshipItem(r: RelationshipDefinition)
    | DependencyItem(d: Dependency)

  datatype Turn = Skip | Refuse | Create(tenant: Tenant)

  function FamilyTurn(f: Family, s: Tenant): Turn {
    if f.name in s.families then Skip
    else Create(s.(families := s.families[f.name := s.nextId], nextId := s.nextId + 1))
  }

  function TypeTurn(t: Type, s: Tenant): Turn {
    if t.internalName in s.types then Skip
    else if t.parent != "" && t.parent !in s.types then Refuse
    else
      var parentId := if t.parent == "" then None else Some(s.types[t.parent].id);
      Create(s.(types := s.types[t.internalName := TypeRow(s.nextId, parentId, t.content)], nextId := s.nextId + 1))
  }

  function AttributeTurn(a: Attribute, s: Tenant): Turn {
    if a.key.typeName !in s.types then Refuse
    else if a.key in s.attributes then Skip
    else if a.unitFamily != "" && a.unitFamily !in s.families then Refuse
    else
      var familyId := if a.unitFamily == "" then None else Some(s.families[a.unitFamily]);
      Create(s.(attributes := s.attributes[a.key := AttrRow(s.nextId, familyId, a.content)], nextId := s.nextId + 1))
  }

  function RelationshipTurn(r: RelationshipDefinition, s: Tenant): Turn {
    if r.internalName in s.relationships then Skip
    else if r.parentType !in s.types || r.childType !in s.types then Refuse
    else
      var row := RelRow(s.types[r.parentType].id, s.types[r.childType].id, r.content);
      Create(s.(relationships := s.relationships[r.internalName := row], nextId := s.nextId + 1))
  }

  /** The stored form of a bundle rule, when its attributes exist and its operands are well formed. */
  function RuleFor(d: Dependency, s: Tenant, canon: Canon): Option<Rule> {
    if d.source !in s.attributes || d.target !in s.attributes then None
    else
      var src, tgt := s.attributes[d.source], s.attributes[d.target];
      var conditions, effect := canon(d.conditions, src.familyId), canon(d.effect, tgt.familyId);
      if conditions.None? || effect.None? then None
      else Some(Rule(src.id, tgt.id, conditions.value, effect.value))
  }

  predicate HasRule(rules: seq<Rule>, key: RuleKey) {
    exists i :: 0 <= i < |rules| && IdentityOf(rules[i]) == key
  }

  function DependencyTurn(d: Dependency, s: Tenant, canon: Canon): Turn {
    var rule := RuleFor(d, s, canon);
    if rule.None? then Refuse
    else if HasRule(s.rules, IdentityOf(rule.value)) then Skip
    else Create(s.(rules := s.rules + [rule.value], nextId := s.nextId + 1))
  }

  function TurnOf(item: Item, s: Tenant, canon: Canon): Turn {
    match item
    case FamilyItem(f) => FamilyTurn(f, s)
    case CyclicTypes => Refuse
    case TypeItem(t) => TypeTurn(t, s)
    case AttributeItem(a) => AttributeTurn(a, s)
    case RelationshipItem(r) => RelationshipTurn(r, s)
    case DependencyItem(d) => DependencyTurn(d, s, canon)
  }

  // --------------------------------------------------------------------- runs

  datatype Verdict = Finished | Refused | CutOff

  /** How a run ends: why, on what tenant, and with how many creations to spare. */
  datatype Outcome = Outcome(verdict: Verdict, tenant: Tenant, spare: nat)

  function Run(items: seq<Item>, s: Tenant, canon: Canon, creations: nat): (o: Outcome)
    ensures o.spare <= creations
    ensures o.verdict.CutOff? ==> o.spare == 0
  {
    if items == [] then Outcome(Finished, s, creations)
    else
      match TurnOf(items[0], s, canon)
      case Skip => Run(items[1..], s, canon, creations)
      case Refuse => Outcome(Refused, s, creations)
      case Create(s') => if creations == 0 then Outcome(CutOff, s, 0) else Run(items[1..], s', canon, creations - 1)
  }

  /** Everything that was there still is, unchanged. */
  predicate Keeps(s: Tenant, t: Tenant) {
    && (forall n :: n in s.families ==> n in t.families && t.families[n] == s.families[n])
    && (forall n :: n in s.types ==> n in t.types && t.types[n] == s.types[n])
    && (forall k :: k in s.attributes ==> k in t.attributes && t.attributes[k] == s.attributes[k])
    && (forall n :: n in s.relationships ==> n in t.relationships && t.relationships[n] == s.relationships[n])
    && s.rules <= t.rules
    && s.nextId <= t.nextId
  }

  lemma CreationKeeps(item: Item, s: Tenant, canon: Canon)
    requires TurnOf(item, s, canon).Create?
    ensures Keeps(s, TurnOf(item, s, canon).tenant)
  {
  }

  lemma CreatedIsSkipped(item: Item, s: Tenant, canon: Canon)
    requires TurnOf(item, s, canon).Create?
    ensures TurnOf(item, TurnOf(item, s, canon).tenant, canon) == Skip
  {
    if item.DependencyItem? {
      var t := TurnOf(item, s, canon).tenant;
      var rule := RuleFor(item.d, s, canon).value;
      assert RuleFor(item.d, t, canon) == Some(rule);
      assert t.rules[|s.rules|] == rule;
    }
  }

  lemma SkipStays(item: Item, s: Tenant, t: Tenant, canon: Canon)
    requires TurnOf(item, s, canon) == Skip && Keeps(s, t)
    ensures TurnOf(item, t, canon) == Skip
  {
    if item.DependencyItem? {
      var rule := RuleFor(item.d, s, canon).value;
      assert RuleFor(item.d, t, canon) == Some(rule);
      var i :| 0 <= i < |s.rules| && IdentityOf(s.rules[i]) == IdentityOf(rule);
      assert t.rules[i] == s.rules[i];
    }
  }

  /** An import only adds. */
  lemma {:induction false} RunKeeps(items: seq<Item>, s: Tenant, canon: Canon, creations: nat)
    ensures Keeps(s, Run(items, s, canon, creations).tenant)
  {
    if items == [] {
    } else {
      match TurnOf(items[0], s, canon)
      case Skip => RunKeeps(items[1..], s, canon, creations);
      case Refuse =>
      case Create(s') =>
        CreationKeeps(items[0], s, canon);
        if creations > 0 { RunKeeps(items[1..], s', canon, creations - 1); }
    }
  }

  /** Run again from where it stopped after k creations, with b more allowed: the first run with both. */
  ghost predicate Composes(items: seq<Item>, s: Tenant, canon: Canon, k: nat, b: nat) {
    var o := Run(items, s, canon, k);
    Run(items, o.tenant, canon, b) == Run(items, s, canon, k - o.spare + b)
  }

  /** An entry that is present stays skipped, so the rest decides. */
  lemma SkippedComposes(items: seq<Item>, s: Tenant, canon: Canon, k: nat, b: nat)
    requires items != [] && TurnOf(items[0], s, canon) == Skip && Composes(items[1..], s, canon, k, b)
    ensures Composes(items, s, canon, k, b)
  {
    RunKeeps(items[1..], s, canon, k);
    SkipStays(items[0], s, Run(items[1..], s, canon, k).tenant, canon);
  }

  /** An entry that was created is skipped from then on. */
  lemma CreatedComposes(items: seq<Item>, s: Tenant, canon: Canon, s': Tenant, k: nat, b: nat)
    requires items != [] && TurnOf(items[0], s, canon) == Create(s') && k > 0 && Composes(items[1..], s', canon, k - 1, b)
    ensures Composes(items, s, canon, k, b)
  {
    CreatedIsSkipped(items[0], s, canon);
    RunKeeps(items[1..], s', canon, k - 1);
    SkipStays(items[0], s', Run(items[1..], s', canon, k - 1).tenant, canon);
  }

  /** A run that stops at its first entry stops there again. */
  lemma StoppedComposes(items: seq<Item>, s: Tenant, canon: Canon, k: nat, b: nat)
    requires items == [] || TurnOf(items[0], s, canon).Refuse? || (TurnOf(items[0], s, canon).Create? && k == 0)
    ensures Composes(items, s, canon, k, b)
  {
  }

  /** Wherever a run stopped, running again from there is the first run with more creations. */
  lemma {:induction false} RunsCompose(items: seq<Item>, s: Tenant, canon: Canon, k: nat, b: nat)
    ensures Composes(items, s, canon, k, b)
  {
    if items == [] || TurnOf(items[0], s, canon).Refuse? || (TurnOf(items[0], s, canon).Create? && k == 0) {
      StoppedComposes(items, s, canon, k, b);
    } else {
      match TurnOf(items[0], s, canon)
      case Skip =>
        RunsCompose(items[1..], s, canon, k, b);
        SkippedComposes(items, s, canon, k, b);
      case Create(s') =>
        RunsCompose(items[1..], s', canon, k - 1, b);
        CreatedComposes(items, s, canon, s', k, b);
    }
  }

  /** A run that finished, run again, creates nothing. */
  lemma RerunCreatesNothing(items: seq<Item>, s: Tenant, canon: Canon, k: nat, b: nat)
    requires Run(items, s, canon, k).verdict.Finished?
    ensures var done := Run(items, s, canon, k).tenant; Run(items, done, canon, b) == Outcome(Finished, done, b)
  {
    var o := Run(items, s, canon, k);
    RunsCompose(items, s, canon, k, b);
    MoreIsTheSame(items, s, canon, k, k - o.spare + b);
  }

  /** Creations a run does not need make no difference. */
  lemma {:induction false} MoreIsTheSame(items: seq<Item>, s: Tenant, canon: Canon, k: nat, m: nat)
    requires !Run(items, s, canon, k).verdict.CutOff?
    requires m >= k - Run(items, s, canon, k).spare
    ensures var o := Run(items, s, canon, k); Run(items, s, canon, m) == o.(spare := m - (k - o.spare))
  {
    if items == [] {
    } else {
      match TurnOf(items[0], s, canon)
      case Skip => MoreIsTheSame(items[1..], s, canon, k, m);
      case Refuse =>
      case Create(s') => MoreIsTheSame(items[1..], s', canon, k - 1, m - 1);
    }
  }

  lemma {:induction false} OneEachIsEnough(items: seq<Item>, s: Tenant, canon: Canon, k: nat)
    requires k >= |items|
    ensures !Run(items, s, canon, k).verdict.CutOff?
  {
    if items == [] {
    } else {
      match TurnOf(items[0], s, canon)
      case Skip => OneEachIsEnough(items[1..], s, canon, k);
      case Refuse =>
      case Create(s') => OneEachIsEnough(items[1..], s', canon, k - 1);
    }
  }

  /** The tenant after any number of attempts, each cut off wherever it was. */
  function Attempts(items: seq<Item>, s: Tenant, canon: Canon, ks: seq<nat>): Tenant
    decreases |ks|
  {
    if ks == [] then s else Attempts(items, Run(items, s, canon, ks[0]).tenant, canon, ks[1..])
  }

  /** However often it was interrupted before, an import that is let through ends as one that never was:
      the same verdict, the same objects under the same names, the same rules. */
  lemma {:induction false} InterruptionsLeaveNoTrace(items: seq<Item>, s: Tenant, canon: Canon, ks: seq<nat>, b: nat, m: nat)
    requires b >= |items| && m >= |items|
    ensures var resumed, straight := Run(items, Attempts(items, s, canon, ks), canon, b), Run(items, s, canon, m);
      resumed.verdict == straight.verdict && resumed.tenant == straight.tenant
    decreases |ks|
  {
    OneEachIsEnough(items, s, canon, m);
    if ks == [] {
      OneEachIsEnough(items, s, canon, b);
      MoreIsTheSame(items, s, canon, if b <= m then b else m, if b <= m then m else b);
    } else {
      var o := Run(items, s, canon, ks[0]);
      InterruptionsLeaveNoTrace(items, o.tenant, canon, ks[1..], b, m);
      RunsCompose(items, s, canon, ks[0], m);
      MoreIsTheSame(items, s, canon, m, ks[0] - o.spare + m);
    }
  }

  // ------------------------------------------------- what an import leaves behind

  /** What import matches by: a name per kind, and for a rule its identity. */
  datatype Mark =
    | FamilyNamed(name: string)
    | TypeNamed(name: string)
    | AttributeNamed(key: AttrKey)
    | RelationshipNamed(name: string)
    | RuleKnown(identity: RuleKey)

  predicate Has(s: Tenant, m: Mark) {
    match m
    case FamilyNamed(n) => n in s.families
    case TypeNamed(n) => n in s.types
    case AttributeNamed(k) => k in s.attributes
    case RelationshipNamed(n) => n in s.relationships
    case RuleKnown(key) => HasRule(s.rules, key)
  }

  function MarkOf(item: Item, s: Tenant, canon: Canon): Option<Mark> {
    match item
    case FamilyItem(f) => Some(FamilyNamed(f.name))
    case CyclicTypes => None
    case TypeItem(t) => Some(TypeNamed(t.internalName))
    case AttributeItem(a) => Some(AttributeNamed(a.key))
    case RelationshipItem(r) => Some(RelationshipNamed(r.internalName))
    case DependencyItem(d) =>
      var rule := RuleFor(d, s, canon);
      if rule.None? then None else Some(RuleKnown(IdentityOf(rule.value)))
  }

  ghost predicate Marked(items: seq<Item>, s: Tenant, canon: Canon, m: Mark) {
    exists i :: 0 <= i < |items| && MarkOf(items[i], s, canon) == Some(m)
  }

  /** A creation adds its entry's mark and no other. */
  lemma CreationAddsItsMark(item: Item, s: Tenant, canon: Canon, m: Mark)
    requires TurnOf(item, s, canon).Create?
    ensures MarkOf(item, s, canon).Some?
    ensures Has(TurnOf(item, s, canon).tenant, m) <==> Has(s, m) || Some(m) == MarkOf(item, s, canon)
  {
    if item.DependencyItem? && m.RuleKnown? {
      var t := TurnOf(item, s, canon).tenant;
      assert t.rules == s.rules + [RuleFor(item.d, s, canon).value];
      if HasRule(s.rules, m.identity) {
        var i :| 0 <= i < |s.rules| && IdentityOf(s.rules[i]) == m.identity;
        assert t.rules[i] == s.rules[i];
      }
      if Some(m) == MarkOf(item, s, canon) { assert IdentityOf(t.rules[|s.rules|]) == m.identity; }
    }
  }

  lemma SkippedHasItsMark(item: Item, s: Tenant, canon: Canon)
    requires TurnOf(item, s, canon) == Skip
    ensures MarkOf(item, s, canon).Some? && Has(s, MarkOf(item, s, canon).value)
  {
  }

  lemma MarkStays(item: Item, s: Tenant, t: Tenant, canon: Canon)
    requires Keeps(s, t) && MarkOf(item, s, canon).Some?
    ensures MarkOf(item, t, canon) == MarkOf(item, s, canon)
  {
  }

  /** A finished import leaves what was there and what the bundle names: nothing less, nothing more. */
  lemma {:induction false} FinishedHoldsExactlyTheBundle(items: seq<Item>, s: Tenant, canon: Canon, k: nat, m: Mark)
    requires Run(items, s, canon, k).verdict.Finished?
    ensures var t := Run(items, s, canon, k).tenant; Has(t, m) <==> Has(s, m) || Marked(items, t, canon, m)
  {
    var t := Run(items, s, canon, k).tenant;
    if items != [] {
      RunKeeps(items, s, canon, k);
      match TurnOf(items[0], s, canon)
      case Skip =>
        FinishedHoldsExactlyTheBundle(items[1..], s, canon, k, m);
        SkippedHasItsMark(items[0], s, canon);
      case Create(s') =>
        FinishedHoldsExactlyTheBundle(items[1..], s', canon, k - 1, m);
        CreationAddsItsMark(items[0], s, canon, m);
      MarkStays(items[0], s, t, canon);
      MarkedFirst(items, t, canon, m);
    }
  }

  lemma MarkedFirst(items: seq<Item>, s: Tenant, canon: Canon, m: Mark)
    requires items != []
    ensures Marked(items, s, canon, m) <==> MarkOf(items[0], s, canon) == Some(m) || Marked(items[1..], s, canon, m)
  {
    if Marked(items[1..], s, canon, m) {
      var i :| 0 <= i < |items| - 1 && MarkOf(items[1..][i], s, canon) == Some(m);
      assert items[i + 1] == items[1..][i];
    }
    if Marked(items, s, canon, m) && MarkOf(items[0], s, canon) != Some(m) {
      var i :| 0 <= i < |items| && MarkOf(items[i], s, canon) == Some(m);
      assert items[1..][i - 1] == items[i];
    }
  }

  // ------------------------------------------------------ what a created row holds

  /** The row of a family the run created: a new identifier, for an entry of that name. */
  ghost predicate FamilyFrom(items: seq<Item>, s: Tenant, t: Tenant, n: string) {
    n in t.families && s.nextId <= t.families[n] < t.nextId && exists f :: FamilyItem(f) in items && f.name == n
  }

  ghost predicate TypeIs(x: Type, t: Tenant, n: string) {
    && n in t.types && x.internalName == n && t.types[n].content == x.content
    && (if x.parent == "" then t.types[n].parentId == None else x.parent in t.types && t.types[n].parentId == Some(t.types[x.parent].id))
  }

  /** ...of a type: the content of its entry, under the type that entry extends. */
  ghost predicate TypeFrom(items: seq<Item>, s: Tenant, t: Tenant, n: string) {
    n in t.types && s.nextId <= t.types[n].id < t.nextId && exists x :: TypeItem(x) in items && TypeIs(x, t, n)
  }

  ghost predicate AttributeIs(x: Attribute, t: Tenant, k: AttrKey) {
    && k in t.attributes && x.key == k && t.attributes[k].content == x.content && k.typeName in t.types
    && (if x.unitFamily == "" then t.attributes[k].familyId == None
        else x.unitFamily in t.families && t.attributes[k].familyId == Some(t.families[x.unitFamily]))
  }

  /** ...of an attribute: the content of its entry, in the unit family that entry names, on a type that is there. */
  ghost predicate AttributeFrom(items: seq<Item>, s: Tenant, t: Tenant, k: AttrKey) {
    k in t.attributes && s.nextId <= t.attributes[k].id < t.nextId &&
    exists x :: AttributeItem(x) in items && AttributeIs(x, t, k)
  }

  ghost predicate RelationshipIs(x: RelationshipDefinition, t: Tenant, n: string) {
    && n in t.relationships && x.internalName == n && t.relationships[n].content == x.content
    && x.parentType in t.types && t.relationships[n].parentTypeId == t.types[x.parentType].id
    && x.childType in t.types && t.relationships[n].childTypeId == t.types[x.childType].id
  }

  /** ...of a relationship definition: the content of its entry, from the entry's parent type to its child type. */
  ghost predicate RelationshipFrom(items: seq<Item>, t: Tenant, n: string) {
    exists x :: RelationshipItem(x) in items && RelationshipIs(x, t, n)
  }

  ghost predicate RuleIs(x: Dependency, t: Tenant, canon: Canon, rule: Rule) {
    && x.source in t.attributes && rule.source == t.attributes[x.source].id
    && x.target in t.attributes && rule.target == t.attributes[x.target].id
    && canon(x.conditions, t.attributes[x.source].familyId) == Some(rule.conditions)
    && canon(x.effect, t.attributes[x.target].familyId) == Some(rule.effect)
  }

  /** ...of a rule: conditions canonical in the source's unit family, effect in the target's. */
  ghost predicate RuleFrom(items: seq<Item>, t: Tenant, canon: Canon, rule: Rule) {
    exists d :: DependencyItem(d) in items && RuleIs(d, t, canon, rule)
  }

  /** Whatever is new in t beside s comes from an entry, and holds what the entry says. */
  ghost predicate ComesFrom(items: seq<Item>, s: Tenant, t: Tenant, canon: Canon) {
    && (forall n :: n in t.families && n !in s.families ==> FamilyFrom(items, s, t, n))
    && (forall n :: n in t.types && n !in s.types ==> TypeFrom(items, s, t, n))
    && (forall k :: k in t.attributes && k !in s.attributes ==> AttributeFrom(items, s, t, k))
    && (forall n :: n in t.relationships && n !in s.relationships ==> RelationshipFrom(items, t, n))
    && (forall i :: |s.rules| <= i < |t.rules| ==> RuleFrom(items, t, canon, t.rules[i]))
  }

  /** What came from the rest came from the whole. */
  lemma ComesFromRest(items: seq<Item>, s: Tenant, t: Tenant, canon: Canon)
    requires items != [] && ComesFrom(items[1..], s, t, canon)
    ensures ComesFrom(items, s, t, canon)
  {
    assert forall item :: item in items[1..] ==> item in items;
  }

  lemma FamilyComesFrom(items: seq<Item>, s: Tenant, canon: Canon, s': Tenant, t: Tenant, n: string)
    requires items != [] && TurnOf(items[0], s, canon) == Create(s') && Keeps(s', t) && n in s'.families && n !in s.families
    ensures FamilyFrom(items, s, t, n)
  {
    assert FamilyItem(items[0].family) in items;
  }

  lemma TypeComesFrom(items: seq<Item>, s: Tenant, canon: Canon, s': Tenant, t: Tenant, n: string)
    requires items != [] && TurnOf(items[0], s, canon) == Create(s') && Keeps(s', t) && n in s'.types && n !in s.types
    ensures TypeFrom(items, s, t, n)
  {
    assert TypeItem(items[0].t) in items && TypeIs(items[0].t, t, n);
  }

  lemma AttributeComesFrom(items: seq<Item>, s: Tenant, canon: Canon, s': Tenant, t: Tenant, k: AttrKey)
    requires items != [] && TurnOf(items[0], s, canon) == Create(s') && Keeps(s', t) && k in s'.attributes && k !in s.attributes
    ensures AttributeFrom(items, s, t, k)
  {
    assert AttributeItem(items[0].a) in items && AttributeIs(items[0].a, t, k);
  }

  lemma RelationshipComesFrom(items: seq<Item>, s: Tenant, canon: Canon, s': Tenant, t: Tenant, n: string)
    requires items != [] && TurnOf(items[0], s, canon) == Create(s') && Keeps(s', t) && n in s'.relationships && n !in s.relationships
    ensures RelationshipFrom(items, t, n)
  {
    assert RelationshipItem(items[0].r) in items && RelationshipIs(items[0].r, t, n);
  }

  lemma RuleComesFrom(items: seq<Item>, s: Tenant, canon: Canon, s': Tenant, t: Tenant, i: nat)
    requires items != [] && TurnOf(items[0], s, canon) == Create(s') && Keeps(s', t) && |s.rules| <= i < |s'.rules|
    ensures RuleFrom(items, t, canon, t.rules[i])
  {
    assert DependencyItem(items[0].d) in items && RuleIs(items[0].d, t, canon, t.rules[i]);
  }

  lemma CreatedComesFrom(items: seq<Item>, s: Tenant, canon: Canon, s': Tenant, t: Tenant)
    requires items != [] && TurnOf(items[0], s, canon) == Create(s') && Keeps(s, s') && Keeps(s', t) && ComesFrom(items, s', t, canon)
    ensures ComesFrom(items, s, t, canon)
  {
    forall n | n in t.families && n !in s.families ensures FamilyFrom(items, s, t, n) {
      if n in s'.families { FamilyComesFrom(items, s, canon, s', t, n); }
    }
    forall n | n in t.types && n !in s.types ensures TypeFrom(items, s, t, n) {
      if n in s'.types { TypeComesFrom(items, s, canon, s', t, n); }
    }
    forall k | k in t.attributes && k !in s.attributes ensures AttributeFrom(items, s, t, k) {
      if k in s'.attributes { AttributeComesFrom(items, s, canon, s', t, k); }
    }
    forall n | n in t.relationships && n !in s.relationships ensures RelationshipFrom(items, t, n) {
      if n in s'.relationships { RelationshipComesFrom(items, s, canon, s', t, n); }
    }
    forall i | |s.rules| <= i < |t.rules| ensures RuleFrom(items, t, canon, t.rules[i]) {
      if i < |s'.rules| { RuleComesFrom(items, s, canon, s', t, i); }
    }
  }

  /** Wherever a run ends, what it has created holds what the entries say. */
  lemma {:induction false} CreatedRowsHoldTheirEntries(items: seq<Item>, s: Tenant, canon: Canon, k: nat)
    ensures ComesFrom(items, s, Run(items, s, canon, k).tenant, canon)
  {
    if items != [] {
      match TurnOf(items[0], s, canon)
      case Skip =>
        CreatedRowsHoldTheirEntries(items[1..], s, canon, k);
        ComesFromRest(items, s, Run(items, s, canon, k).tenant, canon);
      case Refuse =>
      case Create(s') =>
        if k > 0 {
          CreationKeeps(items[0], s, canon);
          RunKeeps(items[1..], s', canon, k - 1);
          CreatedRowsHoldTheirEntries(items[1..], s', canon, k - 1);
          ComesFromRest(items, s', Run(items, s, canon, k).tenant, canon);
          CreatedComesFrom(items, s, canon, s', Run(items, s, canon, k).tenant);
        }
    }
  }

  /** The entry is there: by its name, or, of a rule, by its attributes and its canonical conditions. */
  ghost predicate IsThere(item: Item, t: Tenant, canon: Canon) {
    match item
    case FamilyItem(f) => f.name in t.families
    case CyclicTypes => false
    case TypeItem(x) => x.internalName in t.types
    case AttributeItem(a) => a.key in t.attributes
    case RelationshipItem(r) => r.internalName in t.relationships
    case DependencyItem(d) =>
      && d.source in t.attributes && d.target in t.attributes
      && exists i :: 0 <= i < |t.rules| && t.rules[i].source == t.attributes[d.source].id && t.rules[i].target == t.attributes[d.target].id
                     && canon(d.conditions, t.attributes[d.source].familyId) == Some(t.rules[i].conditions)
  }

  /** What an entry is refused for. */
  ghost predicate LacksSomething(item: Item, t: Tenant, canon: Canon) {
    match item
    case FamilyItem(f) => false
    case CyclicTypes => true
    case TypeItem(x) => x.internalName !in t.types && x.parent != "" && x.parent !in t.types
    case AttributeItem(a) => a.key.typeName !in t.types || (a.key !in t.attributes && a.unitFamily != "" && a.unitFamily !in t.families)
    case RelationshipItem(r) => r.internalName !in t.relationships && (r.parentType !in t.types || r.childType !in t.types)
    case DependencyItem(d) =>
      || d.source !in t.attributes || d.target !in t.attributes
      || canon(d.conditions, t.attributes[d.source].familyId) == None
      || canon(d.effect, t.attributes[d.target].familyId) == None
  }

  lemma RefusedLacksSomething(item: Item, s: Tenant, canon: Canon)
    ensures TurnOf(item, s, canon) == Refuse <==> LacksSomething(item, s, canon)
  {
  }

  /** A run is refused only for an entry that lacks something where it stopped. */
  lemma {:induction false} RefusedForACause(items: seq<Item>, s: Tenant, canon: Canon, k: nat)
    requires Run(items, s, canon, k).verdict.Refused?
    ensures exists item :: item in items && LacksSomething(item, Run(items, s, canon, k).tenant, canon)
  {
    match TurnOf(items[0], s, canon)
    case Skip => RefusedForACause(items[1..], s, canon, k);
    case Refuse => RefusedLacksSomething(items[0], s, canon);
    case Create(s') => RefusedForACause(items[1..], s', canon, k - 1);
  }

  lemma SkippedIsThere(item: Item, s: Tenant, canon: Canon)
    requires TurnOf(item, s, canon) == Skip
    ensures IsThere(item, s, canon)
  {
  }

  lemma IsThereStays(item: Item, s: Tenant, t: Tenant, canon: Canon)
    requires IsThere(item, s, canon) && Keeps(s, t)
    ensures IsThere(item, t, canon)
  {
    if item.DependencyItem? {
      var d := item.d;
      var i :| 0 <= i < |s.rules| && s.rules[i].source == s.attributes[d.source].id && s.rules[i].target == s.attributes[d.target].id
               && canon(d.conditions, s.attributes[d.source].familyId) == Some(s.rules[i].conditions);
      assert t.rules[i] == s.rules[i];
    }
  }

  lemma SkippedStaysThere(item: Item, s: Tenant, t: Tenant, canon: Canon)
    requires TurnOf(item, s, canon) == Skip && Keeps(s, t)
    ensures IsThere(item, t, canon)
  {
    SkippedIsThere(item, s, canon);
    IsThereStays(item, s, t, canon);
  }

  /** After a finished run every entry is there. */
  lemma {:induction false} FinishedHoldsEveryEntry(items: seq<Item>, s: Tenant, canon: Canon, k: nat)
    requires Run(items, s, canon, k).verdict.Finished?
    ensures AllThere(items, Run(items, s, canon, k).tenant, canon)
  {
    if items != [] {
      var t := Run(items, s, canon, k).tenant;
      match TurnOf(items[0], s, canon)
      case Skip =>
        FinishedHoldsEveryEntry(items[1..], s, canon, k);
        RunKeeps(items[1..], s, canon, k);
        SkippedStaysThere(items[0], s, t, canon);
      case Create(s') =>
        FinishedHoldsEveryEntry(items[1..], s', canon, k - 1);
        RunKeeps(items[1..], s', canon, k - 1);
        CreatedIsSkipped(items[0], s, canon);
        SkippedStaysThere(items[0], s', t, canon);
      FirstAndRestThere(items, t, canon);
    }
  }

  ghost predicate AllThere(items: seq<Item>, t: Tenant, canon: Canon) {
    forall item :: item in items ==> IsThere(item, t, canon)
  }

  lemma FirstAndRestThere(items: seq<Item>, t: Tenant, canon: Canon)
    requires items != [] && IsThere(items[0], t, canon) && AllThere(items[1..], t, canon)
    ensures AllThere(items, t, canon)
  {
    assert items == [items[0]] + items[1..];
  }

  /** No rule twice: neither under one effect nor under two. */
  ghost predicate RulesDiffer(s: Tenant) {
    forall i, j :: 0 <= i < j < |s.rules| ==>
      s.rules[i].source != s.rules[j].source || s.rules[i].target != s.rules[j].target || s.rules[i].conditions != s.rules[j].conditions
  }

  /** Re-applying a bundle never puts a second rule beside one the tenant has configured differently. */
  lemma {:induction false} ImportNeverDoublesARule(items: seq<Item>, s: Tenant, canon: Canon, k: nat)
    requires RulesDiffer(s)
    ensures RulesDiffer(Run(items, s, canon, k).tenant)
  {
    if items == [] {
    } else {
      match TurnOf(items[0], s, canon)
      case Skip => ImportNeverDoublesARule(items[1..], s, canon, k);
      case Refuse =>
      case Create(s') => if k > 0 { ImportNeverDoublesARule(items[1..], s', canon, k - 1); }
    }
  }

  // -------------------------------------------------------------------- bundles

  function FamilyItems(fs: seq<Family>): seq<Item> {
    seq(|fs|, i requires 0 <= i < |fs| => FamilyItem(fs[i]))
  }

  function TypeItems(ts: seq<Type>): seq<Item> {
    seq(|ts|, i requires 0 <= i < |ts| => TypeItem(ts[i]))
  }

  function AttributeItems(xs: seq<Attribute>): seq<Item> {
    seq(|xs|, i requires 0 <= i < |xs| => AttributeItem(xs[i]))
  }

  function RelationshipItems(rs: seq<RelationshipDefinition>): seq<Item> {
    seq(|rs|, i requires 0 <= i < |rs| => RelationshipItem(rs[i]))
  }

  function DependencyItems(ds: seq<Dependency>): seq<Item> {
    seq(|ds|, i requires 0 <= i < |ds| => DependencyItem(ds[i]))
  }

  /** Families first; a cycle among the bundle's types stops the import right behind them. */
  function Items(b: Bundle): seq<Item> {
    FamilyItems(b.families) +
    match SortedTypes(b.types)
    case None => [CyclicTypes]
    case Some(ordered) =>
      TypeItems(ordered) + (AttributeItems(b.attributes) + (RelationshipItems(b.relationships) + DependencyItems(b.dependencies)))
  }

  lemma {:induction false} RunConcat(a: seq<Item>, b: seq<Item>, s: Tenant, canon: Canon, k: nat)
    ensures var o := Run(a, s, canon, k);
      Run(a + b, s, canon, k) == if o.verdict.Finished? then Run(b, o.tenant, canon, o.spare) else o
  {
    if a == [] {
      assert a + b == b;
    } else {
      assert (a + b)[1..] == a[1..] + b;
      match TurnOf(a[0], s, canon)
      case Skip => RunConcat(a[1..], b, s, canon, k);
      case Refuse =>
      case Create(s') => if k > 0 { RunConcat(a[1..], b, s', canon, k - 1); }
    }
  }

  /** A type nobody knows the parent of: neither the tenant nor the bundle. */
  predicate Orphan(t: Type, s: Tenant, byName: map<string, Type>) {
    t.internalName !in s.types && t.parent != "" && t.parent !in s.types && t.parent !in byName
  }

  ghost predicate HasOrphan(ts: seq<Type>, s: Tenant, byName: map<string, Type>) {
    exists i :: 0 <= i < |ts| && Orphan(ts[i], s, byName)
  }

  /** What the order gives the i-th type: its name is new, its parent is listed, and only bundle names are. */
  ghost predicate InPlace(byName: map<string, Type>, ts: seq<Type>, i: nat)
    requires i < |ts|
  {
    && ts[i].internalName !in Names(ts[..i])
    && (ts[i].parent != "" && ts[i].parent in byName ==> ts[i].parent in Names(ts[..i]))
    && (forall n :: n in Names(ts[..i]) ==> n in byName)
  }

  lemma OrderedIsInPlace(byName: map<string, Type>, ts: seq<Type>, i: nat)
    requires IsTypeOrder(byName, ts) && i < |ts|
    ensures InPlace(byName, ts, i)
  {
    var order := Names(ts);
    assert order[i] == ts[i].internalName;
    assert forall j :: 0 <= j < i ==> Names(ts[..i])[j] == order[j] == ts[j].internalName;
    if ts[i].parent != "" && ts[i].parent in byName { ParentComesFirst(byName, ts, i); }
  }

  /** The first i types are in. */
  ghost predicate TypesIn(ts: seq<Type>, i: nat, s: Tenant, t: Tenant)
    requires i <= |ts|
  {
    forall n :: n in t.types <==> n in s.types || n in Names(ts[..i])
  }

  /** With every earlier type in, only an orphan is refused. */
  lemma TurnOfNextType(byName: map<string, Type>, ts: seq<Type>, i: nat, s: Tenant, t: Tenant)
    requires i < |ts| && InPlace(byName, ts, i) && TypesIn(ts, i, s, t)
    ensures TypeTurn(ts[i], t).Refuse? <==> Orphan(ts[i], s, byName)
    ensures TypeTurn(ts[i], t).Skip? ==> TypesIn(ts, i + 1, s, t)
    ensures TypeTurn(ts[i], t).Create? ==> TypesIn(ts, i + 1, s, TypeTurn(ts[i], t).tenant)
  {
    assert Names(ts[..i + 1]) == Names(ts[..i]) + [ts[i].internalName];
  }

  /** In the sorted order the type phase is refused for a missing parent only when the parent is nowhere. */
  lemma TypesAreRefusedOnlyForOrphans(byName: map<string, Type>, ts: seq<Type>, s: Tenant, canon: Canon, k: nat)
    requires IsTypeOrder(byName, ts) && k >= |ts|
    ensures Run(TypeItems(ts), s, canon, k).verdict == if HasOrphan(ts, s, byName) then Refused else Finished
  {
    forall i | 0 <= i < |ts| ensures InPlace(byName, ts, i) { OrderedIsInPlace(byName, ts, i); }
    assert ts[..0] == [] && ts[0..] == ts;
    RefusedFrom(byName, ts, 0, s, s, canon, k);
  }

  /** The first i types are in; the rest follow. */
  lemma {:induction false} RefusedFrom(byName: map<string, Type>, ts: seq<Type>, i: nat, s: Tenant, t: Tenant, canon: Canon, k: nat)
    requires forall j :: 0 <= j < |ts| ==> InPlace(byName, ts, j)
    requires i <= |ts| && k >= |ts| - i && TypesIn(ts, i, s, t)
    requires forall j :: 0 <= j < i ==> !Orphan(ts[j], s, byName)
    ensures Run(TypeItems(ts[i..]), t, canon, k).verdict == if HasOrphan(ts, s, byName) then Refused else Finished
    decreases |ts| - i
  {
    if i < |ts| {
      NextTypeItem(ts, i, t, canon);
      TurnOfNextType(byName, ts, i, s, t);
      match TypeTurn(ts[i], t)
      case Skip => RefusedFrom(byName, ts, i + 1, s, t, canon, k);
      case Refuse =>
      case Create(t') => RefusedFrom(byName, ts, i + 1, s, t', canon, k - 1);
    }
  }

  lemma NextTypeItem(ts: seq<Type>, i: nat, t: Tenant, canon: Canon)
    requires i < |ts|
    ensures TypeItems(ts[i..])[1..] == TypeItems(ts[i + 1..]) && TypeItems(ts[i..]) != []
    ensures TurnOf(TypeItems(ts[i..])[0], t, canon) == TypeTurn(ts[i], t)
  {
    assert TypeItems(ts[i..])[0] == TypeItem(ts[i]);
  }

  // ------------------------------------------------- the same, said of the bundle

  ghost predicate BundleIsThere(b: Bundle, t: Tenant, canon: Canon) {
    && (forall f :: f in b.families ==> f.name in t.families)
    && (forall x :: x in b.types ==> x.internalName in t.types)
    && (forall a :: a in b.attributes ==> a.key in t.attributes)
    && (forall r :: r in b.relationships ==> r.internalName in t.relationships)
    && (forall d :: d in b.dependencies ==> IsThere(DependencyItem(d), t, canon))
  }

  ghost predicate IsBundleRule(b: Bundle, t: Tenant, canon: Canon, rule: Rule) {
    exists d :: d in b.dependencies && RuleIs(d, t, canon, rule)
  }

  /** Whatever is new is an entry's, with what the entry says: of types with one name, the last entry's. */
  ghost predicate NewRowsAreTheBundles(b: Bundle, s: Tenant, t: Tenant, canon: Canon) {
    && (forall n :: n in t.families && n !in s.families ==> s.nextId <= t.families[n] < t.nextId && exists f :: f in b.families && f.name == n)
    && (forall n :: n in t.types && n !in s.types ==>
          s.nextId <= t.types[n].id < t.nextId && exists x :: IsEntry(b.types, x) && TypeIs(x, t, n))
    && (forall k :: k in t.attributes && k !in s.attributes ==>
          s.nextId <= t.attributes[k].id < t.nextId && exists x :: x in b.attributes && AttributeIs(x, t, k))
    && (forall n :: n in t.relationships && n !in s.relationships ==> exists x :: x in b.relationships && RelationshipIs(x, t, n))
    && (forall i :: |s.rules| <= i < |t.rules| ==> IsBundleRule(b, t, canon, t.rules[i]))
  }

  /** An item of the import is an entry of the bundle. */
  lemma ItemIsAnEntry(b: Bundle, item: Item)
    requires item in Items(b)
    ensures match item
            case FamilyItem(f) => f in b.families
            case CyclicTypes => true
            case TypeItem(x) => IsEntry(b.types, x)
            case AttributeItem(a) => a in b.attributes
            case RelationshipItem(r) => r in b.relationships
            case DependencyItem(d) => d in b.dependencies
  {
    SortedTypesAreEntries(b.types);
  }

  /** The bundle asks for something the tenant does not have, or extends a type in a circle. */
  ghost predicate CannotBeImported(b: Bundle, t: Tenant, canon: Canon) {
    || (exists p :: ExtendsInCircle(b.types, p))
    || (exists x :: IsEntry(b.types, x) && LacksSomething(TypeItem(x), t, canon))
    || (exists a :: a in b.attributes && LacksSomething(AttributeItem(a), t, canon))
    || (exists r :: r in b.relationships && LacksSomething(RelationshipItem(r), t, canon))
    || (exists d :: d in b.dependencies && LacksSomething(DependencyItem(d), t, canon))
  }

  lemma RefusedBundleCannotBeImported(b: Bundle, s: Tenant, canon: Canon, k: nat)
    requires Run(Items(b), s, canon, k).verdict.Refused?
    requires SortedTypes(b.types).None? ==> exists p :: ExtendsInCircle(b.types, p)
    ensures CannotBeImported(b, Run(Items(b), s, canon, k).tenant, canon)
  {
    RefusedForACause(Items(b), s, canon, k);
    var item :| item in Items(b) && LacksSomething(item, Run(Items(b), s, canon, k).tenant, canon);
    ItemIsAnEntry(b, item);
  }

  lemma NewFamilies(b: Bundle, s: Tenant, t: Tenant, n: string)
    requires FamilyFrom(Items(b), s, t, n)
    ensures exists f :: f in b.families && f.name == n
  {
    var f :| FamilyItem(f) in Items(b) && f.name == n;
    ItemIsAnEntry(b, FamilyItem(f));
  }

  lemma NewTypes(b: Bundle, s: Tenant, t: Tenant, n: string)
    requires TypeFrom(Items(b), s, t, n)
    ensures exists x :: IsEntry(b.types, x) && TypeIs(x, t, n)
  {
    var x :| TypeItem(x) in Items(b) && TypeIs(x, t, n);
    ItemIsAnEntry(b, TypeItem(x));
  }

  lemma NewAttributes(b: Bundle, s: Tenant, t: Tenant, k: AttrKey)
    requires AttributeFrom(Items(b), s, t, k)
    ensures exists x :: x in b.attributes && AttributeIs(x, t, k)
  {
    var x :| AttributeItem(x) in Items(b) && AttributeIs(x, t, k);
    ItemIsAnEntry(b, AttributeItem(x));
  }

  lemma NewRelationships(b: Bundle, t: Tenant, n: string)
    requires RelationshipFrom(Items(b), t, n)
    ensures exists x :: x in b.relationships && RelationshipIs(x, t, n)
  {
    var x :| RelationshipItem(x) in Items(b) && RelationshipIs(x, t, n);
    ItemIsAnEntry(b, RelationshipItem(x));
  }

  lemma NewRules(b: Bundle, t: Tenant, canon: Canon, rule: Rule)
    requires RuleFrom(Items(b), t, canon, rule)
    ensures IsBundleRule(b, t, canon, rule)
  {
    var d :| DependencyItem(d) in Items(b) && RuleIs(d, t, canon, rule);
    ItemIsAnEntry(b, DependencyItem(d));
  }

  lemma ComesFromTheBundle(b: Bundle, s: Tenant, t: Tenant, canon: Canon)
    requires ComesFrom(Items(b), s, t, canon)
    ensures NewRowsAreTheBundles(b, s, t, canon)
  {
    forall n | n in t.families && n !in s.families
      ensures s.nextId <= t.families[n] < t.nextId && exists f :: f in b.families && f.name == n
    {
      assert FamilyFrom(Items(b), s, t, n);
      NewFamilies(b, s, t, n);
    }
    forall n | n in t.types && n !in s.types
      ensures s.nextId <= t.types[n].id < t.nextId && exists x :: IsEntry(b.types, x) && TypeIs(x, t, n)
    {
      assert TypeFrom(Items(b), s, t, n);
      NewTypes(b, s, t, n);
    }
    forall k | k in t.attributes && k !in s.attributes
      ensures s.nextId <= t.attributes[k].id < t.nextId && exists x :: x in b.attributes && AttributeIs(x, t, k)
    {
      assert AttributeFrom(Items(b), s, t, k);
      NewAttributes(b, s, t, k);
    }
    forall n | n in t.relationships && n !in s.relationships ensures exists x :: x in b.relationships && RelationshipIs(x, t, n) {
      NewRelationships(b, t, n);
    }
    forall i | |s.rules| <= i < |t.rules| ensures IsBundleRule(b, t, canon, t.rules[i]) {
      NewRules(b, t, canon, t.rules[i]);
    }
  }

  lemma PartsOfItems(b: Bundle, ordered: seq<Type>, item: Item)
    requires SortedTypes(b.types) == Some(ordered)
    requires item in FamilyItems(b.families) || item in TypeItems(ordered) || item in AttributeItems(b.attributes) ||
      item in RelationshipItems(b.relationships) || item in DependencyItems(b.dependencies)
    ensures item in Items(b)
  {
  }

  lemma EntryIsAnItem(b: Bundle, ordered: seq<Type>)
    requires SortedTypes(b.types) == Some(ordered)
    ensures forall f :: f in b.families ==> FamilyItem(f) in Items(b)
    ensures forall x :: x in ordered ==> TypeItem(x) in Items(b)
    ensures forall a :: a in b.attributes ==> AttributeItem(a) in Items(b)
    ensures forall r :: r in b.relationships ==> RelationshipItem(r) in Items(b)
    ensures forall d :: d in b.dependencies ==> DependencyItem(d) in Items(b)
  {
    forall f | f in b.families ensures FamilyItem(f) in Items(b) {
      var i :| 0 <= i < |b.families| && b.families[i] == f;
      assert FamilyItems(b.families)[i] == FamilyItem(f);
      PartsOfItems(b, ordered, FamilyItem(f));
    }
    forall x | x in ordered ensures TypeItem(x) in Items(b) {
      var i :| 0 <= i < |ordered| && ordered[i] == x;
      assert TypeItems(ordered)[i] == TypeItem(x);
      PartsOfItems(b, ordered, TypeItem(x));
    }
    forall a | a in b.attributes ensures AttributeItem(a) in Items(b) {
      var i :| 0 <= i < |b.attributes| && b.attributes[i] == a;
      assert AttributeItems(b.attributes)[i] == AttributeItem(a);
      PartsOfItems(b, ordered, AttributeItem(a));
    }
    forall r | r in b.relationships ensures RelationshipItem(r) in Items(b) {
      var i :| 0 <= i < |b.relationships| && b.relationships[i] == r;
      assert RelationshipItems(b.relationships)[i] == RelationshipItem(r);
      PartsOfItems(b, ordered, RelationshipItem(r));
    }
    forall d | d in b.dependencies ensures DependencyItem(d) in Items(b) {
      var i :| 0 <= i < |b.dependencies| && b.dependencies[i] == d;
      assert DependencyItems(b.dependencies)[i] == DependencyItem(d);
      PartsOfItems(b, ordered, DependencyItem(d));
    }
  }

  lemma ItemsThereIsBundleThere(b: Bundle, ordered: seq<Type>, t: Tenant, canon: Canon)
    requires SortedTypes(b.types) == Some(ordered) && InParentOrder(b.types, ordered)
    requires AllThere(Items(b), t, canon)
    ensures BundleIsThere(b, t, canon)
  {
    EntryIsAnItem(b, ordered);
    forall f | f in b.families ensures f.name in t.families { assert IsThere(FamilyItem(f), t, canon); }
    forall x | x in b.types ensures x.internalName in t.types {
      var last := LastEntryOf(b.types, x);
      assert IsThere(TypeItem(last), t, canon);
    }
    forall a | a in b.attributes ensures a.key in t.attributes { assert IsThere(AttributeItem(a), t, canon); }
    forall r | r in b.relationships ensures r.internalName in t.relationships { assert IsThere(RelationshipItem(r), t, canon); }
  }
}
