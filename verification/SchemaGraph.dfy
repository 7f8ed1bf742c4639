/**
  The formulas of one type hierarchy, and the cycle check of the writes to it.

  A type's entities carry the attributes of its chain: its own and its ancestors'.  A create is
  checked against the formulas of the whole hierarchy, an update against the declaring type's chain
  and descendants only; a restore is not checked.  What must stay acyclic is each type's own graph.
 */
module SchemaGraph {
  import opened RefGraph

  /** An attribute and the names its formula reads; none when it is not a formula. */
  datatype Attribute = Attribute(name: string, owner: string, refs: seq<string>, live: bool)

  /** For each type the types of its chain, itself included; the attributes by id, archived ones too. */
  datatype Schema = Schema(chains: map<string, set<string>>, attrs: map<nat, Attribute>)

  /** Chains are nested and linear, as those of a tree are. */
  ghost predicate IsTree(chains: map<string, set<string>>) {
    && (forall t :: t in chains ==> t in chains[t] && chains[t] <= chains.Keys)
    && (forall t, u :: t in chains && u in chains[t] && u in chains ==> chains[u] <= chains[t])
    && (forall t, u, v :: t in chains && u in chains[t] && v in chains[t] && u in chains && v in chains ==>
          u in chains[v] || v in chains[u])
  }

  predicate LiveName(s: Schema, name: string) {
    exists i :: i in s.attrs && s.attrs[i].live && s.attrs[i].name == name
  }

  /** One name means one live attribute across the hierarchy. */
  ghost predicate NamesDistinct(s: Schema) {
    forall i, j :: i in s.attrs && j in s.attrs && s.attrs[i].live && s.attrs[j].live && s.attrs[i].name == s.attrs[j].name ==> i == j
  }

  ghost predicate WellFormed(s: Schema) {
    IsTree(s.chains) && NamesDistinct(s) && forall i :: i in s.attrs ==> s.attrs[i].owner in s.chains
  }

  /** The formulas declared on the given types. */
  ghost function GraphOver(s: Schema, types: set<string>): Graph
    requires NamesDistinct(s)
  {
    map i | i in s.attrs && s.attrs[i].live && s.attrs[i].owner in types :: s.attrs[i].name := s.attrs[i].refs
  }

  /** The formulas an entity of the type carries. */
  ghost function Effective(s: Schema, t: string): Graph
    requires WellFormed(s) && t in s.chains
  {
    GraphOver(s, s.chains[t])
  }

  ghost predicate EveryTypeAcyclic(s: Schema)
    requires WellFormed(s)
  {
    forall t :: t in s.chains ==> Acyclic(Effective(s, t))
  }

  /** The type's chain and its descendants. */
  function Related(s: Schema, t: string): set<string>
    requires t in s.chains
  {
    s.chains[t] + set u | u in s.chains && t in s.chains[u]
  }

  datatype Step =
    | AddType(t: string, parent: string)
    | Create(id: nat, name: string, owner: string, refs: seq<string>)
    | Update(id: nat, refs: seq<string>)
    | Archive(id: nat)
    | Restore(id: nat)

  /** The cycle check of a write, over the formulas of the given types. */
  ghost predicate Passes(s: Schema, types: set<string>, name: string, refs: seq<string>)
    requires NamesDistinct(s)
  {
    !Reaches(GraphOver(s, types)[name := refs], name, name)
  }

  ghost predicate Next(s: Schema, step: Step, s': Schema)
    requires WellFormed(s)
  {
    match step
    case AddType(t, parent) =>
      t !in s.chains && parent in s.chains && s' == s.(chains := s.chains[t := s.chains[parent] + {t}])
    case Create(id, name, owner, refs) =>
      && id !in s.attrs && owner in s.chains && !LiveName(s, name)
      && Passes(s, s.chains.Keys, name, refs)
      && s' == s.(attrs := s.attrs[id := Attribute(name, owner, refs, true)])
    case Update(id, refs) =>
      && id in s.attrs && s.attrs[id].live
      && Passes(s, Related(s, s.attrs[id].owner), s.attrs[id].name, refs)
      && s' == s.(attrs := s.attrs[id := s.attrs[id].(refs := refs)])
    case Archive(id) =>
      id in s.attrs && s.attrs[id].live && s' == s.(attrs := s.attrs[id := s.attrs[id].(live := false)])
    case Restore(id) =>
      && id in s.attrs && !s.attrs[id].live && !LiveName(s, s.attrs[id].name)
      && s' == s.(attrs := s.attrs[id := s.attrs[id].(live := true)])
  }

  lemma AddTypeKeepsTree(chains: map<string, set<string>>, t: string, parent: string)
    requires IsTree(chains) && t !in chains && parent in chains
    ensures IsTree(chains[t := chains[parent] + {t}])
  {
    var after := chains[t := chains[parent] + {t}];
    forall x, u | x in after && u in after[x] && u in after ensures after[u] <= after[x] {
      if u == t { assert x == t; }
    }
    forall x, u, v | x in after && u in after[x] && v in after[x] && u in after && v in after ensures u in after[v] || v in after[u] {
      if x == t && u != t && v != t { assert u in chains[parent] && v in chains[parent]; }
    }
  }

  lemma StepKeepsWellFormed(s: Schema, step: Step, s': Schema)
    requires WellFormed(s) && Next(s, step, s')
    ensures WellFormed(s')
  {
    match step {
      case AddType(t, parent) => AddTypeKeepsTree(s.chains, t, parent);
      case Create(id, _, _, _) => FreeNameKeepsNamesDistinct(s, id, s'.attrs[id], s');
      case Restore(id) => FreeNameKeepsNamesDistinct(s, id, s'.attrs[id], s');
      case Update(id, _) => SameNameKeepsNamesDistinct(s, id, s'.attrs[id], s');
      case Archive(id) => SameNameKeepsNamesDistinct(s, id, s'.attrs[id], s');
    }
  }

  lemma FreeNameKeepsNamesDistinct(s: Schema, id: nat, a: Attribute, s': Schema)
    requires NamesDistinct(s) && !LiveName(s, a.name) && s' == s.(attrs := s.attrs[id := a])
    ensures NamesDistinct(s')
  {
  }

  lemma SameNameKeepsNamesDistinct(s: Schema, id: nat, a: Attribute, s': Schema)
    requires NamesDistinct(s) && id in s.attrs && s.attrs[id].live && a.name == s.attrs[id].name && s' == s.(attrs := s.attrs[id := a])
    ensures NamesDistinct(s')
  {
  }

  // ------------------------------------------------------------------ graphs

  lemma GraphOverAt(s: Schema, types: set<string>, i: nat)
    requires NamesDistinct(s) && i in s.attrs && s.attrs[i].live
    ensures s.attrs[i].name in GraphOver(s, types) <==> s.attrs[i].owner in types
    ensures s.attrs[i].owner in types ==> GraphOver(s, types)[s.attrs[i].name] == s.attrs[i].refs
  {
  }

  lemma GraphOverSource(s: Schema, types: set<string>, n: string) returns (i: nat)
    requires NamesDistinct(s) && n in GraphOver(s, types)
    ensures i in s.attrs && s.attrs[i].live && s.attrs[i].owner in types && s.attrs[i].name == n
    ensures GraphOver(s, types)[n] == s.attrs[i].refs
  {
    i :| i in s.attrs && s.attrs[i].live && s.attrs[i].owner in types && s.attrs[i].name == n;
  }

  /** Fewer types, fewer edges. */
  lemma GraphOverGrows(s: Schema, few: set<string>, many: set<string>, name: string, refs: seq<string>, n: string, r: string)
    requires NamesDistinct(s) && few <= many && r in Succ(GraphOver(s, few)[name := refs], n)
    ensures r in Succ(GraphOver(s, many)[name := refs], n)
  {
    if n != name {
      var i := GraphOverSource(s, few, n);
      GraphOverAt(s, many, i);
    }
  }

  lemma MoreEdgesReachMore(g: Graph, h: Graph, a: string, b: string)
    requires forall n, r :: r in Succ(g, n) ==> r in Succ(h, n)
    requires Reaches(g, a, b)
    ensures Reaches(h, a, b)
  {
    var p :| IsPath(g, p) && p[0] == a && p[|p| - 1] == b;
    assert IsPath(h, p);
  }

  /** What passes over more types passes over fewer. */
  lemma PassesOverFewer(s: Schema, few: set<string>, many: set<string>, name: string, refs: seq<string>)
    requires NamesDistinct(s) && few <= many && Passes(s, many, name, refs)
    ensures Passes(s, few, name, refs)
  {
    var g, h := GraphOver(s, few)[name := refs], GraphOver(s, many)[name := refs];
    forall n, r | r in Succ(g, n) ensures r in Succ(h, n) { GraphOverGrows(s, few, many, name, refs, n, r); }
    if Reaches(g, name, name) { MoreEdgesReachMore(g, h, name, name); }
  }

  /** A write of a live attribute: one that is there, under its name and owner, or one whose name is free. */
  ghost predicate Writes(s: Schema, id: nat, a: Attribute, s': Schema) {
    && NamesDistinct(s) && NamesDistinct(s') && s' == s.(attrs := s.attrs[id := a]) && a.live
    && (if id in s.attrs && s.attrs[id].live then s.attrs[id].name == a.name && s.attrs[id].owner == a.owner else !LiveName(s, a.name))
  }

  ghost predicate SameEdges(g: Graph, h: Graph, n: string) {
    (n in g <==> n in h) && (n in g ==> g[n] == h[n])
  }

  /** The written name has the written edges where its owner counts, and none elsewhere. */
  lemma WrittenName(s: Schema, id: nat, a: Attribute, s': Schema, types: set<string>)
    requires Writes(s, id, a, s')
    ensures if a.owner in types then a.name in GraphOver(s', types) && GraphOver(s', types)[a.name] == a.refs
            else a.name !in GraphOver(s', types) && a.name !in GraphOver(s, types)
  {
    GraphOverAt(s', types, id);
    if a.owner !in types && a.name in GraphOver(s, types) {
      var i := GraphOverSource(s, types, a.name);
    }
  }

  lemma OtherNames(s: Schema, id: nat, a: Attribute, s': Schema, types: set<string>, n: string)
    requires Writes(s, id, a, s') && n != a.name
    ensures SameEdges(GraphOver(s', types), GraphOver(s, types), n)
  {
    if n in GraphOver(s', types) {
      var i := GraphOverSource(s', types, n);
      GraphOverAt(s, types, i);
    }
    if n in GraphOver(s, types) {
      var i := GraphOverSource(s, types, n);
      GraphOverAt(s', types, i);
    }
  }

  /** One live formula written: the graphs that hold its type gain its edges, the others stay. */
  lemma WriteMovesGraph(s: Schema, id: nat, a: Attribute, s': Schema, types: set<string>)
    requires Writes(s, id, a, s')
    ensures GraphOver(s', types) == if a.owner in types then GraphOver(s, types)[a.name := a.refs] else GraphOver(s, types)
  {
    var h := if a.owner in types then GraphOver(s, types)[a.name := a.refs] else GraphOver(s, types);
    WrittenName(s, id, a, s', types);
    forall n ensures SameEdges(GraphOver(s', types), h, n) {
      if n != a.name { OtherNames(s, id, a, s', types, n); }
    }
    GraphsEqual(GraphOver(s', types), h);
  }

  lemma GraphsEqual(g: Graph, h: Graph)
    requires forall n :: SameEdges(g, h, n)
    ensures g == h
  {
    forall n ensures n in g <==> n in h { assert SameEdges(g, h, n); }
    forall n | n in g ensures g[n] == h[n] { assert SameEdges(g, h, n); }
  }

  /** The types whose entities carry an attribute are all related to its owner, and so are their chains. */
  lemma ChainIsRelated(s: Schema, t: string, owner: string)
    requires IsTree(s.chains) && t in s.chains && owner in s.chains[t] && owner in s.chains
    ensures s.chains[t] <= Related(s, owner)
  {
    forall u | u in s.chains[t] ensures u in Related(s, owner) { assert u in s.chains; }
  }

  // ------------------------------------------------------------ main results

  /** After one live formula is written, every type's graph is acyclic exactly when the written name reaches
      itself in none of those that carry it. */
  lemma WriteKeepsEveryTypeAcyclicIff(s: Schema, id: nat, a: Attribute, s': Schema)
    requires WellFormed(s) && WellFormed(s') && EveryTypeAcyclic(s) && Writes(s, id, a, s')
    ensures EveryTypeAcyclic(s') <==> forall t :: t in s.chains && a.owner in s.chains[t] ==> Passes(s, s.chains[t], a.name, a.refs)
  {
    forall t | t in s.chains
      ensures Acyclic(Effective(s', t)) <==> (a.owner in s.chains[t] ==> Passes(s, s.chains[t], a.name, a.refs))
    {
      WriteMovesGraph(s, id, a, s', s.chains[t]);
      assert Acyclic(Effective(s, t));
      if a.owner in s.chains[t] { AcceptedWriteKeepsAcyclic(Effective(s, t), a.name, a.refs); }
    }
    if forall t :: t in s.chains && a.owner in s.chains[t] ==> Passes(s, s.chains[t], a.name, a.refs) {
      forall t | t in s'.chains ensures Acyclic(Effective(s', t)) { assert t in s.chains; }
    }
  }

  /** An update is judged on enough of the hierarchy, and a create on more than enough. */
  lemma AcceptedWriteKeepsEveryTypeAcyclic(s: Schema, step: Step, s': Schema)
    requires WellFormed(s) && EveryTypeAcyclic(s) && Next(s, step, s') && WellFormed(s')
    requires step.Create? || step.Update?
    ensures EveryTypeAcyclic(s')
  {
    var a := s'.attrs[step.id];
    forall t | t in s.chains && a.owner in s.chains[t] ensures Passes(s, s.chains[t], a.name, a.refs) {
      ChainIsRelated(s, t, a.owner);
      PassesOverFewer(s, s.chains[t], if step.Create? then s.chains.Keys else Related(s, a.owner), a.name, a.refs);
    }
    WriteKeepsEveryTypeAcyclicIff(s, step.id, a, s');
  }

  lemma AddTypeKeepsEveryTypeAcyclic(s: Schema, step: Step, s': Schema)
    requires WellFormed(s) && EveryTypeAcyclic(s) && Next(s, step, s') && WellFormed(s') && step.AddType?
    ensures EveryTypeAcyclic(s')
  {
    forall t | t in s'.chains ensures Acyclic(Effective(s', t)) {
      var u := if t == step.t then step.parent else t;
      assert Acyclic(Effective(s, u));
      assert Effective(s', t) == Effective(s, u) by { OnlyNewType(s, step.t, step.parent, s', t, u); }
    }
  }

  /** A new type has no attributes of its own yet. */
  lemma OnlyNewType(s: Schema, added: string, parent: string, s': Schema, t: string, u: string)
    requires WellFormed(s) && WellFormed(s') && added !in s.chains && parent in s.chains
    requires s' == s.(chains := s.chains[added := s.chains[parent] + {added}])
    requires t in s'.chains && u == if t == added then parent else t
    ensures Effective(s', t) == Effective(s, u)
  {
    forall n ensures SameEdges(Effective(s', t), Effective(s, u), n) {
      if n in Effective(s', t) {
        var i := GraphOverSource(s', s'.chains[t], n);
        GraphOverAt(s, s.chains[u], i);
      }
      if n in Effective(s, u) {
        var i := GraphOverSource(s, s.chains[u], n);
        GraphOverAt(s', s'.chains[t], i);
      }
    }
    GraphsEqual(Effective(s', t), Effective(s, u));
  }

  lemma ArchiveKeepsEveryTypeAcyclic(s: Schema, step: Step, s': Schema)
    requires WellFormed(s) && EveryTypeAcyclic(s) && Next(s, step, s') && WellFormed(s') && step.Archive?
    ensures EveryTypeAcyclic(s')
  {
    forall t | t in s'.chains ensures Acyclic(Effective(s', t)) {
      ArchiveDropsEdges(s, step.id, s', s.chains[t]);
      assert Acyclic(Effective(s, t));
      forall n ensures !Reaches(Effective(s', t), n, n) {
        if Reaches(Effective(s', t), n, n) { MoreEdgesReachMore(Effective(s', t), Effective(s, t), n, n); }
      }
    }
  }

  lemma ArchiveDropsEdges(s: Schema, id: nat, s': Schema, types: set<string>)
    requires NamesDistinct(s) && NamesDistinct(s') && id in s.attrs && s' == s.(attrs := s.attrs[id := s.attrs[id].(live := false)])
    ensures forall n, r :: r in Succ(GraphOver(s', types), n) ==> r in Succ(GraphOver(s, types), n)
  {
    forall n, r | r in Succ(GraphOver(s', types), n) ensures r in Succ(GraphOver(s, types), n) {
      var i := GraphOverSource(s', types, n);
      GraphOverAt(s, types, i);
    }
  }

  /** Is the step harmless?  A restore is when no type that carries the attribute would gain a cycle. */
  ghost predicate Harmless(s: Schema, step: Step)
    requires WellFormed(s)
  {
    step.Restore? && step.id in s.attrs ==>
      var a := s.attrs[step.id];
      forall t :: t in s.chains && a.owner in s.chains[t] ==> Passes(s, s.chains[t], a.name, a.refs)
  }

  /** From acyclic graphs, a step leaves every type's graph acyclic exactly when it is harmless: always, but for
      a restore, which is not checked. */
  lemma StepKeepsEveryTypeAcyclicIff(s: Schema, step: Step, s': Schema)
    requires WellFormed(s) && EveryTypeAcyclic(s) && Next(s, step, s')
    ensures WellFormed(s') && (EveryTypeAcyclic(s') <==> Harmless(s, step))
  {
    StepKeepsWellFormed(s, step, s');
    match step {
      case AddType(_, _) => AddTypeKeepsEveryTypeAcyclic(s, step, s');
      case Create(_, _, _, _) => AcceptedWriteKeepsEveryTypeAcyclic(s, step, s');
      case Update(_, _) => AcceptedWriteKeepsEveryTypeAcyclic(s, step, s');
      case Archive(_) => ArchiveKeepsEveryTypeAcyclic(s, step, s');
      case Restore(id) => WriteKeepsEveryTypeAcyclicIff(s, id, s'.attrs[id], s');
    }
  }

  /** A hierarchy as it is created: one type, no attributes. */
  function NewHierarchy(root: string): Schema {
    Schema(map[root := {root}], map[])
  }

  /** A run of steps from a new hierarchy. */
  ghost predicate IsRun(states: seq<Schema>, steps: seq<Step>) {
    && |states| == |steps| + 1
    && (exists root :: states[0] == NewHierarchy(root))
    && forall i :: 0 <= i < |steps| ==> WellFormed(states[i]) && Next(states[i], steps[i], states[i + 1])
  }

  /** Throughout every run whose restores are harmless, one without restores say, no type's graph has a cycle. */
  lemma {:induction false} AcceptedWritesNeverCycle(states: seq<Schema>, steps: seq<Step>, k: nat)
    requires IsRun(states, steps) && k < |states|
    requires forall i :: 0 <= i < k ==> Harmless(states[i], steps[i])
    ensures WellFormed(states[k]) && EveryTypeAcyclic(states[k])
  {
    if k == 0 {
      EmptyGraphIsAcyclic();
    } else {
      AcceptedWritesNeverCycle(states, steps, k - 1);
      assert Next(states[k - 1], steps[k - 1], states[k - 1 + 1]);
      StepKeepsEveryTypeAcyclicIff(states[k - 1], steps[k - 1], states[k]);
    }
  }

  const ROOT := map["root" := {"root"}]
  const A := Attribute("a", "root", ["b"], true)
  const B := Attribute("b", "root", ["a"], true)

  /** An attribute archived, another created that reads it and that it reads, and the first one restored. */
  function Stages(): seq<Schema> {
    [Schema(ROOT, map[]), Schema(ROOT, map[0 := A]), Schema(ROOT, map[0 := A.(live := false)]),
     Schema(ROOT, map[0 := A.(live := false), 1 := B]), Schema(ROOT, map[0 := A, 1 := B])]
  }

  function StageSteps(): seq<Step> {
    [Create(0, "a", "root", ["b"]), Archive(0), Create(1, "b", "root", ["a"]), Restore(0)]
  }

  /** With no live attribute, any formula passes that does not read itself. */
  lemma PassesAlone(s: Schema, types: set<string>, name: string, ref: string)
    requires NamesDistinct(s) && (forall i :: i in s.attrs ==> !s.attrs[i].live) && name != ref
    ensures Passes(s, types, name, [ref])
  {
    var g := GraphOver(s, types)[name := [ref]];
    forall n ensures n !in GraphOver(s, types) {
      if n in GraphOver(s, types) { var i := GraphOverSource(s, types, n); }
    }
    ClosedSetIsAWall(g, {name, ref}, name, name);
  }

  /** A first formula over a hierarchy without live attributes is accepted. */
  lemma CreateAlone(s: Schema, id: nat, name: string, owner: string, ref: string)
    requires WellFormed(s) && (forall i :: i in s.attrs ==> !s.attrs[i].live)
    requires name != ref && id !in s.attrs && owner in s.chains
    ensures Next(s, Create(id, name, owner, [ref]), s.(attrs := s.attrs[id := Attribute(name, owner, [ref], true)]))
  {
    PassesAlone(s, s.chains.Keys, name, ref);
  }

  lemma StagesAreWellFormed(k: nat)
    requires k <= 4
    ensures WellFormed(Stages()[k])
  {
    assert IsTree(ROOT);
  }

  lemma SwitchStep(s: Schema, id: nat)
    requires WellFormed(s) && id in s.attrs
    ensures s.attrs[id].live ==> Next(s, Archive(id), s.(attrs := s.attrs[id := s.attrs[id].(live := false)]))
    ensures !s.attrs[id].live && !LiveName(s, s.attrs[id].name) ==>
      Next(s, Restore(id), s.(attrs := s.attrs[id := s.attrs[id].(live := true)]))
  {
  }

  lemma StageStep(k: nat)
    requires k < 4
    ensures WellFormed(Stages()[k]) && Next(Stages()[k], StageSteps()[k], Stages()[k + 1])
  {
    StagesAreWellFormed(k);
    match k {
      case 0 => CreateAlone(Stages()[0], 0, "a", "root", "b");
      case 1 => SwitchStep(Stages()[1], 0);
      case 2 => CreateAlone(Stages()[2], 1, "b", "root", "a");
      case 3 => SwitchStep(Stages()[3], 0);
    }
    StageFollows(k);
  }

  lemma StageFollows(k: nat)
    requires k < 4
    ensures var s, s' := Stages()[k], Stages()[k + 1];
      match k
      case 0 => s' == s.(attrs := s.attrs[0 := A])
      case 1 => s' == s.(attrs := s.attrs[0 := A.(live := false)])
      case 2 => s' == s.(attrs := s.attrs[1 := B])
      case _ => s' == s.(attrs := s.attrs[0 := A]) && !LiveName(s, "a")
  {
  }

  /** Restored into a cycle no write was refused for. */
  lemma RestoreCanCycle()
    ensures IsRun(Stages(), StageSteps())
    ensures WellFormed(Stages()[4]) && Reaches(Effective(Stages()[4], "root"), "a", "a")
  {
    assert Stages()[0] == NewHierarchy("root");
    forall k | 0 <= k < |StageSteps()| ensures WellFormed(Stages()[k]) && Next(Stages()[k], StageSteps()[k], Stages()[k + 1]) {
      StageStep(k);
    }
    StepKeepsWellFormed(Stages()[3], StageSteps()[3], Stages()[4]);
    EachReadsTheOther(Stages()[4]);
  }

  lemma EachReadsTheOther(s: Schema)
    requires WellFormed(s) && s.chains == ROOT && s.attrs == map[0 := A, 1 := B]
    ensures Reaches(Effective(s, "root"), "a", "a")
  {
    var g := Effective(s, "root");
    GraphOverAt(s, {"root"}, 0);
    GraphOverAt(s, {"root"}, 1);
    EdgeReaches(g, "a", "b");
    EdgeReaches(g, "b", "a");
    ReachesTransitive(g, "a", "b", "a");
  }
}
