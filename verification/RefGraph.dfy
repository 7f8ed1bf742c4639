/**
  The reference graph of computed attributes and the two depth-first searches
  over it: `checkFormulaCycle`, which refuses a formula at create and update, and
  `cyclicNames`, the materializer's own net.
 */
module RefGraph {

  /** For each attribute, the names its formula reads, in reading order. */
  type Graph = map<string, seq<string>>

  function Succ(g: Graph, n: string): seq<string> {
    if n in g then g[n] else []
  }

  function Nodes(g: Graph): set<string> {
    g.Keys + set n, r | n in g && r in g[n] :: r
  }

  // ------------------------------------------------------------------ paths

  /** A walk along one or more edges. */
  ghost predicate IsPath(g: Graph, p: seq<string>) {
    |p| >= 2 && forall i :: 0 <= i < |p| - 1 ==> p[i + 1] in Succ(g, p[i])
  }

  ghost predicate Reaches(g: Graph, a: string, b: string) {
    exists p :: IsPath(g, p) && p[0] == a && p[|p| - 1] == b
  }

  ghost predicate Acyclic(g: Graph) {
    forall n :: !Reaches(g, n, n)
  }

  lemma EdgeReaches(g: Graph, a: string, b: string)
    requires b in Succ(g, a)
    ensures Reaches(g, a, b)
  {
    assert IsPath(g, [a, b]);
  }

  lemma ReachesTransitive(g: Graph, a: string, b: string, c: string)
    requires Reaches(g, a, b) && Reaches(g, b, c)
    ensures Reaches(g, a, c)
  {
    var p :| IsPath(g, p) && p[0] == a && p[|p| - 1] == b;
    var q :| IsPath(g, q) && q[0] == b && q[|q| - 1] == c;
    var r := p + q[1..];
    forall i | 0 <= i < |r| - 1 ensures r[i + 1] in Succ(g, r[i]) {
      if i >= |p| - 1 { assert r[i] == q[i - |p| + 1] && r[i + 1] == q[i - |p| + 2]; }
    }
    assert IsPath(g, r);
  }

  ghost predicate Wall(g: Graph, S: set<string>, b: string) {
    forall n, r :: n in S && r in Succ(g, n) ==> r in S && r != b
  }

  /** A set closed under successors, none of them `b`, is a wall: nothing inside reaches `b`. */
  lemma ClosedSetIsAWall(g: Graph, S: set<string>, a: string, b: string)
    requires a in S && Wall(g, S, b)
    ensures !Reaches(g, a, b)
  {
    if Reaches(g, a, b) {
      var p :| IsPath(g, p) && p[0] == a && p[|p| - 1] == b;
      StaysInside(g, S, b, p, |p| - 1);
      assert false;
    }
  }

  lemma {:induction false} StaysInside(g: Graph, S: set<string>, b: string, p: seq<string>, i: nat)
    requires IsPath(g, p) && p[0] in S && i < |p| && Wall(g, S, b)
    ensures p[i] in S && (i > 0 ==> p[i] != b)
  {
    if i == 0 {
    } else {
      StaysInside(g, S, b, p, i - 1);
      assert p[i - 1 + 1] in Succ(g, p[i - 1]);
    }
  }

  // ------------------------------------------------------ depth-first search

  /** The recursive closure `visit` of both searches, with the `seen` map it fills. */
  class CycleSearch {
    const graph: Graph
    const target: string
    var seen: set<string>

    constructor (graph: Graph, target: string)
      ensures this.graph == graph && this.target == target && seen == {target}
    {
      this.graph := graph;
      this.target := target;
      seen := {target};
    }

    /** `n` has been expanded: all its references are in `seen` and none is the target. */
    ghost predicate Expanded(n: string, seen: set<string>) {
      forall r :: r in Succ(graph, n) ==> r in seen && r != target
    }

    method Visit(cur: string) returns (found: bool)
      requires cur in seen
      modifies this`seen
      ensures old(seen) <= seen
      ensures found ==> Reaches(graph, cur, target)
      ensures !found ==> forall n :: n == cur || n in seen - old(seen) ==> Expanded(n, seen)
      decreases Nodes(graph) - seen
    {
      var refs := Succ(graph, cur);
      for i := 0 to |refs|
        invariant old(seen) <= seen
        invariant forall j :: 0 <= j < i ==> refs[j] in seen && refs[j] != target
        invariant forall n :: n in seen - old(seen) ==> Expanded(n, seen)
      {
        var ref := refs[i];
        if ref == target {
          EdgeReaches(graph, cur, target);
          return true;
        }
        if ref in seen { continue; }
        assert cur in graph && ref in graph[cur];
        seen := seen + {ref};
        ghost var before := seen;
        var deeper := Visit(ref);
        if deeper {
          EdgeReaches(graph, cur, ref);
          ReachesTransitive(graph, cur, ref, target);
          return true;
        }
        forall n | n in seen - old(seen) ensures Expanded(n, seen) {
          if n in before && n != ref { assert Expanded(n, before - {ref}); }
        }
      }
      return false;
    }
  }

  /** Does `name` reach itself?  Both searches start this way. */
  method ReachesItself(graph: Graph, name: string) returns (cyclic: bool)
    ensures cyclic <==> Reaches(graph, name, name)
  {
    var search := new CycleSearch(graph, name);
    cyclic := search.Visit(name);
    if !cyclic {
      assert forall n :: n in search.seen ==> search.Expanded(n, search.seen);
      ClosedSetIsAWall(graph, search.seen, name, name);
    }
  }

  // ------------------------------------------------------- checkFormulaCycle

  datatype Verdict = Accepted | CycleIntroduced(attribute: string)

  /** Refuses a formula exactly when the written name reaches itself in the graph it would produce. */
  method CheckFormulaCycle(name: string, refs: seq<string>, deps: Graph) returns (v: Verdict)
    ensures v == if Reaches(deps[name := refs], name, name) then CycleIntroduced(name) else Accepted
  {
    var cyclic := ReachesItself(deps[name := refs], name);
    v := if cyclic then CycleIntroduced(name) else Accepted;
  }

  /** A write the check accepts keeps an acyclic schema acyclic; one it refuses would not have. */
  lemma AcceptedWriteKeepsAcyclic(deps: Graph, name: string, refs: seq<string>)
    requires Acyclic(deps)
    ensures Acyclic(deps[name := refs]) <==> !Reaches(deps[name := refs], name, name)
  {
    var g := deps[name := refs];
    if !Reaches(g, name, name) {
      forall n ensures !Reaches(g, n, n) {
        if Reaches(g, n, n) {
          var p :| IsPath(g, p) && p[0] == n && p[|p| - 1] == n;
          if i :| 0 <= i < |p| - 1 && p[i] == name {
            RotateCycle(g, p, i);
          } else {
            PathOfUnchangedEdges(g, deps, name, p);
          }
        }
      }
    }
  }

  lemma PathOfUnchangedEdges(g: Graph, h: Graph, name: string, p: seq<string>)
    requires forall n :: n != name ==> Succ(g, n) == Succ(h, n)
    requires IsPath(g, p) && forall i :: 0 <= i < |p| - 1 ==> p[i] != name
    ensures Reaches(h, p[0], p[|p| - 1])
  {
    assert IsPath(h, p);
  }

  lemma RotateCycle(g: Graph, p: seq<string>, i: nat)
    requires IsPath(g, p) && p[0] == p[|p| - 1] && i < |p| - 1
    ensures Reaches(g, p[i], p[i])
  {
    if i > 0 {
      assert IsPath(g, p[i..]);
      assert IsPath(g, p[..i + 1]);
      ReachesTransitive(g, p[i], p[0], p[i]);
    }
  }

  lemma EmptyGraphIsAcyclic()
    ensures Acyclic(map[])
  {
    forall n ensures !Reaches(map[], n, n) {
      ClosedSetIsAWall(map[], {n}, n, n);
    }
  }

  // ------------------------------------------------------------- cyclicNames

  /** A computed attribute as the search sees it: its name, and the references of a
      spec that validates (a rollup reads nothing on its own entity). */
  datatype Node = Node(name: string, refs: seq<string>, valid: bool)

  function NamesOf(computed: seq<Node>): set<string> {
    set i | 0 <= i < |computed| :: computed[i].name
  }

  function Within(refs: seq<string>, names: set<string>): (r: seq<string>)
    ensures forall x :: x in r <==> x in refs && x in names
  {
    if |refs| == 0 then []
    else
      var init, last := refs[..|refs| - 1], refs[|refs| - 1];
      assert refs == init + [last];
      Within(init, names) + (if last in names then [last] else [])
  }

  lemma {:induction false} WithinNothing(refs: seq<string>, names: set<string>)
    requires forall x :: x in refs ==> x !in names
    ensures Within(refs, names) == []
  {
    if |refs| != 0 { WithinNothing(refs[..|refs| - 1], names); }
  }

  /** Edges between computed attributes only; a spec that does not validate has none. */
  function DepGraph(computed: seq<Node>, names: set<string>): Graph {
    if |computed| == 0 then map[]
    else
      var rest, c := DepGraph(computed[..|computed| - 1], names), computed[|computed| - 1];
      if c.valid then rest[c.name := Within(c.refs, names)] else rest
  }

  /** The attributes caught in a dependency cycle. */
  method CyclicNames(computed: seq<Node>) returns (bad: set<string>)
    ensures forall n :: n in bad <==> Reaches(DepGraph(computed, NamesOf(computed)), n, n)
  {
    var names: set<string> := {};
    for i := 0 to |computed|
      invariant names == NamesOf(computed[..i])
    {
      assert computed[..i + 1] == computed[..i] + [computed[i]];
      NamesOfSnoc(computed[..i], computed[i]);
      names := names + {computed[i].name};
    }
    assert computed[..|computed|] == computed;
    var deps: Graph := map[];
    for i := 0 to |computed|
      invariant deps == DepGraph(computed[..i], names)
    {
      assert computed[..i + 1][..i] == computed[..i];
      var c := computed[i];
      if !c.valid { continue; }
      var within: seq<string> := [];
      for j := 0 to |c.refs|
        invariant within == Within(c.refs[..j], names)
      {
        assert c.refs[..j + 1][..j] == c.refs[..j];
        if c.refs[j] in names { within := within + [c.refs[j]]; }
      }
      assert c.refs[..|c.refs|] == c.refs;
      deps := deps[c.name := within];
    }
    bad := {};
    var todo := deps.Keys;
    while todo != {}
      invariant todo <= deps.Keys
      invariant forall n :: n in bad <==> n in deps.Keys - todo && Reaches(deps, n, n)
      decreases todo
    {
      var name :| name in todo;
      var cyclic := ReachesItself(deps, name);
      if cyclic { bad := bad + {name}; }
      todo := todo - {name};
    }
    forall n | Reaches(deps, n, n) ensures n in deps.Keys { SourceHasEdges(deps, n, n); }
  }

  lemma NamesOfSnoc(xs: seq<Node>, x: Node)
    ensures NamesOf(xs + [x]) == NamesOf(xs) + {x.name}
  {
    forall n | n in NamesOf(xs) + {x.name} ensures n in NamesOf(xs + [x]) {
      if n in NamesOf(xs) {
        var i :| 0 <= i < |xs| && xs[i].name == n;
        assert (xs + [x])[i].name == n;
      } else {
        assert (xs + [x])[|xs|].name == n;
      }
    }
  }

  lemma SourceHasEdges(g: Graph, a: string, b: string)
    requires Reaches(g, a, b)
    ensures a in g
  {
    var p :| IsPath(g, p) && p[0] == a && p[|p| - 1] == b;
    assert p[0 + 1] in Succ(g, p[0]);
  }

  /** The graph without the named attributes: neither they nor edges into them remain. */
  function Without(g: Graph, bad: set<string>): Graph {
    map n | n in g && n !in bad :: Within(g[n], Nodes(g) - bad)
  }

  lemma WithoutOnlyDropsEdges(g: Graph, bad: set<string>, a: string, b: string)
    requires Reaches(Without(g, bad), a, b)
    ensures Reaches(g, a, b) && a !in bad
  {
    var h := Without(g, bad);
    var p :| IsPath(h, p) && p[0] == a && p[|p| - 1] == b;
    SourceHasEdges(h, a, b);
    forall i | 0 <= i < |p| - 1 ensures p[i + 1] in Succ(g, p[i]) {
      assert p[i + 1] in Succ(h, p[i]);
    }
    assert IsPath(g, p);
  }

  /** What is left once every attribute on a cycle is set aside has no cycle. */
  lemma WithoutCyclicNamesIsAcyclic(g: Graph, bad: set<string>)
    requires forall n :: Reaches(g, n, n) ==> n in bad
    ensures Acyclic(Without(g, bad))
  {
    forall n ensures !Reaches(Without(g, bad), n, n) {
      if Reaches(Without(g, bad), n, n) { WithoutOnlyDropsEdges(g, bad, n, n); }
    }
  }

  // -------------------------------------------------------- dependency order

  ghost function ReachSet(g: Graph, n: string): set<string> {
    set m | m in Nodes(g) && Reaches(g, n, m)
  }

  lemma EdgeShrinksReachSet(g: Graph, n: string, d: string)
    requires Acyclic(g) && d in Succ(g, n)
    ensures |ReachSet(g, d)| < |ReachSet(g, n)|
  {
    EdgeReaches(g, n, d);
    forall m | m in ReachSet(g, d) ensures m in ReachSet(g, n) { ReachesTransitive(g, n, d, m); }
    assert d in ReachSet(g, n) && d !in ReachSet(g, d);
    SubsetCardinality(ReachSet(g, d), ReachSet(g, n) - {d});
  }

  lemma {:induction false} SubsetCardinality<T>(a: set<T>, b: set<T>)
    requires a <= b
    ensures |a| <= |b|
  {
    if a != {} {
      var x :| x in a;
      SubsetCardinality(a - {x}, b - {x});
    }
  }

  /** A dependency order: no element reads a later one, or itself. */
  ghost predicate DependencyOrder(g: Graph, order: seq<string>) {
    && (forall i, j :: 0 <= i < j < |order| ==> order[i] != order[j])
    && (forall i, j :: 0 <= i <= j < |order| ==> order[j] !in Succ(g, order[i]))
  }

  /** An acyclic graph can be listed with every dependency before its reader. */
  lemma {:induction false} AcyclicHasDependencyOrder(g: Graph, names: set<string>) returns (order: seq<string>)
    requires Acyclic(g)
    ensures DependencyOrder(g, order)
    ensures forall n :: n in order <==> n in names
  {
    if names == {} {
      order := [];
    } else {
      var n := Shallowest(g, names);
      var rest := AcyclicHasDependencyOrder(g, names - {n});
      order := [n] + rest;
      forall j | 0 <= j < |order| ensures order[j] !in Succ(g, n) {
        assert order[j] in names;
        if order[j] in Succ(g, n) { EdgeShrinksReachSet(g, n, order[j]); }
      }
    }
  }

  lemma {:induction false} Shallowest(g: Graph, names: set<string>) returns (n: string)
    requires names != {}
    ensures n in names && forall m :: m in names ==> |ReachSet(g, n)| <= |ReachSet(g, m)|
  {
    n :| n in names;
    if names != {n} {
      var m := Shallowest(g, names - {n});
      if |ReachSet(g, m)| < |ReachSet(g, n)| { n := m; }
    }
  }
}
