/**
  Computed attributes of one entity: what a stored value must equal, the unique
  assignment that satisfies every formula at once, and the measure under which a
  nested recompute gets closer to it.
 */
module Computed {
  import opened Options
  import opened RefGraph

  /** A live base-scope row.  A row written under an older definition version counts
      as changed when it is written again, so the version is part of it. */
  datatype Cell<V> = Cell(id: nat, value: V, version: nat)
  type Cells<V> = map<string, Cell<V>>

  /** What evaluation sees: names and values, neither row ids nor versions. */
  type View<V> = map<string, V>

  /** A formula is an arbitrary partial function of the names it reads.  A rollup's
      inputs live on other entities: here its current result is a given. */
  datatype Spec<!V> =
    | Formula(refs: seq<string>, eval: View<V> -> Option<V>)
    | Unparseable
    | Rollup(result: Option<V>)

  datatype Attr<!V> = Attr(name: string, version: nat, spec: Spec<V>)

  function RefsOf<V>(a: Attr<V>): seq<string> {
    if a.spec.Formula? then a.spec.refs else []
  }

  function ViewOf<V>(cells: Cells<V>): View<V> {
    map n | n in cells :: cells[n].value
  }

  function Eval<V>(a: Attr<V>, inputs: View<V>): Option<V>
    requires !a.spec.Unparseable?
  {
    match a.spec
    case Formula(refs, eval) => eval(map n | n in refs && n in inputs :: inputs[n])
    case Rollup(result) => result
  }

  /** The stored row is what the attribute's spec says it should be. */
  ghost predicate Settled<V>(a: Attr<V>, cells: Cells<V>)
    requires !a.spec.Unparseable?
  {
    match Eval(a, ViewOf(cells))
    case None => a.name !in cells
    case Some(v) => a.name in cells && cells[a.name].value == v && cells[a.name].version == a.version
  }

  // ------------------------------------------------- which attributes take part

  function AsNode<V>(a: Attr<V>): Node {
    Node(a.name, RefsOf(a), !a.spec.Unparseable?)
  }

  function AsNodes<V>(computed: seq<Attr<V>>): seq<Node> {
    seq(|computed|, i requires 0 <= i < |computed| => AsNode(computed[i]))
  }

  ghost function ComputedGraph<V>(computed: seq<Attr<V>>): Graph {
    DepGraph(AsNodes(computed), NamesOf(AsNodes(computed)))
  }

  ghost predicate DistinctNames<V>(attrs: seq<Attr<V>>) {
    forall i, j :: 0 <= i < j < |attrs| ==> attrs[i].name != attrs[j].name
  }

  /** Parseable and not caught in a cycle; every other attribute is left as it is. */
  ghost predicate Active<V>(computed: seq<Attr<V>>, a: Attr<V>) {
    !a.spec.Unparseable? && !Reaches(ComputedGraph(computed), a.name, a.name)
  }

  /** The active attributes, each after everything active it reads. */
  ghost predicate IsOrder<V>(order: seq<Attr<V>>, computed: seq<Attr<V>>) {
    && WellOrdered(order)
    && (forall a :: a in order ==> a in computed && Active(computed, a))
    && (forall a :: a in computed && Active(computed, a) ==> a in order)
  }

  ghost predicate WellOrdered<V>(order: seq<Attr<V>>) {
    && DistinctNames(order)
    && (forall a :: a in order ==> !a.spec.Unparseable?)
    && (forall i, j :: 0 <= i <= j < |order| ==> order[j].name !in RefsOf(order[i]))
  }

  lemma {:induction false} DepGraphAt<V>(computed: seq<Attr<V>>, names: set<string>, i: nat)
    requires DistinctNames(computed) && i < |computed| && !computed[i].spec.Unparseable?
    ensures computed[i].name in DepGraph(AsNodes(computed), names)
    ensures DepGraph(AsNodes(computed), names)[computed[i].name] == Within(RefsOf(computed[i]), names)
  {
    var k := |computed| - 1;
    assert AsNodes(computed)[..k] == AsNodes(computed[..k]);
    if i < k { DepGraphAt(computed[..k], names, i); }
  }

  lemma ActiveEdgeRemains<V>(computed: seq<Attr<V>>, k: nat, m: nat, bad: set<string>)
    requires DistinctNames(computed) && k < |computed| && m < |computed|
    requires Active(computed, computed[k]) && computed[k].name !in bad && computed[m].name !in bad
    requires computed[m].name in RefsOf(computed[k])
    ensures computed[m].name in Succ(Without(ComputedGraph(computed), bad), computed[k].name)
  {
    var g, names := ComputedGraph(computed), NamesOf(AsNodes(computed));
    DepGraphAt(computed, names, k);
    assert AsNodes(computed)[m].name == computed[m].name;
    assert computed[m].name in g[computed[k].name];
    assert computed[m].name in Nodes(g);
  }

  lemma {:induction false} DepGraphSource<V>(computed: seq<Attr<V>>, names: set<string>, n: string) returns (i: nat)
    requires n in DepGraph(AsNodes(computed), names)
    ensures i < |computed| && computed[i].name == n && !computed[i].spec.Unparseable?
  {
    var k := |computed| - 1;
    assert AsNodes(computed)[..k] == AsNodes(computed[..k]);
    if computed[k].name == n && !computed[k].spec.Unparseable? {
      i := k;
    } else {
      i := DepGraphSource(computed[..k], names, n);
    }
  }

  lemma GraphSubsumed<V>(xs: seq<Attr<V>>, ys: seq<Attr<V>>, names: set<string>)
    requires DistinctNames(xs) && DistinctNames(ys) && (forall a :: a in xs ==> a in ys)
    ensures forall n :: n in DepGraph(AsNodes(xs), names) ==>
      n in DepGraph(AsNodes(ys), names) && DepGraph(AsNodes(xs), names)[n] == DepGraph(AsNodes(ys), names)[n]
  {
    forall n | n in DepGraph(AsNodes(xs), names)
      ensures n in DepGraph(AsNodes(ys), names) && DepGraph(AsNodes(xs), names)[n] == DepGraph(AsNodes(ys), names)[n]
    {
      var i := DepGraphSource(xs, names, n);
      assert xs[i] in ys;
      var j :| 0 <= j < |ys| && ys[j] == xs[i];
      DepGraphAt(xs, names, i);
      DepGraphAt(ys, names, j);
    }
  }

  /** The dependency graph does not remember the order attributes were listed in. */
  lemma GraphIgnoresListing<V>(xs: seq<Attr<V>>, ys: seq<Attr<V>>)
    requires DistinctNames(xs) && DistinctNames(ys) && (forall a :: a in xs <==> a in ys)
    ensures ComputedGraph(xs) == ComputedGraph(ys)
  {
    var names := NamesOf(AsNodes(xs));
    forall n ensures n in names <==> n in NamesOf(AsNodes(ys)) {
      if n in names {
        var i :| 0 <= i < |xs| && AsNodes(xs)[i].name == n;
        assert xs[i] in ys;
        var j :| 0 <= j < |ys| && ys[j] == xs[i];
        assert AsNodes(ys)[j].name == n;
      }
      if n in NamesOf(AsNodes(ys)) {
        var i :| 0 <= i < |ys| && AsNodes(ys)[i].name == n;
        assert ys[i] in xs;
        var j :| 0 <= j < |xs| && xs[j] == ys[i];
        assert AsNodes(xs)[j].name == n;
      }
    }
    assert names == NamesOf(AsNodes(ys));
    GraphSubsumed(xs, ys, names);
    GraphSubsumed(ys, xs, names);
    assert ComputedGraph(xs).Keys == ComputedGraph(ys).Keys;
  }

  ghost predicate NamesActive<V>(computed: seq<Attr<V>>, n: string) {
    exists i :: 0 <= i < |computed| && computed[i].name == n && Active(computed, computed[i])
  }

  /** Setting the cyclic names aside always leaves something a pass can be ordered by. */
  lemma OrderExists<V>(computed: seq<Attr<V>>) returns (order: seq<Attr<V>>)
    requires DistinctNames(computed)
    ensures IsOrder(order, computed)
  {
    var nodes := AsNodes(computed);
    var g, names := ComputedGraph(computed), NamesOf(nodes);
    var bad := set n | n in names && Reaches(g, n, n);
    forall n | Reaches(g, n, n) ensures n in bad {
      SourceHasEdges(g, n, n);
      DepGraphKeys(nodes, names);
    }
    WithoutCyclicNamesIsAcyclic(g, bad);
    var active := set i | 0 <= i < |computed| && Active(computed, computed[i]) :: computed[i].name;
    var sorted := AcyclicHasDependencyOrder(Without(g, bad), active);
    forall j | 0 <= j < |sorted| ensures NamesActive(computed, sorted[j]) && sorted[j] !in bad {
      assert sorted[j] in active;
    }
    order := AttrsNamed(computed, sorted);
    NamedInOrder(computed, bad, sorted, order);
    forall a | a in computed && Active(computed, a) ensures a in order {
      assert a.name in active;
    }
  }

  lemma NamedInOrder<V>(computed: seq<Attr<V>>, bad: set<string>, sorted: seq<string>, order: seq<Attr<V>>)
    requires DistinctNames(computed) && DependencyOrder(Without(ComputedGraph(computed), bad), sorted)
    requires |order| == |sorted|
    requires forall i :: 0 <= i < |order| ==> order[i].name == sorted[i] && sorted[i] !in bad
    requires forall a :: a in order ==> a in computed && Active(computed, a)
    ensures WellOrdered(order)
  {
    forall i, j | 0 <= i <= j < |order| ensures order[j].name !in RefsOf(order[i]) {
      assert order[i] in order && order[j] in order;
      var k :| 0 <= k < |computed| && computed[k] == order[i];
      var m :| 0 <= m < |computed| && computed[m] == order[j];
      if sorted[j] in RefsOf(order[i]) { ActiveEdgeRemains(computed, k, m, bad); }
    }
  }

  lemma {:induction false} DepGraphKeys(nodes: seq<Node>, names: set<string>)
    ensures DepGraph(nodes, names).Keys <= NamesOf(nodes)
  {
    if |nodes| == 0 {
    } else {
      var k := |nodes| - 1;
      DepGraphKeys(nodes[..k], names);
      assert nodes == nodes[..k] + [nodes[k]];
      NamesOfSnoc(nodes[..k], nodes[k]);
    }
  }

  lemma {:induction false} AttrsNamed<V>(computed: seq<Attr<V>>, names: seq<string>) returns (attrs: seq<Attr<V>>)
    requires DistinctNames(computed)
    requires forall j :: 0 <= j < |names| ==> NamesActive(computed, names[j])
    ensures |attrs| == |names| && forall i :: 0 <= i < |names| ==> attrs[i].name == names[i]
    ensures forall a :: a in attrs ==> a in computed && Active(computed, a)
    ensures forall a :: a in computed && a.name in names ==> a in attrs
  {
    if |names| == 0 {
      attrs := [];
    } else {
      assert NamesActive(computed, names[0]);
      var i :| 0 <= i < |computed| && computed[i].name == names[0] && Active(computed, computed[i]);
      var rest := AttrsNamed(computed, names[1..]);
      attrs := [computed[i]] + rest;
    }
  }

  // ------------------------------------------------------------- uniqueness

  ghost predicate SameAt<V>(x: View<V>, y: View<V>, n: string) {
    (n in x <==> n in y) && (n in x ==> x[n] == y[n])
  }

  lemma ViewsEqual<V>(x: View<V>, y: View<V>)
    requires forall n :: SameAt(x, y, n)
    ensures x == y
  {
    forall n ensures n in x <==> n in y { assert SameAt(x, y, n); }
    forall n | n in x ensures x[n] == y[n] { assert SameAt(x, y, n); }
  }

  ghost predicate NameIn<V>(order: seq<Attr<V>>, n: string) {
    exists i :: 0 <= i < |order| && order[i].name == n
  }

  /** The values a pass may not touch: sources, cyclic names, unparseable formulas. */
  ghost predicate SameOutside<V>(order: seq<Attr<V>>, x: View<V>, y: View<V>) {
    forall n :: !NameIn(order, n) ==> SameAt(x, y, n)
  }

  /** The rows a pass may not touch are still the same rows. */
  ghost predicate Kept<V>(order: seq<Attr<V>>, x: Cells<V>, y: Cells<V>) {
    forall n :: !NameIn(order, n) ==> (n in x <==> n in y) && (n in x ==> x[n] == y[n])
  }

  lemma KeptTransitive<V>(order: seq<Attr<V>>, x: Cells<V>, y: Cells<V>, z: Cells<V>)
    requires Kept(order, x, y) && Kept(order, y, z)
    ensures Kept(order, x, z)
  {
  }

  lemma KeptIsSameOutside<V>(order: seq<Attr<V>>, x: Cells<V>, y: Cells<V>)
    requires Kept(order, x, y)
    ensures SameOutside(order, ViewOf(x), ViewOf(y))
  {
  }

  lemma OnlyChangesActiveKeeps<V>(order: seq<Attr<V>>, a: Attr<V>, x: Cells<V>, y: Cells<V>)
    requires a in order && OnlyChangesAt(x, y, a.name)
    ensures Kept(order, x, y)
  {
    var p :| 0 <= p < |order| && order[p] == a;
    forall n | !NameIn(order, n) ensures (n in x <==> n in y) && (n in x ==> x[n] == y[n]) {
      assert n != order[p].name;
    }
  }

  lemma EvalReadsOnlyItsRefs<V>(a: Attr<V>, x: View<V>, y: View<V>)
    requires !a.spec.Unparseable?
    requires forall n :: n in RefsOf(a) ==> SameAt(x, y, n)
    ensures Eval(a, x) == Eval(a, y)
  {
    if a.spec.Formula? {
      var refs := a.spec.refs;
      var rx, ry := (map n | n in refs && n in x :: x[n]), (map n | n in refs && n in y :: y[n]);
      forall n ensures n in rx <==> n in ry { assert n in refs ==> SameAt(x, y, n); }
      forall n | n in rx ensures rx[n] == ry[n] { assert SameAt(x, y, n); }
      assert rx == ry;
    }
  }

  ghost predicate SettledUpTo<V>(order: seq<Attr<V>>, p: nat, cells: Cells<V>)
    requires WellOrdered(order) && p <= |order|
  {
    forall i :: 0 <= i < p ==> Settled(order[i], cells)
  }

  ghost predicate AllSettled<V>(order: seq<Attr<V>>, cells: Cells<V>)
    requires WellOrdered(order)
  {
    SettledUpTo(order, |order|, cells)
  }

  /** A reference of the p-th attribute lies outside the order or before p. */
  lemma RefIsOutsideOrEarlier<V>(order: seq<Attr<V>>, p: nat, n: string)
    requires WellOrdered(order) && p < |order| && n in RefsOf(order[p])
    ensures !NameIn(order, n) || exists i :: 0 <= i < p && order[i].name == n
  {
  }

  lemma {:induction false} SettledPrefixIsDetermined<V>(order: seq<Attr<V>>, p: nat, x: Cells<V>, y: Cells<V>)
    requires WellOrdered(order) && p <= |order|
    requires SameOutside(order, ViewOf(x), ViewOf(y))
    requires SettledUpTo(order, p, x) && SettledUpTo(order, p, y)
    ensures forall i :: 0 <= i < p ==> SameAt(ViewOf(x), ViewOf(y), order[i].name)
  {
    if p == 0 {
    } else {
      SettledPrefixIsDetermined(order, p - 1, x, y);
      forall n | n in RefsOf(order[p - 1]) ensures SameAt(ViewOf(x), ViewOf(y), n) {
        RefIsOutsideOrEarlier(order, p - 1, n);
      }
      EvalReadsOnlyItsRefs(order[p - 1], ViewOf(x), ViewOf(y));
    }
  }

  /** There is only one assignment under which every formula holds. */
  lemma SettledIsUnique<V>(order: seq<Attr<V>>, x: Cells<V>, y: Cells<V>)
    requires WellOrdered(order)
    requires SameOutside(order, ViewOf(x), ViewOf(y))
    requires AllSettled(order, x) && AllSettled(order, y)
    ensures ViewOf(x) == ViewOf(y)
  {
    SettledPrefixIsDetermined(order, |order|, x, y);
    forall n ensures SameAt(ViewOf(x), ViewOf(y), n) {
      if NameIn(order, n) {
        var i :| 0 <= i < |order| && order[i].name == n;
      }
    }
    ViewsEqual(ViewOf(x), ViewOf(y));
  }

  /** The reference meaning: evaluate every attribute once, dependencies first. */
  ghost function Solve<V>(order: seq<Attr<V>>, base: View<V>): View<V>
    requires forall a :: a in order ==> !a.spec.Unparseable?
  {
    if |order| == 0 then base
    else
      var k := |order| - 1;
      var below, a := Solve(order[..k], base), order[k];
      match Eval(a, below)
      case None => below - {a.name}
      case Some(v) => below[a.name := v]
  }

  lemma NamedEarlier<V>(order: seq<Attr<V>>, p: nat, n: string)
    requires 0 < p <= |order| && order[p - 1].name != n
    ensures NameIn(order[..p], n) ==> NameIn(order[..p - 1], n)
  {
    if i :| 0 <= i < p && order[..p][i].name == n { assert order[..p - 1][i].name == n; }
  }

  lemma {:induction false} SolveBelow<V>(order: seq<Attr<V>>, p: nat, base: View<V>, cells: Cells<V>)
    requires WellOrdered(order) && p <= |order|
    requires SameOutside(order, base, ViewOf(cells)) && SettledUpTo(order, p, cells)
    ensures forall n :: (!NameIn(order, n) || NameIn(order[..p], n)) ==> SameAt(Solve(order[..p], base), ViewOf(cells), n)
  {
    if p == 0 {
    } else {
      var k := p - 1;
      SolveBelow(order, k, base, cells);
      assert order[..p][..k] == order[..k];
      var below, a := Solve(order[..k], base), order[k];
      forall n | n in RefsOf(a) ensures SameAt(below, ViewOf(cells), n) {
        RefIsOutsideOrEarlier(order, k, n);
        if NameIn(order, n) {
          var i :| 0 <= i < k && order[i].name == n;
          assert order[..k][i].name == n;
        }
      }
      EvalReadsOnlyItsRefs(a, below, ViewOf(cells));
      assert Settled(a, cells);
      forall n | !NameIn(order, n) || NameIn(order[..p], n)
        ensures SameAt(Solve(order[..p], base), ViewOf(cells), n)
      {
        if n != a.name { NamedEarlier(order, p, n); }
      }
    }
  }

  /** Settled rows show exactly the reference meaning of the untouched values. */
  lemma SettledIsSolved<V>(order: seq<Attr<V>>, base: View<V>, cells: Cells<V>)
    requires WellOrdered(order)
    requires SameOutside(order, base, ViewOf(cells)) && AllSettled(order, cells)
    ensures ViewOf(cells) == Solve(order, base)
  {
    SolveBelow(order, |order|, base, cells);
    assert order[..|order|] == order;
    forall n ensures SameAt(ViewOf(cells), Solve(order, base), n) {
      assert !NameIn(order, n) || NameIn(order[..|order|], n);
      assert SameAt(Solve(order[..|order|], base), ViewOf(cells), n);
    }
    ViewsEqual(ViewOf(cells), Solve(order, base));
  }

  // ----------------------------------------------------------- what Solve reads

  lemma {:induction false} SolveKeepsOthers<V>(order: seq<Attr<V>>, base: View<V>, n: string)
    requires (forall a :: a in order ==> !a.spec.Unparseable?) && !NameIn(order, n)
    ensures SameAt(Solve(order, base), base, n)
  {
    if |order| != 0 {
      var k := |order| - 1;
      assert order[k].name != n;
      SolveKeepsOthers(order[..k], base, n);
    }
  }

  /** The last attribute's evaluation decides its own name and leaves the others. */
  lemma SolveLast<V>(order: seq<Attr<V>>, p: nat, base: View<V>, n: string)
    requires WellOrdered(order) && 0 < p <= |order|
    ensures var below, a := Solve(order[..p - 1], base), order[p - 1];
      if n != a.name then SameAt(Solve(order[..p], base), below, n)
      else match Eval(a, below)
           case None => n !in Solve(order[..p], base)
           case Some(v) => n in Solve(order[..p], base) && Solve(order[..p], base)[n] == v
  {
    assert order[..p][..p - 1] == order[..p - 1];
  }

  lemma {:induction false} SolveReadsSources<V>(order: seq<Attr<V>>, p: nat, x: View<V>, y: View<V>)
    requires WellOrdered(order) && p <= |order| && SameOutside(order, x, y)
    ensures forall n :: (!NameIn(order, n) || NameIn(order[..p], n)) ==> SameAt(Solve(order[..p], x), Solve(order[..p], y), n)
  {
    if p == 0 {
    } else {
      var k := p - 1;
      SolveReadsSources(order, k, x, y);
      var a := order[k];
      forall n | n in RefsOf(a) ensures SameAt(Solve(order[..k], x), Solve(order[..k], y), n) {
        RefIsOutsideOrEarlier(order, k, n);
        if NameIn(order, n) {
          var i :| 0 <= i < k && order[i].name == n;
          assert order[..k][i].name == n;
        }
      }
      EvalReadsOnlyItsRefs(a, Solve(order[..k], x), Solve(order[..k], y));
      forall n | !NameIn(order, n) || NameIn(order[..p], n)
        ensures SameAt(Solve(order[..p], x), Solve(order[..p], y), n)
      {
        if n != a.name { NamedEarlier(order, p, n); }
        SolveLast(order, p, x, n);
        SolveLast(order, p, y, n);
      }
    }
  }

  /** The solution depends on the values no active attribute owns, and on nothing else. */
  lemma SolveForgetsOwned<V>(order: seq<Attr<V>>, x: View<V>, y: View<V>)
    requires WellOrdered(order) && SameOutside(order, x, y)
    ensures Solve(order, x) == Solve(order, y)
  {
    SolveReadsSources(order, |order|, x, y);
    assert order[..|order|] == order;
    ViewsEqual(Solve(order, x), Solve(order, y));
  }

  /** The attribute shows the value of its formula. */
  ghost predicate ShowsFormula<V>(a: Attr<V>, view: View<V>)
    requires !a.spec.Unparseable?
  {
    match Eval(a, view)
    case None => a.name !in view
    case Some(v) => a.name in view && view[a.name] == v
  }

  lemma {:induction false} SolveStays<V>(order: seq<Attr<V>>, p: nat, q: nat, base: View<V>, n: string)
    requires WellOrdered(order) && p <= q <= |order|
    requires forall i :: p <= i < q ==> order[i].name != n
    ensures SameAt(Solve(order[..q], base), Solve(order[..p], base), n)
  {
    if p < q {
      SolveStays(order, p, q - 1, base, n);
      SolveLast(order, q, base, n);
    }
  }

  /** What an attribute reads is decided before it is evaluated. */
  lemma RefStays<V>(order: seq<Attr<V>>, p: nat, base: View<V>, n: string)
    requires WellOrdered(order) && p < |order| && n in RefsOf(order[p])
    ensures SameAt(Solve(order, base), Solve(order[..p], base), n)
  {
    assert order[..|order|] == order;
    SolveStays(order, p, |order|, base, n);
  }

  /** The solution satisfies every formula. */
  lemma SolveSettles<V>(order: seq<Attr<V>>, base: View<V>, p: nat)
    requires WellOrdered(order) && p < |order|
    ensures ShowsFormula(order[p], Solve(order, base))
  {
    var a := order[p];
    assert order[..|order|] == order;
    forall n | n in RefsOf(a) ensures SameAt(Solve(order, base), Solve(order[..p], base), n) { RefStays(order, p, base, n); }
    EvalReadsOnlyItsRefs(a, Solve(order, base), Solve(order[..p], base));
    SolveLast(order, p + 1, base, a.name);
    SolveStays(order, p + 1, |order|, base, a.name);
  }

  // ------------------------------------------------- what a settled row holds

  /** What a formula is given: each name it reads that a row is stored for, with that row's value, and no other. */
  ghost predicate IsGiven<V>(refs: seq<string>, cells: Cells<V>, given: View<V>) {
    && (forall n :: n in given <==> n in refs && n in cells)
    && (forall n :: n in given ==> given[n] == cells[n].value)
  }

  /** The attribute's row holds this result under its definition version, or there is none. */
  ghost predicate HoldsResult<V>(a: Attr<V>, cells: Cells<V>, result: Option<V>) {
    match result
    case None => a.name !in cells
    case Some(v) => a.name in cells && cells[a.name].value == v && cells[a.name].version == a.version
  }

  /** The row of a formula holds the formula's result over the rows it reads, whichever of them are there; the
      row of a rollup holds the rollup's result. */
  ghost predicate HoldsItsResult<V(!new)>(a: Attr<V>, cells: Cells<V>) {
    && (a.spec.Formula? ==> exists given :: IsGiven(a.spec.refs, cells, given) && HoldsResult(a, cells, a.spec.eval(given)))
    && (a.spec.Rollup? ==> HoldsResult(a, cells, a.spec.result))
  }

  /** There is only one such input. */
  lemma GivenIsUnique<V>(refs: seq<string>, cells: Cells<V>, x: View<V>, y: View<V>)
    requires IsGiven(refs, cells, x) && IsGiven(refs, cells, y)
    ensures x == y
  {
    assert x.Keys == y.Keys;
  }

  /** To be settled is to hold one's result. */
  lemma SettledHoldsItsResult<V(!new)>(a: Attr<V>, cells: Cells<V>)
    requires !a.spec.Unparseable?
    ensures Settled(a, cells) <==> HoldsItsResult(a, cells)
  {
    if a.spec.Formula? {
      var view := ViewOf(cells);
      var given := map n | n in a.spec.refs && n in view :: view[n];
      assert IsGiven(a.spec.refs, cells, given);
      if HoldsItsResult(a, cells) {
        var other :| IsGiven(a.spec.refs, cells, other) && HoldsResult(a, cells, a.spec.eval(other));
        GivenIsUnique(a.spec.refs, cells, given, other);
      }
    }
  }

  /** The solution shows each formula's result over the solution's own values, whichever of them are there. */
  lemma SolutionShowsResults<V>(order: seq<Attr<V>>, base: View<V>, p: nat, given: View<V>)
    requires WellOrdered(order) && p < |order| && order[p].spec.Formula?
    requires forall n :: n in given <==> n in order[p].spec.refs && n in Solve(order, base)
    requires forall n :: n in given ==> given[n] == Solve(order, base)[n]
    ensures match order[p].spec.eval(given)
            case None => order[p].name !in Solve(order, base)
            case Some(v) => order[p].name in Solve(order, base) && Solve(order, base)[order[p].name] == v
  {
    var refs, solution := order[p].spec.refs, Solve(order, base);
    SolveSettles(order, base, p);
    assert given == map n | n in refs && n in solution :: solution[n];
  }

  /** A formula may have a value where a name it reads has none. */
  function TagCount(): Attr<int> {
    Attr("tag_count", 1, Formula(["tags"], inputs => if "tags" in inputs then Some(inputs["tags"]) else Some(0)))
  }

  /** The count of tags on an entity without any is zero, and that is a row. */
  lemma CountOfNothingIsZero(cells: Cells<int>, base: View<int>)
    requires "tags" !in cells && "tags" !in base
    ensures HoldsItsResult(TagCount(), cells) ==> "tag_count" in cells && cells["tag_count"].value == 0
    ensures Solve([TagCount()], base) == base["tag_count" := 0]
  {
    assert [TagCount()][..0] == [];
  }

  /** Attributes that read one another in a circle. */
  ghost predicate ReadsInCircle<V>(computed: seq<Attr<V>>, p: seq<Attr<V>>) {
    && |p| >= 2 && p[0] == p[|p| - 1] && (forall i :: 0 <= i < |p| ==> p[i] in computed)
    && (forall i :: 0 <= i < |p| - 1 ==> p[i].spec.Formula? && p[i + 1].name in p[i].spec.refs)
  }

  /** The names of such a circle are a cycle of the graph. */
  lemma CircleIsACycle<V>(computed: seq<Attr<V>>, p: seq<Attr<V>>)
    requires DistinctNames(computed) && ReadsInCircle(computed, p)
    ensures Reaches(ComputedGraph(computed), p[0].name, p[0].name)
  {
    var names := NamesOf(AsNodes(computed));
    var q := seq(|p|, i requires 0 <= i < |p| => p[i].name);
    forall i | 0 <= i < |q| - 1 ensures q[i + 1] in Succ(ComputedGraph(computed), q[i]) {
      var j :| 0 <= j < |computed| && computed[j] == p[i];
      var k :| 0 <= k < |computed| && computed[k] == p[i + 1];
      DepGraphAt(computed, names, j);
      assert AsNodes(computed)[k].name == p[i + 1].name;
    }
    assert IsPath(ComputedGraph(computed), q);
  }

  /** An edge of the graph is a formula that reads the name. */
  lemma EdgeIsARead<V>(computed: seq<Attr<V>>, n: string, r: string) returns (a: Attr<V>, b: Attr<V>)
    requires DistinctNames(computed) && r in Succ(ComputedGraph(computed), n)
    ensures a in computed && b in computed && a.name == n && b.name == r && a.spec.Formula? && r in a.spec.refs
  {
    var names := NamesOf(AsNodes(computed));
    var i := DepGraphSource(computed, names, n);
    DepGraphAt(computed, names, i);
    a := computed[i];
    var k :| 0 <= k < |AsNodes(computed)| && AsNodes(computed)[k].name == r;
    b := computed[k];
  }

  lemma SameNameSameAttr<V>(computed: seq<Attr<V>>, a: Attr<V>, b: Attr<V>)
    requires DistinctNames(computed) && a in computed && b in computed && a.name == b.name
    ensures a == b
  {
    var i :| 0 <= i < |computed| && computed[i] == a;
    var j :| 0 <= j < |computed| && computed[j] == b;
    if i < j { assert false; }
    if j < i { assert false; }
  }

  /** A path of the graph is a list of attributes that read one another. */
  lemma {:induction false} PathIsReads<V>(computed: seq<Attr<V>>, q: seq<string>) returns (p: seq<Attr<V>>)
    requires DistinctNames(computed) && IsPath(ComputedGraph(computed), q)
    ensures |p| == |q| && forall i :: 0 <= i < |p| ==> p[i] in computed && p[i].name == q[i]
    ensures forall i :: 0 <= i < |p| - 1 ==> p[i].spec.Formula? && p[i + 1].name in p[i].spec.refs
  {
    assert q[0 + 1] in Succ(ComputedGraph(computed), q[0]);
    var a, b := EdgeIsARead(computed, q[0], q[1]);
    if |q| == 2 {
      p := [a, b];
    } else {
      forall i | 0 <= i < |q[1..]| - 1 ensures q[1..][i + 1] in Succ(ComputedGraph(computed), q[1..][i]) {
        assert q[i + 1 + 1] in Succ(ComputedGraph(computed), q[i + 1]);
      }
      var rest := PathIsReads(computed, q[1..]);
      p := [a] + rest;
    }
  }

  /** The active attributes are those whose formula parses and is in no circle of formulas. */
  lemma ActiveExactly<V(!new)>(computed: seq<Attr<V>>, a: Attr<V>)
    requires DistinctNames(computed) && a in computed
    ensures Active(computed, a) <==> !a.spec.Unparseable? && !exists p :: ReadsInCircle(computed, p) && p[0] == a
  {
    if p :| ReadsInCircle(computed, p) && p[0] == a { CircleIsACycle(computed, p); }
    if Reaches(ComputedGraph(computed), a.name, a.name) {
      var q :| IsPath(ComputedGraph(computed), q) && q[0] == a.name && q[|q| - 1] == a.name;
      var p := PathIsReads(computed, q);
      SameNameSameAttr(computed, a, p[0]);
      SameNameSameAttr(computed, a, p[|p| - 1]);
      assert ReadsInCircle(computed, p);
    }
  }

  // ---------------------------------------------------------------- measure

  function Pow2(n: nat): nat {
    if n == 0 then 1 else 2 * Pow2(n - 1)
  }

  /** The unsettled attributes as a binary numeral, the most depended-upon first: it
      compares states lexicographically, dependency by dependency. */
  ghost function Unsettled<V>(order: seq<Attr<V>>, cells: Cells<V>): (r: nat)
    requires forall a :: a in order ==> !a.spec.Unparseable?
    ensures r < Pow2(|order|)
  {
    if |order| == 0 then 0
    else (if Settled(order[0], cells) then 0 else Pow2(|order| - 1)) + Unsettled(order[1..], cells)
  }

  /** Settling one attribute pays for unsettling any number of later ones. */
  lemma {:induction false} UnsettledDecreases<V>(order: seq<Attr<V>>, q: nat, x: Cells<V>, y: Cells<V>)
    requires (forall a :: a in order ==> !a.spec.Unparseable?) && q < |order|
    requires forall i :: 0 <= i < q && Settled(order[i], x) ==> Settled(order[i], y)
    requires !Settled(order[q], x) && Settled(order[q], y)
    ensures Unsettled(order, y) < Unsettled(order, x)
  {
    if q == 0 {
    } else {
      assert forall i :: 0 <= i < q - 1 ==> order[1..][i] == order[i + 1];
      UnsettledDecreases(order[1..], q - 1, x, y);
    }
  }

  // ------------------------------------------------------------ single writes

  /** Whether an upsert of `v` changes the row, and so emits an event. */
  ghost predicate SetChanges<V>(cells: Cells<V>, a: Attr<V>, v: V) {
    !(a.name in cells && cells[a.name].value == v && cells[a.name].version == a.version)
  }

  /** The stored rows after a write to one attribute: nothing else moves. */
  ghost predicate OnlyChangesAt<V>(x: Cells<V>, y: Cells<V>, name: string) {
    forall n :: n != name ==> (n in x <==> n in y) && (n in x ==> x[n] == y[n])
  }

  /** Earlier attributes do not read the written one, so they stay as settled as they were. */
  lemma WriteLeavesEarlierAlone<V>(order: seq<Attr<V>>, p: nat, i: nat, x: Cells<V>, y: Cells<V>)
    requires WellOrdered(order) && i < p < |order| && OnlyChangesAt(x, y, order[p].name)
    ensures Settled(order[i], x) <==> Settled(order[i], y)
  {
    forall n | n in RefsOf(order[i]) ensures SameAt(ViewOf(x), ViewOf(y), n) {
      assert n != order[p].name;
    }
    EvalReadsOnlyItsRefs(order[i], ViewOf(x), ViewOf(y));
  }

  /** The written attribute does not read itself. */
  lemma WriteDoesNotMoveItsOwnResult<V>(order: seq<Attr<V>>, p: nat, x: Cells<V>, y: Cells<V>)
    requires WellOrdered(order) && p < |order| && OnlyChangesAt(x, y, order[p].name)
    ensures Eval(order[p], ViewOf(x)) == Eval(order[p], ViewOf(y))
  {
    forall n | n in RefsOf(order[p]) ensures SameAt(ViewOf(x), ViewOf(y), n) {
      assert n != order[p].name;
    }
    EvalReadsOnlyItsRefs(order[p], ViewOf(x), ViewOf(y));
  }

  /** A pass's first changed write: the stored rows still are the snapshot, and the
      write settles the attribute it is for. */
  lemma FirstWriteShrinks<V>(order: seq<Attr<V>>, p: nat, snapshot: Cells<V>, after: Cells<V>)
    requires WellOrdered(order) && p < |order|
    requires OnlyChangesAt(snapshot, after, order[p].name)
    requires !Settled(order[p], snapshot)
    requires match Eval(order[p], ViewOf(snapshot))
             case None => order[p].name !in after
             case Some(v) => order[p].name in after && after[order[p].name].value == v && after[order[p].name].version == order[p].version
    ensures Unsettled(order, after) < Unsettled(order, snapshot)
  {
    WriteDoesNotMoveItsOwnResult(order, p, snapshot, after);
    forall i | 0 <= i < p ensures Settled(order[i], snapshot) <==> Settled(order[i], after) {
      WriteLeavesEarlierAlone(order, p, i, snapshot, after);
    }
    UnsettledDecreases(order, p, snapshot, after);
  }

  /** What a pass evaluates against: the snapshot, with rollups it already wrote fed in. */
  ghost predicate Feeds<V>(order: seq<Attr<V>>, inputs: View<V>, snapshot: Cells<V>) {
    forall n :: SameAt(inputs, ViewOf(snapshot), n) || FedRollup(order, inputs, n)
  }

  ghost predicate FedRollup<V>(order: seq<Attr<V>>, inputs: View<V>, n: string) {
    exists i :: 0 <= i < |order| && order[i].name == n && order[i].spec.Rollup? &&
                (match order[i].spec.result
                 case None => n !in inputs
                 case Some(v) => n in inputs && inputs[n] == v)
  }

  /** If everything before p was already settled in the stale snapshot, the stale result
      for p is the right one. */
  lemma StaleResultIsRight<V>(order: seq<Attr<V>>, p: nat, snapshot: Cells<V>, inputs: View<V>, now: Cells<V>)
    requires WellOrdered(order) && p < |order|
    requires Feeds(order, inputs, snapshot)
    requires SameOutside(order, ViewOf(snapshot), ViewOf(now)) && AllSettled(order, now)
    requires SettledUpTo(order, p, snapshot)
    ensures Eval(order[p], inputs) == Eval(order[p], ViewOf(now))
  {
    SettledPrefixIsDetermined(order, p, snapshot, now);
    forall n | n in RefsOf(order[p]) ensures SameAt(inputs, ViewOf(now), n) {
      RefIsOutsideOrEarlier(order, p, n);
      if FedRollup(order, inputs, n) {
        var i :| 0 <= i < |order| && order[i].name == n && order[i].spec.Rollup? &&
                 (match order[i].spec.result
                  case None => n !in inputs
                  case Some(v) => n in inputs && inputs[n] == v);
        assert Settled(order[i], now);
      } else {
        assert SameAt(inputs, ViewOf(snapshot), n);
      }
    }
    EvalReadsOnlyItsRefs(order[p], inputs, ViewOf(now));
  }

  /** A resumed pass that still manages to write something wrong does so only because an
      EARLIER attribute was unsettled in its snapshot: the damage is smaller than what
      the pass started from. */
  lemma StaleWriteShrinks<V>(order: seq<Attr<V>>, p: nat, snapshot: Cells<V>, inputs: View<V>, now: Cells<V>, after: Cells<V>)
    requires WellOrdered(order) && p < |order|
    requires Feeds(order, inputs, snapshot)
    requires SameOutside(order, ViewOf(snapshot), ViewOf(now)) && AllSettled(order, now)
    requires OnlyChangesAt(now, after, order[p].name)
    requires Eval(order[p], inputs) != Eval(order[p], ViewOf(now))
    ensures Unsettled(order, after) < Unsettled(order, snapshot)
  {
    if SettledUpTo(order, p, snapshot) {
      StaleResultIsRight(order, p, snapshot, inputs, now);
    }
    var q := FirstUnsettled(order, p, snapshot);
    forall i | 0 <= i <= q ensures Settled(order[i], after) {
      WriteLeavesEarlierAlone(order, p, i, now, after);
    }
    UnsettledDecreases(order, q, snapshot, after);
  }

  lemma {:induction false} FirstUnsettled<V>(order: seq<Attr<V>>, p: nat, cells: Cells<V>) returns (q: nat)
    requires WellOrdered(order) && p <= |order| && !SettledUpTo(order, p, cells)
    ensures q < p && SettledUpTo(order, q, cells) && !Settled(order[q], cells)
  {
    if SettledUpTo(order, p - 1, cells) {
      q := p - 1;
    } else {
      q := FirstUnsettled(order, p - 1, cells);
    }
  }
}
