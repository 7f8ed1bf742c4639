/**
  Ordering a bundle's types so that a parent precedes its subtypes.
 */
module TypeOrder {
  import opened Options
  import opened RefGraph

  datatype Type = Type(internalName: string, parent: string, content: string)

  /** The bundle by name; of two entries with one name the later counts. */
  function ByName(types: seq<Type>): map<string, Type> {
    if types == [] then map[]
    else
      var last := types[|types| - 1];
      ByName(types[..|types| - 1])[last.internalName := last]
  }

  /** From each type to the type it extends, where that type is in the bundle too. */
  function Parents(byName: map<string, Type>): Graph {
    map n | n in byName :: if byName[n].parent != "" && byName[n].parent in byName then [byName[n].parent] else []
  }

  ghost predicate Keyed(byName: map<string, Type>) {
    forall n :: n in byName ==> byName[n].internalName == n
  }

  function Names(ts: seq<Type>): seq<string> {
    seq(|ts|, i requires 0 <= i < |ts| => ts[i].internalName)
  }

  /** Each name of the bundle once, with its own entry, and never before its parent. */
  ghost predicate IsTypeOrder(byName: map<string, Type>, ts: seq<Type>) {
    && (forall i :: 0 <= i < |ts| ==> ts[i].internalName in byName && ts[i] == byName[ts[i].internalName])
    && (forall n :: n in byName ==> n in Names(ts))
    && DependencyOrder(Parents(byName), Names(ts))
  }

  lemma ParentComesFirst(byName: map<string, Type>, ts: seq<Type>, i: nat)
    requires IsTypeOrder(byName, ts) && i < |ts| && ts[i].parent != "" && ts[i].parent in byName
    ensures ts[i].parent in Names(ts[..i])
  {
    var order := Names(ts);
    assert order[i] == ts[i].internalName;
    var j :| 0 <= j < |ts| && order[j] == ts[i].parent;
    assert order[j] in Succ(Parents(byName), order[i]);
    assert Names(ts[..i])[j] == order[j];
  }

  /** A listing with every parent first is only possible without a cycle. */
  lemma OrderedMeansAcyclic(byName: map<string, Type>, ts: seq<Type>)
    requires IsTypeOrder(byName, ts)
    ensures Acyclic(Parents(byName))
  {
    var order := Names(ts);
    forall n ensures !Reaches(Parents(byName), n, n) {
      if n in byName {
        var i :| 0 <= i < |order| && order[i] == n;
        NotItsOwnAncestor(byName, order, i);
      } else {
        ClosedSetIsAWall(Parents(byName), {n}, n, n);
      }
    }
  }

  lemma NotItsOwnAncestor(byName: map<string, Type>, order: seq<string>, i: nat)
    requires DependencyOrder(Parents(byName), order) && (forall n :: n in byName ==> n in order) && i < |order|
    ensures !Reaches(Parents(byName), order[i], order[i])
  {
    var g, S := Parents(byName), set k | 0 <= k <= i :: order[k];
    forall m, r | m in S && r in Succ(g, m) ensures r in S && r != order[i] {
      var k :| 0 <= k <= i && order[k] == m;
      var j :| 0 <= j < |order| && order[j] == r;
      assert j < k;
    }
    ClosedSetIsAWall(g, S, order[i], order[i]);
  }

  /** The list after visiting a name, below the names in `open`: first its parents, then itself. */
  function Visited(byName: map<string, Type>, open: set<string>, done: seq<Type>, name: string): Option<seq<Type>>
    decreases byName.Keys - open
  {
    if name in Names(done) then Some(done)
    else if name in open then None
    else if name !in byName then Some(done)
    else
      var above := if byName[name].parent == "" then Some(done) else Visited(byName, open + {name}, done, byName[name].parent);
      if above.None? then None else Some(above.value + [byName[name]])
  }

  function SortedUpTo(byName: map<string, Type>, types: seq<Type>, n: nat): Option<seq<Type>>
    requires n <= |types|
  {
    if n == 0 then Some([])
    else
      var before := SortedUpTo(byName, types, n - 1);
      if before.None? then None else Visited(byName, {}, before.value, types[n - 1].internalName)
  }

  /** The bundle's types in the order the import takes them. */
  function SortedTypes(types: seq<Type>): Option<seq<Type>> {
    SortedUpTo(ByName(types), types, |types|)
  }

  /** The search's state: which names are in progress and which are done, and the list so far. */
  class TypeSort {
    const byName: map<string, Type>
    var visited: map<string, int>
    var ordered: seq<Type>

    constructor (byName: map<string, Type>)
      ensures this.byName == byName && visited == map[] && ordered == []
    {
      this.byName := byName;
      visited := map[];
      ordered := [];
    }

    ghost function Elements(stack: seq<string>): set<string> {
      set n | n in stack
    }

    ghost predicate Done(n: string)
      reads this
    {
      n in visited && visited[n] == 2
    }

    /** The names in progress are the chain of subtypes that led here. */
    ghost predicate Chain(stack: seq<string>)
      reads this
    {
      && (forall n :: n in stack <==> n in visited && visited[n] == 1)
      && (forall i :: 0 <= i < |stack| - 1 ==> stack[i + 1] in Succ(Parents(byName), stack[i]))
    }

    /** The list so far is in order, holds the names that are done, and misses none of their parents. */
    ghost predicate Listed()
      reads this
    {
      && Keyed(byName)
      && (forall n :: n in visited ==> n in byName && (visited[n] == 1 || visited[n] == 2))
      && (forall i :: 0 <= i < |ordered| ==> ordered[i].internalName in byName && ordered[i] == byName[ordered[i].internalName])
      && (forall n :: n in Names(ordered) <==> Done(n))
      && (forall n, r :: Done(n) && r in Succ(Parents(byName), n) ==> Done(r))
      && DependencyOrder(Parents(byName), Names(ordered))
    }

    method Visit(name: string, ghost stack: seq<string>) returns (ok: bool)
      requires Chain(stack) && Listed()
      requires stack != [] && name in byName ==> name in Succ(Parents(byName), stack[|stack| - 1])
      modifies this`visited, this`ordered
      ensures !ok ==> !Acyclic(Parents(byName))
      ensures ok ==> Chain(stack) && Listed() && (name in byName ==> Done(name))
      ensures ok ==> forall n :: old(Done(n)) ==> Done(n)
      ensures Visited(byName, Elements(stack), old(ordered), name) == if ok then Some(ordered) else None
      decreases byName.Keys - visited.Keys
    {
      if name in visited && visited[name] == 2 { return true; }
      if name in visited && visited[name] == 1 {
        ChainClosesOn(name, stack);
        return false;
      }
      if name !in byName { return true; }
      ghost var deeper := stack + [name];
      Begin(name, stack);
      if byName[name].parent != "" {
        ok := Visit(byName[name].parent, deeper);
        if !ok { return; }
      }
      assert name in deeper;
      Finish(name, stack);
      ok := true;
    }

    method Begin(name: string, ghost stack: seq<string>)
      requires Chain(stack) && Listed() && name in byName && name !in visited
      requires stack != [] ==> name in Succ(Parents(byName), stack[|stack| - 1])
      modifies this`visited
      ensures visited == old(visited)[name := 1]
      ensures Chain(stack + [name]) && Listed() && Elements(stack + [name]) == Elements(stack) + {name}
      ensures forall n :: Done(n) <==> old(Done(n))
    {
      visited := visited[name := 1];
      assert forall n :: Done(n) <==> old(Done(n));
      assert forall n :: n in stack + [name] <==> n in stack || n == name;
    }

    ghost predicate AllDone(names: seq<string>)
      reads this
    {
      forall k :: 0 <= k < |names| ==> names[k] in byName && Done(names[k])
    }

    /** The first i entries have been visited. */
    ghost predicate At(types: seq<Type>, i: nat)
      requires i <= |types|
      reads this
    {
      && Chain([]) && Listed()
      && AllDone(Names(types)[..i])
      && SortedUpTo(byName, types, i) == Some(ordered)
    }

    method VisitEntry(types: seq<Type>, i: nat) returns (ok: bool)
      requires i < |types| && At(types, i) && types[i].internalName in byName
      modifies this`visited, this`ordered
      ensures ok ==> At(types, i + 1)
      ensures !ok ==> !Acyclic(Parents(byName)) && SortedUpTo(byName, types, |types|).None?
    {
      ghost var names := Names(types);
      assert names[i] == types[i].internalName && names[..i + 1] == names[..i] + [names[i]];
      assert Elements([]) == {};
      ok := Visit(types[i].internalName, []);
      if !ok { FailureLasts(byName, types, i + 1); }
    }

    lemma ListIsComplete(names: seq<string>)
      requires Listed() && AllDone(names) && forall n :: n in byName ==> n in names
      ensures IsTypeOrder(byName, ordered)
    {
    }

    lemma ChainClosesOn(name: string, stack: seq<string>)
      requires Chain(stack) && name in stack && name in byName
      requires name in Succ(Parents(byName), stack[|stack| - 1])
      ensures !Acyclic(Parents(byName))
    {
      var i :| 0 <= i < |stack| && stack[i] == name;
      var p := stack[i..] + [name];
      assert IsPath(Parents(byName), p);
      assert Reaches(Parents(byName), name, name);
    }

    /** The parent is done: the type itself is done, and goes on the list behind everything listed. */
    method Finish(name: string, ghost stack: seq<string>)
      requires Chain(stack + [name]) && Listed() && name in byName && name !in stack
      requires forall r :: r in Succ(Parents(byName), name) ==> Done(r)
      modifies this`visited, this`ordered
      ensures visited == old(visited)[name := 2] && ordered == old(ordered) + [byName[name]]
      ensures Chain(stack) && Listed() && Done(name)
    {
      ghost var before := ordered;
      assert !Done(name) by { assert (stack + [name])[|stack|] == name; }
      assert name !in Names(before);
      visited := visited[name := 2];
      assert forall n :: Done(n) <==> old(Done(n)) || n == name;
      ordered := ordered + [byName[name]];
      assert Names(ordered) == Names(before) + [name];
      assert Chain(stack) by {
        forall n ensures n in stack <==> n in visited && visited[n] == 1 { assert n in stack + [name] <==> n in stack || n == name; }
        forall i | 0 <= i < |stack| - 1 ensures stack[i + 1] in Succ(Parents(byName), stack[i]) {
          assert (stack + [name])[i + 1] in Succ(Parents(byName), (stack + [name])[i]);
        }
      }
    }
  }

  lemma {:induction false} EveryNameIsAnEntry(types: seq<Type>)
    ensures Keyed(ByName(types))
    ensures forall n :: n in ByName(types) <==> n in Names(types)
  {
    if types == [] {
    } else {
      EveryNameIsAnEntry(types[..|types| - 1]);
      assert Names(types) == Names(types[..|types| - 1]) + [types[|types| - 1].internalName];
    }
  }

  method IndexByName(types: seq<Type>) returns (byName: map<string, Type>)
    ensures byName == ByName(types)
  {
    byName := map[];
    for i := 0 to |types|
      invariant byName == ByName(types[..i])
    {
      assert types[..i + 1][..i] == types[..i];
      byName := byName[types[i].internalName := types[i]];
    }
    assert types[..|types|] == types;
  }

  /** Visits the types in bundle order. */
  method VisitAll(sort: TypeSort, types: seq<Type>) returns (ok: bool)
    requires sort.Chain([]) && sort.Listed() && sort.ordered == []
    requires forall n :: n in sort.byName <==> n in Names(types)
    modifies sort`visited, sort`ordered
    ensures ok ==> IsTypeOrder(sort.byName, sort.ordered)
    ensures !ok ==> !Acyclic(Parents(sort.byName))
    ensures SortedUpTo(sort.byName, types, |types|) == if ok then Some(sort.ordered) else None
  {
    ok := VisitEach(sort, types);
    if ok {
      assert Names(types)[..|types|] == Names(types);
      sort.ListIsComplete(Names(types));
    }
  }

  method VisitEach(sort: TypeSort, types: seq<Type>) returns (ok: bool)
    requires sort.At(types, 0) && forall n :: n in Names(types) ==> n in sort.byName
    modifies sort`visited, sort`ordered
    ensures ok ==> sort.At(types, |types|)
    ensures !ok ==> !Acyclic(Parents(sort.byName)) && SortedUpTo(sort.byName, types, |types|).None?
  {
    for i := 0 to |types|
      invariant sort.At(types, i)
    {
      assert types[i].internalName in sort.byName by { assert Names(types)[i] == types[i].internalName; }
      ok := sort.VisitEntry(types, i);
      if !ok { return; }
    }
    ok := true;
  }

  lemma {:induction false} FailureLasts(byName: map<string, Type>, types: seq<Type>, n: nat)
    requires n <= |types| && SortedUpTo(byName, types, n).None?
    ensures SortedUpTo(byName, types, |types|).None?
    decreases |types| - n
  {
    if n < |types| { FailureLasts(byName, types, n + 1); }
  }

  // ---------------------------------------------- the order, said of the entries

  /** No later entry has this one's name. */
  ghost predicate LastNamed(types: seq<Type>, j: nat) {
    j < |types| && forall k :: j < k < |types| ==> types[k].internalName != types[j].internalName
  }

  ghost predicate IsEntry(types: seq<Type>, t: Type) {
    exists j: nat :: LastNamed(types, j) && types[j] == t
  }

  /** Entries that extend one another in a circle. */
  ghost predicate ExtendsInCircle(types: seq<Type>, p: seq<Type>) {
    && |p| >= 2 && p[0] == p[|p| - 1] && (forall i :: 0 <= i < |p| ==> IsEntry(types, p[i]))
    && (forall i :: 0 <= i < |p| - 1 ==> p[i].parent != "" && p[i].parent == p[i + 1].internalName)
  }

  /** Each name once, by its last entry, and no type before the one it extends. */
  ghost predicate InParentOrder(types: seq<Type>, ordered: seq<Type>) {
    && (forall i :: 0 <= i < |ordered| ==> IsEntry(types, ordered[i]))
    && (forall t :: IsEntry(types, t) ==> t in ordered)
    && (forall i, j :: 0 <= i < j < |ordered| ==> ordered[i].internalName != ordered[j].internalName)
    && (forall i, j :: 0 <= i < |ordered| && 0 <= j < |ordered| && ordered[i].parent != "" && ordered[i].parent == ordered[j].internalName ==> j < i)
  }

  lemma {:induction false} ByNameIsLastEntry(types: seq<Type>, n: string)
    ensures n in ByName(types) ==> IsEntry(types, ByName(types)[n]) && ByName(types)[n].internalName == n
    ensures forall t :: IsEntry(types, t) && t.internalName == n ==> n in ByName(types) && ByName(types)[n] == t
  {
    if types != [] {
      var k := |types| - 1;
      ByNameIsLastEntry(types[..k], n);
      if types[k].internalName == n {
        assert LastNamed(types, k);
        forall t | IsEntry(types, t) && t.internalName == n ensures t == types[k] {
          var j: nat :| LastNamed(types, j) && types[j] == t;
        }
      } else {
        EntriesBeforeOther(types, n);
      }
    }
  }

  lemma LastNamedBeforeOther(types: seq<Type>, j: nat)
    requires j < |types| - 1 && types[|types| - 1].internalName != types[j].internalName
    ensures LastNamed(types, j) <==> LastNamed(types[..|types| - 1], j)
  {
    var init := types[..|types| - 1];
    assert init[j] == types[j];
    if LastNamed(init, j) {
      forall k | j < k < |types| ensures types[k].internalName != types[j].internalName {
        if k < |init| { assert init[k] == types[k]; }
      }
    }
  }

  lemma EntriesBeforeOther(types: seq<Type>, n: string)
    requires types != [] && types[|types| - 1].internalName != n
    ensures forall t: Type :: t.internalName == n ==> (IsEntry(types, t) <==> IsEntry(types[..|types| - 1], t))
  {
    var init := types[..|types| - 1];
    forall t: Type | t.internalName == n ensures IsEntry(types, t) <==> IsEntry(init, t) {
      if IsEntry(types, t) {
        var j: nat :| LastNamed(types, j) && types[j] == t;
        LastNamedBeforeOther(types, j);
      }
      if IsEntry(init, t) {
        var j: nat :| LastNamed(init, j) && init[j] == t;
        LastNamedBeforeOther(types, j);
      }
    }
  }

  /** The sorted types are entries of the bundle. */
  ghost predicate FromBundle(byName: map<string, Type>, ts: seq<Type>) {
    forall i :: 0 <= i < |ts| ==> ts[i].internalName in byName && ts[i] == byName[ts[i].internalName]
  }

  lemma {:induction false} VisitedIsFromBundle(byName: map<string, Type>, open: set<string>, done: seq<Type>, name: string)
    requires Keyed(byName) && FromBundle(byName, done)
    ensures Visited(byName, open, done, name).Some? ==> FromBundle(byName, Visited(byName, open, done, name).value)
    decreases byName.Keys - open
  {
    if name !in Names(done) && name !in open && name in byName && byName[name].parent != "" {
      VisitedIsFromBundle(byName, open + {name}, done, byName[name].parent);
    }
  }

  lemma {:induction false} SortedIsFromBundle(byName: map<string, Type>, types: seq<Type>, n: nat)
    requires Keyed(byName) && n <= |types|
    ensures SortedUpTo(byName, types, n).Some? ==> FromBundle(byName, SortedUpTo(byName, types, n).value)
  {
    if n > 0 {
      SortedIsFromBundle(byName, types, n - 1);
      if SortedUpTo(byName, types, n - 1).Some? {
        VisitedIsFromBundle(byName, {}, SortedUpTo(byName, types, n - 1).value, types[n - 1].internalName);
      }
    }
  }

  lemma SortedTypesAreEntries(types: seq<Type>)
    ensures SortedTypes(types).Some? ==> forall i :: 0 <= i < |SortedTypes(types).value| ==> IsEntry(types, SortedTypes(types).value[i])
  {
    forall n | n in ByName(types) ensures ByName(types)[n].internalName == n && IsEntry(types, ByName(types)[n]) { ByNameIsLastEntry(types, n); }
    SortedIsFromBundle(ByName(types), types, |types|);
  }

  /** Every name has a last entry. */
  lemma {:induction false} LastEntryOf(types: seq<Type>, x: Type) returns (t: Type)
    requires x in types
    ensures IsEntry(types, t) && t.internalName == x.internalName
  {
    var k := |types| - 1;
    if types[k].internalName == x.internalName {
      t := types[k];
      assert LastNamed(types, k);
    } else {
      t := LastEntryOf(types[..k], x);
      EntriesBeforeOther(types, x.internalName);
    }
  }

  lemma TypeOrderIsParentOrder(types: seq<Type>, ordered: seq<Type>)
    requires IsTypeOrder(ByName(types), ordered)
    ensures InParentOrder(types, ordered)
  {
    var byName, order := ByName(types), Names(ordered);
    forall i | 0 <= i < |ordered| ensures IsEntry(types, ordered[i]) { ByNameIsLastEntry(types, ordered[i].internalName); }
    forall t | IsEntry(types, t) ensures t in ordered {
      ByNameIsLastEntry(types, t.internalName);
      var i :| 0 <= i < |order| && order[i] == t.internalName;
      assert ordered[i] == byName[t.internalName];
    }
    forall i, j | 0 <= i < j < |ordered| ensures ordered[i].internalName != ordered[j].internalName { assert order[i] != order[j]; }
    forall i, j | 0 <= i < |ordered| && 0 <= j < |ordered| && ordered[i].parent != "" && ordered[i].parent == ordered[j].internalName
      ensures j < i
    {
      assert order[j] in Succ(Parents(byName), order[i]);
    }
  }

  /** A cycle of names is a circle of entries, and the other way round. */
  lemma CycleIsACircle(types: seq<Type>)
    ensures !Acyclic(Parents(ByName(types))) <==> exists p :: ExtendsInCircle(types, p)
  {
    var byName := ByName(types);
    var g := Parents(byName);
    if !Acyclic(g) {
      var n :| Reaches(g, n, n);
      var q :| IsPath(g, q) && q[0] == n && q[|q| - 1] == n;
      forall i | 0 <= i < |q| ensures q[i] in byName {
        if i < |q| - 1 { assert q[i + 1] in Succ(g, q[i]); } else { assert q[i - 1 + 1] in Succ(g, q[i - 1]); }
      }
      var p := seq(|q|, i requires 0 <= i < |q| => byName[q[i]]);
      forall i | 0 <= i < |p| ensures IsEntry(types, p[i]) && p[i].internalName == q[i] { ByNameIsLastEntry(types, q[i]); }
      forall i | 0 <= i < |p| - 1 ensures p[i].parent != "" && p[i].parent == p[i + 1].internalName { assert q[i + 1] in Succ(g, q[i]); }
      assert ExtendsInCircle(types, p);
    }
    if p: seq<Type> :| ExtendsInCircle(types, p) {
      var q := Names(p);
      forall i | 0 <= i < |p| ensures q[i] in byName && byName[q[i]] == p[i] { ByNameIsLastEntry(types, p[i].internalName); }
      forall i | 0 <= i < |q| - 1 ensures q[i + 1] in Succ(g, q[i]) { assert byName[q[i]].parent == q[i + 1]; }
      assert IsPath(g, q);
      assert Reaches(g, q[0], q[0]);
    }
  }

  /** Fails exactly when the bundle's own extends edges contain a cycle. */
  method TopoSortTypes(types: seq<Type>) returns (r: Option<seq<Type>>)
    ensures r == SortedTypes(types)
    ensures r.None? <==> exists p :: ExtendsInCircle(types, p)
    ensures r.Some? ==> IsTypeOrder(ByName(types), r.value) && InParentOrder(types, r.value)
  {
    var byName := IndexByName(types);
    EveryNameIsAnEntry(types);
    CycleIsACircle(types);
    var sort := new TypeSort(byName);
    var ok := VisitAll(sort, types);
    if !ok { return None; }
    r := Some(sort.ordered);
    OrderedMeansAcyclic(byName, sort.ordered);
    TypeOrderIsParentOrder(types, sort.ordered);
  }
}
