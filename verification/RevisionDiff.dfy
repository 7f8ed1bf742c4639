/**
  The difference between two revisions of an entity, as a patch.
 */
module RevisionDiff {
  import opened Ordering

  datatype Value = Value(attribute: string, internalName: string, locale: string, channel: string, text: string)

  /** One attribute at one scope. */
  datatype Key = Key(attribute: string, locale: string, channel: string)

  datatype Kind = Added | Changed | Removed

  datatype Change = Change(attribute: string, internalName: string, locale: string, channel: string,
                           kind: Kind, before: string, after: string)

  function ScopeKey(v: Value): Key {
    Key(v.attribute, v.locale, v.channel)
  }

  function KeyOf(c: Change): Key {
    Key(c.attribute, c.locale, c.channel)
  }

  function ChangeOf(v: Value, kind: Kind, before: string, after: string): Change {
    Change(v.attribute, v.internalName, v.locale, v.channel, kind, before, after)
  }

  function ContainsValue(vs: seq<Value>, text: string): bool {
    exists v | v in vs :: v.text == text
  }

  /** Every member a revision holds at a key, in revision order. */
  function Group(vs: seq<Value>, k: Key): (r: seq<Value>)
    ensures forall v :: v in r <==> v in vs && ScopeKey(v) == k
  {
    if |vs| == 0 then []
    else
      var init, last := vs[..|vs| - 1], vs[|vs| - 1];
      assert vs == init + [last];
      Group(init, k) + if ScopeKey(last) == k then [last] else []
  }

  method GroupByScope(vs: seq<Value>) returns (groups: map<Key, seq<Value>>)
    ensures forall k :: k in groups <==> Group(vs, k) != []
    ensures forall k :: k in groups ==> groups[k] == Group(vs, k)
  {
    groups := map[];
    for i := 0 to |vs|
      invariant forall k :: k in groups <==> Group(vs[..i], k) != []
      invariant forall k :: k in groups ==> groups[k] == Group(vs[..i], k)
    {
      assert vs[..i + 1][..i] == vs[..i];
      var k := ScopeKey(vs[i]);
      groups := groups[k := (if k in groups then groups[k] else []) + [vs[i]]];
    }
    assert vs[..|vs|] == vs;
  }

  // --------------------------------------------------------- one key's changes

  predicate Single(fvs: seq<Value>, tvs: seq<Value>) {
    |fvs| == 1 && |tvs| == 1
  }

  /** What the first pass reports of a key: values the older side does not hold. */
  function Arrivals(fvs: seq<Value>, tvs: seq<Value>, n: nat): seq<Change>
    requires n <= |tvs|
  {
    if n == 0 then []
    else
      Arrivals(fvs, tvs, n - 1) +
      if ContainsValue(fvs, tvs[n - 1].text) then []
      else if Single(fvs, tvs) then [ChangeOf(tvs[n - 1], Changed, fvs[0].text, tvs[n - 1].text)]
      else [ChangeOf(tvs[n - 1], Added, "", tvs[n - 1].text)]
  }

  /** What the second pass reports: values the newer side does not hold, unless already replaced. */
  function Departures(fvs: seq<Value>, tvs: seq<Value>, n: nat): seq<Change>
    requires n <= |fvs|
  {
    if n == 0 then []
    else
      Departures(fvs, tvs, n - 1) +
      if ContainsValue(tvs, fvs[n - 1].text) || Single(fvs, tvs) then []
      else [ChangeOf(fvs[n - 1], Removed, fvs[n - 1].text, "")]
  }

  function ScopeChanges(from: seq<Value>, to: seq<Value>, k: Key): seq<Change> {
    var fvs, tvs := Group(from, k), Group(to, k);
    Arrivals(fvs, tvs, |tvs|) + Departures(fvs, tvs, |fvs|)
  }

  ghost predicate AllAt(cs: seq<Change>, k: Key) {
    forall c :: c in cs ==> KeyOf(c) == k
  }

  lemma {:induction false} ArrivalsAt(fvs: seq<Value>, tvs: seq<Value>, n: nat, k: Key)
    requires n <= |tvs| && forall v :: v in tvs ==> ScopeKey(v) == k
    ensures AllAt(Arrivals(fvs, tvs, n), k)
  {
    if n > 0 { ArrivalsAt(fvs, tvs, n - 1, k); assert tvs[n - 1] in tvs; }
  }

  lemma {:induction false} DeparturesAt(fvs: seq<Value>, tvs: seq<Value>, n: nat, k: Key)
    requires n <= |fvs| && forall v :: v in fvs ==> ScopeKey(v) == k
    ensures AllAt(Departures(fvs, tvs, n), k)
  {
    if n > 0 { DeparturesAt(fvs, tvs, n - 1, k); assert fvs[n - 1] in fvs; }
  }

  // ------------------------------------------------------------ report order

  /** By internal name, locale, channel, attribute id. */
  predicate ReportLeq(c: Change, d: Change) {
    if c.internalName != d.internalName then StrLeq(c.internalName, d.internalName)
    else if c.locale != d.locale then StrLeq(c.locale, d.locale)
    else if c.channel != d.channel then StrLeq(c.channel, d.channel)
    else StrLeq(c.attribute, d.attribute)
  }

  lemma StrLeqTotalOrder(a: string, b: string, c: string)
    ensures StrLeq(a, b) || StrLeq(b, a)
    ensures StrLeq(a, b) && StrLeq(b, a) ==> a == b
    ensures StrLeq(a, b) && StrLeq(b, c) ==> StrLeq(a, c)
  {
    StrLessTrichotomy(a, b);
    if StrLeq(a, b) && StrLeq(b, c) { StrLeqTransitive(a, b, c); }
  }

  lemma ReportLeqTransitive(c: Change, d: Change, e: Change)
    requires ReportLeq(c, d) && ReportLeq(d, e)
    ensures ReportLeq(c, e)
  {
    StrLeqTotalOrder(c.internalName, d.internalName, e.internalName);
    StrLeqTotalOrder(d.internalName, e.internalName, c.internalName);
    StrLeqTotalOrder(c.locale, d.locale, e.locale);
    StrLeqTotalOrder(d.locale, e.locale, c.locale);
    StrLeqTotalOrder(c.channel, d.channel, e.channel);
    StrLeqTotalOrder(d.channel, e.channel, c.channel);
    StrLeqTotalOrder(c.attribute, d.attribute, e.attribute);
  }

  lemma ReportLeqIsPreorder()
    ensures TotalPreorder(ReportLeq)
  {
    forall c, d ensures ReportLeq(c, d) || ReportLeq(d, c) {
      StrLeqTotalOrder(c.internalName, d.internalName, "");
      StrLeqTotalOrder(c.locale, d.locale, "");
      StrLeqTotalOrder(c.channel, d.channel, "");
      StrLeqTotalOrder(c.attribute, d.attribute, "");
    }
    forall c, d, e | ReportLeq(c, d) && ReportLeq(d, e) ensures ReportLeq(c, e) { ReportLeqTransitive(c, d, e); }
  }

  /** Changes that tie in the report are changes of one key. */
  lemma TiedIsSameKey(c: Change, d: Change)
    requires Tied(c, d, ReportLeq)
    ensures KeyOf(c) == KeyOf(d) && c.internalName == d.internalName
  {
    StrLeqTotalOrder(c.internalName, d.internalName, "");
    StrLeqTotalOrder(c.locale, d.locale, "");
    StrLeqTotalOrder(c.channel, d.channel, "");
    StrLeqTotalOrder(c.attribute, d.attribute, "");
  }

  lemma {:induction false} ClassElsewhereIsEmpty(cs: seq<Change>, k: Key, z: Change)
    requires AllAt(cs, k) && KeyOf(z) != k
    ensures Class(cs, z, ReportLeq) == []
  {
    if |cs| == 0 {
    } else {
      assert cs[0] in cs;
      if Tied(cs[0], z, ReportLeq) { TiedIsSameKey(cs[0], z); }
      ClassElsewhereIsEmpty(cs[1..], k, z);
    }
  }

  // -------------------------------------------------------------------- diff

  /** The report: sorted, and holding for every key what that key's groups say. */
  ghost predicate IsDiff(from: seq<Value>, to: seq<Value>, changes: seq<Change>) {
    && Sorted(changes, ReportLeq)
    && forall z :: Class(changes, z, ReportLeq) == Class(ScopeChanges(from, to, KeyOf(z)), z, ReportLeq)
  }

  /** There is one such report: nothing of the order maps were walked in is left in it. */
  lemma DiffIsUnique(from: seq<Value>, to: seq<Value>, xs: seq<Change>, ys: seq<Change>)
    requires IsDiff(from, to, xs) && IsDiff(from, to, ys)
    ensures xs == ys
  {
    ReportLeqIsPreorder();
    assert IsStableSort(xs, xs, ReportLeq) && IsStableSort(xs, ys, ReportLeq);
    StableSortUnique(xs, xs, ys, ReportLeq);
  }

  /** After walking some keys, each of them has contributed its part and no other key has. */
  ghost predicate Walked(changes: seq<Change>, done: set<Key>, earlier: seq<Change>, part: Key -> seq<Change>) {
    forall z :: Class(changes, z, ReportLeq) ==
      Class(earlier, z, ReportLeq) + if KeyOf(z) in done then Class(part(KeyOf(z)), z, ReportLeq) else []
  }

  lemma WalkedOneMore(changes: seq<Change>, done: set<Key>, earlier: seq<Change>, part: Key -> seq<Change>, k: Key)
    requires Walked(changes, done, earlier, part) && k !in done && AllAt(part(k), k)
    ensures Walked(changes + part(k), done + {k}, earlier, part)
  {
    forall z ensures Class(changes + part(k), z, ReportLeq) ==
      Class(earlier, z, ReportLeq) + if KeyOf(z) in done + {k} then Class(part(KeyOf(z)), z, ReportLeq) else []
    {
      ClassConcat(changes, part(k), z, ReportLeq);
      if KeyOf(z) != k { ClassElsewhereIsEmpty(part(k), k, z); }
    }
  }

  function ArrivalsFor(from: seq<Value>, to: seq<Value>): Key -> seq<Change> {
    k => Arrivals(Group(from, k), Group(to, k), |Group(to, k)|)
  }

  function DeparturesFor(from: seq<Value>, to: seq<Value>): Key -> seq<Change> {
    k => Departures(Group(from, k), Group(to, k), |Group(from, k)|)
  }

  method AppendArrivals(fvs: seq<Value>, tvs: seq<Value>, changes: seq<Change>) returns (out: seq<Change>)
    ensures out == changes + Arrivals(fvs, tvs, |tvs|)
  {
    out := changes;
    for i := 0 to |tvs|
      invariant out == changes + Arrivals(fvs, tvs, i)
    {
      if !ContainsValue(fvs, tvs[i].text) {
        var kind, before := Added, "";
        if |tvs| == 1 && |fvs| == 1 { kind, before := Changed, fvs[0].text; }
        out := out + [ChangeOf(tvs[i], kind, before, tvs[i].text)];
      }
    }
  }

  method AppendDepartures(fvs: seq<Value>, tvs: seq<Value>, changes: seq<Change>) returns (out: seq<Change>)
    ensures out == changes + Departures(fvs, tvs, |fvs|)
  {
    out := changes;
    for i := 0 to |fvs|
      invariant out == changes + Departures(fvs, tvs, i)
    {
      if ContainsValue(tvs, fvs[i].text) { continue; }
      if |tvs| == 1 && |fvs| == 1 { continue; }
      out := out + [ChangeOf(fvs[i], Removed, fvs[i].text, "")];
    }
  }

  ghost predicate Groups(vs: seq<Value>, groups: map<Key, seq<Value>>) {
    && (forall k :: k in groups <==> Group(vs, k) != [])
    && (forall k :: k in groups ==> groups[k] == Group(vs, k))
  }

  method WalkArrivals(ghost from: seq<Value>, ghost to: seq<Value>, fromByScope: map<Key, seq<Value>>, toByScope: map<Key, seq<Value>>)
    returns (out: seq<Change>)
    requires Groups(from, fromByScope) && Groups(to, toByScope)
    ensures Walked(out, toByScope.Keys, [], ArrivalsFor(from, to))
  {
    out := [];
    var todo := toByScope.Keys;
    while todo != {}
      invariant todo <= toByScope.Keys && Walked(out, toByScope.Keys - todo, [], ArrivalsFor(from, to))
      decreases todo
    {
      var k :| k in todo;
      ghost var done := toByScope.Keys - todo;
      todo := todo - {k};
      ArrivalsAt(Group(from, k), Group(to, k), |Group(to, k)|, k);
      WalkedOneMore(out, done, [], ArrivalsFor(from, to), k);
      assert toByScope.Keys - todo == done + {k};
      out := AppendArrivals(if k in fromByScope then fromByScope[k] else [], toByScope[k], out);
    }
  }

  method WalkDepartures(ghost from: seq<Value>, ghost to: seq<Value>, fromByScope: map<Key, seq<Value>>, toByScope: map<Key, seq<Value>>,
                        arrived: seq<Change>)
    returns (out: seq<Change>)
    requires Groups(from, fromByScope) && Groups(to, toByScope)
    ensures Walked(out, fromByScope.Keys, arrived, DeparturesFor(from, to))
  {
    out := arrived;
    var todo := fromByScope.Keys;
    while todo != {}
      invariant todo <= fromByScope.Keys && Walked(out, fromByScope.Keys - todo, arrived, DeparturesFor(from, to))
      decreases todo
    {
      var k :| k in todo;
      ghost var done := fromByScope.Keys - todo;
      todo := todo - {k};
      DeparturesAt(Group(from, k), Group(to, k), |Group(from, k)|, k);
      WalkedOneMore(out, done, arrived, DeparturesFor(from, to), k);
      assert fromByScope.Keys - todo == done + {k};
      out := AppendDepartures(fromByScope[k], if k in toByScope then toByScope[k] else [], out);
    }
  }

  lemma SortedWalksAreTheDiff(from: seq<Value>, to: seq<Value>, fromKeys: set<Key>, toKeys: set<Key>, arrived: seq<Change>, out: seq<Change>)
    requires forall k :: k in fromKeys <==> Group(from, k) != []
    requires forall k :: k in toKeys <==> Group(to, k) != []
    requires Walked(arrived, toKeys, [], ArrivalsFor(from, to)) && Walked(out, fromKeys, arrived, DeparturesFor(from, to))
    ensures IsDiff(from, to, StableSort(out, ReportLeq))
  {
    ReportLeqIsPreorder();
    StableSortIsStableSort(out, ReportLeq);
    forall z ensures Class(out, z, ReportLeq) == Class(ScopeChanges(from, to, KeyOf(z)), z, ReportLeq) {
      WalkedClass(from, to, fromKeys, toKeys, arrived, out, z);
    }
  }

  lemma WalkedClass(from: seq<Value>, to: seq<Value>, fromKeys: set<Key>, toKeys: set<Key>, arrived: seq<Change>, out: seq<Change>, z: Change)
    requires KeyOf(z) in fromKeys <==> Group(from, KeyOf(z)) != []
    requires KeyOf(z) in toKeys <==> Group(to, KeyOf(z)) != []
    requires Walked(arrived, toKeys, [], ArrivalsFor(from, to)) && Walked(out, fromKeys, arrived, DeparturesFor(from, to))
    ensures Class(out, z, ReportLeq) == Class(ScopeChanges(from, to, KeyOf(z)), z, ReportLeq)
  {
    var k := KeyOf(z);
    ClassConcat(ArrivalsFor(from, to)(k), DeparturesFor(from, to)(k), z, ReportLeq);
  }

  // ----------------------------------------------------------- what it means

  /** The values a revision holds at a key, as a set. */
  function TextsAt(vs: seq<Value>, k: Key): set<string> {
    set v | v in vs && ScopeKey(v) == k :: v.text
  }

  lemma {:induction false} ClassMembers(cs: seq<Change>, c: Change)
    ensures c in Class(cs, c, ReportLeq) <==> c in cs
  {
    StrLeqTotalOrder(c.attribute, c.attribute, "");
  }

  /** The report holds a change exactly when its key's groups call for it. */
  lemma InDiff(from: seq<Value>, to: seq<Value>, changes: seq<Change>, c: Change)
    requires IsDiff(from, to, changes)
    ensures c in changes <==> c in ScopeChanges(from, to, KeyOf(c))
  {
    ClassMembers(changes, c);
    ClassMembers(ScopeChanges(from, to, KeyOf(c)), c);
  }

  /** The i-th value of the newer side is reported, as this change. */
  ghost predicate ArrivalAt(fvs: seq<Value>, tvs: seq<Value>, i: nat, c: Change)
    requires i < |tvs|
  {
    !ContainsValue(fvs, tvs[i].text) &&
    c == if Single(fvs, tvs) then ChangeOf(tvs[i], Changed, fvs[0].text, tvs[i].text) else ChangeOf(tvs[i], Added, "", tvs[i].text)
  }

  ghost predicate DepartureAt(fvs: seq<Value>, tvs: seq<Value>, i: nat, c: Change)
    requires i < |fvs|
  {
    !ContainsValue(tvs, fvs[i].text) && !Single(fvs, tvs) && c == ChangeOf(fvs[i], Removed, fvs[i].text, "")
  }

  lemma ArrivalsSnoc(fvs: seq<Value>, tvs: seq<Value>, n: nat, c: Change)
    requires 0 < n <= |tvs|
    ensures c in Arrivals(fvs, tvs, n) <==> c in Arrivals(fvs, tvs, n - 1) || ArrivalAt(fvs, tvs, n - 1, c)
  {
  }

  lemma DeparturesSnoc(fvs: seq<Value>, tvs: seq<Value>, n: nat, c: Change)
    requires 0 < n <= |fvs|
    ensures c in Departures(fvs, tvs, n) <==> c in Departures(fvs, tvs, n - 1) || DepartureAt(fvs, tvs, n - 1, c)
  {
  }

  lemma {:induction false} InArrivals(fvs: seq<Value>, tvs: seq<Value>, n: nat, c: Change)
    requires n <= |tvs|
    ensures c in Arrivals(fvs, tvs, n) <==> exists i :: 0 <= i < n && ArrivalAt(fvs, tvs, i, c)
  {
    if n == 0 {
    } else {
      InArrivals(fvs, tvs, n - 1, c);
      ArrivalsSnoc(fvs, tvs, n, c);
    }
  }

  lemma {:induction false} InDepartures(fvs: seq<Value>, tvs: seq<Value>, n: nat, c: Change)
    requires n <= |fvs|
    ensures c in Departures(fvs, tvs, n) <==> exists i :: 0 <= i < n && DepartureAt(fvs, tvs, i, c)
  {
    if n == 0 {
    } else {
      InDepartures(fvs, tvs, n - 1, c);
      DeparturesSnoc(fvs, tvs, n, c);
    }
  }

  lemma TextsOfGroup(vs: seq<Value>, k: Key)
    ensures TextsAt(vs, k) == set v | v in Group(vs, k) :: v.text
    ensures forall t :: ContainsValue(Group(vs, k), t) <==> t in TextsAt(vs, k)
  {
  }

  /** A change as a step of a patch: what it takes out and what it puts in, at its key. */
  datatype Edit = Edit(key: Key, kind: Kind, before: string, after: string)

  function EditOf(c: Change): Edit {
    Edit(KeyOf(c), c.kind, c.before, c.after)
  }

  function Edits(changes: seq<Change>): set<Edit> {
    set c | c in changes :: EditOf(c)
  }

  /** The edits between two revisions, said without reference to how they are found: at a key where
      each side holds one value and they differ, one replacement; elsewhere, what came and what went. */
  ghost predicate Calls(from: seq<Value>, to: seq<Value>, e: Edit) {
    var f, t := TextsAt(from, e.key), TextsAt(to, e.key);
    if Single(Group(from, e.key), Group(to, e.key)) then
      e.kind == Changed && e.before in f && e.after in t && e.before != e.after
    else
      || (e.kind == Added && e.before == "" && e.after in t - f)
      || (e.kind == Removed && e.after == "" && e.before in f - t)
  }

  lemma DiffCallsEdit(from: seq<Value>, to: seq<Value>, changes: seq<Change>, c: Change)
    requires IsDiff(from, to, changes) && c in changes
    ensures Calls(from, to, EditOf(c))
  {
    var k := KeyOf(c);
    var fvs, tvs := Group(from, k), Group(to, k);
    InDiff(from, to, changes, c);
    InArrivals(fvs, tvs, |tvs|, c);
    InDepartures(fvs, tvs, |fvs|, c);
    TextsOfGroup(from, k);
    TextsOfGroup(to, k);
    if i :| 0 <= i < |tvs| && ArrivalAt(fvs, tvs, i, c) {
      assert tvs[i] in tvs;
      if Single(fvs, tvs) { assert fvs[0] in fvs; }
    } else {
      var i :| 0 <= i < |fvs| && DepartureAt(fvs, tvs, i, c);
      assert fvs[i] in fvs;
    }
  }

  lemma CalledRemovalIsInDiff(from: seq<Value>, to: seq<Value>, changes: seq<Change>, e: Edit)
    requires IsDiff(from, to, changes) && Calls(from, to, e) && e.kind == Removed
    ensures e in Edits(changes)
  {
    var fvs, tvs := Group(from, e.key), Group(to, e.key);
    TextsOfGroup(from, e.key);
    TextsOfGroup(to, e.key);
    var i :| 0 <= i < |fvs| && fvs[i].text == e.before;
    assert fvs[i] in fvs;
    var c := ChangeOf(fvs[i], Removed, fvs[i].text, "");
    assert DepartureAt(fvs, tvs, i, c);
    InDepartures(fvs, tvs, |fvs|, c);
    InDiff(from, to, changes, c);
    assert EditOf(c) == e;
  }

  lemma CalledArrivalIsInDiff(from: seq<Value>, to: seq<Value>, changes: seq<Change>, e: Edit)
    requires IsDiff(from, to, changes) && Calls(from, to, e) && e.kind != Removed
    ensures e in Edits(changes)
  {
    var fvs, tvs := Group(from, e.key), Group(to, e.key);
    TextsOfGroup(from, e.key);
    TextsOfGroup(to, e.key);
    if Single(fvs, tvs) { SingleTexts(from, to, e.key); }
    var i :| 0 <= i < |tvs| && tvs[i].text == e.after;
    assert tvs[i] in tvs;
    var c := if Single(fvs, tvs) then ChangeOf(tvs[i], Changed, fvs[0].text, tvs[i].text) else ChangeOf(tvs[i], Added, "", tvs[i].text);
    assert ArrivalAt(fvs, tvs, i, c);
    InArrivals(fvs, tvs, |tvs|, c);
    InDiff(from, to, changes, c);
    assert EditOf(c) == e;
  }

  /** The report holds exactly the edits the two revisions call for. */
  lemma DiffIsExact(from: seq<Value>, to: seq<Value>, changes: seq<Change>, e: Edit)
    requires IsDiff(from, to, changes)
    ensures e in Edits(changes) <==> Calls(from, to, e)
  {
    if e in Edits(changes) {
      var c :| c in changes && EditOf(c) == e;
      DiffCallsEdit(from, to, changes, c);
    }
    if Calls(from, to, e) {
      if e.kind == Removed { CalledRemovalIsInDiff(from, to, changes, e); } else { CalledArrivalIsInDiff(from, to, changes, e); }
    }
  }

  // -------------------------------------------------------------- main results

  function Outgoing(changes: seq<Change>, k: Key): set<string> {
    set e | e in Edits(changes) && e.key == k && e.kind != Added :: e.before
  }

  function Incoming(changes: seq<Change>, k: Key): set<string> {
    set e | e in Edits(changes) && e.key == k && e.kind != Removed :: e.after
  }

  /** Applied as a patch, the report turns the first revision's values into the second's, at every key. */
  lemma DiffIsAPatch(from: seq<Value>, to: seq<Value>, changes: seq<Change>, k: Key)
    requires IsDiff(from, to, changes)
    ensures TextsAt(from, k) - Outgoing(changes, k) + Incoming(changes, k) == TextsAt(to, k)
  {
    var f, t := TextsAt(from, k), TextsAt(to, k);
    forall e ensures e in Edits(changes) <==> Calls(from, to, e) { DiffIsExact(from, to, changes, e); }
    forall x ensures x in Outgoing(changes, k) <==> x in f - t {
      if x in f - t { LosesText(from, to, changes, k, x); }
      if x in Outgoing(changes, k) { OutgoingIsLost(from, to, changes, k, x); }
    }
    forall x ensures x in Incoming(changes, k) <==> x in t - f {
      if x in t - f { GainsText(from, to, changes, k, x); }
      if x in Incoming(changes, k) { IncomingIsGained(from, to, changes, k, x); }
    }
  }

  /** With one value on each side, the sets are those values. */
  lemma SingleTexts(from: seq<Value>, to: seq<Value>, k: Key)
    requires Single(Group(from, k), Group(to, k))
    ensures TextsAt(from, k) == {Group(from, k)[0].text} && TextsAt(to, k) == {Group(to, k)[0].text}
  {
    TextsOfGroup(from, k);
    TextsOfGroup(to, k);
    assert Group(from, k) == [Group(from, k)[0]] && Group(to, k) == [Group(to, k)[0]];
  }

  lemma LosesText(from: seq<Value>, to: seq<Value>, changes: seq<Change>, k: Key, x: string)
    requires IsDiff(from, to, changes) && x in TextsAt(from, k) - TextsAt(to, k)
    ensures x in Outgoing(changes, k)
  {
    var e := Edit(k, Removed, x, "");
    if Single(Group(from, k), Group(to, k)) {
      SingleTexts(from, to, k);
      e := Edit(k, Changed, x, Group(to, k)[0].text);
    }
    DiffIsExact(from, to, changes, e);
  }

  lemma GainsText(from: seq<Value>, to: seq<Value>, changes: seq<Change>, k: Key, x: string)
    requires IsDiff(from, to, changes) && x in TextsAt(to, k) - TextsAt(from, k)
    ensures x in Incoming(changes, k)
  {
    var e := Edit(k, Added, "", x);
    if Single(Group(from, k), Group(to, k)) {
      SingleTexts(from, to, k);
      e := Edit(k, Changed, Group(from, k)[0].text, x);
    }
    DiffIsExact(from, to, changes, e);
  }

  lemma OutgoingIsLost(from: seq<Value>, to: seq<Value>, changes: seq<Change>, k: Key, x: string)
    requires IsDiff(from, to, changes) && x in Outgoing(changes, k)
    ensures x in TextsAt(from, k) - TextsAt(to, k)
  {
    var e :| e in Edits(changes) && e.key == k && e.kind != Added && e.before == x;
    DiffIsExact(from, to, changes, e);
    if Single(Group(from, k), Group(to, k)) { SingleTexts(from, to, k); }
  }

  lemma IncomingIsGained(from: seq<Value>, to: seq<Value>, changes: seq<Change>, k: Key, x: string)
    requires IsDiff(from, to, changes) && x in Incoming(changes, k)
    ensures x in TextsAt(to, k) - TextsAt(from, k)
  {
    var e :| e in Edits(changes) && e.key == k && e.kind != Removed && e.after == x;
    DiffIsExact(from, to, changes, e);
    if Single(Group(from, k), Group(to, k)) { SingleTexts(from, to, k); }
  }

  /** The report is empty exactly when the revisions hold the same values at every key. */
  lemma DiffIsEmptyIffSame(from: seq<Value>, to: seq<Value>, changes: seq<Change>)
    requires IsDiff(from, to, changes)
    ensures changes == [] <==> forall k :: TextsAt(from, k) == TextsAt(to, k)
  {
    if changes == [] {
      forall k ensures TextsAt(from, k) == TextsAt(to, k) { DiffIsAPatch(from, to, changes, k); }
    } else {
      var c := changes[0];
      DiffCallsEdit(from, to, changes, c);
      if Single(Group(from, KeyOf(c)), Group(to, KeyOf(c))) { SingleTexts(from, to, KeyOf(c)); }
      assert TextsAt(from, KeyOf(c)) != TextsAt(to, KeyOf(c));
    }
  }

  // ------------------------------------------------------- the same, by fields

  ghost predicate IsAt(v: Value, a: string, l: string, c: string) {
    v.attribute == a && v.locale == l && v.channel == c
  }

  /** The texts a revision holds of an attribute at a locale and a channel. */
  ghost function TextsIn(vs: seq<Value>, a: string, l: string, c: string): set<string> {
    set v | v in vs && v.attribute == a && v.locale == l && v.channel == c :: v.text
  }

  /** What the changes of an attribute at a locale and a channel take out... */
  ghost function TakenOut(changes: seq<Change>, a: string, l: string, c: string): set<string> {
    set x | x in changes && x.attribute == a && x.locale == l && x.channel == c && x.kind != Added :: x.before
  }

  /** ...and put in. */
  ghost function PutIn(changes: seq<Change>, a: string, l: string, c: string): set<string> {
    set x | x in changes && x.attribute == a && x.locale == l && x.channel == c && x.kind != Removed :: x.after
  }

  /** The i-th value is of the attribute, locale and channel, and it is the only one. */
  ghost predicate OnlyAt(vs: seq<Value>, i: nat, a: string, l: string, c: string) {
    i < |vs| && IsAt(vs[i], a, l, c) && forall j :: 0 <= j < |vs| && j != i ==> !IsAt(vs[j], a, l, c)
  }

  /** Exactly one value of the revision is of this attribute at this locale and channel. */
  ghost predicate HoldsOne(vs: seq<Value>, a: string, l: string, c: string) {
    exists i: nat :: OnlyAt(vs, i, a, l, c)
  }

  /** A value of the change's own attribute, locale and channel, under the name the change shows. */
  ghost predicate IsNamedIn(vs: seq<Value>, x: Change, text: string) {
    exists v :: v in vs && IsAt(v, x.attribute, x.locale, x.channel) && v.internalName == x.internalName && v.text == text
  }

  /** The two revisions call for the change: where each holds exactly one value, a replacement named by the
      newer; otherwise what came, named by the newer, and what went, named by the older. */
  ghost predicate IsCalledFor(from: seq<Value>, to: seq<Value>, x: Change) {
    var f, t := TextsIn(from, x.attribute, x.locale, x.channel), TextsIn(to, x.attribute, x.locale, x.channel);
    if HoldsOne(from, x.attribute, x.locale, x.channel) && HoldsOne(to, x.attribute, x.locale, x.channel) then
      x.kind == Changed && x.before in f && x.before != x.after && IsNamedIn(to, x, x.after)
    else
      || (x.kind == Added && x.before == "" && x.after !in f && IsNamedIn(to, x, x.after))
      || (x.kind == Removed && x.after == "" && x.before !in t && IsNamedIn(from, x, x.before))
  }

  /** By internal name, then locale, then channel, then attribute id. */
  ghost predicate NotAfter(x: Change, y: Change) {
    || StrLess(x.internalName, y.internalName)
    || (x.internalName == y.internalName &&
        (StrLess(x.locale, y.locale) ||
         (x.locale == y.locale && (StrLess(x.channel, y.channel) || (x.channel == y.channel && !StrLess(y.attribute, x.attribute))))))
  }

  ghost predicate InReportOrder(changes: seq<Change>) {
    forall i, j :: 0 <= i < j < |changes| ==> NotAfter(changes[i], changes[j])
  }

  lemma TextsInIsTextsAt(vs: seq<Value>, a: string, l: string, c: string)
    ensures TextsIn(vs, a, l, c) == TextsAt(vs, Key(a, l, c))
    ensures forall v :: v in Group(vs, Key(a, l, c)) <==> v in vs && IsAt(v, a, l, c)
  {
  }

  ghost predicate HoldsNone(vs: seq<Value>, a: string, l: string, c: string) {
    forall i :: 0 <= i < |vs| ==> !IsAt(vs[i], a, l, c)
  }

  lemma GroupSnoc(vs: seq<Value>, a: string, l: string, c: string)
    requires |vs| != 0
    ensures |Group(vs, Key(a, l, c))| == |Group(vs[..|vs| - 1], Key(a, l, c))| + if IsAt(vs[|vs| - 1], a, l, c) then 1 else 0
  {
  }

  lemma SnocThere(vs: seq<Value>, a: string, l: string, c: string)
    requires |vs| != 0 && IsAt(vs[|vs| - 1], a, l, c)
    ensures !HoldsNone(vs, a, l, c) && (HoldsOne(vs, a, l, c) <==> HoldsNone(vs[..|vs| - 1], a, l, c))
  {
    var n := |vs| - 1;
    if HoldsNone(vs[..n], a, l, c) {
      forall j | 0 <= j < n ensures !IsAt(vs[j], a, l, c) { assert vs[..n][j] == vs[j]; }
      assert OnlyAt(vs, n, a, l, c);
    }
    if HoldsOne(vs, a, l, c) {
      assert OnlyAt(vs, n, a, l, c);
    }
  }

  lemma SnocElsewhere(vs: seq<Value>, a: string, l: string, c: string)
    requires |vs| != 0 && !IsAt(vs[|vs| - 1], a, l, c)
    ensures HoldsNone(vs, a, l, c) <==> HoldsNone(vs[..|vs| - 1], a, l, c)
    ensures HoldsOne(vs, a, l, c) <==> HoldsOne(vs[..|vs| - 1], a, l, c)
  {
    var n := |vs| - 1;
    if HoldsNone(vs[..n], a, l, c) {
      forall j | 0 <= j < n ensures !IsAt(vs[j], a, l, c) { assert vs[..n][j] == vs[j]; }
    }
    if i: nat :| OnlyAt(vs, i, a, l, c) { assert OnlyAt(vs[..n], i, a, l, c); }
    if i: nat :| OnlyAt(vs[..n], i, a, l, c) {
      forall j | 0 <= j < n && j != i ensures !IsAt(vs[j], a, l, c) { assert vs[..n][j] == vs[j]; }
      assert OnlyAt(vs, i, a, l, c);
    }
  }

  /** The size of a group, up to one. */
  lemma {:induction false} GroupSize(vs: seq<Value>, a: string, l: string, c: string)
    ensures |Group(vs, Key(a, l, c))| == 0 <==> HoldsNone(vs, a, l, c)
    ensures |Group(vs, Key(a, l, c))| == 1 <==> HoldsOne(vs, a, l, c)
  {
    if |vs| != 0 {
      GroupSize(vs[..|vs| - 1], a, l, c);
      GroupSnoc(vs, a, l, c);
      if IsAt(vs[|vs| - 1], a, l, c) { SnocThere(vs, a, l, c); } else { SnocElsewhere(vs, a, l, c); }
    }
  }

  lemma SingleIsOneEach(from: seq<Value>, to: seq<Value>, a: string, l: string, c: string)
    ensures Single(Group(from, Key(a, l, c)), Group(to, Key(a, l, c))) <==> HoldsOne(from, a, l, c) && HoldsOne(to, a, l, c)
  {
    GroupSize(from, a, l, c);
    GroupSize(to, a, l, c);
  }

  lemma ContainsIsTextsIn(vs: seq<Value>, a: string, l: string, c: string, text: string)
    ensures ContainsValue(Group(vs, Key(a, l, c)), text) <==> text in TextsIn(vs, a, l, c)
  {
    TextsInIsTextsAt(vs, a, l, c);
    TextsOfGroup(vs, Key(a, l, c));
  }

  /** A member of a group names the change made of it. */
  lemma MemberNames(vs: seq<Value>, x: Change, v: Value, kind: Kind, before: string, after: string)
    ensures v in Group(vs, Key(x.attribute, x.locale, x.channel)) && x == ChangeOf(v, kind, before, after) ==> IsNamedIn(vs, x, v.text)
  {
    TextsInIsTextsAt(vs, x.attribute, x.locale, x.channel);
  }

  lemma NamedMember(vs: seq<Value>, x: Change, text: string) returns (i: nat)
    requires IsNamedIn(vs, x, text)
    ensures var g := Group(vs, Key(x.attribute, x.locale, x.channel));
      i < |g| && g[i].text == text && x == ChangeOf(g[i], x.kind, x.before, x.after)
  {
    TextsInIsTextsAt(vs, x.attribute, x.locale, x.channel);
    var v :| v in vs && IsAt(v, x.attribute, x.locale, x.channel) && v.internalName == x.internalName && v.text == text;
    i :| 0 <= i < |Group(vs, Key(x.attribute, x.locale, x.channel))| && Group(vs, Key(x.attribute, x.locale, x.channel))[i] == v;
  }

  lemma ArrivalIsCalledFor(from: seq<Value>, to: seq<Value>, x: Change, i: nat)
    requires var k := Key(x.attribute, x.locale, x.channel); i < |Group(to, k)| && ArrivalAt(Group(from, k), Group(to, k), i, x)
    ensures IsCalledFor(from, to, x)
  {
    var k := Key(x.attribute, x.locale, x.channel);
    var fvs, tvs := Group(from, k), Group(to, k);
    SingleIsOneEach(from, to, x.attribute, x.locale, x.channel);
    ContainsIsTextsIn(from, x.attribute, x.locale, x.channel, x.after);
    assert tvs[i] in tvs;
    MemberNames(to, x, tvs[i], x.kind, x.before, x.after);
    if Single(fvs, tvs) {
      assert fvs[0] in fvs && ContainsValue(fvs, fvs[0].text);
      ContainsIsTextsIn(from, x.attribute, x.locale, x.channel, x.before);
    }
  }

  lemma DepartureIsCalledFor(from: seq<Value>, to: seq<Value>, x: Change, i: nat)
    requires var k := Key(x.attribute, x.locale, x.channel); i < |Group(from, k)| && DepartureAt(Group(from, k), Group(to, k), i, x)
    ensures IsCalledFor(from, to, x)
  {
    var fvs := Group(from, Key(x.attribute, x.locale, x.channel));
    SingleIsOneEach(from, to, x.attribute, x.locale, x.channel);
    ContainsIsTextsIn(to, x.attribute, x.locale, x.channel, x.before);
    assert fvs[i] in fvs;
    MemberNames(from, x, fvs[i], x.kind, x.before, x.after);
  }

  lemma ChangeIsCalledFor(from: seq<Value>, to: seq<Value>, changes: seq<Change>, x: Change)
    requires IsDiff(from, to, changes) && x in changes
    ensures IsCalledFor(from, to, x)
  {
    var k := Key(x.attribute, x.locale, x.channel);
    var fvs, tvs := Group(from, k), Group(to, k);
    InDiff(from, to, changes, x);
    InArrivals(fvs, tvs, |tvs|, x);
    InDepartures(fvs, tvs, |fvs|, x);
    if i :| 0 <= i < |tvs| && ArrivalAt(fvs, tvs, i, x) {
      ArrivalIsCalledFor(from, to, x, i);
    } else {
      var i :| 0 <= i < |fvs| && DepartureAt(fvs, tvs, i, x);
      DepartureIsCalledFor(from, to, x, i);
    }
  }

  lemma CalledForIsArrival(from: seq<Value>, to: seq<Value>, x: Change) returns (i: nat)
    requires IsCalledFor(from, to, x) && x.kind != Removed
    ensures var k := Key(x.attribute, x.locale, x.channel); i < |Group(to, k)| && ArrivalAt(Group(from, k), Group(to, k), i, x)
  {
    var k := Key(x.attribute, x.locale, x.channel);
    SingleIsOneEach(from, to, x.attribute, x.locale, x.channel);
    ContainsIsTextsIn(from, x.attribute, x.locale, x.channel, x.after);
    i := NamedMember(to, x, x.after);
    if Single(Group(from, k), Group(to, k)) { OneText(from, x.attribute, x.locale, x.channel, x.before, x.after); }
  }

  /** Of a single value there is one text. */
  lemma OneText(vs: seq<Value>, a: string, l: string, c: string, held: string, other: string)
    requires |Group(vs, Key(a, l, c))| == 1 && held in TextsIn(vs, a, l, c)
    ensures Group(vs, Key(a, l, c))[0].text == held && (other != held ==> other !in TextsIn(vs, a, l, c))
  {
    var g := Group(vs, Key(a, l, c));
    assert g == [g[0]];
    ContainsIsTextsIn(vs, a, l, c, held);
    ContainsIsTextsIn(vs, a, l, c, other);
  }

  lemma CalledForIsDeparture(from: seq<Value>, to: seq<Value>, x: Change) returns (i: nat)
    requires IsCalledFor(from, to, x) && x.kind == Removed
    ensures var k := Key(x.attribute, x.locale, x.channel); i < |Group(from, k)| && DepartureAt(Group(from, k), Group(to, k), i, x)
  {
    SingleIsOneEach(from, to, x.attribute, x.locale, x.channel);
    ContainsIsTextsIn(to, x.attribute, x.locale, x.channel, x.before);
    i := NamedMember(from, x, x.before);
  }

  lemma CalledForIsInDiff(from: seq<Value>, to: seq<Value>, changes: seq<Change>, x: Change)
    requires IsDiff(from, to, changes) && IsCalledFor(from, to, x)
    ensures x in changes
  {
    var k := Key(x.attribute, x.locale, x.channel);
    var fvs, tvs := Group(from, k), Group(to, k);
    InDiff(from, to, changes, x);
    InArrivals(fvs, tvs, |tvs|, x);
    InDepartures(fvs, tvs, |fvs|, x);
    if x.kind == Removed {
      var i := CalledForIsDeparture(from, to, x);
    } else {
      var i := CalledForIsArrival(from, to, x);
    }
  }

  lemma DiffIsAPatchByFields(from: seq<Value>, to: seq<Value>, changes: seq<Change>, a: string, l: string, c: string)
    requires IsDiff(from, to, changes)
    ensures TextsIn(from, a, l, c) - TakenOut(changes, a, l, c) + PutIn(changes, a, l, c) == TextsIn(to, a, l, c)
  {
    var k := Key(a, l, c);
    TextsInIsTextsAt(from, a, l, c);
    TextsInIsTextsAt(to, a, l, c);
    DiffIsAPatch(from, to, changes, k);
    forall x ensures x in TakenOut(changes, a, l, c) <==> x in Outgoing(changes, k) {
      if x in TakenOut(changes, a, l, c) {
        var y :| y in changes && y.attribute == a && y.locale == l && y.channel == c && y.kind != Added && y.before == x;
        assert EditOf(y) in Edits(changes);
      }
    }
    forall x ensures x in PutIn(changes, a, l, c) <==> x in Incoming(changes, k) {
      if x in PutIn(changes, a, l, c) {
        var y :| y in changes && y.attribute == a && y.locale == l && y.channel == c && y.kind != Removed && y.after == x;
        assert EditOf(y) in Edits(changes);
      }
    }
  }

  lemma DiffIsEmptyIffSameByFields(from: seq<Value>, to: seq<Value>, changes: seq<Change>)
    requires IsDiff(from, to, changes)
    ensures changes == [] <==> forall a, l, c :: TextsIn(from, a, l, c) == TextsIn(to, a, l, c)
  {
    if changes == [] {
      forall a, l, c ensures TextsIn(from, a, l, c) == TextsIn(to, a, l, c) { DiffIsAPatchByFields(from, to, changes, a, l, c); }
    } else {
      var x := changes[0];
      ChangeIsCalledFor(from, to, changes, x);
      DiffCallsEdit(from, to, changes, x);
      TextsInIsTextsAt(from, x.attribute, x.locale, x.channel);
      TextsInIsTextsAt(to, x.attribute, x.locale, x.channel);
      if Single(Group(from, KeyOf(x)), Group(to, KeyOf(x))) { SingleTexts(from, to, KeyOf(x)); }
    }
  }

  lemma SortedIsInReportOrder(changes: seq<Change>)
    requires Sorted(changes, ReportLeq)
    ensures InReportOrder(changes)
  {
    forall i, j | 0 <= i < j < |changes| ensures NotAfter(changes[i], changes[j]) {
      StrLessTrichotomy(changes[i].internalName, changes[j].internalName);
      StrLessTrichotomy(changes[i].locale, changes[j].locale);
      StrLessTrichotomy(changes[i].channel, changes[j].channel);
    }
  }

  /** Both groupings are walked in whatever order their maps yield keys.  The report is sorted, holds exactly
      the changes the two revisions call for, and turns the first into the second. */
  method Diff(from: seq<Value>, to: seq<Value>) returns (changes: seq<Change>)
    ensures IsDiff(from, to, changes) && InReportOrder(changes)
    ensures forall x :: x in changes <==> IsCalledFor(from, to, x)
    ensures forall a, l, c :: TextsIn(from, a, l, c) - TakenOut(changes, a, l, c) + PutIn(changes, a, l, c) == TextsIn(to, a, l, c)
    ensures changes == [] <==> forall a, l, c :: TextsIn(from, a, l, c) == TextsIn(to, a, l, c)
  {
    var fromByScope := GroupByScope(from);
    var toByScope := GroupByScope(to);
    var arrived := WalkArrivals(from, to, fromByScope, toByScope);
    var out := WalkDepartures(from, to, fromByScope, toByScope, arrived);
    changes := StableSort(out, ReportLeq);
    SortedWalksAreTheDiff(from, to, fromByScope.Keys, toByScope.Keys, arrived, out);
    SortedIsInReportOrder(changes);
    forall x ensures x in changes <==> IsCalledFor(from, to, x) {
      if x in changes { ChangeIsCalledFor(from, to, changes, x); }
      if IsCalledFor(from, to, x) { CalledForIsInDiff(from, to, changes, x); }
    }
    forall a, l, c ensures TextsIn(from, a, l, c) - TakenOut(changes, a, l, c) + PutIn(changes, a, l, c) == TextsIn(to, a, l, c) {
      DiffIsAPatchByFields(from, to, changes, a, l, c);
    }
    DiffIsEmptyIffSameByFields(from, to, changes);
  }

  function Mirrored(e: Edit): Edit {
    Edit(e.key, if e.kind == Added then Removed else if e.kind == Removed then Added else Changed, e.after, e.before)
  }

  /** An addition seen from the other side: the removal of the same value, under the same name. */
  function MirroredChange(c: Change): Change {
    Change(c.attribute, c.internalName, c.locale, c.channel, if c.kind == Added then Removed else Added, c.after, c.before)
  }

  /** Swapping the revisions turns every addition into a removal and every removal into an addition, the
      display name included. A change keeps its scope; each report names it as its own newer side does. */
  lemma AdditionsAndRemovalsMirror(from: seq<Value>, to: seq<Value>, there: seq<Change>, back: seq<Change>, c: Change)
    requires IsDiff(from, to, there) && IsDiff(to, from, back) && c.kind != Changed
    ensures c in there ==> MirroredChange(c) in back
  {
    var k, d := KeyOf(c), MirroredChange(c);
    var fvs, tvs := Group(from, k), Group(to, k);
    InDiff(from, to, there, c);
    InDiff(to, from, back, d);
    InArrivals(fvs, tvs, |tvs|, c);
    InDepartures(fvs, tvs, |fvs|, c);
    InArrivals(tvs, fvs, |fvs|, d);
    InDepartures(tvs, fvs, |tvs|, d);
    if c in there {
      if c.kind == Added {
        var i :| 0 <= i < |tvs| && ArrivalAt(fvs, tvs, i, c);
        assert DepartureAt(tvs, fvs, i, d);
      } else {
        var i :| 0 <= i < |fvs| && DepartureAt(fvs, tvs, i, c);
        assert ArrivalAt(tvs, fvs, i, d);
      }
    }
  }

  /** Swapping the revisions mirrors the report. */
  lemma DiffMirrors(from: seq<Value>, to: seq<Value>, there: seq<Change>, back: seq<Change>, e: Edit)
    requires IsDiff(from, to, there) && IsDiff(to, from, back)
    ensures e in Edits(there) <==> Mirrored(e) in Edits(back)
  {
    DiffIsExact(from, to, there, e);
    DiffIsExact(to, from, back, Mirrored(e));
  }
}
