/**
  Links between entities under one relationship definition, and their cardinality bounds.

  A link create reads the live link of its pair and the counts of both endpoints, then
  writes.  Creates serialise on the definition's row lock; unlinks take no such lock and may
  commit between any two reads.
 */
module Cardinality {
  import opened Ordering
  import opened Options

  datatype Definition = Definition(symmetric: bool, sameTypes: bool, maxChildren: Option<nat>, maxParents: Option<nat>,
                                   archived: bool, parentPinned: bool, childPinned: bool)

  datatype Row = Row(parent: string, child: string, live: bool)

  type Links = map<nat, Row>

  datatype Refusal =
    | AlreadyLinked
    | MaxLinks(entity: string) | MaxChildren(entity: string) | MaxParents(entity: string)
    | Archived | SelfLink | BadPin(side: string)

  // -------------------------------------------------------------------- counts

  function AsParent(links: Links, e: string): set<nat> {
    set id | id in links && links[id].live && links[id].parent == e
  }

  function AsChild(links: Links, e: string): set<nat> {
    set id | id in links && links[id].live && links[id].child == e
  }

  datatype Counts = Counts(asParent: nat, asChild: nat)

  function CountLiveLinks(links: Links, e: string): Counts {
    Counts(|AsParent(links, e)|, |AsChild(links, e)|)
  }

  predicate Linked(links: Links, parent: string, child: string) {
    exists id :: id in links && links[id] == Row(parent, child, true)
  }

  /** A symmetric pair is stored smaller id first, whichever way it is given. */
  function Canonical(def: Definition, parent: string, child: string): (string, string) {
    if def.symmetric && StrLess(child, parent) then (child, parent) else (parent, child)
  }

  /** The bounds, checked on counts read before the write. */
  function EnforceCardinality(def: Definition, parent: string, child: string, p: Counts, c: Counts): Option<Refusal> {
    if def.symmetric then
      if def.maxChildren.None? then None
      else if p.asParent + p.asChild >= def.maxChildren.value then Some(MaxLinks(parent))
      else if c.asParent + c.asChild >= def.maxChildren.value then Some(MaxLinks(child))
      else None
    else if def.maxChildren.Some? && p.asParent >= def.maxChildren.value then Some(MaxChildren(parent))
    else if def.maxParents.Some? && c.asChild >= def.maxParents.value then Some(MaxParents(child))
    else None
  }

  /** A pinned side names a version of at least one; any other side names none. */
  predicate PinFits(pinned: bool, pin: Option<int>) {
    if pinned then pin.Some? && pin.value >= 1 else pin.None?
  }

  /** What the link itself refuses, once the counts allow it. */
  function DomainRefusal(def: Definition, parent: string, child: string, parentPin: Option<int>, childPin: Option<int>): Option<Refusal> {
    if def.archived then Some(Archived)
    else if parent == child && def.sameTypes then Some(SelfLink)
    else if !PinFits(def.parentPinned, parentPin) then Some(BadPin("parent"))
    else if !PinFits(def.childPinned, childPin) then Some(BadPin("child"))
    else None
  }

  // ------------------------------------------------------------ what is promised

  ghost predicate WithinBoundsAt(def: Definition, links: Links, e: string) {
    if def.symmetric then
      def.maxChildren.Some? ==> |AsParent(links, e)| + |AsChild(links, e)| <= def.maxChildren.value
    else
      && (def.maxChildren.Some? ==> |AsParent(links, e)| <= def.maxChildren.value)
      && (def.maxParents.Some? ==> |AsChild(links, e)| <= def.maxParents.value)
  }

  ghost predicate WithinBounds(def: Definition, links: Links) {
    forall e :: WithinBoundsAt(def, links, e)
  }

  ghost predicate OnePerPair(def: Definition, links: Links) {
    && (forall i, j :: i in links && j in links && links[i].live && links[j].live && i != j ==>
          links[i].parent != links[j].parent || links[i].child != links[j].child)
    && (def.symmetric ==> forall i :: i in links && links[i].live ==> StrLeq(links[i].parent, links[i].child))
  }

  /** A live link between two entities, in the given direction or, when the definition is symmetric, either. */
  ghost predicate Joins(def: Definition, row: Row, parent: string, child: string) {
    row.live && ((row.parent == parent && row.child == child) || (def.symmetric && row.parent == child && row.child == parent))
  }

  /** Looking up the canonical pair finds every link between the two, whichever way round they are given. */
  lemma CanonicalLookupFindsThePair(def: Definition, links: Links, parent: string, child: string)
    requires OnePerPair(def, links)
    ensures var (p, c) := Canonical(def, parent, child);
      Linked(links, p, c) <==> exists id :: id in links && Joins(def, links[id], parent, child)
  {
    StrLessTrichotomy(parent, child);
    var (p, c) := Canonical(def, parent, child);
    if id :| id in links && Joins(def, links[id], parent, child) {
      assert links[id] == Row(p, c, true);
    }
  }

  /** At most one live link per pair - per unordered pair when the definition is symmetric. */
  lemma OnePerUnorderedPair(def: Definition, links: Links, i: nat, j: nat)
    requires OnePerPair(def, links) && def.symmetric && i in links && j in links && links[i].live && links[j].live
    requires {links[i].parent, links[i].child} == {links[j].parent, links[j].child}
    ensures i == j
  {
    assert links[i].parent in {links[j].parent, links[j].child} && links[i].child in {links[j].parent, links[j].child};
    assert links[j].parent in {links[i].parent, links[i].child} && links[j].child in {links[i].parent, links[i].child};
    StrLessTrichotomy(links[i].parent, links[i].child);
  }

  lemma AsParentAfterLink(links: Links, id: nat, row: Row, e: string)
    requires id !in links && row.live
    ensures |AsParent(links[id := row], e)| == |AsParent(links, e)| + (if e == row.parent then 1 else 0)
  {
    var before, after := AsParent(links, e), AsParent(links[id := row], e);
    if e == row.parent { assert after == before + {id}; } else { assert after == before; }
  }

  lemma AsChildAfterLink(links: Links, id: nat, row: Row, e: string)
    requires id !in links && row.live
    ensures |AsChild(links[id := row], e)| == |AsChild(links, e)| + (if e == row.child then 1 else 0)
  {
    var before, after := AsChild(links, e), AsChild(links[id := row], e);
    if e == row.child { assert after == before + {id}; } else { assert after == before; }
  }

  lemma CountsAfterUnlink(links: Links, id: nat, e: string)
    requires id in links
    ensures var after := links[id := links[id].(live := false)];
      |AsParent(after, e)| <= |AsParent(links, e)| && |AsChild(after, e)| <= |AsChild(links, e)|
  {
    var after := links[id := links[id].(live := false)];
    assert AsParent(after, e) == AsParent(links, e) - {id} && AsChild(after, e) == AsChild(links, e) - {id};
  }

  /** Archiving a link takes no entity over a bound. */
  lemma UnlinkKeepsBoundsAt(def: Definition, links: Links, id: nat, e: string)
    requires id in links && WithinBoundsAt(def, links, e)
    ensures WithinBoundsAt(def, links[id := links[id].(live := false)], e)
  {
    CountsAfterUnlink(links, id, e);
  }

  lemma UnlinkKeepsBounds(def: Definition, links: Links, id: nat)
    requires id in links && OnePerPair(def, links)
    ensures var after := links[id := links[id].(live := false)];
      OnePerPair(def, after) && forall e :: WithinBoundsAt(def, links, e) ==> WithinBoundsAt(def, after, e)
  {
    forall e | WithinBoundsAt(def, links, e) ensures WithinBoundsAt(def, links[id := links[id].(live := false)], e) {
      UnlinkKeepsBoundsAt(def, links, id, e);
    }
  }

  /** A self-link raises a symmetric total by two where the check allowed for one. */
  predicate Overshoots(def: Definition, links: Links, parent: string, child: string) {
    def.symmetric && parent == child && def.maxChildren.Some? &&
    CountLiveLinks(links, parent).asParent + CountLiveLinks(links, parent).asChild + 2 > def.maxChildren.value
  }

  /** A create that passed the check on current counts leaves each entity within its bounds exactly if it was,
      unless it overshoots at that entity - whatever links are already past a bound. */
  lemma CheckedLinkKeepsBoundsIff(def: Definition, links: Links, id: nat, parent: string, child: string, e: string)
    requires id !in links
    requires EnforceCardinality(def, parent, child, CountLiveLinks(links, parent), CountLiveLinks(links, child)).None?
    ensures WithinBoundsAt(def, links[id := Row(parent, child, true)], e) <==>
      WithinBoundsAt(def, links, e) && !(e == parent && Overshoots(def, links, parent, child))
  {
    AsParentAfterLink(links, id, Row(parent, child, true), e);
    AsChildAfterLink(links, id, Row(parent, child, true), e);
  }

  /** At a bound of one, a first link of an entity to itself passes the check and overshoots. */
  lemma SelfLinkOvershoots()
    ensures var def := Definition(true, false, Some(1), None, false, false, false);
      && EnforceCardinality(def, "e", "e", CountLiveLinks(map[], "e"), CountLiveLinks(map[], "e")).None?
      && WithinBounds(def, map[]) && !WithinBounds(def, map[0 := Row("e", "e", true)])
  {
    var def := Definition(true, false, Some(1), None, false, false, false);
    var none: Links := map[];
    assert forall e :: AsParent(none, e) == {} && AsChild(none, e) == {};
    CheckedLinkKeepsBoundsIff(def, none, 0, "e", "e", "e");
    assert WithinBoundsAt(def, none, "e");
    assert none[0 := Row("e", "e", true)] == map[0 := Row("e", "e", true)];
  }

  // ------------------------------------------------ the checks, said of the links

  /** The live links an entity has as parent, and as child. */
  ghost function LinksAsParent(links: Links, e: string): nat {
    |set id | id in links && links[id].live && links[id].parent == e|
  }

  ghost function LinksAsChild(links: Links, e: string): nat {
    |set id | id in links && links[id].live && links[id].child == e|
  }

  /** Neither endpoint has reached a bound the new link would count against. */
  ghost predicate HasRoom(def: Definition, links: Links, parent: string, child: string) {
    if def.symmetric then
      def.maxChildren.Some? ==> forall e :: e == parent || e == child ==> LinksAsParent(links, e) + LinksAsChild(links, e) < def.maxChildren.value
    else
      && (def.maxChildren.Some? ==> LinksAsParent(links, parent) < def.maxChildren.value)
      && (def.maxParents.Some? ==> LinksAsChild(links, child) < def.maxParents.value)
  }

  /** A link is let through when the two are not linked yet, there is room, the definition is live, the two are
      different where it relates a type to itself, and each pinned side, and no other, names a version. */
  ghost predicate MayLink(def: Definition, links: Links, parent: string, child: string, parentPin: Option<int>, childPin: Option<int>) {
    && (forall id :: id in links ==> !Joins(def, links[id], parent, child))
    && HasRoom(def, links, parent, child) && !def.archived && (def.sameTypes ==> parent != child)
    && (if def.parentPinned then parentPin.Some? && parentPin.value >= 1 else parentPin.None?)
    && (if def.childPinned then childPin.Some? && childPin.value >= 1 else childPin.None?)
  }

  /** The check refuses exactly for want of room, and names an endpoint that has none. */
  lemma RefusedExactlyForWantOfRoom(def: Definition, links: Links, parent: string, child: string)
    ensures var v := EnforceCardinality(def, parent, child, CountLiveLinks(links, parent), CountLiveLinks(links, child));
      && (v.None? <==> HasRoom(def, links, parent, child))
      && (v.Some? ==>
            match v.value
            case MaxLinks(e) => def.symmetric && e in {parent, child} && LinksAsParent(links, e) + LinksAsChild(links, e) >= def.maxChildren.value
            case MaxChildren(e) => !def.symmetric && e == parent && LinksAsParent(links, e) >= def.maxChildren.value
            case MaxParents(e) => !def.symmetric && e == child && LinksAsChild(links, e) >= def.maxParents.value
            case _ => false)
  {
    forall e ensures LinksAsParent(links, e) == CountLiveLinks(links, e).asParent && LinksAsChild(links, e) == CountLiveLinks(links, e).asChild {
      assert AsParent(links, e) == set id | id in links && links[id].live && links[id].parent == e;
      assert AsChild(links, e) == set id | id in links && links[id].live && links[id].child == e;
    }
  }

  /** With different endpoints, or a direction, there is room exactly when the link would leave both within
      their bounds on what it counts against. */
  lemma RoomIsStayingWithin(def: Definition, links: Links, id: nat, parent: string, child: string)
    requires id !in links && (parent != child || !def.symmetric)
    requires WithinBoundsAt(def, links, parent) && WithinBoundsAt(def, links, child)
    ensures HasRoom(def, links, parent, child) <==>
      var after := links[id := Row(parent, child, true)]; WithinBoundsAt(def, after, parent) && WithinBoundsAt(def, after, child)
  {
    RefusedExactlyForWantOfRoom(def, links, parent, child);
    AsParentAfterLink(links, id, Row(parent, child, true), parent);
    AsChildAfterLink(links, id, Row(parent, child, true), parent);
    AsParentAfterLink(links, id, Row(parent, child, true), child);
    AsChildAfterLink(links, id, Row(parent, child, true), child);
  }

  lemma MayLinkExactly(def: Definition, links: Links, parentIn: string, childIn: string, parentPin: Option<int>, childPin: Option<int>)
    requires OnePerPair(def, links)
    ensures var (parent, child) := Canonical(def, parentIn, childIn);
      MayLink(def, links, parentIn, childIn, parentPin, childPin) <==>
        && !Linked(links, parent, child)
        && EnforceCardinality(def, parent, child, CountLiveLinks(links, parent), CountLiveLinks(links, child)).None?
        && DomainRefusal(def, parent, child, parentPin, childPin).None?
  {
    var (parent, child) := Canonical(def, parentIn, childIn);
    CanonicalLookupFindsThePair(def, links, parentIn, childIn);
    RefusedExactlyForWantOfRoom(def, links, parent, child);
  }

  // ------------------------------------------------------------------ usecases

  class Relationships {
    const def: Definition
    var links: Links
    var nextId: nat

    ghost predicate Consistent()
      reads this
    {
      (forall id :: id in links ==> id < nextId) && OnePerPair(def, links)
    }

    constructor (def: Definition)
      ensures Consistent() && WithinBounds(def, links) && this.def == def && links == map[]
    {
      this.def := def;
      links := map[];
      nextId := 0;
      new;
      assert forall e :: AsParent(links, e) == {} && AsChild(links, e) == {};
    }

    method FindLive(parent: string, child: string) returns (found: bool)
      ensures found <==> Linked(links, parent, child)
    {
      found := exists id | id in links :: links[id] == Row(parent, child, true);
    }

    /** Creates a live link, or refuses and changes nothing.  Whoever was within its bounds stays so, except that
        an accepted self-link under a symmetric definition over two types may overshoot by one. */
    method Link(parentIn: string, childIn: string, parentPin: Option<int>, childPin: Option<int>) returns (refused: Option<Refusal>)
      requires Consistent()
      modifies this
      ensures Consistent()
      ensures var (parent, child) := Canonical(def, parentIn, childIn);
        forall e :: WithinBoundsAt(def, links, e) <==>
          WithinBoundsAt(def, old(links), e) && !(refused.None? && e == parent && Overshoots(def, old(links), parent, child))
      ensures var (parent, child) := Canonical(def, parentIn, childIn);
        var p, c := CountLiveLinks(old(links), parent), CountLiveLinks(old(links), child);
        && (refused == if Linked(old(links), parent, child) then Some(AlreadyLinked)
                       else if EnforceCardinality(def, parent, child, p, c).Some? then EnforceCardinality(def, parent, child, p, c)
                       else DomainRefusal(def, parent, child, parentPin, childPin))
        && links == if refused.Some? then old(links) else old(links)[old(nextId) := Row(parent, child, true)]
      ensures refused.None? <==> MayLink(def, old(links), parentIn, childIn, parentPin, childPin)
      ensures refused.None? ==> old(nextId) in links && Joins(def, links[old(nextId)], parentIn, childIn)
      ensures refused.None? && def.symmetric ==> !StrLess(links[old(nextId)].child, links[old(nextId)].parent)
    {
      var (parent, child) := Canonical(def, parentIn, childIn);
      StrLessTrichotomy(parentIn, childIn);
      MayLinkExactly(def, links, parentIn, childIn, parentPin, childPin);
      var found := FindLive(parent, child);
      if found { return Some(AlreadyLinked); }
      refused := EnforceCardinality(def, parent, child, CountLiveLinks(links, parent), CountLiveLinks(links, child));
      if refused.Some? { return; }
      refused := DomainRefusal(def, parent, child, parentPin, childPin);
      if refused.Some? { return; }
      forall e ensures WithinBoundsAt(def, links[nextId := Row(parent, child, true)], e) <==>
        WithinBoundsAt(def, links, e) && !(e == parent && Overshoots(def, links, parent, child))
      {
        CheckedLinkKeepsBoundsIff(def, links, nextId, parent, child, e);
      }
      links := links[nextId := Row(parent, child, true)];
      nextId := nextId + 1;
    }

    /** Archives a live link. */
    method Unlink(id: nat) returns (ok: bool)
      requires Consistent()
      modifies this`links
      ensures Consistent() && ok == (id in old(links) && old(links)[id].live)
      ensures forall e :: WithinBoundsAt(def, old(links), e) ==> WithinBoundsAt(def, links, e)
      ensures links == if ok then old(links)[id := old(links)[id].(live := false)] else old(links)
    {
      if id !in links || !links[id].live { return false; }
      UnlinkKeepsBounds(def, links, id);
      links := links[id := links[id].(live := false)];
      return true;
    }
  }
}
