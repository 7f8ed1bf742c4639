/**
  The GraphQL schema cache of one replica: a version memo per tenant, and built schemas
  in a recency list plus a map from key to list element.
 */
module SchemaCache {
  import opened Options
  import opened Sequences

  datatype Key = Key(tenant: string, access: string)

  datatype Entry<S> = Entry(key: Key, gen: nat, schema: S)

  datatype Memo = Memo(version: nat, fetchedAt: int)

  // ------------------------------------------------------------ abstract LRU

  /** An LRU is a list of entries, most recently touched first. */
  type Lru<S> = seq<Entry<S>>

  function KeysOf<S>(es: Lru<S>): (ks: seq<Key>)
    ensures |ks| == |es| && forall i :: 0 <= i < |es| ==> ks[i] == es[i].key
  {
    seq(|es|, i requires 0 <= i < |es| => es[i].key)
  }

  function Drop<S>(es: Lru<S>, key: Key): Lru<S> {
    if |es| == 0 then []
    else (if es[0].key == key then [] else [es[0]]) + Drop(es[1..], key)
  }

  function Find<S>(es: Lru<S>, key: Key): Option<Entry<S>> {
    if |es| == 0 then None
    else if es[0].key == key then Some(es[0])
    else Find(es[1..], key)
  }

  /** A get: a hit moves its entry to the front. */
  function Touch<S>(es: Lru<S>, key: Key): Lru<S> {
    match Find(es, key)
    case None => es
    case Some(e) => [e] + Drop(es, key)
  }

  /** A put: refresh in place and move to the front, or insert and evict from the back. */
  function Store<S>(es: Lru<S>, cap: int, e: Entry<S>): Lru<S> {
    var front := [e] + Drop(es, e.key);
    if Find(es, e.key).None? && cap > 0 && |front| > cap then front[..|front| - 1] else front
  }

  lemma {:induction false} FindAt<S>(es: Lru<S>, key: Key)
    ensures Find(es, key).None? <==> forall i :: 0 <= i < |es| ==> es[i].key != key
    ensures Find(es, key).Some? ==> Find(es, key).value in es && Find(es, key).value.key == key
    ensures Find(es, key).None? ==> Drop(es, key) == es
  {
    if |es| == 0 {
    } else {
      FindAt(es[1..], key);
      assert es == [es[0]] + es[1..];
      if forall i :: 0 <= i < |es| ==> es[i].key != key {
        assert forall i :: 0 <= i < |es[1..]| ==> es[1..][i] == es[i + 1];
      }
    }
  }

  lemma {:induction false} DropHead<S>(es: Lru<S>)
    requires |es| > 0 && Distinct(KeysOf(es))
    ensures Drop(es, es[0].key) == es[1..] && Find(es, es[0].key) == Some(es[0])
  {
    assert forall i :: 0 <= i < |es[1..]| ==> es[1..][i] == es[i + 1] && KeysOf(es)[0] != KeysOf(es)[i + 1];
    FindAt(es[1..], es[0].key);
  }

  /** Dropping the key of the k-th entry takes out exactly that entry. */
  lemma {:induction false} DropAt<S>(es: Lru<S>, k: nat)
    requires k < |es| && Distinct(KeysOf(es))
    ensures Drop(es, es[k].key) == es[..k] + es[k + 1..]
    ensures Find(es, es[k].key) == Some(es[k])
  {
    if k == 0 {
      DropHead(es);
      assert es[..0] + es[1..] == es[1..];
    } else {
      assert KeysOf(es[1..]) == KeysOf(es)[1..];
      DropAt(es[1..], k - 1);
      assert KeysOf(es)[0] != KeysOf(es)[k];
      assert es[..k] == [es[0]] + es[1..][..k - 1];
      assert es[1..][k..] == es[k + 1..];
    }
  }

  // ------------------------------------------------------- the list plus map

  /** What the map points at: a list element, updated in place by a refresh. */
  class Element<S> {
    const key: Key
    var gen: nat
    var schema: S

    constructor (key: Key, gen: nat, schema: S)
      ensures this.key == key && this.gen == gen && this.schema == schema
    {
      this.key := key;
      this.gen := gen;
      this.schema := schema;
    }
  }

  /** List and map hold the same elements, once each, under their own keys. */
  ghost predicate Linked<S>(ll: seq<Element<S>>, cache: map<Key, Element<S>>) {
    if |ll| == 0 then cache == map[]
    else
      && ll[0].key in cache && cache[ll[0].key] == ll[0]
      && Linked(ll[1..], cache - {ll[0].key})
  }

  /** The list without one of its elements. */
  function Unlinked<S>(ll: seq<Element<S>>, el: Element<S>): seq<Element<S>> {
    if |ll| == 0 then []
    else if ll[0] == el then Unlinked(ll[1..], el)
    else [ll[0]] + Unlinked(ll[1..], el)
  }

  lemma {:induction false} LinkedMembers<S>(ll: seq<Element<S>>, cache: map<Key, Element<S>>)
    requires Linked(ll, cache)
    ensures forall e :: e in ll ==> e.key in cache && cache[e.key] == e
    ensures forall k :: k in cache ==> cache[k] in ll && cache[k].key == k
  {
    if |ll| == 0 {
    } else {
      var rest := cache - {ll[0].key};
      LinkedMembers(ll[1..], rest);
      assert ll == [ll[0]] + ll[1..];
      forall k | k in cache ensures cache[k] in ll && cache[k].key == k {
        if k != ll[0].key { assert k in rest; }
      }
    }
  }

  /** Taking an element out of the list goes with taking its key out of the map. */
  lemma {:induction false} LinkedUnlinked<S>(ll: seq<Element<S>>, cache: map<Key, Element<S>>, el: Element<S>)
    requires Linked(ll, cache)
    ensures el in ll ==> Linked(Unlinked(ll, el), cache - {el.key}) && |Unlinked(ll, el)| == |ll| - 1
    ensures el !in ll ==> Unlinked(ll, el) == ll
    ensures forall e :: e in Unlinked(ll, el) ==> e in ll && e != el
  {
    if |ll| == 0 {
    } else {
      var rest := cache - {ll[0].key};
      LinkedUnlinked(ll[1..], rest, el);
      LinkedMembers(ll[1..], rest);
      assert ll == [ll[0]] + ll[1..];
      if ll[0] != el {
        assert rest - {el.key} == (cache - {el.key}) - {ll[0].key};
        assert ([ll[0]] + Unlinked(ll[1..], el))[1..] == Unlinked(ll[1..], el);
      }
    }
  }

  lemma LinkedMoved<S>(ll: seq<Element<S>>, cache: map<Key, Element<S>>, el: Element<S>)
    requires Linked(ll, cache) && el in ll
    ensures Linked([el] + Unlinked(ll, el), cache) && |[el] + Unlinked(ll, el)| == |ll|
    ensures forall e :: e in Unlinked(ll, el) ==> e in ll && e != el
  {
    LinkedMembers(ll, cache);
    LinkedUnlinked(ll, cache, el);
    assert ([el] + Unlinked(ll, el))[1..] == Unlinked(ll, el);
  }

  lemma LinkedPushed<S>(ll: seq<Element<S>>, cache: map<Key, Element<S>>, el: Element<S>)
    requires Linked(ll, cache) && el.key !in cache
    ensures Linked([el] + ll, cache[el.key := el])
  {
    assert cache[el.key := el] - {el.key} == cache;
    assert ([el] + ll)[1..] == ll;
  }

  lemma {:induction false} LinkedPopped<S>(ll: seq<Element<S>>, cache: map<Key, Element<S>>)
    requires Linked(ll, cache) && |ll| > 0
    ensures Linked(ll[..|ll| - 1], cache - {ll[|ll| - 1].key})
  {
    var last: Element<S> := ll[|ll| - 1];
    if |ll| > 1 {
      var rest := cache - {ll[0].key};
      LinkedPopped(ll[1..], rest);
      LinkedMembers(ll[1..], rest);
      assert last in ll[1..];
      assert rest - {last.key} == (cache - {last.key}) - {ll[0].key};
      assert ll[..|ll| - 1][1..] == ll[1..][..|ll[1..]| - 1];
    } else {
      assert cache - {last.key} == map[];
    }
  }

  /** What the list shows, front first. */
  ghost function Shown<S>(ll: seq<Element<S>>): (es: Lru<S>)
    reads ll
    ensures |es| == |ll|
  {
    if |ll| == 0 then []
    else [Entry(ll[0].key, ll[0].gen, ll[0].schema)] + Shown(ll[1..])
  }

  lemma {:induction false} ShownUnlinked<S>(ll: seq<Element<S>>, el: Element<S>)
    requires forall e :: e in ll && e.key == el.key ==> e == el
    ensures Shown(Unlinked(ll, el)) == Drop(Shown(ll), el.key)
  {
    if |ll| == 0 {
    } else {
      var tail := Unlinked(ll[1..], el);
      ShownUnlinked(ll[1..], el);
      assert Shown(ll)[1..] == Shown(ll[1..]);
      assert ([ll[0]] + tail)[1..] == tail;
      assert ll[0] in ll;
    }
  }

  lemma {:induction false} ShownFinds<S>(ll: seq<Element<S>>, el: Element<S>)
    requires el in ll && forall e :: e in ll && e.key == el.key ==> e == el
    ensures Find(Shown(ll), el.key) == Some(Entry(el.key, el.gen, el.schema))
  {
    if ll[0] != el {
      assert ll == [ll[0]] + ll[1..];
      ShownFinds(ll[1..], el);
    }
  }

  lemma {:induction false} ShownMisses<S>(ll: seq<Element<S>>, key: Key)
    requires forall e :: e in ll ==> e.key != key
    ensures Find(Shown(ll), key) == None && Drop(Shown(ll), key) == Shown(ll)
  {
    if |ll| == 0 {
    } else {
      assert ll[0] in ll;
      ShownMisses(ll[1..], key);
    }
  }

  lemma {:induction false} ShownPopped<S>(ll: seq<Element<S>>)
    requires |ll| > 0
    ensures Shown(ll[..|ll| - 1]) == Shown(ll)[..|ll| - 1]
  {
    if |ll| > 1 {
      ShownPopped(ll[1..]);
      assert ll[..|ll| - 1][1..] == ll[1..][..|ll[1..]| - 1];
    }
  }

  lemma ShownCons<S>(el: Element<S>, ll: seq<Element<S>>)
    ensures Shown([el] + ll) == [Entry(el.key, el.gen, el.schema)] + Shown(ll)
  {
    assert ([el] + ll)[1..] == ll;
  }

  /** The map finds exactly what the list shows... */
  lemma MapFinds<S>(ll: seq<Element<S>>, cache: map<Key, Element<S>>, key: Key)
    requires Linked(ll, cache) && key in cache
    ensures cache[key] in ll && cache[key].key == key
    ensures Find(Shown(ll), key) == Some(Entry(key, cache[key].gen, cache[key].schema))
    ensures Shown(Unlinked(ll, cache[key])) == Drop(Shown(ll), key)
    ensures Linked([cache[key]] + Unlinked(ll, cache[key]), cache) && |[cache[key]] + Unlinked(ll, cache[key])| == |ll|
    ensures forall e :: e in Unlinked(ll, cache[key]) ==> e in ll && e != cache[key]
  {
    var el := cache[key];
    LinkedMembers(ll, cache);
    ShownFinds(ll, el);
    ShownUnlinked(ll, el);
    LinkedMoved(ll, cache, el);
  }

  /** ...and misses exactly what it does not. */
  lemma MapMisses<S>(ll: seq<Element<S>>, cache: map<Key, Element<S>>, key: Key)
    requires Linked(ll, cache) && key !in cache
    ensures Find(Shown(ll), key) == None && Drop(Shown(ll), key) == Shown(ll)
  {
    LinkedMembers(ll, cache);
    ShownMisses(ll, key);
  }

  /** One access to the cache. */
  datatype Op<S> = Get(key: Key) | Put(entry: Entry<S>)

  /** An LRU after a sequence of accesses. */
  function After<S>(es: Lru<S>, ops: seq<Op<S>>, cap: int): Lru<S> {
    if |ops| == 0 then es
    else
      var k := |ops| - 1;
      var before := After(es, ops[..k], cap);
      match ops[k]
      case Get(key) => Touch(before, key)
      case Put(e) => Store(before, cap, e)
  }

  class Engine<S> {
    var memo: map<string, Memo>
    const memoTTL: int
    const cacheCap: int
    var ll: seq<Element<S>>              // front = most recent
    var cache: map<Key, Element<S>>

    ghost predicate Valid()
      reads this`ll, this`cache
    {
      Linked(ll, cache) && (cacheCap > 0 ==> |ll| <= cacheCap)
    }

    ghost function Entries(): (es: Lru<S>)
      reads this`ll, ll
      ensures |es| == |ll|
    {
      Shown(ll)
    }

    constructor (memoTTL: int, cacheCap: int)
      ensures Valid() && Entries() == [] && memo == map[] && this.memoTTL == memoTTL && this.cacheCap == cacheCap
    {
      memo := map[];
      this.memoTTL := memoTTL;
      this.cacheCap := cacheCap;
      ll := [];
      cache := map[];
    }

    /** Returns the entry under `key` and marks it most recently used. */
    method CacheGet(key: Key) returns (hit: Option<Entry<S>>)
      requires Valid()
      modifies this`ll
      ensures Valid() && (forall e :: e in ll ==> e in old(ll))
      ensures hit == Find(old(Entries()), key) && Entries() == Touch(old(Entries()), key)
    {
      if key !in cache {
        MapMisses(ll, cache, key);
        return None;
      }
      var el := cache[key];
      MapFinds(ll, cache, key);
      var rest := Unlinked(ll, el);
      ShownCons(el, rest);
      ll := [el] + rest;
      hit := Some(Entry(el.key, el.gen, el.schema));
    }

    /** A put under a key the cache has: the element is updated in place and moved to the front. */
    method Refresh(key: Key, gen: nat, schema: S)
      requires Valid() && key in cache
      modifies this`ll, ll
      ensures forall e :: e in ll ==> e in old(ll)
      ensures Valid() && Entries() == Store(old(Entries()), cacheCap, Entry(key, gen, schema))
    {
      var el := cache[key];
      MapFinds(ll, cache, key);
      var rest := Unlinked(ll, el);
      ghost var shown := Shown(rest);
      el.gen := gen;
      el.schema := schema;
      assert Shown(rest) == shown;
      ShownCons(el, rest);
      ll := [el] + rest;
    }

    /** A put under a new key: insert at the front, evict from the back past the cap. */
    method Insert(key: Key, gen: nat, schema: S)
      requires Valid() && key !in cache
      modifies this`ll, this`cache
      ensures forall e :: e in ll ==> e in old(ll) || fresh(e)
      ensures Valid() && Entries() == Store(old(Entries()), cacheCap, Entry(key, gen, schema))
    {
      MapMisses(ll, cache, key);
      ghost var shown := Shown(ll);
      var el := new Element(key, gen, schema);
      assert Shown(ll) == shown;
      LinkedPushed(ll, cache, el);
      ShownCons(el, ll);
      ll := [el] + ll;
      cache := cache[key := el];
      if cacheCap > 0 && |ll| > cacheCap {
        ShownPopped(ll);
        LinkedPopped(ll, cache);
        var last := |ll| - 1;
        cache := cache - {ll[last].key};
        ll := ll[..last];
      }
    }

    method CachePut(key: Key, gen: nat, schema: S)
      requires Valid()
      modifies this`ll, this`cache, ll
      ensures Valid() && forall e :: e in ll ==> e in old(ll) || fresh(e)
      ensures Entries() == Store(old(Entries()), cacheCap, Entry(key, gen, schema))
    {
      if key in cache { Refresh(key, gen, schema); } else { Insert(key, gen, schema); }
    }

    /** What other queries do to the cache while the lock is free. */
    method Others(ops: seq<Op<S>>)
      requires Valid()
      modifies this`ll, this`cache, ll
      ensures Valid() && forall e :: e in ll ==> e in old(ll) || fresh(e)
      ensures Entries() == After(old(Entries()), ops, cacheCap)
    {
      for i := 0 to |ops|
        invariant Valid() && forall e :: e in ll ==> e in old(ll) || fresh(e)
        invariant Entries() == After(old(Entries()), ops[..i], cacheCap)
      {
        assert ops[..i + 1][..i] == ops[..i];
        assert forall j :: 0 <= j < |ll| ==> ll[j] in ll;
        match ops[i]
        case Get(key) => var hit := CacheGet(key);
        case Put(e) => CachePut(e.key, e.gen, e.schema);
      }
      assert ops[..|ops|] == ops;
    }

    // ------------------------------------------------------------ the engine

    /** The tenant's schema version: the memo while it is fresh, else a read (None = it failed). */
    method VersionFor(tenant: string, now: int, read: Option<nat>) returns (version: nat, ok: bool)
      modifies this`memo
      ensures var m := if tenant in old(memo) then Some(old(memo)[tenant]) else None;
              if m.Some? && memoTTL > 0 && now - m.value.fetchedAt < memoTTL then
                ok && version == m.value.version && memo == old(memo)
              else if read.Some? then
                ok && version == read.value && memo == old(memo)[tenant := Memo(read.value, now)]
              else
                !ok && version == 0 && memo == old(memo)
    {
      var current := tenant in memo && memoTTL > 0 && now - memo[tenant].fetchedAt < memoTTL;
      if current { return memo[tenant].version, true; }
      match read {
        case None =>
          return 0, false;
        case Some(v) =>
          memo := memo[tenant := Memo(v, now)];
          return v, true;
      }
    }

    /** The schema a query is served: a hit at the current version, the last good schema when the
        version could not be read, else a build (None = it failed). A failed build changes no entry. The
        lock is free during the build: `during` is what other queries do to the cache meanwhile. */
    method SchemaFor(key: Key, now: int, read: Option<nat>, build: Option<S>, during: seq<Op<S>>) returns (served: Option<S>)
      requires Valid()
      modifies this, ll
      ensures Valid()
      ensures var hit := Find(old(Entries()), key);
              var m := if key.tenant in old(memo) then Some(old(memo)[key.tenant]) else None;
              var memoFresh := m.Some? && memoTTL > 0 && now - m.value.fetchedAt < memoTTL;
              var known := memoFresh || read.Some?;
              var gen := if memoFresh then m.value.version else if read.Some? then read.value else 0;
              if hit.Some? && (!known || hit.value.gen == gen) then
                served == Some(hit.value.schema) && Entries() == Touch(old(Entries()), key)
              else if build.Some? then
                served == build &&
                Entries() == Store(After(Touch(old(Entries()), key), during, cacheCap), cacheCap, Entry(key, gen, build.value))
              else
                served == None && Entries() == After(Touch(old(Entries()), key), during, cacheCap)
      ensures var m := if key.tenant in old(memo) then Some(old(memo)[key.tenant]) else None;
              memo == if !(m.Some? && memoTTL > 0 && now - m.value.fetchedAt < memoTTL) && read.Some?
                      then old(memo)[key.tenant := Memo(read.value, now)] else old(memo)
    {
      var gen, known := VersionFor(key.tenant, now, read);
      var cached := CacheGet(key);
      if cached.Some? && known && cached.value.gen == gen { return Some(cached.value.schema); }
      if cached.Some? && !known { return Some(cached.value.schema); }
      assert forall i :: 0 <= i < |ll| ==> ll[i] in ll;
      Others(during);
      assert forall i :: 0 <= i < |ll| ==> ll[i] in ll;
      match build {
        case None =>
          return None;
        case Some(schema) =>
          CachePut(key, gen, schema);
          return Some(schema);
      }
    }

    /** A definition event drops the tenant's memo, and nothing else. */
    method Handle(tenant: string)
      modifies this`memo
      ensures memo == if tenant == "" then old(memo) else old(memo) - {tenant}
    {
      if tenant == "" { return; }
      memo := memo - {tenant};
    }
  }

  // -------------------------------------- what an LRU holds, from its history

  function Run<S>(ops: seq<Op<S>>, cap: int): Lru<S> {
    After([], ops, cap)
  }

  /** The keys touched by puts and hits, latest first. */
  function Touches<S>(ops: seq<Op<S>>, cap: int): seq<Key> {
    if |ops| == 0 then []
    else
      var k := |ops| - 1;
      var earlier := Touches(ops[..k], cap);
      match ops[k]
      case Get(key) => if Find(Run(ops[..k], cap), key).Some? then [key] + earlier else earlier
      case Put(e) => [e.key] + earlier
  }

  function RemoveKey(ks: seq<Key>, key: Key): (r: seq<Key>)
    ensures |r| <= |ks|
    ensures forall x :: x in r <==> x in ks && x != key
  {
    if |ks| == 0 then []
    else (if ks[0] == key then [] else [ks[0]]) + RemoveKey(ks[1..], key)
  }

  /** Each key once, at its latest touch. */
  function LatestFirst(ks: seq<Key>): (r: seq<Key>)
    ensures |r| <= |ks|
    ensures forall x :: x in r <==> x in ks
  {
    if |ks| == 0 then []
    else
      assert ks == [ks[0]] + ks[1..];
      [ks[0]] + RemoveKey(LatestFirst(ks[1..]), ks[0])
  }

  function FirstN(ks: seq<Key>, cap: int): seq<Key> {
    if cap > 0 && |ks| > cap then ks[..cap] else ks
  }

  lemma {:induction false} RemoveKeyDistinct(ks: seq<Key>, key: Key)
    requires Distinct(ks)
    ensures Distinct(RemoveKey(ks, key))
    ensures key !in ks ==> RemoveKey(ks, key) == ks
  {
    if |ks| == 0 {
    } else {
      RemoveKeyDistinct(ks[1..], key);
      assert ks == [ks[0]] + ks[1..];
      var rest := RemoveKey(ks[1..], key);
      forall j | 0 <= j < |rest| ensures rest[j] != ks[0] {
        assert rest[j] in ks[1..];
      }
    }
  }

  lemma {:induction false} LatestFirstDistinct(ks: seq<Key>)
    ensures Distinct(LatestFirst(ks))
  {
    if |ks| == 0 {
    } else {
      LatestFirstDistinct(ks[1..]);
      RemoveKeyDistinct(LatestFirst(ks[1..]), ks[0]);
    }
  }

  lemma {:induction false} RemoveKeyAt(ks: seq<Key>, k: nat)
    requires k < |ks| && Distinct(ks)
    ensures RemoveKey(ks, ks[k]) == ks[..k] + ks[k + 1..]
  {
    if k == 0 {
      RemoveKeyDistinct(ks[1..], ks[0]);
    } else {
      RemoveKeyAt(ks[1..], k - 1);
      assert ks[0] != ks[k] && ks[1..][k - 1] == ks[k];
      WithoutTheKth(ks, k);
    }
  }

  lemma WithoutTheKth(ks: seq<Key>, k: nat)
    requires 0 < k < |ks|
    ensures [ks[0]] + (ks[1..][..k - 1] + ks[1..][k..]) == ks[..k] + ks[k + 1..]
  {
  }

  lemma {:induction false} DropIsRemoveKey<S>(es: Lru<S>, key: Key)
    ensures KeysOf(Drop(es, key)) == RemoveKey(KeysOf(es), key)
  {
    if |es| == 0 {
    } else {
      DropIsRemoveKey(es[1..], key);
      assert KeysOf(es[1..]) == KeysOf(es)[1..];
      var first := if es[0].key == key then [] else [es[0]];
      assert KeysOf(first + Drop(es[1..], key)) == KeysOf(first) + KeysOf(Drop(es[1..], key));
    }
  }

  /** Touching a key, seen on the bounded list of latest touches. */
  lemma TouchOnWindow(ks: seq<Key>, key: Key, cap: int)
    requires Distinct(ks)
    ensures key in FirstN(ks, cap) ==>
      FirstN([key] + RemoveKey(ks, key), cap) == [key] + RemoveKey(FirstN(ks, cap), key)
    ensures key !in FirstN(ks, cap) ==>
      FirstN([key] + RemoveKey(ks, key), cap) == FirstN([key] + FirstN(ks, cap), cap)
  {
    if key in ks {
      var k :| 0 <= k < |ks| && ks[k] == key;
      RemoveKeyAt(ks, k);
      if cap <= 0 || |ks| <= cap || k < cap { TouchInside(ks, k, cap); } else { TouchOutside(ks, k, cap); }
    } else {
      RemoveKeyDistinct(ks, key);
    }
  }

  lemma TouchInside(ks: seq<Key>, k: nat, cap: int)
    requires Distinct(ks) && k < |FirstN(ks, cap)|
    ensures ks[k] in FirstN(ks, cap)
    ensures FirstN([ks[k]] + RemoveKey(ks, ks[k]), cap) == [ks[k]] + RemoveKey(FirstN(ks, cap), ks[k])
  {
    var window := FirstN(ks, cap);
    assert window[k] == ks[k];
    RemoveKeyAt(ks, k);
    RemoveKeyAt(window, k);
    if window != ks { WindowWithout(ks, k, cap); }
  }

  /** Taking the k-th element out, inside the window and outside. */
  lemma WindowWithout(ks: seq<Key>, k: nat, cap: nat)
    requires k < cap <= |ks|
    ensures ([ks[k]] + (ks[..k] + ks[k + 1..]))[..cap] == [ks[k]] + (ks[..cap][..k] + ks[..cap][k + 1..])
  {
    assert ks[..cap][..k] == ks[..k];
    assert ks[..cap][k + 1..] == ks[k + 1..cap];
  }

  lemma TouchOutside(ks: seq<Key>, k: nat, cap: int)
    requires Distinct(ks) && 0 < cap <= k < |ks|
    ensures ks[k] !in FirstN(ks, cap)
    ensures FirstN([ks[k]] + RemoveKey(ks, ks[k]), cap) == FirstN([ks[k]] + FirstN(ks, cap), cap)
  {
    assert FirstN(ks, cap) == ks[..cap];
    assert ks[k] !in ks[..cap];
    RemoveKeyAt(ks, k);
    WindowBefore(ks, k, cap);
  }

  lemma WindowBefore(ks: seq<Key>, k: nat, cap: nat)
    requires cap <= k < |ks|
    ensures ([ks[k]] + (ks[..k] + ks[k + 1..]))[..cap] == ([ks[k]] + ks[..cap])[..cap]
  {
  }

  /** Whatever sequence of gets and puts: the cache holds exactly the last `cap` distinct keys
      that were put or hit, in order of last touch. So it never exceeds its cap, and the only
      key it ever evicts is the least recently touched one. */
  lemma {:induction false} LruHoldsTheLatestTouches<S>(ops: seq<Op<S>>, cap: int)
    ensures KeysOf(Run(ops, cap)) == FirstN(LatestFirst(Touches(ops, cap)), cap)
  {
    if |ops| == 0 {
    } else {
      var k := |ops| - 1;
      var es := Run(ops[..k], cap);
      var latest := LatestFirst(Touches(ops[..k], cap));
      LruHoldsTheLatestTouches(ops[..k], cap);
      LatestFirstDistinct(Touches(ops[..k], cap));
      var key := match ops[k] case Get(key) => key case Put(e) => e.key;
      FindAt(es, key);
      DropIsRemoveKey(es, key);
      TouchOnWindow(latest, key, cap);
      assert Find(es, key).Some? <==> key in KeysOf(es) by {
        if Find(es, key).Some? { var i :| 0 <= i < |es| && es[i] == Find(es, key).value; assert KeysOf(es)[i] == key; }
      }
      TouchedKeys(es, ops[k], cap, key);
    }
  }

  /** The keys of a cache after one operation, from its keys before. */
  lemma TouchedKeys<S>(es: Lru<S>, op: Op<S>, cap: int, key: Key)
    requires key == match op case Get(key) => key case Put(e) => e.key
    requires Find(es, key).Some? <==> key in KeysOf(es)
    ensures op.Get? && key in KeysOf(es) ==> KeysOf(Touch(es, key)) == [key] + RemoveKey(KeysOf(es), key)
    ensures op.Put? && key in KeysOf(es) ==> KeysOf(Store(es, cap, op.entry)) == [key] + RemoveKey(KeysOf(es), key)
    ensures op.Put? && key !in KeysOf(es) && (cap > 0 ==> |es| <= cap) ==>
              KeysOf(Store(es, cap, op.entry)) == FirstN([key] + KeysOf(es), cap)
  {
    FindAt(es, key);
    DropIsRemoveKey(es, key);
    if op.Put? {
      KeysOfCons(op.entry, Drop(es, key));
    } else if Find(es, key).Some? {
      KeysOfCons(Find(es, key).value, Drop(es, key));
    }
  }

  lemma KeysOfCons<S>(e: Entry<S>, es: Lru<S>)
    ensures KeysOf([e] + es) == [e.key] + KeysOf(es)
  {
  }

  /** And the schema under a key is the one last put there. */
  lemma {:induction false} LruHoldsTheLastPut<S>(ops: seq<Op<S>>, cap: int, e: Entry<S>)
    requires e in Run(ops, cap)
    ensures exists i :: 0 <= i < |ops| && ops[i] == Put(e) && forall j :: i < j < |ops| && ops[j].Put? ==> ops[j].entry.key != e.key
  {
    var k := |ops| - 1;
    var es := Run(ops[..k], cap);
    if ops[k] == Put(e) { return; }
    var key := match ops[k] case Get(key) => key case Put(p) => p.key;
    FindAt(es, key);
    DropSubset(es, key);
    if ops[k].Put? {
      assert e in [ops[k].entry] + Drop(es, key);
    }
    assert e in es && (ops[k].Put? ==> e.key != key);
    LruHoldsTheLastPut(ops[..k], cap, e);
    LastPutLasts(ops, e);
  }

  lemma LastPutLasts<S>(ops: seq<Op<S>>, e: Entry<S>)
    requires |ops| != 0 && (ops[|ops| - 1].Put? ==> ops[|ops| - 1].entry.key != e.key)
    requires var before := ops[..|ops| - 1];
      exists i :: 0 <= i < |before| && before[i] == Put(e) && forall j :: i < j < |before| && before[j].Put? ==> before[j].entry.key != e.key
    ensures exists i :: 0 <= i < |ops| && ops[i] == Put(e) && forall j :: i < j < |ops| && ops[j].Put? ==> ops[j].entry.key != e.key
  {
    var k := |ops| - 1;
    var i :| 0 <= i < k && ops[..k][i] == Put(e) && forall j :: i < j < k && ops[..k][j].Put? ==> ops[..k][j].entry.key != e.key;
    assert ops[i] == Put(e);
    forall j | i < j < |ops| && ops[j].Put? ensures ops[j].entry.key != e.key {
      if j < k { assert ops[..k][j] == ops[j]; }
    }
  }

  lemma {:induction false} DropSubset<S>(es: Lru<S>, key: Key)
    ensures forall e :: e in Drop(es, key) ==> e in es && e.key != key
  {
    if |es| != 0 { DropSubset(es[1..], key); }
  }
}
