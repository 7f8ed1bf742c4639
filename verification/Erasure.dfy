/**
  The post-commit blob collection of an erasure, and the receipt it fills in.
 */
module Erasure {
  import opened Options

  /** One batched reference count covers this many keys. */
  const GC_CHUNK_SIZE := 256

  class PurgeReport {
    var mediaBlobsPurged: nat
    var mediaBlobsFailed: nat
    var unpurgedBlobKeys: seq<string>
    var retainedBlobKeys: seq<string>
    /** The keys counted in mediaBlobsPurged. */
    ghost var purgedKeys: seq<string>

    ghost predicate Valid()
      reads this
    {
      |purgedKeys| == mediaBlobsPurged && |unpurgedBlobKeys| == mediaBlobsFailed
    }

    constructor ()
      ensures Valid() && purgedKeys == [] && unpurgedBlobKeys == [] && retainedBlobKeys == []
    {
      mediaBlobsPurged, mediaBlobsFailed := 0, 0;
      unpurgedBlobKeys, retainedBlobKeys, purgedKeys := [], [], [];
    }

    /** A chunk that could not be counted: all its keys stay behind. */
    method Fail(keys: seq<string>)
      requires Valid()
      modifies this`mediaBlobsFailed, this`unpurgedBlobKeys
      ensures Valid() && Handled() == old(Handled()) + multiset(keys)
      ensures unpurgedBlobKeys == old(unpurgedBlobKeys) + keys
    {
      mediaBlobsFailed := mediaBlobsFailed + |keys|;
      unpurgedBlobKeys := unpurgedBlobKeys + keys;
    }

    /** One key is filed under one outcome and counted there. */
    method File(key: string, referenced: bool, failed: bool)
      requires Valid()
      modifies this
      ensures Valid() && Handled() == old(Handled()) + multiset{key}
      ensures unpurgedBlobKeys == old(unpurgedBlobKeys) + if failed then [key] else []
      ensures retainedBlobKeys == old(retainedBlobKeys) + if !failed && referenced then [key] else []
      ensures purgedKeys == old(purgedKeys) + if !failed && !referenced then [key] else []
    {
      if failed {
        mediaBlobsFailed := mediaBlobsFailed + 1;
        unpurgedBlobKeys := unpurgedBlobKeys + [key];
      } else if referenced {
        retainedBlobKeys := retainedBlobKeys + [key];
      } else {
        mediaBlobsPurged := mediaBlobsPurged + 1;
        purgedKeys := purgedKeys + [key];
      }
    }

    /** Every key handled so far, by outcome. */
    ghost function Handled(): multiset<string>
      reads this
    {
      multiset(purgedKeys) + multiset(unpurgedBlobKeys) + multiset(retainedBlobKeys)
    }

    lemma HandledAddsUp()
      ensures |Handled()| == |purgedKeys| + |unpurgedBlobKeys| + |retainedBlobKeys|
    {
    }

    lemma NothingHandled()
      requires Handled() == multiset{}
      ensures purgedKeys == [] && unpurgedBlobKeys == [] && retainedBlobKeys == []
    {
      HandledAddsUp();
    }
  }

  function NonEmpty(keys: seq<string>): (r: seq<string>)
    ensures forall k :: multiset(r)[k] == if k == "" then 0 else multiset(keys)[k]
    ensures |r| <= |keys|
  {
    if |keys| == 0 then []
    else
      var init, last := keys[..|keys| - 1], keys[|keys| - 1];
      assert keys == init + [last];
      NonEmpty(init) + if last == "" then [] else [last]
  }

  lemma {:induction false} NonEmptyConcat(xs: seq<string>, ys: seq<string>)
    ensures NonEmpty(xs + ys) == NonEmpty(xs) + NonEmpty(ys)
  {
    if |ys| == 0 {
      assert xs + ys == xs;
    } else {
      assert (xs + ys)[..|xs + ys| - 1] == xs + ys[..|ys| - 1];
      NonEmptyConcat(xs, ys[..|ys| - 1]);
    }
  }

  /** The object store, and the live rows that reference each key. A storage or database call can
      always fail instead of answering. */
  class Storage {
    var blobs: set<string>
    const refs: map<string, nat>

    constructor (blobs: set<string>, refs: map<string, nat>)
      ensures this.blobs == blobs && this.refs == refs
    {
      this.blobs := blobs;
      this.refs := refs;
    }

    predicate Referenced(key: string) {
      key in refs && refs[key] > 0
    }

    /** The batched count; None when the query fails. */
    method MediaKeyRefCounts(keys: seq<string>) returns (counts: Option<map<string, nat>>)
      ensures counts.Some? ==> forall k :: k in keys ==> (k in counts.value && counts.value[k] > 0 <==> Referenced(k))
    {
      if * { return None; }
      return Some(map k | k in keys && k in refs :: refs[k]);
    }

    /** Lock, recount, delete: one short transaction. A delete that reports an error may have happened. */
    method GcBlobKey(key: string) returns (retained: bool, failed: bool)
      modifies this
      ensures !failed && retained ==> Referenced(key) && blobs == old(blobs)
      ensures !failed && !retained ==> !Referenced(key) && blobs == old(blobs) - {key}
      ensures failed ==> blobs == old(blobs) || (!Referenced(key) && blobs == old(blobs) - {key})
    {
      if * { return false, true; }
      if Referenced(key) { return true, false; }
      if * { blobs := blobs - {key}; }
      if * { return false, true; }
      blobs := blobs - {key};
      return false, false;
    }
  }

  function Keys(ks: seq<string>): set<string> {
    set k | k in ks
  }

  /** The receipt is true of storage: every key reported as purged is gone, whatever else is gone since
      `initial` is reported as failed, nothing gone is referenced, and every key reported as retained is. */
  ghost predicate Truthful(initial: set<string>, storage: Storage, report: PurgeReport)
    reads storage, report
  {
    TrueOf(initial, storage.blobs, storage.refs, Keys(report.purgedKeys), Keys(report.unpurgedBlobKeys), Keys(report.retainedBlobKeys))
  }

  ghost predicate TrueOf(initial: set<string>, blobs: set<string>, refs: map<string, nat>,
                         purged: set<string>, unpurged: set<string>, retained: set<string>) {
    && blobs <= initial && blobs !! purged
    && (forall k :: k in initial - blobs ==> (k in refs ==> refs[k] == 0) && k in purged + unpurged)
    && (forall k :: k in purged ==> k in refs ==> refs[k] == 0)
    && (forall k :: k in retained ==> k in refs && refs[k] > 0)
  }

  lemma KeysSnoc(ks: seq<string>, key: string)
    ensures Keys(ks + [key]) == Keys(ks) + {key}
  {
  }

  /** The receipt stays true when a key is filed under what became of it. */
  lemma FiledTruly(initial: set<string>, blobs: set<string>, refs: map<string, nat>,
                   purged: seq<string>, unpurged: seq<string>, retained: seq<string>, key: string)
    requires TrueOf(initial, blobs, refs, Keys(purged), Keys(unpurged), Keys(retained))
    ensures key in refs && refs[key] > 0 ==> TrueOf(initial, blobs, refs, Keys(purged), Keys(unpurged), Keys(retained + [key]))
    ensures TrueOf(initial, blobs, refs, Keys(purged), Keys(unpurged + [key]), Keys(retained))
    ensures !(key in refs && refs[key] > 0) ==>
      && TrueOf(initial, blobs - {key}, refs, Keys(purged), Keys(unpurged + [key]), Keys(retained))
      && TrueOf(initial, blobs - {key}, refs, Keys(purged + [key]), Keys(unpurged), Keys(retained))
  {
    KeysSnoc(purged, key);
    KeysSnoc(unpurged, key);
    KeysSnoc(retained, key);
  }

  /** Files one key under what became of it. */
  method CollectKey(storage: Storage, key: string, counted: bool, report: PurgeReport, ghost initial: set<string>)
    requires report.Valid() && Truthful(initial, storage, report) && (counted ==> storage.Referenced(key))
    modifies storage, report
    ensures report.Valid() && report.Handled() == old(report.Handled()) + multiset{key}
    ensures Truthful(initial, storage, report)
  {
    ghost var blobs := storage.blobs;
    ghost var purged, unpurged, retained := report.purgedKeys, report.unpurgedBlobKeys, report.retainedBlobKeys;
    FiledTruly(initial, blobs, storage.refs, purged, unpurged, retained, key);
    var referenced, failed := counted, false;
    if !counted { referenced, failed := storage.GcBlobKey(key); }
    report.File(key, referenced, failed);
  }

  method LiveKeys(chunk: seq<string>) returns (live: seq<string>)
    ensures live == NonEmpty(chunk)
  {
    live := [];
    for i := 0 to |chunk|
      invariant live == NonEmpty(chunk[..i])
    {
      assert chunk[..i + 1][..i] == chunk[..i];
      if chunk[i] != "" { live := live + [chunk[i]]; }
    }
    assert chunk[..|chunk|] == chunk;
  }

  method CollectCounted(storage: Storage, live: seq<string>, counts: map<string, nat>, report: PurgeReport, ghost initial: set<string>)
    requires report.Valid() && Truthful(initial, storage, report)
    requires forall k :: k in live ==> (k in counts && counts[k] > 0 <==> storage.Referenced(k))
    modifies storage, report
    ensures report.Valid() && report.Handled() == old(report.Handled()) + multiset(live)
    ensures Truthful(initial, storage, report)
  {
    ghost var before := report.Handled();
    for i := 0 to |live|
      invariant report.Valid() && report.Handled() == before + multiset(live[..i])
      invariant Truthful(initial, storage, report)
    {
      assert live[..i + 1] == live[..i] + [live[i]];
      CollectKey(storage, live[i], live[i] in counts && counts[live[i]] > 0, report, initial);
    }
    assert live[..|live|] == live;
  }

  method GcBlobChunk(storage: Storage, chunk: seq<string>, report: PurgeReport, ghost initial: set<string>)
    requires report.Valid() && Truthful(initial, storage, report)
    modifies storage, report
    ensures report.Valid() && report.Handled() == old(report.Handled()) + multiset(NonEmpty(chunk))
    ensures Truthful(initial, storage, report)
  {
    var live := LiveKeys(chunk);
    if |live| == 0 { return; }
    var counts := storage.MediaKeyRefCounts(live);
    if counts.None? {
      assert Keys(report.unpurgedBlobKeys) <= Keys(report.unpurgedBlobKeys + live);
      report.Fail(live);
      return;
    }
    CollectCounted(storage, live, counts.value, report, initial);
  }

  lemma NonEmptyUpTo(keys: seq<string>, start: nat, end: nat)
    requires start <= end <= |keys|
    ensures multiset(NonEmpty(keys[..end])) == multiset(NonEmpty(keys[..start])) + multiset(NonEmpty(keys[start..end]))
  {
    assert keys[..end] == keys[..start] + keys[start..end];
    NonEmptyConcat(keys[..start], keys[start..end]);
  }

  method GcBlobChunks(storage: Storage, keys: seq<string>, report: PurgeReport, ghost initial: set<string>)
    requires report.Valid() && Truthful(initial, storage, report)
    modifies storage, report
    ensures report.Valid() && report.Handled() == old(report.Handled()) + multiset(NonEmpty(keys))
    ensures Truthful(initial, storage, report)
  {
    var start := 0;
    while start < |keys|
      invariant 0 <= start <= |keys|
      invariant report.Valid() && report.Handled() == old(report.Handled()) + multiset(NonEmpty(keys[..start]))
      invariant Truthful(initial, storage, report)
      decreases |keys| - start
    {
      var end := if start + GC_CHUNK_SIZE < |keys| then start + GC_CHUNK_SIZE else |keys|;
      NonEmptyUpTo(keys, start, end);
      GcBlobChunk(storage, keys[start..end], report, initial);
      start := end;
    }
    assert keys[..start] == keys;
  }

  /** The whole collection, in chunks. The receipt partitions the non-empty purged keys by what
      became of them, so its counts add up; `enabled` says storage and transactor are wired. */
  method GcErasedBlobs(storage: Storage, keys: seq<string>, report: PurgeReport, enabled: bool)
    requires report.Valid() && report.Handled() == multiset{}
    modifies storage, report
    ensures report.Valid() && Truthful(old(storage.blobs), storage, report)
    ensures report.Handled() == if enabled then multiset(NonEmpty(keys)) else multiset{}
    ensures var filed := multiset(report.purgedKeys) + multiset(report.unpurgedBlobKeys) + multiset(report.retainedBlobKeys);
      forall k :: filed[k] == if enabled && k != "" then multiset(keys)[k] else 0
    ensures enabled ==> report.mediaBlobsPurged + report.mediaBlobsFailed + |report.retainedBlobKeys| == |NonEmpty(keys)|
  {
    report.NothingHandled();
    if enabled {
      GcBlobChunks(storage, keys, report, storage.blobs);
      report.HandledAddsUp();
      assert |multiset(NonEmpty(keys))| == |NonEmpty(keys)|;
    }
  }
}
