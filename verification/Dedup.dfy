/**
  Duplicate scanning: the bucketed and the trigram-indexed search for candidate pairs,
  against the naive meaning "every pair that matches the rule".
 */
module Dedup {
  import opened Ordering
  import opened Sequences

  // ---------------------------------------------------------------- trigrams

  function SetOf(xs: seq<string>): set<string> {
    set x | x in xs
  }

  ghost predicate StrictlySorted(xs: seq<string>) {
    forall i, j :: 0 <= i < j < |xs| ==> StrLess(xs[i], xs[j])
  }

  function Padded(word: string): string {
    "  " + word + " "
  }

  function Gram(word: string, k: nat): string
    requires k <= |word|
  {
    Padded(word)[k..k + 3]
  }

  /** The padded 3-grams of a value's words. */
  ghost function GramsOf(words: seq<string>): set<string> {
    set w, k | 0 <= w < |words| && 0 <= k <= |words[w]| :: Gram(words[w], k)
  }

  lemma StrLeqIsPreorder()
    ensures TotalPreorder(StrLeq)
  {
    forall x, y ensures StrLeq(x, y) || StrLeq(y, x) { StrLessTrichotomy(x, y); }
    forall x, y, z | StrLeq(x, y) && StrLeq(y, z) ensures StrLeq(x, z) { StrLeqTransitive(x, y, z); }
  }

  lemma {:induction false} DistinctCount<T>(xs: seq<T>, x: T)
    requires Distinct(xs)
    ensures multiset(xs)[x] == if x in xs then 1 else 0
  {
    if |xs| == 0 {
    } else {
      DistinctCount(xs[1..], x);
      assert xs == [xs[0]] + xs[1..];
    }
  }

  lemma {:induction false} CountedOnceDistinct<T>(xs: seq<T>)
    requires forall x :: x in xs ==> multiset(xs)[x] == 1
    ensures Distinct(xs)
  {
    forall i, j | 0 <= i < j < |xs| ensures xs[i] != xs[j] {
      assert xs == xs[..j] + xs[j..];
      assert xs[..j][i] in multiset(xs[..j]) && xs[j..][0] in multiset(xs[j..]);
      assert multiset(xs)[xs[i]] == multiset(xs[..j])[xs[i]] + multiset(xs[j..])[xs[i]];
      assert multiset(xs)[xs[i]] == 1;
    }
  }

  /** The sorted, de-duplicated trigrams of a value, whatever order the set is walked in. */
  method Trigrams(words: seq<string>) returns (grams: seq<string>)
    ensures SetOf(grams) == GramsOf(words) && StrictlySorted(grams)
  {
    var found: set<string> := {};
    for w := 0 to |words|
      invariant found == GramsOf(words[..w])
    {
      var padded := Padded(words[w]);
      ghost var before := found;
      var k := 0;
      while k + 3 <= |padded|
        invariant 0 <= k <= |words[w]| + 1
        invariant found == before + set i | 0 <= i < k && i <= |words[w]| :: Gram(words[w], i)
      {
        assert padded[k..k + 3] == Gram(words[w], k);
        found := found + {padded[k..k + 3]};
        k := k + 1;
      }
      GramsOfSnoc(words, w);
    }
    assert words[..|words|] == words;
    var todo := found;
    grams := [];
    while todo != {}
      invariant Distinct(grams) && SetOf(grams) == found - todo && todo <= found
      decreases todo
    {
      var g :| g in todo;
      assert g !in SetOf(grams);
      todo := todo - {g};
      assert SetOf(grams + [g]) == SetOf(grams) + {g};
      grams := grams + [g];
    }
    var sorted := StableSort(grams, StrLeq);
    SortedSetIsStrict(grams, sorted);
    grams := sorted;
  }

  lemma GramsOfSnoc(words: seq<string>, w: nat)
    requires w < |words|
    ensures GramsOf(words[..w + 1]) == GramsOf(words[..w]) + set k | 0 <= k <= |words[w]| :: Gram(words[w], k)
  {
    var last := set k | 0 <= k <= |words[w]| :: Gram(words[w], k);
    forall g ensures g in GramsOf(words[..w + 1]) <==> g in GramsOf(words[..w]) + last {
      if g in GramsOf(words[..w]) {
        var v, k :| 0 <= v < w && 0 <= k <= |words[..w][v]| && g == Gram(words[..w][v], k);
        assert words[..w + 1][v] == words[..w][v];
      }
      if g in last {
        var k :| 0 <= k <= |words[w]| && g == Gram(words[w], k);
        assert words[..w + 1][w] == words[w];
      }
      if g in GramsOf(words[..w + 1]) {
        var v, k :| 0 <= v < w + 1 && 0 <= k <= |words[..w + 1][v]| && g == Gram(words[..w + 1][v], k);
        if v < w { assert words[..w][v] == words[..w + 1][v]; }
      }
    }
  }

  lemma SortedSetIsStrict(xs: seq<string>, ys: seq<string>)
    requires Distinct(xs) && ys == StableSort(xs, StrLeq)
    ensures StrictlySorted(ys) && SetOf(ys) == SetOf(xs)
  {
    StrLeqIsPreorder();
    StableSortIsStableSort(xs, StrLeq);
    forall y ensures y in ys <==> y in xs { assert y in multiset(ys) <==> y in multiset(xs); }
    forall y | y in ys ensures multiset(ys)[y] == 1 { DistinctCount(xs, y); }
    CountedOnceDistinct(ys);
    forall i, j | 0 <= i < j < |ys| ensures StrLess(ys[i], ys[j]) {
      StrLessTrichotomy(ys[i], ys[j]);
    }
  }

  // ----------------------------------------------------------------- jaccard

  /** Intersection over union; content-free values match nothing. */
  ghost function JaccardOf(a: set<string>, b: set<string>): real {
    if a == {} || b == {} then 0.0 else |a * b| as real / |a + b| as real
  }

  lemma {:induction false} StrictlySortedSize(xs: seq<string>)
    requires StrictlySorted(xs)
    ensures |SetOf(xs)| == |xs|
  {
    if |xs| == 0 {
    } else {
      StrictlySortedSize(xs[1..]);
      assert xs == [xs[0]] + xs[1..];
      assert SetOf(xs) == {xs[0]} + SetOf(xs[1..]);
      if xs[0] in SetOf(xs[1..]) {
        var k :| 0 <= k < |xs[1..]| && xs[1..][k] == xs[0];
        assert StrLess(xs[0], xs[k + 1]);
        StrLessTrichotomy(xs[0], xs[0]);
      }
    }
  }

  lemma UnionSize(a: set<string>, b: set<string>)
    ensures |a + b| == |a| + |b| - |a * b|
  {
    assert a + b == a + (b - a) && b == (b - a) + a * b;
    assert |b| == |b - a| + |a * b|;
  }

  /** Everything from position k on, in a strictly sorted list, is at least the element there. */
  lemma TailStartsAtHead(xs: seq<string>, k: nat, x: string)
    requires StrictlySorted(xs) && k < |xs| && x in xs[k..]
    ensures x == xs[k] || StrLess(xs[k], x)
  {
    var i :| 0 <= i < |xs[k..]| && xs[k..][i] == x;
  }

  lemma HeadNotInTail(xs: seq<string>, k: nat)
    requires StrictlySorted(xs) && k < |xs|
    ensures xs[k] !in xs[k + 1..]
  {
    var tail := xs[k + 1..];
    forall i | 0 <= i < |tail| ensures tail[i] != xs[k] {
      StrLessTrichotomy(xs[k], xs[k + 1 + i]);
    }
  }

  /** One step of the merge: what is left to count. */
  lemma MergeStep(a: seq<string>, b: seq<string>, i: nat, j: nat)
    requires StrictlySorted(a) && StrictlySorted(b) && i < |a| && j < |b|
    ensures a[i] == b[j] ==> |SetOf(a[i..]) * SetOf(b[j..])| == 1 + |SetOf(a[i + 1..]) * SetOf(b[j + 1..])|
    ensures StrLess(a[i], b[j]) ==> SetOf(a[i..]) * SetOf(b[j..]) == SetOf(a[i + 1..]) * SetOf(b[j..])
    ensures StrLess(b[j], a[i]) ==> SetOf(a[i..]) * SetOf(b[j..]) == SetOf(a[i..]) * SetOf(b[j + 1..])
  {
    assert a[i..] == [a[i]] + a[i + 1..] && b[j..] == [b[j]] + b[j + 1..];
    StrLessTrichotomy(a[i], b[j]);
    StrLessTrichotomy(a[i], a[i]);
    if a[i] in b[j..] { TailStartsAtHead(b, j, a[i]); }
    if b[j] in a[i..] { TailStartsAtHead(a, i, b[j]); }
    HeadNotInTail(a, i);
    if a[i] == b[j] {
      assert SetOf(a[i..]) * SetOf(b[j..]) == {a[i]} + SetOf(a[i + 1..]) * SetOf(b[j + 1..]);
    }
  }

  /** So far `inter` common trigrams have been counted, and the tails hold the others. */
  ghost predicate Merged(a: seq<string>, b: seq<string>, i: nat, j: nat, inter: int)
    requires i <= |a| && j <= |b|
  {
    |SetOf(a) * SetOf(b)| == inter + |SetOf(a[i..]) * SetOf(b[j..])|
  }

  lemma MergeCounts(a: seq<string>, b: seq<string>, i: nat, j: nat, inter: int)
    requires StrictlySorted(a) && StrictlySorted(b) && i < |a| && j < |b| && Merged(a, b, i, j, inter)
    ensures a[i] == b[j] ==> Merged(a, b, i + 1, j + 1, inter + 1)
    ensures a[i] != b[j] && StrLess(a[i], b[j]) ==> Merged(a, b, i + 1, j, inter)
    ensures a[i] != b[j] && !StrLess(a[i], b[j]) ==> Merged(a, b, i, j + 1, inter)
  {
    MergeStep(a, b, i, j);
    StrLessTrichotomy(a[i], b[j]);
  }

  lemma MergedAll(a: seq<string>, b: seq<string>, i: nat, j: nat, inter: int)
    requires i <= |a| && j <= |b| && (i == |a| || j == |b|) && Merged(a, b, i, j, inter)
    ensures inter == |SetOf(a) * SetOf(b)|
  {
    assert SetOf(a[i..]) * SetOf(b[j..]) == {};
  }

  /** The ratio from the lengths of the two lists and the number of common trigrams. */
  lemma RatioFromCounts(a: seq<string>, b: seq<string>)
    requires StrictlySorted(a) && StrictlySorted(b)
    ensures var inter := |SetOf(a) * SetOf(b)|;
      var union := |a| + |b| - inter;
      JaccardOf(SetOf(a), SetOf(b)) == if |a| == 0 || |b| == 0 || union == 0 then 0.0 else inter as real / union as real
  {
    StrictlySortedSize(a);
    StrictlySortedSize(b);
    UnionSize(SetOf(a), SetOf(b));
  }

  /** The linear merge counts what two lists have in common. */
  method CountCommon(a: seq<string>, b: seq<string>) returns (inter: nat)
    requires StrictlySorted(a) && StrictlySorted(b)
    ensures inter == |SetOf(a) * SetOf(b)|
  {
    inter := 0;
    var i, j := 0, 0;
    assert a[0..] == a && b[0..] == b;
    while i < |a| && j < |b|
      invariant 0 <= i <= |a| && 0 <= j <= |b|
      invariant Merged(a, b, i, j, inter)
      decreases |a| - i + |b| - j
    {
      MergeCounts(a, b, i, j, inter);
      if a[i] == b[j] {
        inter, i, j := inter + 1, i + 1, j + 1;
      } else if StrLess(a[i], b[j]) {
        i := i + 1;
      } else {
        j := j + 1;
      }
    }
    MergedAll(a, b, i, j, inter);
  }

  /** The true set ratio. */
  method Jaccard(a: seq<string>, b: seq<string>) returns (score: real)
    requires StrictlySorted(a) && StrictlySorted(b)
    ensures score == JaccardOf(SetOf(a), SetOf(b))
  {
    RatioFromCounts(a, b);
    if |a| == 0 || |b| == 0 { return 0.0; }
    var inter := CountCommon(a, b);
    var union := |a| + |b| - inter;
    if union == 0 { return 0.0; }
    return inter as real / union as real;
  }

  // -------------------------------------------------------------- candidates

  datatype Candidate = Candidate(entityA: string, entityB: string, valueA: string, valueB: string, score: real)

  datatype Strategy = Bucketed(key: string -> string) | Trigram(threshold: real)

  /** What a scan looks at: entities with one value each, and the pairs a user dismissed. */
  datatype Scan = Scan(strategy: Strategy, entities: seq<string>, values: seq<string>,
                       grams: seq<seq<string>>, dismissed: set<(string, string)>)
  {
    ghost predicate Valid() {
      && |entities| == |values| == |grams| && Distinct(entities)
      && (forall i :: 0 <= i < |grams| ==> StrictlySorted(grams[i]))
      && (strategy.Trigram? ==> 0.0 < strategy.threshold <= 1.0)
    }
  }

  /** A pair has one representation regardless of direction. */
  function CanonicalPair(a: string, b: string): (string, string) {
    if StrLeq(a, b) then (a, b) else (b, a)
  }

  ghost function ScoreOf(s: Scan, x: nat, y: nat): real
    requires s.Valid() && x < |s.values| && y < |s.values|
  {
    if s.strategy.Trigram? then JaccardOf(SetOf(s.grams[x]), SetOf(s.grams[y])) else 1.0
  }

  /** The naive meaning of a rule on one pair, dismissals aside. */
  ghost predicate Similar(s: Scan, x: nat, y: nat)
    requires s.Valid() && x < |s.values| && y < |s.values|
  {
    match s.strategy
    case Bucketed(key) => key(s.values[x]) == key(s.values[y])
    case Trigram(threshold) => ScoreOf(s, x, y) >= threshold
  }

  function CandidateOf(s: Scan, x: nat, y: nat, score: real): Candidate
    requires x < |s.entities| && y < |s.entities| && |s.entities| == |s.values|
  {
    var (a, b) := CanonicalPair(s.entities[x], s.entities[y]);
    if a == s.entities[x] then Candidate(a, b, s.values[x], s.values[y], score)
    else Candidate(a, b, s.values[y], s.values[x], score)
  }

  function Dismissed(s: Scan, x: nat, y: nat): bool
    requires x < |s.entities| && y < |s.entities|
  {
    CanonicalPair(s.entities[x], s.entities[y]) in s.dismissed
  }

  datatype Pair = Pair(x: nat, y: nat)

  ghost predicate InScan(s: Scan, p: Pair) {
    p.x < p.y < |s.values|
  }

  /** The report so far covers exactly these index pairs, each once, dismissed ones left out. */
  ghost predicate Reports(s: Scan, out: seq<Candidate>, pairs: set<Pair>)
    requires s.Valid()
  {
    && (forall p :: p in pairs ==> InScan(s, p) && Similar(s, p.x, p.y))
    && (forall c :: c in out ==> exists p :: p in pairs && !Dismissed(s, p.x, p.y) && c == CandidateOf(s, p.x, p.y, ScoreOf(s, p.x, p.y)))
    && (forall p :: p in pairs && !Dismissed(s, p.x, p.y) ==> CandidateOf(s, p.x, p.y, ScoreOf(s, p.x, p.y)) in out)
    && (forall i, j :: 0 <= i < j < |out| ==> (out[i].entityA, out[i].entityB) != (out[j].entityA, out[j].entityB))
  }

  ghost function AllSimilar(s: Scan): set<Pair>
    requires s.Valid()
  {
    set x: nat, y: nat | 0 <= x < |s.values| && 0 <= y < |s.values| && x < y && Similar(s, x, y) :: Pair(x, y)
  }

  /** Distinct index pairs are distinct entity pairs. */
  lemma PairsAreDistinct(s: Scan, p: Pair, q: Pair)
    requires s.Valid() && InScan(s, p) && InScan(s, q) && p != q
    ensures CanonicalPair(s.entities[p.x], s.entities[p.y]) != CanonicalPair(s.entities[q.x], s.entities[q.y])
  {
    StrLessTrichotomy(s.entities[p.x], s.entities[p.y]);
    StrLessTrichotomy(s.entities[q.x], s.entities[q.y]);
  }

  lemma CandidateNamesPair(s: Scan, p: Pair, score: real)
    requires s.Valid() && InScan(s, p)
    ensures var c := CandidateOf(s, p.x, p.y, score); (c.entityA, c.entityB) == CanonicalPair(s.entities[p.x], s.entities[p.y])
  {
  }

  lemma ReportsOneMore(s: Scan, out: seq<Candidate>, pairs: set<Pair>, p: Pair)
    requires s.Valid() && Reports(s, out, pairs) && p !in pairs && InScan(s, p) && Similar(s, p.x, p.y)
    ensures Reports(s, if Dismissed(s, p.x, p.y) then out else out + [CandidateOf(s, p.x, p.y, ScoreOf(s, p.x, p.y))], pairs + {p})
  {
    var c := CandidateOf(s, p.x, p.y, ScoreOf(s, p.x, p.y));
    CandidateNamesPair(s, p, c.score);
    forall i | 0 <= i < |out| ensures (out[i].entityA, out[i].entityB) != (c.entityA, c.entityB) {
      assert out[i] in out;
      var q :| q in pairs && !Dismissed(s, q.x, q.y) && out[i] == CandidateOf(s, q.x, q.y, ScoreOf(s, q.x, q.y));
      CandidateNamesPair(s, q, out[i].score);
      PairsAreDistinct(s, p, q);
    }
  }

  method Add(s: Scan, x: nat, y: nat, score: real, out: seq<Candidate>, ghost pairs: set<Pair>) returns (out': seq<Candidate>)
    requires s.Valid() && Reports(s, out, pairs) && Pair(x, y) !in pairs && InScan(s, Pair(x, y)) && Similar(s, x, y)
    requires score == ScoreOf(s, x, y)
    ensures Reports(s, out', pairs + {Pair(x, y)})
  {
    ReportsOneMore(s, out, pairs, Pair(x, y));
    out' := if Dismissed(s, x, y) then out else out + [CandidateOf(s, x, y, score)];
  }

  // --------------------------------------------------------- inverted index

  /** The values indexed under a trigram. */
  function Holders(index: map<string, seq<nat>>, t: string): seq<nat> {
    if t in index then index[t] else []
  }

  ghost predicate IsIndex(s: Scan, n: nat, index: map<string, seq<nat>>)
    requires s.Valid() && n <= |s.grams|
  {
    forall t, y: nat :: y in Holders(index, t) <==> y < n && t in s.grams[y]
  }

  method BuildIndex(s: Scan) returns (index: map<string, seq<nat>>)
    requires s.Valid()
    ensures IsIndex(s, |s.grams|, index)
  {
    index := map[];
    assert forall t :: Holders(index, t) == [];
    for idx := 0 to |s.grams|
      invariant IsIndex(s, idx, index)
    {
      ghost var before := index;
      var g := s.grams[idx];
      for k := 0 to |g|
        invariant forall t, y: nat :: y in Holders(index, t) <==> y in Holders(before, t) || (y == idx && t in g[..k])
      {
        assert g[..k + 1] == g[..k] + [g[k]];
        ghost var held := index;
        index := index[g[k] := Holders(index, g[k]) + [idx]];
        assert forall t :: Holders(index, t) == if t == g[k] then Holders(held, t) + [idx] else Holders(held, t);
      }
      assert g[..|g|] == g;
    }
  }

  /** The later values that share a trigram with value x. */
  ghost function PartnersOf(s: Scan, x: nat): set<nat>
    requires s.Valid() && x < |s.grams|
  {
    set y: nat | 0 <= y < |s.grams| && x < y && SetOf(s.grams[x]) * SetOf(s.grams[y]) != {}
  }

  method Partners(s: Scan, index: map<string, seq<nat>>, x: nat) returns (partners: set<nat>)
    requires s.Valid() && IsIndex(s, |s.grams|, index) && x < |s.grams|
    ensures partners == PartnersOf(s, x)
  {
    partners := {};
    var g := s.grams[x];
    for k := 0 to |g|
      invariant forall y :: y in partners <==> x < y < |s.grams| && exists i :: 0 <= i < k && g[i] in s.grams[y]
    {
      var holders := Holders(index, g[k]);
      ghost var before := partners;
      for j := 0 to |holders|
        invariant forall y :: y in partners <==> y in before || (x < y && y in holders[..j])
      {
        assert holders[..j + 1] == holders[..j] + [holders[j]];
        if holders[j] > x { partners := partners + {holders[j]}; }
      }
      assert holders[..|holders|] == holders;
    }
    forall y ensures y in partners <==> y in PartnersOf(s, x) {
      if y in partners {
        var i :| 0 <= i < |g| && g[i] in s.grams[y];
        assert g[i] in SetOf(g) * SetOf(s.grams[y]);
      }
      if y in PartnersOf(s, x) {
        var t :| t in SetOf(g) * SetOf(s.grams[y]);
        var i :| 0 <= i < |g| && g[i] == t;
      }
    }
  }

  lemma NoOverlapScoresZero(a: set<string>, b: set<string>)
    ensures a * b == {} ==> JaccardOf(a, b) == 0.0
  {
  }

  /** Pairs with no shared trigram score zero, and no threshold admits them. */
  lemma SimilarSharesATrigram(s: Scan, x: nat, y: nat)
    requires s.Valid() && s.strategy.Trigram? && x < y < |s.values| && Similar(s, x, y)
    ensures y in PartnersOf(s, x) && |s.grams[x]| != 0
  {
    NoOverlapScoresZero(SetOf(s.grams[x]), SetOf(s.grams[y]));
  }

  ghost predicate RowsDone(s: Scan, x: nat, pairs: set<Pair>)
    requires s.Valid()
  {
    forall p: Pair :: p in pairs <==> InScan(s, p) && p.x < x && Similar(s, p.x, p.y)
  }

  /** One row of the trigram scan: partners in whatever order the map yields them. */
  method ScanRow(s: Scan, index: map<string, seq<nat>>, x: nat, out: seq<Candidate>, ghost pairs: set<Pair>)
    returns (out': seq<Candidate>, ghost pairs': set<Pair>)
    requires s.Valid() && s.strategy.Trigram? && IsIndex(s, |s.grams|, index) && x < |s.values|
    requires Reports(s, out, pairs) && RowsDone(s, x, pairs)
    ensures Reports(s, out', pairs') && RowsDone(s, x + 1, pairs')
  {
    out', pairs' := out, pairs;
    var todo := Partners(s, index, x);
    while todo != {}
      invariant todo <= PartnersOf(s, x)
      invariant Reports(s, out', pairs')
      invariant forall p :: p in pairs' <==> p in pairs || (InScan(s, p) && p.x == x && p.y in PartnersOf(s, x) - todo && Similar(s, x, p.y))
      decreases todo
    {
      var y :| y in todo;
      todo := todo - {y};
      var score := Jaccard(s.grams[x], s.grams[y]);
      if score >= s.strategy.threshold {
        out' := Add(s, x, y, score, out', pairs');
        pairs' := pairs' + {Pair(x, y)};
      }
    }
    forall p: Pair ensures p in pairs' <==> InScan(s, p) && p.x < x + 1 && Similar(s, p.x, p.y) {
      if InScan(s, p) && p.x == x && Similar(s, p.x, p.y) { SimilarSharesATrigram(s, x, p.y); }
    }
  }

  /** The trigram scan. `expired(x)` is what the clock says of the time budget at row x. */
  method MatchTrigrams(s: Scan, expired: nat -> bool) returns (out: seq<Candidate>, budgetHit: bool, ghost pairs: set<Pair>)
    requires s.Valid() && s.strategy.Trigram?
    ensures Reports(s, out, pairs) && pairs <= AllSimilar(s)
    ensures !budgetHit ==> pairs == AllSimilar(s)
    ensures budgetHit ==> exists x: nat :: x < |s.values| && x % 512 == 0 && expired(x)
  {
    out, budgetHit, pairs := [], false, {};
    var index := BuildIndex(s);
    for x := 0 to |s.values|
      invariant Reports(s, out, pairs) && RowsDone(s, x, pairs)
    {
      if |s.grams[x]| == 0 {
        forall p | InScan(s, p) && p.x == x ensures !Similar(s, p.x, p.y) { assert SetOf(s.grams[x]) == {}; }
        continue;
      }
      if x % 512 == 0 && expired(x) {
        RowsAreSimilar(s, x, pairs);
        return out, true, pairs;
      }
      out, pairs := ScanRow(s, index, x, out, pairs);
    }
    RowsAreSimilar(s, |s.values|, pairs);
  }

  lemma RowsAreSimilar(s: Scan, x: nat, pairs: set<Pair>)
    requires s.Valid() && RowsDone(s, x, pairs)
    ensures pairs <= AllSimilar(s)
    ensures x == |s.values| ==> pairs == AllSimilar(s)
  {
    forall p: Pair ensures p in pairs ==> p in AllSimilar(s) {}
    forall p | p in AllSimilar(s) && x == |s.values| ensures p in pairs {
      assert InScan(s, p) && Similar(s, p.x, p.y);
    }
  }

  // ----------------------------------------------------------------- buckets

  /** The rows filed under a key, in row order. */
  ghost predicate IsBucket(s: Scan, n: nat, idxs: seq<nat>, key: string)
    requires s.Valid() && s.strategy.Bucketed? && n <= |s.values|
  {
    && (forall i: nat :: i in idxs <==> i < n && s.strategy.key(s.values[i]) == key)
    && (forall a, b :: 0 <= a < b < |idxs| ==> idxs[a] < idxs[b])
  }

  method BuildBuckets(s: Scan) returns (buckets: map<string, seq<nat>>)
    requires s.Valid() && s.strategy.Bucketed?
    ensures forall k :: IsBucket(s, |s.values|, Holders(buckets, k), k)
  {
    buckets := map[];
    for idx := 0 to |s.values|
      invariant forall k :: IsBucket(s, idx, Holders(buckets, k), k)
    {
      var key := s.strategy.key(s.values[idx]);
      ghost var before := buckets;
      buckets := buckets[key := Holders(buckets, key) + [idx]];
      forall k ensures IsBucket(s, idx + 1, Holders(buckets, k), k) {
        assert IsBucket(s, idx, Holders(before, k), k);
        BucketOneMore(s, idx, Holders(before, k), k);
      }
    }
  }

  lemma BucketOneMore(s: Scan, n: nat, idxs: seq<nat>, key: string)
    requires s.Valid() && s.strategy.Bucketed? && n < |s.values| && IsBucket(s, n, idxs, key)
    ensures IsBucket(s, n + 1, if s.strategy.key(s.values[n]) == key then idxs + [n] else idxs, key)
  {
    forall a | 0 <= a < |idxs| ensures idxs[a] < n { assert idxs[a] in idxs; }
  }

  /** The pairs the inner loop visits for its x up to y, and all those of the rows before x. */
  function RowPairs(idxs: seq<nat>, x: nat, y: nat): set<Pair>
    requires x < y <= |idxs|
  {
    set j | x < j < y :: Pair(idxs[x], idxs[j])
  }

  function PairsBefore(idxs: seq<nat>, x: nat): set<Pair>
    requires x <= |idxs|
  {
    set i, j | 0 <= i < x && i < j < |idxs| :: Pair(idxs[i], idxs[j])
  }

  lemma PairsOneMoreRow(idxs: seq<nat>, x: nat)
    requires x < |idxs|
    ensures PairsBefore(idxs, x + 1) == PairsBefore(idxs, x) + RowPairs(idxs, x, |idxs|)
  {
    forall p | p in PairsBefore(idxs, x) ensures p in PairsBefore(idxs, x + 1) {
      var i, j :| 0 <= i < x && i < j < |idxs| && p == Pair(idxs[i], idxs[j]);
    }
    forall p | p in RowPairs(idxs, x, |idxs|) ensures p in PairsBefore(idxs, x + 1) {
      var j :| x < j < |idxs| && p == Pair(idxs[x], idxs[j]);
    }
  }

  /** One row of a bucket: x with everything behind it. */
  method ScanBucketRow(s: Scan, key: string, idxs: seq<nat>, x: nat, out: seq<Candidate>, ghost pairs: set<Pair>)
    returns (out': seq<Candidate>)
    requires s.Valid() && s.strategy.Bucketed? && IsBucket(s, |s.values|, idxs, key) && Reports(s, out, pairs)
    requires x < |idxs| && forall p :: p in pairs ==> p.x != idxs[x]
    ensures Reports(s, out', pairs + RowPairs(idxs, x, |idxs|))
  {
    out' := out;
    assert pairs + RowPairs(idxs, x, x + 1) == pairs;
    for y := x + 1 to |idxs|
      invariant Reports(s, out', pairs + RowPairs(idxs, x, y))
    {
      BucketPair(s, key, idxs, x, y);
      RowOneMore(s, key, idxs, x, y, pairs);
      out' := Add(s, idxs[x], idxs[y], 1.0, out', pairs + RowPairs(idxs, x, y));
    }
  }

  lemma BucketPair(s: Scan, key: string, idxs: seq<nat>, x: nat, y: nat)
    requires s.Valid() && s.strategy.Bucketed? && IsBucket(s, |s.values|, idxs, key) && x < y < |idxs|
    ensures InScan(s, Pair(idxs[x], idxs[y])) && Similar(s, idxs[x], idxs[y]) && ScoreOf(s, idxs[x], idxs[y]) == 1.0
  {
    assert idxs[x] in idxs && idxs[y] in idxs;
  }

  lemma RowOneMore(s: Scan, key: string, idxs: seq<nat>, x: nat, y: nat, pairs: set<Pair>)
    requires s.Valid() && s.strategy.Bucketed? && IsBucket(s, |s.values|, idxs, key) && x < y < |idxs|
    requires forall p :: p in pairs ==> p.x != idxs[x]
    ensures var p := Pair(idxs[x], idxs[y]); var visited := pairs + RowPairs(idxs, x, y);
      p !in visited && pairs + RowPairs(idxs, x, y + 1) == visited + {p}
  {
    assert RowPairs(idxs, x, y + 1) == RowPairs(idxs, x, y) + {Pair(idxs[x], idxs[y])};
  }

  /** All pairs of a bucket, in the order of the two nested loops. */
  method ScanBucket(s: Scan, key: string, idxs: seq<nat>, out: seq<Candidate>, ghost pairs: set<Pair>)
    returns (out': seq<Candidate>, ghost pairs': set<Pair>)
    requires s.Valid() && s.strategy.Bucketed? && IsBucket(s, |s.values|, idxs, key) && Reports(s, out, pairs)
    requires forall p :: p in pairs ==> s.strategy.key(s.values[p.x]) != key
    ensures Reports(s, out', pairs')
    ensures forall p: Pair :: p in pairs' <==> p in pairs || (InScan(s, p) && Similar(s, p.x, p.y) && s.strategy.key(s.values[p.x]) == key)
  {
    out' := out;
    assert pairs + PairsBefore(idxs, 0) == pairs;
    for x := 0 to |idxs|
      invariant Reports(s, out', pairs + PairsBefore(idxs, x))
    {
      assert idxs[x] in idxs;
      PairsOneMoreRow(idxs, x);
      assert pairs + PairsBefore(idxs, x + 1) == pairs + PairsBefore(idxs, x) + RowPairs(idxs, x, |idxs|);
      out' := ScanBucketRow(s, key, idxs, x, out', pairs + PairsBefore(idxs, x));
    }
    pairs' := pairs + PairsBefore(idxs, |idxs|);
    forall p: Pair ensures p in PairsBefore(idxs, |idxs|) <==>
        InScan(s, p) && Similar(s, p.x, p.y) && s.strategy.key(s.values[p.x]) == key {
      InBucketAgrees(s, key, idxs, p);
    }
  }

  /** The similar pairs under a key are the increasing pairs of its bucket. */
  lemma InBucketAgrees(s: Scan, key: string, idxs: seq<nat>, p: Pair)
    requires s.Valid() && s.strategy.Bucketed? && IsBucket(s, |s.values|, idxs, key)
    ensures (exists i, j :: 0 <= i < |idxs| && i < j < |idxs| && p == Pair(idxs[i], idxs[j])) <==>
      InScan(s, p) && Similar(s, p.x, p.y) && s.strategy.key(s.values[p.x]) == key
  {
    if i, j :| 0 <= i < j < |idxs| && p == Pair(idxs[i], idxs[j]) {
      assert idxs[i] in idxs && idxs[j] in idxs;
    }
    if InScan(s, p) && Similar(s, p.x, p.y) && s.strategy.key(s.values[p.x]) == key {
      assert p.x in idxs && p.y in idxs;
      var i :| 0 <= i < |idxs| && idxs[i] == p.x;
      var j :| 0 <= j < |idxs| && idxs[j] == p.y;
      assert i < j;
    }
  }

  /** The exact and case-insensitive strategies: buckets by normalised key, walked in any order. */
  method MatchBuckets(s: Scan) returns (out: seq<Candidate>)
    requires s.Valid() && s.strategy.Bucketed?
    ensures Reports(s, out, AllSimilar(s))
  {
    var buckets := BuildBuckets(s);
    out := [];
    ghost var pairs: set<Pair> := {};
    var todo := buckets.Keys;
    while todo != {}
      invariant todo <= buckets.Keys && Reports(s, out, pairs)
      invariant forall p: Pair :: p in pairs <==> InScan(s, p) && Similar(s, p.x, p.y) && s.strategy.key(s.values[p.x]) in buckets.Keys - todo
      decreases todo
    {
      var key :| key in todo;
      todo := todo - {key};
      out, pairs := ScanBucket(s, key, Holders(buckets, key), out, pairs);
    }
    forall p: Pair | p in AllSimilar(s) ensures p in pairs {
      var key := s.strategy.key(s.values[p.x]);
      assert IsBucket(s, |s.values|, Holders(buckets, key), key);
      assert p.x in Holders(buckets, key);
      assert InScan(s, p);
    }
    assert pairs == AllSimilar(s);
  }

  // ------------------------------------------------------------------ report

  /** Highest score first, then by the two entity ids. */
  predicate ReportLeq(c: Candidate, d: Candidate) {
    c.score > d.score || (c.score == d.score && (StrLess(c.entityA, d.entityA) || (c.entityA == d.entityA && StrLeq(c.entityB, d.entityB))))
  }

  lemma ReportLeqIsPreorder()
    ensures TotalPreorder(ReportLeq)
  {
    forall c, d ensures ReportLeq(c, d) || ReportLeq(d, c) {
      StrLessTrichotomy(c.entityA, d.entityA);
      StrLessTrichotomy(c.entityB, d.entityB);
    }
    forall c, d, e | ReportLeq(c, d) && ReportLeq(d, e) ensures ReportLeq(c, e) {
      StrLessTrichotomy(c.entityA, d.entityA);
      StrLessTrichotomy(d.entityA, e.entityA);
      StrLessTrichotomy(c.entityA, e.entityA);
      if StrLess(c.entityA, d.entityA) && StrLess(d.entityA, e.entityA) { StrLeqTransitive(c.entityA, d.entityA, e.entityA); }
      if c.entityA == d.entityA == e.entityA && c.score == d.score == e.score { StrLeqTransitive(c.entityB, d.entityB, e.entityB); }
    }
  }

  lemma TiedNamesSamePair(c: Candidate, d: Candidate)
    requires Tied(c, d, ReportLeq)
    ensures c.entityA == d.entityA && c.entityB == d.entityB && c.score == d.score
  {
    StrLessTrichotomy(c.entityA, d.entityA);
    StrLessTrichotomy(c.entityB, d.entityB);
  }

  lemma ReportedOnce(s: Scan, xs: seq<Candidate>, ys: seq<Candidate>, pairs: set<Pair>)
    requires s.Valid() && Reports(s, xs, pairs) && Reports(s, ys, pairs)
    ensures forall c :: c in xs ==> c in ys
  {
    forall c | c in xs ensures c in ys {
      var p :| p in pairs && !Dismissed(s, p.x, p.y) && c == CandidateOf(s, p.x, p.y, ScoreOf(s, p.x, p.y));
    }
  }

  /** Members of a report that tie are one member, so each class has at most one. */
  lemma {:induction false} ClassIsOne(xs: seq<Candidate>, z: Candidate)
    requires forall i, j :: 0 <= i < j < |xs| ==> (xs[i].entityA, xs[i].entityB) != (xs[j].entityA, xs[j].entityB)
    ensures |Class(xs, z, ReportLeq)| <= 1
  {
    if |xs| == 0 {
    } else {
      ClassIsOne(xs[1..], z);
      var rest := Class(xs[1..], z, ReportLeq);
      if Tied(xs[0], z, ReportLeq) && |rest| != 0 {
        assert rest[0] in rest;
        var k :| 0 <= k < |xs[1..]| && xs[1..][k] == rest[0];
        assert xs[1..][k] == xs[k + 1];
        TiedNamesSamePair(xs[0], z);
        TiedNamesSamePair(rest[0], z);
      }
    }
  }

  lemma SameSmallSeq<T>(a: seq<T>, b: seq<T>)
    requires |a| <= 1 && |b| <= 1 && forall c :: c in a <==> c in b
    ensures a == b
  {
    if |a| == 1 { assert a[0] in a; }
    if |b| == 1 { assert b[0] in b; }
  }

  /** The sorted report does not depend on the order maps were walked in. */
  lemma ReportIgnoresMapOrder(s: Scan, xs: seq<Candidate>, ys: seq<Candidate>, pairs: set<Pair>)
    requires s.Valid() && Reports(s, xs, pairs) && Reports(s, ys, pairs)
    ensures StableSort(xs, ReportLeq) == StableSort(ys, ReportLeq)
  {
    ReportLeqIsPreorder();
    forall z ensures Class(xs, z, ReportLeq) == Class(ys, z, ReportLeq) {
      ClassIsOne(xs, z);
      ClassIsOne(ys, z);
      ReportedOnce(s, xs, ys, pairs);
      ReportedOnce(s, ys, xs, pairs);
      SameSmallSeq(Class(xs, z, ReportLeq), Class(ys, z, ReportLeq));
    }
    StableSortForgetsShuffles(xs, ys, ReportLeq);
  }

  /** A whole scan: the report is THE sorted list of the undismissed pairs the naive meaning
      admits - any naive listing of them sorts to it - or, past the budget, of some of them. */
  method RunScan(s: Scan, expired: nat -> bool) returns (report: seq<Candidate>, truncated: bool, ghost pairs: set<Pair>)
    requires s.Valid()
    ensures pairs <= AllSimilar(s) && (!truncated ==> pairs == AllSimilar(s))
    ensures s.strategy.Bucketed? ==> !truncated
    ensures forall naive :: Reports(s, naive, pairs) ==> report == StableSort(naive, ReportLeq)
    ensures exists found :: Reports(s, found, pairs) && report == StableSort(found, ReportLeq)
  {
    var out: seq<Candidate>;
    if s.strategy.Bucketed? {
      out := MatchBuckets(s);
      truncated, pairs := false, AllSimilar(s);
    } else {
      out, truncated, pairs := MatchTrigrams(s, expired);
    }
    report := StableSort(out, ReportLeq);
    forall naive | Reports(s, naive, pairs) ensures report == StableSort(naive, ReportLeq) {
      ReportIgnoresMapOrder(s, out, naive, pairs);
    }
  }

  // ------------------------------------------------------------ from the values

  /** The naive score of two values; lower-casing and word splitting are the library's. */
  ghost function ScoreOfValues(strategy: Strategy, wordsOf: string -> seq<string>, a: string, b: string): real {
    if strategy.Trigram? then JaccardOf(GramsOf(wordsOf(a)), GramsOf(wordsOf(b))) else 1.0
  }

  /** The naive meaning of a rule on two values. */
  ghost predicate Alike(strategy: Strategy, wordsOf: string -> seq<string>, a: string, b: string) {
    match strategy
    case Bucketed(key) => key(a) == key(b)
    case Trigram(threshold) => ScoreOfValues(strategy, wordsOf, a, b) >= threshold
  }

  /** The scan's trigrams are those of its values. */
  ghost predicate GramsMatch(s: Scan, wordsOf: string -> seq<string>) {
    |s.grams| == |s.values| &&
    (s.strategy.Trigram? ==> forall i :: 0 <= i < |s.grams| ==> SetOf(s.grams[i]) == GramsOf(wordsOf(s.values[i])))
  }

  lemma SimilarIsAlike(s: Scan, wordsOf: string -> seq<string>, x: nat, y: nat)
    requires s.Valid() && GramsMatch(s, wordsOf) && x < |s.values| && y < |s.values|
    ensures Similar(s, x, y) <==> Alike(s.strategy, wordsOf, s.values[x], s.values[y])
    ensures ScoreOf(s, x, y) == ScoreOfValues(s.strategy, wordsOf, s.values[x], s.values[y])
  {
  }

  method GramsOfAll(strategy: Strategy, values: seq<string>, wordsOf: string -> seq<string>) returns (grams: seq<seq<string>>)
    ensures |grams| == |values| && forall i :: 0 <= i < |grams| ==> StrictlySorted(grams[i])
    ensures strategy.Trigram? ==> forall i :: 0 <= i < |grams| ==> SetOf(grams[i]) == GramsOf(wordsOf(values[i]))
  {
    grams := [];
    for i := 0 to |values|
      invariant |grams| == i && forall j :: 0 <= j < i ==> StrictlySorted(grams[j])
      invariant strategy.Trigram? ==> forall j :: 0 <= j < i ==> SetOf(grams[j]) == GramsOf(wordsOf(values[j]))
    {
      var g := [];
      if strategy.Trigram? { g := Trigrams(wordsOf(values[i])); }
      grams := grams + [g];
    }
  }

  /** A candidate is what the naive meaning says of one pair of entities that nobody dismissed. */
  ghost predicate IsPairOf(s: Scan, wordsOf: string -> seq<string>, p: Pair, c: Candidate)
    requires s.Valid()
  {
    && InScan(s, p) && !Dismissed(s, p.x, p.y) && Alike(s.strategy, wordsOf, s.values[p.x], s.values[p.y])
    && c == CandidateOf(s, p.x, p.y, ScoreOfValues(s.strategy, wordsOf, s.values[p.x], s.values[p.y]))
  }

  lemma ReportsTheValues(s: Scan, wordsOf: string -> seq<string>, found: seq<Candidate>, pairs: set<Pair>, report: seq<Candidate>)
    requires s.Valid() && GramsMatch(s, wordsOf) && Reports(s, found, pairs) && pairs <= AllSimilar(s)
    requires multiset(report) == multiset(found)
    ensures forall c :: c in report ==> exists p :: IsPairOf(s, wordsOf, p, c)
    ensures pairs == AllSimilar(s) ==> forall p, c :: IsPairOf(s, wordsOf, p, c) ==> c in report
  {
    forall p: Pair | InScan(s, p)
      ensures Similar(s, p.x, p.y) <==> Alike(s.strategy, wordsOf, s.values[p.x], s.values[p.y])
      ensures ScoreOf(s, p.x, p.y) == ScoreOfValues(s.strategy, wordsOf, s.values[p.x], s.values[p.y])
    {
      SimilarIsAlike(s, wordsOf, p.x, p.y);
    }
    forall c | c in report ensures exists p :: IsPairOf(s, wordsOf, p, c) {
      assert c in multiset(report) && c in found;
      var p :| p in pairs && !Dismissed(s, p.x, p.y) && c == CandidateOf(s, p.x, p.y, ScoreOf(s, p.x, p.y));
      assert IsPairOf(s, wordsOf, p, c);
    }
    if pairs == AllSimilar(s) {
      forall p, c | IsPairOf(s, wordsOf, p, c) ensures c in report {
        assert p in AllSimilar(s);
        assert c in multiset(found);
      }
    }
  }

  lemma SortedReportIsDistinct(s: Scan, found: seq<Candidate>, pairs: set<Pair>, report: seq<Candidate>)
    requires s.Valid() && Reports(s, found, pairs) && multiset(report) == multiset(found)
    ensures Distinct(report)
  {
    forall c | c in report ensures multiset(report)[c] == 1 {
      assert c in multiset(report) && Distinct(found);
      DistinctCount(found, c);
    }
    CountedOnceDistinct(report);
  }

  /** A candidate, said of the lists the scan was given: each entity beside its own value, the smaller id
      first, a pair nobody dismissed, alike under the rule, with the score the rule gives the two values. */
  ghost predicate IsCandidate(strategy: Strategy, entities: seq<string>, values: seq<string>, dismissed: set<(string, string)>,
                              wordsOf: string -> seq<string>, c: Candidate, i: nat, j: nat)
    requires |entities| == |values|
  {
    && i < |entities| && j < |entities|
    && c.entityA == entities[i] && c.valueA == values[i] && c.entityB == entities[j] && c.valueB == values[j]
    && StrLess(c.entityA, c.entityB) && (c.entityA, c.entityB) !in dismissed
    && (match strategy
        case Bucketed(key) => key(values[i]) == key(values[j]) && c.score == 1.0
        case Trigram(threshold) =>
          var x, y := GramsOf(wordsOf(values[i])), GramsOf(wordsOf(values[j]));
          x != {} && y != {} && c.score == |x * y| as real / |x + y| as real >= threshold)
  }

  lemma CandidateIsPairOf(s: Scan, wordsOf: string -> seq<string>, c: Candidate, i: nat, j: nat)
    requires s.Valid() && IsCandidate(s.strategy, s.entities, s.values, s.dismissed, wordsOf, c, i, j)
    ensures IsPairOf(s, wordsOf, if i < j then Pair(i, j) else Pair(j, i), c)
  {
    StrLessTrichotomy(s.entities[i], s.entities[j]);
    var x, y := GramsOf(wordsOf(s.values[i])), GramsOf(wordsOf(s.values[j]));
    assert x * y == y * x && x + y == y + x;
  }

  lemma PairOfIsCandidate(s: Scan, wordsOf: string -> seq<string>, p: Pair, c: Candidate)
    requires s.Valid() && IsPairOf(s, wordsOf, p, c)
    ensures var (i, j) := if StrLess(s.entities[p.x], s.entities[p.y]) then (p.x, p.y) else (p.y, p.x);
      IsCandidate(s.strategy, s.entities, s.values, s.dismissed, wordsOf, c, i, j)
  {
    StrLessTrichotomy(s.entities[p.x], s.entities[p.y]);
    var x, y := GramsOf(wordsOf(s.values[p.x])), GramsOf(wordsOf(s.values[p.y]));
    assert x * y == y * x && x + y == y + x;
  }

  lemma ReportsTheCandidates(s: Scan, wordsOf: string -> seq<string>, report: seq<Candidate>, all: bool)
    requires s.Valid() && forall c :: c in report ==> exists p :: IsPairOf(s, wordsOf, p, c)
    requires all ==> forall p, c :: IsPairOf(s, wordsOf, p, c) ==> c in report
    ensures forall c :: c in report ==> exists i: nat, j: nat :: IsCandidate(s.strategy, s.entities, s.values, s.dismissed, wordsOf, c, i, j)
    ensures all ==> forall c, i: nat, j: nat :: IsCandidate(s.strategy, s.entities, s.values, s.dismissed, wordsOf, c, i, j) ==> c in report
  {
    forall c | c in report ensures exists i: nat, j: nat :: IsCandidate(s.strategy, s.entities, s.values, s.dismissed, wordsOf, c, i, j) {
      var p :| IsPairOf(s, wordsOf, p, c);
      PairOfIsCandidate(s, wordsOf, p, c);
    }
    if all {
      forall c, i: nat, j: nat | IsCandidate(s.strategy, s.entities, s.values, s.dismissed, wordsOf, c, i, j) ensures c in report {
        CandidateIsPairOf(s, wordsOf, c, i, j);
      }
    }
  }

  /** Scores never go up along the report, and equal scores go by the two entity ids. */
  ghost predicate Ranked(report: seq<Candidate>) {
    forall i, j :: 0 <= i < j < |report| ==>
      || report[i].score > report[j].score
      || (report[i].score == report[j].score &&
          (StrLess(report[i].entityA, report[j].entityA) ||
           (report[i].entityA == report[j].entityA && (StrLess(report[i].entityB, report[j].entityB) || report[i].entityB == report[j].entityB))))
  }

  lemma SortedIsRanked(report: seq<Candidate>)
    requires Sorted(report, ReportLeq)
    ensures Ranked(report)
  {
    forall i, j | 0 <= i < j < |report| { StrLessTrichotomy(report[i].entityB, report[j].entityB); }
  }

  /** The four trigrams of a three-letter word. */
  lemma GramsOfCat()
    ensures GramsOf(["cat"]) == {"  c", " ca", "cat", "at "}
  {
    var words := ["cat"];
    assert Padded("cat") == "  cat ";
    assert Gram(words[0], 0) == "  c" && Gram(words[0], 1) == " ca" && Gram(words[0], 2) == "cat" && Gram(words[0], 3) == "at ";
    forall g ensures g in GramsOf(words) <==> g in {"  c", " ca", "cat", "at "} {
      if g in GramsOf(words) {
        var w, k :| 0 <= w < |words| && 0 <= k <= |words[w]| && g == Gram(words[w], k);
      }
    }
  }

  /** From the values to the report: every candidate is a pair the naive meaning calls for, and unless the
      time budget ran out every such pair is a candidate. */
  method ScanValues(strategy: Strategy, entities: seq<string>, values: seq<string>, dismissed: set<(string, string)>,
                    wordsOf: string -> seq<string>, expired: nat -> bool)
    returns (report: seq<Candidate>, truncated: bool, ghost s: Scan)
    requires |entities| == |values| && Distinct(entities) && (strategy.Trigram? ==> 0.0 < strategy.threshold <= 1.0)
    ensures s.Valid() && s.strategy == strategy && s.entities == entities && s.values == values && s.dismissed == dismissed
    ensures forall c :: c in report ==> exists p :: IsPairOf(s, wordsOf, p, c)
    ensures !truncated ==> forall p, c :: IsPairOf(s, wordsOf, p, c) ==> c in report
    ensures forall c :: c in report ==> exists i: nat, j: nat :: IsCandidate(strategy, entities, values, dismissed, wordsOf, c, i, j)
    ensures !truncated ==> forall c, i: nat, j: nat :: IsCandidate(strategy, entities, values, dismissed, wordsOf, c, i, j) ==> c in report
    ensures Sorted(report, ReportLeq) && Ranked(report) && Distinct(report)
  {
    var grams := GramsOfAll(strategy, values, wordsOf);
    var scan := Scan(strategy, entities, values, grams, dismissed);
    s := scan;
    ghost var pairs;
    report, truncated, pairs := RunScan(scan, expired);
    ghost var found :| Reports(s, found, pairs) && report == StableSort(found, ReportLeq);
    ReportsTheValues(s, wordsOf, found, pairs, report);
    SortedReportIsDistinct(s, found, pairs, report);
    ReportLeqIsPreorder();
    StableSortIsStableSort(found, ReportLeq);
    SortedIsRanked(report);
    ReportsTheCandidates(s, wordsOf, report, !truncated);
  }
}
