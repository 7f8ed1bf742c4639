/**
  Orders and stable sorting.

  Several parts of the system promise that their output does not depend on the
  order in which a hash map was walked, or that re-ordering work for the sake of
  locks cannot be observed.  Both promises rest on one fact about the library's
  stable sort: its result is the ONLY list that is sorted and keeps, class by
  class, the order of the input.
 */
module Ordering {

  // ---------------------------------------------------------------- strings

  /** The order `<` puts on strings: code point by code point. */
  predicate StrLess(a: string, b: string) {
    |b| != 0 && (|a| == 0 || a[0] < b[0] || (a[0] == b[0] && StrLess(a[1..], b[1..])))
  }

  predicate StrLeq(a: string, b: string) {
    !StrLess(b, a)
  }

  lemma {:induction false} StrLessTrichotomy(a: string, b: string)
    ensures !(StrLess(a, b) && StrLess(b, a))
    ensures a != b ==> StrLess(a, b) || StrLess(b, a)
    ensures a == b ==> !StrLess(a, b)
  {
    if |a| != 0 && |b| != 0 && a[0] == b[0] {
      StrLessTrichotomy(a[1..], b[1..]);
      assert a == [a[0]] + a[1..] && b == [b[0]] + b[1..];
    }
  }

  lemma {:induction false} StrLeqTransitive(a: string, b: string, c: string)
    requires StrLeq(a, b) && StrLeq(b, c)
    ensures StrLeq(a, c)
  {
    if StrLess(c, a) && |c| != 0 && |b| != 0 && c[0] == a[0] && b[0] == a[0] {
      StrLeqTransitive(a[1..], b[1..], c[1..]);
    }
  }

  /** It is the lexicographic order: a proper prefix comes first, and otherwise the first difference decides. */
  lemma {:induction false} StrLessIsLexicographic(a: string, b: string)
    ensures StrLess(a, b) <==> a < b || exists k :: 0 <= k < |a| && k < |b| && a[..k] == b[..k] && a[k] < b[k]
  {
    if |a| != 0 && |b| != 0 && a[0] == b[0] {
      StrLessIsLexicographic(a[1..], b[1..]);
      assert a == [a[0]] + a[1..] && b == [b[0]] + b[1..];
      if k :| 0 <= k < |a[1..]| && k < |b[1..]| && a[1..][..k] == b[1..][..k] && a[1..][k] < b[1..][k] {
        assert a[..k + 1] == [a[0]] + a[1..][..k] && b[..k + 1] == [b[0]] + b[1..][..k];
      }
      if k :| 0 <= k < |a| && k < |b| && a[..k] == b[..k] && a[k] < b[k] {
        assert a[1..][..k - 1] == a[..k][1..] && b[1..][..k - 1] == b[..k][1..];
      }
    }
  }

  // -------------------------------------------------------- total preorders

  /** The comparison a stable sort is given: `le(x, y)` is "y is not before x". */
  ghost predicate TotalPreorder<T(!new)>(le: (T, T) -> bool) {
    && (forall x, y :: le(x, y) || le(y, x))
    && (forall x, y, z :: le(x, y) && le(y, z) ==> le(x, z))
  }

  ghost predicate Sorted<T>(xs: seq<T>, le: (T, T) -> bool) {
    forall i, j :: 0 <= i < j < |xs| ==> le(xs[i], xs[j])
  }

  predicate Tied<T>(x: T, y: T, le: (T, T) -> bool) {
    le(x, y) && le(y, x)
  }

  /** The elements of `xs` that tie with `z`, in the order `xs` has them. */
  function Class<T(!new)>(xs: seq<T>, z: T, le: (T, T) -> bool): (r: seq<T>)
    ensures forall x :: x in r <==> x in xs && Tied(x, z, le)
  {
    if |xs| == 0 then []
    else (if Tied(xs[0], z, le) then [xs[0]] else []) + Class(xs[1..], z, le)
  }

  lemma {:induction false} ClassConcat<T(!new)>(xs: seq<T>, ys: seq<T>, z: T, le: (T, T) -> bool)
    ensures Class(xs + ys, z, le) == Class(xs, z, le) + Class(ys, z, le)
  {
    if |xs| == 0 {
      assert xs + ys == ys;
    } else {
      assert (xs + ys)[1..] == xs[1..] + ys;
      ClassConcat(xs[1..], ys, z, le);
    }
  }

  // ------------------------------------------------------------ stable sort

  /** What `sort.SliceStable` promises of its result. */
  ghost predicate IsStableSort<T(!new)>(xs: seq<T>, ys: seq<T>, le: (T, T) -> bool) {
    && Sorted(ys, le)
    && (forall z :: Class(ys, z, le) == Class(xs, z, le))
  }

  function Insert<T>(x: T, ys: seq<T>, le: (T, T) -> bool): (r: seq<T>)
    ensures multiset(r) == multiset{x} + multiset(ys)
  {
    if |ys| == 0 || le(x, ys[0]) then
      assert [x] + ys == [x] + ys; [x] + ys
    else
      assert ys == [ys[0]] + ys[1..];
      [ys[0]] + Insert(x, ys[1..], le)
  }

  /** The library sort the code calls. */
  function StableSort<T>(xs: seq<T>, le: (T, T) -> bool): (r: seq<T>)
    ensures multiset(r) == multiset(xs)
  {
    if |xs| == 0 then []
    else
      assert xs == [xs[0]] + xs[1..];
      Insert(xs[0], StableSort(xs[1..], le), le)
  }

  lemma {:induction false} InsertSorts<T(!new)>(x: T, ys: seq<T>, le: (T, T) -> bool)
    requires TotalPreorder(le) && Sorted(ys, le)
    ensures Sorted(Insert(x, ys, le), le)
  {
    if |ys| == 0 || le(x, ys[0]) {
    } else {
      var tail := Insert(x, ys[1..], le);
      InsertSorts(x, ys[1..], le);
      forall j | 0 <= j < |tail| ensures le(ys[0], tail[j]) {
        assert tail[j] in multiset(tail);
        if tail[j] != x {
          var k :| 0 <= k < |ys[1..]| && ys[1..][k] == tail[j];
        }
      }
    }
  }

  /** An element's own contribution to a class. */
  function One<T>(x: T, z: T, le: (T, T) -> bool): seq<T> {
    if Tied(x, z, le) then [x] else []
  }

  lemma ClassCons<T(!new)>(x: T, xs: seq<T>, z: T, le: (T, T) -> bool)
    ensures Class([x] + xs, z, le) == One(x, z, le) + Class(xs, z, le)
  {
    assert ([x] + xs)[1..] == xs;
  }

  lemma SwapWithEmpty<T>(a: seq<T>, b: seq<T>, c: seq<T>)
    requires a == [] || b == []
    ensures a + (b + c) == b + (a + c)
  {
  }

  lemma TiedTransitive<T(!new)>(x: T, y: T, z: T, le: (T, T) -> bool)
    requires TotalPreorder(le) && Tied(x, z, le) && Tied(y, z, le)
    ensures le(x, y)
  {
  }

  lemma {:induction false} InsertKeepsClass<T(!new)>(x: T, ys: seq<T>, z: T, le: (T, T) -> bool)
    requires TotalPreorder(le)
    ensures Class(Insert(x, ys, le), z, le) == Class([x] + ys, z, le)
  {
    if |ys| == 0 || le(x, ys[0]) {
    } else {
      var y, rest := ys[0], ys[1..];
      InsertKeepsClass(x, rest, z, le);
      ClassCons(y, Insert(x, rest, le), z, le);
      ClassCons(x, rest, z, le);
      assert ys == [y] + rest;
      ClassCons(y, rest, z, le);
      ClassCons(x, ys, z, le);
      if Tied(x, z, le) && Tied(y, z, le) { TiedTransitive(x, y, z, le); }
      SwapWithEmpty(One(y, z, le), One(x, z, le), Class(rest, z, le));
    }
  }

  lemma {:induction false} StableSortIsStableSort<T(!new)>(xs: seq<T>, le: (T, T) -> bool)
    requires TotalPreorder(le)
    ensures IsStableSort(xs, StableSort(xs, le), le)
  {
    if |xs| == 0 {
    } else {
      var rest := StableSort(xs[1..], le);
      StableSortIsStableSort(xs[1..], le);
      InsertSorts(xs[0], rest, le);
      forall z ensures Class(StableSort(xs, le), z, le) == Class(xs, z, le) {
        InsertKeepsClass(xs[0], rest, z, le);
        assert ([xs[0]] + rest)[1..] == rest;
        assert Class([xs[0]] + rest, z, le) == Class(xs, z, le);
      }
    }
  }

  lemma HeadHasClass<T(!new)>(xs: seq<T>, le: (T, T) -> bool)
    requires TotalPreorder(le) && |xs| != 0
    ensures Class(xs, xs[0], le) != []
  {
    assert Tied(xs[0], xs[0], le);
  }

  /** There is only one stable sort of a list. */
  lemma {:induction false} StableSortUnique<T(!new)>(xs: seq<T>, ys: seq<T>, zs: seq<T>, le: (T, T) -> bool)
    requires TotalPreorder(le)
    requires IsStableSort(xs, ys, le) && IsStableSort(xs, zs, le)
    ensures ys == zs
    decreases |ys|
  {
    if |ys| == 0 {
      assert forall z :: Class(zs, z, le) == Class(xs, z, le) == Class(ys, z, le) == [];
      if |zs| != 0 { HeadHasClass(zs, le); }
    } else {
      SameHead(xs, ys, zs, le);
      var h := ys[0];
      forall z ensures Class(ys[1..], z, le) == Class(zs[1..], z, le) {
        assert Class(ys, z, le) == Class(xs, z, le) == Class(zs, z, le);
        var first := if Tied(h, z, le) then [h] else [];
        assert Class(ys[1..], z, le) == (first + Class(ys[1..], z, le))[|first|..];
        assert Class(zs[1..], z, le) == (first + Class(zs[1..], z, le))[|first|..];
      }
      StableSortUnique(ys[1..], ys[1..], zs[1..], le);
      assert ys == [h] + ys[1..] && zs == [h] + zs[1..];
    }
  }

  lemma SameHead<T(!new)>(xs: seq<T>, ys: seq<T>, zs: seq<T>, le: (T, T) -> bool)
    requires TotalPreorder(le) && |ys| != 0
    requires IsStableSort(xs, ys, le) && IsStableSort(xs, zs, le)
    ensures |zs| != 0 && zs[0] == ys[0]
  {
    var h := ys[0];
    assert Class(ys, h, le) == Class(xs, h, le) == Class(zs, h, le);
    assert Class(ys, h, le)[0] == h;
    assert h in Class(zs, h, le);
    var k := zs[0];
    assert Class(ys, k, le) == Class(xs, k, le) == Class(zs, k, le);
    assert k in Class(ys, k, le);
    assert le(h, k) && le(k, h);
    assert Class(zs, h, le)[0] == k;
  }

  /** Two lists that agree class by class sort to the same list: whatever shuffled
      elements of different classes against each other leaves no trace. */
  lemma StableSortForgetsShuffles<T(!new)>(xs: seq<T>, ys: seq<T>, le: (T, T) -> bool)
    requires TotalPreorder(le)
    requires forall z :: Class(xs, z, le) == Class(ys, z, le)
    ensures StableSort(xs, le) == StableSort(ys, le)
  {
    StableSortIsStableSort(xs, le);
    StableSortIsStableSort(ys, le);
    StableSortUnique(xs, StableSort(xs, le), StableSort(ys, le), le);
  }
}
