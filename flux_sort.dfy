/**
  `Flux.sort(Comparator.comparing(key).reversed())`: the items are buffered
  and re-emitted from the highest key to the lowest. Java's list sort is
  stable, and reversing the comparator keeps items with equal keys in source
  order; the model is an insertion sort with the same outcome.
*/
module FluxSort {
  import Flux

  /** `xs` runs from the highest key to the lowest. */
  predicate Descending<T>(xs: seq<T>, key: T -> int) {
    forall i, j | 0 <= i < j < |xs| :: key(xs[i]) >= key(xs[j])
  }

  /** The items whose key is `k`. */
  function KeyIs<T>(key: T -> int, k: int): T -> bool {
    x => key(x) == k
  }

  /** Puts `x` in front of the first item whose key is not above its own. */
  function Insert<T>(x: T, ys: seq<T>, key: T -> int): seq<T> {
    if ys == [] || key(ys[0]) <= key(x) then [x] + ys
    else [ys[0]] + Insert(x, ys[1..], key)
  }

  lemma {:induction false} InsertPermutation<T>(x: T, ys: seq<T>, key: T -> int)
    ensures multiset(Insert(x, ys, key)) == multiset(ys) + multiset{x}
  {
    if ys != [] && key(ys[0]) > key(x) {
      InsertPermutation(x, ys[1..], key);
      assert ys == [ys[0]] + ys[1..];
    }
  }

  /** One step of `Insert`: `x` goes past a head whose key is higher. */
  lemma InsertPast<T>(x: T, y: T, ys: seq<T>, key: T -> int)
    requires key(y) > key(x)
    ensures Insert(x, [y] + ys, key) == [y] + Insert(x, ys, key)
  {
    assert ([y] + ys)[1..] == ys;
  }

  /** One step of `Insert`: `x` stops before a head whose key is not higher. */
  lemma InsertHere<T>(x: T, y: T, ys: seq<T>, key: T -> int)
    requires key(y) <= key(x)
    ensures Insert(x, [y] + ys, key) == [x, y] + ys
  {
  }

  /** The sort itself; its properties are the three lemmas below. */
  function SortDescending<T>(xs: seq<T>, key: T -> int): seq<T> {
    if xs == [] then [] else Insert(xs[0], SortDescending(xs[1..], key), key)
  }

  /** The sorted output holds the same items as the input. */
  lemma {:induction false} SortDescendingIsPermutation<T>(xs: seq<T>, key: T -> int)
    ensures multiset(SortDescending(xs, key)) == multiset(xs)
  {
    if xs != [] {
      SortDescendingIsPermutation(xs[1..], key);
      InsertPermutation(xs[0], SortDescending(xs[1..], key), key);
      assert xs == [xs[0]] + xs[1..];
    }
  }

  lemma {:induction false} InsertDescending<T>(x: T, ys: seq<T>, key: T -> int)
    requires Descending(ys, key)
    ensures Descending(Insert(x, ys, key), key)
  {
    if ys != [] && key(ys[0]) > key(x) {
      InsertDescending(x, ys[1..], key);
      var tail := Insert(x, ys[1..], key);
      InsertPermutation(x, ys[1..], key);
      assert multiset(tail) == multiset(ys[1..]) + multiset{x};
      forall j | 0 <= j < |tail|
        ensures key(ys[0]) >= key(tail[j])
      {
        assert tail[j] in multiset(tail);
        if tail[j] != x {
          assert tail[j] in multiset(ys[1..]);
          var k :| 0 <= k < |ys[1..]| && ys[1..][k] == tail[j];
          assert ys[k + 1] == tail[j];
        }
      }
    }
  }

  /** The sorted output runs from the highest key to the lowest. */
  lemma {:induction false} SortDescendingIsDescending<T>(xs: seq<T>, key: T -> int)
    ensures Descending(SortDescending(xs, key), key)
  {
    if xs != [] {
      SortDescendingIsDescending(xs[1..], key);
      InsertDescending(xs[0], SortDescending(xs[1..], key), key);
    }
  }

  lemma {:induction false} InsertStable<T>(x: T, ys: seq<T>, key: T -> int, k: int)
    ensures Flux.Filter(Insert(x, ys, key), KeyIs(key, k))
         == Flux.Filter([x], KeyIs(key, k)) + Flux.Filter(ys, KeyIs(key, k))
  {
    var p := KeyIs(key, k);
    if ys == [] || key(ys[0]) <= key(x) {
      Flux.FilterAppend([x], ys, p);
    } else {
      var y, rest := ys[0], ys[1..];
      var tail := Insert(x, rest, key);
      assert Insert(x, ys, key) == [y] + tail;
      InsertStable(x, rest, key, k);
      Flux.FilterAppend([y], tail, p);
      Flux.FilterAppend([y], rest, p);
      assert [y] + rest == ys;
      Flux.FilterSingleton(x, p);
      Flux.FilterSingleton(y, p);
      // y's key is above x's, so at most one of them can have key k
      if key(x) == k {
        assert Flux.Filter([y], p) == [];
        calc {
          Flux.Filter(Insert(x, ys, key), p);
          Flux.Filter([y], p) + Flux.Filter(tail, p);
          Flux.Filter(tail, p);
          Flux.Filter([x], p) + Flux.Filter(rest, p);
        }
        assert Flux.Filter(ys, p) == Flux.Filter(rest, p);
      } else {
        assert Flux.Filter([x], p) == [];
        assert Flux.Filter(tail, p) == Flux.Filter(rest, p);
      }
    }
  }

  /** Stability: the items sharing any one key keep their source order. */
  lemma {:induction false} SortDescendingIsStable<T>(xs: seq<T>, key: T -> int, k: int)
    ensures Flux.Filter(SortDescending(xs, key), KeyIs(key, k)) == Flux.Filter(xs, KeyIs(key, k))
  {
    if xs != [] {
      SortDescendingIsStable(xs[1..], key, k);
      InsertStable(xs[0], SortDescending(xs[1..], key), key, k);
      assert SortDescending(xs, key) == Insert(xs[0], SortDescending(xs[1..], key), key);
      Flux.FilterAppend([xs[0]], xs[1..], KeyIs(key, k));
      assert [xs[0]] + xs[1..] == xs;
    }
  }
}
