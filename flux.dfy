/**
  The Flux operators the tests use, over a finite Flux already materialised
  as a sequence. Each operator is a function from the source sequence to what
  its subscriber receives. The pipelines here are synchronous, so every
  operator emits in source order.
*/
module Flux {
  import opened Publishers

  /** `Flux.filter`: the items that pass `p`, in source order. */
  function Filter<T>(xs: seq<T>, p: T -> bool): seq<T> {
    if xs == [] then []
    else (if p(xs[0]) then [xs[0]] else []) + Filter(xs[1..], p)
  }

  /** The filtered items are exactly the source items that pass `p`. */
  lemma {:induction false} FilterMembers<T>(xs: seq<T>, p: T -> bool)
    ensures |Filter(xs, p)| <= |xs|
    ensures forall i | 0 <= i < |Filter(xs, p)| :: Filter(xs, p)[i] in xs && p(Filter(xs, p)[i])
    ensures forall i | 0 <= i < |xs| && p(xs[i]) :: xs[i] in Filter(xs, p)
  {
    if xs != [] {
      FilterMembers(xs[1..], p);
      assert xs == [xs[0]] + xs[1..];
    }
  }

  /** `r` is `xs` with some items removed and the rest in their original order. */
  predicate IsSubsequence<T(==)>(r: seq<T>, xs: seq<T>)
    decreases |xs|
  {
    if r == [] then true
    else if xs == [] then false
    else (r[0] == xs[0] && IsSubsequence(r[1..], xs[1..])) || IsSubsequence(r, xs[1..])
  }

  /** Filtering keeps relative source order. */
  lemma {:induction false} FilterIsSubsequence<T>(xs: seq<T>, p: T -> bool)
    ensures IsSubsequence(Filter(xs, p), xs)
  {
    if xs != [] {
      FilterIsSubsequence(xs[1..], p);
      if p(xs[0]) {
        assert Filter(xs, p) == [xs[0]] + Filter(xs[1..], p);
        assert Filter(xs, p)[1..] == Filter(xs[1..], p);
      } else {
        assert Filter(xs, p) == Filter(xs[1..], p);
      }
    }
  }

  /** Filtering a concatenation filters each part in place. */
  lemma {:induction false} FilterAppend<T>(a: seq<T>, b: seq<T>, p: T -> bool)
    ensures Filter(a + b, p) == Filter(a, p) + Filter(b, p)
  {
    if a == [] {
      assert a + b == b;
    } else {
      var head := if p(a[0]) then [a[0]] else [];
      assert (a + b)[0] == a[0];
      assert (a + b)[1..] == a[1..] + b;
      assert Filter(a + b, p) == head + Filter(a[1..] + b, p);
      assert Filter(a, p) == head + Filter(a[1..], p);
      FilterAppend(a[1..], b, p);
    }
  }

  lemma FilterSingleton<T>(x: T, p: T -> bool)
    ensures Filter([x], p) == if p(x) then [x] else []
  {
    assert [x][1..] == [];
  }

  /** An item is kept by a filter or by its negation, never both. */
  lemma {:induction false} FilterPartition<T>(xs: seq<T>, p: T -> bool, q: T -> bool)
    requires forall i | 0 <= i < |xs| :: q(xs[i]) == !p(xs[i])
    ensures multiset(Filter(xs, p)) + multiset(Filter(xs, q)) == multiset(xs)
  {
    if xs != [] {
      FilterPartition(xs[1..], p, q);
      assert xs == [xs[0]] + xs[1..];
    }
  }

  /** `Flux.all`: true exactly when every item passes `p` (true when empty). */
  function All<T>(xs: seq<T>, p: T -> bool): (r: bool)
    ensures r <==> forall i | 0 <= i < |xs| :: p(xs[i])
  {
    if xs == [] then true else p(xs[0]) && All(xs[1..], p)
  }

  /** `Flux.any`: true exactly when some item passes `p` (false when empty). */
  function Any<T>(xs: seq<T>, p: T -> bool): (r: bool)
    ensures r <==> exists i | 0 <= i < |xs| :: p(xs[i])
  {
    if xs == [] then false else p(xs[0]) || Any(xs[1..], p)
  }

  /**
    `Flux.flatMap(f).collect(Collectors.toList())` when every inner Mono is
    synchronous: the inner results are concatenated in source order, and the
    first inner error aborts the run and is delivered instead of a list.
  */
  function FlatMapCollectList<T, U>(xs: seq<T>, f: T -> Mono<U>): (r: Mono<seq<U>>)
    ensures !r.Empty?
    ensures r.Error? <==> exists i | 0 <= i < |xs| :: f(xs[i]).Error?
    ensures r.Error? ==>
      exists i | 0 <= i < |xs| :: f(xs[i]) == Error(r.fault) && forall j | 0 <= j < i :: !f(xs[j]).Error?
    ensures r.Just? ==> |r.value| <= |xs|
  {
    if xs == [] then Just([])
    else
      var rest := FlatMapCollectList(xs[1..], f);
      match f(xs[0])
      case Error(e) => Error(e)
      case Empty => rest
      case Just(u) => if rest.Just? then Just([u] + rest.value) else rest
  }

  /** An inner Mono that emits the item itself or nothing makes flatMap a filter. */
  lemma {:induction false} FlatMapCollectListAsFilter<T>(xs: seq<T>, f: T -> Mono<T>, p: T -> bool)
    requires forall i | 0 <= i < |xs| :: f(xs[i]) == if p(xs[i]) then Just(xs[i]) else Empty
    ensures FlatMapCollectList(xs, f) == Just(Filter(xs, p))
  {
    if xs != [] {
      FlatMapCollectListAsFilter(xs[1..], f, p);
      if p(xs[0]) {
        assert Filter(xs, p) == [xs[0]] + Filter(xs[1..], p);
      } else {
        assert Filter(xs, p) == Filter(xs[1..], p);
      }
    }
  }

  /**
    On success the collected list holds the values of the inner Monos that
    emitted one, in source order: the i-th value comes from the i-th item
    whose inner Mono is not empty.
  */
  lemma {:induction false} FlatMapCollectListValues<T, U>(xs: seq<T>, f: T -> Mono<U>)
    requires FlatMapCollectList(xs, f).Just?
    ensures var emitting := Filter(xs, x => f(x).Just?);
      |FlatMapCollectList(xs, f).value| == |emitting| &&
      forall i | 0 <= i < |emitting| :: f(emitting[i]) == Just(FlatMapCollectList(xs, f).value[i])
  {
    var p := x => f(x).Just?;
    if xs != [] {
      var rest := FlatMapCollectList(xs[1..], f);
      FlatMapCollectListValues(xs[1..], f);
      var r, emitting, tail := FlatMapCollectList(xs, f), Filter(xs, p), Filter(xs[1..], p);
      match f(xs[0])
      case Just(u) =>
        assert r.value == [u] + rest.value;
        assert emitting == [xs[0]] + tail;
        forall i | 0 <= i < |emitting| ensures f(emitting[i]) == Just(r.value[i]) {
          if i > 0 {
            assert emitting[i] == tail[i - 1] && r.value[i] == rest.value[i - 1];
          }
        }
      case Empty =>
        assert r == rest && emitting == tail;
      case Error(_) =>
    }
  }

  /**
    `Flux.collectMap(key, val)`: the items are put into a map one after the
    other, so for a repeated key the last item wins.
  */
  function CollectMap<T, K, V>(xs: seq<T>, key: T -> K, val: T -> V): (m: map<K, V>)
    ensures m.Keys == set i | 0 <= i < |xs| :: key(xs[i])
    ensures forall k | k in m ::
      exists i | 0 <= i < |xs| :: key(xs[i]) == k && m[k] == val(xs[i]) && forall j | i < j < |xs| :: key(xs[j]) != k
  {
    if xs == [] then map[]
    else
      var m := CollectMap(xs[..|xs| - 1], key, val);
      var m' := m[key(xs[|xs| - 1]) := val(xs[|xs| - 1])];
      CollectMapLastWins(xs, key, val, m, m');
      m'
  }

  /** Putting the last item into the map of the other items keeps both properties of `CollectMap`. */
  lemma CollectMapLastWins<T, K, V>(xs: seq<T>, key: T -> K, val: T -> V, m: map<K, V>, m': map<K, V>)
    requires xs != [] && m' == m[key(xs[|xs| - 1]) := val(xs[|xs| - 1])]
    requires m.Keys == set i | 0 <= i < |xs| - 1 :: key(xs[i])
    requires forall k | k in m ::
      exists i | 0 <= i < |xs| - 1 :: key(xs[i]) == k && m[k] == val(xs[i]) && forall j | i < j < |xs| - 1 :: key(xs[j]) != k
    ensures m'.Keys == set i | 0 <= i < |xs| :: key(xs[i])
    ensures forall k | k in m' ::
      exists i | 0 <= i < |xs| :: key(xs[i]) == k && m'[k] == val(xs[i]) && forall j | i < j < |xs| :: key(xs[j]) != k
  {
    var n := |xs| - 1;
    forall k | k in m'
      ensures exists i | 0 <= i < |xs| :: key(xs[i]) == k && m'[k] == val(xs[i]) && forall j | i < j < |xs| :: key(xs[j]) != k
    {
      if k == key(xs[n]) {
        assert key(xs[n]) == k && m'[k] == val(xs[n]);
      } else {
        var i :| 0 <= i < n && key(xs[i]) == k && m[k] == val(xs[i]) && forall j | i < j < n :: key(xs[j]) != k;
        assert forall j | i < j < |xs| :: key(xs[j]) != k;
      }
    }
  }

  /** With pairwise distinct keys, every item's key maps to that item's value. */
  lemma CollectMapDistinctKeys<T, K, V>(xs: seq<T>, key: T -> K, val: T -> V)
    requires forall i, j | 0 <= i < j < |xs| :: key(xs[i]) != key(xs[j])
    ensures forall i | 0 <= i < |xs| :: key(xs[i]) in CollectMap(xs, key, val) && CollectMap(xs, key, val)[key(xs[i])] == val(xs[i])
  {
    var m := CollectMap(xs, key, val);
    forall i | 0 <= i < |xs|
      ensures key(xs[i]) in m && m[key(xs[i])] == val(xs[i])
    {
      assert key(xs[i]) in m.Keys;
      var i' :| 0 <= i' < |xs| && key(xs[i']) == key(xs[i]) && m[key(xs[i])] == val(xs[i'])
             && forall j | i' < j < |xs| :: key(xs[j]) != key(xs[i]);
      assert i' == i;
    }
  }
}
