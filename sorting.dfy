/** Sorting by a comparison that may be partial, as Ruby's `Array#sort`
    does with `<=>`: an insertion sort, and the facts that pin its result
    down whatever sorting algorithm is used. */
module Sorting {

  /** Every element comes before every later one. */
  predicate Ordered<T>(xs: seq<T>, less: (T, T) -> bool) {
    forall i, j | 0 <= i < j < |xs| :: less(xs[i], xs[j])
  }

  /** Every element comes before the next one. */
  predicate Chained<T>(xs: seq<T>, less: (T, T) -> bool) {
    forall i | 0 <= i < |xs| - 1 :: less(xs[i], xs[i + 1])
  }

  lemma ChainedCons<T>(x: T, xs: seq<T>, less: (T, T) -> bool)
    requires Chained(xs, less) && (xs != [] ==> less(x, xs[0]))
    ensures Chained([x] + xs, less)
  {
    forall i | 0 < i < |xs| ensures less(([x] + xs)[i], ([x] + xs)[i + 1]) {
      assert ([x] + xs)[i] == xs[i - 1];
    }
  }

  /** Five elements each `less` than the next are chained. */
  lemma ChainedFive<T>(a: T, b: T, c: T, d: T, e: T, less: (T, T) -> bool)
    requires less(a, b) && less(b, c) && less(c, d) && less(d, e)
    ensures Chained([a, b, c, d, e], less)
  {
    var xs := [a, b, c, d, e];
    assert xs[0] == a && xs[1] == b && xs[2] == c && xs[3] == d && xs[4] == e;
  }

  lemma ChainedAppend<T>(xs: seq<T>, ys: seq<T>, less: (T, T) -> bool)
    requires Chained(xs, less) && Chained(ys, less)
    requires xs != [] && ys != [] && less(xs[|xs| - 1], ys[0])
    ensures Chained(xs + ys, less)
  {
    forall i | 0 <= i < |xs + ys| - 1 ensures less((xs + ys)[i], (xs + ys)[i + 1]) {
      if i >= |xs| {
        assert (xs + ys)[i] == ys[i - |xs|] && (xs + ys)[i + 1] == ys[i + 1 - |xs|];
      }
    }
  }

  predicate Distinct<T(==)>(xs: seq<T>) {
    forall i, j | 0 <= i < j < |xs| :: xs[i] != xs[j]
  }

  /** Any two different elements of `s` are ordered one way or the other. */
  predicate Total<T(!new)>(s: set<T>, less: (T, T) -> bool) {
    forall a, b | a in s && b in s && a != b :: less(a, b) || less(b, a)
  }

  /** No two different elements of `s` are ordered both ways. */
  predicate Asymmetric<T(!new)>(s: set<T>, less: (T, T) -> bool) {
    forall a, b | a in s && b in s && a != b :: !(less(a, b) && less(b, a))
  }

  predicate Transitive<T(!new)>(s: set<T>, less: (T, T) -> bool) {
    forall a, b, c | a in s && b in s && c in s && less(a, b) && less(b, c) :: less(a, c)
  }

  lemma {:induction false} DistinctOnce<T>(xs: seq<T>, x: T)
    requires Distinct(xs)
    ensures multiset(xs)[x] <= 1
    decreases |xs|
  {
    if xs != [] {
      var rest := xs[1..];
      assert Distinct(rest) by {
        forall i, j | 0 <= i < j < |rest| ensures rest[i] != rest[j] {
          assert rest[i] == xs[i + 1] && rest[j] == xs[j + 1];
        }
      }
      DistinctOnce(rest, x);
      assert xs == [xs[0]] + rest;
      if x == xs[0] {
        assert x !in rest by {
          forall k | 0 <= k < |rest| ensures rest[k] != x { assert rest[k] == xs[k + 1]; }
        }
      }
    }
  }

  /** Rearranging distinct elements keeps them distinct. */
  lemma SameElementsDistinct<T>(xs: seq<T>, ys: seq<T>)
    requires Distinct(xs) && multiset(xs) == multiset(ys)
    ensures Distinct(ys)
  {
    forall i, j | 0 <= i < j < |ys| ensures ys[i] != ys[j] {
      if ys[i] == ys[j] {
        assert ys == ys[..j] + ys[j..];
        assert ys[i] in multiset(ys[..j]) by { assert ys[..j][i] == ys[i]; }
        assert ys[j] in multiset(ys[j..]) by { assert ys[j..][0] == ys[j]; }
        DistinctOnce(xs, ys[i]);
      }
    }
  }

  /** `x` put in front of the first element it comes before. */
  function Insert<T>(x: T, s: seq<T>, less: (T, T) -> bool): seq<T>
    decreases |s|
  {
    if s == [] || less(x, s[0]) then [x] + s else [s[0]] + Insert(x, s[1..], less)
  }

  function InsertionSort<T>(xs: seq<T>, less: (T, T) -> bool): seq<T>
    decreases |xs|
  {
    if xs == [] then [] else Insert(xs[0], InsertionSort(xs[1..], less), less)
  }

  lemma {:induction false} InsertPermutes<T>(x: T, s: seq<T>, less: (T, T) -> bool)
    ensures multiset(Insert(x, s, less)) == multiset{x} + multiset(s)
    decreases |s|
  {
    if s != [] && !less(x, s[0]) {
      InsertPermutes(x, s[1..], less);
      assert s == [s[0]] + s[1..];
    }
  }

  /** Sorting neither loses nor adds an element. */
  lemma {:induction false} SortPermutes<T>(xs: seq<T>, less: (T, T) -> bool)
    ensures multiset(InsertionSort(xs, less)) == multiset(xs)
    decreases |xs|
  {
    if xs != [] {
      SortPermutes(xs[1..], less);
      InsertPermutes(xs[0], InsertionSort(xs[1..], less), less);
      assert xs == [xs[0]] + xs[1..];
    }
  }

  lemma {:induction false} InsertOrdered<T(!new)>(x: T, s: seq<T>, less: (T, T) -> bool)
    requires Ordered(s, less) && x !in s
    requires Total((set y | y in s + [x]), less) && Transitive((set y | y in s + [x]), less)
    ensures Ordered(Insert(x, s, less), less)
    decreases |s|
  {
    var all := set y | y in s + [x];
    if s != [] && !less(x, s[0]) {
      var t := s[1..];
      assert less(s[0], x) by { assert s[0] in all && x in all; }
      assert (set y | y in t + [x]) <= all;
      InsertOrdered(x, t, less);
      InsertPermutes(x, t, less);
      var r := Insert(x, t, less);
      forall k | 0 <= k < |r| ensures less(s[0], r[k]) {
        assert r[k] in multiset(r);
        if r[k] != x {
          assert r[k] in t;
          var m :| 0 <= m < |t| && t[m] == r[k];
          assert s[m + 1] == r[k];
        }
      }
    }
  }

  /** On distinct elements that a total, transitive relation orders,
      insertion sort gives every element before every later one. */
  lemma {:induction false} SortOrdered<T(!new)>(xs: seq<T>, less: (T, T) -> bool)
    requires Distinct(xs)
    requires Total((set x | x in xs), less) && Transitive((set x | x in xs), less)
    ensures Ordered(InsertionSort(xs, less), less)
    decreases |xs|
  {
    if xs != [] {
      var rest := xs[1..];
      assert (set x | x in rest) <= (set x | x in xs);
      SortOrdered(rest, less);
      var s := InsertionSort(rest, less);
      SortPermutes(rest, less);
      assert xs[0] !in rest by {
        forall k | 0 <= k < |rest| ensures rest[k] != xs[0] { assert rest[k] == xs[k + 1]; }
      }
      assert xs[0] !in multiset(s);
      assert (set y | y in s + [xs[0]]) == (set x | x in xs) by {
        forall y ensures y in s + [xs[0]] <==> y in xs {
          assert y in s <==> y in multiset(s);
          assert y in rest <==> y in multiset(rest);
          assert xs == [xs[0]] + rest;
        }
      }
      InsertOrdered(xs[0], s, less);
    }
  }

  /** A transitive relation that orders neighbours orders every pair. */
  lemma {:induction false} ChainedOrdered<T(!new)>(xs: seq<T>, less: (T, T) -> bool)
    requires Chained(xs, less) && Transitive((set x | x in xs), less)
    ensures Ordered(xs, less)
    decreases |xs|
  {
    if |xs| > 1 {
      var rest := xs[1..];
      assert (set x | x in rest) <= (set x | x in xs);
      ChainedOrdered(rest, less);
      forall j | 0 < j < |xs| ensures less(xs[0], xs[j]) {
        if j > 1 {
          assert less(xs[1], xs[j]) by { assert xs[1] == rest[0] && xs[j] == rest[j - 1]; }
          assert xs[0] in xs && xs[1] in xs && xs[j] in xs;
        }
      }
      forall i, j | 0 < i < j < |xs| ensures less(xs[i], xs[j]) {
        assert xs[i] == rest[i - 1] && xs[j] == rest[j - 1];
      }
    }
  }

  lemma OrderedTail<T>(xs: seq<T>, less: (T, T) -> bool)
    requires xs != [] && Ordered(xs, less)
    ensures Ordered(xs[1..], less)
  {
    forall i, j | 0 <= i < j < |xs| - 1 ensures less(xs[1..][i], xs[1..][j]) {
      assert xs[1..][i] == xs[i + 1];
    }
  }

  /** Ordered arrangements of the same elements start alike. */
  lemma SameFirst<T(!new)>(a: seq<T>, b: seq<T>, less: (T, T) -> bool)
    requires a != [] && multiset(a) == multiset(b)
    requires Ordered(a, less) && Ordered(b, less)
    requires Asymmetric((set x | x in a), less)
    ensures b != [] && a[0] == b[0]
  {
    assert b[0] in multiset(a) by { assert |b| == |multiset(a)| > 0; }
    var i :| 0 <= i < |a| && a[i] == b[0];
    assert a[0] in multiset(b);
    var j :| 0 <= j < |b| && b[j] == a[0];
    if i != 0 && j != 0 {
      assert less(a[0], a[i]) && less(b[0], b[j]);
      assert a[0] in a && b[0] in a;
    }
  }

  /** Two arrangements of the same elements that an asymmetric relation
      orders are the same arrangement: the sorted order is unique. */
  lemma {:induction false} OrderedUnique<T(!new)>(a: seq<T>, b: seq<T>, less: (T, T) -> bool)
    requires multiset(a) == multiset(b)
    requires Ordered(a, less) && Ordered(b, less)
    requires Asymmetric((set x | x in a), less)
    ensures a == b
    decreases |a|
  {
    assert |a| == |multiset(a)| == |b|;
    if a != [] {
      SameFirst(a, b, less);
      assert multiset(a[1..]) == multiset(b[1..]) by {
        assert a == [a[0]] + a[1..] && b == [b[0]] + b[1..];
        assert multiset(a) == multiset{a[0]} + multiset(a[1..]);
        assert multiset(b) == multiset{a[0]} + multiset(b[1..]);
        assert multiset(a[1..]) == multiset(a) - multiset{a[0]};
      }
      assert Asymmetric((set x | x in a[1..]), less) by {
        assert (set x | x in a[1..]) <= (set x | x in a);
      }
      OrderedTail(a, less);
      OrderedTail(b, less);
      OrderedUnique(a[1..], b[1..], less);
    }
  }
}
