/** `makesorted(keyfunc)` (dominator/utils/__init__.py): the decorated
    function's results passed through `sorted(..., key=keyfunc)`. Keys are
    strings, compared the way Python compares `str`: code point by code point,
    a proper prefix first. */
module Sorting {

  predicate LexLessEq(a: string, b: string) {
    |a| == 0 || (|b| > 0 && (a[0] < b[0] || (a[0] == b[0] && LexLessEq(a[1..], b[1..]))))
  }

  lemma {:induction false} LexTotal(a: string, b: string)
    ensures LexLessEq(a, b) || LexLessEq(b, a)
  {
    if |a| > 0 && |b| > 0 && a[0] == b[0] {
      LexTotal(a[1..], b[1..]);
    }
  }

  lemma {:induction false} LexTransitive(a: string, b: string, c: string)
    requires LexLessEq(a, b) && LexLessEq(b, c)
    ensures LexLessEq(a, c)
  {
    if |a| > 0 && |b| > 0 && |c| > 0 && a[0] == b[0] && b[0] == c[0] {
      LexTransitive(a[1..], b[1..], c[1..]);
    }
  }

  ghost predicate SortedBy<T>(s: seq<T>, key: T -> string) {
    forall i, j :: 0 <= i < j < |s| ==> LexLessEq(key(s[i]), key(s[j]))
  }

  /** Puts `x` in front of the first element whose key is not smaller, which
      keeps equal keys in their original order. */
  function Insert<T>(x: T, s: seq<T>, key: T -> string): (r: seq<T>)
    ensures multiset(r) == multiset(s) + multiset{x}
    ensures |r| == |s| + 1
  {
    if |s| == 0 then [x]
    else if LexLessEq(key(x), key(s[0])) then [x] + s
    else
      var rest := Insert(x, s[1..], key);
      assert s == [s[0]] + s[1..];
      [s[0]] + rest
  }

  lemma {:induction false} InsertSorted<T>(x: T, s: seq<T>, key: T -> string)
    requires SortedBy(s, key)
    ensures SortedBy(Insert(x, s, key), key)
    ensures forall y :: y in Insert(x, s, key) ==> y == x || y in s
    decreases |s|, 1
  {
    if |s| > 0 {
      if LexLessEq(key(x), key(s[0])) {
        forall j | 1 <= j < |s| + 1 ensures LexLessEq(key(x), key(([x] + s)[j])) {
          if j > 1 { LexTransitive(key(x), key(s[0]), key(s[j - 1])); }
        }
      } else {
        InsertPastSorted(x, s, key);
      }
    }
  }

  /** The step where `x` goes past the first element: that element stays
      first, and it is not above anything behind it. */
  lemma {:induction false} InsertPastSorted<T>(x: T, s: seq<T>, key: T -> string)
    requires SortedBy(s, key) && |s| > 0 && !LexLessEq(key(x), key(s[0]))
    ensures SortedBy(Insert(x, s, key), key)
    ensures forall y :: y in Insert(x, s, key) ==> y == x || y in s
    decreases |s|, 0
  {
    LexTotal(key(x), key(s[0]));
    InsertSorted(x, s[1..], key);
    var rest := Insert(x, s[1..], key);
    var r := [s[0]] + rest;
    assert Insert(x, s, key) == r;
    forall j | 1 <= j < |r| ensures LexLessEq(key(s[0]), key(r[j])) {
      var y := r[j];
      assert y in rest;
      if y != x {
        var k :| 0 <= k < |s[1..]| && s[1..][k] == y;
        assert s[k + 1] == y;
      }
    }
  }

  /** `sorted(xs, key=key)`. */
  function MakeSorted<T>(xs: seq<T>, key: T -> string): seq<T> {
    if |xs| == 0 then [] else Insert(xs[0], MakeSorted(xs[1..], key), key)
  }

  /** The result is ordered by key and holds exactly the input's elements. */
  lemma MakeSortedSortsAndPermutes<T>(xs: seq<T>, key: T -> string)
    ensures SortedBy(MakeSorted(xs, key), key)
    ensures multiset(MakeSorted(xs, key)) == multiset(xs)
  {
    MakeSortedSorts(xs, key);
    MakeSortedPermutes(xs, key);
  }

  lemma {:induction false} MakeSortedSorts<T>(xs: seq<T>, key: T -> string)
    ensures SortedBy(MakeSorted(xs, key), key)
  {
    if |xs| > 0 {
      MakeSortedSorts(xs[1..], key);
      InsertSorted(xs[0], MakeSorted(xs[1..], key), key);
    }
  }

  lemma {:induction false} MakeSortedPermutes<T>(xs: seq<T>, key: T -> string)
    ensures multiset(MakeSorted(xs, key)) == multiset(xs)
  {
    if |xs| > 0 {
      var rest := MakeSorted(xs[1..], key);
      MakeSortedPermutes(xs[1..], key);
      assert MakeSorted(xs, key) == Insert(xs[0], rest, key);
      MultisetOfCons(xs);
    }
  }

  lemma MultisetOfCons<T>(xs: seq<T>)
    requires |xs| > 0
    ensures multiset(xs) == multiset(xs[1..]) + multiset{xs[0]}
  {
    assert xs == [xs[0]] + xs[1..];
  }

  lemma {:induction false} LexAntisymmetric(a: string, b: string)
    requires LexLessEq(a, b) && LexLessEq(b, a)
    ensures a == b
  {
    if |a| > 0 {
      LexAntisymmetric(a[1..], b[1..]);
      assert a == [a[0]] + a[1..] && b == [b[0]] + b[1..];
    }
  }

  lemma {:induction false} LexReflexive(a: string)
    ensures LexLessEq(a, a)
  {
    if |a| > 0 {
      LexReflexive(a[1..]);
    }
  }

  ghost predicate DistinctKeys<T>(s: seq<T>, key: T -> string) {
    forall i, j :: 0 <= i < j < |s| ==> key(s[i]) != key(s[j])
  }

  /** Sorting a list already in order changes nothing. */
  lemma {:induction false} MakeSortedOfSorted<T>(xs: seq<T>, key: T -> string)
    requires SortedBy(xs, key)
    ensures MakeSorted(xs, key) == xs
  {
    if |xs| > 0 {
      MakeSortedOfSorted(xs[1..], key);
      assert xs == [xs[0]] + xs[1..];
    }
  }

  lemma {:induction false} CountAtMostOne<T>(s: seq<T>, key: T -> string, x: T)
    requires DistinctKeys(s, key)
    ensures multiset(s)[x] <= 1
  {
    if |s| > 0 {
      CountAtMostOne(s[1..], key, x);
      assert s == [s[0]] + s[1..];
      if x == s[0] {
        assert x !in s[1..];
      }
    }
  }

  lemma CountTwo<T>(s: seq<T>, i: nat, j: nat)
    requires i < j < |s| && s[i] == s[j]
    ensures multiset(s)[s[i]] >= 2
  {
    assert s == s[..j] + [s[j]] + s[j + 1..];
    assert s[i] in s[..j];
  }

  /** Reordering keeps keys distinct. */
  lemma PermutationKeepsDistinct<T>(s: seq<T>, t: seq<T>, key: T -> string)
    requires multiset(s) == multiset(t) && DistinctKeys(s, key)
    ensures DistinctKeys(t, key)
  {
    forall i, j | 0 <= i < j < |t| ensures key(t[i]) != key(t[j]) {
      if key(t[i]) == key(t[j]) {
        assert t[i] in multiset(s) && t[j] in multiset(s);
        var a :| 0 <= a < |s| && s[a] == t[i];
        var b :| 0 <= b < |s| && s[b] == t[j];
        assert a == b;
        CountTwo(t, i, j);
        CountAtMostOne(s, key, t[i]);
        assert false;
      }
    }
  }

  /** Two sorted lists with the same elements start with the same element. */
  lemma SortedHeads<T>(s: seq<T>, t: seq<T>, key: T -> string)
    requires SortedBy(s, key) && SortedBy(t, key) && DistinctKeys(s, key)
    requires multiset(s) == multiset(t) && |s| > 0
    ensures |t| > 0 && t[0] == s[0]
  {
    assert |t| == |multiset(t)| == |s|;
    assert t[0] in multiset(s) && s[0] in multiset(t);
    var k :| 0 <= k < |s| && s[k] == t[0];
    var m :| 0 <= m < |t| && t[m] == s[0];
    LexReflexive(key(s[0]));
    LexReflexive(key(t[0]));
    assert LexLessEq(key(s[0]), key(s[k]));
    assert LexLessEq(key(t[0]), key(t[m]));
    LexAntisymmetric(key(s[0]), key(s[k]));
  }

  lemma SortedTail<T>(s: seq<T>, key: T -> string)
    requires |s| > 0 && SortedBy(s, key)
    ensures SortedBy(s[1..], key)
    ensures DistinctKeys(s, key) ==> DistinctKeys(s[1..], key)
  {
  }

  lemma MultisetTails<T>(s: seq<T>, t: seq<T>)
    requires |s| > 0 && |t| > 0 && s[0] == t[0] && multiset(s) == multiset(t)
    ensures multiset(s[1..]) == multiset(t[1..])
  {
    assert s == [s[0]] + s[1..] && t == [t[0]] + t[1..];
    assert multiset(s[1..]) == multiset(s) - multiset{s[0]};
    assert multiset(t[1..]) == multiset(t) - multiset{t[0]};
  }

  /** With distinct keys there is one sorted order: two sorted lists with the
      same elements are equal. */
  lemma {:induction false} SortedDetermined<T>(s: seq<T>, t: seq<T>, key: T -> string)
    requires SortedBy(s, key) && SortedBy(t, key) && DistinctKeys(s, key)
    requires multiset(s) == multiset(t)
    ensures s == t
  {
    if |s| == 0 {
      assert |t| == |multiset(t)| == 0;
    } else {
      SortedHeads(s, t, key);
      SortedTail(s, key);
      SortedTail(t, key);
      MultisetTails(s, t);
      SortedDetermined(s[1..], t[1..], key);
      assert s == [s[0]] + s[1..] && t == [t[0]] + t[1..];
    }
  }

  /** Sorting by distinct keys forgets the original order. */
  lemma SortIgnoresOrder<T>(xs: seq<T>, ys: seq<T>, key: T -> string)
    requires multiset(xs) == multiset(ys) && DistinctKeys(xs, key)
    ensures MakeSorted(xs, key) == MakeSorted(ys, key)
  {
    MakeSortedSortsAndPermutes(xs, key);
    MakeSortedSortsAndPermutes(ys, key);
    PermutationKeepsDistinct(xs, MakeSorted(xs, key), key);
    SortedDetermined(MakeSorted(xs, key), MakeSorted(ys, key), key);
  }

  /** A list comprehension with a condition: the elements that satisfy `p`,
      in their order, each as often as it occurs. */
  function Filter<T(!new)>(xs: seq<T>, p: T -> bool): (r: seq<T>)
    ensures forall x :: multiset(r)[x] == if p(x) then multiset(xs)[x] else 0
    ensures forall x :: x in r <==> x in xs && p(x)
  {
    if |xs| == 0 then []
    else
      var rest := Filter(xs[1..], p);
      assert xs == [xs[0]] + xs[1..];
      (if p(xs[0]) then [xs[0]] else []) + rest
  }

  /** Filtering a concatenation filters each part and keeps them in order. */
  lemma {:induction false} FilterConcat<T(!new)>(a: seq<T>, b: seq<T>, p: T -> bool)
    ensures Filter(a + b, p) == Filter(a, p) + Filter(b, p)
  {
    if |a| == 0 {
      assert a + b == b;
    } else {
      assert (a + b)[1..] == a[1..] + b;
      FilterConcat(a[1..], b, p);
    }
  }

  /** The elements whose key is `k`, in order. */
  function WithKey<T>(s: seq<T>, key: T -> string, k: string): seq<T> {
    if |s| == 0 then [] else (if key(s[0]) == k then [s[0]] else []) + WithKey(s[1..], key, k)
  }

  lemma WithKeyCons<T>(y: T, t: seq<T>, key: T -> string, k: string)
    ensures WithKey([y] + t, key, k) == (if key(y) == k then [y] else []) + WithKey(t, key, k)
  {
    assert ([y] + t)[1..] == t;
  }

  /** Inserting `x` passes over only elements whose key differs from its own,
      so among the elements with one key, `x` comes first. */
  lemma {:induction false} InsertWithKey<T>(x: T, s: seq<T>, key: T -> string, k: string)
    ensures WithKey(Insert(x, s, key), key, k) == (if key(x) == k then [x] else []) + WithKey(s, key, k)
    decreases |s|, 1
  {
    if |s| == 0 {
      WithKeyCons(x, [], key, k);
    } else if LexLessEq(key(x), key(s[0])) {
      WithKeyCons(x, s, key, k);
    } else {
      InsertPassesOver(x, s, key, k);
    }
  }

  /** The step where `x` goes past the first element, whose key is smaller. */
  lemma {:induction false} InsertPassesOver<T>(x: T, s: seq<T>, key: T -> string, k: string)
    requires |s| > 0 && !LexLessEq(key(x), key(s[0]))
    ensures WithKey(Insert(x, s, key), key, k) == (if key(x) == k then [x] else []) + WithKey(s, key, k)
    decreases |s|, 0
  {
    LexReflexive(key(x));
    var rest := Insert(x, s[1..], key);
    assert Insert(x, s, key) == [s[0]] + rest;
    WithKeyCons(s[0], rest, key, k);
    InsertWithKey(x, s[1..], key, k);
    var own := if key(x) == k then [x] else [];
    var head := if key(s[0]) == k then [s[0]] else [];
    var w := WithKey(s[1..], key, k);
    assert WithKey(s, key, k) == head + w;
    SwapPastEmpty(head, own, w);
  }

  /** Two parts of which one is empty can trade places. */
  lemma SwapPastEmpty<T>(head: seq<T>, own: seq<T>, w: seq<T>)
    requires head == [] || own == []
    ensures head + (own + w) == own + (head + w)
  {
    if head == [] {
      assert head + (own + w) == own + w;
    } else {
      assert own + (head + w) == head + w;
    }
  }

  /** The sort is stable: the elements with any one key come out in the
      order they went in. */
  lemma {:induction false} MakeSortedStable<T>(xs: seq<T>, key: T -> string, k: string)
    ensures WithKey(MakeSorted(xs, key), key, k) == WithKey(xs, key, k)
  {
    if |xs| > 0 {
      MakeSortedStable(xs[1..], key, k);
      InsertWithKey(xs[0], MakeSorted(xs[1..], key), key, k);
    }
  }

  function Map<T, U>(xs: seq<T>, f: T -> U): (r: seq<U>)
    ensures |r| == |xs| && forall i :: 0 <= i < |xs| ==> r[i] == f(xs[i])
  {
    seq(|xs|, i requires 0 <= i < |xs| => f(xs[i]))
  }

  lemma {:induction false} InsertMap<T, U>(x: T, s: seq<T>, f: T -> U, kt: T -> string, ku: U -> string)
    requires forall y :: ku(f(y)) == kt(y)
    ensures Insert(f(x), Map(s, f), ku) == Map(Insert(x, s, kt), f)
  {
    if |s| > 0 && !LexLessEq(kt(x), kt(s[0])) {
      InsertMap(x, s[1..], f, kt, ku);
      assert Map(s, f)[1..] == Map(s[1..], f);
    }
  }

  /** Sorting commutes with a map that keeps every element's key. */
  lemma {:induction false} MakeSortedMap<T, U>(xs: seq<T>, f: T -> U, kt: T -> string, ku: U -> string)
    requires forall y :: ku(f(y)) == kt(y)
    ensures MakeSorted(Map(xs, f), ku) == Map(MakeSorted(xs, kt), f)
  {
    if |xs| > 0 {
      MakeSortedMap(xs[1..], f, kt, ku);
      assert Map(xs, f)[1..] == Map(xs[1..], f);
      InsertMap(xs[0], MakeSorted(xs[1..], kt), f, kt, ku);
    }
  }
}
