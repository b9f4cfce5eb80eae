/** Sequence utilities shared by the puzzle modules: sums and products (LINQ
    `Sum`, `Aggregate((a, b) => a * b)`), ordering (`List.Sort`), and minimum
    and maximum. */
module Seqs {

  function Sum(xs: seq<int>): int {
    if |xs| == 0 then 0 else xs[0] + Sum(xs[1..])
  }

  function Product(xs: seq<int>): int {
    if |xs| == 0 then 1 else xs[0] * Product(xs[1..])
  }

  lemma {:induction false} SumAppend(xs: seq<int>, ys: seq<int>)
    ensures Sum(xs + ys) == Sum(xs) + Sum(ys)
  {
    if |xs| == 0 {
      assert xs + ys == ys;
    } else {
      assert (xs + ys)[1..] == xs[1..] + ys;
      SumAppend(xs[1..], ys);
    }
  }

  lemma {:induction false} ProductAppend(xs: seq<int>, ys: seq<int>)
    ensures Product(xs + ys) == Product(xs) * Product(ys)
  {
    if |xs| == 0 {
      assert xs + ys == ys;
    } else {
      assert (xs + ys)[1..] == xs[1..] + ys;
      ProductAppend(xs[1..], ys);
      assert xs[0] * (Product(xs[1..]) * Product(ys)) == (xs[0] * Product(xs[1..])) * Product(ys);
    }
  }

  predicate Sorted(xs: seq<int>) {
    forall i, j :: 0 <= i < j < |xs| ==> xs[i] <= xs[j]
  }

  /** Inserts `x` into the sorted `xs` before the first element not smaller than it. */
  function Insert(x: int, xs: seq<int>): (r: seq<int>)
    requires Sorted(xs)
    ensures Sorted(r) && multiset(r) == multiset(xs) + multiset{x}
    ensures |r| == |xs| + 1
  {
    if |xs| == 0 || x <= xs[0] then [x] + xs
    else
      var tail := Insert(x, xs[1..]);
      assert xs == [xs[0]] + xs[1..];
      assert forall k :: 0 <= k < |tail| ==> xs[0] <= tail[k] by {
        forall k | 0 <= k < |tail| ensures xs[0] <= tail[k] {
          assert tail[k] in multiset(tail);
        }
      }
      [xs[0]] + tail
  }

  /** `List<int>.Sort()`: ascending order, same elements. */
  function Sort(xs: seq<int>): (r: seq<int>)
    ensures Sorted(r) && multiset(r) == multiset(xs)
    ensures |r| == |xs|
  {
    if |xs| == 0 then []
    else
      assert xs == [xs[0]] + xs[1..];
      Insert(xs[0], Sort(xs[1..]))
  }

  function Min(xs: seq<int>): (m: int)
    requires |xs| > 0
    ensures m in xs && forall k :: 0 <= k < |xs| ==> m <= xs[k]
  {
    if |xs| == 1 then xs[0]
    else
      var rest := Min(xs[1..]);
      if xs[0] <= rest then xs[0] else rest
  }

  function Max(xs: seq<int>): (m: int)
    requires |xs| > 0
    ensures m in xs && forall k :: 0 <= k < |xs| ==> xs[k] <= m
  {
    if |xs| == 1 then xs[0]
    else
      var rest := Max(xs[1..]);
      if xs[0] >= rest then xs[0] else rest
  }

  /** No element occurs twice. */
  predicate NoDup<T(==)>(s: seq<T>) {
    forall i, j :: 0 <= i < j < |s| ==> s[i] != s[j]
  }

  lemma NoDupTail<T>(s: seq<T>)
    requires NoDup(s) && |s| > 0
    ensures NoDup(s[1..]) && s[0] !in s[1..]
  {
    forall a, b | 0 <= a < b < |s| - 1
      ensures s[1..][a] != s[1..][b]
    {
      assert s[a + 1] != s[b + 1];
    }
  }

  /** A list without repetitions has as many elements as its set. */
  lemma {:induction false} CardOfNoDup<T>(s: seq<T>)
    requires NoDup(s)
    ensures |set x | x in s| == |s|
  {
    if |s| > 0 {
      NoDupTail(s);
      CardOfNoDup(s[1..]);
      assert (set x | x in s) == {s[0]} + (set x | x in s[1..]);
    }
  }

  /** Two lists without repetitions and with the same elements have the same
      length. */
  lemma SameElementsSameLength<T>(a: seq<T>, b: seq<T>)
    requires NoDup(a) && NoDup(b) && forall x :: x in a <==> x in b
    ensures |a| == |b|
  {
    CardOfNoDup(a);
    CardOfNoDup(b);
    assert (set x | x in a) == (set x | x in b);
  }

  /** LINQ `Distinct()`: the first occurrence of every element, in order. */
  function FirstOccurrences<T(==,!new)>(s: seq<T>): (r: seq<T>)
    ensures NoDup(r) && |r| <= |s|
    ensures forall x :: x in r <==> x in s
    ensures |s| > 0 ==> |r| > 0 && r[0] == s[0]
  {
    if |s| == 0 then []
    else
      var p := FirstOccurrences(s[..|s| - 1]);
      var x := s[|s| - 1];
      assert forall y :: y in s <==> y in s[..|s| - 1] || y == x by {
        assert s == s[..|s| - 1] + [x];
      }
      if x in p then p else p + [x]
  }

  /** Joining two lists without repetitions and without common elements
      gives a list without repetitions. */
  lemma NoDupAppend<T>(a: seq<T>, b: seq<T>)
    requires NoDup(a) && NoDup(b) && forall x :: x in a ==> x !in b
    ensures NoDup(a + b)
  {
    forall i, j | 0 <= i < j < |a + b|
      ensures (a + b)[i] != (a + b)[j]
    {
      if i < |a| && j >= |a| {
        assert (a + b)[i] in a && (a + b)[j] == b[j - |a|];
      }
    }
  }

  /** The positions of `s` whose element satisfies `p`: what a LINQ
      `Count(p)` counts. */
  function Where<T>(s: seq<T>, p: T -> bool): set<int> {
    set k | 0 <= k < |s| && p(s[k])
  }

  /** Counting from the back: the elements before the last, then the last. */
  lemma WhereSnoc<T>(s: seq<T>, p: T -> bool)
    requires |s| > 0
    ensures |Where(s, p)| == |Where(s[..|s| - 1], p)| + (if p(s[|s| - 1]) then 1 else 0)
  {
    var n := |s| - 1;
    var init := Where(s[..n], p);
    var last: set<int> := if p(s[n]) then {n} else {};
    forall k | k in Where(s, p) ensures k in init + last {
      if k < n {
        assert s[..n][k] == s[k];
      }
    }
    forall k | k in init ensures k in Where(s, p) {
      assert s[..n][k] == s[k];
    }
    assert Where(s, p) == init + last;
    assert init * last == {};
  }

  /** Counting from the front: the first element, then the rest. */
  lemma {:induction false} WhereCons<T>(s: seq<T>, p: T -> bool)
    requires |s| > 0
    ensures |Where(s, p)| == (if p(s[0]) then 1 else 0) + |Where(s[1..], p)|
    decreases |s|
  {
    var n := |s| - 1;
    WhereSnoc(s, p);
    if n == 0 {
      assert Where(s[1..], p) == {};
      assert Where(s[..n], p) == {};
    } else {
      WhereCons(s[..n], p);
      WhereSnoc(s[1..], p);
      assert s[1..][..n - 1] == s[..n][1..];
      assert s[1..][n - 1] == s[n];
    }
  }

  /** A subset is no larger, and only as large when it is the whole set. */
  lemma SubsetCard<T>(a: set<T>, b: set<T>)
    requires a <= b
    ensures |a| <= |b|
    ensures |a| == |b| ==> a == b
  {
    assert b == a + (b - a);
    assert a * (b - a) == {};
    if |a| == |b| {
      assert |b - a| == 0;
    }
  }

  /** In a list without repetitions every element occurs exactly once. */
  lemma {:induction false} NoDupCount<T>(a: seq<T>, x: T)
    requires NoDup(a)
    ensures multiset(a)[x] == if x in a then 1 else 0
  {
    if |a| > 0 {
      NoDupTail(a);
      NoDupCount(a[1..], x);
      assert a == [a[0]] + a[1..];
    }
  }

  /** A list in which nothing occurs twice has no repetitions. */
  lemma {:induction false} CountsAtMostOne<T>(a: seq<T>)
    requires forall x :: multiset(a)[x] <= 1
    ensures NoDup(a)
  {
    if |a| > 0 {
      assert a == [a[0]] + a[1..];
      assert multiset(a) == multiset{a[0]} + multiset(a[1..]);
      assert forall x :: multiset(a[1..])[x] <= multiset(a)[x];
      CountsAtMostOne(a[1..]);
      assert multiset(a[1..])[a[0]] == 0;
      forall i, j | 0 <= i < j < |a|
        ensures a[i] != a[j]
      {
        if i > 0 {
          assert a[i] == a[1..][i - 1] && a[j] == a[1..][j - 1];
        } else {
          assert a[j] in a[1..];
        }
      }
    }
  }

  /** Rearranging a list without repetitions leaves none. */
  lemma NoDupPermutation<T>(a: seq<T>, b: seq<T>)
    requires NoDup(a) && multiset(a) == multiset(b)
    ensures NoDup(b)
  {
    forall x ensures multiset(b)[x] <= 1 {
      NoDupCount(a, x);
    }
    CountsAtMostOne(b);
  }
}
