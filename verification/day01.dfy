/** Day 1, Report Repair: find two (part 1) or three (part 2) expense entries
    that sum to 2020 and multiply them. The original walks index pointers over
    the sorted list; that walk is modelled step for step, and a corrected
    two-pointer search is given next to it. */
module Day1 {
  import opened Wrappers
  import opened Seqs

  const Target := 2020

  // ------------------------------------------------------------ part 1, as written

  /** One pass of the `for` loop of part 1 after its update clause: the update
      reads `xs[upper] + xs[lower]` (throwing when an index is out of range),
      then the body moves the pointers. */
  function PairWalk(xs: seq<int>, upper: int, lower: int): (r: Result<int>)
    ensures r.Ok? ==> exists i, j :: 0 <= i < |xs| && 0 <= j < |xs|
                        && xs[i] + xs[j] == Target && r.value == xs[i] * xs[j]
    decreases upper + 1, |xs| - lower
  {
    if !(0 <= upper < |xs| && 0 <= lower < |xs|) then Err("Index was out of range")
    else
      var sum := xs[upper] + xs[lower];
      if sum == Target then Ok(xs[upper] * xs[lower])
      else if sum < Target then PairWalk(xs, upper, lower + 1)
      else PairWalk(xs, upper - 1, if lower - 1 < 0 then 0 else lower - 1)
  }

  /** Part 1: sort, then walk. The first loop body sees `sum == 0`, so it only
      advances `lower`; an empty list fails the loop condition at once. */
  function Part1(input: seq<int>): (r: Result<int>)
    ensures r.Ok? ==> exists a, b :: a in input && b in input && a + b == Target && r.value == a * b
  {
    var xs := Sort(input);
    if |xs| == 0 then Err("No result found")
    else
      var r := PairWalk(xs, |xs| - 1, 1);
      if r.Ok? then
        var i, j :| 0 <= i < |xs| && 0 <= j < |xs| && xs[i] + xs[j] == Target && r.value == xs[i] * xs[j];
        InSorted(input, i);
        InSorted(input, j);
        r
      else r
  }

  /** The walk can stop with `lower == upper`: the single entry 1010 is
      multiplied by itself although no two entries sum to 2020. */
  lemma Part1PairsEntryWithItself()
    ensures Part1([1010, 2000]) == Ok(1010 * 1010)
    ensures !exists i, j :: 0 <= i < j < 2 && [1010, 2000][i] + [1010, 2000][j] == Target
  {
    var xs := [1010, 2000];
    assert Sort(xs) == xs by {
      assert Sort([2000]) == [2000] by { assert [2000][1..] == []; }
      assert xs[1..] == [2000];
    }
    assert PairWalk(xs, 1, 1) == PairWalk(xs, 0, 0);
  }

  lemma InSorted(input: seq<int>, k: nat)
    requires k < |Sort(input)|
    ensures Sort(input)[k] in input
  {
    assert Sort(input)[k] in multiset(Sort(input));
  }

  // ------------------------------------------------------------ part 1, corrected

  /** Two pointers over a sorted sequence, always at distinct indices. */
  function TwoSum(xs: seq<int>, lo: nat, hi: int): (r: Option<(nat, nat)>)
    requires Sorted(xs) && hi < |xs|
    ensures r.Some? ==> lo <= r.value.0 < r.value.1 <= hi
                        && xs[r.value.0] + xs[r.value.1] == Target
    decreases hi - lo
  {
    if hi <= lo then None
    else
      var sum := xs[lo] + xs[hi];
      if sum == Target then Some((lo, hi))
      else if sum < Target then TwoSum(xs, lo + 1, hi)
      else TwoSum(xs, lo, hi - 1)
  }

  /** The two-pointer search misses no pair: when the sorted window holds two
      distinct positions that sum to the target, it finds some pair. */
  lemma {:induction false} TwoSumComplete(xs: seq<int>, lo: nat, hi: int, i: nat, j: nat)
    requires Sorted(xs) && hi < |xs|
    requires lo <= i < j <= hi && xs[i] + xs[j] == Target
    ensures TwoSum(xs, lo, hi).Some?
    decreases hi - lo
  {
    var sum := xs[lo] + xs[hi];
    if sum < Target {
      assert xs[i] + xs[j] <= xs[i] + xs[hi];
      assert i != lo;
      TwoSumComplete(xs, lo + 1, hi, i, j);
    } else if sum > Target {
      assert xs[lo] + xs[j] <= xs[i] + xs[j];
      assert j != hi;
      TwoSumComplete(xs, lo, hi - 1, i, j);
    }
  }

  /** Part 1 as evidently intended: two entries at distinct positions. */
  function Part1Distinct(input: seq<int>): (r: Result<int>)
    ensures r.Ok? ==> exists a, b :: multiset{a, b} <= multiset(input) && a + b == Target && r.value == a * b
  {
    var xs := Sort(input);
    match TwoSum(xs, 0, |xs| - 1)
    case None => Err("No result found")
    case Some((i, j)) =>
      TwoPositions(xs, i, j);
      Ok(xs[i] * xs[j])
  }

  /** Whenever two distinct entries sum to 2020, the corrected part 1 answers. */
  lemma Part1DistinctComplete(input: seq<int>, i: nat, j: nat)
    requires i < j < |input| && input[i] + input[j] == Target
    ensures Part1Distinct(input).Ok?
  {
    var xs := Sort(input);
    TwoPositions(input, i, j);
    SortedPairFound(xs, input[i], input[j]);
    FoundAnswers(input, xs);
  }

  lemma FoundAnswers(input: seq<int>, xs: seq<int>)
    requires xs == Sort(input) && TwoSum(xs, 0, |xs| - 1).Some?
    ensures Part1Distinct(input).Ok?
  {
  }

  lemma SortedPairFound(xs: seq<int>, a: int, b: int)
    requires Sorted(xs) && multiset{a, b} <= multiset(xs) && a + b == Target
    ensures TwoSum(xs, 0, |xs| - 1).Some?
  {
    var p, q := FindTwo(xs, a, b);
    if p < q {
      TwoSumComplete(xs, 0, |xs| - 1, p, q);
    } else {
      TwoSumComplete(xs, 0, |xs| - 1, q, p);
    }
  }

  lemma TwoPositions(xs: seq<int>, i: nat, j: nat)
    requires i < j < |xs|
    ensures multiset{xs[i], xs[j]} <= multiset(xs)
  {
    assert xs == xs[..i] + [xs[i]] + xs[i + 1..j] + [xs[j]] + xs[j + 1..];
  }

  /** Two values the multiset holds (twice, when they are equal) sit at two
      distinct positions. */
  lemma FindTwo(xs: seq<int>, a: int, b: int) returns (p: nat, q: nat)
    requires multiset{a, b} <= multiset(xs)
    ensures p < |xs| && q < |xs| && p != q && xs[p] == a && xs[q] == b
  {
    assert a in multiset(xs);
    p :| 0 <= p < |xs| && xs[p] == a;
    var rest := xs[..p] + xs[p + 1..];
    RemoveAt(xs, p);
    assert b in multiset(rest) by {
      assert multiset{a, b} <= multiset(rest) + multiset{a};
    }
    var k :| 0 <= k < |rest| && rest[k] == b;
    q := if k < p then k else k + 1;
  }

  lemma RemoveAt(xs: seq<int>, p: nat)
    requires p < |xs|
    ensures multiset(xs) == multiset(xs[..p] + xs[p + 1..]) + multiset{xs[p]}
  {
    assert xs == xs[..p] + [xs[p]] + xs[p + 1..];
  }

  // ------------------------------------------------------------ part 2, as written

  /** The part 2 loop after its update clause: `lowerSnd` sweeps forward,
      `lower` advances when a sweep overshoots past its first position, and
      `upper` steps down (resetting both) otherwise. Indices may coincide. */
  function TripleWalk(xs: seq<int>, upper: int, lower: int, snd: int): (r: Result<int>)
    ensures r.Ok? ==> exists i, j, k :: 0 <= i < |xs| && 0 <= j < |xs| && 0 <= k < |xs|
                        && xs[i] + xs[j] + xs[k] == Target && r.value == xs[i] * xs[j] * xs[k]
    decreases upper + 1, |xs| - lower, |xs| - snd
  {
    if !(0 <= upper < |xs| && 0 <= lower < |xs| && 0 <= snd < |xs|) then Err("Index was out of range")
    else
      var sum := xs[upper] + xs[lower] + xs[snd];
      if sum == Target then Ok(xs[upper] * xs[lower] * xs[snd])
      else if sum < Target then TripleWalk(xs, upper, lower, snd + 1)
      else if snd > 1 then TripleWalk(xs, upper, lower + 1, 1)
      else TripleWalk(xs, upper - 1, 0, 1)
  }

  /** Part 2: the first loop body sees `sum == 0` and advances `lowerSnd` to 2. */
  function Part2(input: seq<int>): (r: Result<int>)
    ensures r.Ok? ==> exists a, b, c :: a in input && b in input && c in input
                        && a + b + c == Target && r.value == a * b * c
  {
    var xs := Sort(input);
    if |xs| == 0 then Err("No result found")
    else
      var r := TripleWalk(xs, |xs| - 1, 0, 2);
      TripleFromInput(input, xs, r);
      r
  }

  lemma TripleFromInput(input: seq<int>, xs: seq<int>, r: Result<int>)
    requires xs == Sort(input)
    requires r.Ok? ==> exists i, j, k :: 0 <= i < |xs| && 0 <= j < |xs| && 0 <= k < |xs|
                         && xs[i] + xs[j] + xs[k] == Target && r.value == xs[i] * xs[j] * xs[k]
    ensures r.Ok? ==> exists a, b, c :: a in input && b in input && c in input
                        && a + b + c == Target && r.value == a * b * c
  {
    if r.Ok? {
      var i, j, k :| 0 <= i < |xs| && 0 <= j < |xs| && 0 <= k < |xs|
        && xs[i] + xs[j] + xs[k] == Target && r.value == xs[i] * xs[j] * xs[k];
      InSorted(input, i);
      InSorted(input, j);
      InSorted(input, k);
      var a, b, c := xs[i], xs[j], xs[k];
      assert a in input && b in input && c in input && a + b + c == Target && r.value == a * b * c;
    }
  }
}
