/** Day 9, Encoding Error: every number after a 25-number preamble should be
    the sum of two of the 25 numbers before it. Part 1 finds the first that is
    not; part 2 finds a contiguous run summing to it with a sliding window and
    returns the run's smallest plus largest number.

    The original's test takes absolute differences (`|x - n|` among the window)
    and so also accepts a number that is a difference of two window numbers, or
    twice one of them. The test is modelled as written (`IsValid`) and as a sum
    of two distinct entries (`IsSumOfTwo`). */
module Day9 {
  import opened Wrappers
  import opened Seqs

  const PreambleSize: nat := 25

  function Abs(x: int): nat {
    if x < 0 then -x else x
  }

  /** `IsValid`: some `x` of the window has `|x - number|` in the window too
      (possibly `x` itself). */
  predicate IsValid(number: int, window: seq<int>) {
    exists k :: 0 <= k < |window| && Abs(window[k] - number) in window
  }

  /** `Any` over the window from position `k`, as LINQ scans it. */
  function AnyFrom(number: int, window: seq<int>, k: nat): (r: bool)
    requires k <= |window|
    ensures r <==> exists j :: k <= j < |window| && Abs(window[j] - number) in window
    decreases |window| - k
  {
    if k == |window| then false
    else if Abs(window[k] - number) in window then true
    else AnyFrom(number, window, k + 1)
  }

  /** The scan decides `IsValid`. */
  lemma AnyDecidesIsValid(number: int, window: seq<int>)
    ensures AnyFrom(number, window, 0) <==> IsValid(number, window)
  {
  }

  /** What the test accepts: the sum or the difference of two window
      entries, the same entry allowed twice, where the second entry is
      non-negative (it stands for a distance). */
  lemma IsValidSumOrDifference(number: int, window: seq<int>)
    ensures IsValid(number, window) <==>
      exists i, j :: (0 <= i < |window| && 0 <= j < |window| && window[j] >= 0
                      && (number == window[i] + window[j] || number == window[i] - window[j]))
  {
    if IsValid(number, window) {
      var i :| 0 <= i < |window| && Abs(window[i] - number) in window;
      var j :| 0 <= j < |window| && window[j] == Abs(window[i] - number);
      assert number == window[i] + window[j] || number == window[i] - window[j];
    }
    if exists i, j :: (0 <= i < |window| && 0 <= j < |window| && window[j] >= 0
                       && (number == window[i] + window[j] || number == window[i] - window[j])) {
      var i, j :| 0 <= i < |window| && 0 <= j < |window| && window[j] >= 0
                  && (number == window[i] + window[j] || number == window[i] - window[j]);
      assert Abs(window[i] - number) == window[j];
    }
  }

  /** As intended: the number is the sum of two entries at different
      positions of the window. */
  predicate IsSumOfTwo(number: int, window: seq<int>) {
    exists i, j :: 0 <= i < j < |window| && window[i] + window[j] == number
  }

  /** Every sum of two non-negative window entries passes the original test:
      the test never rejects a valid number. */
  lemma SumPassesIsValid(number: int, window: seq<int>)
    requires forall k :: 0 <= k < |window| ==> window[k] >= 0
    requires IsSumOfTwo(number, window)
    ensures IsValid(number, window)
  {
    var i, j :| 0 <= i < j < |window| && window[i] + window[j] == number;
    assert Abs(window[i] - number) == window[j];
  }

  /** But the test also accepts numbers that are not such sums: 10 beside a
      lone 5 (5 paired with itself), and 1 beside 3 and 2 (a difference). */
  lemma IsValidAcceptsNonSums()
    ensures IsValid(10, [5]) && !IsSumOfTwo(10, [5])
    ensures IsValid(1, [3, 2]) && !IsSumOfTwo(1, [3, 2])
  {
    assert Abs([5][0] - 10) == 5;
    assert Abs([3, 2][0] - 1) == 2;
  }

  /** The index scanned at step `i` of `FindInvalidNumber`: the number at
      `PreambleSize + i` checked against the `PreambleSize` numbers before it. */
  function Candidate(input: seq<int>, i: nat): int
    requires PreambleSize + i < |input|
  {
    input[PreambleSize + i]
  }

  function Window(input: seq<int>, i: nat): seq<int>
    requires PreambleSize + i <= |input|
  {
    input[i..i + PreambleSize]
  }

  /** `FindInvalidNumber` from step `i`, parameterised by the test so that the
      original and the intended one share the scan. */
  function FindFrom(input: seq<int>, i: nat, intended: bool): (r: Result<int>)
    requires PreambleSize + i <= |input|
    ensures r.Ok? <==> exists k :: i <= k < |input| - PreambleSize && !Passes(Candidate(input, k), Window(input, k), intended)
    ensures r.Ok? ==> exists k :: (i <= k < |input| - PreambleSize && r.value == Candidate(input, k)
                                   && !Passes(Candidate(input, k), Window(input, k), intended)
                                   && forall m :: i <= m < k ==> Passes(Candidate(input, m), Window(input, m), intended))
    decreases |input| - i
  {
    if PreambleSize + i == |input| then Err("No answer found")
    else if !Passes(Candidate(input, i), Window(input, i), intended) then Ok(Candidate(input, i))
    else
      var r := FindFrom(input, i + 1, intended);
      if r.Ok? then
        var k :| i + 1 <= k < |input| - PreambleSize && r.value == Candidate(input, k)
                 && !Passes(Candidate(input, k), Window(input, k), intended)
                 && forall m :: i + 1 <= m < k ==> Passes(Candidate(input, m), Window(input, m), intended);
        assert forall m :: i <= m < k ==> Passes(Candidate(input, m), Window(input, m), intended);
        r
      else r
  }

  predicate Passes(number: int, window: seq<int>, intended: bool) {
    if intended then IsSumOfTwo(number, window) else IsValid(number, window)
  }

  /** `FindInvalidNumber` as written: the first number past the preamble that
      fails `IsValid`. Fewer than 25 numbers make the preamble slice throw. */
  function FindInvalidNumber(input: seq<int>): (r: Result<int>)
    ensures r.Ok? <==> (|input| >= PreambleSize
      && exists k :: 0 <= k < |input| - PreambleSize && !IsValid(Candidate(input, k), Window(input, k)))
    ensures r.Ok? ==> exists k :: (0 <= k < |input| - PreambleSize && r.value == Candidate(input, k)
                                   && !IsValid(Candidate(input, k), Window(input, k))
                                   && forall m :: 0 <= m < k ==> IsValid(Candidate(input, m), Window(input, m)))
  {
    if |input| < PreambleSize then Err("Index was out of range")
    else FindFrom(input, 0, false)
  }

  /** As intended: the first number past the preamble that is not a sum of
      two distinct entries of its window. */
  function FindNonSum(input: seq<int>): (r: Result<int>)
    ensures r.Ok? <==> (|input| >= PreambleSize
      && exists k :: 0 <= k < |input| - PreambleSize && !IsSumOfTwo(Candidate(input, k), Window(input, k)))
    ensures r.Ok? ==> exists k :: (0 <= k < |input| - PreambleSize && r.value == Candidate(input, k)
                                   && !IsSumOfTwo(Candidate(input, k), Window(input, k))
                                   && forall m :: 0 <= m < k ==> IsSumOfTwo(Candidate(input, m), Window(input, m)))
  {
    if |input| < PreambleSize then Err("Index was out of range")
    else FindFrom(input, 0, true)
  }

  // ------------------------------------------------------------ part 2

  predicate NonNegative(xs: seq<int>) {
    forall k :: 0 <= k < |xs| ==> xs[k] >= 0
  }

  lemma SumExtend(xs: seq<int>, s: nat, e: nat)
    requires s <= e < |xs|
    ensures Sum(xs[s..e + 1]) == Sum(xs[s..e]) + xs[e]
  {
    assert xs[s..e + 1] == xs[s..e] + [xs[e]];
    SumAppend(xs[s..e], [xs[e]]);
  }

  lemma SumDropFirst(xs: seq<int>, s: nat, e: nat)
    requires s < e <= |xs|
    ensures Sum(xs[s..e]) == xs[s] + Sum(xs[s + 1..e])
  {
    assert xs[s..e][1..] == xs[s + 1..e];
  }

  /** With non-negative numbers a later start never gives a larger sum. */
  lemma {:induction false} SumShrinks(xs: seq<int>, s: nat, t: nat, e: nat)
    requires NonNegative(xs) && s <= t <= e <= |xs|
    ensures Sum(xs[t..e]) <= Sum(xs[s..e])
    decreases t - s
  {
    if s < t {
      SumShrinks(xs, s + 1, t, e);
      SumDropFirst(xs, s, e);
    }
  }

  /** The numbers a window run is made of, and the answer for it. */
  function Weakness(run: seq<int>): int
    requires |run| > 0
  {
    Min(run) + Max(run)
  }

  /** The facts the sliding window keeps for non-negative input and a
      positive target: every start before `start` overshoots at `end`, and no
      run ending at or before `end` hits the target. */
  predicate Behind(input: seq<int>, target: int, start: nat, end: nat)
    requires start <= end <= |input|
  {
    (forall s :: 0 <= s < start ==> Sum(input[s..end]) > target)
    && (forall s, e :: 0 <= s < e <= end ==> Sum(input[s..e]) != target)
  }

  /** No run that ends before `e` sums to the target, and none that ends at
      `e` starts before `s`: the run the sliding window meets first. */
  predicate EarliestRun(input: seq<int>, target: int, s: nat, e: nat)
    requires s <= e <= |input|
  {
    && (forall s', e' :: 0 <= s' < e' < e ==> Sum(input[s'..e']) != target)
    && (forall s' :: 0 <= s' < s ==> Sum(input[s'..e]) != target)
  }

  predicate Overshoots(input: seq<int>, target: int, start: nat, end: nat)
    requires start <= end <= |input|
  {
    forall s :: 0 <= s < start ==> Sum(input[s..end]) > target
  }

  /** Taking in the next number keeps every earlier start overshooting. */
  lemma ExtendKeepsOvershoot(input: seq<int>, target: int, start: nat, end: nat)
    requires start <= end < |input| && NonNegative(input)
    requires Overshoots(input, target, start, end)
    ensures Overshoots(input, target, start, end + 1)
  {
    var next := end + 1;
    forall s | 0 <= s < start ensures Sum(input[s..next]) > target {
      SumExtend(input, s, end);
    }
  }

  /** A window that fell short of the target rules out every run ending at
      `end`. */
  lemma ShortRulesOutEnd(input: seq<int>, target: int, start: nat, end: nat)
    requires start <= end <= |input| && NonNegative(input)
    requires Overshoots(input, target, start, end)
    requires (forall s, e :: 0 <= s < e < end ==> Sum(input[s..e]) != target)
    requires Sum(input[start..end]) < target
    ensures Behind(input, target, start, end)
  {
    forall s, e | 0 <= s < e <= end ensures Sum(input[s..e]) != target {
      if e == end && s >= start {
        SumShrinks(input, start, s, end);
      }
    }
  }

  lemma OvershootOneMore(input: seq<int>, target: int, start: nat, end: nat)
    requires start < end <= |input|
    requires Overshoots(input, target, start, end) && Sum(input[start..end]) > target
    ensures Overshoots(input, target, start + 1, end)
  {
  }

  /** The inner `while`: drop numbers from the front while the sum is over
      the target; dropping from an empty window throws. */
  method Shrink(target: int, input: seq<int>, start0: nat, end: nat, acc0: int) returns (r: Result<(nat, int)>)
    requires start0 <= end <= |input| && acc0 == Sum(input[start0..end])
    ensures r.Ok? ==> var (start, acc) := r.value;
      start0 <= start <= end && acc == Sum(input[start..end]) && acc <= target
      && (Overshoots(input, target, start0, end) ==> Overshoots(input, target, start, end))
    ensures r.Err? ==> target < 0
  {
    var start, acc := start0, acc0;
    while acc > target
      invariant start0 <= start <= end
      invariant acc == Sum(input[start..end])
      invariant Overshoots(input, target, start0, end) ==> Overshoots(input, target, start, end)
      decreases end - start
    {
      if start == end {
        assert input[start..end] == [];
        return Err("Object reference not set to an instance of an object");
      }
      SumDropFirst(input, start, end);
      if Overshoots(input, target, start, end) {
        OvershootOneMore(input, target, start, end);
      }
      acc := acc - input[start];
      start := start + 1;
    }
    return Ok((start, acc));
  }

  /** `FindContiguousNumber`: the window `input[start..end]` slides forward,
      its sum kept in `acc`; it shrinks from the front while the sum exceeds
      the target and answers as soon as the sum equals it. Emptying the window
      while shrinking, or answering with an empty window, throws. */
  method FindContiguousNumber(target: int, input: seq<int>) returns (r: Result<int>)
    ensures r.Ok? ==> exists s, e :: 0 <= s < e <= |input| && Sum(input[s..e]) == target
                                     && r.value == Weakness(input[s..e])
    ensures NonNegative(input) && target > 0 && r.Ok? ==> exists s, e :: (0 <= s < e <= |input|
      && Sum(input[s..e]) == target && r.value == Weakness(input[s..e]) && EarliestRun(input, target, s, e))
    ensures NonNegative(input) && target > 0 && r.Err? ==>
      forall s, e :: 0 <= s < e <= |input| ==> Sum(input[s..e]) != target
  {
    var start: nat, end: nat, acc := 0, 0, 0;
    while end < |input|
      invariant start <= end <= |input|
      invariant acc == Sum(input[start..end])
      invariant NonNegative(input) && target > 0 ==> Behind(input, target, start, end)
    {
      SumExtend(input, start, end);
      if NonNegative(input) && target > 0 {
        ExtendKeepsOvershoot(input, target, start, end);
      }
      end := end + 1;
      acc := acc + input[end - 1];
      var shrunk := Shrink(target, input, start, end, acc);
      if shrunk.Err? {
        assert target < 0;
        return Err(shrunk.error);
      }
      start, acc := shrunk.value.0, shrunk.value.1;
      if acc == target {
        if start == end {
          assert input[start..end] == [] && target == 0;
          return Err("Sequence contains no elements");
        }
        assert Sum(input[start..end]) == target;
        if NonNegative(input) && target > 0 {
          assert EarliestRun(input, target, start, end);
        }
        return Ok(Weakness(input[start..end]));
      }
      if NonNegative(input) && target > 0 {
        ShortRulesOutEnd(input, target, start, end);
      }
    }
    assert end == |input|;
    return Err("No answer found");
  }

  /** Part 2: the weakness for the number part 1 reports. */
  method Part2(input: seq<int>) returns (r: Result<int>)
    ensures FindInvalidNumber(input).Err? ==> r.Err?
    ensures r.Ok? ==> (FindInvalidNumber(input).Ok?
      && exists s, e :: 0 <= s < e <= |input| && Sum(input[s..e]) == FindInvalidNumber(input).value
                        && r.value == Weakness(input[s..e]))
    ensures (NonNegative(input) && FindInvalidNumber(input).Ok? && FindInvalidNumber(input).value > 0 && r.Ok?) ==>
      exists s, e :: (0 <= s < e <= |input| && Sum(input[s..e]) == FindInvalidNumber(input).value
                      && r.value == Weakness(input[s..e]) && EarliestRun(input, FindInvalidNumber(input).value, s, e))
    ensures (NonNegative(input) && FindInvalidNumber(input).Ok? && FindInvalidNumber(input).value > 0 && r.Err?) ==>
      forall s, e :: 0 <= s < e <= |input| ==> Sum(input[s..e]) != FindInvalidNumber(input).value
  {
    var invalid :- FindInvalidNumber(input);
    r := FindContiguousNumber(invalid, input);
  }
}
