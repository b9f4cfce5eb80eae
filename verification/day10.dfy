/** Day 10, Adapter Array: part 1 multiplies the number of 1-jolt gaps by
    the number of 3-jolt gaps along the sorted adapters; part 2 counts the
    ways to chain adapters from the outlet (0) to the highest adapter with
    steps of 1, 2 or 3 jolts, memoising per joltage.

    Part 1 seeds both counts with 1, standing for the outlet-to-first gap and
    the built-in device gap. That is right only when the smallest adapter is
    rated 1; the seeded count is modelled as written (`CalculateDifferences`) and
    against the full chain `0, adapters..., max + 3` (`ChainDifferences`). */
module Day10 {
  import opened Wrappers
  import opened Seqs

  function Gap(xs: seq<int>, i: nat): int
    requires i + 1 < |xs|
  {
    xs[i + 1] - xs[i]
  }

  /** The positions from `i` on whose gap to the next entry is `d`: the
      reference for the loop's counting. */
  function GapPositions(xs: seq<int>, d: int, i: nat): set<nat> {
    set k: nat | i <= k && k + 1 < |xs| && Gap(xs, k) == d
  }

  /** The loop's count of `d`-gaps from position `i` on. */
  function GapsFrom(xs: seq<int>, d: int, i: nat): nat
    decreases |xs| - i
  {
    if i + 1 >= |xs| then 0
    else (if Gap(xs, i) == d then 1 else 0) + GapsFrom(xs, d, i + 1)
  }

  lemma {:induction false} GapsCountsPositions(xs: seq<int>, d: int, i: nat)
    ensures GapsFrom(xs, d, i) == |GapPositions(xs, d, i)|
    decreases |xs| - i
  {
    if i + 1 >= |xs| {
      assert GapPositions(xs, d, i) == {};
    } else {
      GapsCountsPositions(xs, d, i + 1);
      if Gap(xs, i) == d {
        assert GapPositions(xs, d, i) == GapPositions(xs, d, i + 1) + {i};
      } else {
        assert GapPositions(xs, d, i) == GapPositions(xs, d, i + 1);
      }
    }
  }

  /** `CalculateDifferences` on the sorted list: the `for` loop over adjacent
      pairs, with the 1-jolt and 3-jolt counts both starting at 1 (the 2-jolt
      count is kept but unused). */
  method CalculateDifferences(xs: seq<int>) returns (product: int)
    ensures product == (1 + |GapPositions(xs, 1, 0)|) * (1 + |GapPositions(xs, 3, 0)|)
  {
    var oneDiff, twoDiff, threeDiff := 1, 0, 1;
    var i := 0;
    while i + 1 < |xs|
      invariant oneDiff + GapsFrom(xs, 1, i) == 1 + GapsFrom(xs, 1, 0)
      invariant twoDiff + GapsFrom(xs, 2, i) == GapsFrom(xs, 2, 0)
      invariant threeDiff + GapsFrom(xs, 3, i) == 1 + GapsFrom(xs, 3, 0)
      decreases |xs| - i
    {
      var gap := xs[i + 1] - xs[i];
      if gap == 1 {
        oneDiff := oneDiff + 1;
      } else if gap == 2 {
        twoDiff := twoDiff + 1;
      } else if gap == 3 {
        threeDiff := threeDiff + 1;
      }
      i := i + 1;
    }
    GapsCountsPositions(xs, 1, 0);
    GapsCountsPositions(xs, 3, 0);
    product := oneDiff * threeDiff;
  }

  /** The whole chain: outlet, adapters in order, and the device rated three
      above the highest adapter. */
  function Chain(xs: seq<int>): (c: seq<int>)
    requires |xs| > 0
    ensures |c| == |xs| + 2 && c[0] == 0 && c[|c| - 1] == xs[|xs| - 1] + 3
  {
    [0] + xs + [xs[|xs| - 1] + 3]
  }

  /** As intended: the 1-jolt gaps times the 3-jolt gaps along the chain. */
  function ChainDifferences(xs: seq<int>): int
    requires |xs| > 0
  {
    |GapPositions(Chain(xs), 1, 0)| * |GapPositions(Chain(xs), 3, 0)|
  }

  /** Past the outlet, the chain's gaps are the adapters' gaps plus the final
      3-jolt device gap. */
  lemma {:induction false} ChainGapsFrom(xs: seq<int>, d: int, i: nat)
    requires i < |xs|
    ensures GapsFrom(Chain(xs), d, i + 1) == GapsFrom(xs, d, i) + (if d == 3 then 1 else 0)
    decreases |xs| - i
  {
    var c := Chain(xs);
    if i + 1 == |xs| {
      assert Gap(c, i + 1) == 3;
    } else {
      ChainGapsFrom(xs, d, i + 1);
      assert Gap(c, i + 1) == Gap(xs, i);
    }
  }

  lemma ChainGaps(xs: seq<int>, d: int)
    requires |xs| > 0
    ensures |GapPositions(Chain(xs), d, 0)|
         == |GapPositions(xs, d, 0)| + (if xs[0] == d then 1 else 0) + (if d == 3 then 1 else 0)
  {
    ChainGapsFrom(xs, d, 0);
    assert Gap(Chain(xs), 0) == xs[0];
    GapsCountsPositions(Chain(xs), d, 0);
    GapsCountsPositions(xs, d, 0);
  }

  /** The seeded counts agree with the chain when the smallest adapter is
      rated 1 (for sorted input, `xs[0]` is the smallest). */
  lemma SeededCountsNeedFirstGapOne(xs: seq<int>)
    requires |xs| > 0 && xs[0] == 1
    ensures (1 + |GapPositions(xs, 1, 0)|) * (1 + |GapPositions(xs, 3, 0)|) == ChainDifferences(xs)
  {
    ChainGaps(xs, 1);
    ChainGaps(xs, 3);
  }

  /** A lone 3-jolt adapter: the seeded counts give 1, while the chain 0-3-6
      has no 1-jolt gap at all. */
  lemma SeededCountsMiscount()
    ensures (1 + |GapPositions([3], 1, 0)|) * (1 + |GapPositions([3], 3, 0)|) == 1
    ensures ChainDifferences([3]) == 0
  {
    assert GapPositions([3], 1, 0) == {} && GapPositions([3], 3, 0) == {};
    ChainGaps([3], 1);
  }

  // ------------------------------------------------------------ part 2

  predicate AtMost(input: seq<int>, device: int) {
    forall k :: 0 <= k < |input| ==> input[k] <= device
  }

  /** The number of chains from joltage `j` up to `device` whose steps are
      1, 2 or 3 jolts and land only on adapters in `input`. */
  function Ways(input: seq<int>, j: int, device: int): (n: nat)
    requires AtMost(input, device)
    ensures j == device ==> n == 1
    ensures j != device && j + 1 !in input && j + 2 !in input && j + 3 !in input ==> n == 0
    decreases device - j
  {
    if j == device then 1
    else
      (if j + 1 in input then Ways(input, j + 1, device) else 0)
      + (if j + 2 in input then Ways(input, j + 2, device) else 0)
      + (if j + 3 in input then Ways(input, j + 3, device) else 0)
  }

  /** Every entry of the memo table holds the true count. */
  predicate Sound(input: seq<int>, device: int, memo: map<int, nat>)
    requires AtMost(input, device)
  {
    forall k :: k in memo ==> memo[k] == Ways(input, k, device)
  }

  /** `CalculatePermutations` with its dictionary threaded through: a stored
      value is returned first, the device value gives 1, and otherwise the
      three successors present in `input` are summed and the sum stored.
      Memoisation changes nothing: the result is `Ways`, and the table stays
      sound and only grows. */
  function Permutations(input: seq<int>, j: int, device: int, memo: map<int, nat>): (r: (nat, map<int, nat>))
    requires AtMost(input, device) && Sound(input, device, memo)
    ensures r.0 == Ways(input, j, device)
    ensures Sound(input, device, r.1) && memo.Keys <= r.1.Keys
    decreases device - j
  {
    if j in memo then (memo[j], memo)
    else if j == device then (1, memo)
    else
      var (a, m1) := if j + 1 in input then Permutations(input, j + 1, device, memo) else (0, memo);
      var (b, m2) := if j + 2 in input then Permutations(input, j + 2, device, m1) else (0, m1);
      var (c, m3) := if j + 3 in input then Permutations(input, j + 3, device, m2) else (0, m2);
      (a + b + c, m3[j := a + b + c])
  }

  /** Part 2: chains from the outlet to the highest adapter; the maximum of
      an empty list throws. */
  function Part2(input: seq<int>): (r: Result<nat>)
    ensures r.Ok? <==> |input| > 0
    ensures r.Ok? ==> r.value == Ways(input, 0, Max(input))
  {
    if |input| == 0 then Err("Sequence contains no elements")
    else Ok(Permutations(input, 0, Max(input), map[]).0)
  }
}
