/** Day 13, Shuttle Search. Bus `id` leaves at every multiple of `id`.
    Part 1 finds the bus with the shortest wait after a given timestamp.
    Part 2 finds a timestamp `t` at which each listed bus leaves `offset`
    minutes after `t`, where `offset` is the bus's position in the schedule
    (`x` entries hold places but have no bus). The search adds one bus at a
    time and steps by the product of the ids already satisfied, so every
    candidate keeps the earlier buses satisfied. */
module Day13 {
  import opened Wrappers
  import opened Strings
  import Seqs

  /** `int.MaxValue`, the starting "shortest wait" of part 1. */
  const MaxInt: int := 0x7FFF_FFFF

  // ---------------------------------------------------------------- parsing

  function ParseIds(entries: seq<string>): (r: Result<seq<int>>)
    ensures r.Ok? <==> forall k :: 0 <= k < |entries| ==> ParseInt32(entries[k]).Some?
    ensures r.Ok? ==> |r.value| == |entries|
    ensures r.Ok? ==> forall k :: 0 <= k < |entries| ==> ParseInt32(entries[k]) == Some(r.value[k])
  {
    if |entries| == 0 then Ok([])
    else
      match ParseInt32(entries[0])
      case None => Err("Input string was not in a correct format")
      case Some(first) =>
        var rest :- ParseIds(entries[1..]);
        Ok([first] + rest)
  }

  /** `Where(x => x != "x")`: the entries other than `x`, in order. */
  function WithoutX(entries: seq<string>): (r: seq<string>)
    ensures forall e :: e in r <==> e in entries && e != "x"
    ensures |r| + |Seqs.Where(entries, e => e == "x")| == |entries|
    ensures |entries| == 1 ==> r == (if entries[0] == "x" then [] else entries)
  {
    if |entries| == 0 then
      assert Seqs.Where(entries, e => e == "x") == {};
      []
    else
      Seqs.WhereCons(entries, (e: string) => e == "x");
      if entries[0] == "x" then WithoutX(entries[1..])
      else [entries[0]] + WithoutX(entries[1..])
  }

  /** Filtering a concatenation filters each half: together with the
      one-entry case this fixes `WithoutX` as the order-keeping filter. */
  lemma {:induction false} WithoutXAppend(a: seq<string>, b: seq<string>)
    ensures WithoutX(a + b) == WithoutX(a) + WithoutX(b)
  {
    if |a| > 0 {
      assert (a + b)[1..] == a[1..] + b;
      WithoutXAppend(a[1..], b);
    } else {
      assert a + b == b;
    }
  }

  /** The schedule entries: comma-separated, empty pieces dropped. */
  function Entries(line: string): seq<string> {
    NonEmpty(Split(line, ","))
  }

  /** Part 1 reads the ids with `x` dropped. */
  function Part1Ids(line: string): (r: Result<seq<int>>)
    ensures r.Ok? <==> forall e :: e in Entries(line) && e != "x" ==> ParseInt32(e).Some?
    ensures r.Ok? ==> |r.value| + |Seqs.Where(Entries(line), e => e == "x")| == |Entries(line)|
    ensures r.Ok? ==> forall v :: v in r.value ==> exists e :: e in Entries(line) && e != "x" && ParseInt32(e) == Some(v)
  {
    var kept := WithoutX(Entries(line));
    assert forall k :: 0 <= k < |kept| ==> kept[k] in kept;
    ParseIds(kept)
  }

  /** Part 2 reads every entry, `x` rewritten to `-1` so it keeps its place. */
  function Part2Ids(line: string): (r: Result<seq<int>>)
    ensures r.Ok? ==> |r.value| == |Entries(line)|
    ensures r.Ok? ==> forall k :: 0 <= k < |Entries(line)| && Entries(line)[k] == "x" ==> r.value[k] == -1
    ensures r.Ok? ==> forall k :: 0 <= k < |Entries(line)| && 'x' !in Entries(line)[k] ==>
      ParseInt32(Entries(line)[k]) == Some(r.value[k])
    ensures (forall k :: 0 <= k < |Entries(line)| ==>
      Entries(line)[k] == "x" || ('x' !in Entries(line)[k] && ParseInt32(Entries(line)[k]).Some?)) ==> r.Ok?
  {
    ParseIds(RewriteX(Entries(line)))
  }

  /** `x.Replace("x", "-1")` on every entry: `x` becomes `-1` and an entry
      without `x` is kept. */
  function RewriteX(entries: seq<string>): (r: seq<string>)
    ensures |r| == |entries|
    ensures forall k :: 0 <= k < |entries| && entries[k] == "x" ==> ParseInt32(r[k]) == Some(-1)
    ensures forall k :: 0 <= k < |entries| && 'x' !in entries[k] ==> r[k] == entries[k]
  {
    XReadsAsMinusOne();
    NoXUnchanged(entries);
    seq(|entries|, k requires 0 <= k < |entries| => Replace(entries[k], "x", "-1", false))
  }

  /** An entry without `x` is left alone by the rewrite. */
  lemma NoXUnchanged(entries: seq<string>)
    ensures forall k :: 0 <= k < |entries| && 'x' !in entries[k] ==> Replace(entries[k], "x", "-1", false) == entries[k]
  {
    forall k | 0 <= k < |entries| && 'x' !in entries[k]
      ensures Replace(entries[k], "x", "-1", false) == entries[k]
    {
      forall i: nat ensures !MatchesAt(entries[k], i, "x", false) {
        if i < |entries[k]| {
          assert entries[k][i + 0] != "x"[0];
        }
      }
    }
  }

  /** Replacing `x` in the entry `x` gives `-1`, which parses. */
  lemma XReadsAsMinusOne()
    ensures ParseInt32(Replace("x", "x", "-1", false)) == Some(-1)
  {
    assert MatchesAt("x", 0, "x", false);
    assert Replace("x", "x", "-1", false) == "-1" + Replace("", "x", "-1", false);
    assert "-1"[1..] == "1";
  }

  // ---------------------------------------------------------------- part 1

  /** C#'s `/` on `int`: the quotient is truncated toward zero. */
  function Quot(a: int, b: int): (q: int)
    requires b != 0
    ensures a >= 0 && b > 0 ==> q == a / b
  {
    var q := (if a < 0 then -a else a) / (if b < 0 then -b else b);
    if (a < 0) != (b < 0) then -q else q
  }

  /** The wait for bus `id` after `timestamp`: the next departure at or after
      `timestamp`, minus `timestamp`. */
  function Wait(timestamp: int, id: int): int
    requires id != 0
  {
    id * (Quot(timestamp - 1, id) + 1) - timestamp
  }

  /** Bus `id` leaves `w` minutes after `timestamp`. */
  predicate LeavesAfter(id: int, timestamp: int, w: int)
    requires id != 0
  {
    (timestamp + w) % id == 0
  }

  /** For a positive timestamp and id the wait is the least `w >= 0` at which
      the bus leaves: it lies in `[0, id)` and the bus leaves then. */
  lemma WaitIsNextDeparture(timestamp: int, id: int)
    requires timestamp >= 1 && id >= 1
    ensures 0 <= Wait(timestamp, id) < id
    ensures LeavesAfter(id, timestamp, Wait(timestamp, id))
    ensures forall w :: 0 <= w < Wait(timestamp, id) ==> !LeavesAfter(id, timestamp, w)
  {
    var q, r := (timestamp - 1) / id, (timestamp - 1) % id;
    assert Quot(timestamp - 1, id) == q;
    assert timestamp == id * q + r + 1;
    assert id * (q + 1) == id * q + id;
    assert Wait(timestamp, id) == id - 1 - r;
    ModUnique(timestamp + Wait(timestamp, id), id, q + 1, 0);
    forall w | 0 <= w < Wait(timestamp, id)
      ensures !LeavesAfter(id, timestamp, w)
    {
      ModUnique(timestamp + w, id, q, r + 1 + w);
    }
  }

  /** Division with remainder is unique: `x = v * q + r` with `0 <= r < v`
      fixes the remainder. */
  lemma ModUnique(x: int, v: int, q: int, r: int)
    requires v >= 1 && 0 <= r < v && x == v * q + r
    ensures x % v == r
  {
    var d := q - x / v;
    assert v * d == x % v - r;
    if d >= 1 {
      MulAtLeast(v, d);
    } else if d <= -1 {
      MulAtLeast(v, -d);
    }
  }

  lemma MulAtLeast(v: int, d: int)
    requires v >= 1 && d >= 1
    ensures v * d >= v
  {
  }

  /** `SolvePart1`'s loop, returning the chosen bus and its wait: a strictly
      shorter wait replaces the current choice, so ties keep the first bus,
      and a zero id divides by zero. */
  method EarliestBus(timestamp: int, ids: seq<int>) returns (r: Result<(int, int)>)
    ensures r.Ok? <==> forall k :: 0 <= k < |ids| ==> ids[k] != 0
    ensures r.Ok? ==> IsEarliest(timestamp, ids, r.value)
    ensures r.Ok? ==> forall k :: 0 <= k < |ids| ==> r.value.1 <= Wait(timestamp, ids[k])
    ensures r.Ok? ==> (r.value == (-1, MaxInt) && (forall k :: 0 <= k < |ids| ==> Wait(timestamp, ids[k]) >= MaxInt))
                      || exists k :: (0 <= k < |ids| && r.value == (ids[k], Wait(timestamp, ids[k]))
                                      && forall j :: 0 <= j < k ==> Wait(timestamp, ids[j]) > r.value.1)
  {
    var shortest, quickest := MaxInt, -1;
    var i := 0;
    while i < |ids|
      invariant 0 <= i <= |ids|
      invariant forall k :: 0 <= k < i ==> ids[k] != 0
      invariant forall k :: 0 <= k < i ==> shortest <= Wait(timestamp, ids[k])
      invariant ((quickest, shortest) == (-1, MaxInt) && (forall k :: 0 <= k < i ==> Wait(timestamp, ids[k]) >= MaxInt))
                || exists k :: (0 <= k < i && (quickest, shortest) == (ids[k], Wait(timestamp, ids[k]))
                                && shortest < MaxInt
                                && forall j :: 0 <= j < k ==> Wait(timestamp, ids[j]) > shortest)
    {
      if ids[i] == 0 {
        return Err("Attempted to divide by zero.");
      }
      var wait := Wait(timestamp, ids[i]);
      if wait < shortest {
        shortest, quickest := wait, ids[i];
      }
      i := i + 1;
    }
    return Ok((quickest, shortest));
  }

  /** `c` is what part 1's loop settles on: the first bus with the least
      wait, or `(-1, int.MaxValue)` when no wait is below `int.MaxValue`. */
  predicate IsEarliest(timestamp: int, ids: seq<int>, c: (int, int))
    requires forall k :: 0 <= k < |ids| ==> ids[k] != 0
  {
    (forall k :: 0 <= k < |ids| ==> c.1 <= Wait(timestamp, ids[k]))
    && ((c == (-1, MaxInt) && forall k :: 0 <= k < |ids| ==> Wait(timestamp, ids[k]) >= MaxInt)
        || exists k :: (0 <= k < |ids| && c == (ids[k], Wait(timestamp, ids[k])) && c.1 < MaxInt
                        && forall j :: 0 <= j < k ==> Wait(timestamp, ids[j]) > c.1))
  }

  /** Part 1's choice is determined by the timestamp and the ids. */
  lemma EarliestUnique(timestamp: int, ids: seq<int>, c: (int, int), d: (int, int))
    requires forall k :: 0 <= k < |ids| ==> ids[k] != 0
    requires IsEarliest(timestamp, ids, c) && IsEarliest(timestamp, ids, d)
    ensures c == d
  {
    if c != (-1, MaxInt) && d != (-1, MaxInt) {
      var kc :| 0 <= kc < |ids| && c == (ids[kc], Wait(timestamp, ids[kc])) && c.1 < MaxInt
                && forall j :: 0 <= j < kc ==> Wait(timestamp, ids[j]) > c.1;
      var kd :| 0 <= kd < |ids| && d == (ids[kd], Wait(timestamp, ids[kd])) && d.1 < MaxInt
                && forall j :: 0 <= j < kd ==> Wait(timestamp, ids[j]) > d.1;
      var wc, wd := Wait(timestamp, ids[kc]), Wait(timestamp, ids[kd]);
      assert c.1 <= wd && d.1 <= wc;
      assert kc < kd ==> wc > d.1;
      assert kd < kc ==> wd > c.1;
    }
  }

  /** The answer is the chosen bus's id times its wait. */
  method Part1(timestamp: int, ids: seq<int>) returns (r: Result<int>)
    ensures r.Ok? <==> forall k :: 0 <= k < |ids| ==> ids[k] != 0
    ensures r.Ok? ==> exists c :: IsEarliest(timestamp, ids, c) && r.value == c.0 * c.1
  {
    var chosen :- EarliestBus(timestamp, ids);
    return Ok(chosen.0 * chosen.1);
  }

  // ---------------------------------------------------------------- part 2

  /** A bus of the schedule and its position in it. */
  datatype Bus = Bus(id: int, offset: nat)

  predicate Positive(buses: seq<Bus>) {
    forall k :: 0 <= k < |buses| ==> buses[k].id > 0
  }

  /** `SolvePart2`'s filter from position `i` on: entries that are not
      positive are dropped, the rest keep their position as offset. */
  function IndexedFrom(ids: seq<int>, i: nat): (buses: seq<Bus>)
    ensures Positive(buses)
    ensures forall k :: 0 <= k < |buses| ==> i <= buses[k].offset < |ids| && ids[buses[k].offset] == buses[k].id
    ensures forall k, j :: 0 <= k < j < |buses| ==> buses[k].offset < buses[j].offset
    ensures forall p :: i <= p < |ids| && ids[p] > 0 ==> Bus(ids[p], p) in buses
    decreases |ids| - i
  {
    if i >= |ids| then []
    else if ids[i] > 0 then [Bus(ids[i], i)] + IndexedFrom(ids, i + 1)
    else IndexedFrom(ids, i + 1)
  }

  function Indexed(ids: seq<int>): seq<Bus> {
    IndexedFrom(ids, 0)
  }

  /** `TestSolution`: every bus leaves `offset` minutes after `timestamp`. */
  predicate TestSolution(timestamp: int, buses: seq<Bus>)
    requires Positive(buses)
  {
    forall k :: 0 <= k < |buses| ==> (timestamp + buses[k].offset) % buses[k].id == 0
  }

  /** C#'s `%`: the remainder of the division that truncates toward zero,
      negative for a negative dividend. */
  function Rem(a: int, b: int): int
    requires b != 0
  {
    a - b * Quot(a, b)
  }

  /** The truncating remainder is zero exactly when the Euclidean one is:
      both say that `v` divides `a`. */
  lemma RemZeroIffDivides(a: int, v: int)
    requires v >= 1
    ensures Rem(a, v) == 0 <==> a % v == 0
  {
    if a < 0 {
      var b := -a;
      assert Quot(a, v) == -(b / v);
      assert Rem(a, v) == -(b % v) by {
        assert b == v * (b / v) + b % v;
      }
      if b % v == 0 {
        assert a == v * -(b / v) + 0;
        ModUnique(a, v, -(b / v), 0);
      }
      if a % v == 0 {
        assert b == v * -(a / v) + 0;
        ModUnique(b, v, -(a / v), 0);
      }
    }
  }

  /** `TestSolution` as the source's loop reads it, with C#'s `%`: every bus
      leaves a truncating remainder of zero, so no bus makes it return false. */
  lemma TestSolutionTruncating(timestamp: int, buses: seq<Bus>)
    requires Positive(buses)
    ensures TestSolution(timestamp, buses) <==>
      forall k :: 0 <= k < |buses| ==> Rem(timestamp + buses[k].offset, buses[k].id) == 0
  {
    forall k | 0 <= k < |buses|
      ensures Rem(timestamp + buses[k].offset, buses[k].id) == 0 <==> (timestamp + buses[k].offset) % buses[k].id == 0
    {
      RemZeroIffDivides(timestamp + buses[k].offset, buses[k].id);
    }
  }

  /** The product of the ids: `FindSolution`'s `iterationJump`. */
  function Jump(buses: seq<Bus>): (j: int)
    requires Positive(buses)
    ensures j >= 1
  {
    if |buses| == 0 then 1 else buses[0].id * Jump(buses[1..])
  }

  lemma {:induction false} JumpIsMultiple(buses: seq<Bus>, k: nat)
    requires Positive(buses) && k < |buses|
    ensures Jump(buses) % buses[k].id == 0
  {
    if k == 0 {
      ModUnique(Jump(buses), buses[0].id, Jump(buses[1..]), 0);
    } else {
      JumpIsMultiple(buses[1..], k - 1);
      ScaledMultiple(Jump(buses[1..]), buses[0].id, buses[k].id);
    }
  }

  lemma ScaledMultiple(a: int, c: int, v: int)
    requires v >= 1 && a % v == 0
    ensures (c * a) % v == 0
  {
    var m := a / v;
    assert a == v * m;
    assert c * a == v * (c * m);
    ModUnique(c * a, v, c * m, 0);
  }

  lemma ShiftedByMultiple(a: int, m: int, v: int)
    requires v >= 1 && m % v == 0
    ensures (a + m) % v == a % v
  {
    var n := m / v;
    assert m == v * n;
    assert a + m == v * (a / v + n) + a % v;
    ModUnique(a + m, v, a / v + n, a % v);
  }

  /** Why the search steps by `Jump`: adding any multiple of the product of
      the ids keeps every one of those buses satisfied. */
  lemma JumpKeepsSolution(timestamp: int, buses: seq<Bus>, k: int)
    requires Positive(buses) && TestSolution(timestamp, buses)
    ensures TestSolution(timestamp + k * Jump(buses), buses)
  {
    forall b | 0 <= b < |buses|
      ensures (timestamp + k * Jump(buses) + buses[b].offset) % buses[b].id == 0
    {
      JumpIsMultiple(buses, b);
      ScaledMultiple(Jump(buses), k, buses[b].id);
      ShiftedByMultiple(timestamp + buses[b].offset, k * Jump(buses), buses[b].id);
    }
  }

  /** The `n`-th timestamp the search tries. */
  function NthCandidate(timestamp: int, jump: int, n: nat): int {
    timestamp + n * jump
  }

  /** Trying from the next candidate shifts the count by one. */
  lemma NthCandidateShift(timestamp: int, jump: int, n: nat)
    ensures NthCandidate(timestamp, jump, n + 1) == NthCandidate(timestamp + jump, jump, n)
  {
    assert (n + 1) * jump == n * jump + jump;
  }

  /** `r` is the first of `timestamp`, `timestamp + jump`, ... within `fuel`
      steps that passes `TestSolution`, or none when none of them does. */
  predicate FirstWithin(buses: seq<Bus>, timestamp: int, jump: int, fuel: nat, r: Option<int>)
    requires Positive(buses)
  {
    && (r.Some? ==> TestSolution(r.value, buses))
    && (r.Some? ==> exists n: nat :: (n <= fuel && r.value == NthCandidate(timestamp, jump, n)
                                     && forall j: nat :: j < n ==> !TestSolution(NthCandidate(timestamp, jump, j), buses)))
    && (r.None? <==> forall j: nat :: j <= fuel ==> !TestSolution(NthCandidate(timestamp, jump, j), buses))
  }

  /** The reference search: the first candidate that passes, or none. */
  function FirstCandidate(buses: seq<Bus>, timestamp: int, jump: int, fuel: nat): (r: Option<int>)
    requires Positive(buses)
    ensures FirstWithin(buses, timestamp, jump, fuel, r)
    decreases fuel
  {
    if TestSolution(timestamp, buses) then
      assert NthCandidate(timestamp, jump, 0) == timestamp;
      Some(timestamp)
    else if fuel == 0 then
      assert forall j: nat :: j <= fuel ==> NthCandidate(timestamp, jump, j) == timestamp;
      None
    else
      var rest := FirstCandidate(buses, timestamp + jump, jump, fuel - 1);
      FirstWithinStep(buses, timestamp, jump, fuel, rest);
      rest
  }

  /** A search that fails its first candidate answers what the search from
      the next candidate, with one step less, answers. */
  lemma FirstWithinStep(buses: seq<Bus>, timestamp: int, jump: int, fuel: nat, r: Option<int>)
    requires Positive(buses) && fuel > 0 && !TestSolution(timestamp, buses)
    requires FirstWithin(buses, timestamp + jump, jump, fuel - 1, r)
    ensures FirstWithin(buses, timestamp, jump, fuel, r)
  {
    var next := timestamp + jump;
    assert NthCandidate(timestamp, jump, 0) == timestamp;
    forall j: nat | 1 <= j <= fuel
      ensures NthCandidate(timestamp, jump, j) == NthCandidate(next, jump, j - 1)
    {
      NthCandidateShift(timestamp, jump, j - 1);
    }
    if r.Some? {
      var n: nat :| n <= fuel - 1 && r.value == NthCandidate(next, jump, n)
                    && forall j: nat :: j < n ==> !TestSolution(NthCandidate(next, jump, j), buses);
      assert r.value == NthCandidate(timestamp, jump, n + 1);
    }
  }

  /** `FindTimestamp` with at most `fuel` steps: the loop answers the first
      candidate that passes `TestSolution`. */
  method FindTimestamp(buses: seq<Bus>, timestamp: int, jump: int, fuel: nat) returns (r: Option<int>)
    requires Positive(buses)
    ensures r == FirstCandidate(buses, timestamp, jump, fuel)
    ensures FirstWithin(buses, timestamp, jump, fuel, r)
  {
    var t, n := timestamp, 0;
    while n <= fuel
      invariant 0 <= n <= fuel + 1
      invariant t == timestamp + n * jump
      invariant FirstCandidate(buses, timestamp, jump, fuel) == if n <= fuel then FirstCandidate(buses, t, jump, fuel - n) else None
    {
      if TestSolution(t, buses) {
        return Some(t);
      }
      assert (n + 1) * jump == n * jump + jump;
      t, n := t + jump, n + 1;
    }
    return None;
  }

  /** The timestamp `FindSolution` holds after its first `i` steps, or none
      once a step runs out of fuel. Step `i` starts from the timestamp of the
      steps before and answers the first candidate, stepping by the product
      of the first `i` ids, that satisfies the first `i + 1` buses. */
  function Stage(buses: seq<Bus>, i: nat, fuel: nat): (r: Option<int>)
    requires Positive(buses) && 0 < |buses| && i <= |buses|
    ensures r.Some? ==> TestSolution(r.value, buses[..i])
    ensures i > 0 && r.Some? ==> Stage(buses, i - 1, fuel).Some?
    ensures i > 0 && Stage(buses, i - 1, fuel).Some? ==>
              FirstWithin(buses[..i], Stage(buses, i - 1, fuel).value, Jump(buses[..i - 1]), fuel, r)
    decreases i
  {
    if i == 0 then Some(buses[0].id)
    else
      var t :- Stage(buses, i - 1, fuel);
      FirstCandidate(buses[..i], t, Jump(buses[..i - 1]), fuel)
  }

  /** `FindSolution`: start at the first id; at step `i` search, stepping by
      the product of the first `i` ids, for a timestamp that satisfies the
      first `i + 1` buses. An empty list throws; a step that finds nothing
      within `fuel` candidates stands for the original's endless search. */
  method FindSolution(buses: seq<Bus>, fuel: nat) returns (r: Result<int>)
    requires Positive(buses)
    ensures |buses| == 0 ==> r.Err?
    ensures |buses| > 0 ==> (r.Ok? <==> Stage(buses, |buses|, fuel).Some?)
    ensures r.Ok? ==> |buses| > 0 && Stage(buses, |buses|, fuel) == Some(r.value)
    ensures r.Ok? ==> TestSolution(r.value, buses)
    ensures r.Ok? && PairwiseCoprime(buses) ==>
              forall t :: buses[0].id <= t && TestSolution(t, buses) ==> r.value <= t
  {
    if |buses| == 0 {
      return Err("Index was out of range");
    }
    var timestamp := buses[0].id;
    var i := 0;
    while i < |buses|
      invariant 0 <= i <= |buses|
      invariant Stage(buses, i, fuel) == Some(timestamp)
    {
      var found := FindTimestamp(buses[..i + 1], timestamp, Jump(buses[..i]), fuel);
      if found.None? {
        StageStaysNone(buses, i + 1, |buses|, fuel);
        return Err("Out of fuel");
      }
      timestamp := found.value;
      i := i + 1;
    }
    assert buses[..|buses|] == buses;
    if PairwiseCoprime(buses) {
      StageIsEarliest(buses, |buses|, fuel);
    }
    return Ok(timestamp);
  }

  /** Once a step runs out of fuel no later step answers. */
  lemma StageStaysNone(buses: seq<Bus>, i: nat, j: nat, fuel: nat)
    requires Positive(buses) && 0 < |buses| && i <= j <= |buses|
    requires Stage(buses, i, fuel).None?
    ensures Stage(buses, j, fuel).None?
  {
    var k := i;
    while k < j
      invariant i <= k <= j && Stage(buses, k, fuel).None?
    {
      StageNoneNext(buses, k, fuel);
      k := k + 1;
    }
  }

  lemma StageNoneNext(buses: seq<Bus>, i: nat, fuel: nat)
    requires Positive(buses) && 0 < |buses| && i < |buses|
    requires Stage(buses, i, fuel).None?
    ensures Stage(buses, i + 1, fuel).None?
  {
  }

  // ------------------------------------------------ the earliest timestamp

  function Combination(a: int, x: int, b: int, y: int): int {
    a * x + b * y
  }

  /** `a` and `b` are coprime: some integer combination of them is 1. */
  ghost predicate Coprime(a: int, b: int) {
    exists x, y :: Combination(a, x, b, y) == 1
  }

  /** No two ids share a factor, as when every id is prime and they differ. */
  ghost predicate PairwiseCoprime(buses: seq<Bus>) {
    forall k, l :: 0 <= k < l < |buses| ==> Coprime(buses[k].id, buses[l].id)
  }

  /** A number coprime to two numbers is coprime to their product. */
  lemma CoprimeToProduct(c: int, a: int, b: int)
    requires Coprime(c, a) && Coprime(c, b)
    ensures Coprime(c, a * b)
  {
    var x, y :| Combination(c, x, a, y) == 1;
    var u, v :| Combination(c, u, b, v) == 1;
    assert (a * y) * (b * v) == (1 - c * x) * (1 - c * u);
    assert Combination(c, x + u - c * x * u, a * b, y * v) == 1;
  }

  /** A number coprime to every id is coprime to their product. */
  lemma {:induction false} CoprimeToJump(c: int, buses: seq<Bus>)
    requires Positive(buses)
    requires forall k :: 0 <= k < |buses| ==> Coprime(c, buses[k].id)
    ensures Coprime(c, Jump(buses))
  {
    if |buses| == 0 {
      assert Combination(c, 0, 1, 1) == 1;
    } else {
      CoprimeToJump(c, buses[1..]);
      assert Coprime(c, buses[0].id);
      CoprimeToProduct(c, Jump(buses[1..]), buses[0].id);
      assert Jump(buses) == Jump(buses[1..]) * buses[0].id;
    }
  }

  /** A number that two coprime numbers divide is divisible by their
      product. */
  lemma CoprimeDivides(a: int, b: int, n: int)
    requires a >= 1 && b >= 1 && Coprime(a, b)
    requires n % a == 0 && n % b == 0
    ensures n % (a * b) == 0
  {
    var x, y :| Combination(a, x, b, y) == 1;
    var p, q := n / a, n / b;
    assert n == a * p && n == b * q;
    ProductCombination(n, a, x, b, y, p, q);
    ModUnique(n, a * b, q * x + p * y, 0);
  }

  lemma ProductCombination(n: int, a: int, x: int, b: int, y: int, p: int, q: int)
    requires a * x + b * y == 1 && n == a * p && n == b * q
    ensures n == (a * b) * (q * x + p * y)
  {
    calc {
      n;
      n * (a * x + b * y);
      (n * a) * x + (n * b) * y;
      ((b * q) * a) * x + ((a * p) * b) * y;
      (a * b) * (q * x + p * y);
    }
  }

  /** Two timestamps at which one bus leaves at its offset differ by a
      multiple of its id. */
  lemma SameBusDifference(t: int, s: int, bus: Bus)
    requires bus.id > 0
    requires (t + bus.offset) % bus.id == 0 && (s + bus.offset) % bus.id == 0
    ensures (t - s) % bus.id == 0
  {
    var p, q := (t + bus.offset) / bus.id, (s + bus.offset) / bus.id;
    assert t - s == bus.id * (p - q);
    ModUnique(t - s, bus.id, p - q, 0);
  }

  /** With pairwise coprime ids, two timestamps that satisfy every bus differ
      by a multiple of the product of the ids. */
  lemma {:induction false} SolutionsDifferByJump(t: int, s: int, buses: seq<Bus>)
    requires Positive(buses) && PairwiseCoprime(buses)
    requires TestSolution(t, buses) && TestSolution(s, buses)
    ensures (t - s) % Jump(buses) == 0
  {
    if |buses| == 0 {
      ModUnique(t - s, 1, t - s, 0);
    } else {
      var rest := buses[1..];
      assert TestSolution(t, rest) && TestSolution(s, rest);
      assert PairwiseCoprime(rest) by {
        forall k, l | 0 <= k < l < |rest| ensures Coprime(rest[k].id, rest[l].id) {
          assert rest[k] == buses[k + 1] && rest[l] == buses[l + 1];
        }
      }
      SolutionsDifferByJump(t, s, rest);
      SameBusDifference(t, s, buses[0]);
      forall k | 0 <= k < |rest| ensures Coprime(buses[0].id, rest[k].id) {
        assert rest[k] == buses[k + 1];
      }
      CoprimeToJump(buses[0].id, rest);
      CoprimeDivides(buses[0].id, Jump(rest), t - s);
    }
  }

  /** The ids of a prefix are pairwise coprime when all the ids are. */
  lemma PrefixCoprime(buses: seq<Bus>, i: nat)
    requires PairwiseCoprime(buses) && i <= |buses|
    ensures PairwiseCoprime(buses[..i])
  {
    forall k, l | 0 <= k < l < i ensures Coprime(buses[..i][k].id, buses[..i][l].id) {
      assert buses[..i][k] == buses[k] && buses[..i][l] == buses[l];
    }
  }

  /** A timestamp that satisfies a prefix of the buses satisfies every
      shorter prefix. */
  lemma PrefixSolution(t: int, buses: seq<Bus>, i: nat)
    requires Positive(buses) && 0 < i <= |buses| && TestSolution(t, buses[..i])
    ensures TestSolution(t, buses[..i - 1])
  {
    forall k | 0 <= k < i - 1 ensures buses[..i - 1][k] == buses[..i][k] {
    }
  }

  /** A timestamp `m` steps of `jump` past `s` is the `m`-th candidate. */
  lemma OnTheGrid(t: int, s: int, jump: int) returns (m: nat)
    requires jump >= 1 && s <= t && (t - s) % jump == 0
    ensures t == NthCandidate(s, jump, m)
  {
    m := (t - s) / jump;
    assert t - s == jump * m;
  }

  /** Fewer steps of a positive jump reach a smaller timestamp. */
  lemma CandidatesIncrease(s: int, jump: int, m: nat, n: nat)
    requires jump >= 1 && m < n
    ensures NthCandidate(s, jump, m) < NthCandidate(s, jump, n)
  {
    assert n * jump == m * jump + (n - m) * jump;
  }

  /** With pairwise coprime ids, the timestamp after `i` steps is the
      earliest from the first id on that satisfies the first `i` buses: the
      solutions of the earlier buses are exactly the candidates of the step. */
  lemma {:induction false} StageIsEarliest(buses: seq<Bus>, i: nat, fuel: nat)
    requires Positive(buses) && PairwiseCoprime(buses) && 0 < |buses| && i <= |buses|
    requires Stage(buses, i, fuel).Some?
    ensures forall t :: buses[0].id <= t && TestSolution(t, buses[..i]) ==> Stage(buses, i, fuel).value <= t
    decreases i
  {
    if i > 0 {
      StageIsEarliest(buses, i - 1, fuel);
      PrefixCoprime(buses, i - 1);
      forall t | buses[0].id <= t && TestSolution(t, buses[..i])
        ensures Stage(buses, i, fuel).value <= t
      {
        PrefixSolution(t, buses, i);
        StepIsEarliest(buses, i, fuel, t);
      }
    }
  }

  /** One step of `StageIsEarliest`: a solution for the first `i` buses at
      or after the previous step's answer is on that step's grid, and the
      search stops at the first grid point that is a solution. */
  lemma StepIsEarliest(buses: seq<Bus>, i: nat, fuel: nat, t: int)
    requires Positive(buses) && 0 < i <= |buses| && PairwiseCoprime(buses[..i - 1])
    requires Stage(buses, i, fuel).Some?
    requires Stage(buses, i - 1, fuel).value <= t && TestSolution(t, buses[..i])
    ensures Stage(buses, i, fuel).value <= t
  {
    var s := Stage(buses, i - 1, fuel).value;
    assert TestSolution(s, buses[..i - 1]);
    PrefixSolution(t, buses, i);
    SolutionsDifferByJump(t, s, buses[..i - 1]);
    FirstIsEarliest(buses[..i], s, Jump(buses[..i - 1]), fuel, Stage(buses, i, fuel), t);
  }

  /** The first passing candidate comes no later than any passing grid
      point at or after the start. */
  lemma FirstIsEarliest(buses: seq<Bus>, s: int, jump: int, fuel: nat, r: Option<int>, t: int)
    requires Positive(buses) && jump >= 1 && FirstWithin(buses, s, jump, fuel, r) && r.Some?
    requires s <= t && (t - s) % jump == 0 && TestSolution(t, buses)
    ensures r.value <= t
  {
    var m := OnTheGrid(t, s, jump);
    var n: nat :| n <= fuel && r.value == NthCandidate(s, jump, n)
                  && forall j: nat :: j < n ==> !TestSolution(NthCandidate(s, jump, j), buses);
    assert n <= m;
    if n < m {
      CandidatesIncrease(s, jump, n, m);
    }
  }

  /** Every candidate the search at step `i` visits already satisfies the
      first `i` buses, so only the new bus is ever in question. */
  lemma CandidatesKeepEarlierBuses(buses: seq<Bus>, i: nat, timestamp: int, n: int)
    requires Positive(buses) && i <= |buses| && TestSolution(timestamp, buses[..i])
    ensures TestSolution(timestamp + n * Jump(buses[..i]), buses[..i])
  {
    JumpKeepsSolution(timestamp, buses[..i], n);
  }

  /** Part 2: the search over the buses at their schedule positions. It
      answers exactly when every step finds its candidate within the fuel;
      with pairwise coprime ids the answer is the earliest timestamp, from
      the first id on, at which every bus leaves at its offset. */
  method Part2(ids: seq<int>, fuel: nat) returns (r: Result<int>)
    ensures |Indexed(ids)| == 0 ==> r.Err?
    ensures |Indexed(ids)| > 0 ==> (r.Ok? <==> Stage(Indexed(ids), |Indexed(ids)|, fuel).Some?)
    ensures r.Ok? ==> TestSolution(r.value, Indexed(ids))
    ensures r.Ok? && PairwiseCoprime(Indexed(ids)) ==>
              forall t :: Indexed(ids)[0].id <= t && TestSolution(t, Indexed(ids)) ==> r.value <= t
  {
    r := FindSolution(Indexed(ids), fuel);
  }
}
