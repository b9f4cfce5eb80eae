/** Day 5, Binary Boarding: a boarding pass halves the row range 0..127 with
    `F`/`B` and the column range 0..7 with `L`/`R`; the seat id is
    `row * 8 + column`. Part 2 looks for the gap in the sorted ids. */
module Day5 {
  import opened Wrappers
  import opened Strings
  import opened Seqs

  predicate IsLower(c: char) { c == 'F' || c == 'L' }
  predicate IsUpper(c: char) { c == 'B' || c == 'R' }

  /** `CalculateNewBound`: the lower or upper half of `lo..hi`; any other
      character throws. The halving divides a non-negative width, so C#'s
      truncating division agrees with Dafny's. */
  function NewBound(lo: int, hi: int, op: char): (r: Result<(int, int)>)
    requires lo < hi
    ensures r.Ok? <==> IsLower(op) || IsUpper(op)
    ensures r.Ok? ==> lo <= r.value.0 <= r.value.1 <= hi
    ensures r.Ok? ==> r.value.1 - r.value.0 == (hi - lo - 1) / 2
    ensures IsLower(op) ==> r.Ok? && r.value.0 == lo
    ensures IsUpper(op) ==> r.Ok? && r.value.1 == hi
  {
    if IsLower(op) then Ok((lo, hi - (hi - lo) / 2 - 1))
    else if IsUpper(op) then Ok((lo + (hi - lo) / 2 + 1, hi))
    else Err("Invalid operation")
  }

  /** `CalculatePosition`: apply operations until the range is one number;
      running out of operations first throws. */
  function Position(lo: int, hi: int, ops: string): (r: Result<int>)
    requires lo < hi
    ensures r.Ok? ==> lo <= r.value <= hi
    decreases |ops|
  {
    if |ops| == 0 then Err("No answer found")
    else
      var (lo', hi') :- NewBound(lo, hi, ops[0]);
      if lo' == hi' then Ok(lo') else Position(lo', hi', ops[1..])
  }

  function Pow2(k: nat): (p: nat)
    ensures p >= 1
  {
    if k == 0 then 1 else 2 * Pow2(k - 1)
  }

  /** The operations read as a binary number, upper half = 1, first = most
      significant. */
  function Binary(ops: string): (v: nat)
    ensures v < Pow2(|ops|)
  {
    if |ops| == 0 then 0
    else (if IsUpper(ops[0]) then Pow2(|ops| - 1) else 0) + Binary(ops[1..])
  }

  lemma {:induction false} BinaryAppend(a: string, b: string)
    ensures Binary(a + b) == Binary(a) * Pow2(|b|) + Binary(b)
  {
    if |a| == 0 {
      assert a + b == b;
    } else {
      var t := a[1..];
      var p := Pow2(|b|);
      var h := if IsUpper(a[0]) then Pow2(|t|) else 0;
      assert (a + b)[1..] == t + b && (a + b)[0] == a[0];
      BinaryAppend(t, b);
      HeadWeight(a[0], |t|, |b|);
      assert Binary(a + b) == h * p + Binary(t + b);
      Distribute(h, Binary(t), p);
    }
  }

  /** The first letter's weight in front of `n` more letters. */
  lemma HeadWeight(c: char, m: nat, n: nat)
    ensures (if IsUpper(c) then Pow2(m + n) else 0) == (if IsUpper(c) then Pow2(m) else 0) * Pow2(n)
  {
    PowAdd(m, n);
  }

  lemma Distribute(x: int, y: int, p: int)
    ensures x * p + y * p == (x + y) * p
  {
  }

  lemma {:induction false} PowAdd(m: nat, n: nat)
    ensures Pow2(m + n) == Pow2(m) * Pow2(n)
  {
    if m > 0 {
      PowAdd(m - 1, n);
    }
  }

  predicate Code(ops: string) {
    forall k :: 0 <= k < |ops| ==> IsLower(ops[k]) || IsUpper(ops[k])
  }

  /** Halving a range of exactly 2^k numbers with k valid operations lands
      on the number the operations spell in binary. */
  lemma {:induction false} PositionIsBinary(lo: int, hi: int, ops: string)
    requires |ops| >= 1 && Code(ops) && hi == lo + Pow2(|ops|) - 1
    ensures Position(lo, hi, ops) == Ok(lo + Binary(ops))
    decreases |ops|
  {
    if |ops| == 1 {
      PositionOfOne(lo, hi, ops);
    } else {
      var lo' := lo + Upper(ops);
      CodeTail(ops);
      PositionIsBinary(lo', lo' + Pow2(|ops| - 1) - 1, ops[1..]);
      PositionOfMore(lo, hi, ops);
    }
  }

  /** What the first operation adds to the lower end of a range of
      `2^|ops|` numbers. */
  function Upper(ops: string): nat
    requires |ops| >= 1
  {
    if IsUpper(ops[0]) then Pow2(|ops| - 1) else 0
  }

  lemma PositionOfOne(lo: int, hi: int, ops: string)
    requires |ops| == 1 && Code(ops) && hi == lo + Pow2(1) - 1
    ensures Position(lo, hi, ops) == Ok(lo + Binary(ops))
  {
    HalfOfRange(lo, hi, ops);
    BinaryHead(ops);
    PositionStep(lo, hi, ops, lo + Upper(ops), lo + Upper(ops));
  }

  /** The step of `PositionIsBinary`: the first operation keeps the half the
      rest of the operations then spell out. */
  lemma PositionOfMore(lo: int, hi: int, ops: string)
    requires |ops| >= 2 && Code(ops) && hi == lo + Pow2(|ops|) - 1
    requires var lo' := lo + Upper(ops);
      Position(lo', lo' + Pow2(|ops| - 1) - 1, ops[1..]) == Ok(lo' + Binary(ops[1..]))
    ensures Position(lo, hi, ops) == Ok(lo + Binary(ops))
  {
    var lo' := lo + Upper(ops);
    var hi' := lo' + Pow2(|ops| - 1) - 1;
    HalfOfRange(lo, hi, ops);
    PowAtLeastTwo(|ops| - 1);
    assert lo' < hi';
    PositionStep(lo, hi, ops, lo', hi');
    assert Position(lo, hi, ops) == Ok(lo' + Binary(ops[1..]));
    BinaryHead(ops);
    assert Binary(ops) == Upper(ops) + Binary(ops[1..]);
  }

  lemma BinaryHead(ops: string)
    requires |ops| >= 1
    ensures Binary(ops) == (if IsUpper(ops[0]) then Pow2(|ops| - 1) else 0) + Binary(ops[1..])
    ensures |ops| == 1 ==> Pow2(|ops| - 1) == 1 && Binary(ops[1..]) == 0
  {
  }

  lemma PowAtLeastTwo(k: nat)
    requires k >= 1
    ensures Pow2(k) >= 2
  {
  }

  lemma CodeTail(ops: string)
    requires |ops| >= 1 && Code(ops)
    ensures Code(ops[1..])
  {
    assert forall j :: 0 <= j < |ops| - 1 ==> ops[1..][j] == ops[j + 1];
  }

  /** `CalculatePosition` after its first operation. */
  lemma PositionStep(lo: int, hi: int, ops: string, lo': int, hi': int)
    requires lo < hi && |ops| > 0 && NewBound(lo, hi, ops[0]) == Ok((lo', hi'))
    ensures lo' < hi' ==> Position(lo, hi, ops) == Position(lo', hi', ops[1..])
    ensures lo' == hi' ==> Position(lo, hi, ops) == Ok(lo')
  {
  }

  /** One operation on a range of `2^k` numbers keeps the lower or upper
      `2^(k-1)` of them. */
  lemma HalfOfRange(lo: int, hi: int, ops: string)
    requires |ops| >= 1 && (IsLower(ops[0]) || IsUpper(ops[0])) && hi == lo + Pow2(|ops|) - 1
    ensures lo < hi
    ensures NewBound(lo, hi, ops[0]) == Ok((lo + Upper(ops), lo + Upper(ops) + Pow2(|ops| - 1) - 1))
  {
    var half := Pow2(|ops| - 1);
    assert Pow2(|ops|) == 2 * half;
    assert (hi - lo) / 2 == half - 1;
  }

  // ------------------------------------------------------------ seat ids

  /** `CalculateSeatId`: the row reads the pass with `R` and `L` removed, the
      column the pass with `F` and `B` removed. */
  function SeatId(pass: string): Result<int> {
    var row :- Position(0, 127, RowCode(pass));
    var column :- Position(0, 7, ColumnCode(pass));
    Ok(row * 8 + column)
  }

  /** The pass with `R` and `L` removed. */
  function RowCode(pass: string): string {
    Replace(Replace(pass, "R", "", false), "L", "", false)
  }

  /** The pass with `F` and `B` removed. */
  function ColumnCode(pass: string): string {
    Replace(Replace(pass, "F", "", false), "B", "", false)
  }

  /** A well-formed pass (seven `F`/`B`, then three `L`/`R`) has the seat id its
      ten letters spell in binary. */
  lemma SeatIdIsBinary(rows: string, columns: string)
    requires |rows| == 7 && forall k :: 0 <= k < 7 ==> rows[k] in "FB"
    requires |columns| == 3 && forall k :: 0 <= k < 3 ==> columns[k] in "LR"
    ensures SeatId(rows + columns) == Ok(Binary(rows + columns))
  {
    var pass := rows + columns;
    RowLetters(rows, columns);
    ColumnLetters(rows, columns);
    HalvingRanges(rows, columns);
    BinaryAppend(rows, columns);
    var row := Binary(rows);
    var column := Binary(columns);
    assert Binary(pass) == row * 8 + column;
    SeatIdOf(pass, rows, columns, row, column, Binary(pass));
  }

  lemma SeatIdOf(pass: string, rows: string, columns: string, row: int, column: int, id: int)
    requires RowCode(pass) == rows && ColumnCode(pass) == columns
    requires Position(0, 127, rows) == Ok(row) && Position(0, 7, columns) == Ok(column)
    requires id == row * 8 + column
    ensures SeatId(pass) == Ok(id)
  {
  }

  lemma HalvingRanges(rows: string, columns: string)
    requires |rows| == 7 && forall k :: 0 <= k < 7 ==> rows[k] in "FB"
    requires |columns| == 3 && forall k :: 0 <= k < 3 ==> columns[k] in "LR"
    ensures Position(0, 127, rows) == Ok(Binary(rows))
    ensures Position(0, 7, columns) == Ok(Binary(columns))
    ensures Pow2(|columns|) == 8
  {
    assert Code(rows) by {
      forall k | 0 <= k < |rows| ensures IsLower(rows[k]) || IsUpper(rows[k]) {
        assert rows[k] in "FB";
      }
    }
    assert Code(columns) by {
      forall k | 0 <= k < |columns| ensures IsLower(columns[k]) || IsUpper(columns[k]) {
        assert columns[k] in "LR";
      }
    }
    PowSmall();
    PositionIsBinary(0, 127, rows);
    PositionIsBinary(0, 7, columns);
  }

  lemma PowSmall()
    ensures Pow2(3) == 8 && Pow2(7) == 128
  {
    assert Pow2(1) == 2;
    assert Pow2(2) == 4;
    assert Pow2(3) == 8;
    assert Pow2(4) == 16;
    assert Pow2(5) == 32;
    assert Pow2(6) == 64;
  }

  lemma RowLetters(rows: string, columns: string)
    requires forall k :: 0 <= k < |rows| ==> rows[k] in "FB"
    requires forall k :: 0 <= k < |columns| ==> columns[k] in "LR"
    ensures RowCode(rows + columns) == rows
  {
    var pass := rows + columns;
    ReplaceCharRemovesIt(pass, 'R');
    ReplaceCharRemovesIt(Filter(pass, 'R'), 'L');
    FilterAppend(rows, columns, 'R');
    FilterAbsent(rows, 'R');
    FilterAppend(rows, Filter(columns, 'R'), 'L');
    FilterAbsent(rows, 'L');
    DropColumns(columns);
  }

  lemma ColumnLetters(rows: string, columns: string)
    requires forall k :: 0 <= k < |rows| ==> rows[k] in "FB"
    requires forall k :: 0 <= k < |columns| ==> columns[k] in "LR"
    ensures ColumnCode(rows + columns) == columns
  {
    var pass := rows + columns;
    ReplaceCharRemovesIt(pass, 'F');
    ReplaceCharRemovesIt(Filter(pass, 'F'), 'B');
    FilterAppend(rows, columns, 'F');
    FilterAbsent(columns, 'F');
    FilterAppend(Filter(rows, 'F'), columns, 'B');
    FilterAbsent(columns, 'B');
    DropRows(rows);
  }

  lemma {:induction false} DropColumns(columns: string)
    requires forall k :: 0 <= k < |columns| ==> columns[k] in "LR"
    ensures Filter(Filter(columns, 'R'), 'L') == ""
  {
    if |columns| > 0 {
      DropColumns(columns[1..]);
      var t := Filter(columns, 'R');
      if columns[0] == 'L' {
        assert t == ['L'] + Filter(columns[1..], 'R');
        assert t[0] == 'L' && t[1..] == Filter(columns[1..], 'R');
        assert Filter(t, 'L') == Filter(t[1..], 'L');
      } else {
        assert t == Filter(columns[1..], 'R');
      }
    }
  }

  lemma {:induction false} DropRows(rows: string)
    requires forall k :: 0 <= k < |rows| ==> rows[k] in "FB"
    ensures Filter(Filter(rows, 'F'), 'B') == ""
  {
    if |rows| > 0 {
      DropRows(rows[1..]);
      var t := Filter(rows, 'F');
      if rows[0] == 'B' {
        assert t == ['B'] + Filter(rows[1..], 'F');
        assert t[0] == 'B' && t[1..] == Filter(rows[1..], 'F');
        assert Filter(t, 'B') == Filter(t[1..], 'B');
      } else {
        assert t == Filter(rows[1..], 'F');
      }
    }
  }

  function SeatIds(passes: seq<string>): (r: Result<seq<int>>)
    ensures r.Ok? ==> |r.value| == |passes|
    ensures r.Ok? ==> forall k :: 0 <= k < |passes| ==> SeatId(passes[k]) == Ok(r.value[k])
  {
    if |passes| == 0 then Ok([])
    else
      var first :- SeatId(passes[0]);
      var rest :- SeatIds(passes[1..]);
      Ok([first] + rest)
  }

  /** Part 1: the highest seat id; `Max()` of no ids throws. */
  function Part1(passes: seq<string>): (r: Result<int>)
    ensures r.Ok? <==> SeatIds(passes).Ok? && |passes| > 0
    ensures r.Ok? ==> (exists k :: 0 <= k < |passes| && SeatId(passes[k]) == Ok(r.value))
                      && forall k :: 0 <= k < |passes| ==> SeatId(passes[k]).Ok? && SeatId(passes[k]).value <= r.value
  {
    var ids :- SeatIds(passes);
    if |ids| == 0 then Err("Sequence contains no elements")
    else
      var m := Max(ids);
      var k :| 0 <= k < |ids| && ids[k] == m;
      Ok(m)
  }

  // ------------------------------------------------------------ the missing seat

  /** `seatIds.First(x => x != comparisonSeatId++) - 1` from position `i`,
      where the comparison value at position `i` is `ids[0] + i`. */
  function FirstGap(ids: seq<int>, i: nat): (r: Option<nat>)
    requires 0 < |ids|
    ensures r.Some? ==> i <= r.value < |ids| && ids[r.value] != ids[0] + r.value
                        && forall j :: i <= j < r.value ==> ids[j] == ids[0] + j
    ensures r.None? ==> forall j :: i <= j < |ids| ==> ids[j] == ids[0] + j
    decreases |ids| - i
  {
    if i >= |ids| then None
    else if ids[i] != ids[0] + i then Some(i)
    else FirstGap(ids, i + 1)
  }

  /** The ids run consecutively from the first. */
  predicate Consecutive(ids: seq<int>) {
    forall j :: 0 <= j < |ids| ==> ids[j] == ids[0] + j
  }

  function FindMissing(ids: seq<int>): (r: Result<int>)
    ensures r.Err? <==> |ids| == 0 || Consecutive(ids)
  {
    if |ids| == 0 then Err("Sequence contains no elements")
    else match FirstGap(ids, 0)
      case None => Err("Sequence contains no matching element")
      case Some(i) => Ok(ids[i] - 1)
  }

  predicate StrictlyIncreasing(ids: seq<int>) {
    forall i, j :: 0 <= i < j < |ids| ==> ids[i] < ids[j]
  }

  /** On distinct sorted ids the answer is a free seat directly below a taken
      one, above the lowest id, with no taken seat missing below it. */
  lemma FindMissingIsFree(ids: seq<int>)
    requires StrictlyIncreasing(ids) && FindMissing(ids).Ok?
    ensures FindMissing(ids).value !in ids
    ensures FindMissing(ids).value + 1 in ids
    ensures ids[0] < FindMissing(ids).value
  {
    var i := FirstGap(ids, 0).value;
    assert i > 0;
    assert ids[i - 1] == ids[0] + i - 1;
    var r := ids[i] - 1;
    forall j | 0 <= j < |ids| ensures ids[j] != r {
      if j < i {
        assert ids[j] <= ids[i - 1];
      } else if j > i {
        assert ids[j] > ids[i];
      }
    }
  }

  /** On distinct ids the first gap of the sorted ids is a free seat with a
      taken seat directly above it. */
  lemma SortedGapIsFree(ids: seq<int>)
    requires NoDup(ids) && FindMissing(Sort(ids)).Ok?
    ensures FindMissing(Sort(ids)).value !in ids
    ensures FindMissing(Sort(ids)).value + 1 in ids
    ensures exists k :: 0 <= k < |ids| && ids[k] < FindMissing(Sort(ids)).value
  {
    var sorted := Sort(ids);
    NoDupPermutation(ids, sorted);
    SortedDistinctIncreasing(sorted);
    FindMissingIsFree(sorted);
    GapInOriginal(ids, sorted, FindMissing(sorted).value);
  }

  lemma SortedDistinctIncreasing(xs: seq<int>)
    requires Sorted(xs) && NoDup(xs)
    ensures StrictlyIncreasing(xs)
  {
  }

  /** A gap found in a permutation of the ids is a gap of the ids. */
  lemma GapInOriginal(ids: seq<int>, sorted: seq<int>, v: int)
    requires multiset(ids) == multiset(sorted) && |sorted| > 0
    requires v !in sorted && v + 1 in sorted && sorted[0] < v
    ensures v !in ids && v + 1 in ids
    ensures exists k :: 0 <= k < |ids| && ids[k] < v
  {
    SameMembers(ids, sorted, v);
    SameMembers(ids, sorted, v + 1);
    SameMembers(ids, sorted, sorted[0]);
    var k :| 0 <= k < |ids| && ids[k] == sorted[0];
  }

  /** Two lists with the same multiset hold the same values. */
  lemma SameMembers(a: seq<int>, b: seq<int>, x: int)
    requires multiset(a) == multiset(b)
    ensures x in a <==> x in b
  {
    assert x in a <==> x in multiset(a);
    assert x in b <==> x in multiset(b);
  }


  /** Part 2: sort the ids and take the first gap. When no two passes share a
      seat, the answer is a free seat with a taken seat directly above it. */
  function Part2(passes: seq<string>): (r: Result<int>)
    ensures r.Ok? <==> SeatIds(passes).Ok? && |passes| > 0 && !Consecutive(Sort(SeatIds(passes).value))
    ensures r.Ok? && NoDup(SeatIds(passes).value) ==>
              && r.value !in SeatIds(passes).value && r.value + 1 in SeatIds(passes).value
              && exists k :: 0 <= k < |passes| && SeatIds(passes).value[k] < r.value
  {
    var ids :- SeatIds(passes);
    var m := FindMissing(Sort(ids));
    if NoDup(ids) && m.Ok? then SortedGapIsFree(ids); m else m
  }
}
