/** Day 11, Seating System: a grid of floor `.`, empty seats `L` and
    occupied seats `#` is updated in rounds until nothing changes. An empty
    seat with no occupied seat in view fills; an occupied seat with at least
    `seatLimit` occupied seats in view empties. Part 1 looks only at the eight
    neighbours (limit 4), part 2 at the first seat in each of the eight
    directions (limit 5). */
module Day11 {
  import opened Wrappers
  import opened Strings

  type Area = seq<seq<char>>

  /** `Layout`: the area with its row count and column count, and the
      viewing mode. */
  datatype Layout = Layout(area: Area, rows: nat, columns: nat, adjacentOnly: bool) {
    predicate Valid() {
      |area| == rows && forall r :: 0 <= r < rows ==> |area[r]| == columns
    }

    predicate Inside(row: int, column: int) {
      0 <= row < rows && 0 <= column < columns
    }
  }

  /** The `char` a `new char[,]` holds before anything is written. */
  const Blank: char := '\0'

  /** `SetupArea`: the size comes from the number of lines and the length
      of the first; a shorter line leaves blank cells, a longer one writes
      past the end and throws, and no lines at all throw on `input[0]`. */
  function SetupArea(input: seq<string>, adjacentOnly: bool): (r: Result<Layout>)
    ensures r.Ok? <==> |input| > 0 && forall k :: 0 <= k < |input| ==> |input[k]| <= |input[0]|
    ensures r.Ok? ==> r.value.Valid() && r.value.rows == |input| && r.value.columns == |input[0]|
    ensures r.Ok? ==> forall row, column :: 0 <= row < |input| && 0 <= column < |input[0]| ==>
      r.value.area[row][column] == if column < |input[row]| then input[row][column] else Blank
  {
    if |input| == 0 then Err("Index was out of range")
    else if exists k :: 0 <= k < |input| && |input[k]| > |input[0]| then Err("Index was outside the bounds of the array")
    else
      var columns := |input[0]|;
      var area := seq(|input|, row requires 0 <= row < |input| =>
        seq(columns, column requires 0 <= column < columns =>
          if column < |input[row]| then input[row][column] else Blank));
      Ok(Layout(area, |input|, columns, adjacentOnly))
  }

  /** The eight directions, in the order `GetSeats` visits them. */
  const Directions: seq<(int, int)> := [(0, 1), (1, 0), (0, -1), (-1, 0), (-1, -1), (-1, 1), (1, 1), (1, -1)]

  predicate Unit(d: (int, int)) {
    -1 <= d.0 <= 1 && -1 <= d.1 <= 1 && d != (0, 0)
  }

  lemma DirectionsAreUnits()
    ensures |Directions| == 8
    ensures forall k :: 0 <= k < 8 ==> Unit(Directions[k])
    ensures forall i, j :: 0 <= i < j < 8 ==> Directions[i] != Directions[j]
  {
  }

  /** The seat `SearchSeat` reports: where it stopped and whether that is
      inside the area. */
  datatype Seat = Seat(row: int, column: int, valid: bool)

  /** `x` moved `i` steps in unit direction `dx`. */
  function Along(x: int, i: nat, dx: int): int {
    if dx > 0 then x + i else if dx < 0 then x - i else x
  }

  /** Steps left along one axis before leaving `[0, n)`. */
  function Room(n: nat, x: int, d: int): nat {
    if d > 0 then (if x < n then n - x else 0)
    else if d < 0 then (if x >= 0 then x + 1 else 0)
    else 0
  }

  /** `SearchSeat` from `(row, column)` in direction `d`: step, stop outside
      the area (invalid), stop at once when only adjacent seats count, and
      otherwise stop at the first cell that is not floor. */
  function SearchSeat(layout: Layout, row: int, column: int, d: (int, int)): (s: Seat)
    requires layout.Valid() && Unit(d) && layout.Inside(row, column)
    ensures exists k: nat ::
      k >= 1 && Reached(s, row, column, d, k) && FloorBefore(layout, row, column, d, k) && (layout.adjacentOnly ==> k == 1)
    ensures s.valid <==> layout.Inside(s.row, s.column)
    ensures s.valid && !layout.adjacentOnly ==> layout.area[s.row][s.column] != '.'
    decreases Room(layout.rows, row, d.0) + Room(layout.columns, column, d.1)
  {
    var r, c := row + d.0, column + d.1;
    if !layout.Inside(r, c) then
      assert Reached(Seat(r, c, false), row, column, d, 1) && FloorBefore(layout, row, column, d, 1);
      Seat(r, c, false)
    else if layout.adjacentOnly || layout.area[r][c] != '.' then
      assert Reached(Seat(r, c, true), row, column, d, 1) && FloorBefore(layout, row, column, d, 1);
      Seat(r, c, true)
    else
      var s := SearchSeat(layout, r, c, d);
      var k: nat :| k >= 1 && Reached(s, r, c, d, k) && FloorBefore(layout, r, c, d, k);
      SearchStep(layout, row, column, d, s, k);
      s
  }

  /** `s` is `k` steps from `(row, column)` in direction `d`. */
  predicate Reached(s: Seat, row: int, column: int, d: (int, int), k: nat) {
    s.row == Along(row, k, d.0) && s.column == Along(column, k, d.1)
  }

  /** The first `k - 1` steps from `(row, column)` in direction `d` are
      floor inside the area. */
  predicate FloorBefore(layout: Layout, row: int, column: int, d: (int, int), k: nat)
    requires layout.Valid()
  {
    forall i: nat :: 1 <= i < k ==> (layout.Inside(Along(row, i, d.0), Along(column, i, d.1))
                                     && layout.area[Along(row, i, d.0)][Along(column, i, d.1)] == '.')
  }

  /** Searching on from a floor cell one step away adds one step. */
  lemma SearchStep(layout: Layout, row: int, column: int, d: (int, int), s: Seat, k: nat)
    requires layout.Valid() && Unit(d)
    requires layout.Inside(row + d.0, column + d.1) && layout.area[row + d.0][column + d.1] == '.'
    requires Reached(s, row + d.0, column + d.1, d, k) && FloorBefore(layout, row + d.0, column + d.1, d, k)
    ensures Reached(s, row, column, d, k + 1) && FloorBefore(layout, row, column, d, k + 1)
  {
    var r, c := row + d.0, column + d.1;
    forall i: nat | 1 <= i < k + 1
      ensures layout.Inside(Along(row, i, d.0), Along(column, i, d.1)) && layout.area[Along(row, i, d.0)][Along(column, i, d.1)] == '.'
    {
      if i > 1 {
        assert Along(row, i, d.0) == Along(r, i - 1, d.0) && Along(column, i, d.1) == Along(c, i - 1, d.1);
      }
    }
  }


  /** The seat counts as occupied: inside the area and `#`. */
  predicate Occupied(layout: Layout, s: Seat)
    requires layout.Valid()
  {
    s.valid && layout.Inside(s.row, s.column) && layout.area[s.row][s.column] == '#'
  }

  /** `GetSeats`: the seat found in each of the eight directions. */
  function GetSeats(layout: Layout, row: int, column: int): (seats: seq<Seat>)
    requires layout.Valid() && layout.Inside(row, column)
    ensures |seats| == 8
    ensures forall k :: 0 <= k < 8 ==> seats[k] == SearchSeat(layout, row, column, Directions[k])
  {
    DirectionsAreUnits();
    seq(8, k requires 0 <= k < 8 => SearchSeat(layout, row, column, Directions[k]))
  }

  /** Number of seats in `seats` that are occupied. */
  function CountOccupied(layout: Layout, seats: seq<Seat>): (n: nat)
    requires layout.Valid()
    ensures n <= |seats|
    ensures n == 0 <==> forall k :: 0 <= k < |seats| ==> !Occupied(layout, seats[k])
  {
    if |seats| == 0 then 0
    else (if Occupied(layout, seats[0]) then 1 else 0) + CountOccupied(layout, seats[1..])
  }

  /** `NoOccupiedSeatRule`: every seat in view is unoccupied or outside. */
  predicate NoOccupiedSeatRule(layout: Layout, row: int, column: int)
    requires layout.Valid() && layout.Inside(row, column)
  {
    forall k :: 0 <= k < 8 ==> !Occupied(layout, GetSeats(layout, row, column)[k])
  }

  /** `OccupiedSeatsRule`: eight minus the unoccupied count, that is the
      occupied count, reaches the limit. */
  predicate OccupiedSeatsRule(layout: Layout, row: int, column: int, seatLimit: int)
    requires layout.Valid() && layout.Inside(row, column)
  {
    8 - (8 - CountOccupied(layout, GetSeats(layout, row, column))) >= seatLimit
  }

  /** The new value of one cell, read from the old area only. */
  function NewCell(layout: Layout, row: int, column: int, seatLimit: int): (c: char)
    requires layout.Valid() && layout.Inside(row, column)
    ensures var was := layout.area[row][column];
      && (was == 'L' ==> (c == '#' <==> NoOccupiedSeatRule(layout, row, column)))
      && (was == '#' ==> (c == 'L' <==> OccupiedSeatsRule(layout, row, column, seatLimit)))
      && (c != was ==> ((was == 'L' && c == '#') || (was == '#' && c == 'L')))
  {
    var was := layout.area[row][column];
    if was == 'L' && NoOccupiedSeatRule(layout, row, column) then '#'
    else if was == '#' && OccupiedSeatsRule(layout, row, column, seatLimit) then 'L'
    else was
  }

  /** The layout one round produces: every cell updated from the old area
      at once. */
  function Next(layout: Layout, seatLimit: int): (r: Layout)
    requires layout.Valid()
    ensures r.Valid() && r.rows == layout.rows && r.columns == layout.columns
    ensures r.adjacentOnly == layout.adjacentOnly
  {
    var area := seq(layout.rows, row requires 0 <= row < layout.rows =>
      seq(layout.columns, column requires 0 <= column < layout.columns => NewCell(layout, row, column, seatLimit)));
    Layout(area, layout.rows, layout.columns, layout.adjacentOnly)
  }

  /** Whether one round changes any seat. */
  predicate Changes(layout: Layout, seatLimit: int)
    requires layout.Valid()
  {
    Next(layout, seatLimit).area != layout.area
  }

  /** `ApplyRules`: the next layout, and whether any cell changed. */
  function ApplyRules(layout: Layout, seatLimit: int): (r: (Layout, bool))
    requires layout.Valid()
    ensures r.0.Valid() && r.0.rows == layout.rows && r.0.columns == layout.columns
    ensures r.0.adjacentOnly == layout.adjacentOnly
    ensures forall row, column :: layout.Inside(row, column) ==>
      r.0.area[row][column] == NewCell(layout, row, column, seatLimit)
    ensures r.1 <==> exists row, column :: layout.Inside(row, column)
                                          && NewCell(layout, row, column, seatLimit) != layout.area[row][column]
    ensures !r.1 ==> r.0 == layout
  {
    var next := Next(layout, seatLimit);
    var changed := Changes(layout, seatLimit);
    assert changed ==> exists row, column :: layout.Inside(row, column) && next.area[row][column] != layout.area[row][column] by {
      if changed {
        var row :| 0 <= row < layout.rows && next.area[row] != layout.area[row];
        var column :| 0 <= column < layout.columns && next.area[row][column] != layout.area[row][column];
        assert layout.Inside(row, column);
      }
    }
    (next, changed)
  }

  /** Floor never changes, and a seat only flips between `L` and `#`. */
  lemma RulesKeepFloor(layout: Layout, seatLimit: int, row: int, column: int)
    requires layout.Valid() && layout.Inside(row, column)
    ensures var after := ApplyRules(layout, seatLimit).0.area[row][column];
      var before := layout.area[row][column];
      && (before == '.' ==> after == '.')
      && (after != before ==> {before, after} == {'L', '#'})
  {
  }

  /** `NumberOfOccupiedSeats`: the `#` cells, row by row. */
  function NumberOfOccupiedSeats(area: Area): (n: nat)
    ensures n == 0 <==> forall r :: 0 <= r < |area| ==> '#' !in area[r]
  {
    if |area| == 0 then 0 else CountChar(area[0], '#') + NumberOfOccupiedSeats(area[1..])
  }

  /** The count is the total multiplicity of `#` over the rows. */
  lemma {:induction false} OccupiedIsMultiplicity(area: Area)
    ensures NumberOfOccupiedSeats(area) == TotalHashes(area)
  {
    if |area| > 0 {
      CountCharMultiplicity(area[0], '#');
      OccupiedIsMultiplicity(area[1..]);
    }
  }

  function TotalHashes(area: Area): nat {
    if |area| == 0 then 0 else multiset(area[0])['#'] + TotalHashes(area[1..])
  }

  /** `k` rounds of the rules. */
  function Rounds(layout: Layout, seatLimit: int, k: nat): (r: Layout)
    requires layout.Valid()
    ensures r.Valid()
    decreases k
  {
    if k == 0 then layout else Rounds(Next(layout, seatLimit), seatLimit, k - 1)
  }

  /** Round `j` is the first that changes nothing. */
  predicate FirstStable(layout: Layout, seatLimit: int, j: nat)
    requires layout.Valid()
  {
    && !Changes(Rounds(layout, seatLimit, j), seatLimit)
    && forall i :: 0 <= i < j ==> Changes(Rounds(layout, seatLimit, i), seatLimit)
  }

  /** `while (layout.ApplyRules(limit)) ;` with at most `fuel` rounds. The
      layout returned is a fixpoint: one more round changes nothing. */
  function Settle(layout: Layout, seatLimit: int, fuel: nat): (r: Result<Layout>)
    requires layout.Valid()
    ensures r.Ok? ==> r.value.Valid() && !ApplyRules(r.value, seatLimit).1
    decreases fuel
  {
    if !Changes(layout, seatLimit) then Ok(layout)
    else if fuel == 0 then Err("Out of fuel")
    else Settle(Next(layout, seatLimit), seatLimit, fuel - 1)
  }

  /** The loop stops on the layout of the first round that changes nothing,
      and runs out of fuel exactly when each of the first `fuel + 1` rounds
      changes something. */
  lemma SettleRounds(layout: Layout, seatLimit: int, fuel: nat)
    requires layout.Valid()
    ensures Settle(layout, seatLimit, fuel).Ok? ==>
      exists j :: 0 <= j <= fuel && FirstStable(layout, seatLimit, j) && Settle(layout, seatLimit, fuel).value == Rounds(layout, seatLimit, j)
    ensures Settle(layout, seatLimit, fuel).Err? <==>
      forall j :: 0 <= j <= fuel ==> Changes(Rounds(layout, seatLimit, j), seatLimit)
  {
    if Settle(layout, seatLimit, fuel).Ok? {
      var j := StableRound(layout, seatLimit, fuel);
    } else {
      OutOfFuel(layout, seatLimit, fuel);
    }
  }

  /** The round a settled loop stopped at. */
  lemma {:induction false} StableRound(layout: Layout, seatLimit: int, fuel: nat) returns (j: nat)
    requires layout.Valid() && Settle(layout, seatLimit, fuel).Ok?
    ensures j <= fuel && FirstStable(layout, seatLimit, j) && Settle(layout, seatLimit, fuel).value == Rounds(layout, seatLimit, j)
    decreases fuel
  {
    SettleUnfold(layout, seatLimit, fuel);
    assert Rounds(layout, seatLimit, 0) == layout;
    if Changes(layout, seatLimit) {
      var next := Next(layout, seatLimit);
      var k := StableRound(next, seatLimit, fuel - 1);
      RoundsShift(layout, seatLimit, fuel);
      ChangesBefore(layout, seatLimit, k);
      j := k + 1;
      assert Rounds(layout, seatLimit, j) == Rounds(next, seatLimit, k);
    } else {
      j := 0;
    }
  }

  /** A loop that runs out of fuel saw every round change something. */
  lemma {:induction false} OutOfFuel(layout: Layout, seatLimit: int, fuel: nat)
    requires layout.Valid() && Settle(layout, seatLimit, fuel).Err?
    ensures forall j :: 0 <= j <= fuel ==> Changes(Rounds(layout, seatLimit, j), seatLimit)
    decreases fuel
  {
    SettleUnfold(layout, seatLimit, fuel);
    assert Rounds(layout, seatLimit, 0) == layout;
    if fuel > 0 {
      OutOfFuel(Next(layout, seatLimit), seatLimit, fuel - 1);
      ChangesBefore(layout, seatLimit, fuel);
    }
  }

  /** Rounds after the first are rounds of the layout the first produced. */
  lemma RoundsShift(layout: Layout, seatLimit: int, n: nat)
    requires layout.Valid()
    ensures forall j :: 1 <= j <= n ==> Rounds(layout, seatLimit, j) == Rounds(Next(layout, seatLimit), seatLimit, j - 1)
  {
  }

  /** A layout that changes, followed by `n` rounds that change. */
  lemma ChangesBefore(layout: Layout, seatLimit: int, n: nat)
    requires layout.Valid() && Changes(layout, seatLimit)
    requires forall i :: 0 <= i < n ==> Changes(Rounds(Next(layout, seatLimit), seatLimit, i), seatLimit)
    ensures forall i :: 0 <= i <= n ==> Changes(Rounds(layout, seatLimit, i), seatLimit)
  {
    forall i | 0 <= i <= n
      ensures Changes(Rounds(layout, seatLimit, i), seatLimit)
    {
      if i > 0 {
        assert Rounds(layout, seatLimit, i) == Rounds(Next(layout, seatLimit), seatLimit, i - 1);
      }
    }
  }

  /** Settle in terms of Next and Changes. */
  lemma SettleUnfold(layout: Layout, seatLimit: int, fuel: nat)
    requires layout.Valid()
    ensures !Changes(layout, seatLimit) ==> Settle(layout, seatLimit, fuel) == Ok(layout)
    ensures Changes(layout, seatLimit) && fuel == 0 ==> Settle(layout, seatLimit, fuel).Err?
    ensures Changes(layout, seatLimit) && fuel > 0 ==> Settle(layout, seatLimit, fuel) == Settle(Next(layout, seatLimit), seatLimit, fuel - 1)
  {
  }

  /** `count` is the number of occupied seats on the layout of the first
      round, within `fuel` rounds of `start`, that changes nothing. */
  predicate SettlesWith(start: Layout, seatLimit: int, fuel: nat, count: nat)
    requires start.Valid()
  {
    exists j :: 0 <= j <= fuel && FirstStable(start, seatLimit, j) && count == TotalHashes(Rounds(start, seatLimit, j).area)
  }

  /** Some round within `fuel` rounds of `start` changes nothing. */
  predicate Stabilises(start: Layout, seatLimit: int, fuel: nat)
    requires start.Valid()
  {
    exists j :: 0 <= j <= fuel && !Changes(Rounds(start, seatLimit, j), seatLimit)
  }

  /** The loop settles exactly when some round within its fuel changes
      nothing. */
  lemma SettlesIffStabilises(layout: Layout, seatLimit: int, fuel: nat)
    requires layout.Valid()
    ensures Settle(layout, seatLimit, fuel).Ok? <==> Stabilises(layout, seatLimit, fuel)
  {
    SettleRounds(layout, seatLimit, fuel);
    if Settle(layout, seatLimit, fuel).Ok? {
      var j :| 0 <= j <= fuel && FirstStable(layout, seatLimit, j);
      assert !Changes(Rounds(layout, seatLimit, j), seatLimit);
    } else {
      assert forall j :: 0 <= j <= fuel ==> Changes(Rounds(layout, seatLimit, j), seatLimit);
    }
  }

  /** The number of occupied seats once the rules settle. */
  function Solve(input: seq<string>, adjacentOnly: bool, seatLimit: int, fuel: nat): (r: Result<nat>)
    ensures r.Ok? ==> |input| > 0
    ensures SetupArea(input, adjacentOnly).Err? ==> r.Err?
    ensures r.Ok? <==> SetupArea(input, adjacentOnly).Ok? && Stabilises(SetupArea(input, adjacentOnly).value, seatLimit, fuel)
    ensures r.Ok? ==> SetupArea(input, adjacentOnly).Ok?
    ensures r.Ok? ==> SettlesWith(SetupArea(input, adjacentOnly).value, seatLimit, fuel, r.value)
  {
    var layout :- SetupArea(input, adjacentOnly);
    SettleRounds(layout, seatLimit, fuel);
    SettlesIffStabilises(layout, seatLimit, fuel);
    var settled :- Settle(layout, seatLimit, fuel);
    OccupiedIsMultiplicity(settled.area);
    Ok(NumberOfOccupiedSeats(settled.area))
  }

  /** Part 1: eight neighbours, an occupied seat empties at four. */
  function Part1(input: seq<string>, fuel: nat): (r: Result<nat>)
    ensures SetupArea(input, true).Err? ==> r.Err?
    ensures r.Ok? <==> SetupArea(input, true).Ok? && Stabilises(SetupArea(input, true).value, 4, fuel)
    ensures r.Ok? ==> SettlesWith(SetupArea(input, true).value, 4, fuel, r.value)
  {
    Solve(input, true, 4, fuel)
  }

  /** Part 2: the first seat in each direction, an occupied seat empties at
      five. */
  function Part2(input: seq<string>, fuel: nat): (r: Result<nat>)
    ensures SetupArea(input, false).Err? ==> r.Err?
    ensures r.Ok? <==> SetupArea(input, false).Ok? && Stabilises(SetupArea(input, false).value, 5, fuel)
    ensures r.Ok? ==> SettlesWith(SetupArea(input, false).value, 5, fuel, r.value)
  {
    Solve(input, false, 5, fuel)
  }
}
