/** Day 17, Conway Cubes: a pocket dimension of cubes in 3 (part 1) or 4
    (part 2) dimensions. Each cycle grows the area by one cell on both sides
    of every axis and applies the life rule to every cell of the grown area:
    an active cube stays active with 2 or 3 active neighbours, an inactive
    one becomes active with exactly 3.

    The source writes the 3D and 4D versions out separately with the same
    logic; the model states it once for any number of dimensions `d`, with
    a cube addressed by a coordinate sequence in the source's index order
    (row, column, z, w). */
module Day17 {
  import opened Wrappers
  import opened Seqs
  import Day14Extensions

  // ---------------------------------------------------------------- enumerating coordinates

  /** The integers `lo, lo + 1, …, hi - 1`. */
  function Range(lo: int, hi: int): (r: seq<int>)
    ensures |r| == if lo <= hi then hi - lo else 0
    ensures forall x :: x in r <==> lo <= x < hi
    ensures NoDup(r)
    decreases hi - lo
  {
    if lo >= hi then []
    else
      var rest := Range(lo + 1, hi);
      NoDupAppend([lo], rest);
      [lo] + rest
  }

  function Prefixed(x: int, vs: seq<seq<int>>): (r: seq<seq<int>>)
    ensures |r| == |vs| && forall k :: 0 <= k < |vs| ==> r[k] == [x] + vs[k]
  {
    seq(|vs|, k requires 0 <= k < |vs| => [x] + vs[k])
  }

  /** Every `[x] + v` with `x` from `xs` and `v` from `rest`. */
  function TuplesWith(xs: seq<int>, rest: seq<seq<int>>): (r: seq<seq<int>>)
    ensures |r| == |xs| * |rest|
  {
    if |xs| == 0 then []
    else
      assert |xs| * |rest| == |rest| + (|xs| - 1) * |rest|;
      Prefixed(xs[0], rest) + TuplesWith(xs[1..], rest)
  }

  /** Every vector whose `k`-th coordinate is taken from `choices[k]`. */
  function Tuples(choices: seq<seq<int>>): (r: seq<seq<int>>)
    decreases |choices|
  {
    if |choices| == 0 then [[]] else TuplesWith(choices[0], Tuples(choices[1..]))
  }

  lemma PrefixedMember(x: int, vs: seq<seq<int>>, v: seq<int>)
    ensures v in Prefixed(x, vs) <==> |v| >= 1 && v[0] == x && v[1..] in vs
  {
    var r := Prefixed(x, vs);
    if v in r {
      var k :| 0 <= k < |r| && r[k] == v;
      assert v[1..] == vs[k];
    }
    if |v| >= 1 && v[0] == x && v[1..] in vs {
      var k :| 0 <= k < |vs| && vs[k] == v[1..];
      assert v == [x] + vs[k];
    }
  }

  lemma {:induction false} TuplesWithMember(xs: seq<int>, rest: seq<seq<int>>, v: seq<int>)
    ensures v in TuplesWith(xs, rest) <==> |v| >= 1 && v[0] in xs && v[1..] in rest
  {
    if |xs| > 0 {
      TuplesWithMember(xs[1..], rest, v);
      PrefixedMember(xs[0], rest, v);
      assert forall y :: y in xs <==> y == xs[0] || y in xs[1..] by {
        assert xs == [xs[0]] + xs[1..];
      }
    }
  }

  lemma {:induction false} TuplesMember(choices: seq<seq<int>>, v: seq<int>)
    ensures v in Tuples(choices) <==> |v| == |choices| && forall k :: 0 <= k < |v| ==> v[k] in choices[k]
    decreases |choices|
  {
    if |choices| > 0 {
      TuplesWithMember(choices[0], Tuples(choices[1..]), v);
      if |v| == |choices| {
        TuplesMember(choices[1..], v[1..]);
        if v[0] in choices[0] && v[1..] in Tuples(choices[1..]) {
          forall k | 1 <= k < |v|
            ensures v[k] in choices[k]
          {
            assert v[1..][k - 1] in choices[1..][k - 1];
          }
        }
        if forall k :: 0 <= k < |v| ==> v[k] in choices[k] {
          assert forall k :: 0 <= k < |v| - 1 ==> v[1..][k] in choices[1..][k] by {
            forall k | 0 <= k < |v| - 1
              ensures v[1..][k] in choices[1..][k]
            {
              assert v[k + 1] in choices[k + 1];
            }
          }
        }
      } else if |v| >= 1 {
        TuplesMember(choices[1..], v[1..]);
      }
    } else if |v| == 0 {
      assert v == [];
    }
  }

  lemma PrefixedNoDup(x: int, vs: seq<seq<int>>)
    requires NoDup(vs)
    ensures NoDup(Prefixed(x, vs))
  {
    var r := Prefixed(x, vs);
    forall i, j | 0 <= i < j < |r|
      ensures r[i] != r[j]
    {
      assert r[i][1..] == vs[i] && r[j][1..] == vs[j];
    }
  }

  lemma {:induction false} TuplesWithNoDup(xs: seq<int>, rest: seq<seq<int>>)
    requires NoDup(xs) && NoDup(rest)
    ensures NoDup(TuplesWith(xs, rest))
  {
    if |xs| > 0 {
      NoDupTail(xs);
      TuplesWithNoDup(xs[1..], rest);
      PrefixedNoDup(xs[0], rest);
      forall v | v in Prefixed(xs[0], rest)
        ensures v !in TuplesWith(xs[1..], rest)
      {
        PrefixedMember(xs[0], rest, v);
        TuplesWithMember(xs[1..], rest, v);
      }
      NoDupAppend(Prefixed(xs[0], rest), TuplesWith(xs[1..], rest));
    }
  }

  lemma {:induction false} TuplesNoDup(choices: seq<seq<int>>)
    requires forall k :: 0 <= k < |choices| ==> NoDup(choices[k])
    ensures NoDup(Tuples(choices))
    decreases |choices|
  {
    if |choices| > 0 {
      TuplesNoDup(choices[1..]);
      TuplesWithNoDup(choices[0], Tuples(choices[1..]));
    }
  }

  function Pow3(d: nat): (p: nat)
    ensures p >= 1
  {
    if d == 0 then 1 else 3 * Pow3(d - 1)
  }

  /** The unit cube `{-1, 0, 1}^d`. */
  function Cube(d: nat): (r: seq<seq<int>>)
    ensures |r| == Pow3(d)
    ensures NoDup(r)
    ensures forall v :: v in r <==> InCube(d, v)
  {
    var choices := seq(d, _ => Range(-1, 2));
    TuplesNoDup(choices);
    forall v
      ensures v in Tuples(choices) <==> InCube(d, v)
    {
      TuplesMember(choices, v);
    }
    CubeLength(d);
    Tuples(choices)
  }

  lemma {:induction false} CubeLength(d: nat)
    ensures |Tuples(seq(d, _ => Range(-1, 2)))| == Pow3(d)
  {
    if d > 0 {
      CubeLength(d - 1);
      assert seq(d, _ => Range(-1, 2))[1..] == seq(d - 1, _ => Range(-1, 2));
    }
  }

  // ---------------------------------------------------------------- neighbour offsets

  type Bits = Day14Extensions.Bits

  /** `Convert.ToString(i, 2).PadLeft(d, '0')`, one flag per binary digit,
      most significant first. */
  function BitsOf(i: nat, d: nat): (b: Bits)
    requires d >= 1 && i < Day14Extensions.Pow2(d)
    ensures |b| == d && Day14Extensions.FromBits(b) == i
  {
    Day14Extensions.BinaryFits(i, d);
    Day14Extensions.PadLeft(Day14Extensions.Binary(i), d)
  }

  /** The offset for the flags `moves` (which axes move) and `sign` (a
      false flag turns into -1: the direction). */
  function OffsetOf(moves: Bits, sign: Bits): (v: seq<int>)
    requires |moves| == |sign|
    ensures |v| == |moves|
    ensures forall k :: 0 <= k < |v| ==> v[k] == (if sign[k] then 1 else -1) * (if moves[k] then 1 else 0)
  {
    seq(|moves|, k requires 0 <= k < |moves| => (if sign[k] then 1 else -1) * (if moves[k] then 1 else 0))
  }

  /** The offset the loops build from the binary digits of `i` and `j`. */
  function Offset(d: nat, i: nat, j: nat): (v: seq<int>)
    requires d >= 1 && i < Day14Extensions.Pow2(d) && j < Day14Extensions.Pow2(d)
    ensures |v| == d
  {
    OffsetOf(BitsOf(i, d), BitsOf(j, d))
  }

  /** The rows `f(i, 0), …, f(i, m - 1)` for `i` from 0 to `n - 1`, one after
      the other: what two nested counting loops append to a list. */
  function Grid(f: (nat, nat) --> seq<int>, m: nat, n: nat): (r: seq<seq<int>>)
    requires forall i: nat, j: nat :: i < n && j < m ==> f.requires(i, j)
  {
    if n == 0 then [] else Grid(f, m, n - 1) + seq(m, j requires 0 <= j < m => f(n - 1, j))
  }

  lemma {:induction false} GridContains(f: (nat, nat) --> seq<int>, m: nat, n: nat, i: nat, j: nat)
    requires forall i: nat, j: nat :: i < n && j < m ==> f.requires(i, j)
    requires i < n && j < m
    ensures f(i, j) in Grid(f, m, n)
  {
    var last := seq(m, j requires 0 <= j < m => f(n - 1, j));
    if i == n - 1 {
      assert last[j] == f(i, j);
    } else {
      GridContains(f, m, n - 1, i, j);
    }
  }

  lemma {:induction false} GridFrom(f: (nat, nat) --> seq<int>, m: nat, n: nat, v: seq<int>) returns (i: nat, j: nat)
    requires forall i: nat, j: nat :: i < n && j < m ==> f.requires(i, j)
    requires v in Grid(f, m, n)
    ensures i < n && j < m && f(i, j) == v
  {
    var last := seq(m, j requires 0 <= j < m => f(n - 1, j));
    if v in Grid(f, m, n - 1) {
      i, j := GridFrom(f, m, n - 1, v);
    } else {
      assert v in last;
      var k :| 0 <= k < m && last[k] == v;
      i, j := n - 1, k;
    }
  }

  lemma GridFirst(f: (nat, nat) --> seq<int>, m: nat, n: nat)
    requires forall i: nat, j: nat :: i < n && j < m ==> f.requires(i, j)
    requires n >= 1 && m >= 1
    ensures |Grid(f, m, n)| >= 1 && Grid(f, m, n)[0] == f(0, 0)
    decreases n
  {
    if n > 1 {
      GridFirst(f, m, n - 1);
    }
  }

  /** The list the nested loops over `i` and `j` build. */
  function Coords(d: nat): (r: seq<seq<int>>)
    requires d >= 1
  {
    var p := Day14Extensions.Pow2(d);
    Grid((i: nat, j: nat) requires i < p && j < p => Offset(d, i, j), p, p)
  }

  /** A vector of `{-1, 0, 1}^d`. */
  predicate InCube(d: nat, v: seq<int>) {
    |v| == d && forall k :: 0 <= k < d ==> -1 <= v[k] <= 1
  }

  lemma CoordsInCube(d: nat, v: seq<int>)
    requires d >= 1 && v in Coords(d)
    ensures InCube(d, v)
  {
    var p := Day14Extensions.Pow2(d);
    var i, j := GridFrom((i: nat, j: nat) requires i < p && j < p => Offset(d, i, j), p, p, v);
    OffsetInCube(d, i, j);
  }

  lemma OffsetInCube(d: nat, i: nat, j: nat)
    requires d >= 1 && i < Day14Extensions.Pow2(d) && j < Day14Extensions.Pow2(d)
    ensures InCube(d, Offset(d, i, j))
  {
    OffsetOfInCube(BitsOf(i, d), BitsOf(j, d));
  }

  lemma OffsetOfInCube(moves: Bits, sign: Bits)
    requires |moves| == |sign|
    ensures InCube(|moves|, OffsetOf(moves, sign))
  {
  }

  lemma CoordsContains(d: nat, i: nat, j: nat)
    requires d >= 1 && i < Day14Extensions.Pow2(d) && j < Day14Extensions.Pow2(d)
    ensures Offset(d, i, j) in Coords(d)
  {
    var p := Day14Extensions.Pow2(d);
    GridContains((i: nat, j: nat) requires i < p && j < p => Offset(d, i, j), p, p, i, j);
  }

  lemma CoordsFirst(d: nat)
    requires d >= 1
    ensures |Coords(d)| >= 1 && Coords(d)[0] == Offset(d, 0, 0)
  {
    var p := Day14Extensions.Pow2(d);
    GridFirst((i: nat, j: nat) requires i < p && j < p => Offset(d, i, j), p, p);
  }

  function Zero(d: nat): (z: seq<int>)
    ensures |z| == d && forall k :: 0 <= k < d ==> z[k] == 0
  {
    seq(d, _ => 0)
  }

  /** A neighbour offset: a non-zero vector in `{-1, 0, 1}^d`. */
  predicate IsOffset(d: nat, v: seq<int>) {
    InCube(d, v) && v != Zero(d)
  }

  lemma ZeroOffset(d: nat)
    requires d >= 1
    ensures Offset(d, 0, 0) == Zero(d)
  {
    Day14Extensions.FalsesAreZero(d);
    Day14Extensions.FromBitsInjective(BitsOf(0, d), Day14Extensions.Falses(d));
  }

  /** Every vector of the cube is built by some pair of loop indices: the
      axes it moves along give `i`, the axes it moves up along give `j`. */
  lemma OffsetReaches(d: nat, v: seq<int>) returns (i: nat, j: nat)
    requires d >= 1 && InCube(d, v)
    ensures i < Day14Extensions.Pow2(d) && j < Day14Extensions.Pow2(d) && Offset(d, i, j) == v
  {
    var moves := seq(d, k requires 0 <= k < d => v[k] != 0);
    var sign := seq(d, k requires 0 <= k < d => v[k] == 1);
    assert OffsetOf(moves, sign) == v;
    i := Day14Extensions.FromBits(moves);
    j := Day14Extensions.FromBits(sign);
    Day14Extensions.FromBitsInjective(BitsOf(i, d), moves);
    Day14Extensions.FromBitsInjective(BitsOf(j, d), sign);
  }

  /** `Generate3dNeighborCoordinates` / `Generate4dNeighborCoordinates`:
      the distinct offsets the loops produce, without the first one. */
  function NeighbourOffsets(d: nat): (r: seq<seq<int>>)
    requires d >= 1
    ensures forall k :: 0 <= k < |r| ==> |r[k]| == d
  {
    var all := FirstOccurrences(Coords(d));
    assert forall v :: v in all ==> |v| == d by {
      forall v | v in all
        ensures |v| == d
      {
        CoordsInCube(d, v);
      }
    }
    all[1..]
  }

  /** The offsets are exactly the non-zero vectors of `{-1, 0, 1}^d`, each
      once: 26 of them in 3 dimensions and 80 in 4. */
  lemma NeighbourOffsetsExact(d: nat)
    requires d >= 1
    ensures forall v :: v in NeighbourOffsets(d) <==> IsOffset(d, v)
    ensures NoDup(NeighbourOffsets(d))
    ensures |NeighbourOffsets(d)| == Pow3(d) - 1
  {
    var all := FirstOccurrences(Coords(d));
    DistinctCoordsAreCube(d, all);
    SameElementsSameLength(all, Cube(d));
    FirstIsZero(d, all);
    NoDupTail(all);
    TailIsOffsets(d, all);
  }

  lemma DistinctCoordsAreCube(d: nat, all: seq<seq<int>>)
    requires d >= 1 && all == FirstOccurrences(Coords(d))
    ensures forall v :: v in all <==> v in Cube(d)
  {
    forall v
      ensures v in all <==> v in Cube(d)
    {
      if v in all {
        CoordsInCube(d, v);
      }
      if v in Cube(d) {
        var i, j := OffsetReaches(d, v);
        CoordsContains(d, i, j);
      }
    }
  }

  lemma FirstIsZero(d: nat, all: seq<seq<int>>)
    requires d >= 1 && all == FirstOccurrences(Coords(d))
    ensures |all| >= 1 && all[0] == Zero(d)
  {
    ZeroOffset(d);
    CoordsFirst(d);
  }

  lemma TailIsOffsets(d: nat, all: seq<seq<int>>)
    requires |all| >= 1 && all[0] == Zero(d) && NoDup(all)
    requires forall v :: v in all <==> InCube(d, v)
    ensures forall v :: v in all[1..] <==> IsOffset(d, v)
  {
    forall v
      ensures v in all[1..] <==> IsOffset(d, v)
    {
      if v in all[1..] {
        var k :| 0 <= k < |all| - 1 && all[1..][k] == v;
        assert all[k + 1] != all[0];
      }
      if IsOffset(d, v) {
        var k :| 0 <= k < |all| && all[k] == v;
        assert k != 0;
        assert all[1..][k - 1] == v;
      }
    }
  }

  // ---------------------------------------------------------------- the layout

  /** The area: its length along each axis and the cube at each coordinate
      (`\0` where the array was never written). */
  datatype Layout = Layout(lengths: seq<nat>, cell: seq<int> -> char)

  predicate InBox(lengths: seq<nat>, p: seq<int>) {
    |p| == |lengths| && forall k :: 0 <= k < |p| ==> 0 <= p[k] < lengths[k]
  }

  function Shift(p: seq<int>, o: seq<int>): (q: seq<int>)
    requires |p| == |o|
    ensures |q| == |p| && forall k :: 0 <= k < |p| ==> q[k] == p[k] + o[k]
  {
    seq(|p|, k requires 0 <= k < |p| => p[k] + o[k])
  }

  /** `GetActiveNeighbors3d` / `4d`: for each offset, a neighbour outside
      the area is skipped and an active one counted. */
  function ActiveNeighbours(offsets: seq<seq<int>>, p: seq<int>, lengths: seq<nat>, area: seq<int> -> char): (n: nat)
    requires forall k :: 0 <= k < |offsets| ==> |offsets[k]| == |p|
    ensures n <= |offsets|
  {
    if |offsets| == 0 then 0
    else
      var q := Shift(p, offsets[0]);
      var rest := ActiveNeighbours(offsets[1..], p, lengths, area);
      if !InBox(lengths, q) then rest
      else if area(q) == '#' then rest + 1
      else rest
  }

  /** The offset `o` leads from `p` to an active cube inside the area. */
  predicate Hit(o: seq<int>, p: seq<int>, lengths: seq<nat>, area: seq<int> -> char) {
    |o| == |p| && InBox(lengths, Shift(p, o)) && area(Shift(p, o)) == '#'
  }

  function Hits(offsets: seq<seq<int>>, p: seq<int>, lengths: seq<nat>, area: seq<int> -> char): set<seq<int>> {
    set o | o in offsets && Hit(o, p, lengths, area)
  }

  lemma HitsCons(offsets: seq<seq<int>>, p: seq<int>, lengths: seq<nat>, area: seq<int> -> char)
    requires |offsets| > 0
    ensures Hits(offsets, p, lengths, area)
         == Hits(offsets[1..], p, lengths, area) + (if Hit(offsets[0], p, lengths, area) then {offsets[0]} else {})
  {
    assert forall o :: o in offsets <==> o == offsets[0] || o in offsets[1..] by {
      assert offsets == [offsets[0]] + offsets[1..];
    }
  }

  /** With distinct offsets, the count is the number of offsets that lead
      to an active cube inside the area. */
  lemma {:induction false} ActiveNeighboursCount(offsets: seq<seq<int>>, p: seq<int>, lengths: seq<nat>, area: seq<int> -> char)
    requires forall k :: 0 <= k < |offsets| ==> |offsets[k]| == |p|
    requires NoDup(offsets)
    ensures ActiveNeighbours(offsets, p, lengths, area) == |Hits(offsets, p, lengths, area)|
  {
    if |offsets| > 0 {
      NoDupTail(offsets);
      ActiveNeighboursCount(offsets[1..], p, lengths, area);
      HitsCons(offsets, p, lengths, area);
      assert offsets[0] !in Hits(offsets[1..], p, lengths, area);
    }
  }

  /** The rule for one cube given its active neighbours. */
  function NewCell(current: char, active: nat): (c: char)
    ensures c == '#' || c == '.'
    ensures c == '#' <==> (current == '#' && (active == 2 || active == 3)) || (current != '#' && active == 3)
  {
    if current == '#' && (active == 2 || active == 3) then '#'
    else if active == 3 then '#'
    else '.'
  }

  function Grow(lengths: seq<nat>): (r: seq<nat>)
    ensures |r| == |lengths| && forall k :: 0 <= k < |r| ==> r[k] == lengths[k] + 2
  {
    seq(|lengths|, k requires 0 <= k < |lengths| => lengths[k] + 2)
  }

  function Back(p: seq<int>): (q: seq<int>)
    ensures |q| == |p| && forall k :: 0 <= k < |p| ==> q[k] == p[k] - 1
  {
    seq(|p|, k requires 0 <= k < |p| => p[k] - 1)
  }

  /** `extendedArea`: the old cube at `p` moved to `p + 1` on every axis, `\0`
      elsewhere. */
  function Extended(g: Layout): (area: seq<int> -> char) {
    p => if InBox(g.lengths, Back(p)) then g.cell(Back(p)) else '\0'
  }

  /** `ApplyRule3D` / `ApplyRule4D`: one cycle. */
  function ApplyRule(g: Layout): (r: Layout)
    requires |g.lengths| >= 1
    ensures r.lengths == Grow(g.lengths)
  {
    var lengths := Grow(g.lengths);
    var area := Extended(g);
    var offsets := NeighbourOffsets(|g.lengths|);
    Layout(lengths, p => NewCell(area(p), if |p| == |lengths| then ActiveNeighbours(offsets, p, lengths, area) else 0))
  }

  /** The grown area holds the old cubes one step further along every axis,
      and nothing on its new outer layer. */
  lemma ExtendedCopies(g: Layout, p: seq<int>, q: seq<int>)
    requires InBox(g.lengths, p)
    requires InBox(Grow(g.lengths), q) && !InBox(g.lengths, Back(q))
    ensures Extended(g)(Shift(p, seq(|p|, _ => 1))) == g.cell(p)
    ensures Extended(g)(q) == '\0'
  {
    assert Back(Shift(p, seq(|p|, _ => 1))) == p;
  }

  /** Each cube of the grown area follows the rule, counting its active
      neighbours over the non-zero offsets of `{-1, 0, 1}^d`. */
  lemma ApplyRuleCell(g: Layout, p: seq<int>)
    requires |g.lengths| >= 1 && InBox(Grow(g.lengths), p)
    ensures ApplyRule(g).cell(p) == NewCell(Extended(g)(p), |Hits(NeighbourOffsets(|p|), p, Grow(g.lengths), Extended(g))|)
    ensures forall o :: o in NeighbourOffsets(|p|) <==> IsOffset(|p|, o)
  {
    NeighbourOffsetsExact(|p|);
    ActiveNeighboursCount(NeighbourOffsets(|p|), p, Grow(g.lengths), Extended(g));
  }

  /** `ApplyRules(cycles)`: exactly `cycles` cycles (none when negative). */
  function ApplyRules(g: Layout, cycles: int): (r: Layout)
    requires |g.lengths| >= 1
    ensures |r.lengths| == |g.lengths|
    ensures forall k :: 0 <= k < |g.lengths| ==> r.lengths[k] == g.lengths[k] + 2 * (if cycles > 0 then cycles else 0)
    decreases cycles
  {
    if cycles <= 0 then g else ApplyRules(ApplyRule(g), cycles - 1)
  }

  /** Every coordinate of the area. */
  function Box(lengths: seq<nat>): (r: seq<seq<int>>)
    ensures NoDup(r)
    ensures forall p :: p in r <==> InBox(lengths, p)
  {
    var choices := seq(|lengths|, k requires 0 <= k < |lengths| => Range(0, lengths[k]));
    TuplesNoDup(choices);
    forall p
      ensures p in Tuples(choices) <==> InBox(lengths, p)
    {
      TuplesMember(choices, p);
    }
    Tuples(choices)
  }

  function CountActive(cells: seq<seq<int>>, g: Layout): (n: nat)
    ensures n <= |cells|
  {
    if |cells| == 0 then 0 else (if g.cell(cells[0]) == '#' then 1 else 0) + CountActive(cells[1..], g)
  }

  /** The active cubes among `cells`. */
  function ActiveAmong(cells: seq<seq<int>>, g: Layout): set<seq<int>> {
    set p | p in cells && g.cell(p) == '#'
  }

  lemma ActiveAmongCons(cells: seq<seq<int>>, g: Layout)
    requires |cells| > 0
    ensures ActiveAmong(cells, g) == ActiveAmong(cells[1..], g) + (if g.cell(cells[0]) == '#' then {cells[0]} else {})
  {
    assert forall p :: p in cells <==> p == cells[0] || p in cells[1..] by {
      assert cells == [cells[0]] + cells[1..];
    }
  }

  lemma {:induction false} CountActiveIsCard(cells: seq<seq<int>>, g: Layout)
    requires NoDup(cells)
    ensures CountActive(cells, g) == |ActiveAmong(cells, g)|
  {
    if |cells| > 0 {
      NoDupTail(cells);
      CountActiveIsCard(cells[1..], g);
      ActiveAmongCons(cells, g);
      assert cells[0] !in ActiveAmong(cells[1..], g);
    }
  }

  /** `CountActiveCubes`: the active cubes inside the area. */
  function CountActiveCubes(g: Layout): (n: nat) {
    CountActive(Box(g.lengths), g)
  }

  lemma CountActiveCubesExact(g: Layout)
    ensures CountActiveCubes(g) == |ActiveAmong(Box(g.lengths), g)|
    ensures forall p :: p in Box(g.lengths) <==> InBox(g.lengths, p)
  {
    CountActiveIsCard(Box(g.lengths), g);
  }

  // ---------------------------------------------------------------- setup and the parts

  function Ones(n: nat): (r: seq<nat>)
    ensures |r| == n && forall k :: 0 <= k < n ==> r[k] == 1
  {
    seq(n, _ => 1)
  }

  /** `new Layout(input, dimension)`: the first line fixes the number of
      columns, every other axis has length 1, and line `row` is written at
      `(row, column, 0, …)`. No lines, or a line longer than the first,
      throws. */
  function Setup(input: seq<string>, d: nat): (r: Result<Layout>)
    requires d >= 2
    ensures r.Ok? <==> |input| > 0 && forall row :: 0 <= row < |input| ==> |input[row]| <= |input[0]|
    ensures r.Ok? ==> r.value.lengths == [|input|, |input[0]|] + Ones(d - 2)
    ensures r.Ok? ==> forall row, column :: 0 <= row < |input| && 0 <= column < |input[row]| ==>
      r.value.cell([row, column] + Zero(d - 2)) == input[row][column]
  {
    if |input| == 0 then Err("Index was out of range.")
    else if exists row :: 0 <= row < |input| && |input[row]| > |input[0]| then Err("Index was outside the bounds of the array.")
    else
      var cell := (p: seq<int>) =>
        if |p| == d && 0 <= p[0] < |input| && 0 <= p[1] < |input[p[0]]| && forall k :: 2 <= k < d ==> p[k] == 0
        then input[p[0]][p[1]] else '\0';
      assert forall row, column :: 0 <= row < |input| && 0 <= column < |input[row]| ==>
        cell([row, column] + Zero(d - 2)) == input[row][column] by {
        forall row, column | 0 <= row < |input| && 0 <= column < |input[row]|
          ensures cell([row, column] + Zero(d - 2)) == input[row][column]
        {
          var p := [row, column] + Zero(d - 2);
          assert p[0] == row && p[1] == column;
          assert forall k :: 2 <= k < d ==> p[k] == 0;
        }
      }
      Ok(Layout([|input|, |input[0]|] + Ones(d - 2), cell))
  }

  /** The number of active cubes, in the area six cycles grew, after six
      cycles from the input's layout in `d` dimensions. */
  function Solve(input: seq<string>, d: nat): (r: Result<nat>)
    requires d >= 2
    ensures r.Ok? <==> Setup(input, d).Ok?
    ensures r.Ok? ==> (
      var final := ApplyRules(Setup(input, d).value, 6);
      && (forall k :: 0 <= k < d ==> final.lengths[k] == Setup(input, d).value.lengths[k] + 12)
      && r.value == |ActiveAmong(Box(final.lengths), final)|)
  {
    var layout :- Setup(input, d);
    CountActiveCubesExact(ApplyRules(layout, 6));
    Ok(CountActiveCubes(ApplyRules(layout, 6)))
  }

  /** Part 1: six cycles in three dimensions. */
  function Part1(input: seq<string>): (r: Result<nat>)
    ensures r.Ok? <==> |input| > 0 && forall row :: 0 <= row < |input| ==> |input[row]| <= |input[0]|
    ensures r.Ok? ==> (
      var final := ApplyRules(Setup(input, 3).value, 6);
      r.value == |ActiveAmong(Box(final.lengths), final)|)
  {
    Solve(input, 3)
  }

  /** Part 2: six cycles in four dimensions. */
  function Part2(input: seq<string>): (r: Result<nat>)
    ensures r.Ok? <==> |input| > 0 && forall row :: 0 <= row < |input| ==> |input[row]| <= |input[0]|
    ensures r.Ok? ==> (
      var final := ApplyRules(Setup(input, 4).value, 6);
      r.value == |ActiveAmong(Box(final.lengths), final)|)
  {
    Solve(input, 4)
  }
}
