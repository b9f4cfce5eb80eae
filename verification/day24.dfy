/** Day 24, Lobby Layout: hexagonal tiles, addressed by cube coordinates
    (x, y, z) with x + y + z = 0. Each input line is a walk from the
    reference tile in the directions e, w, ne, nw, se, sw; the tile it ends
    on is flipped. Part 1 counts the black tiles. Part 2 then runs 100 days
    of the exhibit rule: a black tile with no or more than two black
    neighbours turns white, and a white tile with exactly two black
    neighbours turns black.

    The original keeps only the tiles it has met in a dictionary from tile
    to "black side up", and grows it each day by the unknown tiles next to
    a black tile. `DayMatchesRule` shows that this finite dictionary follows
    the rule as stated for the whole, unbounded floor. */
module Day24 {
  import opened Wrappers
  import Seqs

  // ---------------------------------------------------------------- directions

  datatype Direction = E | W | NE | SE | SW | NW

  /** How a direction is written in the input. */
  function Name(d: Direction): string {
    match d
    case E => "e"
    case W => "w"
    case NE => "ne"
    case NW => "nw"
    case SE => "se"
    case SW => "sw"
  }

  /** A walk written out. */
  function Render(ds: seq<Direction>): string {
    if |ds| == 0 then "" else Name(ds[0]) + Render(ds[1..])
  }

  const IndexError := "Index was outside the bounds of the array."
  const LexError := "Exception of type 'System.Exception' was thrown."

  /** `Lexer.GetTokens`: `e` and `w` are read alone, `n` and `s` take the
      next character with them; any other character, or an `n` or `s`
      with nothing after it, throws. */
  function Tokens(s: string): (r: Result<seq<Direction>>)
    ensures r.Ok? ==> Render(r.value) == s
    decreases |s|
  {
    if |s| == 0 then Ok([])
    else if s[0] == 'e' || s[0] == 'w' then
      var rest :- Tokens(s[1..]);
      assert s == [s[0]] + s[1..];
      Ok([if s[0] == 'e' then E else W] + rest)
    else if s[0] == 'n' || s[0] == 's' then
      if |s| == 1 then Err(IndexError)
      else if s[1] != 'e' && s[1] != 'w' then Err(LexError)
      else
        var d := if s[0] == 'n' then (if s[1] == 'e' then NE else NW) else (if s[1] == 'e' then SE else SW);
        var rest :- Tokens(s[2..]);
        assert s == s[..2] + s[2..] && s[..2] == Name(d);
        Ok([d] + rest)
    else Err(LexError)
  }

  /** Every written-out walk reads back as itself, so a line lexes exactly
      when it is a run of direction names. */
  lemma {:induction false} TokensRender(ds: seq<Direction>)
    ensures Tokens(Render(ds)) == Ok(ds)
  {
    if |ds| > 0 {
      TokensRender(ds[1..]);
      TokensName(ds[0], Render(ds[1..]));
      assert ds == [ds[0]] + ds[1..];
    }
  }

  /** A direction's name in front of a line is read as that direction. */
  lemma TokensName(d: Direction, t: string)
    ensures Tokens(Name(d) + t) == if Tokens(t).Ok? then Ok([d] + Tokens(t).value) else Tokens(t)
  {
    var s := Name(d) + t;
    if d == E || d == W {
      assert s[0] == Name(d)[0] && s[1..] == t;
    } else {
      assert s[0] == Name(d)[0] && s[1] == Name(d)[1] && s[2..] == t;
    }
  }

  // ---------------------------------------------------------------- tiles

  datatype Tile = Tile(x: int, y: int, z: int)

  const Reference: Tile := Tile(0, 0, 0)

  predicate OnFloor(t: Tile) {
    t.x + t.y + t.z == 0
  }

  /** One step of `FlipTile`'s walk. */
  function Step(t: Tile, d: Direction): (r: Tile)
    ensures OnFloor(t) ==> OnFloor(r)
  {
    match d
    case E => Tile(t.x + 1, t.y - 1, t.z)
    case NE => Tile(t.x + 1, t.y, t.z - 1)
    case NW => Tile(t.x, t.y + 1, t.z - 1)
    case W => Tile(t.x - 1, t.y + 1, t.z)
    case SW => Tile(t.x - 1, t.y, t.z + 1)
    case SE => Tile(t.x, t.y - 1, t.z + 1)
  }

  function Opposite(d: Direction): Direction {
    match d
    case E => W
    case W => E
    case NE => SW
    case SW => NE
    case NW => SE
    case SE => NW
  }

  /** E and W, NE and SW, NW and SE undo each other. */
  lemma StepBack(t: Tile, d: Direction)
    ensures Step(Step(t, d), Opposite(d)) == t
    ensures Opposite(Opposite(d)) == d
  {
  }

  function Walk(t: Tile, ds: seq<Direction>): (r: Tile)
    ensures OnFloor(t) ==> OnFloor(r)
    decreases |ds|
  {
    if |ds| == 0 then t else Walk(Step(t, ds[0]), ds[1..])
  }

  /** A walk followed by its reverse, step by step undone, comes home. */
  lemma {:induction false} WalkThere(t: Tile, ds: seq<Direction>, back: seq<Direction>)
    requires |back| == |ds| && forall i :: 0 <= i < |ds| ==> back[i] == Opposite(ds[|ds| - 1 - i])
    ensures Walk(Walk(t, ds), back) == t
    decreases |ds|
  {
    if |ds| > 0 {
      var last := ds[|ds| - 1];
      var init := ds[..|ds| - 1];
      WalkAppend(t, init, [last]);
      assert ds == init + [last];
      StepBack(Walk(t, init), last);
      WalkThere(t, init, back[1..]);
    }
  }

  lemma {:induction false} WalkAppend(t: Tile, a: seq<Direction>, b: seq<Direction>)
    ensures Walk(t, a + b) == Walk(Walk(t, a), b)
    decreases |a|
  {
    if |a| > 0 {
      assert (a + b)[0] == a[0] && (a + b)[1..] == a[1..] + b;
      WalkAppend(Step(t, a[0]), a[1..], b);
    } else {
      assert a + b == b;
    }
  }

  // ---------------------------------------------------------------- neighbours

  /** `NeighborCoords`: a neighbour is the tile minus one of these. */
  function Offset(i: nat): (r: Tile)
    requires i < 6
    ensures OnFloor(r)
  {
    [Tile(1, -1, 0), Tile(0, -1, 1), Tile(-1, 0, 1), Tile(-1, 1, 0), Tile(0, 1, -1), Tile(1, 0, -1)][i]
  }

  function Neighbour(t: Tile, i: nat): (r: Tile)
    requires i < 6
    ensures OnFloor(t) ==> OnFloor(r)
  {
    Tile(t.x - Offset(i).x, t.y - Offset(i).y, t.z - Offset(i).z)
  }

  /** The six neighbours are the six one-step walks, each once. */
  lemma NeighboursAreSteps(t: Tile)
    ensures Neighbour(t, 0) == Step(t, W) && Neighbour(t, 1) == Step(t, NW)
    ensures Neighbour(t, 2) == Step(t, NE) && Neighbour(t, 3) == Step(t, E)
    ensures Neighbour(t, 4) == Step(t, SE) && Neighbour(t, 5) == Step(t, SW)
    ensures forall i, j :: 0 <= i < j < 6 ==> Neighbour(t, i) != Neighbour(t, j)
  {
  }

  /** Neighbourhood is symmetric: the opposite offset leads back. */
  lemma NeighbourBack(t: Tile, i: nat)
    requires i < 6
    ensures Neighbour(Neighbour(t, i), (i + 3) % 6) == t
  {
  }

  // ---------------------------------------------------------------- the floor

  /** `TilesToBlackSideUp`: every tile met so far, true when black. */
  type Floor = map<Tile, bool>

  predicate BlackAt(m: Floor, t: Tile) {
    t in m && m[t]
  }

  /** `new Game()`: only the reference tile, white. */
  const Start: Floor := map[Reference := false]

  /** The black tiles. */
  function Black(m: Floor): set<Tile> {
    set t | t in m && m[t]
  }

  /** `CountBlackTiles`: the tiles whose value is true, never more than the
      tiles known. */
  function CountBlackTiles(m: Floor): (r: nat)
    ensures r <= |m|
    ensures r == 0 <==> forall t :: t in m ==> !m[t]
  {
    assert Black(m) <= m.Keys;
    SubsetCard(Black(m), m.Keys);
    if Black(m) == {} then
      assert forall t :: t in m && m[t] ==> t in Black(m);
      |Black(m)|
    else
      var t :| t in Black(m);
      |Black(m)|
  }

  lemma {:induction false} SubsetCard<T>(a: set<T>, b: set<T>)
    requires a <= b
    ensures |a| <= |b|
    decreases |b|
  {
    if a != {} {
      var x :| x in a;
      SubsetCard(a - {x}, b - {x});
    }
  }

  /** Turning a tile over changes the count by one: down when it was
      black, up otherwise. */
  lemma ToggledCount(before: Floor, t: Tile, after: Floor)
    requires Toggled(before, t, after)
    ensures CountBlackTiles(after) == CountBlackTiles(before) + (if BlackAt(before, t) then -1 else 1)
  {
    ToggledBlack(before, t, after);
  }

  lemma ToggledBlack(before: Floor, t: Tile, after: Floor)
    requires Toggled(before, t, after)
    ensures Black(after) == if BlackAt(before, t) then Black(before) - {t} else Black(before) + {t}
  {
    forall u | u != t
      ensures u in Black(after) <==> u in Black(before)
    {
      assert u in after <==> u in before;
    }
  }

  /** `CountBlackAdjacentTiles` over the offsets from `i` on. */
  function CountFrom(m: Floor, t: Tile, i: nat): (r: nat)
    requires i <= 6
    ensures r <= 6 - i
    ensures r > 0 <==> exists j :: i <= j < 6 && BlackAt(m, Neighbour(t, j))
    decreases 6 - i
  {
    if i == 6 then 0
    else (if BlackAt(m, Neighbour(t, i)) then 1 else 0) + CountFrom(m, t, i + 1)
  }

  /** How many of the six neighbours are present and black. */
  function CountBlackAdjacent(m: Floor, t: Tile): (r: nat)
    ensures r <= 6
    ensures r > 0 <==> exists j :: 0 <= j < 6 && BlackAt(m, Neighbour(t, j))
  {
    CountFrom(m, t, 0)
  }

  /** The count reads nothing but which tiles are black. */
  lemma {:induction false} CountSameBlack(m1: Floor, m2: Floor, t: Tile, i: nat)
    requires i <= 6
    requires forall j :: 0 <= j < 6 ==> BlackAt(m1, Neighbour(t, j)) == BlackAt(m2, Neighbour(t, j))
    ensures CountFrom(m1, t, i) == CountFrom(m2, t, i)
    decreases 6 - i
  {
    if i < 6 {
      CountSameBlack(m1, m2, t, i + 1);
    }
  }

  // ---------------------------------------------------------------- flipping

  /** `Flip`. */
  function Flip(m: Floor, t: Tile): (r: Floor)
    requires t in m
    ensures r.Keys == m.Keys && r[t] == !m[t]
    ensures forall u :: u in m && u != t ==> r[u] == m[u]
  {
    m[t := !m[t]]
  }

  /** `FlipTile`: walk from the reference tile, add the tile white if it is
      new, and flip it. A line that does not lex throws. */
  function FlipTile(m: Floor, line: string): (r: Result<Floor>)
    ensures r.Err? <==> Tokens(line).Err?
    ensures r.Ok? ==> Toggled(m, Walk(Reference, Tokens(line).value), r.value)
  {
    var ds :- Tokens(line);
    Ok(FlipAt(m, Walk(Reference, ds)))
  }

  /** Lines 92-96 of `FlipTile`: add the tile white if it is new, then
      flip it. */
  function FlipAt(m: Floor, t: Tile): (r: Floor)
    ensures Toggled(m, t, r)
  {
    var known := if t in m then m else m[t := false];
    Flip(known, t)
  }

  /** `after` is `before` with `t` known and its colour turned over. */
  predicate Toggled(before: Floor, t: Tile, after: Floor) {
    && after.Keys == before.Keys + {t}
    && BlackAt(after, t) == !BlackAt(before, t)
    && forall u :: u in before && u != t ==> after[u] == before[u]
  }

  /** Reaching the same tile twice leaves it as it was, white when it was
      new. */
  lemma FlipTileTwice(m: Floor, line: string)
    requires FlipTile(m, line).Ok?
    ensures FlipTile(FlipTile(m, line).value, line).Ok?
    ensures forall u :: BlackAt(FlipTile(FlipTile(m, line).value, line).value, u) == BlackAt(m, u)
  {
    var t := Walk(Reference, Tokens(line).value);
    assert FlipTile(m, line) == Ok(FlipAt(m, t));
    assert FlipTile(FlipAt(m, t), line) == Ok(FlipAt(FlipAt(m, t), t));
    FlipAtTwice(m, t);
  }

  lemma FlipAtTwice(m: Floor, t: Tile)
    ensures forall u :: BlackAt(FlipAt(FlipAt(m, t), t), u) == BlackAt(m, u)
  {
    var once := FlipAt(m, t);
    var twice := FlipAt(once, t);
    forall u ensures BlackAt(twice, u) == BlackAt(m, u) {
      if u != t && u in m {
        assert twice[u] == once[u] == m[u];
      }
    }
  }

  /** `FlipTiles`: one line after another, stopping at the first that
      throws. */
  function FlipTiles(m: Floor, lines: seq<string>): (r: Result<Floor>)
    ensures r.Ok? ==> m.Keys <= r.value.Keys
    ensures r.Ok? <==> forall i :: 0 <= i < |lines| ==> Tokens(lines[i]).Ok?
    decreases |lines|
  {
    if |lines| == 0 then Ok(m)
    else
      match FlipTile(m, lines[0])
      case Err(e) => Err(e)
      case Ok(next) =>
        var r := FlipTiles(next, lines[1..]);
        assert r.Ok? <==> forall i :: 0 <= i < |lines| ==> Tokens(lines[i]).Ok? by {
          LinesLex(lines);
        }
        r
  }

  lemma LinesLex(lines: seq<string>)
    requires |lines| > 0
    ensures (forall i :: 0 <= i < |lines| ==> Tokens(lines[i]).Ok?)
      <==> Tokens(lines[0]).Ok? && forall i :: 0 <= i < |lines[1..]| ==> Tokens(lines[1..][i]).Ok?
  {
    if forall i :: 0 <= i < |lines[1..]| ==> Tokens(lines[1..][i]).Ok? {
      forall i | 1 <= i < |lines| ensures Tokens(lines[i]).Ok? {
        assert lines[i] == lines[1..][i - 1];
      }
    }
  }

  // ---------------------------------------------------------------- a day

  /** A tile next to a known tile that is not known itself and has a black
      neighbour: what `AddNewAdjacentTiles` collects. */
  predicate Grows(m: Floor, t: Tile) {
    t !in m && CountBlackAdjacent(m, t) > 0
  }

  function NewTiles(m: Floor): (r: set<Tile>)
    ensures forall t :: t in r ==> Grows(m, t)
  {
    set k, i | k in m && 0 <= i < 6 && Grows(m, Neighbour(k, i)) :: Neighbour(k, i)
  }

  /** `AddNewAdjacentTiles`: the collected tiles are added, white. */
  function AddNewAdjacentTiles(m: Floor): (r: Floor)
    ensures m.Keys <= r.Keys
    ensures forall t :: t in m ==> r[t] == m[t]
    ensures forall t :: t in r && t !in m ==> !r[t] && CountBlackAdjacent(m, t) > 0
  {
    map t | t in m.Keys + NewTiles(m) :: if t in m then m[t] else false
  }

  /** Every unknown tile with a black neighbour is collected: its black
      neighbour is known, and it is that tile's neighbour. */
  lemma AddNewCoversBlackNeighbours(m: Floor, t: Tile)
    requires t !in m && CountBlackAdjacent(m, t) > 0
    ensures t in AddNewAdjacentTiles(m)
  {
    var j :| 0 <= j < 6 && BlackAt(m, Neighbour(t, j));
    var k := Neighbour(t, j);
    NeighbourBack(t, j);
    assert Neighbour(k, (j + 3) % 6) == t;
    assert t in NewTiles(m);
  }

  /** Adding white tiles changes no count. */
  lemma AddNewKeepsCounts(m: Floor, t: Tile)
    ensures CountBlackAdjacent(AddNewAdjacentTiles(m), t) == CountBlackAdjacent(m, t)
  {
    var a := AddNewAdjacentTiles(m);
    forall j | 0 <= j < 6
      ensures BlackAt(a, Neighbour(t, j)) == BlackAt(m, Neighbour(t, j))
    {
    }
    CountSameBlack(a, m, t, 0);
  }

  /** The exhibit rule for one known tile. */
  predicate ShouldFlip(m: Floor, t: Tile)
    requires t in m
  {
    var n := CountBlackAdjacent(m, t);
    (m[t] && (n == 0 || n > 2)) || (!m[t] && n == 2)
  }

  /** `FlipAccordingToRules`: every decision is taken on the floor before
      any flip. */
  function FlipAccordingToRules(m: Floor): (r: Floor)
    ensures r.Keys == m.Keys
    ensures forall t :: t in m ==> (r[t] != m[t] <==> ShouldFlip(m, t))
  {
    map t | t in m :: if ShouldFlip(m, t) then !m[t] else m[t]
  }

  /** `ExecuteRules`. */
  function Day(m: Floor): Floor {
    FlipAccordingToRules(AddNewAdjacentTiles(m))
  }

  /** The rule as stated for the whole floor: a black tile stays black with
      one or two black neighbours, a white tile turns black with exactly
      two. */
  predicate BlackTomorrow(m: Floor, t: Tile) {
    var n := CountBlackAdjacent(m, t);
    (BlackAt(m, t) && (n == 1 || n == 2)) || (!BlackAt(m, t) && n == 2)
  }

  /** A day on the dictionary is the rule on the unbounded floor, for every
      tile, known or not. */
  lemma DayMatchesRule(m: Floor, t: Tile)
    ensures BlackAt(Day(m), t) <==> BlackTomorrow(m, t)
  {
    var a := AddNewAdjacentTiles(m);
    var n := CountBlackAdjacent(m, t);
    AddNewKeepsCounts(m, t);
    if t in a {
      assert BlackAt(a, t) == BlackAt(m, t);
      TomorrowOnKnownTile(a, t, n);
    } else {
      if t !in m && n > 0 {
        AddNewCoversBlackNeighbours(m, t);
      }
      assert n == 0 && !BlackAt(m, t);
    }
  }

  /** On a known tile the flip decision is the rule. */
  lemma TomorrowOnKnownTile(a: Floor, t: Tile, n: nat)
    requires t in a && n == CountBlackAdjacent(a, t)
    ensures BlackAt(FlipAccordingToRules(a), t) <==> (a[t] && (n == 1 || n == 2)) || (!a[t] && n == 2)
  {
  }

  /** `PerformArtExhibit`. */
  function Exhibit(m: Floor, days: nat): (r: Floor)
    ensures m.Keys <= r.Keys
    ensures days == 0 ==> r == m
    decreases days
  {
    if days == 0 then m else Exhibit(Day(m), days - 1)
  }

  /** Every tile the game knows lies on the floor's plane. */
  lemma {:induction false} ExhibitOnFloor(m: Floor, days: nat)
    requires forall t :: t in m ==> OnFloor(t)
    ensures forall t :: t in Exhibit(m, days) ==> OnFloor(t)
    decreases days
  {
    if days > 0 {
      DayOnFloor(m);
      ExhibitOnFloor(Day(m), days - 1);
    }
  }

  lemma DayOnFloor(m: Floor)
    requires forall t :: t in m ==> OnFloor(t)
    ensures forall t :: t in Day(m) ==> OnFloor(t)
  {
    forall t | t in Day(m)
      ensures OnFloor(t)
    {
      if t !in m {
        assert t in NewTiles(m);
        var k, i :| k in m && 0 <= i < 6 && t == Neighbour(k, i);
      }
    }
  }

  /** The tiles reached by the lines all lie on the plane. */
  lemma {:induction false} FlipTilesOnFloor(m: Floor, lines: seq<string>)
    requires forall t :: t in m ==> OnFloor(t)
    requires FlipTiles(m, lines).Ok?
    ensures forall t :: t in FlipTiles(m, lines).value ==> OnFloor(t)
    decreases |lines|
  {
    if |lines| > 0 {
      FlipTilesOnFloor(FlipTile(m, lines[0]).value, lines[1..]);
    }
  }

  // ---------------------------------------------------------------- the parts

  /** How many of the lines lead to `t`. */
  function Hits(lines: seq<string>, t: Tile): nat {
    if |lines| == 0 then 0
    else (if Tokens(lines[0]).Ok? && Walk(Reference, Tokens(lines[0]).value) == t then 1 else 0) + Hits(lines[1..], t)
  }

  /** After flipping, a tile is black exactly when its colour before and the
      parity of the lines leading to it disagree. */
  lemma {:induction false} FlipTilesParity(m: Floor, lines: seq<string>, t: Tile)
    requires FlipTiles(m, lines).Ok?
    ensures BlackAt(FlipTiles(m, lines).value, t) <==> (BlackAt(m, t) != (Hits(lines, t) % 2 == 1))
    decreases |lines|
  {
    if |lines| == 0 {
      assert FlipTiles(m, lines) == Ok(m) && Hits(lines, t) == 0;
    } else {
      FlipTilesUnfold(m, lines, t);
      var next := FlipTile(m, lines[0]).value;
      var u := Walk(Reference, Tokens(lines[0]).value);
      ToggledColour(m, u, next, t);
      FlipTilesParity(next, lines[1..], t);
      ParityStep(BlackAt(m, t), u == t, BlackAt(next, t), BlackAt(FlipTiles(next, lines[1..]).value, t),
                 Hits(lines[1..], t), Hits(lines, t));
    }
  }

  lemma FlipTilesUnfold(m: Floor, lines: seq<string>, t: Tile)
    requires |lines| > 0 && FlipTiles(m, lines).Ok?
    ensures FlipTile(m, lines[0]).Ok?
    ensures FlipTiles(m, lines) == FlipTiles(FlipTile(m, lines[0]).value, lines[1..])
    ensures Hits(lines, t) == (if Walk(Reference, Tokens(lines[0]).value) == t then 1 else 0) + Hits(lines[1..], t)
  {
  }

  /** Flipping once more toggles the parity. */
  lemma ParityStep(before: bool, hit: bool, middle: bool, after: bool, restHits: nat, hits: nat)
    requires middle == (before != hit) && after == (middle != (restHits % 2 == 1))
    requires hits == (if hit then 1 else 0) + restHits
    ensures after == (before != (hits % 2 == 1))
  {
  }

  lemma ToggledColour(before: Floor, u: Tile, after: Floor, t: Tile)
    requires Toggled(before, u, after)
    ensures BlackAt(after, t) <==> (BlackAt(before, t) != (u == t))
  {
  }

  /** From the all-white start, the black tiles are those an odd number of
      lines lead to. */
  lemma BlackIffOddHits(lines: seq<string>)
    requires FlipTiles(Start, lines).Ok?
    ensures forall t :: BlackAt(FlipTiles(Start, lines).value, t) <==> Hits(lines, t) % 2 == 1
  {
    forall t
      ensures BlackAt(FlipTiles(Start, lines).value, t) <==> Hits(lines, t) % 2 == 1
    {
      FlipTilesParity(Start, lines, t);
    }
  }

  /** The exhibit runs its last day on the floor the earlier days left. */
  lemma {:induction false} ExhibitLast(m: Floor, days: nat)
    ensures Exhibit(m, days + 1) == Day(Exhibit(m, days))
    decreases days, 1
  {
    if days == 0 {
      ExhibitOne(m);
    } else {
      ExhibitLastStep(m, days);
    }
  }

  lemma {:induction false} ExhibitLastStep(m: Floor, days: nat)
    requires days > 0
    ensures Exhibit(m, days + 1) == Day(Exhibit(m, days))
    decreases days, 0
  {
    var a := Exhibit(Day(m), days - 1);
    ExhibitLast(Day(m), days - 1);
    ExhibitUnfold(m, days);
    assert Exhibit(m, days + 1) == Day(a);
  }

  lemma ExhibitOne(m: Floor)
    ensures Exhibit(m, 1) == Day(m)
  {
    assert Exhibit(m, 1) == Exhibit(Day(m), 0);
  }

  lemma ExhibitUnfold(m: Floor, days: nat)
    requires days > 0
    ensures Exhibit(m, days + 1) == Exhibit(Day(m), days)
    ensures Exhibit(m, days) == Exhibit(Day(m), days - 1)
  {
  }

  /** Each day of the exhibit follows the rule on the unbounded floor. */
  lemma ExhibitFollowsRule(m: Floor, days: nat)
    ensures forall t :: BlackAt(Exhibit(m, days + 1), t) <==> BlackTomorrow(Exhibit(m, days), t)
  {
    ExhibitLast(m, days);
    forall t
      ensures BlackAt(Exhibit(m, days + 1), t) <==> BlackTomorrow(Exhibit(m, days), t)
    {
      DayMatchesRule(Exhibit(m, days), t);
    }
  }

  /** Part 1: the number of tiles an odd number of lines lead to. */
  function Part1(lines: seq<string>): (r: Result<nat>)
    ensures r.Ok? <==> forall i :: 0 <= i < |lines| ==> Tokens(lines[i]).Ok?
    ensures r.Ok? ==> (
      var m := FlipTiles(Start, lines).value;
      && r.value == |Black(m)|
      && forall t :: t in Black(m) <==> Hits(lines, t) % 2 == 1)
  {
    var m :- FlipTiles(Start, lines);
    BlackIffOddHits(lines);
    Ok(CountBlackTiles(m))
  }

  /** Part 2: the black tiles after a hundred days of the rule, starting
      from part 1's floor. */
  function Part2(lines: seq<string>): (r: Result<nat>)
    ensures r.Ok? <==> forall i :: 0 <= i < |lines| ==> Tokens(lines[i]).Ok?
    ensures r.Ok? ==> (
      var m := FlipTiles(Start, lines).value;
      && (forall t :: BlackAt(m, t) <==> Hits(lines, t) % 2 == 1)
      && r.value == |Black(Exhibit(m, 100))|
      && forall t :: BlackAt(Exhibit(m, 100), t) <==> BlackTomorrow(Exhibit(m, 99), t))
  {
    var m :- FlipTiles(Start, lines);
    BlackIffOddHits(lines);
    ExhibitFollowsRule(m, 99);
    Ok(CountBlackTiles(Exhibit(m, 100)))
  }
}
