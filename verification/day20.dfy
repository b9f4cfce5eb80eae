/** Day 20, Jurassic Jigsaw: square 10x10 camera tiles, each with an id, are
    to be rotated and flipped until their borders line up; with the borders
    cut off, the assembled picture is searched, in each of its orientations,
    for sea monsters, and part 2 is the number of '#' cells that no monster
    covers.

    Grids are `seq<seq<char>>` indexed `[row][column]` like the original's
    `char[,]`; a cell nobody wrote holds the default `'\0'`. What is modelled:
    the array transforms, the sixteen permutations of a tile, the borders and
    the border predicates, the border searches used while stitching, the
    border-free interior, the sea-monster count and the part 2 arithmetic.
    Assembling the picture is not modelled; part 2 starts from a picture. */
module Day20 {
  import opened Wrappers
  import Strings

  type Grid = seq<seq<char>>

  /** The value of a `char[,]` cell that was never written. */
  const Unset: char := '\0'

  /** The side of every parsed tile (`new char[10, 10]`). */
  const TileSize: nat := 10

  predicate Rect(g: Grid, rows: nat, cols: nat) {
    |g| == rows && forall i :: 0 <= i < rows ==> |g[i]| == cols
  }

  predicate Square(g: Grid, n: nat) {
    Rect(g, n, n)
  }

  // ---------------------------------------------------------------- flips

  function Reverse(s: string): (r: string)
    ensures |r| == |s|
  {
    seq(|s|, k requires 0 <= k < |s| => s[|s| - 1 - k])
  }

  /** `FlipVertical`: `result[r, c] = array[rows - 1 - r, c]`. */
  function FlipVertical(g: Grid): (r: Grid)
    ensures |r| == |g|
  {
    seq(|g|, i requires 0 <= i < |g| => g[|g| - 1 - i])
  }

  /** `FlipHorizontal`: `result[r, c] = array[r, columns - 1 - c]`. */
  function FlipHorizontal(g: Grid): (r: Grid)
    ensures |r| == |g|
  {
    seq(|g|, i requires 0 <= i < |g| => Reverse(g[i]))
  }

  lemma ReverseTwice(s: string)
    ensures Reverse(Reverse(s)) == s
  {
  }

  /** Both flips keep the shape of the grid and undo themselves. */
  lemma FlipsAreInvolutions(g: Grid, rows: nat, cols: nat)
    requires Rect(g, rows, cols)
    ensures Rect(FlipVertical(g), rows, cols) && Rect(FlipHorizontal(g), rows, cols)
    ensures FlipVertical(FlipVertical(g)) == g
    ensures FlipHorizontal(FlipHorizontal(g)) == g
  {
    forall i | 0 <= i < rows ensures FlipHorizontal(FlipHorizontal(g))[i] == g[i] {
      ReverseTwice(g[i]);
    }
  }

  /** `Transpose`: a `rows` by `cols` grid becomes `cols` by `rows`. */
  function Transpose(g: Grid, rows: nat, cols: nat): (r: Grid)
    requires Rect(g, rows, cols)
    ensures Rect(r, cols, rows)
  {
    seq(cols, c requires 0 <= c < cols => seq(rows, i requires 0 <= i < rows => g[i][c]))
  }

  /** Transposing twice gives the grid back. */
  lemma TransposeTwice(g: Grid, rows: nat, cols: nat)
    requires Rect(g, rows, cols)
    ensures Transpose(Transpose(g, rows, cols), cols, rows) == g
  {
    var t := Transpose(Transpose(g, rows, cols), cols, rows);
    forall i | 0 <= i < rows ensures t[i] == g[i] {
    }
  }

  // ---------------------------------------------------------------- ReverseRows

  /** `ReverseRows`' inner loop on row `row` of an `n` by `n` array after its
      first `k` passes: pass `c` writes `row[n - 1 - c]` at `c` and `row[c]`
      at `n - 1 - c`; the cells no pass has written yet are unset. */
  function RowPasses(row: string, n: nat, k: nat): (r: string)
    requires |row| == n && k <= n / 2
    ensures |r| == n
    ensures forall j :: 0 <= j < n ==> r[j] == if j < k || n - 1 - j < k then row[n - 1 - j] else Unset
    decreases k
  {
    if k == 0 then seq(n, _ => Unset)
    else
      var prev := RowPasses(row, n, k - 1);
      prev[k - 1 := row[n - k]][n - k := row[k - 1]]
  }

  /** `ReverseRows` on a square array: every row mirrored, except that the
      loop runs over half the width, so for an odd width the middle column is
      never written and stays unset. */
  function ReverseRows(g: Grid, n: nat): (r: Grid)
    requires Square(g, n)
    ensures Square(r, n)
    ensures forall i, j :: 0 <= i < n && 0 <= j < n ==>
      r[i][j] == if n % 2 == 1 && j == n / 2 then Unset else g[i][n - 1 - j]
  {
    seq(n, i requires 0 <= i < n => RowPasses(g[i], n, n / 2))
  }

  /** `Rotate90`: transpose, then `ReverseRows` — a clockwise quarter turn
      when the side is even. */
  function Rotate90(g: Grid, n: nat): (r: Grid)
    requires Square(g, n)
    ensures Square(r, n)
    ensures forall i, j :: 0 <= i < n && 0 <= j < n ==>
      r[i][j] == if n % 2 == 1 && j == n / 2 then Unset else g[n - 1 - j][i]
  {
    ReverseRows(Transpose(g, n, n), n)
  }

  /** On an odd side the rotation blanks the middle column whatever the grid
      held, so it is not a rotation and four of them do not give the grid back. */
  lemma OddRotationLosesMiddle(g: Grid, n: nat, i: nat)
    requires Square(g, n) && n % 2 == 1 && i < n
    ensures Rotate90(g, n)[i][n / 2] == Unset
  {
  }

  /** `k` quarter turns. */
  function Turns(g: Grid, n: nat, k: nat): (r: Grid)
    requires Square(g, n)
    ensures Square(r, n)
  {
    if k == 0 then g else Rotate90(Turns(g, n, k - 1), n)
  }

  /** Two quarter turns are a half turn. */
  lemma HalfTurn(g: Grid, n: nat)
    requires Square(g, n) && n % 2 == 0
    ensures forall i, j :: 0 <= i < n && 0 <= j < n ==> Turns(g, n, 2)[i][j] == g[n - 1 - i][n - 1 - j]
  {
    var once := Rotate90(g, n);
    assert Turns(g, n, 1) == once;
    forall i, j | 0 <= i < n && 0 <= j < n
      ensures Turns(g, n, 2)[i][j] == g[n - 1 - i][n - 1 - j]
    {
      assert Turns(g, n, 2)[i][j] == once[n - 1 - j][i];
    }
  }

  /** On an even side four quarter turns give the grid back. */
  lemma FourTurns(g: Grid, n: nat)
    requires Square(g, n) && n % 2 == 0
    ensures Turns(g, n, 4) == g
  {
    var half := Turns(g, n, 2);
    HalfTurn(g, n);
    HalfTurn(half, n);
    assert Turns(half, n, 1) == Turns(g, n, 3);
    assert Turns(half, n, 2) == Turns(g, n, 4);
    var four := Turns(g, n, 4);
    forall i | 0 <= i < n ensures four[i] == g[i] {
      forall j | 0 <= j < n ensures four[i][j] == g[i][j] {
        assert four[i][j] == half[n - 1 - i][n - 1 - j];
      }
    }
  }

  // ---------------------------------------------------------------- Flip

  /** `Flip` for a direction it knows: 0 vertical, 1 horizontal, 2 both
      (horizontal first), 3 none. */
  function Flipped(g: Grid, dir: nat): Grid
    requires dir < 4
  {
    if dir == 0 then FlipVertical(g)
    else if dir == 1 then FlipHorizontal(g)
    else if dir == 2 then FlipVertical(FlipHorizontal(g))
    else g
  }

  /** `Flip`: any other direction throws. */
  function Flip(g: Grid, dir: int): (r: Result<Grid>)
    ensures r.Ok? <==> 0 <= dir < 4
    ensures r.Ok? ==> r.value == Flipped(g, dir as nat)
  {
    if 0 <= dir < 4 then Ok(Flipped(g, dir as nat)) else Err("Exception of type 'System.Exception' was thrown.")
  }

  /** Flipping both ways is the half turn, so on an even side direction 2
      repeats an orientation the rotations already produce. */
  lemma FlipBothIsHalfTurn(g: Grid, n: nat)
    requires Square(g, n) && n % 2 == 0
    ensures Flipped(g, 2) == Turns(g, n, 2)
  {
    HalfTurn(g, n);
    FlipBothCells(g, n);
    var f := Flipped(g, 2);
    var t := Turns(g, n, 2);
    forall i | 0 <= i < n ensures f[i] == t[i] {
      forall j | 0 <= j < n ensures f[i][j] == t[i][j] {
      }
    }
  }

  lemma FlipBothCells(g: Grid, n: nat)
    requires Square(g, n)
    ensures Square(Flipped(g, 2), n)
    ensures forall i, j :: 0 <= i < n && 0 <= j < n ==> Flipped(g, 2)[i][j] == g[n - 1 - i][n - 1 - j]
  {
    var f := FlipVertical(FlipHorizontal(g));
    forall i, j | 0 <= i < n && 0 <= j < n ensures f[i][j] == g[n - 1 - i][n - 1 - j] {
      assert f[i] == Reverse(g[n - 1 - i]);
    }
  }

  /** Every flip keeps a square grid square. */
  lemma FlippedSquare(g: Grid, n: nat, dir: nat)
    requires Square(g, n) && dir < 4
    ensures Square(Flipped(g, dir), n)
  {
    FlipsAreInvolutions(g, n, n);
    FlipsAreInvolutions(FlipHorizontal(g), n, n);
  }

  /** `GetPermutationTiles`' grids, in its order: for each of four quarter
      turns (the first applied before any flip), the four flip directions. */
  function Orientations(g: Grid, n: nat): (r: seq<Grid>)
    requires Square(g, n)
    ensures |r| == 16
    ensures forall m :: 0 <= m < 16 ==> Square(r[m], n)
    ensures forall m :: 0 <= m < 16 ==> Flip(Turns(g, n, m / 4 + 1), m % 4) == Ok(r[m])
  {
    var r := seq(16, m requires 0 <= m < 16 => Flipped(Turns(g, n, m / 4 + 1), m % 4));
    assert forall m :: 0 <= m < 16 ==> Square(r[m], n) by {
      forall m | 0 <= m < 16 ensures Square(r[m], n) {
        FlippedSquare(Turns(g, n, m / 4 + 1), n, m % 4);
      }
    }
    r
  }

  /** On an even side the last permutation is the tile as parsed. */
  lemma OrientationsIncludeOriginal(g: Grid, n: nat)
    requires Square(g, n) && n % 2 == 0
    ensures Orientations(g, n)[15] == g
  {
    FourTurns(g, n);
  }

  // ---------------------------------------------------------------- tiles

  /** Which `char[,]` allocation holds a tile's data: the one `ParseData` made
      for the `k`-th tile of the input, or one made while building that tile's
      `index`-th permutation (every permutation has its own array: a flip
      allocates one, and the unflipped direction 3 is the array the rotation
      just allocated). `Tile.Equals` compares exactly this. */
  datatype ArrayRef = Parsed(k: nat) | Derived(k: nat, index: nat)

  /** A tile built by `new Tile(data, id)`: one permutation of a parsed tile. */
  datatype Oriented = Oriented(id: int, data: Grid, alloc: ArrayRef)

  /** A tile built from the input, with its permutation tiles. */
  datatype Piece = Piece(id: int, data: Grid, alloc: ArrayRef, perms: seq<Oriented>)

  /** Tiles as the constructor leaves them: 10x10 data, and permutations of
      the same size carrying the tile's id. */
  predicate ValidPiece(p: Piece) {
    Square(p.data, TileSize)
    && forall m :: 0 <= m < |p.perms| ==> Square(p.perms[m].data, TileSize) && p.perms[m].id == p.id
  }

  predicate ValidPieces(tiles: seq<Piece>) {
    forall i :: 0 <= i < |tiles| ==> ValidPiece(tiles[i])
  }

  /** `GetPermutationTiles` for the `k`-th parsed tile: one tile per
      orientation, in `Orientations` order, each with the parent's id. */
  function Permutations(k: nat, id: int, data: Grid): (r: seq<Oriented>)
    requires Square(data, TileSize)
    ensures |r| == 16
    ensures forall m :: 0 <= m < 16 ==>
      r[m].id == id && r[m].data == Orientations(data, TileSize)[m] && r[m].alloc == Derived(k, m)
  {
    var o := Orientations(data, TileSize);
    seq(16, m requires 0 <= m < 16 => Oriented(id, o[m], Derived(k, m)))
  }

  /** `Enumerable.Distinct` under `Tile.Equals`: the first tile of each array,
      in order; `seen` holds the arrays already kept. */
  function Distinct(ts: seq<Oriented>, seen: set<ArrayRef>): (r: seq<Oriented>)
    ensures |r| <= |ts|
    decreases |ts|
  {
    if |ts| == 0 then []
    else if ts[0].alloc in seen then Distinct(ts[1..], seen)
    else [ts[0]] + Distinct(ts[1..], seen + {ts[0].alloc})
  }

  predicate DistinctArrays(ts: seq<Oriented>) {
    forall a, b :: 0 <= a < b < |ts| ==> ts[a].alloc != ts[b].alloc
  }

  /** When no two tiles share an array, `Distinct` removes nothing. */
  lemma {:induction false} DistinctKeepsAll(ts: seq<Oriented>, seen: set<ArrayRef>)
    requires DistinctArrays(ts)
    requires forall m :: 0 <= m < |ts| ==> ts[m].alloc !in seen
    ensures Distinct(ts, seen) == ts
    decreases |ts|
  {
    if |ts| > 0 {
      var rest := ts[1..];
      assert forall m :: 0 <= m < |rest| ==> rest[m] == ts[m + 1];
      DistinctKeepsAll(rest, seen + {ts[0].alloc});
    }
  }

  /** A tile whose array was already kept is dropped. */
  lemma DistinctDropsRepeat(ts: seq<Oriented>, seen: set<ArrayRef>)
    requires |ts| > 0 && ts[0].alloc in seen
    ensures Distinct(ts, seen) == Distinct(ts[1..], seen)
  {
  }

  /** The 10x10 array `ParseData` fills: row `i` of the tile's lines from
      column 0, every other cell unset. */
  function Fill(rows: seq<string>): (g: Grid)
    ensures Square(g, TileSize)
  {
    seq(TileSize, i requires 0 <= i < TileSize =>
      seq(TileSize, j requires 0 <= j < TileSize => if i < |rows| && j < |rows[i]| then rows[i][j] else Unset))
  }

  /** Whether `ParseData` writes outside the array: a character in column 10
      or beyond, or in row 10 or beyond. */
  predicate Overflows(rows: seq<string>) {
    exists i :: 0 <= i < |rows| && (|rows[i]| > TileSize || (i >= TileSize && |rows[i]| > 0))
  }

  /** The id text of a header `Tile 2311:`: its second word without its
      last character. */
  function IdText(header: string): Option<string> {
    var words := Strings.Split(header, " ");
    if |words| < 2 then None
    else if |words[1]| == 0 then Some("")
    else Some(words[1][..|words[1]| - 1])
  }

  /** `new Tile(rawData)` for the `k`-th group of lines: `ParseData`, then the
      permutation tiles through `Distinct`. */
  function ParseTile(k: nat, lines: seq<string>): (r: Result<Piece>)
    ensures r.Ok? <==> (|lines| > 0 && IdText(lines[0]).Some?
      && Strings.ParseInt32(IdText(lines[0]).value).Some? && !Overflows(lines[1..]))
    ensures r.Ok? ==> ValidPiece(r.value) && r.value.alloc == Parsed(k)
    ensures r.Ok? ==> r.value.data == Fill(lines[1..])
    ensures r.Ok? ==> r.value.perms == Permutations(k, r.value.id, r.value.data)
  {
    if |lines| == 0 then Err("Sequence contains no elements")
    else
      match IdText(lines[0])
      case None => Err("Index was outside the bounds of the array.")
      case Some(text) =>
        match Strings.ParseInt32(text)
        case None => Err("Input string was not in a correct format.")
        case Some(id) =>
          var rows := lines[1..];
          if Overflows(rows) then Err("Index was outside the bounds of the array.")
          else
            var data := Fill(rows);
            var perms := Permutations(k, id, data);
            DistinctKeepsAll(perms, {});
            Ok(Piece(id, data, Parsed(k), Distinct(perms, {})))
  }

  /** The lines of a tile: the header `Tile <id>:` and its rows. */
  function RenderTile(id: int, g: Grid): seq<string> {
    ["Tile " + Strings.IntToString(id) + ":"] + g
  }

  lemma NoSpaceInIntToString(id: int)
    ensures ' ' !in Strings.IntToString(id) + ":"
  {
    var s := Strings.IntToString(id);
    var d := if id < 0 then Strings.NatToString(-id) else Strings.NatToString(id);
    assert Strings.AllDigits(d);
    assert forall i :: 0 <= i < |d| ==> d[i] != ' ';
  }

  /** A rendered 10x10 tile parses back to its id and grid. */
  lemma ParseRenderedTile(k: nat, id: int, g: Grid)
    requires -0x8000_0000 <= id < 0x8000_0000 && Square(g, TileSize)
    ensures ParseTile(k, RenderTile(id, g)).Ok?
    ensures ParseTile(k, RenderTile(id, g)).value.id == id
    ensures ParseTile(k, RenderTile(id, g)).value.data == g
  {
    HeaderIdText(id);
    Strings.ParseIntOfIntToString(id);
    assert RenderTile(id, g)[1..] == g;
    FillSquare(g);
  }

  /** The header `Tile <id>:` carries the id's text. */
  lemma HeaderIdText(id: int)
    ensures IdText("Tile " + Strings.IntToString(id) + ":") == Some(Strings.IntToString(id))
  {
    var text := Strings.IntToString(id);
    var word := text + ":";
    NoSpaceInIntToString(id);
    assert "Tile " + text + ":" == "Tile" + [' '] + word;
    Strings.SplitPair("Tile", ' ', word);
    assert word[..|word| - 1] == text;
  }

  /** Filling the array from a 10x10 grid copies it. */
  lemma FillSquare(g: Grid)
    requires Square(g, TileSize)
    ensures !Overflows(g) && Fill(g) == g
  {
    var f := Fill(g);
    forall i | 0 <= i < TileSize ensures f[i] == g[i] {
      assert forall j :: 0 <= j < TileSize ==> f[i][j] == g[i][j];
    }
  }

  /** The groups from the `k`-th on made into tiles, the `k`-th first. */
  function ParseGroups(groups: seq<seq<string>>, k: nat): (r: Result<seq<Piece>>)
    requires k <= |groups|
    ensures r.Ok? <==> TilesParse(groups, k)
    ensures r.Ok? ==> |r.value| == |groups| - k && ValidPieces(r.value) && NumberedFrom(r.value, k)
    decreases |groups| - k
  {
    if k == |groups| then Ok([])
    else
      var tile :- ParseTile(k, groups[k]);
      var rest :- ParseGroups(groups, k + 1);
      PiecesCons(tile, rest, k);
      Ok([tile] + rest)
  }

  /** Every group from the `k`-th on parses as a tile. */
  predicate TilesParse(groups: seq<seq<string>>, k: nat) {
    forall i :: k <= i < |groups| ==> TileParses(i, groups[i])
  }

  predicate TileParses(k: nat, lines: seq<string>) {
    ParseTile(k, lines).Ok?
  }

  /** The pieces are the `k`-th, `k+1`-th, … parsed tiles. */
  predicate NumberedFrom(pieces: seq<Piece>, k: nat) {
    forall i :: 0 <= i < |pieces| ==> pieces[i].alloc == Parsed(k + i)
  }

  lemma PiecesCons(tile: Piece, rest: seq<Piece>, k: nat)
    requires ValidPiece(tile) && tile.alloc == Parsed(k)
    requires ValidPieces(rest) && NumberedFrom(rest, k + 1)
    ensures ValidPieces([tile] + rest) && NumberedFrom([tile] + rest, k)
  {
    assert forall i :: 1 <= i <= |rest| ==> ([tile] + rest)[i] == rest[i - 1];
  }

  /** `ParseInput`: the lines in blank-line separated groups, the `k`-th group
      made into the `k`-th tile; the first group that fails to parse fails
      the whole input. */
  function ParseInput(lines: seq<string>): (r: Result<seq<Piece>>)
    ensures r.Ok? ==> |r.value| == |Strings.Paragraphs(lines)| && ValidPieces(r.value)
    ensures r.Ok? ==> NumberedFrom(r.value, 0)
    ensures r.Ok? <==> TilesParse(Strings.Paragraphs(lines), 0)
  {
    ParseGroups(Strings.Paragraphs(lines), 0)
  }

  /** A blank last line leaves an empty group behind it. */
  lemma {:induction false} ParagraphsEndEmpty(lines: seq<string>)
    requires |lines| > 0 && Strings.IsBlank(lines[|lines| - 1])
    ensures Strings.Paragraphs(lines)[|Strings.Paragraphs(lines)| - 1] == []
    decreases |lines|
  {
    if |lines| > 1 {
      var tail := lines[1..];
      assert tail[|tail| - 1] == lines[|lines| - 1];
      ParagraphsEndEmpty(tail);
    }
  }

  /** Input ending in a blank line fails: the last group is empty and its
      header is read with `First()`. */
  lemma TrailingBlankLineFails(lines: seq<string>)
    requires |lines| > 0 && Strings.IsBlank(lines[|lines| - 1])
    ensures ParseInput(lines).Err?
  {
    var groups := Strings.Paragraphs(lines);
    ParagraphsEndEmpty(lines);
    assert !ParseTile(|groups| - 1, groups[|groups| - 1]).Ok?;
  }

  // ---------------------------------------------------------------- borders

  function Column(g: Grid, n: nat, c: nat): (r: string)
    requires Square(g, n) && c < n
    ensures |r| == n
  {
    seq(n, i requires 0 <= i < n => g[i][c])
  }

  /** `GetBorders`: the first column, the last row, the last column, the
      first row, each read in increasing index order. */
  function GetBorders(g: Grid, n: nat): (r: seq<string>)
    requires Square(g, n) && n > 0
    ensures |r| == 4 && forall s :: 0 <= s < 4 ==> |r[s]| == n
  {
    [Column(g, n, 0), g[n - 1], Column(g, n, n - 1), g[0]]
  }

  datatype Borders = Borders(left: string, top: string, right: string, bottom: string)

  /** `GetBordersClass`: the borders named in `GetBorders`' order, so `Top`
      is the last row and `Bottom` the first. */
  function BordersOf(g: Grid, n: nat): (b: Borders)
    requires Square(g, n) && n > 0
    ensures [b.left, b.top, b.right, b.bottom] == GetBorders(g, n)
  {
    var r := GetBorders(g, n);
    Borders(r[0], r[1], r[2], r[3])
  }

  /** A horizontal flip swaps the left and right borders and reverses the
      other two. */
  lemma BordersOfFlipHorizontal(g: Grid, n: nat)
    requires Square(g, n) && n > 0
    ensures Square(FlipHorizontal(g), n)
    ensures BordersOf(FlipHorizontal(g), n)
      == Borders(BordersOf(g, n).right, Reverse(BordersOf(g, n).top), BordersOf(g, n).left, Reverse(BordersOf(g, n).bottom))
  {
    FlipsAreInvolutions(g, n, n);
  }

  /** A vertical flip swaps the top and bottom borders and reverses the
      other two. */
  lemma BordersOfFlipVertical(g: Grid, n: nat)
    requires Square(g, n) && n > 0
    ensures Square(FlipVertical(g), n)
    ensures BordersOf(FlipVertical(g), n)
      == Borders(Reverse(BordersOf(g, n).left), BordersOf(g, n).bottom, Reverse(BordersOf(g, n).right), BordersOf(g, n).top)
  {
    FlipsAreInvolutions(g, n, n);
  }

  /** `Match`'s loop from border `i` on. */
  function MatchFrom(b1: seq<string>, b2: seq<string>, i: nat): (r: bool)
    requires |b1| == 4 && |b2| == 4 && i <= 4
    ensures r <==> exists k :: i <= k < 4 && b1[k] == b2[(k + 2) % 4]
    decreases 4 - i
  {
    if i == 4 then false
    else if b1[i] == b2[(i + 2) % 4] then true
    else MatchFrom(b1, b2, i + 1)
  }

  /** `Match`: some border of the first tile equals the border two places on
      in the second's list. */
  function Match(g1: Grid, g2: Grid, n: nat): (r: bool)
    requires Square(g1, n) && Square(g2, n) && n > 0
  {
    MatchFrom(GetBorders(g1, n), GetBorders(g2, n), 0)
  }

  /** `Match` pairs opposite sides: the first tile's left with the second's
      right, top with bottom, right with left, bottom with top. */
  lemma MatchIsOppositeSides(g1: Grid, g2: Grid, n: nat)
    requires Square(g1, n) && Square(g2, n) && n > 0
    ensures Match(g1, g2, n) <==>
      var a, b := BordersOf(g1, n), BordersOf(g2, n);
      a.left == b.right || a.top == b.bottom || a.right == b.left || a.bottom == b.top
  {
    var b1, b2 := GetBorders(g1, n), GetBorders(g2, n);
    assert (0 + 2) % 4 == 2 && (1 + 2) % 4 == 3 && (2 + 2) % 4 == 0 && (3 + 2) % 4 == 1;
    if Match(g1, g2, n) {
      var k :| 0 <= k < 4 && b1[k] == b2[(k + 2) % 4];
      assert k == 0 || k == 1 || k == 2 || k == 3;
    }
  }

  /** `Match` does not depend on the order of the two tiles. */
  lemma MatchSymmetric(g1: Grid, g2: Grid, n: nat)
    requires Square(g1, n) && Square(g2, n) && n > 0
    ensures Match(g1, g2, n) == Match(g2, g1, n)
  {
    MatchIsOppositeSides(g1, g2, n);
    MatchIsOppositeSides(g2, g1, n);
  }

  // ---------------------------------------------------------------- border searches

  /** Which border of the placed tile a candidate must continue:
      `MatchRightHandSide` or `MatchBottomToTop`. */
  datatype Side = RightOf | Below

  /** How a tile already placed is recognised: as written, with
      `usedTiles.Contains(tile)`, which under `Tile.Equals` asks for the same
      array; or, as evidently intended, by the tile's id. */
  datatype UsedCheck = SameArray | SameId

  predicate IsUsed(check: UsedCheck, used: seq<Oriented>, p: Piece) {
    match check
    case SameArray => exists u :: u in used && u.alloc == p.alloc
    case SameId => exists u :: u in used && u.id == p.id
  }

  /** The permutation continues the placed tile's border on `side`. */
  predicate Fits(b: Borders, side: Side, o: Oriented)
    requires Square(o.data, TileSize)
  {
    var c := BordersOf(o.data, TileSize);
    match side
    case RightOf => b.right == c.left
    case Below => b.bottom == c.top
  }

  /** Permutation `j` of tile `i` is one the search may return: the tile is
      not the placed one (by id), not used, and the permutation fits. */
  predicate Candidate(b: Borders, side: Side, check: UsedCheck, tiles: seq<Piece>, id: int, used: seq<Oriented>, i: int, j: int)
    requires ValidPieces(tiles)
  {
    0 <= i < |tiles| && 0 <= j < |tiles[i].perms|
    && tiles[i].id != id && !IsUsed(check, used, tiles[i])
    && Fits(b, side, tiles[i].perms[j])
  }

  /** The inner loop: the first permutation from `j` on that fits. */
  function SearchPerms(b: Borders, side: Side, perms: seq<Oriented>, j: nat): (r: Option<nat>)
    requires forall m :: 0 <= m < |perms| ==> Square(perms[m].data, TileSize)
    requires j <= |perms|
    ensures r.Some? ==> j <= r.value < |perms| && Fits(b, side, perms[r.value])
    ensures r.Some? ==> forall m :: j <= m < r.value ==> !Fits(b, side, perms[m])
    ensures r.None? ==> forall m :: j <= m < |perms| ==> !Fits(b, side, perms[m])
    decreases |perms| - j
  {
    if j == |perms| then None
    else if Fits(b, side, perms[j]) then Some(j)
    else SearchPerms(b, side, perms, j + 1)
  }

  /** The outer loop from tile `i` on: the position of the first candidate
      in tile-then-permutation order. */
  function SearchTiles(b: Borders, side: Side, check: UsedCheck, tiles: seq<Piece>, id: int, used: seq<Oriented>, i: nat): (r: Option<(nat, nat)>)
    requires ValidPieces(tiles) && i <= |tiles|
    ensures r.Some? ==> i <= r.value.0 && Candidate(b, side, check, tiles, id, used, r.value.0, r.value.1)
    ensures r.Some? ==> forall a, c :: i <= a && (a < r.value.0 || (a == r.value.0 && c < r.value.1)) ==>
      !Candidate(b, side, check, tiles, id, used, a, c)
    ensures r.None? ==> forall a, c :: i <= a ==> !Candidate(b, side, check, tiles, id, used, a, c)
    decreases |tiles| - i
  {
    if i == |tiles| then None
    else if tiles[i].id == id || IsUsed(check, used, tiles[i]) then SearchTiles(b, side, check, tiles, id, used, i + 1)
    else match SearchPerms(b, side, tiles[i].perms, 0)
      case Some(j) => Some((i, j))
      case None => SearchTiles(b, side, check, tiles, id, used, i + 1)
  }

  /** Either search: the first candidate permutation, or `None` (the
      original's `false` with a null tile). */
  function FindNext(b: Borders, side: Side, check: UsedCheck, tiles: seq<Piece>, id: int, used: seq<Oriented>): (r: Option<Oriented>)
    requires ValidPieces(tiles)
    ensures r.Some? <==> exists i, j :: Candidate(b, side, check, tiles, id, used, i, j)
    ensures r.Some? ==> exists i, j :: (Candidate(b, side, check, tiles, id, used, i, j) && r.value == tiles[i].perms[j]
      && forall a, c :: (a < i || (a == i && c < j)) ==> !Candidate(b, side, check, tiles, id, used, a, c))
  {
    match SearchTiles(b, side, check, tiles, id, used, 0)
    case Some((i, j)) => Some(tiles[i].perms[j])
    case None => None
  }

  /** `MatchRightHandSide` as written. */
  function MatchRightHandSide(b: Borders, tiles: seq<Piece>, id: int, used: seq<Oriented>): (r: Option<Oriented>)
    requires ValidPieces(tiles)
    ensures r == FindNext(b, RightOf, SameArray, tiles, id, used)
    ensures r.Some? ==> r.value.id != id && BordersOf(r.value.data, TileSize).left == b.right
  {
    FindNext(b, RightOf, SameArray, tiles, id, used)
  }

  /** `MatchBottomToTop` as written. */
  function MatchBottomToTop(b: Borders, tiles: seq<Piece>, id: int, used: seq<Oriented>): (r: Option<Oriented>)
    requires ValidPieces(tiles)
    ensures r == FindNext(b, Below, SameArray, tiles, id, used)
    ensures r.Some? ==> r.value.id != id && BordersOf(r.value.data, TileSize).top == b.bottom
  {
    FindNext(b, Below, SameArray, tiles, id, used)
  }

  /** Tiles as `ParseInput` builds them, and a used list as the stitching
      fills it, with permutation tiles only. */
  predicate AsStitched(tiles: seq<Piece>, used: seq<Oriented>) {
    (forall i :: 0 <= i < |tiles| ==> tiles[i].alloc.Parsed?)
    && forall u :: u in used ==> u.alloc.Derived?
  }

  /** As written the used list has no effect: a parsed tile never shares an
      array with a permutation tile, so `usedTiles.Contains(tile)` is always
      false and a tile already placed can be returned again. */
  lemma UsedTilesIgnored(b: Borders, side: Side, tiles: seq<Piece>, id: int, used: seq<Oriented>)
    requires ValidPieces(tiles) && AsStitched(tiles, used)
    ensures FindNext(b, side, SameArray, tiles, id, used) == FindNext(b, side, SameArray, tiles, id, [])
  {
    forall i | 0 <= i < |tiles| ensures !IsUsed(SameArray, used, tiles[i]) {
    }
    var r1 := SearchTiles(b, side, SameArray, tiles, id, used, 0);
    var r2 := SearchTiles(b, side, SameArray, tiles, id, [], 0);
    assert forall a, c :: Candidate(b, side, SameArray, tiles, id, used, a, c) == Candidate(b, side, SameArray, tiles, id, [], a, c);
    if r1.Some? && r2.Some? {
      assert r1.value == r2.value;
    }
  }

  /** With the intended check a returned permutation never belongs to a
      tile whose permutation is already placed. */
  lemma CorrectedSkipsUsed(b: Borders, side: Side, tiles: seq<Piece>, id: int, used: seq<Oriented>)
    requires ValidPieces(tiles)
    ensures var r := FindNext(b, side, SameId, tiles, id, used);
      r.Some? ==> r.value.id != id && forall u :: u in used ==> u.id != r.value.id
  {
  }

  // ---------------------------------------------------------------- the picture

  /** `DataWithoutBorders`: the 8x8 inside of a 10x10 tile. */
  function DataWithoutBorders(g: Grid): (r: Grid)
    requires Square(g, TileSize)
    ensures Square(r, TileSize - 2)
    ensures forall i, j :: 0 <= i < TileSize - 2 && 0 <= j < TileSize - 2 ==> r[i][j] == g[i + 1][j + 1]
  {
    seq(TileSize - 2, i requires 0 <= i < TileSize - 2 =>
      seq(TileSize - 2, j requires 0 <= j < TileSize - 2 => g[i + 1][j + 1]))
  }

  /** Cutting the borders off commutes with both flips and with the quarter
      turn, so a tile may be oriented before or after it is trimmed. */
  lemma TrimCommutes(g: Grid)
    requires Square(g, TileSize)
    ensures Square(FlipVertical(g), TileSize) && Square(FlipHorizontal(g), TileSize)
    ensures DataWithoutBorders(FlipVertical(g)) == FlipVertical(DataWithoutBorders(g))
    ensures DataWithoutBorders(FlipHorizontal(g)) == FlipHorizontal(DataWithoutBorders(g))
    ensures DataWithoutBorders(Rotate90(g, TileSize)) == Rotate90(DataWithoutBorders(g), TileSize - 2)
  {
    FlipsAreInvolutions(g, TileSize, TileSize);
    var t := DataWithoutBorders(g);
    var a, b := DataWithoutBorders(FlipHorizontal(g)), FlipHorizontal(t);
    forall i | 0 <= i < TileSize - 2 ensures a[i] == b[i] {
      assert forall j :: 0 <= j < TileSize - 2 ==> a[i][j] == b[i][j];
    }
    var c, d := DataWithoutBorders(Rotate90(g, TileSize)), Rotate90(t, TileSize - 2);
    forall i | 0 <= i < TileSize - 2 ensures c[i] == d[i] {
      assert forall j :: 0 <= j < TileSize - 2 ==> c[i][j] == d[i][j];
    }
  }

  // ---------------------------------------------------------------- sea monsters

  const SeaMonsterSize: nat := 15

  /** The sea monster's cells as `(row, col)` offsets from its anchor. The
      first offset runs along the first index over the monster's length of
      20, the second along the second index over its height of 3. */
  function MonsterCells(): (r: seq<(nat, nat)>)
    ensures |r| == SeaMonsterSize
    ensures forall m :: 0 <= m < |r| ==> r[m].0 < 20 && r[m].1 < 3
  {
    [(18, 0), (0, 1), (5, 1), (6, 1), (11, 1), (12, 1), (17, 1), (18, 1), (19, 1),
     (1, 2), (4, 2), (7, 2), (10, 2), (13, 2), (16, 2)]
  }

  /** Every cell of a monster anchored at `(row, col)` is `'#'`. */
  predicate MonsterAt(pic: Grid, n: nat, row: nat, col: nat)
    requires Square(pic, n) && row + 20 <= n && col + 3 <= n
  {
    forall m :: 0 <= m < |MonsterCells()| ==> pic[row + MonsterCells()[m].0][col + MonsterCells()[m].1] == '#'
  }

  /** The anchors in row `row`, at columns below `cols`, holding a monster. */
  ghost function RowAnchors(pic: Grid, n: nat, row: nat, cols: nat): set<(nat, nat)>
    requires Square(pic, n) && row + 20 <= n && (cols > 0 ==> cols + 2 <= n)
  {
    set col: nat | col < cols && MonsterAt(pic, n, row, col) :: (row, col)
  }

  /** The anchors at rows below `rows` and columns below `cols` holding a
      monster. */
  ghost function Anchors(pic: Grid, n: nat, rows: nat, cols: nat): set<(nat, nat)>
    requires Square(pic, n) && (rows > 0 ==> rows + 19 <= n) && (cols > 0 ==> cols + 2 <= n)
  {
    set row: nat, col: nat | row < rows && col < cols && MonsterAt(pic, n, row, col) :: (row, col)
  }

  /** The inner loop: monsters anchored in row `row` at columns below `cols`. */
  function CountInRow(pic: Grid, n: nat, row: nat, cols: nat): (r: nat)
    requires Square(pic, n) && row + 20 <= n && (cols > 0 ==> cols + 2 <= n)
    ensures r <= cols
    ensures r == |RowAnchors(pic, n, row, cols)|
    ensures r > 0 <==> exists col :: 0 <= col < cols && MonsterAt(pic, n, row, col)
    decreases cols
  {
    if cols == 0 then
      assert RowAnchors(pic, n, row, cols) == {};
      0
    else
      RowAnchorsStep(pic, n, row, cols);
      CountInRow(pic, n, row, cols - 1) + if MonsterAt(pic, n, row, cols - 1) then 1 else 0
  }

  lemma RowAnchorsStep(pic: Grid, n: nat, row: nat, cols: nat)
    requires Square(pic, n) && row + 20 <= n && cols > 0 && cols + 2 <= n
    ensures (row, cols - 1) !in RowAnchors(pic, n, row, cols - 1)
    ensures RowAnchors(pic, n, row, cols)
         == RowAnchors(pic, n, row, cols - 1) + if MonsterAt(pic, n, row, cols - 1) then {(row, cols - 1)} else {}
  {
  }

  lemma DisjointUnion<T>(a: set<T>, b: set<T>)
    requires a * b == {}
    ensures |a + b| == |a| + |b|
  {
  }

  /** Anchors below `rows` are those below `rows - 1` and those of row
      `rows - 1`, which share none. */
  lemma AnchorsStep(pic: Grid, n: nat, rows: nat, cols: nat)
    requires Square(pic, n) && rows > 0 && rows + 19 <= n && (cols > 0 ==> cols + 2 <= n)
    ensures Anchors(pic, n, rows, cols) == Anchors(pic, n, rows - 1, cols) + RowAnchors(pic, n, rows - 1, cols)
    ensures |Anchors(pic, n, rows, cols)| == |Anchors(pic, n, rows - 1, cols)| + |RowAnchors(pic, n, rows - 1, cols)|
  {
    var a, b := Anchors(pic, n, rows - 1, cols), RowAnchors(pic, n, rows - 1, cols);
    assert a * b == {} by {
      forall p | p in b ensures p !in a {
        assert p.0 == rows - 1;
      }
    }
    DisjointUnion(a, b);
  }

  /** Both loops: monsters anchored at rows below `rows` and columns below
      `cols`. */
  function CountAnchors(pic: Grid, n: nat, rows: nat, cols: nat): (r: nat)
    requires Square(pic, n) && (rows > 0 ==> rows + 19 <= n) && (cols > 0 ==> cols + 2 <= n)
    ensures r <= rows * cols
    ensures r == |Anchors(pic, n, rows, cols)|
    ensures r > 0 <==> exists row, col :: 0 <= row < rows && 0 <= col < cols && MonsterAt(pic, n, row, col)
    decreases rows
  {
    if rows == 0 then
      assert Anchors(pic, n, rows, cols) == {};
      0
    else
      var r := CountAnchors(pic, n, rows - 1, cols) + CountInRow(pic, n, rows - 1, cols);
      assert r <= rows * cols by {
        assert (rows - 1) * cols + cols == rows * cols;
      }
      AnchorsStep(pic, n, rows, cols);
      r
  }

  /** The anchors the loops as written try that hold a monster: rows below
      `n - 20` and columns below `n - 3`. */
  ghost function StrictAnchors(pic: Grid, n: nat): set<(nat, nat)>
    requires Square(pic, n)
  {
    set row: nat, col: nat | row + 20 < n && col + 3 < n && MonsterAt(pic, n, row, col) :: (row, col)
  }

  /** Every anchor at which a monster fits inside the picture and is there. */
  ghost function FittingAnchors(pic: Grid, n: nat): set<(nat, nat)>
    requires Square(pic, n)
  {
    set row: nat, col: nat | row + 20 <= n && col + 3 <= n && MonsterAt(pic, n, row, col) :: (row, col)
  }

  /** `CountSeaMonsters` as written: the loops stop one short, at
      `row < n - 20` and `col < n - 3`, so a monster touching the last row or
      column of the picture is not counted. */
  function CountSeaMonsters(pic: Grid, n: nat): (r: nat)
    requires Square(pic, n)
    ensures r == |StrictAnchors(pic, n)|
    ensures r > 0 <==> exists row, col :: 0 <= row && 0 <= col && row + 20 < n && col + 3 < n && MonsterAt(pic, n, row, col)
  {
    var rows, cols := if n >= 20 then n - 20 else 0, if n >= 3 then n - 3 else 0;
    assert StrictAnchors(pic, n) == Anchors(pic, n, rows, cols);
    CountAnchors(pic, n, rows, cols)
  }

  /** `CountSeaMonsters` with the bounds it evidently intends: every anchor at
      which the monster fits inside the picture. */
  function CountSeaMonstersCorrected(pic: Grid, n: nat): (r: nat)
    requires Square(pic, n)
    ensures r == |FittingAnchors(pic, n)|
    ensures r > 0 <==> exists row, col :: 0 <= row && 0 <= col && row + 20 <= n && col + 3 <= n && MonsterAt(pic, n, row, col)
  {
    var rows, cols := if n >= 19 then n - 19 else 0, if n >= 2 then n - 2 else 0;
    assert FittingAnchors(pic, n) == Anchors(pic, n, rows, cols);
    CountAnchors(pic, n, rows, cols)
  }

  /** A picture of `n` by `n` `'#'` cells. */
  function AllHashes(n: nat): (g: Grid)
    ensures Square(g, n)
    ensures forall i, j :: 0 <= i < n && 0 <= j < n ==> g[i][j] == '#'
  {
    seq(n, _ => seq(n, _ => '#'))
  }

  /** A 20 by 20 picture of `'#'` holds a monster at the origin, which the
      count as written misses. */
  lemma LastAnchorMissed()
    ensures CountSeaMonsters(AllHashes(20), 20) == 0
    ensures CountSeaMonstersCorrected(AllHashes(20), 20) > 0
  {
    var pic := AllHashes(20);
    assert MonsterAt(pic, 20, 0, 0);
  }

  /** The corrected count finds everything the count as written finds. */
  lemma CorrectedCountsMore(pic: Grid, n: nat)
    requires Square(pic, n)
    ensures CountSeaMonsters(pic, n) > 0 ==> CountSeaMonstersCorrected(pic, n) > 0
  {
  }

  /** The first of `counts`, from `m` on, that is positive. */
  function FirstPositive(counts: seq<nat>, m: nat): (r: Option<nat>)
    requires m <= |counts|
    ensures r.Some? ==> m <= r.value < |counts| && counts[r.value] > 0
    ensures r.Some? ==> forall k :: m <= k < r.value ==> counts[k] == 0
    ensures r.None? ==> forall k :: m <= k < |counts| ==> counts[k] == 0
    decreases |counts| - m
  {
    if m == |counts| then None
    else if counts[m] > 0 then Some(m)
    else FirstPositive(counts, m + 1)
  }

  /** The monster count as written, or with the corrected bounds. */
  function CountWith(pic: Grid, n: nat, corrected: bool): nat
    requires Square(pic, n)
  {
    if corrected then CountSeaMonstersCorrected(pic, n) else CountSeaMonsters(pic, n)
  }

  /** The count in each orientation, in `Orientations` order. */
  function OrientationCounts(pic: Grid, n: nat, corrected: bool): (counts: seq<nat>)
    requires Square(pic, n)
    ensures |counts| == 16
    ensures forall m :: 0 <= m < 16 ==> counts[m] == CountWith(Orientations(pic, n)[m], n, corrected)
  {
    var os := Orientations(pic, n);
    seq(16, m requires 0 <= m < 16 => CountWith(os[m], n, corrected))
  }

  /** `CountSeaMonstersAllPermutations`: the count in the first orientation,
      in `Orientations` order, that shows any monster; none in all sixteen
      throws. The original counts with `CountSeaMonsters` as written
      (`corrected` false). */
  function CountSeaMonstersAllPermutations(pic: Grid, n: nat, corrected: bool): (r: Result<nat>)
    requires Square(pic, n)
    ensures r.Err? <==> forall m :: 0 <= m < 16 ==> OrientationCounts(pic, n, corrected)[m] == 0
    ensures r.Ok? ==> r.value > 0 && exists m :: (0 <= m < 16 && r.value == OrientationCounts(pic, n, corrected)[m]
      && forall k :: 0 <= k < m ==> OrientationCounts(pic, n, corrected)[k] == 0)
  {
    var counts := OrientationCounts(pic, n, corrected);
    match FirstPositive(counts, 0)
    case None => Err("No sea monsters found")
    case Some(m) => Ok(counts[m])
  }

  /** The positions of the `'#'` cells of a grid. */
  ghost function HashCells(g: Grid): set<(nat, nat)> {
    set i: nat, j: nat | i < |g| && j < |g[i]| && g[i][j] == '#' :: (i, j)
  }

  /** `CountTotalSquares`: the `'#'` cells. */
  function TotalSquares(g: Grid): (r: nat)
    ensures r == |HashCells(g)|
    ensures r == 0 <==> forall i :: 0 <= i < |g| ==> '#' !in g[i]
  {
    if |g| == 0 then
      assert HashCells(g) == {};
      0
    else
      HashCellsStep(g);
      Strings.CountChar(g[0], '#') + TotalSquares(g[1..])
  }

  /** The cells of a set one row further down. */
  ghost function Shift(cells: set<(nat, nat)>): set<(nat, nat)> {
    set p | p in cells :: (p.0 + 1, p.1)
  }

  lemma {:induction false} ShiftCard(cells: set<(nat, nat)>)
    ensures |Shift(cells)| == |cells|
    decreases |cells|
  {
    if cells == {} {
      assert Shift(cells) == {};
    } else {
      var p :| p in cells;
      var rest := cells - {p};
      ShiftCard(rest);
      assert Shift(cells) == Shift(rest) + {(p.0 + 1, p.1)};
      assert (p.0 + 1, p.1) !in Shift(rest);
    }
  }

  /** The `'#'` cells among the first `m` of a row, placed in row `i`. */
  ghost function RowHashes(row: string, i: nat, m: nat): set<(nat, nat)>
    requires m <= |row|
  {
    set j: nat | j < m && row[j] == '#' :: (i, j)
  }

  lemma {:induction false} RowHashesCount(row: string, i: nat, m: nat)
    requires m <= |row|
    ensures |RowHashes(row, i, m)| == multiset(row[..m])['#']
    decreases m
  {
    if m == 0 {
      assert RowHashes(row, i, m) == {};
    } else {
      RowHashesCount(row, i, m - 1);
      assert row[..m] == row[..m - 1] + [row[m - 1]];
      assert (i, m - 1) !in RowHashes(row, i, m - 1);
      assert RowHashes(row, i, m) == RowHashes(row, i, m - 1) + if row[m - 1] == '#' then {(i, m - 1)} else {};
    }
  }

  /** The `'#'` cells of a grid are those of its first row and, one row
      down, those of the rest. */
  lemma HashCellsStep(g: Grid)
    requires |g| > 0
    ensures |HashCells(g)| == Strings.CountChar(g[0], '#') + |HashCells(g[1..])|
  {
    var first, rest := RowHashes(g[0], 0, |g[0]|), Shift(HashCells(g[1..]));
    forall p | p in HashCells(g) ensures p in first + rest {
      if p.0 > 0 {
        assert g[1..][p.0 - 1] == g[p.0];
        assert (p.0 - 1, p.1) in HashCells(g[1..]);
      }
    }
    forall p | p in rest ensures p in HashCells(g) {
      var q :| q in HashCells(g[1..]) && p == (q.0 + 1, q.1);
      assert g[1..][q.0] == g[p.0];
    }
    assert HashCells(g) == first + rest;
    assert first * rest == {} by {
      forall p | p in rest ensures p !in first {
      }
    }
    DisjointUnion(first, rest);
    ShiftCard(HashCells(g[1..]));
    RowHashesCount(g[0], 0, |g[0]|);
    assert g[0][..|g[0]|] == g[0];
    Strings.CountCharMultiplicity(g[0], '#');
  }

  lemma {:induction false} TotalSquaresAppend(a: Grid, b: Grid)
    ensures TotalSquares(a + b) == TotalSquares(a) + TotalSquares(b)
    decreases |a|
  {
    if |a| > 0 {
      assert (a + b)[0] == a[0];
      assert (a + b)[1..] == a[1..] + b;
      TotalSquaresAppend(a[1..], b);
    } else {
      assert a + b == b;
    }
  }

  lemma {:induction false} ReverseMultiset(s: string)
    ensures multiset(Reverse(s)) == multiset(s)
    decreases |s|
  {
    if |s| > 0 {
      var init := s[..|s| - 1];
      ReverseMultiset(init);
      assert Reverse(s) == [s[|s| - 1]] + Reverse(init);
      assert s == init + [s[|s| - 1]];
    }
  }

  lemma TotalSquaresSingle(row: string)
    ensures TotalSquares([row]) == Strings.CountChar(row, '#')
  {
    assert [row][1..] == [];
  }

  /** Flipping the picture upside down keeps the number of `'#'` cells. */
  lemma {:induction false} TotalSquaresFlipVertical(g: Grid)
    ensures TotalSquares(FlipVertical(g)) == TotalSquares(g)
    decreases |g|
  {
    if |g| > 0 {
      var init, last := g[..|g| - 1], g[|g| - 1];
      TotalSquaresFlipVertical(init);
      FlipVerticalLast(g);
      TotalSquaresAppend(init, [last]);
      TotalSquaresAppend([last], FlipVertical(init));
      TotalSquaresSingle(last);
    }
  }

  /** Flipping a grid upside down puts its last row first. */
  lemma FlipVerticalLast(g: Grid)
    requires |g| > 0
    ensures FlipVertical(g) == [g[|g| - 1]] + FlipVertical(g[..|g| - 1])
    ensures g == g[..|g| - 1] + [g[|g| - 1]]
  {
  }

  /** Mirroring every row keeps the number of `'#'` cells. */
  lemma {:induction false} TotalSquaresFlipHorizontal(g: Grid)
    ensures TotalSquares(FlipHorizontal(g)) == TotalSquares(g)
    decreases |g|
  {
    if |g| > 0 {
      FlipHorizontalFirst(g);
      TotalSquaresFlipHorizontal(g[1..]);
      ReverseCount(g[0]);
    }
  }

  /** Mirroring a grid mirrors its first row and the rest separately. */
  lemma FlipHorizontalFirst(g: Grid)
    requires |g| > 0
    ensures FlipHorizontal(g)[0] == Reverse(g[0])
    ensures FlipHorizontal(g)[1..] == FlipHorizontal(g[1..])
  {
  }

  lemma ReverseCount(row: string)
    ensures Strings.CountChar(Reverse(row), '#') == Strings.CountChar(row, '#')
  {
    ReverseMultiset(row);
    Strings.CountCharMultiplicity(row, '#');
    Strings.CountCharMultiplicity(Reverse(row), '#');
  }

  /** Part 2 for an assembled picture, as written: the `'#'` cells minus
      fifteen for each monster found, counting with the strict bounds. */
  function Part2(pic: Grid, n: nat): (r: Result<int>)
    requires Square(pic, n)
    ensures r.Err? <==> forall m :: 0 <= m < 16 ==> CountSeaMonsters(Orientations(pic, n)[m], n) == 0
    ensures r.Ok? ==> r.value == TotalSquares(pic) - SeaMonsterSize * CountSeaMonstersAllPermutations(pic, n, false).value
    ensures r.Ok? ==> r.value < TotalSquares(pic)
    ensures r.Ok? ==> exists m :: (0 <= m < 16 && |StrictAnchors(Orientations(pic, n)[m], n)| > 0
      && (forall k :: 0 <= k < m ==> |StrictAnchors(Orientations(pic, n)[k], n)| == 0)
      && r.value == |HashCells(pic)| - SeaMonsterSize * |StrictAnchors(Orientations(pic, n)[m], n)|)
  {
    var monsters :- CountSeaMonstersAllPermutations(pic, n, false);
    FirstMonsterCount(pic, n, false);
    Ok(TotalSquares(pic) - monsters * SeaMonsterSize)
  }

  /** The monsters one count finds: at the anchors the loops as written try,
      or at every anchor where one fits. */
  ghost function Monsters(pic: Grid, n: nat, corrected: bool): set<(nat, nat)>
    requires Square(pic, n)
  {
    if corrected then FittingAnchors(pic, n) else StrictAnchors(pic, n)
  }

  /** The count of all permutations is the number of monsters in the first
      orientation that shows any. */
  lemma FirstMonsterCount(pic: Grid, n: nat, corrected: bool)
    requires Square(pic, n) && CountSeaMonstersAllPermutations(pic, n, corrected).Ok?
    ensures exists m :: (0 <= m < 16 && |Monsters(Orientations(pic, n)[m], n, corrected)| > 0
      && (forall k :: 0 <= k < m ==> |Monsters(Orientations(pic, n)[k], n, corrected)| == 0)
      && CountSeaMonstersAllPermutations(pic, n, corrected).value == |Monsters(Orientations(pic, n)[m], n, corrected)|)
  {
    var os, counts := Orientations(pic, n), OrientationCounts(pic, n, corrected);
    forall k | 0 <= k < 16
      ensures counts[k] == |Monsters(os[k], n, corrected)|
    {
      CountWithMonsters(os[k], n, corrected);
    }
    var m :| 0 <= m < 16 && CountSeaMonstersAllPermutations(pic, n, corrected).value == counts[m]
      && forall k :: 0 <= k < m ==> counts[k] == 0;
    assert |Monsters(os[m], n, corrected)| > 0;
  }

  lemma CountWithMonsters(g: Grid, n: nat, corrected: bool)
    requires Square(g, n)
    ensures CountWith(g, n, corrected) == |Monsters(g, n, corrected)|
  {
  }

  /** Part 2 with the corrected monster count. */
  function Part2Corrected(pic: Grid, n: nat): (r: Result<int>)
    requires Square(pic, n)
    ensures r.Err? <==> forall m :: 0 <= m < 16 ==> CountSeaMonstersCorrected(Orientations(pic, n)[m], n) == 0
    ensures r.Ok? ==> r.value == TotalSquares(pic) - SeaMonsterSize * CountSeaMonstersAllPermutations(pic, n, true).value
    ensures r.Ok? ==> r.value < TotalSquares(pic)
    ensures r.Ok? ==> exists m :: (0 <= m < 16 && |FittingAnchors(Orientations(pic, n)[m], n)| > 0
      && (forall k :: 0 <= k < m ==> |FittingAnchors(Orientations(pic, n)[k], n)| == 0)
      && r.value == |HashCells(pic)| - SeaMonsterSize * |FittingAnchors(Orientations(pic, n)[m], n)|)
  {
    var monsters :- CountSeaMonstersAllPermutations(pic, n, true);
    FirstMonsterCount(pic, n, true);
    Ok(TotalSquares(pic) - monsters * SeaMonsterSize)
  }

  /** Every cell of a square picture is `'#'`. */
  predicate Uniform(g: Grid, n: nat) {
    Square(g, n) && forall i, j :: 0 <= i < n && 0 <= j < n ==> g[i][j] == '#'
  }

  lemma UniformFlipped(g: Grid, n: nat, dir: nat)
    requires Uniform(g, n) && dir < 4
    ensures Uniform(Flipped(g, dir), n)
  {
    FlippedSquare(g, n, dir);
    if dir == 2 {
      FlipBothCells(g, n);
    } else if dir == 1 {
      forall i, j | 0 <= i < n && 0 <= j < n ensures FlipHorizontal(g)[i][j] == '#' {
        assert FlipHorizontal(g)[i] == Reverse(g[i]);
      }
    }
  }

  /** Whatever the side, a picture of `'#'` holds a monster in every
      orientation's top-left corner once the monster fits. */
  lemma UniformHoldsMonster(g: Grid, n: nat)
    requires Uniform(g, n) && n >= 20
    ensures MonsterAt(g, n, 0, 0)
  {
  }

  /** On a 20 by 20 picture part 2 as written always throws, since the strict
      bounds leave no anchor, while with the corrected count a picture of
      `'#'` has a roughness. */
  lemma Part2MissesEdgeMonster(pic: Grid)
    requires Square(pic, 20)
    ensures Part2(pic, 20).Err?
    ensures Part2Corrected(AllHashes(20), 20).Ok?
  {
    var g := AllHashes(20);
    var o := Orientations(g, 20)[0];
    assert Flip(Turns(g, 20, 1), 0) == Ok(o);
    assert Uniform(Turns(g, 20, 1), 20) by {
      assert Turns(g, 20, 1) == Rotate90(g, 20);
    }
    UniformFlipped(Turns(g, 20, 1), 20, 0);
    UniformHoldsMonster(o, 20);
    assert CountSeaMonstersCorrected(o, 20) > 0;
  }
}
