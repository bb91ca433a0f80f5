/**
 * Cave-shaped board masks (shape_generator.py).
 *
 * A grid of `height` rows and `width` columns is seeded with noise and then
 * smoothed by a cellular automaton: in every pass a cell becomes a wall
 * exactly when at least five of its eight neighbours are walls, where a
 * neighbour off the grid counts as a wall.  The random seeding is an input
 * here (`noise[y][x]` is the outcome of drawing a wall for cell (y, x)).
 */
module ShapeGenerator {

  const WALL: char := '#'
  const OPEN: char := '.'

  /** `g` has `height` rows of `width` cells, each a wall or open mark. */
  ghost predicate WellFormed(g: seq<seq<char>>, height: nat, width: nat) {
    |g| == height &&
    forall y :: 0 <= y < height ==>
      |g[y]| == width && forall x :: 0 <= x < width ==> g[y][x] == WALL || g[y][x] == OPEN
  }

  /** The noise grid: one row per row of draws, a wall wherever the draw said so. */
  function InitialGrid(noise: seq<seq<bool>>): (g: seq<seq<char>>)
    ensures |g| == |noise|
    ensures forall y :: 0 <= y < |g| ==> |g[y]| == |noise[y]|
    ensures forall y, x :: 0 <= y < |g| && 0 <= x < |g[y]| ==> (g[y][x] == WALL <==> noise[y][x])
    ensures forall y, x :: 0 <= y < |g| && 0 <= x < |g[y]| ==> (g[y][x] == OPEN <==> !noise[y][x])
  {
    seq(|noise|, y requires 0 <= y < |noise| =>
      seq(|noise[y]|, x requires 0 <= x < |noise[y]| => if noise[y][x] then WALL else OPEN))
  }

  /** Whether (y, x) counts as a wall: every position off the grid does. */
  function IsWall(g: seq<seq<char>>, height: nat, width: nat, y: int, x: int): (wall: bool)
    requires WellFormed(g, height, width)
  {
    !(0 <= y < height && 0 <= x < width) || g[y][x] == WALL
  }

  /** Walls among (y + dy, x + dx) for dx in -1 .. dxEnd - 1, the cell itself skipped. */
  function RowWalls(g: seq<seq<char>>, height: nat, width: nat, y: int, x: int, dy: int, dxEnd: int): (n: nat)
    requires WellFormed(g, height, width)
    requires -1 <= dxEnd <= 2
    decreases dxEnd + 1
    ensures n <= dxEnd + 1
    ensures dy == 0 && dxEnd >= 1 ==> n <= dxEnd
  {
    if dxEnd == -1 then 0
    else
      var dx := dxEnd - 1;
      RowWalls(g, height, width, y, x, dy, dx) +
      (if (dy == 0 && dx == 0) || !IsWall(g, height, width, y + dy, x + dx) then 0 else 1)
  }

  /** Walls among the rows dy in -1 .. dyEnd - 1 of the 3x3 block around (y, x), the cell itself skipped. */
  function BoxWalls(g: seq<seq<char>>, height: nat, width: nat, y: int, x: int, dyEnd: int): (n: nat)
    requires WellFormed(g, height, width)
    requires -1 <= dyEnd <= 2
    decreases dyEnd + 1
    ensures n <= 3 * (dyEnd + 1)
    ensures dyEnd >= 1 ==> n <= 3 * (dyEnd + 1) - 1
  {
    if dyEnd == -1 then 0
    else BoxWalls(g, height, width, y, x, dyEnd - 1) + RowWalls(g, height, width, y, x, dyEnd - 1, 2)
  }

  /** Number of the eight neighbours of (y, x) that are walls or off the grid. */
  function WallCount(g: seq<seq<char>>, height: nat, width: nat, y: int, x: int): (n: nat)
    requires WellFormed(g, height, width)
    ensures n <= 8
  {
    BoxWalls(g, height, width, y, x, 2)
  }

  /** The eight positions around (y, x). */
  function Ring(y: int, x: int): (ring: set<(int, int)>) {
    {(y - 1, x - 1), (y - 1, x), (y - 1, x + 1),
     (y, x - 1),                 (y, x + 1),
     (y + 1, x - 1), (y + 1, x), (y + 1, x + 1)}
  }

  /** The positions of the ring around (y, x) that count as walls. */
  ghost function WallsAround(g: seq<seq<char>>, height: nat, width: nat, y: int, x: int): (walls: set<(int, int)>)
    requires WellFormed(g, height, width)
  {
    set q | q in Ring(y, x) && IsWall(g, height, width, q.0, q.1)
  }

  /** The walls of the ring around (y, x) in row y + dy and left of column x + dxEnd. */
  ghost function RowWallSet(g: seq<seq<char>>, height: nat, width: nat, y: int, x: int, dy: int, dxEnd: int): (walls: set<(int, int)>)
    requires WellFormed(g, height, width)
  {
    set q | q in WallsAround(g, height, width, y, x) && q.0 == y + dy && q.1 < x + dxEnd
  }

  lemma RowWallSetStep(g: seq<seq<char>>, height: nat, width: nat, y: int, x: int, dy: int, dx: int)
    requires WellFormed(g, height, width)
    requires -1 <= dy <= 1 && -1 <= dx <= 1
    ensures var c := (y + dy, x + dx);
      RowWallSet(g, height, width, y, x, dy, dx + 1) ==
        RowWallSet(g, height, width, y, x, dy, dx) +
        (if (dy == 0 && dx == 0) || !IsWall(g, height, width, y + dy, x + dx) then {} else {c})
  {
    var c := (y + dy, x + dx);
    var W := WallsAround(g, height, width, y, x);
    if (dy == 0 && dx == 0) || !IsWall(g, height, width, y + dy, x + dx) {
      assert c !in W;
    } else {
      assert c in Ring(y, x);
    }
  }

  lemma RowWallSetEmpty(g: seq<seq<char>>, height: nat, width: nat, y: int, x: int, dy: int)
    requires WellFormed(g, height, width)
    ensures RowWallSet(g, height, width, y, x, dy, -1) == {}
  {
    var W := WallsAround(g, height, width, y, x);
    forall q | q in W ensures q.1 >= x - 1 { }
  }

  lemma {:induction false} RowWallsIsCard(g: seq<seq<char>>, height: nat, width: nat, y: int, x: int, dy: int, dxEnd: int)
    requires WellFormed(g, height, width)
    requires -1 <= dy <= 1 && -1 <= dxEnd <= 2
    ensures RowWalls(g, height, width, y, x, dy, dxEnd) == |RowWallSet(g, height, width, y, x, dy, dxEnd)|
  {
    if dxEnd == -1 {
      RowWallSetEmpty(g, height, width, y, x, dy);
    } else {
      var dx := dxEnd - 1;
      RowWallsIsCard(g, height, width, y, x, dy, dx);
      RowWallSetStep(g, height, width, y, x, dy, dx);
      var c := (y + dy, x + dx);
      assert c !in RowWallSet(g, height, width, y, x, dy, dx);
    }
  }

  /** The walls of the ring around (y, x) above row y + dyEnd. */
  ghost function BoxWallSet(g: seq<seq<char>>, height: nat, width: nat, y: int, x: int, dyEnd: int): (walls: set<(int, int)>)
    requires WellFormed(g, height, width)
  {
    set q | q in WallsAround(g, height, width, y, x) && q.0 < y + dyEnd
  }

  lemma BoxWallSetStep(g: seq<seq<char>>, height: nat, width: nat, y: int, x: int, dy: int)
    requires WellFormed(g, height, width)
    ensures BoxWallSet(g, height, width, y, x, dy + 1) ==
            BoxWallSet(g, height, width, y, x, dy) + RowWallSet(g, height, width, y, x, dy, 2)
    ensures BoxWallSet(g, height, width, y, x, dy) * RowWallSet(g, height, width, y, x, dy, 2) == {}
  {
    var W := WallsAround(g, height, width, y, x);
    forall q | q in W ensures q.1 < x + 2 { }
  }

  lemma {:induction false} BoxWallsIsCard(g: seq<seq<char>>, height: nat, width: nat, y: int, x: int, dyEnd: int)
    requires WellFormed(g, height, width)
    requires -1 <= dyEnd <= 2
    ensures BoxWalls(g, height, width, y, x, dyEnd) == |BoxWallSet(g, height, width, y, x, dyEnd)|
  {
    if dyEnd == -1 {
      var W := WallsAround(g, height, width, y, x);
      forall q | q in W ensures q.0 >= y - 1 { }
      assert BoxWallSet(g, height, width, y, x, dyEnd) == {};
    } else {
      var dy := dyEnd - 1;
      BoxWallsIsCard(g, height, width, y, x, dy);
      RowWallsIsCard(g, height, width, y, x, dy, 2);
      BoxWallSetStep(g, height, width, y, x, dy);
    }
  }

  /**
   * The loop's count is the number of the eight surrounding positions that are
   * walls, every position off the grid counting as one.
   */
  lemma WallCountIsWallsAround(g: seq<seq<char>>, height: nat, width: nat, y: int, x: int)
    requires WellFormed(g, height, width)
    ensures WallCount(g, height, width, y, x) == |WallsAround(g, height, width, y, x)|
  {
    BoxWallsIsCard(g, height, width, y, x, 2);
    var W := WallsAround(g, height, width, y, x);
    forall q | q in W ensures q.0 < y + 2 { }
    assert BoxWallSet(g, height, width, y, x, 2) == W;
  }

  /** The automaton's rule for one cell. */
  function NextCell(g: seq<seq<char>>, height: nat, width: nat, y: int, x: int): (cell: char)
    requires WellFormed(g, height, width)
  {
    if WallCount(g, height, width, y, x) >= 5 then WALL else OPEN
  }

  /** One smoothing pass: every cell of the next grid is computed from the previous grid alone. */
  function Step(g: seq<seq<char>>, height: nat, width: nat): (next: seq<seq<char>>)
    requires WellFormed(g, height, width)
    ensures WellFormed(next, height, width)
    ensures forall y, x :: 0 <= y < height && 0 <= x < width ==>
              (next[y][x] == WALL <==> WallCount(g, height, width, y, x) >= 5)
  {
    seq(height, y requires 0 <= y < height =>
      seq(width, x requires 0 <= x < width => NextCell(g, height, width, y, x)))
  }

  /** `passes` smoothing passes applied to `g`. */
  function Smooth(g: seq<seq<char>>, height: nat, width: nat, passes: nat): (r: seq<seq<char>>)
    requires WellFormed(g, height, width)
    ensures WellFormed(r, height, width)
  {
    if passes == 0 then g else Step(Smooth(g, height, width, passes - 1), height, width)
  }

  /** A corner has five neighbours off the grid, so one pass always makes it a wall. */
  lemma CornerOfStepIsWall(g: seq<seq<char>>, height: nat, width: nat, y: nat, x: nat)
    requires WellFormed(g, height, width)
    requires (y == 0 || y == height - 1) && y < height
    requires (x == 0 || x == width - 1) && x < width
    ensures Step(g, height, width)[y][x] == WALL
  {
    WallCountIsWallsAround(g, height, width, y, x);
    var W := WallsAround(g, height, width, y, x);
    var vy := if y == 0 then y - 1 else y + 1;
    var vx := if x == 0 then x - 1 else x + 1;
    var five := Five(y, x, vy, vx);
    FiveCard(y, x, vy, vx);
    FiveOffGrid(height, width, y, x, vy, vx);
    forall q | q in five ensures q in W {
      OffGridIsWall(g, height, width, y, x, q);
    }
    SubsetCard(five, W);
  }

  /** The five cells around (y, x) beyond row `vy` or column `vx`. */
  function Five(y: int, x: int, vy: int, vx: int): (five: set<(int, int)>) {
    {(vy, x - 1), (vy, x), (vy, x + 1), (y, vx), (2 * y - vy, vx)}
  }

  lemma FiveCard(y: int, x: int, vy: int, vx: int)
    requires vy == y - 1 || vy == y + 1
    requires vx == x - 1 || vx == x + 1
    ensures |Five(y, x, vy, vx)| == 5
    ensures Five(y, x, vy, vx) <= Ring(y, x)
  {
  }

  lemma FiveOffGrid(height: nat, width: nat, y: int, x: int, vy: int, vx: int)
    requires vy < 0 || vy >= height
    requires vx < 0 || vx >= width
    ensures forall q :: q in Five(y, x, vy, vx) ==> !(0 <= q.0 < height && 0 <= q.1 < width)
  {
  }

  /** A ring cell off the grid counts as a wall. */
  lemma OffGridIsWall(g: seq<seq<char>>, height: nat, width: nat, y: int, x: int, q: (int, int))
    requires WellFormed(g, height, width)
    requires q in Ring(y, x) && !(0 <= q.0 < height && 0 <= q.1 < width)
    ensures q in WallsAround(g, height, width, y, x)
  {
  }

  lemma SubsetCard<T>(a: set<T>, b: set<T>)
    requires a <= b
    ensures |a| <= |b|
  {
    assert b == a + (b - a);
  }

  /** After at least one pass every corner of the mask is a wall. */
  lemma CornersAreWalls(g: seq<seq<char>>, height: nat, width: nat, passes: nat)
    requires WellFormed(g, height, width)
    requires passes >= 1 && height >= 1 && width >= 1
    ensures var r := Smooth(g, height, width, passes);
      r[0][0] == WALL && r[0][width - 1] == WALL &&
      r[height - 1][0] == WALL && r[height - 1][width - 1] == WALL
  {
    var prev := Smooth(g, height, width, passes - 1);
    CornerOfStepIsWall(prev, height, width, 0, 0);
    CornerOfStepIsWall(prev, height, width, 0, width - 1);
    CornerOfStepIsWall(prev, height, width, height - 1, 0);
    CornerOfStepIsWall(prev, height, width, height - 1, width - 1);
  }

  /** The inner loops of one cell: count walls among the eight neighbours, off-grid ones included. */
  method CountWalls(grid: seq<seq<char>>, height: nat, width: nat, y: int, x: int) returns (walls: nat)
    requires WellFormed(grid, height, width)
    ensures walls == WallCount(grid, height, width, y, x)
  {
    walls := 0;
    for dy := -1 to 2
      invariant walls == BoxWalls(grid, height, width, y, x, dy)
    {
      for dx := -1 to 2
        invariant walls == BoxWalls(grid, height, width, y, x, dy) + RowWalls(grid, height, width, y, x, dy, dx)
      {
        if !(dy == 0 && dx == 0) {
          var ny, nx := y + dy, x + dx;
          if !(0 <= ny < height && 0 <= nx < width) {
            walls := walls + 1;
          } else if grid[ny][nx] == WALL {
            walls := walls + 1;
          }
        }
      }
    }
  }

  /** One smoothing pass: every cell of a copy of `grid` is recomputed from `grid`. */
  method SmoothPass(grid: seq<seq<char>>, height: nat, width: nat) returns (newGrid: seq<seq<char>>)
    requires WellFormed(grid, height, width)
    ensures newGrid == Step(grid, height, width)
  {
    newGrid := grid;
    for y := 0 to height
      invariant WellFormed(newGrid, height, width)
      invariant forall y', x' :: 0 <= y' < y && 0 <= x' < width ==> newGrid[y'][x'] == NextCell(grid, height, width, y', x')
    {
      for x := 0 to width
        invariant WellFormed(newGrid, height, width)
        invariant forall y', x' :: 0 <= y' < y && 0 <= x' < width ==> newGrid[y'][x'] == NextCell(grid, height, width, y', x')
        invariant forall x' :: 0 <= x' < x ==> newGrid[y][x'] == NextCell(grid, height, width, y, x')
      {
        var walls := CountWalls(grid, height, width, y, x);
        newGrid := newGrid[y := newGrid[y][x := if walls >= 5 then WALL else OPEN]];
      }
    }
    assert newGrid == Step(grid, height, width) by {
      forall y' | 0 <= y' < height ensures newGrid[y'] == Step(grid, height, width)[y'] { }
    }
  }

  /**
   * random_shape: seed the grid from the noise, then run `smoothIters` passes,
   * each writing a fresh copy of the grid from the previous one.
   */
  method RandomShape(width: nat, height: nat, noise: seq<seq<bool>>, smoothIters: nat) returns (grid: seq<seq<char>>)
    requires |noise| == height && forall y :: 0 <= y < height ==> |noise[y]| == width
    ensures WellFormed(grid, height, width)
    ensures smoothIters == 0 ==> grid == InitialGrid(noise)
    ensures grid == Smooth(InitialGrid(noise), height, width, smoothIters)
  {
    grid := InitialGrid(noise);
    ghost var seed := grid;
    for i := 0 to smoothIters
      invariant WellFormed(grid, height, width)
      invariant grid == Smooth(seed, height, width, i)
    {
      grid := SmoothPass(grid, height, width);
    }
  }
}
