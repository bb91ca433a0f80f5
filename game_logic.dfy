/**
 * The game-state engine of arbitrary-shaped Minesweeper (game_logic.py).
 *
 * A board mask of '#' (wall) and '.' (open) cells defines the playable cells.
 * Every playable cell holds a mine or a number, and is visible or not,
 * flagged or not.  The engine places the mines, numbers the cells, reveals
 * with an iterative flood fill, toggles flags, reports a win and runs two
 * consumable skills.  The random choices of game_logic.py (which cells get
 * mines, which cell `eliminate` hits) are inputs here.
 */
module GameLogic {

  /** A (row, column) coordinate. */
  type Pos = (int, int)

  /** What a playable cell holds. */
  datatype Cell = Mine | Num(n: int)

  const OPEN: char := '.'
  const ELIMINATE: string := "eliminate"
  const REVIVE: string := "revive"

  /** Uses of each skill at the start of a game. */
  const INITIAL_SKILLS: map<string, int> := map[ELIMINATE := 3, REVIVE := 1]

  function Min(a: int, b: int): (m: int) {
    if a <= b then a else b
  }

  /** The elements of a list, as a set. */
  ghost function Elements<T>(s: seq<T>): (es: set<T>) {
    set x | x in s
  }

  /** No element occurs twice: the list has as many different elements as entries. */
  ghost predicate Distinct<T>(s: seq<T>) {
    |Elements(s)| == |s|
  }

  lemma {:induction false} ElementsBound<T>(s: seq<T>)
    ensures |Elements(s)| <= |s|
  {
    if s != [] {
      ElementsBound(s[1..]);
      assert Elements(s) == {s[0]} + Elements(s[1..]);
    }
  }

  /** Splitting a distinct list at its head. */
  lemma DistinctCons<T>(s: seq<T>)
    requires s != []
    ensures Distinct(s) <==> s[0] !in s[1..] && Distinct(s[1..])
  {
    assert Elements(s) == {s[0]} + Elements(s[1..]);
    ElementsBound(s[1..]);
    if s[0] in s[1..] {
      assert Elements(s) == Elements(s[1..]);
    }
  }

  // ---------------------------------------------------------------------------
  // The playable set and the mask's dimensions
  // ---------------------------------------------------------------------------

  /** Row-major order on coordinates. */
  predicate Before(p: Pos, q: Pos) {
    p.0 < q.0 || (p.0 == q.0 && p.1 < q.1)
  }

  /** Whether `p` is an open cell of `mask`. */
  predicate IsOpen(mask: seq<seq<char>>, p: Pos) {
    0 <= p.0 < |mask| && 0 <= p.1 < |mask[p.0]| && mask[p.0][p.1] == OPEN
  }

  /** Coordinates listed in strictly increasing row-major order. */
  predicate RowMajor(ps: seq<Pos>) {
    |ps| <= 1 || (Before(ps[0], ps[1]) && RowMajor(ps[1..]))
  }

  /** Appending a cell that comes after the last one keeps a list row-major. */
  lemma {:induction false} RowMajorSnoc(ps: seq<Pos>, q: Pos)
    requires RowMajor(ps)
    requires forall p :: p in ps ==> Before(p, q)
    ensures RowMajor(ps + [q])
  {
    if ps != [] {
      assert (ps + [q])[1..] == ps[1..] + [q];
      RowMajorSnoc(ps[1..], q);
    }
  }

  /** In a row-major list every later entry comes after the head. */
  lemma {:induction false} RowMajorHead(ps: seq<Pos>)
    requires RowMajor(ps) && ps != []
    ensures forall q :: q in ps[1..] ==> Before(ps[0], q)
  {
    if |ps| > 1 {
      RowMajorHead(ps[1..]);
      forall q | q in ps[1..] ensures Before(ps[0], q) {
        if q != ps[1] {
          assert q in ps[1..][1..];
        }
      }
    }
  }

  /** A row-major list names no cell twice. */
  lemma {:induction false} RowMajorDistinct(ps: seq<Pos>)
    requires RowMajor(ps)
    ensures Distinct(ps)
  {
    if ps != [] {
      RowMajorHead(ps);
      RowMajorDistinct(ps[1..]);
      DistinctCons(ps);
    }
  }

  /**
   * The playable list of the constructor: every open cell of the mask, in
   * row-major order (the nested comprehension over rows and columns).
   */
  method PlayableCells(mask: seq<seq<char>>) returns (ps: seq<Pos>)
    ensures forall p :: p in ps <==> IsOpen(mask, p)
    ensures RowMajor(ps) && Distinct(ps)
  {
    ps := [];
    for r := 0 to |mask|
      invariant forall p :: p in ps <==> IsOpen(mask, p) && p.0 < r
      invariant RowMajor(ps)
    {
      for c := 0 to |mask[r]|
        invariant forall p :: p in ps <==> IsOpen(mask, p) && Before(p, (r, c))
        invariant RowMajor(ps)
      {
        if mask[r][c] == OPEN {
          RowMajorSnoc(ps, (r, c));
          ps := ps + [(r, c)];
        }
      }
    }
    RowMajorDistinct(ps);
  }

  /**
   * `random.sample(playable, min(mines, len(playable)))` draws `k` distinct
   * cells of `cells` where `k` is the smaller of `count` and `|cells|`.
   */
  lemma SampleSize(cells: seq<Pos>, sample: seq<Pos>, count: nat)
    requires Distinct(cells) && Distinct(sample)
    requires forall p :: p in sample ==> p in cells
    requires |sample| == count || (|sample| < count && forall p :: p in cells ==> p in sample)
    ensures |sample| == Min(count, |cells|)
  {
    var a := Elements(sample);
    var b := Elements(cells);
    assert b == a + (b - a);
    if |sample| != count {
      assert a == b;
    }
  }

  /** The length of the longest row. */
  function MaxRowLength(mask: seq<seq<char>>): (n: nat)
    requires |mask| > 0
    ensures forall i :: 0 <= i < |mask| ==> |mask[i]| <= n
    ensures exists i :: 0 <= i < |mask| && |mask[i]| == n
  {
    if |mask| == 1 then |mask[0]|
    else
      var rest := MaxRowLength(mask[1..]);
      assert forall i :: 1 <= i < |mask| ==> mask[i] == mask[1..][i - 1];
      if |mask[0]| >= rest then |mask[0]| else rest
  }

  // ---------------------------------------------------------------------------
  // Adjacency counts
  // ---------------------------------------------------------------------------

  /** `q` is one of the eight cells around `p`. */
  predicate Adjacent(p: Pos, q: Pos) {
    p != q && -1 <= q.0 - p.0 <= 1 && -1 <= q.1 - p.1 <= 1
  }

  /** The 3x3 block centred on `p`, `p` included. */
  function Block(p: Pos): (block: set<Pos>) {
    {(p.0 - 1, p.1 - 1), (p.0 - 1, p.1), (p.0 - 1, p.1 + 1),
     (p.0, p.1 - 1), (p.0, p.1), (p.0, p.1 + 1),
     (p.0 + 1, p.1 - 1), (p.0 + 1, p.1), (p.0 + 1, p.1 + 1)}
  }

  /** Mines among (p.0 + dr, p.1 + dc) for dc in -1 .. dcEnd - 1. */
  function RowMines(mines: set<Pos>, p: Pos, dr: int, dcEnd: int): (n: nat)
    requires -1 <= dcEnd <= 2
    decreases dcEnd + 1
    ensures n <= dcEnd + 1
    ensures dr == 0 && dcEnd >= 1 && p !in mines ==> n <= dcEnd
  {
    if dcEnd == -1 then 0
    else RowMines(mines, p, dr, dcEnd - 1) + (if (p.0 + dr, p.1 + dcEnd - 1) in mines then 1 else 0)
  }

  /** Mines among the rows dr in -1 .. drEnd - 1 of the block around `p`. */
  function BoxMines(mines: set<Pos>, p: Pos, drEnd: int): (n: nat)
    requires -1 <= drEnd <= 2
    decreases drEnd + 1
    ensures n <= 3 * (drEnd + 1)
    ensures drEnd >= 1 && p !in mines ==> n <= 3 * (drEnd + 1) - 1
  {
    if drEnd == -1 then 0
    else BoxMines(mines, p, drEnd - 1) + RowMines(mines, p, drEnd - 1, 2)
  }

  /** The number a non-mine cell at `p` shows: mines in its 3x3 block. */
  function MineCount(mines: set<Pos>, p: Pos): (n: nat)
    ensures n <= 9
    ensures p !in mines ==> n <= 8
  {
    BoxMines(mines, p, 2)
  }

  /** Mines of the block around `p` in row p.0 + dr, left of column p.1 + dcEnd. */
  ghost function RowMineSet(mines: set<Pos>, p: Pos, dr: int, dcEnd: int): (ms: set<Pos>) {
    set q | q in mines && q in Block(p) && q.0 == p.0 + dr && q.1 < p.1 + dcEnd
  }

  /** Mines of the block around `p` above row p.0 + drEnd. */
  ghost function BoxMineSet(mines: set<Pos>, p: Pos, drEnd: int): (ms: set<Pos>) {
    set q | q in mines && q in Block(p) && q.0 < p.0 + drEnd
  }

  lemma RowMineSetStep(mines: set<Pos>, p: Pos, dr: int, dc: int)
    requires -1 <= dr <= 1 && -1 <= dc <= 1
    ensures var c := (p.0 + dr, p.1 + dc);
      RowMineSet(mines, p, dr, dc + 1) ==
        RowMineSet(mines, p, dr, dc) + (if c in mines then {c} else {})
  {
    var c := (p.0 + dr, p.1 + dc);
    assert c in Block(p);
  }

  /** One more column adds one to the count exactly when its cell is a mine. */
  lemma RowMineSetCardStep(mines: set<Pos>, p: Pos, dr: int, dc: int)
    requires -1 <= dr <= 1 && -1 <= dc <= 1
    ensures |RowMineSet(mines, p, dr, dc + 1)| ==
      |RowMineSet(mines, p, dr, dc)| + (if (p.0 + dr, p.1 + dc) in mines then 1 else 0)
  {
    RowMineSetStep(mines, p, dr, dc);
    assert (p.0 + dr, p.1 + dc) !in RowMineSet(mines, p, dr, dc);
  }

  lemma RowMineSetEmpty(mines: set<Pos>, p: Pos, dr: int)
    ensures RowMineSet(mines, p, dr, -1) == {}
  {
    forall q | q in Block(p) ensures q.1 >= p.1 - 1 { }
  }

  lemma {:induction false} RowMinesIsCard(mines: set<Pos>, p: Pos, dr: int, dcEnd: int)
    requires -1 <= dr <= 1 && -1 <= dcEnd <= 2
    ensures RowMines(mines, p, dr, dcEnd) == |RowMineSet(mines, p, dr, dcEnd)|
  {
    if dcEnd == -1 {
      RowMineSetEmpty(mines, p, dr);
    } else {
      var dc := dcEnd - 1;
      RowMinesIsCard(mines, p, dr, dc);
      RowMineSetCardStep(mines, p, dr, dc);
    }
  }

  lemma BoxMineSetStep(mines: set<Pos>, p: Pos, dr: int)
    ensures BoxMineSet(mines, p, dr + 1) == BoxMineSet(mines, p, dr) + RowMineSet(mines, p, dr, 2)
    ensures BoxMineSet(mines, p, dr) * RowMineSet(mines, p, dr, 2) == {}
  {
    forall q | q in Block(p) ensures q.1 < p.1 + 2 { }
  }

  lemma {:induction false} BoxMinesIsCard(mines: set<Pos>, p: Pos, drEnd: int)
    requires -1 <= drEnd <= 2
    ensures BoxMines(mines, p, drEnd) == |BoxMineSet(mines, p, drEnd)|
  {
    if drEnd == -1 {
      forall q | q in Block(p) ensures q.0 >= p.0 - 1 { }
      assert BoxMineSet(mines, p, drEnd) == {};
    } else {
      var dr := drEnd - 1;
      BoxMinesIsCard(mines, p, dr);
      RowMinesIsCard(mines, p, dr, 2);
      BoxMineSetStep(mines, p, dr);
    }
  }

  /** The loop's count is the number of mines in the 3x3 block around `p`. */
  lemma MineCountIsBlockMines(mines: set<Pos>, p: Pos)
    ensures MineCount(mines, p) == |mines * Block(p)|
  {
    BoxMinesIsCard(mines, p, 2);
    forall q | q in Block(p) ensures q.0 < p.0 + 2 { }
    assert BoxMineSet(mines, p, 2) == mines * Block(p);
  }

  // ---------------------------------------------------------------------------
  // Specification of one flood fill
  // ---------------------------------------------------------------------------

  /** `q` was hidden in `before`, is visible in `after` and holds a zero. */
  ghost predicate NewZero(board: map<Pos, Cell>, before: map<Pos, bool>, after: map<Pos, bool>, q: Pos) {
    q in before && !before[q] && q in after && after[q] && q in board && board[q] == Num(0)
  }

  /** One of the first `k` cells of `order` holds a zero and is next to `p`. */
  ghost predicate ZeroBefore(board: map<Pos, Cell>, order: seq<Pos>, k: int, p: Pos) {
    exists j :: 0 <= j < k && j < |order| && order[j] in board && board[order[j]] == Num(0) && Adjacent(order[j], p)
  }

  /**
   * `order` lists the cells a fill from `start` reveals, in the order it
   * reveals them: exactly the cells hidden in `before` and visible in
   * `after`, `start` first, and every later one unflagged and next to a zero
   * revealed before it.  So a chain of revealed zeros joins every revealed
   * cell to `start`.
   */
  ghost predicate RevealOrder(board: map<Pos, Cell>, flags: map<Pos, bool>,
                              before: map<Pos, bool>, after: map<Pos, bool>, start: Pos, order: seq<Pos>) {
    (forall p :: p in order <==> p in before && !before[p] && p in after && after[p]) &&
    (order != [] ==> order[0] == start) &&
    (forall i :: 0 < i < |order| ==> order[i] in flags && !flags[order[i]] && ZeroBefore(board, order, i, order[i]))
  }

  /**
   * What a fill from `start` does to visibility: nothing is hidden again,
   * `start` is visible, every unflagged cell next to a newly revealed zero is
   * visible, and the newly revealed cells can be listed from `start` so that
   * each later one is unflagged and next to a zero listed before it; that
   * is, they form the region of `start` connected through revealed zeros.
   */
  ghost predicate FillResult(board: map<Pos, Cell>, flags: map<Pos, bool>,
                             before: map<Pos, bool>, after: map<Pos, bool>, start: Pos) {
    after.Keys == before.Keys &&
    (forall p :: p in before && before[p] ==> after[p]) &&
    start in after && after[start] &&
    (forall q, n :: NewZero(board, before, after, q) && Adjacent(q, n) && n in before && n in flags && !flags[n] ==> after[n]) &&
    (exists order :: RevealOrder(board, flags, before, after, start, order))
  }

  /** The unflagged, still hidden cells of `s`, in order: what one pass of the inner loop pushes. */
  ghost function Pushes(visible: map<Pos, bool>, flags: map<Pos, bool>, s: seq<Pos>): (r: seq<Pos>)
    requires forall p :: p in s ==> p in visible && p in flags
    ensures forall p :: p in r <==> p in s && !visible[p] && !flags[p]
  {
    if s == [] then []
    else Pushes(visible, flags, s[..|s| - 1]) +
         (var p := s[|s| - 1]; if !visible[p] && !flags[p] then [p] else [])
  }

  /**
   * The flood fill's loop invariant, stated of the values alone: the maps
   * share their keys, nothing visible in `before` is hidden, `start` is
   * visible or pending, `order` lists the cells revealed so far as the fill
   * result requires, every pending cell other than `start` is unflagged and
   * next to a zero revealed so far, and every unflagged neighbour of a newly
   * revealed zero is visible or pending.
   */
  ghost predicate FillInv(board: map<Pos, Cell>, flags: map<Pos, bool>,
                          before: map<Pos, bool>, after: map<Pos, bool>, stack: seq<Pos>, start: Pos,
                          order: seq<Pos>) {
    after.Keys == before.Keys && board.Keys == before.Keys && flags.Keys == before.Keys &&
    (forall p :: p in before && before[p] ==> after[p]) &&
    (forall p :: p in stack ==> p in before) &&
    start in after && (after[start] || start in stack) &&
    (forall p :: p in stack && p != start ==> !flags[p] && ZeroBefore(board, order, |order|, p)) &&
    RevealOrder(board, flags, before, after, start, order) &&
    (forall q, n :: NewZero(board, before, after, q) && Adjacent(q, n) && n in before && !flags[n] ==>
       after[n] || n in stack)
  }

  lemma FillStarts(board: map<Pos, Cell>, flags: map<Pos, bool>, before: map<Pos, bool>, start: Pos)
    requires board.Keys == before.Keys && flags.Keys == before.Keys && start in before
    ensures FillInv(board, flags, before, before, [start], start, [])
  {
  }

  lemma FillEnds(board: map<Pos, Cell>, flags: map<Pos, bool>, before: map<Pos, bool>, after: map<Pos, bool>,
                 start: Pos, order: seq<Pos>)
    requires FillInv(board, flags, before, after, [], start, order)
    ensures FillResult(board, flags, before, after, start)
  {
    assert RevealOrder(board, flags, before, after, start, order);
  }

  /** A zero listed among the first `k` cells stays listed when the list grows. */
  lemma ZeroBeforeGrows(board: map<Pos, Cell>, order: seq<Pos>, k: int, k': int, q: Pos, p: Pos)
    requires ZeroBefore(board, order, k, p) && k <= k'
    ensures ZeroBefore(board, order + [q], k', p)
  {
    var j :| 0 <= j < k && j < |order| && order[j] in board && board[order[j]] == Num(0) && Adjacent(order[j], p);
    assert (order + [q])[j] == order[j];
  }

  /** Popping a cell that is already visible keeps the invariant. */
  lemma FillPopsVisible(board: map<Pos, Cell>, flags: map<Pos, bool>, before: map<Pos, bool>, after: map<Pos, bool>,
                        rest: seq<Pos>, pos: Pos, start: Pos, order: seq<Pos>)
    requires FillInv(board, flags, before, after, rest + [pos], start, order)
    requires pos in after && after[pos]
    ensures FillInv(board, flags, before, after, rest, start, order)
  {
    assert forall p :: p in rest ==> p in rest + [pos];
    forall q, n | NewZero(board, before, after, q) && Adjacent(q, n) && n in before && !flags[n]
      ensures after[n] || n in rest
    {
      assert after[n] || n in rest + [pos];
    }
  }

  /**
   * The state in which the fill pops the hidden cell `pos` off `rest + [pos]`,
   * and `pushed` is what it then pushes: the pending neighbours if `pos` is a zero.
   */
  ghost predicate Popped(board: map<Pos, Cell>, flags: map<Pos, bool>, before: map<Pos, bool>, after: map<Pos, bool>,
                         rest: seq<Pos>, pos: Pos, start: Pos, order: seq<Pos>, nbrs: seq<Pos>, pushed: seq<Pos>) {
    FillInv(board, flags, before, after, rest + [pos], start, order) &&
    pos in after && !after[pos] &&
    (board[pos] == Num(0) ==>
       (forall q :: q in nbrs <==> q in board && Adjacent(pos, q)) &&
       pushed == Pushes(after[pos := true], flags, nbrs)) &&
    (board[pos] != Num(0) ==> pushed == [])
  }

  /** Revealing the popped cell and pushing its pending neighbours (if it is a zero) keeps the invariant. */
  lemma FillPopsHidden(board: map<Pos, Cell>, flags: map<Pos, bool>, before: map<Pos, bool>, after: map<Pos, bool>,
                       rest: seq<Pos>, pos: Pos, start: Pos, order: seq<Pos>, nbrs: seq<Pos>, pushed: seq<Pos>)
    requires Popped(board, flags, before, after, rest, pos, start, order, nbrs, pushed)
    ensures FillInv(board, flags, before, after[pos := true], rest + pushed, start, order + [pos])
  {
    PoppedStack(board, flags, before, after, rest, pos, start, order, nbrs, pushed);
    PoppedOrder(board, flags, before, after, rest, pos, start, order, nbrs, pushed);
    PoppedZeros(board, flags, before, after, rest, pos, start, order, nbrs, pushed);
  }

  /** After the reveal, every pending cell but `start` is unflagged and next to a revealed zero. */
  lemma PoppedStack(board: map<Pos, Cell>, flags: map<Pos, bool>, before: map<Pos, bool>, after: map<Pos, bool>,
                    rest: seq<Pos>, pos: Pos, start: Pos, order: seq<Pos>, nbrs: seq<Pos>, pushed: seq<Pos>)
    requires Popped(board, flags, before, after, rest, pos, start, order, nbrs, pushed)
    ensures forall p :: p in rest + pushed ==>
              p in before && (p != start ==> !flags[p] && ZeroBefore(board, order + [pos], |order| + 1, p))
  {
    var order' := order + [pos];
    forall p | p in rest + pushed
      ensures p in before && (p != start ==> !flags[p] && ZeroBefore(board, order', |order'|, p))
    {
      if p in rest {
        assert p in rest + [pos];
        if p != start { ZeroBeforeGrows(board, order, |order|, |order'|, pos, p); }
      } else {
        assert p in pushed && board[pos] == Num(0);
        assert order'[|order|] == pos;
      }
    }
  }

  /** After the reveal, the order extended by the popped cell lists the newly visible cells as required. */
  lemma PoppedOrder(board: map<Pos, Cell>, flags: map<Pos, bool>, before: map<Pos, bool>, after: map<Pos, bool>,
                    rest: seq<Pos>, pos: Pos, start: Pos, order: seq<Pos>, nbrs: seq<Pos>, pushed: seq<Pos>)
    requires Popped(board, flags, before, after, rest, pos, start, order, nbrs, pushed)
    ensures RevealOrder(board, flags, before, after[pos := true], start, order + [pos])
  {
    var after' := after[pos := true];
    var order' := order + [pos];
    assert pos in rest + [pos];
    assert pos in before && !before[pos];
    if pos != start {
      assert !flags[pos] && ZeroBefore(board, order, |order|, pos);
    }
    forall i | 0 < i < |order'|
      ensures order'[i] in flags && !flags[order'[i]] && ZeroBefore(board, order', i, order'[i])
    {
      if i < |order| {
        assert order'[i] == order[i];
        ZeroBeforeGrows(board, order, i, i, pos, order[i]);
      } else {
        ZeroBeforeGrows(board, order, |order|, i, pos, pos);
      }
    }
  }

  /** After the reveal, every unflagged neighbour of a newly revealed zero is visible or pending. */
  lemma PoppedZeros(board: map<Pos, Cell>, flags: map<Pos, bool>, before: map<Pos, bool>, after: map<Pos, bool>,
                    rest: seq<Pos>, pos: Pos, start: Pos, order: seq<Pos>, nbrs: seq<Pos>, pushed: seq<Pos>)
    requires Popped(board, flags, before, after, rest, pos, start, order, nbrs, pushed)
    ensures var after' := after[pos := true];
      forall q, n :: NewZero(board, before, after', q) && Adjacent(q, n) && n in before && !flags[n] ==>
        after'[n] || n in rest + pushed
  {
    var after' := after[pos := true];
    var stack := rest + [pos];
    forall q, n | NewZero(board, before, after', q) && Adjacent(q, n) && n in before && !flags[n]
      ensures after'[n] || n in rest + pushed
    {
      if q == pos {
        assert n in nbrs;
        assert after'[n] || n in pushed;
      } else {
        assert NewZero(board, before, after, q);
        assert after[n] || n in stack;
      }
    }
  }

  // ---------------------------------------------------------------------------
  // Cell sets of the per-cell maps
  // ---------------------------------------------------------------------------

  /** The cells of `cs` that are on the board, in order. */
  function OnBoard(board: map<Pos, Cell>, cs: seq<Pos>): (r: seq<Pos>)
    ensures forall q :: q in r <==> q in cs && q in board
  {
    if cs == [] then [] else (if cs[0] in board then [cs[0]] else []) + OnBoard(board, cs[1..])
  }

  /**
   * The cells neighbors(pos) yields: the eight around `pos`, row by row
   * and left to right, that are on the board.
   */
  function Neighbors(board: map<Pos, Cell>, pos: Pos): (nbrs: seq<Pos>)
    ensures forall q :: q in nbrs <==> q in board && Adjacent(pos, q)
  {
    OnBoard(board, [(pos.0 - 1, pos.1 - 1), (pos.0 - 1, pos.1), (pos.0 - 1, pos.1 + 1),
                    (pos.0, pos.1 - 1), (pos.0, pos.1 + 1),
                    (pos.0 + 1, pos.1 - 1), (pos.0 + 1, pos.1), (pos.0 + 1, pos.1 + 1)])
  }

  /** The cells a visibility map shows. */
  ghost function Shown(visible: map<Pos, bool>): (shown: set<Pos>) {
    set p | p in visible && visible[p]
  }

  /** The cells a visibility map hides. */
  ghost function Hidden(visible: map<Pos, bool>): (hidden: set<Pos>) {
    set p | p in visible && !visible[p]
  }

  /** The cells of a board that hold a mine. */
  ghost function Mines(board: map<Pos, Cell>): (ms: set<Pos>) {
    set p | p in board && board[p] == Mine
  }

  /** Showing a hidden cell moves exactly that cell from the hidden to the shown set. */
  lemma ShowCell(visible: map<Pos, bool>, pos: Pos)
    requires pos in visible && !visible[pos]
    ensures pos !in Shown(visible) && Shown(visible[pos := true]) == Shown(visible) + {pos}
    ensures pos in Hidden(visible) && Hidden(visible[pos := true]) == Hidden(visible) - {pos}
    ensures visible[pos := true].Keys == visible.Keys
  {
  }

  /** Writing a number over a cell removes that cell from the mines and nothing else. */
  lemma WriteNumber(board: map<Pos, Cell>, pos: Pos, n: int)
    requires pos in board
    ensures Mines(board[pos := Num(n)]) == Mines(board) - {pos}
  {
  }

  /** A map giving every cell of `cells` the same value (the dict comprehensions of __init__). */
  function Uniform<V>(cells: seq<Pos>, v: V): (m: map<Pos, V>)
    ensures m.Keys == Elements(cells)
    ensures forall p :: p in m ==> m[p] == v
  {
    map p | p in cells :: v
  }

  lemma NoMinesOnEmptyBoard(cells: seq<Pos>)
    ensures Mines(Uniform(cells, Num(0))) == {}
  {
  }

  lemma NothingShown(cells: seq<Pos>)
    ensures Shown(Uniform(cells, false)) == {}
  {
  }

  // ---------------------------------------------------------------------------
  // Counting flagged mines and listing candidates
  // ---------------------------------------------------------------------------

  /** How many cells of `s` hold a mine and carry a flag (the sum in check_win). */
  function CountFlaggedMines(board: map<Pos, Cell>, flags: map<Pos, bool>, s: seq<Pos>): (n: nat)
    requires forall p :: p in s ==> p in board && p in flags
  {
    if s == [] then 0
    else (if board[s[0]] == Mine && flags[s[0]] then 1 else 0) + CountFlaggedMines(board, flags, s[1..])
  }

  lemma {:induction false} CountFlaggedMinesIsCard(board: map<Pos, Cell>, flags: map<Pos, bool>, s: seq<Pos>)
    requires forall p :: p in s ==> p in board && p in flags
    requires Distinct(s)
    ensures CountFlaggedMines(board, flags, s) == |set p | p in s && board[p] == Mine && flags[p]|
  {
    if s != [] {
      DistinctCons(s);
      CountFlaggedMinesIsCard(board, flags, s[1..]);
      var rest := set p | p in s[1..] && board[p] == Mine && flags[p];
      assert s[0] !in rest;
      if board[s[0]] == Mine && flags[s[0]] {
        assert (set p | p in s && board[p] == Mine && flags[p]) == {s[0]} + rest;
      } else {
        assert (set p | p in s && board[p] == Mine && flags[p]) == rest;
      }
    }
  }

  /** The cells of `s` that are neither visible nor flagged, in order. */
  function Unrevealed(visible: map<Pos, bool>, flags: map<Pos, bool>, s: seq<Pos>): (cs: seq<Pos>)
    requires forall p :: p in s ==> p in visible && p in flags
    ensures forall p :: p in cs <==> p in s && !visible[p] && !flags[p]
  {
    if s == [] then []
    else (if !visible[s[0]] && !flags[s[0]] then [s[0]] else []) + Unrevealed(visible, flags, s[1..])
  }

  /** Every non-mine cell shows the number of mines in its 3x3 block. */
  ghost predicate CountsConsistent(board: map<Pos, Cell>) {
    forall p {:trigger MineCount(Mines(board), p)} :: p in board && board[p] != Mine ==> board[p] == Num(MineCount(Mines(board), p))
  }

  // ---------------------------------------------------------------------------
  // The game
  // ---------------------------------------------------------------------------

  class MinesweeperGame {
    const shape: seq<seq<char>>
    const playable: seq<Pos>
    const rows: nat
    const cols: nat
    const mines: nat

    var board: map<Pos, Cell>
    var visible: map<Pos, bool>
    var flags: map<Pos, bool>
    var skills: map<string, int>
    var revealed: int
    var gameOver: bool

    ghost function PlayableSet(): (cells: set<Pos>)
      reads this
    {
      Elements(playable)
    }

    ghost function FlaggedMines(): (flagged: set<Pos>)
      reads this
    {
      set p | p in board && board[p] == Mine && p in flags && flags[p]
    }

    /**
     * The object invariant: the three maps are keyed by the playable cells,
     * there are never more mines than the clamped count (the constructor
     * places exactly that many, and Neutralize, the only later change to a
     * mine, removes one), skill uses never go negative, and `revealed`
     * counts the visible cells.
     */
    ghost predicate Valid()
      reads this
    {
      Distinct(playable) &&
      board.Keys == PlayableSet() && visible.Keys == PlayableSet() && flags.Keys == PlayableSet() &&
      mines <= |playable| && |Mines(board)| <= mines &&
      skills.Keys == {ELIMINATE, REVIVE} && (forall s :: s in skills ==> skills[s] >= 0) &&
      revealed == |Shown(visible)|
    }

    /**
     * A new game on `mask` with `mineCount` mines requested; `sample` stands
     * for the random draw of mine positions without replacement.
     */
    constructor (mask: seq<seq<char>>, mineCount: nat, sample: seq<Pos>)
      requires |mask| > 0
      requires Distinct(sample) && forall p :: p in sample ==> IsOpen(mask, p)
      requires |sample| == mineCount || (|sample| < mineCount && forall p :: IsOpen(mask, p) ==> p in sample)
      ensures Valid()
      ensures shape == mask && RowMajor(playable)
      ensures forall p :: p in playable <==> IsOpen(mask, p)
      ensures rows == |mask| && cols == MaxRowLength(mask)
      ensures mines == Min(mineCount, |playable|)
      ensures Mines(board) == Elements(sample) && |Mines(board)| == mines
      ensures CountsConsistent(board)
      ensures forall p :: p in board ==> !visible[p] && !flags[p]
      ensures skills == INITIAL_SKILLS && revealed == 0 && !gameOver
    {
      var cells := PlayableCells(mask);
      SampleSize(cells, sample, mineCount);
      var numbered := LayOut(cells, sample);
      shape := mask;
      playable := cells;
      rows := |mask|;
      cols := MaxRowLength(mask);
      mines := Min(mineCount, |cells|);
      board := numbered;
      visible := Uniform(cells, false);
      flags := Uniform(cells, false);
      skills := INITIAL_SKILLS;
      revealed := 0;
      gameOver := false;
      NothingShown(cells);
    }

    /** The board of a new game: mines on the sampled cells, every other cell numbered. */
    static method LayOut(cells: seq<Pos>, sample: seq<Pos>) returns (board: map<Pos, Cell>)
      requires forall p :: p in sample ==> p in cells
      ensures board.Keys == Elements(cells)
      ensures Mines(board) == Elements(sample)
      ensures CountsConsistent(board)
    {
      var cleared := Uniform(cells, Num(0));
      NoMinesOnEmptyBoard(cells);
      var mined := PlaceMines(cleared, sample);
      board := ComputeCounts(mined, cells);
    }

    /** Put a mine on every sampled cell of a board that has none yet. */
    static method PlaceMines(board: map<Pos, Cell>, sample: seq<Pos>) returns (mined: map<Pos, Cell>)
      requires Mines(board) == {}
      requires forall p :: p in sample ==> p in board
      ensures mined.Keys == board.Keys
      ensures forall p :: p in mined ==> mined[p] == if p in sample then Mine else board[p]
      ensures Mines(mined) == Elements(sample)
    {
      mined := board;
      for i := 0 to |sample|
        invariant mined.Keys == board.Keys
        invariant forall p :: p in mined ==> mined[p] == if p in sample[..i] then Mine else board[p]
      {
        mined := mined[sample[i] := Mine];
      }
      assert sample[..|sample|] == sample;
      forall p | p in mined && p !in sample ensures mined[p] != Mine {
        assert p !in Mines(board);
      }
    }

    /** The inner loops of _compute_counts for one cell. */
    static method CountAdjacentMines(board: map<Pos, Cell>, pos: Pos) returns (count: nat)
      ensures count == MineCount(Mines(board), pos)
    {
      count := 0;
      for dr := -1 to 2
        invariant count == BoxMines(Mines(board), pos, dr)
      {
        for dc := -1 to 2
          invariant count == BoxMines(Mines(board), pos, dr) + RowMines(Mines(board), pos, dr, dc)
        {
          var nbr := (pos.0 + dr, pos.1 + dc);
          if nbr in board && board[nbr] == Mine {
            count := count + 1;
          }
        }
      }
    }

    /** Number every cell of `cells` that does not hold a mine. */
    static method ComputeCounts(board: map<Pos, Cell>, cells: seq<Pos>) returns (numbered: map<Pos, Cell>)
      requires board.Keys == Elements(cells)
      ensures numbered.Keys == board.Keys
      ensures Mines(numbered) == Mines(board)
      ensures CountsConsistent(numbered)
    {
      numbered := board;
      for i := 0 to |cells|
        invariant numbered.Keys == board.Keys
        invariant Mines(numbered) == Mines(board)
        invariant forall p :: p in numbered && p in cells[..i] && numbered[p] != Mine ==>
                    numbered[p] == Num(MineCount(Mines(board), p))
      {
        var pos := cells[i];
        if numbered[pos] != Mine {
          var count := CountAdjacentMines(numbered, pos);
          WriteNumber(numbered, pos, count);
          numbered := numbered[pos := Num(count)];
        }
      }
      assert forall p :: p in numbered ==> p in cells[..|cells|];
    }

    /** Mark one hidden cell visible and count it. */
    method Uncover(pos: Pos)
      requires Valid() && pos in visible && !visible[pos]
      modifies this`visible, this`revealed
      ensures Valid()
      ensures visible == old(visible)[pos := true]
      ensures pos in old(Hidden(visible)) && Hidden(visible) == old(Hidden(visible)) - {pos}
      ensures |Hidden(visible)| == |old(Hidden(visible))| - 1
    {
      ShowCell(visible, pos);
      visible := visible[pos := true];
      revealed := revealed + 1;
    }

    /** The inner loop of _flood_fill: push every neighbour that is neither visible nor flagged. */
    method PushPending(stack: seq<Pos>, nbrs: seq<Pos>) returns (stack': seq<Pos>)
      requires forall p :: p in nbrs ==> p in visible && p in flags
      ensures stack' == stack + Pushes(visible, flags, nbrs)
    {
      stack' := stack;
      for i := 0 to |nbrs|
        invariant stack' == stack + Pushes(visible, flags, nbrs[..i])
      {
        var nbr := nbrs[i];
        assert nbrs[..i + 1] == nbrs[..i] + [nbr];
        if !visible[nbr] && !flags[nbr] {
          stack' := stack' + [nbr];
        }
      }
      assert nbrs[..|nbrs|] == nbrs;
    }

    /** Reveal from `start` with an explicit stack, cascading through zeros. */
    method FloodFill(start: Pos)
      requires Valid() && start in board
      modifies this`visible, this`revealed
      ensures Valid()
      ensures FillResult(board, flags, old(visible), visible, start)
      ensures revealed == old(revealed) + |Shown(visible) - old(Shown(visible))|
    {
      ghost var before := visible;
      ghost var shown := Shown(visible);
      ghost var order: seq<Pos> := [];
      var stack := [start];
      FillStarts(board, flags, before, start);
      while stack != []
        invariant Valid()
        invariant FillInv(board, flags, before, visible, stack, start, order)
        decreases |Hidden(visible)|, |stack|
      {
        stack, order := FillStep(before, start, stack, order);
      }
      FillEnds(board, flags, before, visible, start, order);
      assert Shown(visible) == shown + (Shown(visible) - shown);
    }

    /**
     * One turn of the flood fill's loop: pop the top of the stack; a visible
     * cell is skipped, a hidden one is revealed.
     */
    method FillStep(ghost before: map<Pos, bool>, start: Pos, stack: seq<Pos>, ghost order: seq<Pos>)
      returns (stack': seq<Pos>, ghost order': seq<Pos>)
      requires Valid() && stack != []
      requires FillInv(board, flags, before, visible, stack, start, order)
      modifies this`visible, this`revealed
      ensures Valid()
      ensures FillInv(board, flags, before, visible, stack', start, order')
      ensures |Hidden(visible)| < old(|Hidden(visible)|) || (visible == old(visible) && |stack'| < |stack|)
    {
      var pos := stack[|stack| - 1];
      var rest := stack[..|stack| - 1];
      assert stack == rest + [pos];
      if visible[pos] {
        FillPopsVisible(board, flags, before, visible, rest, pos, start, order);
        stack', order' := rest, order;
      } else {
        stack', order' := FillReveal(before, start, rest, pos, order);
      }
    }

    /** Reveal the popped hidden cell and, if it is a zero, push its pending neighbours. */
    method FillReveal(ghost before: map<Pos, bool>, start: Pos, rest: seq<Pos>, pos: Pos, ghost order: seq<Pos>)
      returns (stack': seq<Pos>, ghost order': seq<Pos>)
      requires Valid() && pos in visible && !visible[pos]
      requires FillInv(board, flags, before, visible, rest + [pos], start, order)
      modifies this`visible, this`revealed
      ensures Valid()
      ensures FillInv(board, flags, before, visible, stack', start, order')
      ensures |Hidden(visible)| < old(|Hidden(visible)|)
    {
      ghost var prev := visible;
      Uncover(pos);
      stack' := rest;
      var nbrs: seq<Pos> := [];
      if board[pos] == Num(0) {
        nbrs := Neighbors(board, pos);
        stack' := PushPending(stack', nbrs);
      }
      FillPopsHidden(board, flags, before, prev, rest, pos, start, order, nbrs,
                     if board[pos] == Num(0) then Pushes(visible, flags, nbrs) else []);
      order' := order + [pos];
    }

    /**
     * reveal(r, c): nothing happens once the game is over (whatever the
     * coordinate) or on a flagged or visible cell; a mine ends the game
     * unless a revive is left, which is spent to turn the cell into a zero
     * and fill from it; any other cell is filled from.
     */
    method Reveal(r: int, c: int)
      requires Valid() && (gameOver || (r, c) in board)
      modifies this`board, this`visible, this`skills, this`revealed, this`gameOver
      ensures Valid()
      ensures old(gameOver || flags[(r, c)] || visible[(r, c)]) ==> unchanged(this)
      ensures !old(gameOver || flags[(r, c)] || visible[(r, c)]) && old(board[(r, c)]) == Mine &&
              old(REVIVE in skills && skills[REVIVE] > 0) ==>
                !gameOver &&
                skills == old(skills)[REVIVE := old(skills[REVIVE]) - 1] &&
                board == old(board)[(r, c) := Num(0)] &&
                FillResult(board, flags, old(visible), visible, (r, c))
      ensures !old(gameOver || flags[(r, c)] || visible[(r, c)]) && old(board[(r, c)]) == Mine &&
              !old(REVIVE in skills && skills[REVIVE] > 0) ==>
                gameOver && board == old(board) && visible == old(visible) &&
                revealed == old(revealed) && skills == old(skills)
      ensures !old(gameOver || flags[(r, c)] || visible[(r, c)]) && old(board[(r, c)]) != Mine ==>
                !gameOver && board == old(board) && skills == old(skills) &&
                FillResult(board, flags, old(visible), visible, (r, c))
    {
      var pos := (r, c);
      if gameOver || flags[pos] || visible[pos] {
        return;
      }
      if board[pos] == Mine {
        if REVIVE in skills && skills[REVIVE] > 0 {
          skills := skills[REVIVE := skills[REVIVE] - 1];
          Neutralize(pos);
          FloodFill(pos);
        } else {
          gameOver := true;
        }
        return;
      }
      FloodFill(pos);
    }

    /** Turn the mine at `pos` into a zero; the numbers around it are left as they were. */
    method Neutralize(pos: Pos)
      requires Valid() && pos in board && board[pos] == Mine
      modifies this`board
      ensures Valid()
      ensures board == old(board)[pos := Num(0)]
      ensures Mines(board) == old(Mines(board)) - {pos}
    {
      WriteNumber(board, pos, 0);
      board := board[pos := Num(0)];
    }

    /** toggle_flag(r, c): flip the flag unless the game is over or the cell is visible. */
    method ToggleFlag(r: int, c: int)
      requires Valid() && (gameOver || (r, c) in board)
      modifies this`flags
      ensures Valid()
      ensures flags == if old(gameOver || visible[(r, c)]) then old(flags)
                       else old(flags)[(r, c) := !old(flags[(r, c)])]
    {
      var pos := (r, c);
      if gameOver || visible[pos] {
        return;
      }
      flags := flags[pos := !flags[pos]];
    }

    /** Toggling the same cell twice leaves every flag as it was. */
    method ToggleTwiceRestores(r: int, c: int)
      requires Valid() && (gameOver || (r, c) in board)
      modifies this`flags
      ensures Valid()
      ensures flags == old(flags)
    {
      ToggleFlag(r, c);
      ToggleFlag(r, c);
    }

    /** check_win(): every safe cell is revealed, or the flagged mines number exactly `mines`. */
    function CheckWin(): (won: bool)
      reads this
      requires Valid()
      ensures won <==> revealed == |playable| - mines || |FlaggedMines()| == mines
    {
      if revealed == |playable| - mines then true
      else
        CountFlaggedMinesIsCard(board, flags, playable);
        assert (set p | p in playable && board[p] == Mine && flags[p]) == FlaggedMines();
        CountFlaggedMines(board, flags, playable) == mines
    }

    /** The cells `eliminate` may hit: neither visible nor flagged, in playable order. */
    function Candidates(): (cs: seq<Pos>)
      reads this
      requires Valid()
      ensures forall p :: p in cs <==> p in board && !visible[p] && !flags[p]
    {
      Unrevealed(visible, flags, playable)
    }

    /**
     * use_skill(name): refuse an unknown or spent skill; otherwise spend one
     * use.  `eliminate` then hits the candidate chosen by `pick` (false if
     * there is none), turning a mine there into a zero and filling from it.
     */
    method UseSkill(name: string, pick: nat) returns (ok: bool)
      requires Valid()
      modifies this`board, this`visible, this`skills, this`revealed
      ensures Valid()
      ensures old(name !in skills || skills[name] <= 0) ==> !ok && unchanged(this)
      ensures old(name in skills && skills[name] > 0) ==>
                skills == old(skills)[name := old(skills[name]) - 1]
      ensures old(name in skills && skills[name] > 0) && name != ELIMINATE ==>
                ok && board == old(board) && visible == old(visible) && revealed == old(revealed)
      ensures old(name in skills && skills[name] > 0) && name == ELIMINATE && old(Candidates()) == [] ==>
                !ok && board == old(board) && visible == old(visible) && revealed == old(revealed)
      ensures old(name in skills && skills[name] > 0) && name == ELIMINATE && old(Candidates()) != [] ==>
                var cs := old(Candidates());
                var pos := cs[pick % |cs|];
                ok && pos in old(visible) && !old(visible)[pos] && !old(flags)[pos] &&
                board == (if old(board)[pos] == Mine then old(board)[pos := Num(0)] else old(board)) &&
                FillResult(board, flags, old(visible), visible, pos)
    {
      if name !in skills || skills[name] <= 0 {
        return false;
      }
      skills := skills[name := skills[name] - 1];
      if name == ELIMINATE {
        var candidates := Candidates();
        if candidates == [] {
          return false;
        }
        var pos := candidates[pick % |candidates|];
        if board[pos] == Mine {
          Neutralize(pos);
        }
        FloodFill(pos);
        return true;
      }
      return true;
    }
  }

  // ---------------------------------------------------------------------------
  // Facts about whole games
  // ---------------------------------------------------------------------------

  /** With no mines the flag condition holds at once, so the game counts as won. */
  lemma ZeroMinesWin(g: MinesweeperGame)
    requires g.Valid() && g.mines == 0
    ensures g.CheckWin()
  {
    assert g.FlaggedMines() <= Mines(g.board);
    assert Mines(g.board) == {};
  }

  /** Wherever the numbers are consistent, a number counts the mines of its block and lies in 0..8. */
  lemma FreshCountsInRange(g: MinesweeperGame, p: Pos)
    requires g.Valid() && CountsConsistent(g.board) && p in g.board && g.board[p] != Mine
    ensures 0 <= g.board[p].n <= 8
    ensures g.board[p].n == |Mines(g.board) * Block(p)|
  {
    MineCountIsBlockMines(Mines(g.board), p);
  }
}
