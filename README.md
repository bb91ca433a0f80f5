# Arbitrary-shaped Minesweeper: the game engine and the cave generator

This project models the two algorithmic parts of a Minesweeper game whose
board is not a rectangle but any shape drawn by a mask of `'#'` (wall) and
`'.'` (playable) characters.

* `GameLogic` (game_logic.dfy) models the class `MinesweeperGame`.
  A game is a Dafny `class` whose fields mirror the Python object:
  * the `board`, `visible`, `flags` and `skills` dictionaries are `map` fields;
  * `revealed` and `gameOver` are scalar fields;
  * the mask, the playable list, the dimensions and the clamped mine count never change after construction, so they are `const`.

  The methods are:
  * the constructor, which places the mines and numbers the cells;
  * `Reveal`, with its revive path and the iterative stack-based flood fill `FloodFill`;
  * `ToggleFlag`;
  * `CheckWin`;
  * `UseSkill`, with the `eliminate` skill.

  The object invariant `Valid()` says:
  * the three cell maps are keyed by exactly the playable cells;
  * there are never more mines than the clamped count;
  * skill counts never go negative;
  * `revealed` is the number of visible cells.
* `ShapeGenerator` (shape_generator.dfy) models `random_shape`. A grid is seeded with noise and smoothed by a cellular automaton. In each pass a cell becomes a wall exactly when at least five of its eight neighbours are walls, and every neighbour off the grid counts as a wall. Each pass reads only the previous grid and writes a fresh copy.

Randomness is an input:
* the mine positions drawn by `random.sample` are a parameter `sample`, a distinct list of playable cells of the clamped size;
* the cell drawn by `random.choice` is `candidates[pick % |candidates|]` for a parameter `pick`, which reaches every candidate;
* the wall/open draws of the noise grid are a grid of booleans `noise`.

The configured constants are written in directly: `eliminate` has 3 uses and `revive` has 1. The `MINE` marker is the `Mine` constructor of the `Cell` datatype.

The loops of the source are loops here:
* the mine placement;
* the 3x3 counting loops;
* the flood fill's `while stack` loop;
* its inner push loop;
* the per-cell wall count;
* the smoothing passes.

Each loop is proved against a specification function, and the properties that matter are proved about those functions:
* **Counts.** A cell's count is the number of mines in its 3x3 block (`MineCountIsBlockMines`). The wall count is the number of walls among the eight surrounding positions (`WallCountIsWallsAround`).
* **Flood fill.** `FillResult` states what a fill does to visibility. A fill from `start` reveals exactly the region joined to `start` through revealed zeros. The revealed cells can be listed in reveal order from `start`, and each later cell is unflagged and next to a zero listed before it. The region is closed: every unflagged neighbour of a revealed zero is revealed.
* **Mines are only removed.** The constructor places exactly the clamped number of mines. After that, the ensures of `Neutralize`, `Reveal` and `UseSkill` say that a mine is only ever turned into 0, never added.
* **Corners.** Every corner is a wall after one smoothing pass.

## Model

| member | source | states |
|---|---|---|
| GameLogic.PlayableCells | game_logic.py:14-16 | the playable list holds exactly the open cells of the mask, in row-major order, each once |
| GameLogic.MaxRowLength | game_logic.py:18 | `cols` is at least every row's length and equals the length of some row |
| GameLogic.SampleSize | game_logic.py:19 | a distinct draw of playable cells, of the requested size or exhausting the playable cells, has `min(mines, len(playable))` cells |
| GameLogic.Uniform | game_logic.py:22-24 | the dictionary comprehensions give every playable cell, and nothing else, the same initial value |
| GameLogic.MinesweeperGame.constructor | game_logic.py:10-34 | a new game satisfies the invariant; the playable cells are the open cells of the mask; `rows`, `cols` and the clamped `mines` are as computed; the mine cells are exactly the sampled cells and there are `mines` of them; every other cell shows its block's mine count; nothing is visible or flagged; the skills hold their initial uses, `revealed` is 0 and the game is not over |
| GameLogic.MinesweeperGame.LayOut | game_logic.py:29-31 | after placing mines and computing counts, the board is keyed by the playable cells, its mines are exactly the sample, and every non-mine cell shows its block's mine count |
| GameLogic.MinesweeperGame.PlaceMines | game_logic.py:36-39 | every sampled cell holds a mine, every other cell keeps its value, and the mine cells are exactly the sampled cells |
| GameLogic.MinesweeperGame.CountAdjacentMines | game_logic.py:46-51 | the nested loops count the mines of the 3x3 block around the cell |
| GameLogic.MineCountIsBlockMines | game_logic.py:46-51 | that count equals the size of the set of mines in the block |
| GameLogic.MinesweeperGame.ComputeCounts | game_logic.py:41-52 | mines stay where they are, and every non-mine cell is set to its block's mine count |
| GameLogic.FreshCountsInRange | game_logic.py:41-52 | where counts are consistent, a number is the number of mines around the cell and lies in 0..8 |
| GameLogic.Neighbors | game_logic.py:54-61 | the neighbours yielded are exactly the on-board cells among the eight around `pos`, excluding `pos` |
| GameLogic.MinesweeperGame.Uncover | game_logic.py:88-89 | the hidden cell becomes visible, `revealed` grows by one, and the hidden set loses exactly that cell |
| GameLogic.MinesweeperGame.PushPending | game_logic.py:91-93 | the stack grows by the neighbours that are neither visible nor flagged, in the order they are yielded |
| GameLogic.FillPopsVisible | game_logic.py:85-87 | popping a cell that is already visible keeps the fill invariant |
| GameLogic.FillPopsHidden | game_logic.py:88-93 | revealing the popped cell, appending it to the reveal order, and pushing its pending neighbours when it holds 0 keeps the fill invariant |
| GameLogic.MinesweeperGame.FillStep | game_logic.py:84-93 | one turn of the loop keeps the invariant, and it either hides one cell fewer or leaves visibility alone and shortens the stack (so the fill terminates) |
| GameLogic.MinesweeperGame.FillReveal | game_logic.py:88-93 | revealing a popped hidden cell keeps the invariant and strictly shrinks the hidden set |
| GameLogic.MinesweeperGame.FloodFill | game_logic.py:81-93 | the fill terminates; no visible cell is hidden again; `start` ends visible; every unflagged neighbour of a newly revealed 0 is visible; the newly visible cells can be listed from `start` so that each later one is unflagged and next to a 0 listed before it, so every one is joined to `start` through revealed zeros; `revealed` grows by exactly the number of newly visible cells |
| GameLogic.MinesweeperGame.Reveal | game_logic.py:63-79 | on a finished game (at any coordinate), a flagged cell or a visible cell nothing changes. A mine with a revive left spends exactly one revive, sets the cell to 0 (leaving the counts around it stale), fills from it, and does not end the game. A mine without a revive ends the game and changes nothing else. Any other cell is filled from. Every fill here carries FloodFill's full result, the revealed region joined to the cell through revealed zeros included. The invariant, including `revealed` = number of visible cells, is kept |
| GameLogic.MinesweeperGame.Neutralize | game_logic.py:74 | the mine becomes a 0 and is the only mine removed; no count is recomputed |
| GameLogic.MinesweeperGame.ToggleFlag | game_logic.py:95-100 | the flag flips only when the game is not over and the cell is not visible; otherwise no flag changes, and on a finished game any coordinate is accepted |
| GameLogic.MinesweeperGame.ToggleTwiceRestores | game_logic.py:95-100 | toggling the same cell twice leaves every flag as it was |
| GameLogic.CountFlaggedMinesIsCard | game_logic.py:108-109 | the sum over the playable list counts the set of flagged mine cells |
| GameLogic.MinesweeperGame.CheckWin | game_logic.py:102-110 | the result is true exactly when `revealed == len(playable) - mines` or the number of flagged mines equals `mines`; it changes nothing |
| GameLogic.ZeroMinesWin | game_logic.py:105-110 | a game with no mines always counts as won |
| GameLogic.MinesweeperGame.Candidates | game_logic.py:119 | the candidates are exactly the playable cells that are neither visible nor flagged |
| GameLogic.MinesweeperGame.UseSkill | game_logic.py:112-127 | an unknown or spent skill returns false and changes nothing. Otherwise that skill's count drops by exactly one. Any skill other than `eliminate` then returns true and touches nothing else. `eliminate` with no candidate returns false and keeps the use spent. Otherwise it picks a candidate, turns a mine there into 0, fills from that cell with FloodFill's full result, and returns true. The invariant is kept |
| ShapeGenerator.InitialGrid | shape_generator.py:17-18 | the seeded grid has the noise grid's shape and is a wall exactly where the draw said wall, and open elsewhere |
| ShapeGenerator.CountWalls | shape_generator.py:25-35 | the nested loops count the walls among the eight neighbours, skipping the cell itself and counting off-grid positions as walls |
| ShapeGenerator.WallCountIsWallsAround | shape_generator.py:25-35 | that count is the size of the set of surrounding positions that are walls or off the grid, so it lies in 0..8 |
| ShapeGenerator.Step | shape_generator.py:36-37 | one pass keeps the grid's shape, and a cell of the new grid is a wall if and only if at least five of its old neighbours are walls |
| ShapeGenerator.SmoothPass | shape_generator.py:22-37 | one pass over a copy of the grid, reading only the previous grid, produces exactly that step |
| ShapeGenerator.RandomShape | shape_generator.py:3-39 | the result has `height` rows of `width` cells, each `'#'` or `'.'`; it is the noise grid when there are no passes, and otherwise the noise grid smoothed `smooth_iters` times |
| ShapeGenerator.CornerOfStepIsWall | shape_generator.py:29-37 | a corner has five neighbours off the grid, so one pass makes it a wall |
| ShapeGenerator.CornersAreWalls | shape_generator.py:21-38 | after at least one pass all four corners of the grid are walls |

## Left out

- gui.py, main.py and ui.py are not part of this model: they are the tkinter window, the input loop and the terminal rendering. They are user interface and I/O.
- configure.py is not part of this model as a file. Its `MINE` marker and `SKILLS` uses (eliminate 3, revive 1) are written into the model.
- The random number generator is not modelled. `random.sample`, `random.choice` and `random.random() < fill_prob` become the inputs `sample`, `pick` and `noise`, so the floating-point `fill_prob` does not appear. The defaults `fill_prob=0.45` and `smooth_iters=3` are not modelled: `smoothIters` is an ordinary parameter.
- While the game is running, a coordinate outside the playable set makes `reveal` and `toggle_flag` raise `KeyError`. Once the game is over, the `game_over` test returns first and any coordinate is accepted. The model accepts any coordinate on a finished game. While the game runs, it requires the coordinate to be a playable cell, which the callers check first, so the `KeyError` path is not modelled.
- An empty mask makes `max()` raise `ValueError`, and a negative mine count makes `random.sample` raise `ValueError`. The constructor requires a non-empty mask and takes the mine count as a natural number. Negative grid dimensions become natural numbers too.
- GameLogic.MinesweeperGame.PlaceMines, GameLogic.MinesweeperGame.ComputeCounts and GameLogic.MinesweeperGame.CountAdjacentMines take the board and return the updated board instead of writing `self.board`. The constructor assigns the result. These steps only run inside the constructor, before any other method can see the object, so the model does not capture the in-place update of the field during construction.
- `neighbors` is a generator. Neighbors returns the sequence it yields, in the same order.
- The stale numbers left around a mine that `revive` or `eliminate` turns into 0 are modelled as written: no count is recomputed, so a later fill from such a cell can reveal a mine without ending the game.
- `use_skill` does not check whether the game is over, and neither does UseSkill.
- The `rows` and `cols` fields are computed and stored, but nothing in the core reads them.
