# Conway's Game of Life — a verified model of the engine in `main.py`

`main.py` is a pygame program. It keeps a grid of cells, `squares`, as a list
of `num_x` columns of `num_y` cells (`squares[x][y]`). It advances the grid by
the B3/S23 rule in `pro`, with neighbour counts from `neighbours`. It clears
the grid (`reset_squares`) or fills it at random (`generate_random`). It can
quick-save the grid into `saved_squares` and restore it, and it exports the
grid to a text file of the form `scale|width|height` followed by one line of
`0`/`1` characters per row. At start-up it checks that the window given on the
command line is a whole number of cells, and exits if not. It then allocates
the grid, or, with `--file`, loads settings and cells from such a file. A mouse button sets or clears the cell under the mouse cursor.

This project models that engine in Dafny:

- `grid.dfy` (`Grids`): the grid as an `array2<bool>` (first dimension x,
  second y), its value `Cells` as a sequence of columns, deep copy, clearing
  and random filling from supplied draws.
- `rules.dfy` (`Rules`): the neighbour count as a specification function over
  the eight offsets in the order the source tests them, an independent
  definition as the set of live Moore neighbours, the rule per cell (`NextCell`),
  the next generation (`Step`), and the imperative `neighbours` and `pro`
  proved against them.
- `text.dfy` (`Text`): the pieces of Python string handling the save format
  uses: `"%d"`, `int()` on a string, `str.split` and `readlines`.
- `geometry.dfy` (`Geometry`): `int(a / b)` (truncation toward zero), the cell
  counts `[0] * n` and `range(n)` give for a negative `n`, the divisibility
  check, and Python list indexing with negative indices.
- `codec.dfy` (`Codec`): the exported text (`Encode`) and the load block
  (`Decode`) with the exceptions it raises on malformed text, the round trip between them,
  and the two loops, `export`'s writer and the load loop, proved against them.
- `game.dfy` (`Session`): the program state as a class `Game` (scale, width,
  height, live grid, quick-save slot). It has one method per action on the grid or
  the quick-save slot, plus start-up with and without a save file.
- `patterns.dfy` (`Patterns`): known configurations evolved by the model, in a
  grid of any size: the blinker oscillates with period 2, the block is a still
  life, and a lonely cell dies.

Where the code behaves differently from what its save format suggests, the
model follows the code:

- Restoring before any save gives the all-dead grid allocated at line 147;
  it does not report an error.
- The load block does not validate its input. The model reports what Python
  would raise, in evaluation order (`Codec.LoadError`):
  - an empty file (`file_lines[0]`);
  - a missing or non-integer header field;
  - a scale of 0 (`width / scale`);
  - a body line shorter than the first body line;
  - a character that is neither a digit nor `'\n'`;
  - a cell position outside the allocated grid.
- Several malformed inputs load without error, where a validating loader
  would reject them:
  - fewer body lines than rows (the missing rows stay dead, see `HeaderOnlyLoads`);
  - lines longer than the first (extra characters are never read);
  - digits `2`–`9` (they read as alive, since `bool(int(c))` is true);
  - a header with more than three fields, or negative numbers.
- The divisibility check at line 111 applies only to the command-line window.
  A loaded file's width and height are never checked. The cell counts are
  `int(width / scale)` and `int(height / scale)`, and a negative count gives
  an empty list.

## Model

| member | source | states |
|---|---|---|
| Grids.DeepCopy | main.py:200 | `copy.deepcopy` of the grid yields fresh storage of the same shape holding the same cells |
| Grids.ResetSquares | main.py:30-33 | after `reset_squares` every cell of the grid is dead; its dimensions cannot change |
| Grids.GenerateRandom | main.py:36-39 | each cell is alive exactly when its draw of `randint(0, spawn_rate)` is 0; with `spawn_rate == 0` every cell is alive |
| Rules.NeighbourCountIsLiveNeighbours | main.py:71-89 | the count over the eight checked offsets equals the number of live in-grid cells of the Moore neighbourhood (no wrap-around, off-grid positions dead), and is at most 8 |
| Rules.LiveAmongIsReached | main.py:71-89 | counting live cells along any list of distinct offsets equals the number of distinct live positions those offsets reach |
| Rules.LiveAmongAtMost | main.py:71-89 | counting along a list of offsets gives at most its length |
| Rules.NeighbourCountUnfolded | main.py:73-88 | the count is the sum of the eight bounds-checked tests, in the source's order |
| Rules.Neighbours | main.py:71-89 | the eight guarded increments of `neighbours` on the array return exactly the specified neighbour count of the grid value |
| Rules.NextCell | main.py:64-67 | the two `if`s of `pro` on one cell: the result is alive exactly when the cell is alive with 2 or 3 neighbours, or dead with exactly 3 |
| Rules.Step | main.py:59-68 | the next generation has the input's shape, and each cell obeys the B3/S23 rule with counts taken on the input |
| Rules.StepAllDead | main.py:64-67 | an all-dead grid steps to an all-dead grid |
| Rules.Pro | main.py:59-68 | copy-then-overwrite yields a fresh array of the same shape whose cells are the next generation of the input; the input array is not modified, so the result does not depend on the visiting order |
| Text.DigitsValueOfNatStr | main.py:52 | the digits `%d` writes for a natural number spell that number |
| Text.ParseIntStr | main.py:125-127 | `int()` of what `"%d"` wrote, followed by whitespace (such as the line's `'\n'`), gives the number back, negative numbers included |
| Text.JoinSplit | main.py:124 | joining the parts of the split on the bar character with that character gives back the original line |
| Text.SplitSeparatorFree | main.py:124 | no part of the split on the bar character contains it |
| Text.ReadLinesConcat | main.py:122 | the lines of `readlines` concatenate back to the whole text |
| Text.ReadLinesAreLines | main.py:122 | every line of `readlines` contains `'\n'` only as its last character, and every line but the last ends in `'\n'` |
| Geometry.TruncDivExact | main.py:133-134 | `int(n * scale / scale)` is `n`, for any nonzero scale |
| Geometry.QuotientIsTruncDiv | main.py:133-134 | `int(a / b) == n` holds exactly when n times the divisor's size is at most the dividend's size, which is less than n + 1 times it, with equal signs when n is positive |
| Geometry.Divisible | main.py:111-112 | the check `width % scale or height % scale` accepts exactly when truncated division of each size by the scale is exact |
| Geometry.PyIndex | main.py:225 | a Python index into a list of length n is accepted exactly when it lies in `[-n, n)`, and reaches position i or i + n |
| Codec.RowTextShape | main.py:53-56 | row y of the export has one character per column plus `'\n'`, character x being `'1'` exactly when cell (x, y) is alive and `'0'` exactly when it is dead |
| Codec.ExportLines | main.py:52-56 | read back line by line, the export is the header followed by exactly `len(squares[0])` row lines |
| Codec.HeaderRoundTrip | main.py:124-127 | splitting the written header on the bar character and applying `int` to its fields gives back scale, width and height |
| Codec.Decode | main.py:120-144 | a successful load has a nonzero scale and cells of `int(width / scale)` by `int(height / scale)`, where a negative quotient gives 0 cells (`[0] * n` and `range(n)` are empty for n < 0) |
| Codec.DecodeBody | main.py:129-144 | after the header, a successful load has a nonzero scale and cells of the derived counts |
| Codec.LoadedLinesDigits | main.py:139-144 | once the load loop raised nothing, every body line reaches the first line's width with only digits and `'\n'` in it, inside the allocated grid or not |
| Codec.LoadedCellsDigits | main.py:139-144 | once the load loop raised nothing, cell (x, y) of the allocated grid is alive exactly when line y exists and has a digit other than `0` at column x within the first line's width, and such an in-grid position holds a digit or `'\n'` |
| Codec.RowRaises | main.py:141-144 | a body line too short for the first line's width, or with a non-digit character other than `'\n'` within it, raises on that line |
| Codec.MalformedBodyFails | main.py:141-144 | such a line anywhere in the body makes the whole load fail |
| Codec.HeaderOnlyLoads | main.py:137-144 | a file with only a header loads with the header's settings and an all-dead grid of the derived shape |
| Codec.ReadRows | main.py:139-144 | the exported rows load without an exception and give back every cell |
| Codec.RoundTrip | main.py:120-144 | loading exported text gives back scale, width, height and every cell whenever `int(width / scale)` and `int(height / scale)` are the grid's own dimensions (stated as `Geometry.QuotientIs`) |
| Codec.RoundTripDivisible | main.py:120-144 | the same when width and height are whole numbers of cells, as the start-up check guarantees |
| Codec.WriteRow | main.py:53-56 | the inner loop of `export` appends exactly the text of row j |
| Codec.ExportText | main.py:42-56 | `export` writes exactly the encoded text, or raises at `len(squares[0])` on a grid without columns |
| Codec.LoadCells | main.py:140-144 | the load loop raises the first fault the specification finds, and otherwise leaves the array holding the loaded cells |
| Session.Game.constructor | main.py:147 | a session over a grid gets a fresh all-dead quick-save slot of the same shape |
| Session.Game.Clear | main.py:186-188 | key c kills every cell and leaves the slot untouched |
| Session.Game.Randomize | main.py:191-192 | key r sets every cell from its draw and leaves the slot untouched |
| Session.Game.Advance | main.py:211-212 | key n, and a running frame, replace the live grid by the next generation and leave the slot and settings untouched |
| Session.Game.Save | main.py:199-200 | key s stores a fresh copy of the live grid in the slot and leaves the live grid untouched |
| Session.Game.Restore | main.py:203-204 | key l replaces the live grid by a fresh copy of the slot, which stays as it was |
| Session.Game.Paint | main.py:222-231 | a click sets the cell at `int(p / scale)` alive (left) or dead (right), and nothing else; an index Python rejects changes nothing |
| Session.Game.Export | main.py:207-208 | key e produces the encoded text of the current game |
| Session.Start | main.py:111-137 | start-up succeeds exactly when the window is a whole number of cells, with all-dead grid and slot of the derived counts |
| Session.Open | main.py:120-147 | start-up from a file yields the decoded settings and cells, or the load fault |
| Session.Load | main.py:129-147 | after the header, the grid is allocated and filled as the decoded body prescribes, or the fault is returned |
| Session.SaveEditRestore | main.py:199-204 | save, edit, restore gives back the saved grid; editing after the restore leaves the slot unchanged |
| Patterns.HorizontalBecomesVertical | main.py:59-68 | in any grid, a lone horizontal line of three live cells centred at (cx, cy) off the border steps to the vertical line of three through (cx, cy) |
| Patterns.VerticalBecomesHorizontal | main.py:59-68 | in any grid, the lone vertical line of three steps to the horizontal line of three |
| Patterns.BlinkerOscillates | main.py:59-68 | in any grid, the lone horizontal line of three changes on one step and is back after two: period 2 |
| Patterns.BlockIsStill | main.py:59-68 | in any grid, a lone 2 by 2 block of live cells is unchanged by a step |
| Patterns.LonelyCellDies | main.py:64-67 | a cell with no live cell around it is dead in the next generation |

## Left out

- Rendering and input polling with pygame: window, gridlines, cell drawing,
  the highlight of the cell under the mouse cursor, the caption (lines 99-103,
  150, 163-166, 233-268). The highlight at line 262 indexes `squares` too,
  which is not modelled.
- Command-line parsing (lines 19-26, 93-97, 106-108, 115-117). The model takes
  scale, width and height as parameters. `--size` runs after the divisibility
  check, so it is never checked.
- Session.Start: requires a nonzero scale, because `args.scale or 20` replaces
  a scale of 0 by 20 before the check.
- File-system calls: `os.remove` and `open` (lines 46-51, 121-122). Export
  produces the text, and loading starts from the file's text.
- Session.Game.Export: when `len(squares[0])` raises, the file already holds
  the header. The model returns no text in that case.
- Text.ReadLines: universal-newline translation of `'\r'` and `"\r\n"` on
  reading is left out; the text is taken with `'\n'` line ends.
- Text.ParseInt: underscores between digits, non-ASCII digits and non-ASCII
  whitespace, which Python's `int` also accepts, are left out. So is the
  limit of 4300 digits (`sys.get_int_max_str_digits`) above which CPython
  3.11 and later raise ValueError: the model reads a number of any length.
- Codec.RowFault and Codec.LoadedCell: a non-ASCII decimal digit in a body
  line (such as `'٣'`), which `int(c)` accepts, is a `NotADigit` fault in the
  model instead of a cell read as alive; only `'0'` to `'9'` are digits here.
- Session.Game.Paint: `int(px / scale)` is computed by Python in floating
  point. The model divides exactly, which differs only for coordinates too
  large for a double to hold exactly.
- Geometry.CellCount: `int(width / scale)` is computed in floating point. The
  model divides exactly, which differs only for sizes beyond 2^53.
- Grids.GenerateRandom: `random.randint` is not modelled. The draws are a
  parameter, and the model only requires them to lie in `[0, spawn_rate]`.
- Speed and frame timing (lines 172-184, 250-252): `speed` becomes a float
  after halving, and `frame % speed` depends on that. The play/pause flag
  and the gridline toggle are display state.
- The event loop itself (which key calls which method, in what order) is
  not modelled; each action is a method of `Session.Game`.
- `sys.exit` on a failed check is the `Failure(NotDivisible)` result of
  `Session.Start`. The load exceptions are `Codec.LoadError` values.
