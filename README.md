# 2048 grid engine

A Dafny model of the grid engine behind the 2048 game: the `Board` class
with its tiles, walls, directional shifts, merges, spawned tiles, single
level undo, slide animation timer and text save format (2048/Board.cpp,
2048/Board.h), plus the helpers it is built on, the growable `Vector<T>` and
`minVal`/`maxVal`/`clamped`/`clamp`/`swap` (2048/Utility.h) and the integer
vector `Vec2` (2048/Vec2.h).

Modules, one per concern of the source:

- `Utility` (utility.dfy): the `Direction` enum and the min/max/clamp/swap
  helpers.
- `Vec2Math` (vec2.dfy): `Vec2i` as a datatype with C++ truncating division.
- `Vectors` (vector.dfy): `Vector<T>` as a class over an `array` whose
  length is the reserved capacity.
- `Tiles` (tile.dfy): `Board::Tile` as a value (raw value, wall flag, merge
  flag) with `getValue`, `setValue`, `setAsWall`, `confirmMerge`,
  `canMergeWith` and `mergeWith`.
- `Grids` (grid.dfy): rectangular grids as sequences of rows, the engine's
  bounds test and value sums.
- `Shift` (shift.dfy): `findIdxAfterShift`, `collapseTilesTo` and the line
  loop of `shiftTo` as recursive functions, with what a shift preserves.
- `Persistence` (persistence.dfy): the save format as `Serialize` and a
  reader `Parse`, with the save/load round trip.
- `Loading` (loading.dfy): the `fscanf_s` loop of `loadFrom` exactly as
  written, on an in-memory text, with what it makes of a saved board.
- `Boards` (board.dfy): the `Board` class. Its fields are `data`,
  `prevData`, `animationData`, `animate`, `animationTime` and `size`; each
  method changes them in place and is proved to leave exactly the state the
  functions of `Shift`, `Persistence` and `Boards` describe.

Inputs from outside the engine are parameters. `rand()` in `addNewTile` is
`choice`; the free cell taken is `choice % freeCount`. A file to load is an
`Option<string>`, with `None` when it cannot be opened. Saving returns the
text it would write, and `canOpen` says whether the file opened.

The value sum of a board is never changed by a shift
(`Shift.ShiftConservesSum`). `mergeWith` adds the source's value into the
target and empties the source, so value only moves. The points a shift
returns are the values of the tiles formed by merging in it
(`Shift.ShiftScoresMerges`); they are not added to the board's sum.

## Model

| member | source | states |
|---|---|---|
| Utility.MaxVal | 2048/Utility.h:26-30 | the result is one of the two arguments and is at least both |
| Utility.MinVal | 2048/Utility.h:32-36 | the result is one of the two arguments and is at most both |
| Utility.Clamped | 2048/Utility.h:38-42 | for lo <= hi the result lies in [lo, hi] and is v when v already does, lo below and hi above; for lo > hi the upper bound wins |
| Utility.Clamp | 2048/Utility.h:44-48 | the referenced value becomes `clamped(value, lo, hi)` and lies in [lo, hi] when lo <= hi |
| Utility.Swap | 2048/Utility.h:50-56 | the two referenced values are exchanged |
| Vec2Math.TruncDivIsCppDivision | 2048/Vec2.h:122-128 | the quotient used by `/` leaves a remainder smaller than the divisor in magnitude with the sign of the dividend, as C++ integer division does |
| Vec2Math.TruncDiv | 2048/Vec2.h:122-128 | for a non-negative dividend and a positive divisor the quotient is the ordinary one; the general law is `TruncDivIsCppDivision` |
| Vec2Math.Vec2.Clamp | 2048/Vec2.h:51-57 | each component becomes `clamped(v, lo, hi)` on its own axis: kept when inside, the lower bound below, the upper bound above, and the upper bound on an axis where lo exceeds hi; the result lies in the box whenever the box is not empty |
| Vec2Math.Vec2.Clamped | 2048/Vec2.h:72-76 | clamps a copy: the result is what `clamp` would leave in the receiver |
| Vec2Math.ClampedIsIdentityIffInside | 2048/Vec2.h:72-76 | for a non-empty box, `p.clamped(lo, hi) == p` holds exactly when p lies in the box on both axes, the engine's bounds test |
| Vec2Math.Zero | 2048/Vec2.h:7-30 | the default vector, both components 0 from the member initialisers |
| Vec2Math.ZeroIsNeutral | 2048/Vec2.h:29-30 | adding the default vector on either side, or subtracting it, changes nothing |
| Vec2Math.Vec2.Add | 2048/Vec2.h:92-96 | componentwise sum |
| Vec2Math.Vec2.Neg | 2048/Vec2.h:98-102 | both components negated |
| Vec2Math.Vec2.Sub | 2048/Vec2.h:104-108 | `left + (-right)` is the componentwise difference |
| Vec2Math.AddSubInverse | 2048/Vec2.h:92-108 | `-a + a` is the zero vector, and adding then subtracting b (or the reverse) gives a back |
| Vec2Math.Scale | 2048/Vec2.h:110-114 | `k * v` scales both components |
| Vec2Math.Vec2.Times | 2048/Vec2.h:116-120 | `v * k` equals `k * v` and scales both components |
| Vec2Math.Vec2.Div | 2048/Vec2.h:122-128 | division by 0 gives the zero vector, otherwise each component is divided with truncation toward zero |
| Vec2Math.Vec2.AddAssign | 2048/Vec2.h:130-134 | the receiver becomes the sum |
| Vec2Math.Vec2.SubAssign | 2048/Vec2.h:136-140 | the receiver becomes the difference |
| Vec2Math.Vec2.Eq | 2048/Vec2.h:142-146 | true exactly when both components agree |
| Vec2Math.Vec2.Neq | 2048/Vec2.h:148-152 | true exactly when the vectors differ |
| Vectors.Vector.constructor | 2048/Utility.h:122-126 | a new vector is empty with 16 slots reserved |
| Vectors.Vector.Copy | 2048/Utility.h:128-132 | the copy holds the source's elements and reserves exactly its size |
| Vectors.Vector.Size | 2048/Utility.h:229-233 | the number of elements in use |
| Vectors.Vector.Get | 2048/Utility.h:243-249 | reading index idx < size gives element idx |
| Vectors.Vector.Set | 2048/Utility.h:235-241 | writing index idx < size replaces element idx and nothing else |
| Vectors.Vector.Front | 2048/Utility.h:168-178 | on a non-empty vector, element 0 |
| Vectors.Vector.Back | 2048/Utility.h:180-190 | on a non-empty vector, element size - 1 |
| Vectors.Vector.Reserve | 2048/Utility.h:192-214 | a fresh buffer of capacity n holding the first min(size, n) elements; the size is not touched, so the elements survive when n >= size |
| Vectors.Vector.Resize | 2048/Utility.h:216-221 | size and capacity become n, and the first min(old size, n) elements are kept |
| Vectors.Vector.PushBack | 2048/Utility.h:149-154 | the element is appended after the old ones; a full vector first grows to (capacity, or 8 when there is none) times 2, a non-full one keeps its buffer |
| Vectors.Vector.Clear | 2048/Utility.h:156-166 | no element remains; `clear(true)` drops the capacity to 0, `clear()` keeps capacity and buffer |
| Vectors.Vector.Assign | 2048/Utility.h:134-141 | after copy assignment the elements are the source's elements and the capacity is their number; a distinct source is untouched |
| Vectors.Vector.Find | 2048/Utility.h:301-309 | true exactly when some element in use is related to x by cmp |
| Tiles.Tile.GetValue | 2048/Board.h:50 | 0 for a wall whatever value is stored, the stored value otherwise |
| Tiles.Tile.IsAWall | 2048/Board.h:52 | a wall reads as value 0 and neither accepts a tile nor merges into one |
| Tiles.Tile.WasMerged | 2048/Board.h:54 | a tile merged in this shift neither accepts a tile nor merges into one |
| Tiles.Tile.SetValue | 2048/Board.h:37 | only the stored value changes; the wall and merge flags are kept |
| Tiles.Tile.SetAsWall | 2048/Board.cpp:37-43 | only the wall flag changes |
| Tiles.Tile.ConfirmMerge | 2048/Board.cpp:53-56 | only the merge flag is cleared |
| Tiles.Tile.CanMergeWith | 2048/Board.cpp:58-61 | false when either tile is a wall or already merged; otherwise true exactly when one of them is empty or both hold the same value |
| Tiles.Tile.MergeWith | 2048/Board.cpp:45-51 | the pair's total is unchanged, the source becomes empty, the target keeps its wall flag, is flagged merged exactly when both held a value, and returns its new value as points in that case and 0 otherwise |
| Tiles.MergeOutcomes | 2048/Board.cpp:45-61 | a merge into an empty tile moves the value and scores 0; a merge of two equal tiles doubles the value and scores the double |
| Tiles.NewTile | 2048/Board.cpp:9-14 | a new tile stores `TileBaseValue` (2), is not merged and is a wall exactly when asked to be |
| Grids.InBounds | 2048/Board.cpp:198 | the engine's clamping bounds test holds exactly for points with 0 <= x < size.x and 0 <= y < size.y |
| Grids.ClearMerged | 2048/Board.cpp:266-268 | every tile with its merge flag cleared, nothing else changed, same shape |
| Grids.ClearMergedKeepsSum | 2048/Board.cpp:266-268 | clearing the merge flags keeps the value sum |
| Shift.DirVec | 2048/Board.cpp:6 | each direction is a unit step on one axis, in (column, row) order |
| Shift.FindIdxAfterShift | 2048/Board.cpp:194-210 | a wall stays where it is; any tile's destination is an in-bounds cell of its own row or column, at or ahead of it and no further than the edge, with no wall strictly between |
| Shift.FindIdxStep | 2048/Board.cpp:203-209 | from the next cell's destination, joining it or stopping one cell short both stay on the line, ahead of the source and short of any wall |
| Shift.BlockedTileStays | 2048/Board.cpp:196-201 | a tile at the leading edge, or right behind a wall, does not move |
| Shift.ResolveCell | 2048/Board.cpp:221-231 | the resolution of one cell leaves grid and displacement field of the board's shape |
| Shift.ResolveCellKeeps | 2048/Board.cpp:221-231 | resolving one cell keeps the value sum and the walls, leaves walls and merged tiles untouched, and scores exactly what the newly merged tiles hold |
| Shift.MergeKeeps | 2048/Board.cpp:228-229 | one merge or slide into another cell keeps the value sum, adds its points to the merged sum and touches no wall or merged tile |
| Shift.Collapse | 2048/Board.cpp:212-235 | collapsing a line from a cell leaves grid and displacement field of the board's shape |
| Shift.CollapseKeeps | 2048/Board.cpp:212-235 | a whole `collapseTilesTo` keeps what each step keeps |
| Shift.KeepsTrans | 2048/Board.cpp:219-229 | two steps that each keep the sums and walls keep them together, with the points added |
| Shift.EdgePairCollapse | 2048/Board.cpp:212-235 | on the last two cells of a line: a tile slides into an empty edge cell scoring 0; onto an equal tile it merges, the edge cell holds the double, is flagged and the pair scores the double; onto a different value nothing moves |
| Shift.MergedTileIsFinal | 2048/Board.cpp:228-229 | a tile merged earlier in the shift is untouched by any later `collapseTilesTo`, so a tile merges at most once per shift |
| Shift.ResolveCellFrame | 2048/Board.cpp:221-231 | resolving a cell changes no cell other than itself and its destination |
| Shift.CollapseFrame | 2048/Board.cpp:212-235 | `collapseTilesTo` from a cell changes no cell behind it and no cell of another line |
| Shift.CollapseKeepsOtherRows | 2048/Board.cpp:212-235 | collapsing along a row leaves every other row as it was |
| Shift.FindIdxOnto | 2048/Board.cpp:199-210 | a tile that is not a wall goes to the next cell's destination when the tile there accepts it, and stops one cell short otherwise |
| Shift.SlideBehindMerged | 2048/Board.cpp:221-231 | a tile behind an empty cell and a tile merged in this shift slides into the empty cell and scores nothing |
| Shift.MergeBehindMerged | 2048/Board.cpp:221-231 | a `v` behind an empty cell, a `v` and a merged tile passes the empty cell and merges with the `v`, scoring `2v` |
| Shift.ThreeEqualCollapse | 2048/Board.cpp:212-235 | three equal tiles `v` at the end of a line become `2v` (flagged merged) at the edge, `v` behind it and an empty cell, scoring `2v`; the third tile does not merge into the new double |
| Shift.FourEqualCollapse | 2048/Board.cpp:212-235 | four equal tiles `v` at the end of a line become two flagged doubles `2v` at the front and two empty cells, scoring `4v` |
| Shift.RowOfThreeLeft | 2048/Board.cpp:212-235 | a row `v v v` collapsed Left becomes `2v v 0` and scores `2v` |
| Shift.RowOfFourLeft | 2048/Board.cpp:212-235 | a row `v v v v` collapsed Left becomes `2v 2v 0 0` and scores `4v` |
| Shift.LineStart | 2048/Board.cpp:253-264 | the start cell of line i is on the board and on line i |
| Shift.ShiftLines | 2048/Board.cpp:253-264 | collapsing the lines in order keeps the board's shape |
| Shift.ShiftLinesKeeps | 2048/Board.cpp:253-264 | collapsing the first k lines keeps the sums and the walls |
| Shift.Shifted | 2048/Board.cpp:249-268 | the state after an accepted shift has the board's shape |
| Shift.ShiftConservesSum | 2048/Board.cpp:244-273 | a shift never changes the sum of the tile values |
| Shift.ShiftKeepsWalls | 2048/Board.cpp:244-273 | no cell becomes or stops being a wall, and walls are unchanged |
| Shift.ShiftScoresMerges | 2048/Board.cpp:244-273 | the points are the values of the tiles merged during the shift, so they are 0 exactly when the shift only slides; afterwards no tile is flagged merged |
| Shift.RowsAdvance | 2048/Board.cpp:253-264 | finishing row `k - 1` and touching no other row extends the finished prefix by one row |
| Shift.RowsStep | 2048/Board.cpp:253-264 | one pass of the Left line loop turns the next `inRow` into `outRow` and adds its points, leaving the other rows |
| Shift.RowsInduction | 2048/Board.cpp:253-264 | when each line turns `inRow` into `outRow` scoring `m`, after `k` lines the first `k` rows are `outRow`, the rest `inRow`, and the points are `k * m` |
| Shift.LinesOfThreeLeft | 2048/Board.cpp:253-264 | in a Left shift of a board three wide, every line that still holds `v v v` becomes `2v v 0`, scoring `2v` |
| Shift.LinesOfFourLeft | 2048/Board.cpp:253-264 | in a Left shift of a board four wide, every line that still holds `v v v v` becomes `2v 2v 0 0`, scoring `4v` |
| Shift.ThreesShiftLeft | 2048/Board.cpp:244-273 | a Left shift of a board three wide whose rows are all `v v v` makes every row `2v v 0`, unflagged, and scores `2v` per row; for `v = 2` the row `2 2 2` gives `4 2 0` and 4 points |
| Shift.FoursShiftLeft | 2048/Board.cpp:244-273 | a Left shift of a board four wide whose rows are all `v v v v` makes every row `2v 2v 0 0`, unflagged, and scores `4v` per row; for `v = 2` the row `2 2 2 2` gives `4 4 0 0` and 8 points |
| Shift.Moves | 2048/Board.cpp:279-280 | the test `canShiftTo` makes on one cell; only a tile that holds a value and is not a wall passes it |
| Shift.Movable | 2048/Board.cpp:275-282 | some cell passes the test; `Boards.AnyMoves` and `Boards.Board.CanShiftTo` are proved to compute it |
| Shift.FindIdxOnLine | 2048/Board.cpp:194-210 | `findIdxAfterShift` reads only the line of its cell: two boards that agree on that line give the same destination |
| Shift.StaysBlocks | 2048/Board.cpp:194-210 | a tile that keeps its cell is a barrier: no cell behind it on its line has a destination beyond it |
| Shift.DestAccepts | 2048/Board.cpp:203-209 | the destination of a moving tile with no moving tile ahead of it passes `canMergeWith` with it, so `collapseTilesTo` moves it there |
| Shift.CollapseStill | 2048/Board.cpp:212-235 | when no tile holding a value from a cell on moves, `collapseTilesTo` from that cell changes nothing |
| Shift.CollapseRaises | 2048/Board.cpp:212-235 | collapsing a line whose leading moving tile is `f` raises the value of the cell `f` lands on |
| Shift.MovableChanges | 2048/Board.cpp:244-282 | when `canShiftTo` holds, the shifted board differs from the board |
| Shift.MovableIffChanges | 2048/Board.cpp:244-282 | `canShiftTo` holds exactly when the shift would change the board, so a refused shift is one that would leave every tile as it is |
| Shift.BlockedBoardCannotShift | 2048/Board.cpp:275-282 | when every tile with a value is at the leading edge or right behind a wall (a row `2 # 2` to the Left), the board cannot shift |
| Persistence.NatToString | 2048/Board.cpp:328 | `%d` of a value is a non-empty string of decimal digits |
| Persistence.ReadWhatIsPrinted | 2048/Board.cpp:364 | reading the digits `%d` printed gives the value back |
| Persistence.SplitJoin | 2048/Board.cpp:329-333 | splitting at the separator undoes writing the parts with the separator between them |
| Persistence.CellText | 2048/Board.cpp:325-328 | a cell is written as `#` for a wall or as its decimal value, never containing a space or newline |
| Persistence.RowText | 2048/Board.cpp:323-331 | a written row holds no newline |
| Persistence.Serialize | 2048/Board.cpp:315-340 | splitting the saved text at newlines gives back the written rows; `SaveLoadRoundTrip` and `Loading.SavedTextReadBack` state how it reads back |
| Persistence.SizeOf | 2048/Board.cpp:396 | `{data.front().size(), data.size()}` is the shape of a grid whenever the grid is rectangular |
| Persistence.Recognisable | 2048/Board.cpp:362-385 | a cell the reader accepts or rejects at its first character: non-empty and not led by white space, which `" %d"` would skip |
| Persistence.WellFormed | 2048/Board.cpp:362-385 | the texts the value-level reader takes: equally many single-space-separated recognisable cells on every line |
| Persistence.EmptyTextIllFormed | 2048/Board.cpp:342-421 | the empty file is not well formed; the loop as written reads it as one tile (`Loading.EmptyText`) |
| Persistence.ParseCell | 2048/Board.cpp:364-385 | a cell is read exactly when it is `#` or a numeral; the tile is a wall exactly for `#`, and not merged |
| Persistence.ParseCellText | 2048/Board.cpp:325-376 | reading what is written for a tile gives a tile with the same wall flag and value |
| Persistence.Parse | 2048/Board.cpp:360-386 | the reader succeeds exactly when every cell is read, and then gives a rectangular grid holding the read tile in every cell |
| Persistence.Reloaded | 2048/Board.cpp:366-376 | the reloaded tile has the wall flag and the `getValue` of the saved one and no merge flag |
| Persistence.SaveLoadRoundTrip | 2048/Board.cpp:315-396 | a saved board is accepted by the reader and read back to a grid of the same shape with the same walls and values |
| Persistence.JunkRejected | 2048/Board.cpp:380-385 | a cell that is neither `#` nor a numeral makes reading fail |
| Loading.Start | 2048/Board.cpp:356-360 | before the loop nothing is read, the file is not at its end and `data` holds one empty row |
| Loading.SkipSpace | 2048/Board.cpp:364 | the space of a format skips exactly the white space that follows, up to the first other character or the end |
| Loading.DigitsEnd | 2048/Board.cpp:364 | `%d` takes exactly the run of digits that follows |
| Loading.ScanNumber | 2048/Board.cpp:364 | `" %d%c"` returns -1 exactly when only white space is left, 0 exactly when the next other character is not a digit, and then leaves it unread; otherwise it moves on or reaches the end; `data` and `c2` are untouched |
| Loading.ScanChars | 2048/Board.cpp:372 | `" %c%c"` never returns 0; it moves on or reaches the end, and `c` is the first character after the white space |
| Loading.Push | 2048/Board.cpp:367-377 | the tile is appended to the last row, the earlier rows are kept, and one empty row follows exactly when asked |
| Loading.Step | 2048/Board.cpp:362-384 | one pass of the loop moves on or reaches the end, and `data` keeps at least one row |
| Loading.Run | 2048/Board.cpp:362-385 | a finished loop leaves at least one row in `data` |
| Loading.ReadAsWritten | 2048/Board.cpp:356-386 | the loop from its start leaves at least one row |
| Loading.ReadCells | 2048/Board.cpp:356-386 | the `while (!feof(file))` loop succeeds exactly when `ReadAsWritten` gives rows, and then leaves those rows in `data` |
| Loading.SingleColumn | 2048/Board.cpp:362-370 | `2\n2` is read as the rows `[2]`, `[2]` and an empty third row, the `\n` in `c` being stale at the last cell |
| Loading.WallAtRowEnd | 2048/Board.cpp:372-377 | `2 #\n2 #` is read with an empty third row, the `\n` in `c2` being stale at the last `#` |
| Loading.TrailingNewline | 2048/Board.cpp:362-370 | `2 2\n` is read as `[2, 2]`, `[2]`, `[]`: the -1 at the end of the file counts as success and pushes the old `value` again |
| Loading.EmptyText | 2048/Board.cpp:356-370 | the empty file is read as one tile of value 0 |
| Loading.TabLedCell | 2048/Board.cpp:364 | `2 \t2` is read as one row of two cells, the tab being skipped |
| Loading.ScanValueCell | 2048/Board.cpp:364 | a numeral followed by a non-digit or the end is read whole into `value`, with `c` the character after it or the end of the file reached |
| Loading.ScanWallCell | 2048/Board.cpp:364-372 | a `#` makes `%d` fail without taking it; `" %c%c"` then takes the `#` into `c` and the next character, if any, into `c2` |
| Loading.NumberStep | 2048/Board.cpp:364-370 | a numeral and its separator: the number is pushed, `c` is the separator, and a row is started exactly after `\n` |
| Loading.WallStep | 2048/Board.cpp:372-377 | a `#` and its separator: a wall is pushed, `c2` is the separator, and a row is started exactly after `\n` |
| Loading.NumberLast | 2048/Board.cpp:364-370 | a numeral at the end of the file is pushed, and the old `c` decides whether a row is started |
| Loading.WallLast | 2048/Board.cpp:372-377 | a `#` at the end of the file is pushed, and the old `c2` decides whether a row is started |
| Loading.AtEnd | 2048/Board.cpp:364-370 | with only white space left the call returns -1 and the loop pushes a tile with the old `value` |
| Loading.SerializedUnsigned | 2048/Board.cpp:325-333 | a saved board holds no `+` or `-` |
| Loading.RestFirst | 2048/Board.cpp:321-335 | the saved text is the text from the first cell on |
| Loading.RestLast | 2048/Board.cpp:321-335 | the text from the last cell on is that cell alone |
| Loading.RestWithinRow | 2048/Board.cpp:325-330 | inside a row, a cell is followed by a space and the next cell |
| Loading.RestAtRowEnd | 2048/Board.cpp:330-333 | at the end of a row, a cell is followed by `\n` and the next row's first cell |
| Loading.StepCell | 2048/Board.cpp:362-378 | on a saved board, one pass over a cell that is not the last leaves the reader at the next cell with every cell before it in `data` |
| Loading.StepLast | 2048/Board.cpp:362-378 | the pass over the last cell reaches the end of the file with the whole grid in `data`, and an empty row more when the stale `c` or `c2` is `\n` |
| Loading.ReadFrom | 2048/Board.cpp:362-385 | from any cell of a saved board the loop ends with the whole grid, and the empty row when the stale character is `\n` |
| Loading.SavedTextReadBack | 2048/Board.cpp:315-385 | loading a saved board with the loop as written gives the reloaded grid, followed by one empty row exactly when the `c` (last cell a number) or `c2` (last cell a wall) left from an earlier cell is `\n` |
| Loading.WideBoardReadBack | 2048/Board.cpp:315-385 | a board at least two wide whose last cell is a number is read back as saved |
| Loading.SingleColumnExtraRow | 2048/Board.cpp:362-414 | a single-column board of two or more rows ending in two numbers is read with an extra empty row, so `size` becomes one row taller and that row is shorter than `size.x` |
| Boards.FreeCells | 2048/Board.cpp:286-292 | the free list fits the `size.x * size.y` entries of `freeIndices`; which cells it holds is `FreeCellsExact` and `FreeCellsOrdered` |
| Boards.Spawn | 2048/Board.cpp:294-298 | the board keeps its shape; the change itself is `SpawnAddsOneTile` |
| Boards.Emptied | 2048/Board.cpp:156-160 | every tile's value set to 0, its wall and merge flags kept, the shape kept |
| Boards.Undone | 2048/Board.cpp:304-313 | the board keeps its shape; the restored cells are `UndoRestoresValues` and `UndoKeepsAgreeingPrefix` |
| Boards.FreeCellsExact | 2048/Board.cpp:289-292 | a cell is in the free list exactly when it is on the board, holds no value and is not a wall |
| Boards.FreeCellsOrdered | 2048/Board.cpp:289-292 | the free list is in strictly increasing row-major order, so each free cell once |
| Boards.SpawnAddsOneTile | 2048/Board.cpp:294-298 | with a free cell, the chosen free cell gets value 2 and no other cell changes, so the sum grows by 2; with none, nothing changes |
| Boards.AnyFreeCellCanSpawn | 2048/Board.cpp:296 | every free cell is picked by some value of `rand()` |
| Boards.ResetLeavesOneTile | 2048/Board.cpp:154-167 | after `reset` walls are where they were and the board holds value 2 in total when some cell is not a wall, 0 otherwise |
| Boards.EmptiedHoldsNothing | 2048/Board.cpp:156-160 | after `reset`'s loop the value sum is 0 |
| Boards.DiffBeforeStep | 2048/Board.cpp:309 | `diff \|=` becomes true at a cell exactly when it was true or that cell's value differs, and carries over from row to row |
| Boards.UndoRestoresValues | 2048/Board.cpp:304-313 | after `undo` every cell has the snapshot's value |
| Boards.UndoKeepsAgreeingPrefix | 2048/Board.cpp:307-310 | cells before the first differing cell are left as they were |
| Boards.SpawnKeepsWalls | 2048/Board.cpp:294-298 | a spawned tile neither adds, removes nor changes a wall |
| Boards.UndoKeepsWalls | 2048/Board.cpp:304-313 | when the snapshot holds the board's walls, `undo` keeps every wall and the snapshot still holds them |
| Boards.ShiftedWallsAgree | 2048/Board.cpp:244-273 | the shifted board has the walls of the board it came from, which the undo state holds |
| Boards.UndoWithoutDifference | 2048/Board.cpp:304-313 | with no difference `undo` changes nothing; after an `undo` no difference remains, so a second `undo` returns false |
| Boards.Board.constructor | 2048/Board.cpp:67-70 | a new board is the default 4 x 4 board with one spawned tile, its own undo state and no animation |
| Boards.Board.Update | 2048/Board.cpp:134-152 | returns true exactly when an animation is running and the accumulated time reaches 200; then the animation stops, the timer is 0 and every displacement is 0; otherwise only a running animation's timer grows by dt |
| Boards.ZeroedAnimation | 2048/Board.cpp:144-146 | every displacement set to the zero vector |
| Boards.Board.Reset | 2048/Board.cpp:154-167 | every value emptied, one tile spawned, the undo state a copy, displacements cleared, animation stopped, shape kept |
| Boards.ClearedCells | 2048/Board.cpp:156-161 | every tile's value set to 0 and every displacement cleared |
| Boards.Board.SetDefaultShape | 2048/Board.cpp:169-192 | an n x n board of plain tiles, then `reset` |
| Boards.Board.FillPrevData | 2048/Board.cpp:237-242 | the undo state becomes the board; nothing else changes |
| Boards.Board.CollapseTilesTo | 2048/Board.cpp:212-235 | the board, displacements and points are those `Shift.Collapse` gives; nothing else changes |
| Boards.Board.ResolveTile | 2048/Board.cpp:221-231 | the board, displacements and points are those `Shift.ResolveCell` gives |
| Boards.Board.CollapseLine | 2048/Board.cpp:253-264 | one pass of the line loop takes the state after i lines to the state after i + 1 |
| Boards.Board.CollapseLines | 2048/Board.cpp:253-264 | the board, displacements and summed points are those of collapsing every line in turn |
| Boards.Board.ConfirmMerges | 2048/Board.cpp:266-268 | every merge flag cleared, nothing else changes |
| Boards.Board.Move | 2048/Board.cpp:249-268 | the undo state is the old board, and board, displacements and points are those of `Shift.Shifted` |
| Boards.Board.ShiftTo | 2048/Board.cpp:244-282 | while animating or when no tile can move, -1 and no change; otherwise board, displacements and points are those of `Shift.Shifted`, the undo state is the old board and the animation is started; so -1 comes back exactly when an animation runs or the shift would leave every tile as it is (`Shift.MovableIffChanges`) |
| Boards.AnyMoves | 2048/Board.cpp:277-281 | true exactly when some tile holding a value has a destination other than its own cell |
| Boards.Board.CanShiftTo | 2048/Board.cpp:275-282 | true exactly when some tile holding a value has a destination other than its own cell |
| Boards.CollectFree | 2048/Board.cpp:286-292 | a fresh buffer of size.x * size.y entries whose first `freeCount` entries are the free cells in row-major order |
| Boards.Board.AddNewTile | 2048/Board.cpp:284-302 | returns true exactly when some cell is free; the board becomes the spawn at the chosen free cell; nothing else changes |
| Boards.UndoGrid | 2048/Board.cpp:306-312 | the restored grid and whether some value differed |
| Boards.Board.Undo | 2048/Board.cpp:304-313 | returns true exactly when some value differed from the snapshot; every cell from the first difference on is copied from the snapshot; the snapshot is kept; no cell becomes or stops being a wall and every wall is kept as it was |
| Boards.WriteRow | 2048/Board.cpp:323-331 | one row written as `RowText` describes |
| Boards.Board.SaveTo | 2048/Board.cpp:315-340 | returns whether the file opened and then wrote exactly `Serialize` of the board |
| Boards.AnyWithValue | 2048/Board.cpp:406-414 | true exactly when some cell holds a value, although a hit ends only the scan of its row |
| Boards.Board.Install | 2048/Board.cpp:396-420 | the read grid becomes the board with a spawn when no cell holds a value, the undo state a copy and every displacement 0 |
| Boards.Board.LoadFrom | 2048/Board.cpp:342-421 | an unopened file or an unreadable cell gives the default 4 x 4 board and false; otherwise the read grid (plus a spawn when it holds no value) of the read shape and true; in both cases the undo state is a copy and the animation is stopped |

## Left out

- Drawing: `Board::draw`, `Tile::draw`, the tile colours that `setAsWall` sets and the float interpolation of the animation are rendering.
- File handles: `fopen_s`, `fprintf`, `fscanf_s` and `fclose` are not modelled. A load reads an in-memory `Option<string>`. A save returns its text, and `canOpen` stands for whether the file opened.
- `rand()` is the parameter `choice` of `addNewTile`, `reset`, `setDefaultShape` and `loadFrom`.
- Boards.Board.LoadFrom: requires the text to be well formed. Well formed means equally many cells on every line, single spaces between cells, no trailing separator, and every cell `#`, a numeral, or rejected at a first character that is not white space, a digit, `#` or a sign. On those texts it reads with `Persistence.Parse`, which reads a saved board back as saved. The loop as written is `Loading.ReadAsWritten` (see "## Findings"). Not covered by LoadFrom:
  - the empty file, which is not well formed (`Persistence.EmptyTextIllFormed`) and which the loop reads as one tile of value 0 (`Loading.EmptyText`);
  - a trailing newline, read by the loop with one more tile and an empty row (`Loading.TrailingNewline`);
  - white space other than the single space between cells, which `" %d"` skips (`Loading.TabLedCell`);
  - rows of different lengths, where the shape comes from the first row only;
  - cells such as `5#`, `+3` or `-3`;
  - 32-bit overflow of `%d`.
- Loading.ReadCells: like `Loading.ReadAsWritten`, `Loading.Run`, `Loading.Step` and `Loading.ScanNumber`, requires a text with no `+` or `-`. `%d` would accept a sign, and a negative value has no tile in this model. A saved board never holds one (`Loading.SerializedUnsigned`).
- Integers are unbounded: 32-bit `points`, the `size_t` values printed with `%d`, and `int32_t` coordinates of `Vec2i` do not wrap in the model.
- `Vec2::length`, `normalize` and `normalized` use `sqrtf`. The converting constructors between `Vec2i`, `Vec2u` and `Vec2f` are identity on the non-negative coordinates the engine converts.
- `Vector<T>`:
  - the defaulted move constructor and move assignment, the destructor and `getData`;
  - the out-of-memory exit of `reserve`;
  - the out-of-range message of `operator[]`, which is a precondition instead;
  - the commented-out merge sort, which is not code.
- Vectors.Vector.Reserve: with `n` below the size the vector is left inconsistent, as in the source. Only the first `n` elements are promised, and `Valid` only when `n >= size`.
- The board's grids are kept as sequences of rows rather than as `Vector<Vector<...>>`. `Vectors` models `Vector` on its own, so the resize/push calls of `setDefaultShape` and `loadFrom` appear as whole-row assignments.
- `shiftTo`'s four direction branches are one loop over `LineCount`/`LineStart`. Each branch's lines are visited in its own order from its own start cell.
- The nested loops of `reset`, `canShiftTo`, `undo` and `addNewTile` run on a copy of the grid. The copy is stored back into the field at the end, which has the same effect as updating the field cell by cell.
- The rows `[2,2,2,2]` and `[2,2,2]` are proved for boards whose every row is that row, with any tile value `v` and any height, rather than on one literal board (`Shift.FoursShiftLeft`, `Shift.ThreesShiftLeft`). A board mixing those rows with other rows is covered only by the general lemmas.
- The caller's score and undo bookkeeping, the game-over check, the save index, the event loop (2048/Application.cpp), the clock (2048/Clock.cpp) and the window (2048/Window.cpp) are not part of this model.

## Findings

| source | as written | input that shows it | evidently intended | confidence | as-written member | corrected member |
|---|---|---|---|---|---|---|
| 2048/Board.cpp:362-378 | at the last cell `fscanf_s` stops at the end of the file, and the loop tests the `c` (after a number) or `c2` (after a wall) left from an earlier cell for `\n` | a single-column save `2\n2` is read as `[2]`, `[2]`, `[]`, so `size` becomes 1 x 3 and the scan at 2048/Board.cpp:406-414 indexes the empty third row; `2 #\n2 #` gains the empty row through `c2` | a saved board is read back as saved, as it is for boards two or more wide whose last cell is a number | not executed | Loading.SavedTextReadBack | Persistence.SaveLoadRoundTrip |
