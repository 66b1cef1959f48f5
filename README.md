# MazeGen in Dafny

This project models the `Maze` class of `src/MazeGen.cpp`, a grid-maze engine. A `w`-by-`h` maze keeps two flat arrays of edge states:

- `_vert` has `(w-1)*h` slots. `right(i,j)` and `left(i+1,j)` both name `_vert[_h*i+j]`.
- `_horz` has `w*(h-1)` slots. `bottom(i,j)` and `top(i,j+1)` both name `_horz[i+_w*j]`.

Each slot is `Wall`, `Passage` or `Undefined`. `_hasWall` treats the border as a wall and an `Undefined` slot as open.

On top of these arrays the class provides:

- a resumable wall-following iterator;
- `check`, which counts the straight moves of a full walk;
- four generators: depth-first carving (`_recurse`), recursive division (`_split`), a fractal generator (`_fractal` and its range helpers) and random walls repaired by `fix`;
- `stamp`, which scales a smaller maze's walls onto a larger one;
- `fix`, which flips one edge touched exactly once until the walk is balanced;
- `removeCrosses`, which re-links cells that have no wall at all.

## Layout of the model

- `grid.dfy` (`MazeGrid`): the maze as a value `Grid(w, h, vert, horz)` with columns of slots. It defines the four accessors and their updates, `HasWall` with C's truncating `%`, the slot an edge names (`EdgeOf`), passage counts, and `_undefinedToWall` as `ResolveAll`/`ResolveGrid`.
- `layout.dfy` (`MazeLayout`): the flat index formulas of the source, and `FromFlat`, which reads a pair of flat arrays as a `Grid`.
- `random.dfy` (`Random`): `rand()` as a caller-supplied stream `draws: nat -> nat`, read through the class `Rng` with a position that `Next` advances. `RandMod` is `rand() % n`.
- `walk.dfy` (`WallWalk`): `iterator::next` as the pure state machine `Step` over a `Cursor` (position, direction, start, turn code, resume label). Whole walks are `Run` and `Walk`; `check` is `CheckWalk`.
- `paths.dfy` (`MazePaths`): connectivity through passages. `Reach` is reachability and `Perfect` means every cell is reachable from (0,0) with exactly `w*h-1` passages.
- `split.dfy`, `recurse.dfy`, `fractal.dfy`, `stamp.dfy`, `fix.dfy`, `crosses.dfy`: one specification function per operation of the source, with the lemmas that state what the operation promises.
- `maze.dfy` (`Mazes`): the imperative model.
  - `class Maze` holds the arrays `vert` and `horz` and implements every operation with the source's loops and in-place writes. Each method is proved equal to its specification function through `Model()`.
  - `class Walker` is the iterator. Its `Next` updates the fields `i, j, d, turn, state` and is proved to take one `Step`.

## Model

| member | source | states |
|---|---|---|
| MazeGrid.SetRightAt | src/MazeGen.cpp:24 | writing `right(i,j)` changes that slot and no other `right` slot |
| MazeGrid.SetBottomAt | src/MazeGen.cpp:26 | writing `bottom(i,j)` changes that slot and no other `bottom` slot |
| MazeGrid.CRem | src/MazeGen.cpp:413 | C's `%` truncates toward zero: the remainder lies strictly between -n and n, equals the mathematical remainder for a non-negative operand, and is never positive for a negative one |
| MazeGrid.HasWallMod4 | src/MazeGen.cpp:411-420 | `_hasWall(i,j,d)` depends only on `d mod 4` for `d >= -4`, so `d-1` with `d = 0` asks about the top side |
| MazeGrid.HasWallBelowRange | src/MazeGen.cpp:411-420 | for every `d < -4`, C's `(d+4)%4` is 0 or negative: `_hasWall` then asks about the east side when `d` is a multiple of 4, and otherwise matches no case and falls through to `true` |
| MazeGrid.EdgeOf | src/MazeGen.cpp:411-420 | the slot an edge names is valid, and it is the border exactly when the neighbour in that direction is off the grid |
| MazeGrid.HasWallIsWallSlot | src/MazeGen.cpp:411-420 | there is a wall iff the named slot holds `Wall` (`Undefined` counts as open), and every side on the border is a wall |
| MazeGrid.EdgeShared | src/MazeGen.cpp:24-27 | `right(i,j)`/`left(i+1,j)` and `bottom(i,j)`/`top(i,j+1)` name the same slot, so both cells see the same wall |
| MazeGrid.PassageCountUpdate | src/MazeGen.cpp:461 | overwriting one slot changes the passage count by exactly the difference of the old and new states |
| MazeGrid.OpenRightCount | src/MazeGen.cpp:461 | opening a `right` slot that was not a passage adds exactly one passage |
| MazeGrid.OpenBottomCount | src/MazeGen.cpp:466 | opening a `bottom` slot that was not a passage adds exactly one passage |
| MazeGrid.ResolveAllDefines | src/MazeGen.cpp:434-442 | after `_undefinedToWall` no slot is `Undefined`, and slots that were `Wall` or `Passage` are unchanged |
| MazeGrid.ResolveAllIdempotent | src/MazeGen.cpp:434-442 | applying `_undefinedToWall` twice equals applying it once |
| MazeGrid.ResolveAllKeepsPassages | src/MazeGen.cpp:434-442 | `_undefinedToWall` keeps the number of passages |
| MazeGrid.ResolveGridDefines | src/MazeGen.cpp:434-442 | on the whole grid, every `right`/`bottom` slot becomes its resolved state and the passage count is kept |
| MazeGrid.AllUndefinedCount | src/MazeGen.cpp:10-18 | a maze whose slots are all `Undefined` has no passage |
| MazeLayout.RightIndex | src/MazeGen.cpp:24 | `_h*i+j` lies inside `_vert` for every in-grid `right(i,j)` |
| MazeLayout.BottomIndex | src/MazeGen.cpp:26 | `i+_w*j` lies inside `_horz` for every in-grid `bottom(i,j)` |
| MazeLayout.RightIndexInjective | src/MazeGen.cpp:24 | distinct `right` edges have distinct `_vert` indices |
| MazeLayout.BottomIndexInjective | src/MazeGen.cpp:26 | distinct `bottom` edges have distinct `_horz` indices |
| MazeLayout.FromFlatRight | src/MazeGen.cpp:24 | the grid read from the flat arrays has `right(i,j) == _vert[_h*i+j]` |
| MazeLayout.FromFlatBottom | src/MazeGen.cpp:26 | the grid read from the flat arrays has `bottom(i,j) == _horz[i+_w*j]` |
| MazeLayout.FromFlatSetRight | src/MazeGen.cpp:24 | writing `_vert[_h*i+j]` is writing `right(i,j)` of the grid and nothing else |
| MazeLayout.FromFlatSetBottom | src/MazeGen.cpp:26 | writing `_horz[i+_w*j]` is writing `bottom(i,j)` of the grid and nothing else |
| MazeLayout.FromFlatResolve | src/MazeGen.cpp:434-442 | the two flat loops of `_undefinedToWall` resolve the whole grid |
| MazeLayout.FromFlatUndefined | src/MazeGen.cpp:12-17 | flat arrays filled with `s_undefined` give a grid with every slot `Undefined` |
| MazeLayout.CellIndex | src/MazeGen.cpp:432 | the `visited` index `i+_w*j` of an in-grid cell lies in `[0, w*h)` |
| MazeLayout.CellIndexInjective | src/MazeGen.cpp:432 | distinct cells have distinct `visited` indices |
| Random.RandModIsRem | src/MazeGen.cpp:457 | the model's `rand() % n` is the remainder of the draw, so it lies in `[0, n)` |
| Random.Rng.Next | src/MazeGen.cpp:457 | each call of `rand()` returns the next draw of the stream and advances its position by one |
| WallWalk.MoveKeepsInv | src/MazeGen.cpp:171-180 | moving through a side without a wall keeps the cursor inside the grid |
| WallWalk.Step | src/MazeGen.cpp:145-192 | one call of `next()` keeps the cursor invariant and never changes the start `(s_i, s_j, s_d)` |
| WallWalk.StepInRange | src/MazeGen.cpp:145-192 | after every `next()`, `d` is in 0..3, `turn` is in {-1,0,1,2} and `(i,j)` is inside the grid |
| WallWalk.StepMovesThroughOpenSide | src/MazeGen.cpp:169-180 | the cursor only changes cell with turn 0, one cell in direction `d`, through a side where `_hasWall` is false |
| WallWalk.TurnMeaning | src/MazeGen.cpp:158-187 | turn -1 rotates counter-clockwise and then moves; turn 1 rotates clockwise without moving; the touch (turn 2) changes nothing, and the step after it moves iff there is no wall ahead |
| WallWalk.ReportsDoNotMove | src/MazeGen.cpp:158-187 | a step that reports turn -1 or 2 leaves the cell unchanged |
| WallWalk.StepEndsAtStart | src/MazeGen.cpp:189-191 | `more()` becomes false exactly after a move or right turn that brings `(i,j,d)` back to the start |
| WallWalk.RunCursorsValid | src/MazeGen.cpp:144-192 | every cursor a finished walk yields is valid, has `more()` true and keeps the walk's start |
| WallWalk.RunFuelMonotone | src/MazeGen.cpp:275 | a walk that ends within some number of steps gives the same cursors with any larger step bound |
| WallWalk.RunUnfold | src/MazeGen.cpp:275 | a walk is its current cursor followed by the walk from the next cursor |
| WallWalk.StraightCountAppend | src/MazeGen.cpp:276-277 | the count of straight moves over a concatenation is the sum of the counts |
| WallWalk.RunOutcome | src/MazeGen.cpp:275 | a walk that has reached `more() == false` is finished; one with steps left but no bound left is cut off |
| WallWalk.CheckWalkOutcome | src/MazeGen.cpp:272-280 | `check()` returns true iff the number of turn-0 steps in the walk from `(0,0,0)` equals `2*(w*h-1)` |
| MazeSplit.FirstPart | src/MazeGen.cpp:499-502 | the split offset `h_r`/`w_r` lies in `[1, size-1]`, so both halves are non-empty |
| MazeSplit.FirstPartBounds | src/MazeGen.cpp:499-502 | for sizes 5 or 6 the offset keeps 2 rows or columns on each side; from 7 on, 3 |
| MazeSplit.FirstPartCovers | src/MazeGen.cpp:499-502 | every offset allowed by those bounds is produced by some draw |
| MazeSplit.OpenColumnStep | src/MazeGen.cpp:489-490 | each iteration of the `w == 1` loop opens the next `top` slot of the column |
| MazeSplit.OpenRowStep | src/MazeGen.cpp:494-495 | each iteration of the `h == 1` loop opens the next `left` slot of the row |
| MazeSplit.OpenColumnLocal | src/MazeGen.cpp:487-491 | the `w == 1` case writes only `Passage`, and only inside its column |
| MazeSplit.OpenRowLocal | src/MazeGen.cpp:492-496 | the `h == 1` case writes only `Passage`, and only inside its row |
| MazeSplit.SplitLocal | src/MazeGen.cpp:483-522 | `_split(i,j,w,h)` writes only `Passage`, and only on edges strictly inside its rectangle |
| MazeSplit.CutRowsLocal | src/MazeGen.cpp:497-508 | a horizontal cut writes only `Passage` inside its rectangle |
| MazeSplit.CutColumnsLocal | src/MazeGen.cpp:509-520 | a vertical cut writes only `Passage` inside its rectangle |
| MazeSplit.SplitLeavesClear | src/MazeGen.cpp:483-522 | a split never adds a passage to a disjoint rectangle to its right or below |
| MazeSplit.OpenColumnCount | src/MazeGen.cpp:487-491 | on a column without passages, the `w == 1` case adds exactly `h-1` passages |
| MazeSplit.OpenRowCount | src/MazeGen.cpp:492-496 | on a row without passages, the `h == 1` case adds exactly `w-1` passages |
| MazeSplit.OpenRowsLink | src/MazeGen.cpp:505 | the linking passage of a horizontal cut adds one passage and leaves both halves without passages |
| MazeSplit.OpenColumnsLink | src/MazeGen.cpp:517 | the linking passage of a vertical cut adds one passage and leaves both halves without passages |
| MazeSplit.SplitCount | src/MazeGen.cpp:483-522 | on a rectangle without passages, `_split` adds exactly `w*h-1` passages |
| MazeSplit.CutRowsCount | src/MazeGen.cpp:497-508 | a horizontal cut of a rectangle without passages adds exactly `w*h-1` passages |
| MazeSplit.CutColumnsCount | src/MazeGen.cpp:509-520 | a vertical cut of a rectangle without passages adds exactly `w*h-1` passages |
| MazeSplit.SplitKeeps | src/MazeGen.cpp:483-522 | `_split` never closes a passage |
| MazeSplit.OpenColumnConnects | src/MazeGen.cpp:487-491 | after the `w == 1` case, every cell of the column is reachable from its top cell |
| MazeSplit.OpenRowConnects | src/MazeGen.cpp:492-496 | after the `h == 1` case, every cell of the row is reachable from its left cell |
| MazeSplit.SplitConnects | src/MazeGen.cpp:483-522 | after `_split(i,j,w,h)`, every cell of the rectangle is reachable from `(i,j)` |
| MazeSplit.CutRowsConnects | src/MazeGen.cpp:497-508 | after a horizontal cut, every cell of the rectangle is reachable from its corner |
| MazeSplit.CutColumnsConnects | src/MazeGen.cpp:509-520 | after a vertical cut, every cell of the rectangle is reachable from its corner |
| MazeSplit.GenerateSplitPerfect | src/MazeGen.cpp:38-42 | on a fresh maze, `generateSplit` yields a perfect maze: exactly `w*h-1` passages and every cell reachable from (0,0) |
| MazeRecurse.MarkSeen | src/MazeGen.cpp:447 | marking a cell visited adds exactly that cell to the visited set |
| MazeRecurse.MarkUnvisited | src/MazeGen.cpp:447 | marking an unvisited cell lowers the number of unvisited cells by one |
| MazeRecurse.CandidatesBelow | src/MazeGen.cpp:450-454 | the count `c` of open, in-grid, unvisited neighbours is at most 4 |
| MazeRecurse.Choose | src/MazeGen.cpp:459-479 | the `r-- == 0` chain picks a candidate direction with exactly `r` candidates before it |
| MazeRecurse.ChooseUnique | src/MazeGen.cpp:459-479 | that direction is the only candidate with `r` candidates before it |
| MazeRecurse.NoCandidate | src/MazeGen.cpp:455-456 | the loop stops only when no neighbour is a candidate |
| MazeRecurse.OpenSide | src/MazeGen.cpp:459-479 | the written slot joins the current cell to the chosen neighbour |
| MazeRecurse.OpenSideOpens | src/MazeGen.cpp:459-479 | carving one side only turns a non-`Wall` slot into `Passage` |
| MazeRecurse.RecurseRun | src/MazeGen.cpp:443-481 | `_recurse(i,j)` marks `(i,j)` visited, only ever adds visited cells, and visits at least one new cell |
| MazeRecurse.RecurseLoop | src/MazeGen.cpp:448-480 | the loop of `_recurse` only ever adds visited cells |
| MazeRecurse.RunOpens | src/MazeGen.cpp:443-481 | `_recurse` only turns non-`Wall` slots into `Passage` |
| MazeRecurse.OpenSideReach | src/MazeGen.cpp:459-479 | each opened edge joins a visited cell reachable from (0,0) to its neighbour, which becomes reachable too |
| MazeRecurse.RunReach | src/MazeGen.cpp:443-481 | every cell `_recurse` visits is reachable from (0,0) |
| MazeRecurse.OpenSideCount | src/MazeGen.cpp:459-479 | each opened edge adds exactly one passage |
| MazeRecurse.RunCount | src/MazeGen.cpp:443-481 | `_recurse` opens exactly one passage per newly visited cell other than its first |
| MazeRecurse.LoopEndClosed | src/MazeGen.cpp:455-456 | on a maze without `Wall` slots, when the loop stops every neighbour of the cell is visited |
| MazeRecurse.RunClosed | src/MazeGen.cpp:443-481 | on a maze without `Wall` slots, every cell `_recurse` visits ends with all its neighbours visited |
| MazeRecurse.AllSeen | src/MazeGen.cpp:29-37 | if (0,0) is visited and every visited cell has all its neighbours visited, then every cell is visited |
| MazeRecurse.RecurseVisitsAll | src/MazeGen.cpp:29-37 | on a fresh maze, `_recurse(0,0)` visits every cell |
| MazeRecurse.RecursePassages | src/MazeGen.cpp:29-37 | on a fresh maze, `_recurse(0,0)` opens exactly `w*h-1` passages |
| MazeRecurse.RecurseConnects | src/MazeGen.cpp:29-37 | on a fresh maze, every cell is reachable from (0,0) afterwards |
| MazeRecurse.GenerateRecursivePerfect | src/MazeGen.cpp:29-37 | on a fresh maze, `generateRecursive` yields a perfect maze |
| MazeFractal.LowRange | src/MazeGen.cpp:576-583 | `_left_range`/`_bottom_range` lies in `[max(i,0), min(i+size,n)-1]` when that range is non-empty, and uses at most one draw |
| MazeFractal.HighRange | src/MazeGen.cpp:584-591 | `_right_range`/`_top_range` lies in `[max(i-size,0), min(i,n)-1]` when that range is non-empty, and uses at most one draw |
| MazeFractal.RangesFixed | src/MazeGen.cpp:576-607 | without `frac_all_random` the helpers draw nothing and return the range's end (reverse types) or its start |
| MazeFractal.Orientation | src/MazeGen.cpp:552-560 | `d` is in 0..3. It is 1 with no draw for the regular and reverse types. With `frac_random_orient_no_cross` it is `avoid_corner` or the side before it. Every other type uses one draw |
| MazeFractal.LineTopInside | src/MazeGen.cpp:532-541 | a `top` line of `_fractal` writes only inside the square of its size around `(i,j)` |
| MazeFractal.LineLeftInside | src/MazeGen.cpp:542-549 | a `left` line of `_fractal` writes only inside the square of its size around `(i,j)` |
| MazeFractal.SkipLine | src/MazeGen.cpp:561-564 | the line on side `d` is not drawn |
| MazeFractal.CrossLinesInside | src/MazeGen.cpp:561-564 | the three or four lines of an inner centre stay inside the square |
| MazeFractal.LinesInside | src/MazeGen.cpp:527-565 | one level of `_fractal` writes only `Passage` and only inside its square |
| MazeFractal.FractalInside | src/MazeGen.cpp:524-574 | the whole recursion of `_fractal(i,j,size)` writes only `Passage` and only inside the square of `size` around `(i,j)` |
| MazeFractal.CoverSizeBounds | src/MazeGen.cpp:62-65 | the size loop as written ends on a power of two `size` with `i-size <= 0`, `i+size >= _w-1`, `j-size <= 0` and `j+size >= _w-1` |
| MazeFractal.CentreCovers | src/MazeGen.cpp:44-47 | from the centre `(_w/2, _h/2)` the size also satisfies `j+size >= _h-1`, whatever `_w` is |
| MazeFractal.IntendedCoverSizeBounds | src/MazeGen.cpp:62-65 | with the comparisons `i+size < _w` and `j+size < _h`, the loop ends on a power of two with `i-size <= 0`, `i+size >= _w`, `j-size <= 0` and `j+size >= _h` |
| MazeFractal.IntendedSquareCovers | src/MazeGen.cpp:60-68 | with that size, every `right` and `bottom` slot of the grid lies inside the square `_fractal` draws in, from any start |
| MazeFractal.GenerateFractalShape | src/MazeGen.cpp:60-68 | after `generateFractal`, no slot is `Undefined` and every passage is kept. Every slot is either its old state resolved or a new passage inside the covering square |
| MazeFractal.ResolveSquare | src/MazeGen.cpp:60-68 | resolving a grid that differs from the old one only by new passages inside a square leaves no slot `Undefined` and keeps every passage. Every other slot is its old state resolved |
| MazeFractal.FractalWallsInCorner | src/MazeGen.cpp:44-68 | on a fresh 3-by-3 maze, `generateFractal` walls in cell (2,2), so the result is not perfect |
| MazeStamp.ScaleBlock | src/MazeGen.cpp:253-255 | the scaled block of a pattern column or row is non-empty and stays inside the receiver |
| MazeStamp.StampGridAt | src/MazeGen.cpp:244-270 | after `stamp`, a slot is `Wall` iff some `Wall` of the pattern scales onto it; otherwise it is unchanged |
| MazeStamp.StampOnlyAddsWalls | src/MazeGen.cpp:249-268 | `stamp` only ever writes `Wall` |
| MazeStamp.StampDrawsRight | src/MazeGen.cpp:249-258 | each `right` wall of the pattern sets `right(l,k)` to `Wall` for all `k` in `[t,b)`, with `0 <= l <= _w-2` and `0 <= t < b <= _h` |
| MazeStamp.StampDrawsBottom | src/MazeGen.cpp:259-268 | each `bottom` wall of the pattern sets `bottom(k,b)` to `Wall` for all `k` in `[l,r)`, with `0 <= b <= _h-2` and `0 <= l < r <= _w` |
| MazeStamp.StampIdempotent | src/MazeGen.cpp:244-270 | stamping the same pattern twice equals stamping it once |
| MazeStamp.StampSelf | src/MazeGen.cpp:244-270 | stamping a maze onto a copy of itself changes nothing |
| MazeFix.RandomSlots | src/MazeGen.cpp:54-57 | `generateRandom` fills one slot per draw |
| MazeFix.RandomGridDefined | src/MazeGen.cpp:52-59 | after the fill loops no slot is `Undefined`, and a slot is `Wall` iff its draw is even |
| MazeFix.SomeWallCount | src/MazeGen.cpp:422-429 | `_nrWalls(i,j) > 0` iff some side of the cell has a wall |
| MazeFix.ScanStartFinds | src/MazeGen.cpp:298-313 | the start scan finds a walled cell in the same row without wrapping, because the last column always has a wall; every cell it skips has none |
| MazeFix.FirstWallFinds | src/MazeGen.cpp:302-303 | `while (!_hasWall) d = (d+1)%4` stops on the first side with a wall, counting clockwise from `d` |
| MazeFix.FirstWallSkip | src/MazeGen.cpp:302-303 | each turn of that loop keeps its result and gets closer to it |
| MazeFix.StartDirWallLeft | src/MazeGen.cpp:302-304 | the chosen start direction `d` has a wall at `d-1` |
| MazeFix.TouchedState | src/MazeGen.cpp:314-335 | a counted move crosses a non-`Wall` slot inside the grid; a counted touch hits a `Wall` |
| MazeFix.HitsSnoc | src/MazeGen.cpp:314-335 | one more step adds one to the count of exactly the slot it touches |
| MazeFix.TallySnoc | src/MazeGen.cpp:314-335 | the `c_vert`/`c_horz` tallies after one more step differ from the old ones in the touched slot alone, by one |
| MazeFix.VertAtIndex | src/MazeGen.cpp:319-333 | counter index `k` of `c_vert` is the `_vert` slot of `right(a,b)` iff `k == _h*a+b` |
| MazeFix.HorzAtIndex | src/MazeGen.cpp:320-332 | counter index `k` of `c_horz` is the `_horz` slot of `bottom(a,b)` iff `k == a+_w*b` |
| MazeFix.OnesSnoc | src/MazeGen.cpp:340-345 | the counting loop adds one for each counter equal to 1 |
| MazeFix.FlipNthOne | src/MazeGen.cpp:347-362 | for `r` below the number of counters equal to 1, exactly one slot flips: one whose counter is 1, with `s_wall` becoming `s_passage` and anything else becoming `s_wall` |
| MazeFix.FlipNthNone | src/MazeGen.cpp:349-362 | for an `r` outside that range, no slot of the array flips |
| MazeFix.RoundStart | src/MazeGen.cpp:295-313 | the walk of a round starts in the grid with a direction in 0..3 |
| MazeFix.AfterWalk | src/MazeGen.cpp:336-362 | only a round that flips may change the arrays |
| MazeFix.AfterWalkFlipsOne | src/MazeGen.cpp:339-362 | a round that flips changes exactly one slot, of `_vert` or of `_horz`, whose counter is 1 |
| MazeFix.BalancedRoundWitness | src/MazeGen.cpp:336-337 | a round that ends the loop had a walk with `2*(w*h-1)` straight moves |
| MazeFix.FixRoundBalanced | src/MazeGen.cpp:314-337 | a round ends the loop iff the walk from its start cell makes `2*(w*h-1)` straight moves |
| MazeFix.FixRun | src/MazeGen.cpp:287-363 | `fix` keeps the array sizes, and it exits only when the straight-move count equals `2*(w*h-1)` |
| MazeCrosses.ScanWalk | src/MazeGen.cpp:212-221 | the best cell found is never above the starting bound, lies in the grid, and its `min_k` is `i+j` |
| MazeCrosses.ScanWalkStop | src/MazeGen.cpp:212-221 | the scan ends with the bound when `more()` is false, and with the new best when it reaches `min_k == 0` and breaks |
| MazeCrosses.BestOfFloor | src/MazeGen.cpp:213 | once `min_k` is 0 no later move replaces the best |
| MazeCrosses.ScanWalkIsBestOf | src/MazeGen.cpp:212-235 | the scan loop of `removeCrosses` yields the best over all moves of the walk |
| MazeCrosses.BestOfIsFirstMinimum | src/MazeGen.cpp:212-234 | the best has the least `i+j` of all moves and the bound. If it is not the bound, it is the first move reaching that least value |
| MazeCrosses.OpenAt | src/MazeGen.cpp:237-240 | re-opening the best cell keeps the grid's shape |
| MazeCrosses.CrossIsInner | src/MazeGen.cpp:205 | a cell with `_nrWalls == 0` is an inner cell, so `top(i,j)` exists |
| MazeCrosses.RelinkCrossOpensLower | src/MazeGen.cpp:208-240 | relinking a cross walls its top. It then opens one `top` (or, in row 0, `left`) slot of a cell with `i+j <= k`, or stops with that top wall alone |
| MazeCrosses.RelinkCrossKeepsDefined | src/MazeGen.cpp:208-240 | relinking a cross keeps a maze without `Undefined` slots so |
| MazeCrosses.CrossesKeepDefined | src/MazeGen.cpp:203-241 | the diagonal loops keep a maze without `Undefined` slots so |
| Mazes.DrawFirstPart | src/MazeGen.cpp:499-502 | draws `h_r`/`w_r` from the stream, using no draw when the size is 2 |
| Mazes.DrawLowRange | src/MazeGen.cpp:576-583 | computes `_left_range`/`_bottom_range` and the draws it used |
| Mazes.DrawHighRange | src/MazeGen.cpp:584-591 | computes `_right_range`/`_top_range` and the draws it used |
| Mazes.DrawOrientation | src/MazeGen.cpp:552-560 | computes the switch on the fractal type and the draws it used |
| Mazes.Maze.constructor | src/MazeGen.cpp:10-18 | allocates both arrays and sets every slot to `Undefined` |
| Mazes.Maze.WriteRight | src/MazeGen.cpp:24 | the array write through `right(i,j)` |
| Mazes.Maze.WriteBottom | src/MazeGen.cpp:26 | the array write through `bottom(i,j)` |
| Mazes.Maze.WriteTop | src/MazeGen.cpp:27 | the array write through `top(i,j)`, which is `bottom(i,j-1)` |
| Mazes.Maze.WriteLeft | src/MazeGen.cpp:25 | the array write through `left(i,j)`, which is `right(i-1,j)` |
| Mazes.Maze.ReadRight | src/MazeGen.cpp:24 | reading `right(i,j)` reads the grid's slot |
| Mazes.Maze.ReadBottom | src/MazeGen.cpp:26 | reading `bottom(i,j)` reads the grid's slot |
| Mazes.Maze.NrWalls | src/MazeGen.cpp:422-429 | `_nrWalls` is in 0..4 and equals the number of directions `d` in 0..3 with `_hasWall(i,j,d)` |
| Mazes.Maze.UndefinedToWall | src/MazeGen.cpp:434-442 | the two loops resolve every slot of the grid |
| Mazes.Maze.CountCandidates | src/MazeGen.cpp:450-454 | the counting of open, in-grid, unvisited neighbours |
| Mazes.Maze.PickSide | src/MazeGen.cpp:459-479 | the `r-- == 0` chain picks the `r`-th candidate |
| Mazes.Maze.OpenTowards | src/MazeGen.cpp:459-479 | opens the side towards the chosen neighbour |
| Mazes.Maze.Recurse | src/MazeGen.cpp:443-481 | `_recurse` on the arrays and the `visited` buffer computes `RecurseRun` |
| Mazes.Maze.GenerateRecursive | src/MazeGen.cpp:29-37 | `generateRecursive` computes its specification and, on a fresh maze, yields a perfect maze |
| Mazes.Maze.Split | src/MazeGen.cpp:483-522 | `_split` in place computes `SplitRun` |
| Mazes.Maze.SplitRows | src/MazeGen.cpp:497-508 | the `w < h` branch in place |
| Mazes.Maze.SplitColumns | src/MazeGen.cpp:509-520 | the last branch in place |
| Mazes.Maze.GenerateSplit | src/MazeGen.cpp:38-42 | `generateSplit` computes its specification and, on a fresh maze, yields a perfect maze |
| Mazes.Maze.OpenLineTop | src/MazeGen.cpp:532-541 | writes one `top` line of `_fractal` |
| Mazes.Maze.OpenLineLeft | src/MazeGen.cpp:542-549 | writes one `left` line of `_fractal` |
| Mazes.Maze.OpenCross | src/MazeGen.cpp:561-564 | writes the lines of an inner centre |
| Mazes.Maze.OpenLines | src/MazeGen.cpp:527-565 | one level of `_fractal` in place |
| Mazes.Maze.Fractal | src/MazeGen.cpp:524-574 | `_fractal` in place computes `FractalRun` |
| Mazes.Maze.FractalQuarters | src/MazeGen.cpp:569-573 | the four recursive calls of `_fractal` |
| Mazes.Maze.FractalQuartersWest | src/MazeGen.cpp:572-573 | the last two recursive calls of `_fractal` |
| Mazes.Maze.GenerateFractalAt | src/MazeGen.cpp:60-68 | `generateFractal(i,j,type)` in place |
| Mazes.Maze.GenerateFractal | src/MazeGen.cpp:44-47 | `generateFractal(type)` starts from `(_w/2, _h/2)` |
| Mazes.Maze.WallRightRun | src/MazeGen.cpp:256-257 | sets `right(l,k)` to `Wall` for `k` in `[t,b)` and changes nothing else |
| Mazes.Maze.WallBottomRun | src/MazeGen.cpp:266-267 | sets `bottom(k,b)` to `Wall` for `k` in `[l,r)` and changes nothing else |
| Mazes.Maze.StampRightWalls | src/MazeGen.cpp:249-258 | the first double loop of `stamp` |
| Mazes.Maze.StampBottomWalls | src/MazeGen.cpp:259-268 | the second double loop of `stamp` |
| Mazes.Maze.Stamp | src/MazeGen.cpp:244-270 | `stamp` returns false with no change when the pattern is larger, otherwise true with the pattern's walls scaled on |
| Mazes.Maze.Check | src/MazeGen.cpp:272-280 | `check` computes `CheckWalk`: true iff the walk from `(0,0,0)` makes `2*(w*h-1)` straight moves |
| Mazes.Maze.RandomizeSlots | src/MazeGen.cpp:54-57 | `_vert`, then `_horz`, hold one drawn state per slot in order (Wall for an even draw, Passage for an odd one), and the stream has advanced by exactly one draw per slot |
| Mazes.Maze.FindStart | src/MazeGen.cpp:298-313 | the start scan of a `fix` round |
| Mazes.Maze.TurnToWall | src/MazeGen.cpp:302-304 | turns to the side after the first wall |
| Mazes.Maze.CountTouch | src/MazeGen.cpp:315-335 | counting one step of the walk bumps the tally of the slot it touches |
| Mazes.Maze.CountMove | src/MazeGen.cpp:317-324 | a move bumps the counter of the slot behind it |
| Mazes.Maze.CountWall | src/MazeGen.cpp:328-334 | a touch bumps the counter of the wall it touches, when that slot is in the arrays |
| Mazes.Maze.BumpRight | src/MazeGen.cpp:319 | adds one to one `c_vert` counter |
| Mazes.Maze.BumpBottom | src/MazeGen.cpp:320 | adds one to one `c_horz` counter |
| Mazes.Maze.TallyWalk | src/MazeGen.cpp:314-335 | the walk loop of `fix` counts the straight moves and leaves the tallies of the whole walk |
| Mazes.Maze.ClearCounters | src/MazeGen.cpp:289-292 | clears both counter arrays |
| Mazes.Maze.CountOnes | src/MazeGen.cpp:339-345 | counts the counters equal to 1 |
| Mazes.Maze.FlipChosen | src/MazeGen.cpp:348-362 | flips the slot chosen by `r`, looking in `_vert` first and then `_horz` |
| Mazes.Maze.FlipInVert | src/MazeGen.cpp:349-355 | flips the chosen slot of `_vert`, if any, and returns how many counters of `c_vert` are 1 |
| Mazes.Maze.FlipInHorz | src/MazeGen.cpp:356-362 | flips the chosen slot of `_horz`, if any |
| Mazes.Maze.FixPass | src/MazeGen.cpp:289-362 | one pass of `fix`'s outer loop computes `FixRound` |
| Mazes.Maze.FinishPass | src/MazeGen.cpp:336-362 | the end of a pass computes `AfterWalk`: balanced when the walk made `2*(w*h-1)` moves, stuck when no counter is 1, otherwise a flip |
| Mazes.Maze.FlipDrawn | src/MazeGen.cpp:347-362 | the flip uses exactly one draw and flips the slot that `AfterWalk` picks with `rand() % count` |
| Mazes.Maze.Fix | src/MazeGen.cpp:282-367 | `fix` computes `FixRun` |
| Mazes.Maze.FixLoop | src/MazeGen.cpp:287-363 | the outer loop of `fix` |
| Mazes.Maze.GenerateTrees | src/MazeGen.cpp:48-51 | `generateTrees` runs `fix`; when it exits normally some walk of the result is balanced |
| Mazes.Maze.GenerateRandom | src/MazeGen.cpp:52-59 | `generateRandom` fills the arrays from the draws and then runs `fix`; when it exits normally some walk of the result is balanced |
| Mazes.Maze.RemoveCrosses | src/MazeGen.cpp:201-242 | `removeCrosses` computes `RemoveCrossesRun` and keeps a maze without `Undefined` slots so |
| Mazes.Maze.ScanDiagonals | src/MazeGen.cpp:203-241 | the loop over anti-diagonals `k` from `w+h-2` down to 1 computes `RemoveCrossesRun` |
| Mazes.Maze.ScanDiagonal | src/MazeGen.cpp:204-241 | the loop over the cells of one anti-diagonal: when it finishes, what is left of the scan from the next diagonal is the same as from column 0 of this one; when a relink fails, it ends as the scan does |
| Mazes.Maze.RelinkCrossAt | src/MazeGen.cpp:208-240 | the body for one cross |
| Mazes.Maze.OpenAtBest | src/MazeGen.cpp:237-240 | opens `top` of the best cell, or `left` in row 0 |
| Mazes.Maze.LowestOnWalk | src/MazeGen.cpp:212-234 | one scan loop of `removeCrosses` computes `ScanWalk` |
| Mazes.Walker.constructor | src/MazeGen.cpp:139 | the iterator starts at `(i,j,d)` and has already made one `next()` |
| Mazes.Walker.Next | src/MazeGen.cpp:145-192 | `next()` takes exactly one `Step` and keeps the iterator valid |
| Mazes.Walker.ResumeL1 | src/MazeGen.cpp:161-163 | resuming at label `L1` takes one `Step` |
| Mazes.Walker.ResumeL2 | src/MazeGen.cpp:168-187 | resuming at label `L2` takes one `Step` |
| Mazes.Walker.ResumeLoop | src/MazeGen.cpp:155-191 | resuming at `L0`, `L3` or `L4` (the do-while test, then the probe of the left side) takes one `Step` |

## Left out

- `print`, `printStats`, `dump`, `svg` and `main` are not modelled. They format text, write files, use floating point and seed `rand()` from the clock.
- `rand()` is a caller-supplied stream `draws: nat -> nat`. Uniformity and seeding are not modelled, and `rand() % n` is the draw's remainder.
- The destructor and `new`/`delete` are not modelled. The arrays are Dafny arrays. The scratch buffers `visited`, `c_vert` and `c_horz` are arrays too.
- `int` and `char` are unbounded. The `char` counters of `fix` cannot wrap in the model, and the index arithmetic cannot overflow.
- Mazes.Maze.Check: the walk loop has no bound in the source. The model takes a bound `fuel` on the number of `next()` calls and returns `None` when it runs out.
- Mazes.Maze.Fix: the source loops until the walk is balanced and gives no termination argument. The model takes a bound `rounds` on passes and `steps` on each walk, and reports `OutOfFuel`. Convergence is not claimed.
- Mazes.Maze.Fix: `rand() % count` with `count == 0` is undefined in C++. The model ends the run with `NoCandidate` (`NoneToFlip` for one round) and leaves the arrays unchanged.
- Mazes.Maze.RemoveCrosses: each wall-following walk is bounded by `steps`. A walk that runs out ends the run with `StuckWalk`.
- Mazes.Maze.RemoveCrosses: when the best cell is (0,0), the source writes `left(0,0)`, which is `_vert[-_h]`, outside the array. The model does not write and ends with `WriteOffGrid`.
- Mazes.Maze.Stamp: the source allows `stamp(*this)`. The model requires the pattern's arrays to be distinct from the receiver's. `MazeStamp.StampSelf` states the value-level result of stamping a maze onto an equal one.
- `MazeFractal.CoverSize` keeps the size loop of lines 63-64 as written, so `GenerateFractalRun` and `Mazes.Maze.GenerateFractalAt` follow the code. The loop compares with `_w-1` where the square needs `_w`, and the row test compares with `_w` instead of `_h`. The first can leave the last column outside the square. The second can give a different size, for example 32 instead of 16 for `_w = 30`, `_h = 4` from `(15, 2)`. See "## Findings".
- `_hasWall` is modelled with C's truncating `%` on `d+4`. The source only calls it with `d >= -1`, where this is `d mod 4`.
- `_depth` is only incremented and decremented and never read, so it is not modelled.
- The connectivity notions `Reach` and `Perfect` in `paths.dfy` have no counterpart in the source. They state what the generators promise.

## Findings

| source | as written | input that shows it | evidently intended | confidence | as-written member | corrected member |
|---|---|---|---|---|---|---|
| src/MazeGen.cpp:63-64 | the size loop runs while `i+size < _w-1` or `j+size < _w-1`. The square `_fractal` draws in spans cells `i-size .. i+size-1`, so the loop can stop with column `_w-1` outside it. The row test also uses `_w` | a fresh 3-by-3 maze and `generateFractal(type)`: the size is 1, cell (2,2) is never opened, ends walled in, and the maze is not perfect. | loop while `i+size < _w` or `j+size < _h`, so the square covers every slot | not executed | MazeFractal.FractalWallsInCorner | MazeFractal.IntendedSquareCovers |
