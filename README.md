# Conway's Game of Life simulator: a verified model of its engine

The simulator shows a fixed grid of 137 x 70 boxes. You click boxes to make
them alive and press Start. Each pass of the main loop then applies one
generation of Conway's rules. Four buttons control the run: Reset, Start,
Slower and Faster. This project models the simulation engine of
`game_of_life.py` in Dafny and proves properties of that model:

- `Geometry` (geometry.dfy): the field constants and `BoxPlacement`, which
  maps a box to its pixel corner. `TileOf` maps a pixel back to a box by
  arithmetic. `FindClickedBox` is the source's scan over all boxes for the
  9 x 9 collision square under the mouse. Squares are half-open: left and
  top edges inclusive, right and bottom edges exclusive.
- `Life` (life.dfy): the eight Moore-neighbour offsets and the scan's
  neighbour count. `Step` is the generation the way the code builds it: the
  current set, minus the cells listed for removal (`Deaths`), plus the cells
  listed for addition (`Births`). Both lists are decided from the unmodified
  generation. `Conway` is the rule cell by cell, as the function's doc comment
  states it. `GameOfLife` is the two-phase scan-then-apply loop of the source,
  proved equal to `Step`.
- `Controls` (controls.dfy): the state `(alive, running, error, delay)`. The
  four button commands are written as functions. `PgEvents` is the event loop
  that applies the clicks in order. `MainIteration` is one pass of `main`: a
  generation when running, then the clicks, then the held-mouse edit. It is
  proved equal to the function `Iteration`. `Valid`, meaning every live box is
  in the field and the delay is in [0, 10] tenths, holds from start-up
  through any run.

Delay is held as an integer number of tenths of a second, with 5 as the
default. The live-cell set is a `set<(int, int)>`. `game_of_life` changes
its argument in place and returns it, and `main` immediately rebinds
`aliveBoxes` to that result. No other reference to the set exists, so the
model computes the new generation as a value.

The model keeps these behaviours of the code:

- Faster subtracts a tenth whenever the delay is at least 0.1, so the delay
  can reach 0 (game_of_life.py:150-151).
- The held-mouse edit does not check `running`, so boxes can be added while
  the simulation runs (game_of_life.py:235-239).
- Start never clears `running` (game_of_life.py:136-141).
- The removals and additions are applied only after the scan has finished
  (game_of_life.py:198-201).

## Model

| member | source | states |
|---|---|---|
| `Geometry.BoxPlacement` | game_of_life.py:45-51 | the corner of every field box lies in the grid area, so its whole 9 x 9 square does too |
| `Geometry.TileOf` | game_of_life.py:98-108 | a pixel is given a box only if that box is in the field and its square holds the pixel; None means the pixel is outside the grid area |
| `Geometry.TileOfComplete` | game_of_life.py:104-107 | collision squares do not overlap: any pixel in the square of field box c maps back to c |
| `Geometry.PlacementRoundTrip` | game_of_life.py:45-51 | for every field box, mapping it to its pixel corner and back gives the same box |
| `Geometry.FindClickedBox` | game_of_life.py:98-108 | the scan returns the box whose square holds the mouse, equal to `TileOf`; it returns None exactly when no field box's square holds it |
| `Life.Neighbours` | game_of_life.py:171-180 | the eight offsets of a cell in the scan's order; each of them touches the cell |
| `Life.NeighboursAreMoore` | game_of_life.py:171-180 | the eight offsets are distinct and are exactly the cells touching the cell orthogonally or diagonally |
| `Life.CountInIsCardinality` | game_of_life.py:183-186 | counting the live entries of a list without duplicates gives the number of distinct live members |
| `Life.LiveNeighboursCountsAdjacent` | game_of_life.py:171-186 | the neighbour count equals the number of live cells touching the cell |
| `Life.LiveNeighboursUnfold` | game_of_life.py:171-186 | the neighbour count is the sum over the eight offsets of "this neighbour is alive" |
| `Life.LiveNeighbours` | game_of_life.py:181-186 | the length of the live-neighbour list the scan builds for a cell; never more than 8 |
| `Life.CountLiveNeighbours` | game_of_life.py:181-186 | the loop builds the list of live neighbours; its length is the count, at most 8, and equals the number of live cells touching the cell |
| `Life.FieldCells` | game_of_life.py:168-169 | the set of all field cells, exactly [0,137) x [0,70), which is where the scan looks for births |
| `Life.Deaths` | game_of_life.py:188-191 | only cells of the current generation that lie in the field are listed for removal |
| `Life.Births` | game_of_life.py:193-196 | only dead field cells are listed for addition |
| `Life.DecisionsDisjoint` | game_of_life.py:188-201 | the removal list is a subset of the input, the addition list is disjoint from it, and the two lists are disjoint |
| `Life.Step` | game_of_life.py:156-203 | one generation: the current set minus the cells marked for removal, plus the cells marked for addition, both decided from the unmodified set; a new cell always lies in the field, and a live cell outside the field is never touched |
| `Life.Conway` | game_of_life.py:160-163 | the rule as the doc comment states it, cell by cell; a cell it keeps alive lies in the field and has 2 or 3 live neighbours |
| `Life.StepFollowsConway` | game_of_life.py:156-203 | when every live cell is in the field, a cell is in the next generation iff Conway's rule says it lives |
| `Life.LiveCellRule` | game_of_life.py:188-191 | a live field cell survives iff it has 2 or 3 live neighbours |
| `Life.DeadCellRule` | game_of_life.py:193-196 | a dead field cell becomes live iff it has exactly 3 live neighbours |
| `Life.StepInsideField` | game_of_life.py:165-201 | if every live cell is in the field, every cell of the next generation is too |
| `Life.GenerationsInsideField` | game_of_life.py:222-224 | no number of generations lets a cell leave the field |
| `Life.EmptyIsFixed` | game_of_life.py:165-203 | the empty field stays empty |
| `Life.LoneCellDies` | game_of_life.py:188-196 | one live field cell alone dies, and nothing is born around it |
| `Life.BlockConway` | game_of_life.py:160-163 | on the 2 x 2 block in the corner, the rule keeps exactly the block's cells alive |
| `Life.BlockIsStill` | game_of_life.py:156-203 | a generation maps the 2 x 2 block to itself |
| `Life.BarConway` | game_of_life.py:160-163 | on a horizontal bar of three, the rule keeps exactly the vertical bar through its middle |
| `Life.BarTurnsIntoPole` | game_of_life.py:156-203 | a generation turns the horizontal bar into the vertical one |
| `Life.GameOfLife` | game_of_life.py:156-203 | collecting the lists from the unmodified input and then removing and adding yields `Step`; every removal finds its cell present, and with in-field input the result is exactly the cells Conway's rule keeps |
| `Controls.Initial` | game_of_life.py:210-214 | the start-up state: nothing alive, not running, no error, delay 5 tenths; it is valid |
| `Controls.ResetGame` | game_of_life.py:129-133 | Reset gives the start-up state: nothing alive, not running, no error, delay 5 tenths, whatever the prior state |
| `Controls.StartGame` | game_of_life.py:136-141 | with nothing alive, Start sets the error and leaves `running` as it was; otherwise it clears the error and runs; `alive` and `delay` are untouched |
| `Controls.SlowDown` | game_of_life.py:144-146 | Slower adds one tenth up to 10 and changes nothing else; above 10 it changes nothing |
| `Controls.SpeedUp` | game_of_life.py:149-151 | Faster takes one tenth down to 0 and changes nothing else; below 0 it changes nothing |
| `Controls.Apply` | game_of_life.py:128-151 | the effect of one button click; only Reset changes the live set, and it gives the start-up state |
| `Controls.ApplyAll` | game_of_life.py:121-153 | the clicks of one pass applied in arrival order, as a fold over the sequence (its properties are `ApplyAllKeepsValid` and `ApplyAllAlive`) |
| `Controls.Tick` | game_of_life.py:222-224 | by definition, a running simulation advances its live set by one `Step`; the contract states that a stopped one is unchanged and that mode, error and delay are never touched |
| `Controls.HoldMouse` | game_of_life.py:235-239 | with the button held, the box under the pointer becomes alive; with no button held nothing changes, and mode, error and delay are never touched |
| `Controls.Iteration` | game_of_life.py:216-239 | one pass of the main loop: `Tick`, then `ApplyAll` of the clicks, then `HoldMouse` (its properties are `IterationKeepsValid` and `MainIteration`) |
| `Controls.StartKeepsRunning` | game_of_life.py:136-141 | Start never stops a running simulation |
| `Controls.StartAfterReset` | game_of_life.py:129-141 | Start right after Reset only raises the error |
| `Controls.SpeedBoundsAreFixed` | game_of_life.py:144-151 | at 10 tenths Slower changes nothing, and at 0 Faster changes nothing |
| `Controls.SlowerPresses` | game_of_life.py:144-146 | n presses of Slower from a delay in [0,10] give min(delay + n, 10) and change nothing else |
| `Controls.FasterPresses` | game_of_life.py:149-151 | n presses of Faster from a delay in [0,10] give max(delay - n, 0) and change nothing else |
| `Controls.ApplyKeepsValid` | game_of_life.py:128-151 | every button keeps live cells in the field and the delay in [0,10] |
| `Controls.ApplyAllKeepsValid` | game_of_life.py:121-153 | a pass's clicks, applied in order, keep the state valid |
| `Controls.ApplyAllAlive` | game_of_life.py:121-153 | clicks with no Reset among them leave the live set as it was, and clicks with a Reset among them leave it empty |
| `Controls.PgEvents` | game_of_life.py:111-153 | the event loop gives the in-order fold of the commands over the state, and it keeps a valid state valid |
| `Controls.HoldMouseOnlyAdds` | game_of_life.py:235-239 | the held-mouse edit adds at most one box, always a field box, never removes one, and changes nothing but `alive`, whether or not the simulation runs |
| `Controls.HoldMouseOutsideGrid` | game_of_life.py:235-239 | when the pointer is on no box, the edit changes nothing |
| `Controls.HoldMouseOnBox` | game_of_life.py:235-239 | pointing anywhere in box c's square adds exactly c |
| `Controls.InitialIsValid` | game_of_life.py:210-214 | the program starts valid, not running, with nothing alive |
| `Controls.IterationKeepsValid` | game_of_life.py:216-239 | one pass of the main loop keeps the state valid |
| `Controls.RunKeepsValid` | game_of_life.py:216-239 | any sequence of passes from a valid state keeps it valid |
| `Controls.MainIteration` | game_of_life.py:222-239 | a generation if running, then the clicks, then the held-mouse edit gives `Iteration`, and keeps a valid state valid |

## Left out

- Rendering (`draw_field`, `draw_buttons`, `draw_text`), window setup and `pygame.display` calls: these are drawing, not logic. `draw_text` names an undefined `RED` at game_of_life.py:92. Once the error flag is set, that line would fail when the frame is drawn. The model covers only the flag.
- Event polling and button hit-testing with `pygame.Rect`: a pass's input is given as the sequence of buttons clicked. An event that hits no button is dropped from it. The four button rectangles do not overlap, so each click is one command.
- Quit (`sys.exit`, game_of_life.py:123-124): process exit is not modelled.
- `pygame.mouse.get_pressed` and `get_pos`: the held pointer is a parameter (`Input.held`).
- `time.sleep(delay)` at game_of_life.py:223: this is timing only. A pass is modelled as an optional generation, then the clicks, then the optional edit.
- SlowDown: the delay is integer tenths, so the drift of adding 0.1 repeatedly to a float is not reproduced.
- SpeedUp: the delay is integer tenths. The float lower bound, about 2.8e-17 rather than 0, is not reproduced.
- In-place mutation: `GameOfLife` returns the new set instead of mutating and returning its argument. Aliasing is not modelled, because the caller rebinds the only reference.
