# Snake game state in Dafny

This project models the game-state core of a terminal snake game, `snake.c`.

The board is a 20 x 20 grid of packed cells. Each cell is one 32-bit word:
- bits 2-3 hold the occupancy kind (empty, apple or snake);
- bits 0-1 hold the direction a snake segment was travelling when it was laid.

The snake is not stored as a list. The game knows only the indices of its head
and tail cells, and it walks the tail forward by following the direction recorded
in the tail cell.

The model covers:
- the coordinate helpers (`cell`, `cellX`, `cellY`, `cellDir`);
- the cell codec;
- the mapping from inputs to directions;
- apple placement;
- initialisation;
- the per-tick transition `GameState_step`.

Three modules:

- `Grid` (`grid.dfy`) covers the board geometry and the cell encoding. Cells are `bv32`, so `|` and `&` are the C bit operations. `cellX` and `cellY` use C's truncating `%` and `/`.
- `Game` (`game.dfy`) covers the game state and its operations.
  - A `GameState` is a value. `GameState_step` copies the state it is given and returns the modified copy, and the model does the same.
  - `InitAsWritten`, `Init`, `SpawnApple`, `Advance`, `Step` and `StepCorrected` are methods that return the new state.
  - `InitAsWritten` follows the source's order, where the first apple can end up under the snake; `Step` restarts a finished game with it, as the source does. `Init` is the corrected order, and `StepCorrected` is the same tick restarting with `Init` (see Findings).
  - `Step` is proved against the ghost predicate `StepsTo`, which says what the next state is for each status, input and kind of cell the head moves onto.
- `SnakeInvariants` (`snake_invariants.dfy`) proves what a tick keeps:
  - how the number of snake and apple cells changes on each kind of move;
  - that wall contact ends the game;
  - that a game started by the corrected initialisation has exactly one apple, and that a running tick keeps it at one;
  - that a game whose first apple was covered never scores;
  - that the tail-to-head chain of recorded directions (`Traces`) is established by initialisation and preserved by every tick that keeps the game running.

## Model

| member | source | states |
|---|---|---|
| Grid.CellIndex | snake.c:90-92 | the linear index of an in-board column and row is on the board, and its column and row read back as given |
| Grid.CellX | snake.c:94-96 | the column of an on-board index lies in 0..19 |
| Grid.CellY | snake.c:98-100 | the row of an on-board index lies in 0..19 |
| Grid.CoordinatesRoundTrip | snake.c:90-100 | splitting an on-board index into column and row and joining them again gives the index back |
| Grid.CellDir | snake.c:102-116 | the neighbour of an on-board cell is on the board |
| Grid.CellDirIsClampedStep | snake.c:102-116 | up and down move by one row (20 cells) and left and right by one cell, except on the edge being left, where the cell stays put; any other direction value leaves the cell unchanged; the cell stays put exactly when it is on that edge |
| Grid.CellDirStaysOnAxis | snake.c:102-116 | a horizontal move never wraps into another row and a vertical move never changes the column; the other coordinate changes by at most one |
| Grid.TypeOf | snake.c:48-53 | masking with `CellType_mask` yields one of the four values 0x00, 0x04, 0x08, 0x0C |
| Grid.DirOf | snake.c:55-62 | masking with `CellDirection_mask` yields a direction 0..3 |
| Grid.MakeCell | snake.c:150 | or-ing an occupancy kind with a direction stores both, and each reads back unchanged through its mask |
| Grid.SnakeCell | snake.c:150 | a snake segment cell is a snake cell carrying its direction, and it is not empty |
| Grid.CellFromFields | snake.c:46-62 | a cell using only the four low bits is rebuilt from its kind and its direction |
| Grid.SameParityIsSameAxis | snake.c:198-204 | two directions have equal parity exactly when one is the other or its reverse, which is why the parity test rejects reversals and same-axis repeats |
| Game.MapCellDirection | snake.c:118-126 | down, left and right map to their directions, and `UP` is returned exactly for the up input and for every non-directional input |
| Game.SpawnApple | snake.c:128-136 | only the board changes; one cell that was exactly empty now holds an apple and every other cell is unchanged |
| Game.InitAsWritten | snake.c:138-152 | initialisation in the source's order (apple first, then snake): the game is running with score 0 and speed 850. The head is the centre cell (10,10) and the tail is two cells to its left. Cells tail..head are right-facing snake, one apple was placed on some cell, possibly one the snake then covers, and every other cell is empty |
| Game.Init | snake.c:138-152 | corrected initialisation: the same state, but the apple lies on a cell the snake does not cover |
| Game.Laid | snake.c:209-216 | laying the head changes only the old head and the new head cell, and both become snake cells facing the new direction |
| Game.Advance | snake.c:209-235 | the snake moves one cell in the given direction. Moving onto its body (or its own head at a wall) ends the game. Moving onto an empty cell clears the old tail and moves the tail along the tail's recorded direction. Moving onto an apple adds one to the score, sets the speed to 850 + score and places a new apple. Any other cell kind moves only the head |
| Game.Step | snake.c:154-242 | with the game exited, nothing changes. With the game over, quit exits, no input leaves the state unchanged and any other input restarts through the as-written initialisation. With the game running, quit exits and a reversal or same-axis input leaves the state unchanged. No input advances in the head's recorded direction, and a perpendicular input advances in the new direction, as in `Advance` |
| Game.StepCorrected | snake.c:154-242 | the same tick as `Step`, except that a directional input in a finished game always yields a fresh game, whose apple lies off the snake |
| Game.StepAdvances | snake.c:181-235 | a running tick that advances relates the states by the move in the new head direction |
| Game.SlidState | snake.c:209-226 | after a move onto an empty cell, the next state is the laid board with the old tail cleared, and the tail follows its recorded direction |
| Game.GrewState | snake.c:209-231 | after a move onto an apple, the next state is the laid board plus a new apple on a cell that was empty after laying. The score is one higher and the speed is 850 + score |
| Game.CollidedState | snake.c:209-221 | after a move onto snake, the next state is over with the laid board and the moved head |
| SnakeInvariants.LayingCounts | snake.c:210-216 | laying the head adds one snake cell unless the target already was snake, and removes the apple the target held |
| SnakeInvariants.SlideKeepsLength | snake.c:218-226 | a move onto an empty cell keeps the game running and keeps the score, the speed, the number of snake cells and the number of apples |
| SnakeInvariants.GrowthAddsOneSegment | snake.c:227-231 | eating an apple keeps the tail, adds one to the score, sets the speed to 850 + score and adds exactly one snake cell. The number of apples stays the same, because the eaten one is replaced |
| SnakeInvariants.CollisionEndsGame | snake.c:218-221 | a move onto the snake ends the game; the tail, the score, the speed and the number of snake cells stay as they were |
| SnakeInvariants.WallContactEndsGame | snake.c:102-116 | moving towards the edge the head lies on ends the game with the head in place, because the clamped neighbour is the head itself |
| SnakeInvariants.CoveredFirstApple | snake.c:138-152 | an initial state whose first apple fell on one of the three snake cells is a possible outcome of initialisation and has no apple on the board |
| SnakeInvariants.FreshGameHasOneApple | snake.c:138-152 | a game started by the corrected initialisation has exactly one apple on the board |
| SnakeInvariants.StepKeepsOneApple | snake.c:218-235 | a tick that keeps a traced game running keeps exactly one apple on the board |
| SnakeInvariants.RestartIsInitState | snake.c:166-177 | from a finished game, a directional input restarts it. The new game is running with score 0 and speed 850, its three-cell snake is traced tail to head, and at most one apple is on the board (none when the first apple was covered) |
| SnakeInvariants.NoAppleNoScore | snake.c:218-235 | in a running, traced game with no apple on the board, no tick changes the score, and a tick that keeps the game running leaves the board without an apple |
| SnakeInvariants.InitialBoardTraced | snake.c:138-152 | the initial board holds exactly the three snake cells, chained tail to head by their right-facing directions, wherever the apple fell |
| SnakeInvariants.InitIsTraced | snake.c:138-152 | every initial state is traced from its tail to its head |
| SnakeInvariants.ShiftOnSnake | snake.c:222-226 | after a slide, every cell of the shifted path is snake |
| SnakeInvariants.ShiftDistinct | snake.c:222-226 | dropping the tail and appending a cell not on the path keeps the path free of repeats |
| SnakeInvariants.ShiftLinked | snake.c:209-226 | after a slide, each cell's recorded direction leads to the next cell of the shifted path; the old head now points at the new head |
| SnakeInvariants.ShiftOnlySnake | snake.c:222-226 | after a slide, no snake cell lies off the shifted path |
| SnakeInvariants.ShiftTrace | snake.c:209-226 | a slide turns a traced path into the path without its old tail and with the new head appended |
| SnakeInvariants.ExtendOnSnake | snake.c:227-231 | after eating, every cell of the extended path is snake |
| SnakeInvariants.ExtendDistinct | snake.c:227-231 | appending a cell not on the path keeps the path free of repeats |
| SnakeInvariants.ExtendLinked | snake.c:209-231 | after eating, each cell's recorded direction leads to the next cell of the extended path |
| SnakeInvariants.ExtendOnlySnake | snake.c:227-231 | after eating, no snake cell lies off the extended path |
| SnakeInvariants.ExtendTrace | snake.c:209-231 | eating an apple turns a traced path into the same path with the new head appended; the new apple is not on it |
| SnakeInvariants.StepKeepsTrace | snake.c:154-242 | if a tick leaves the game running, the next state is again traced tail to head by a path at least as long |

## Findings

| source | as written | input that shows it | evidently intended | confidence | as-written member | corrected member |
|---|---|---|---|---|---|---|
| snake.c:147-151 | `GameState_init` places the first apple on the empty board and only then lays the three snake cells, overwriting whatever is there | the random draw puts the apple on cell 208, 209 or 210 (3 chances in 400): the snake covers it, the board holds no apple, and the game can never score | the new game shows one apple the snake can reach | high; not executed | Game.InitAsWritten, SnakeInvariants.CoveredFirstApple, SnakeInvariants.NoAppleNoScore | Game.Init, Game.StepCorrected, SnakeInvariants.FreshGameHasOneApple |

`Game.Step` restarts a finished game as the source does, through `Game.InitAsWritten`. `Game.StepCorrected` restarts through the corrected `Game.Init`.

## Left out

- Rendering, keyboard reading (`getLastCh`, the curses key mapping), the main loop, frame timing and `snakeSpeed`'s use as a delay are not part of this model. They are I/O.
- `rand`/`srand` are left out. `SpawnApple` chooses its cell nondeterministically among the empty cells. The model does not capture the draw-until-empty loop, its termination, or which cell the random sequence would pick.
- Game.SpawnApple: requires an empty cell to exist, because the source's retry loop never ends on a full board.
- Game.Step, Game.StepCorrected, Game.Advance: require an empty cell besides the head on a tick that eats an apple. A snake of 399 cells that eats the last apple leaves no empty cell, and the source hangs there. The model does not cover that tick, and it does not prove that such a tick cannot occur.
- Game.Step: runs only on a well-formed state (full-size board, head and tail on the board while running). This is what the source relies on when it indexes the board without checks.
- `min` and `max` (snake.c:28-34) are the helpers `Grid.Min` and `Grid.Max`, which have no contract of their own.
- `applesEaten` and `snakeSpeed` are unbounded integers. The 32-bit overflow of `int` after about two billion apples is not modelled.
- In-place writes through the `GameState*` pointer are modelled as returning a new value, because the source never aliases two states.
- SnakeInvariants.StepKeepsTrace: preservation of the tail-to-head chain is proved only for snakes of at least two cells. The game never makes a shorter snake, since it starts with three cells and never loses one. The chain is a precondition of the lemma: states not reached from initialisation are not addressed.
- The `Board_x`/`Board_y` screen offsets (snake.c:40-41) matter only to rendering.
