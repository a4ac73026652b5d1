/** The game state of the snake game and its transition function.

    A `GameState` is a value: the transition `Step` copies the state it is
    given and returns the changed copy, so a state is never shared between
    ticks. */
module Game {
  import opened Grid

  const BASE_SPEED: int := 850

  /** The starting snake: three segments facing right, ending in the middle of the board. */
  const INIT_HEAD: int := CellIndex(BOARD_WIDTH / 2, BOARD_HEIGHT / 2)
  const INIT_TAIL: int := INIT_HEAD - 2

  datatype GameStatus = Exit | Running | Over

  /** One discrete input per tick. */
  datatype Input = None | Up | Left | Down | Right | Quit
  {
    predicate IsDirectional() { this == Up || this == Left || this == Down || this == Right }
  }

  datatype GameState = GameState(
    status: GameStatus,
    board: seq<Cell>,
    head: int,
    tail: int,
    applesEaten: int,
    snakeSpeed: int)

  /** The board has its fixed size and, while the game is running, the head
      and tail are cells of it. */
  predicate WellFormed(gs: GameState)
  {
    |gs.board| == BOARD_SIZE &&
    (gs.status == Running ==> InBoard(gs.head) && InBoard(gs.tail))
  }

  /** The direction a directional input asks for; any other input asks for up. */
  function MapCellDirection(input: Input): (d: CellDirection)
    ensures d <= DIRECTION_MASK
    ensures input == Down <==> d == DOWN
    ensures input == Left <==> d == LEFT
    ensures input == Right <==> d == RIGHT
    ensures input == Up || !input.IsDirectional() <==> d == UP
  {
    match input
    case Up => UP
    case Down => DOWN
    case Left => LEFT
    case Right => RIGHT
    case _ => UP
  }

  // ---------------------------------------------------------------------------
  // Apple placement

  predicate HasEmptyCell(board: seq<Cell>)
  {
    exists i :: 0 <= i < |board| && board[i] == EMPTY
  }

  /** Places an apple on some cell that is exactly `EMPTY`. Which one is left
      open: the game draws candidates at random until it finds one. */
  method SpawnApple(gs: GameState) returns (next: GameState)
    requires |gs.board| == BOARD_SIZE && HasEmptyCell(gs.board)
    ensures next == gs.(board := next.board)
    ensures exists p :: InBoard(p) && gs.board[p] == EMPTY && next.board == gs.board[p := APPLE]
  {
    var newPos :| 0 <= newPos < BOARD_SIZE && gs.board[newPos] == EMPTY;
    next := gs.(board := gs.board[newPos := APPLE]);
  }

  // ---------------------------------------------------------------------------
  // Initial state

  /** The board right after initialisation, for an apple first placed at `apple`:
      laying the snake afterwards covers the apple if it landed there. */
  function InitialBoard(apple: int): (b: seq<Cell>)
    ensures |b| == BOARD_SIZE
  {
    seq(BOARD_SIZE, i =>
      if INIT_TAIL <= i <= INIT_HEAD then SnakeCell(RIGHT)
      else if i == apple then APPLE
      else EMPTY)
  }

  /** The state right after initialisation when the first apple went to `apple`. */
  ghost predicate IsInitStateWith(gs: GameState, apple: int)
  {
    && gs.status == Running
    && gs.head == INIT_HEAD
    && gs.tail == INIT_TAIL
    && gs.applesEaten == 0
    && gs.snakeSpeed == BASE_SPEED
    && InBoard(apple)
    && gs.board == InitialBoard(apple)
  }

  /** Some state initialisation can produce. */
  ghost predicate IsInitState(gs: GameState)
  {
    exists apple :: IsInitStateWith(gs, apple)
  }

  /** An initial state whose apple lies off the snake, so that it is on the board to be eaten. */
  ghost predicate IsFreshGame(gs: GameState)
  {
    exists apple :: IsInitStateWith(gs, apple) && !(INIT_TAIL <= apple <= INIT_HEAD)
  }

  /** Initialisation in the order the game performs it: the apple is placed on
      the empty board first and the snake is laid afterwards, over whatever
      lies on its three cells. */
  method InitAsWritten() returns (gs: GameState)
    ensures IsInitState(gs)
    ensures WellFormed(gs)
  {
    var head := CellIndex(BOARD_WIDTH / 2, BOARD_HEIGHT / 2);
    gs := GameState(Running, seq(BOARD_SIZE, _ => EMPTY), head, head - 2, 0, BASE_SPEED);
    assert gs.board[0] == EMPTY;
    gs := SpawnApple(gs);
    ghost var apple :| InBoard(apple) && gs.board == seq(BOARD_SIZE, _ => EMPTY)[apple := APPLE];
    for i := gs.tail to gs.head + 1
      invariant gs.status == Running && gs.head == INIT_HEAD && gs.tail == INIT_TAIL
      invariant gs.applesEaten == 0 && gs.snakeSpeed == BASE_SPEED
      invariant |gs.board| == BOARD_SIZE
      invariant forall j :: 0 <= j < BOARD_SIZE ==>
                  gs.board[j] == if INIT_TAIL <= j < i then SnakeCell(RIGHT)
                                 else if j == apple then APPLE
                                 else EMPTY
    {
      gs := gs.(board := gs.board[i := MakeCell(SNAKE, RIGHT)]);
    }
    assert gs.board == InitialBoard(apple);
    assert IsInitStateWith(gs, apple);
  }

  /** A fresh running game: a three-cell snake facing right whose head is the
      centre cell, and one apple on a cell the snake does not cover. The snake
      is laid first, so the apple can only go to a cell left empty. */
  method Init() returns (gs: GameState)
    ensures IsFreshGame(gs)
    ensures WellFormed(gs)
  {
    var head := CellIndex(BOARD_WIDTH / 2, BOARD_HEIGHT / 2);
    gs := GameState(Running, seq(BOARD_SIZE, _ => EMPTY), head, head - 2, 0, BASE_SPEED);
    for i := gs.tail to gs.head + 1
      invariant gs.status == Running && gs.head == INIT_HEAD && gs.tail == INIT_TAIL
      invariant gs.applesEaten == 0 && gs.snakeSpeed == BASE_SPEED
      invariant |gs.board| == BOARD_SIZE
      invariant forall j :: 0 <= j < BOARD_SIZE ==>
                  gs.board[j] == if INIT_TAIL <= j < i then SnakeCell(RIGHT) else EMPTY
    {
      gs := gs.(board := gs.board[i := MakeCell(SNAKE, RIGHT)]);
    }
    assert gs.board[0] == EMPTY;
    ghost var laid := gs.board;
    gs := SpawnApple(gs);
    ghost var apple :| InBoard(apple) && laid[apple] == EMPTY && gs.board == laid[apple := APPLE];
    assert gs.board == InitialBoard(apple);
    assert IsInitStateWith(gs, apple);
  }

  // ---------------------------------------------------------------------------
  // Transition

  /** The direction stored in the head cell. */
  function HeadDir(gs: GameState): CellDirection
    requires WellFormed(gs) && gs.status == Running
  {
    DirOf(gs.board[gs.head])
  }

  /** Two directions lie on different axes. */
  predicate Perpendicular(a: CellDirection, b: CellDirection)
  {
    a % 2 != b % 2
  }

  /** A running game advances on this input: no input at all, or a turn onto
      the other axis. */
  predicate Advances(input: Input, gs: GameState)
    requires WellFormed(gs) && gs.status == Running
  {
    input == None ||
    (input.IsDirectional() && Perpendicular(HeadDir(gs), MapCellDirection(input)))
  }

  /** The direction the head travels in when the game advances on `input`. */
  function NewHeadDir(input: Input, gs: GameState): (d: CellDirection)
    requires WellFormed(gs) && gs.status == Running
    ensures d <= DIRECTION_MASK
  {
    if input == None then HeadDir(gs) else MapCellDirection(input)
  }

  /** Cells of `b'` outside `changed` are those of `b`. */
  ghost predicate SameOutside(b: seq<Cell>, b': seq<Cell>, changed: set<int>)
  {
    |b'| == |b| && forall i :: 0 <= i < |b| && i !in changed ==> b'[i] == b[i]
  }

  /** The head moved onto snake body (or, clamped at a wall, stayed on
      itself): the game is over. The old and the new head cell record `d`;
      nothing else changes. */
  ghost predicate Collided(cur: GameState, d: CellDirection, next: GameState)
    requires WellFormed(cur) && cur.status == Running && d <= DIRECTION_MASK
  {
    var nh := CellDir(cur.head, d);
    && next == cur.(status := Over, head := nh, board := next.board)
    && SameOutside(cur.board, next.board, {cur.head, nh})
    && next.board[cur.head] == SnakeCell(d)
    && next.board[nh] == SnakeCell(d)
  }

  /** The head moved onto an empty cell: the tail cell is cleared and the tail
      follows the direction recorded in it, so the length is kept. */
  ghost predicate Slid(cur: GameState, d: CellDirection, next: GameState)
    requires WellFormed(cur) && cur.status == Running && d <= DIRECTION_MASK
  {
    var nh := CellDir(cur.head, d);
    && next == cur.(head := nh, tail := CellDir(cur.tail, DirOf(cur.board[cur.tail])),
                    board := next.board)
    && SameOutside(cur.board, next.board, {cur.head, nh, cur.tail})
    && next.board[cur.tail] == EMPTY
    && (cur.head != cur.tail ==> next.board[cur.head] == SnakeCell(d))
    && (nh != cur.tail ==> next.board[nh] == SnakeCell(d))
  }

  /** The head moved onto an apple: the tail stays, one more apple is counted,
      the speed becomes the base speed plus the apples eaten, and one cell
      that was `EMPTY` now holds the new apple. */
  ghost predicate Grew(cur: GameState, d: CellDirection, next: GameState)
    requires WellFormed(cur) && cur.status == Running && d <= DIRECTION_MASK
  {
    var nh := CellDir(cur.head, d);
    && next == cur.(head := nh, applesEaten := cur.applesEaten + 1,
                    snakeSpeed := BASE_SPEED + cur.applesEaten + 1, board := next.board)
    && |next.board| == |cur.board|
    && next.board[cur.head] == SnakeCell(d)
    && next.board[nh] == SnakeCell(d)
    && exists p ::
         && InBoard(p) && p != cur.head && p != nh
         && cur.board[p] == EMPTY && next.board[p] == APPLE
         && SameOutside(cur.board, next.board, {cur.head, nh, p})
  }

  /** The head moved onto a cell whose kind bits are both set: only the head moves. */
  ghost predicate MovedOnly(cur: GameState, d: CellDirection, next: GameState)
    requires WellFormed(cur) && cur.status == Running && d <= DIRECTION_MASK
  {
    var nh := CellDir(cur.head, d);
    && next == cur.(head := nh, board := next.board)
    && SameOutside(cur.board, next.board, {cur.head, nh})
    && next.board[cur.head] == SnakeCell(d)
    && next.board[nh] == SnakeCell(d)
  }

  /** The outcome of advancing the head in direction `d`, decided by the kind
      of the cell it moves onto, read before anything is written. */
  ghost predicate Moved(cur: GameState, d: CellDirection, next: GameState)
    requires WellFormed(cur) && cur.status == Running && d <= DIRECTION_MASK
  {
    var target := TypeOf(cur.board[CellDir(cur.head, d)]);
    if target == SNAKE then Collided(cur, d, next)
    else if target == EMPTY then Slid(cur, d, next)
    else if target == APPLE then Grew(cur, d, next)
    else MovedOnly(cur, d, next)
  }

  /** The transition relation of the game: exit is a dead state; from over,
      quit exits, no input idles and anything else restarts; while running,
      quit exits at once, a same-axis direction is dropped and otherwise the
      head advances. */
  ghost predicate StepsTo(input: Input, cur: GameState, next: GameState)
    requires WellFormed(cur)
  {
    match cur.status
    case Exit => next == cur
    case Over =>
      if input == Quit then next == cur.(status := Exit)
      else if input == None then next == cur
      else IsInitState(next)
    case Running =>
      if input == Quit then next == cur.(status := Exit)
      else if !Advances(input, cur) then next == cur
      else Moved(cur, NewHeadDir(input, cur), next)
  }

  /** The move on `input` eats an apple. */
  predicate EatsApple(input: Input, cur: GameState)
    requires WellFormed(cur)
  {
    && cur.status == Running
    && Advances(input, cur)
    && TypeOf(cur.board[CellDir(cur.head, NewHeadDir(input, cur))]) == APPLE
  }

  /** Some cell other than the head is `EMPTY`, so a new apple can be placed
      after the head has moved. */
  ghost predicate RoomForApple(cur: GameState)
    requires WellFormed(cur)
  {
    exists i :: InBoard(i) && i != cur.head && cur.board[i] == EMPTY
  }

  /** The board after the old and the new head cell have both been set to a
      snake segment travelling in `d`. */
  function Laid(cur: GameState, d: CellDirection): (b: seq<Cell>)
    requires WellFormed(cur) && cur.status == Running && d <= DIRECTION_MASK
    ensures SameOutside(cur.board, b, {cur.head, CellDir(cur.head, d)})
    ensures b[cur.head] == SnakeCell(d) && b[CellDir(cur.head, d)] == SnakeCell(d)
  {
    cur.board[cur.head := MakeCell(SNAKE, d)][CellDir(cur.head, d) := MakeCell(SNAKE, d)]
  }

  lemma LaidCollided(cur: GameState, d: CellDirection)
    requires WellFormed(cur) && cur.status == Running && d <= DIRECTION_MASK
    requires TypeOf(cur.board[CellDir(cur.head, d)]) == SNAKE
    ensures Moved(cur, d, cur.(board := Laid(cur, d), head := CellDir(cur.head, d), status := Over))
  {
  }

  lemma LaidSlid(cur: GameState, d: CellDirection)
    requires WellFormed(cur) && cur.status == Running && d <= DIRECTION_MASK
    requires TypeOf(cur.board[CellDir(cur.head, d)]) == EMPTY
    ensures Moved(cur, d, cur.(board := Laid(cur, d)[cur.tail := EMPTY], head := CellDir(cur.head, d),
                              tail := CellDir(cur.tail, DirOf(cur.board[cur.tail]))))
  {
  }

  lemma LaidGrew(cur: GameState, d: CellDirection, p: int)
    requires WellFormed(cur) && cur.status == Running && d <= DIRECTION_MASK
    requires TypeOf(cur.board[CellDir(cur.head, d)]) == APPLE
    requires InBoard(p) && Laid(cur, d)[p] == EMPTY
    ensures Moved(cur, d, cur.(board := Laid(cur, d)[p := APPLE], head := CellDir(cur.head, d),
                              applesEaten := cur.applesEaten + 1,
                              snakeSpeed := BASE_SPEED + (cur.applesEaten + 1)))
  {
    var nh := CellDir(cur.head, d);
    assert p != cur.head && p != nh;
  }

  lemma LaidMovedOnly(cur: GameState, d: CellDirection)
    requires WellFormed(cur) && cur.status == Running && d <= DIRECTION_MASK
    requires TypeOf(cur.board[CellDir(cur.head, d)]) == TYPE_MASK
    ensures Moved(cur, d, cur.(board := Laid(cur, d), head := CellDir(cur.head, d)))
  {
  }

  /** A tick of a running game that advances moves the head in the new head direction. */
  lemma StepAdvances(input: Input, cur: GameState, next: GameState)
    requires WellFormed(cur) && StepsTo(input, cur, next)
    requires cur.status == Running && Advances(input, cur)
    ensures Moved(cur, NewHeadDir(input, cur), next)
  {
  }

  /** A move onto an empty cell leaves exactly the laid board with the old
      tail cell cleared, and the tail one step further along. */
  lemma SlidState(cur: GameState, d: CellDirection, next: GameState)
    requires WellFormed(cur) && cur.status == Running && d <= DIRECTION_MASK
    requires TypeOf(cur.board[CellDir(cur.head, d)]) == EMPTY && Moved(cur, d, next)
    ensures next == cur.(head := CellDir(cur.head, d),
                         tail := CellDir(cur.tail, DirOf(cur.board[cur.tail])),
                         board := Laid(cur, d)[cur.tail := EMPTY])
  {
  }

  /** A move onto an apple leaves exactly the laid board with one of its
      `EMPTY` cells turned into an apple. */
  lemma GrewState(cur: GameState, d: CellDirection, next: GameState) returns (p: int)
    requires WellFormed(cur) && cur.status == Running && d <= DIRECTION_MASK
    requires TypeOf(cur.board[CellDir(cur.head, d)]) == APPLE && Moved(cur, d, next)
    ensures InBoard(p) && Laid(cur, d)[p] == EMPTY
    ensures next == cur.(head := CellDir(cur.head, d), applesEaten := cur.applesEaten + 1,
                         snakeSpeed := BASE_SPEED + cur.applesEaten + 1,
                         board := Laid(cur, d)[p := APPLE])
  {
    var nh := CellDir(cur.head, d);
    p :| && InBoard(p) && p != cur.head && p != nh
         && cur.board[p] == EMPTY && next.board[p] == APPLE
         && SameOutside(cur.board, next.board, {cur.head, nh, p});
  }

  /** A collision leaves exactly the laid board and ends the game. */
  lemma CollidedState(cur: GameState, d: CellDirection, next: GameState)
    requires WellFormed(cur) && cur.status == Running && d <= DIRECTION_MASK
    requires TypeOf(cur.board[CellDir(cur.head, d)]) == SNAKE && Moved(cur, d, next)
    ensures next == cur.(status := Over, head := CellDir(cur.head, d), board := Laid(cur, d))
  {
  }

  /** Advances a running game one cell in direction `d`: both the old and the
      new head cell record `d`, and what follows depends on the kind of the
      cell the head moved onto. */
  method Advance(cur: GameState, d: CellDirection) returns (next: GameState)
    requires WellFormed(cur) && cur.status == Running && d <= DIRECTION_MASK
    requires TypeOf(cur.board[CellDir(cur.head, d)]) == APPLE ==> RoomForApple(cur)
    ensures Moved(cur, d, next)
    ensures WellFormed(next)
  {
    var nextHeadCell := CellDir(cur.head, d);
    var nextCellType := TypeOf(cur.board[nextHeadCell]);
    next := cur.(board := Laid(cur, d), head := nextHeadCell);

    if nextCellType == SNAKE {
      next := next.(status := Over);
      LaidCollided(cur, d);
    } else if nextCellType == EMPTY {
      next := next.(board := next.board[cur.tail := EMPTY]);
      var tailDir := DirOf(cur.board[cur.tail]);
      next := next.(tail := CellDir(cur.tail, tailDir));
      LaidSlid(cur, d);
    } else if nextCellType == APPLE {
      next := next.(applesEaten := next.applesEaten + 1);
      next := next.(snakeSpeed := BASE_SPEED + next.applesEaten);
      ghost var room :| InBoard(room) && room != cur.head && cur.board[room] == EMPTY;
      assert next.board[room] == EMPTY;
      ghost var laid := next;
      next := SpawnApple(next);
      ghost var p :| InBoard(p) && laid.board[p] == EMPTY && next.board == laid.board[p := APPLE];
      LaidGrew(cur, d, p);
    } else {
      LaidMovedOnly(cur, d);
    }
  }

  /** One tick of the game. */
  method Step(input: Input, cur: GameState) returns (next: GameState)
    requires WellFormed(cur)
    requires EatsApple(input, cur) ==> RoomForApple(cur)
    ensures StepsTo(input, cur, next)
    ensures WellFormed(next)
  {
    next := cur;

    match cur.status {
      case Exit =>

      case Over =>
        if input == Quit {
          next := next.(status := Exit);
        } else if input == None {
        } else {
          next := InitAsWritten();
        }

      case Running =>
        var headDir := DirOf(cur.board[cur.head]);
        if input == Quit {
          next := next.(status := Exit);
          return;
        } else if input != None {
          var userDir := MapCellDirection(input);
          if headDir % 2 != userDir % 2 {
            headDir := userDir;
          } else {
            return;
          }
        }

        next := Advance(cur, headDir);
    }
  }

  /** The transition with the corrected initialisation on restart: the same
      tick as `Step`, except that a restarted game always has its apple off
      the snake. */
  method StepCorrected(input: Input, cur: GameState) returns (next: GameState)
    requires WellFormed(cur)
    requires EatsApple(input, cur) ==> RoomForApple(cur)
    ensures StepsTo(input, cur, next) && WellFormed(next)
    ensures cur.status == Over && input.IsDirectional() ==> IsFreshGame(next)
  {
    if cur.status == Over && input.IsDirectional() {
      next := Init();
    } else {
      next := Step(input, cur);
    }
  }
}
