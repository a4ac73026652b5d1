/** What a tick of the game keeps: the number of snake and apple cells, and
    the path of recorded directions that leads from the tail to the head. */
module SnakeInvariants {
  import opened Grid
  import opened Game

  // ---------------------------------------------------------------------------
  // Counting cells

  /** 1 when the cell has occupancy kind `t`, else 0. */
  function Has(c: Cell, t: CellType): nat
  {
    if TypeOf(c) == t then 1 else 0
  }

  /** The number of cells of `b` whose occupancy kind is `t`. */
  function CountOf(b: seq<Cell>, t: CellType): (n: nat)
    ensures n <= |b|
  {
    if b == [] then 0 else Has(b[0], t) + CountOf(b[1..], t)
  }

  function SnakeCount(b: seq<Cell>): nat { CountOf(b, SNAKE) }

  function AppleCount(b: seq<Cell>): nat { CountOf(b, APPLE) }

  /** Overwriting one cell changes a count by what leaves and what arrives. */
  lemma {:induction false} CountOfUpdate(b: seq<Cell>, i: int, v: Cell, t: CellType)
    requires 0 <= i < |b|
    ensures CountOf(b[i := v], t) == CountOf(b, t) - Has(b[i], t) + Has(v, t)
  {
    if i == 0 {
      assert b[i := v][1..] == b[1..];
    } else {
      assert b[i := v][1..] == b[1..][i - 1 := v];
      CountOfUpdate(b[1..], i - 1, v, t);
    }
  }

  /** A board without a cell of kind `t` counts none. */
  lemma {:induction false} CountOfNone(b: seq<Cell>, t: CellType)
    requires forall i :: 0 <= i < |b| ==> TypeOf(b[i]) != t
    ensures CountOf(b, t) == 0
  {
    if b != [] {
      CountOfNone(b[1..], t);
    }
  }

  /** A board whose only cell of kind `t` is `a` counts one. */
  lemma {:induction false} CountOfOne(b: seq<Cell>, a: int, t: CellType)
    requires 0 <= a < |b|
    requires forall i :: 0 <= i < |b| ==> (TypeOf(b[i]) == t <==> i == a)
    ensures CountOf(b, t) == 1
  {
    if a == 0 {
      CountOfNone(b[1..], t);
    } else {
      CountOfOne(b[1..], a - 1, t);
    }
  }

  /** Setting the old head `h` (a snake cell) and the new head `nh` to the
      snake segment `v` adds one snake cell unless `nh` already was one, and
      removes the apple `nh` may have held. */
  lemma LayingCounts(b: seq<Cell>, h: int, nh: int, v: Cell)
    requires 0 <= h < |b| && 0 <= nh < |b| && IsSnake(b[h]) && IsSnake(v)
    ensures CountOf(b[h := v][nh := v], SNAKE) == CountOf(b, SNAKE) + 1 - Has(b[nh], SNAKE)
    ensures CountOf(b[h := v][nh := v], APPLE) == CountOf(b, APPLE) - Has(b[nh], APPLE)
  {
    CountOfUpdate(b, h, v, SNAKE);
    CountOfUpdate(b, h, v, APPLE);
    CountOfUpdate(b[h := v], nh, v, SNAKE);
    CountOfUpdate(b[h := v], nh, v, APPLE);
  }

  /** The move on `input` from a running state goes onto a cell of kind `t`. */
  predicate MovesOnto(input: Input, cur: GameState, t: CellType)
    requires WellFormed(cur)
  {
    && cur.status == Running
    && Advances(input, cur)
    && TypeOf(cur.board[CellDir(cur.head, NewHeadDir(input, cur))]) == t
  }

  /** A move onto an empty cell keeps the snake's length and the apples:
      one segment is gained at the head and one is lost at the tail. */
  lemma SlideKeepsLength(input: Input, cur: GameState, next: GameState)
    requires WellFormed(cur) && StepsTo(input, cur, next) && MovesOnto(input, cur, EMPTY)
    requires IsSnake(cur.board[cur.head]) && IsSnake(cur.board[cur.tail])
    ensures next.status == Running && next.applesEaten == cur.applesEaten
    ensures next.snakeSpeed == cur.snakeSpeed
    ensures SnakeCount(next.board) == SnakeCount(cur.board)
    ensures AppleCount(next.board) == AppleCount(cur.board)
  {
    var d := NewHeadDir(input, cur);
    var nh := CellDir(cur.head, d);
    StepAdvances(input, cur, next);
    SlidState(cur, d, next);
    var laid := Laid(cur, d);
    LayingCounts(cur.board, cur.head, nh, MakeCell(SNAKE, d));
    assert IsSnake(laid[cur.tail]);
    CountOfUpdate(laid, cur.tail, EMPTY, SNAKE);
    CountOfUpdate(laid, cur.tail, EMPTY, APPLE);
  }

  /** Eating an apple adds exactly one segment, counts the apple, raises the
      speed, keeps the tail and replaces the eaten apple by a new one. */
  lemma GrowthAddsOneSegment(input: Input, cur: GameState, next: GameState)
    requires WellFormed(cur) && StepsTo(input, cur, next) && MovesOnto(input, cur, APPLE)
    requires IsSnake(cur.board[cur.head])
    ensures next.status == Running && next.tail == cur.tail
    ensures next.applesEaten == cur.applesEaten + 1
    ensures next.snakeSpeed == BASE_SPEED + next.applesEaten
    ensures SnakeCount(next.board) == SnakeCount(cur.board) + 1
    ensures AppleCount(next.board) == AppleCount(cur.board)
  {
    var d := NewHeadDir(input, cur);
    var nh := CellDir(cur.head, d);
    StepAdvances(input, cur, next);
    var p := GrewState(cur, d, next);
    var laid := Laid(cur, d);
    LayingCounts(cur.board, cur.head, nh, MakeCell(SNAKE, d));
    CountOfUpdate(laid, p, APPLE, SNAKE);
    CountOfUpdate(laid, p, APPLE, APPLE);
  }

  /** Moving onto the snake's own body ends the game; the tail, the score and
      the number of snake cells stay as they were. */
  lemma CollisionEndsGame(input: Input, cur: GameState, next: GameState)
    requires WellFormed(cur) && StepsTo(input, cur, next) && MovesOnto(input, cur, SNAKE)
    requires IsSnake(cur.board[cur.head])
    ensures next.status == Over && next.tail == cur.tail
    ensures next.applesEaten == cur.applesEaten && next.snakeSpeed == cur.snakeSpeed
    ensures SnakeCount(next.board) == SnakeCount(cur.board)
  {
    var d := NewHeadDir(input, cur);
    StepAdvances(input, cur, next);
    CollidedState(cur, d, next);
    LayingCounts(cur.board, cur.head, CellDir(cur.head, d), MakeCell(SNAKE, d));
  }

  /** Running into a wall is a collision: the clamped neighbour of a head on
      the edge it moves towards is the head itself, which is snake. */
  lemma WallContactEndsGame(input: Input, cur: GameState, next: GameState)
    requires WellFormed(cur) && StepsTo(input, cur, next)
    requires cur.status == Running && Advances(input, cur)
    requires AtEdge(cur.head, NewHeadDir(input, cur)) && IsSnake(cur.board[cur.head])
    ensures next.status == Over && next.head == cur.head
  {
    var d := NewHeadDir(input, cur);
    CellDirIsClampedStep(cur.head, d);
    StepAdvances(input, cur, next);
    CollidedState(cur, d, next);
  }

  // ---------------------------------------------------------------------------
  // The first apple

  /** Placing the first apple before laying the snake lets the snake cover
      it: an initial state whose apple fell on one of the three snake cells
      has no apple on the board at all. */
  lemma CoveredFirstApple(apple: int)
    requires INIT_TAIL <= apple <= INIT_HEAD
    ensures IsInitState(GameState(Running, InitialBoard(apple), INIT_HEAD, INIT_TAIL, 0, BASE_SPEED))
    ensures AppleCount(InitialBoard(apple)) == 0
  {
    var gs := GameState(Running, InitialBoard(apple), INIT_HEAD, INIT_TAIL, 0, BASE_SPEED);
    assert IsInitStateWith(gs, apple);
    var b := InitialBoard(apple);
    forall i | 0 <= i < |b|
      ensures TypeOf(b[i]) != APPLE
    {
      if INIT_TAIL <= i <= INIT_HEAD {
        assert b[i] == SnakeCell(RIGHT);
      } else {
        assert b[i] == EMPTY;
      }
    }
    CountOfNone(b, APPLE);
  }

  /** A fresh game has exactly one apple on the board. */
  lemma FreshGameHasOneApple(gs: GameState)
    requires IsFreshGame(gs)
    ensures AppleCount(gs.board) == 1
  {
    var apple :| IsInitStateWith(gs, apple) && !(INIT_TAIL <= apple <= INIT_HEAD);
    var b := gs.board;
    forall i | 0 <= i < |b|
      ensures TypeOf(b[i]) == APPLE <==> i == apple
    {
      if INIT_TAIL <= i <= INIT_HEAD {
        assert b[i] == SnakeCell(RIGHT);
      } else if i == apple {
        assert b[i] == APPLE;
      } else {
        assert b[i] == EMPTY;
      }
    }
    CountOfOne(b, apple, APPLE);
  }

  // ---------------------------------------------------------------------------
  // The tail-to-head path

  /** Every cell of `path` is a snake cell of `b`. */
  ghost predicate OnSnake(b: seq<Cell>, path: seq<int>)
  {
    forall k :: 0 <= k < |path| ==> InBoard(path[k]) && 0 <= path[k] < |b| && IsSnake(b[path[k]])
  }

  /** No cell occurs twice in `path`. */
  ghost predicate Distinct(path: seq<int>)
  {
    forall j, k :: 0 <= j < k < |path| ==> path[j] != path[k]
  }

  /** The direction recorded in each cell of `path` leads to the next cell of `path`. */
  ghost predicate Linked(b: seq<Cell>, path: seq<int>)
    requires OnSnake(b, path)
  {
    forall k :: 0 <= k < |path| - 1 ==> CellDir(path[k], DirOf(b[path[k]])) == path[k + 1]
  }

  /** Every snake cell of `b` is on `path`. */
  ghost predicate OnlySnake(b: seq<Cell>, path: seq<int>)
  {
    forall i :: 0 <= i < |b| && IsSnake(b[i]) ==> i in path
  }

  /** Every cell of `b` holds one of the three occupancy kinds. */
  ghost predicate WellTyped(b: seq<Cell>)
  {
    forall i :: 0 <= i < |b| ==> IsCellType(TypeOf(b[i]))
  }

  /** The snake lies along `path`, listed from tail to head: its cells are
      distinct snake cells, the direction recorded in each cell leads to the
      next one, no other cell is snake, and every cell holds one of the three
      occupancy kinds. */
  ghost predicate Traces(b: seq<Cell>, path: seq<int>)
  {
    && |b| == BOARD_SIZE
    && |path| >= 1
    && OnSnake(b, path)
    && Distinct(path)
    && Linked(b, path)
    && OnlySnake(b, path)
    && WellTyped(b)
  }

  /** The state's snake lies along `path`, from its tail to its head. */
  ghost predicate TracesSnake(gs: GameState, path: seq<int>)
  {
    Traces(gs.board, path) && gs.tail == path[0] && gs.head == path[|path| - 1]
  }

  /** The initial board holds the three-cell snake along the tail, middle and
      head cells, wherever the first apple fell. */
  lemma InitialBoardTraced(apple: int)
    requires InBoard(apple)
    ensures Traces(InitialBoard(apple), [INIT_TAIL, INIT_TAIL + 1, INIT_HEAD])
  {
    var b := InitialBoard(apple);
    var path := [INIT_TAIL, INIT_TAIL + 1, INIT_HEAD];
    assert INIT_HEAD == 210;
    assert b[INIT_TAIL] == b[INIT_TAIL + 1] == b[INIT_HEAD] == SnakeCell(RIGHT);
    assert CellDir(INIT_TAIL, RIGHT) == INIT_TAIL + 1;
    assert CellDir(INIT_TAIL + 1, RIGHT) == INIT_HEAD;
    assert OnSnake(b, path);
    assert Linked(b, path) by {
      forall k | 0 <= k < |path| - 1
        ensures CellDir(path[k], DirOf(b[path[k]])) == path[k + 1]
      {
        if k == 0 {} else {}
      }
    }
    forall i | 0 <= i < BOARD_SIZE
      ensures IsCellType(TypeOf(b[i]))
      ensures IsSnake(b[i]) ==> i in path
    {
      if INIT_TAIL <= i <= INIT_HEAD {
        assert b[i] == SnakeCell(RIGHT);
        assert i == path[i - INIT_TAIL];
      } else if i == apple {
        assert b[i] == APPLE;
      } else {
        assert b[i] == EMPTY;
      }
    }
  }

  /** A freshly initialised game is traced from its tail to its head. */
  lemma InitIsTraced(gs: GameState)
    requires IsInitState(gs)
    ensures TracesSnake(gs, [INIT_TAIL, INIT_TAIL + 1, INIT_HEAD])
  {
    var apple :| IsInitStateWith(gs, apple);
    InitialBoardTraced(apple);
  }

  // Moving onto an empty cell. `b'` is `b` with the tail cell `path[0]`
  // cleared and the head `h` and the new head `nh` holding the segment `v`.

  ghost predicate Shifted(b: seq<Cell>, b': seq<Cell>, path: seq<int>, nh: int, v: Cell)
    requires |path| >= 1
  {
    |b'| == |b| &&
    forall i :: 0 <= i < |b| ==>
      b'[i] == if i == path[0] then EMPTY else if i == path[|path| - 1] || i == nh then v else b[i]
  }

  lemma ShiftOnSnake(b: seq<Cell>, b': seq<Cell>, path: seq<int>, nh: int, v: Cell)
    requires |path| >= 2 && OnSnake(b, path) && Distinct(path) && InBoard(nh) && nh < |b|
    requires nh != path[0] && IsSnake(v) && Shifted(b, b', path, nh, v)
    ensures OnSnake(b', path[1..] + [nh])
  {
    var path' := path[1..] + [nh];
    forall k | 0 <= k < |path'|
      ensures InBoard(path'[k]) && 0 <= path'[k] < |b'| && IsSnake(b'[path'[k]])
    {
      if k < |path'| - 1 {
        assert path'[k] == path[k + 1];
      }
    }
  }

  lemma ShiftDistinct(b: seq<Cell>, path: seq<int>, nh: int)
    requires |path| >= 2 && Distinct(path) && nh !in path
    ensures Distinct(path[1..] + [nh])
  {
    var path' := path[1..] + [nh];
    forall j, k | 0 <= j < k < |path'|
      ensures path'[j] != path'[k]
    {
      assert path'[j] == path[j + 1];
      if k < |path'| - 1 {
        assert path'[k] == path[k + 1];
      }
    }
  }

  lemma ShiftLinked(b: seq<Cell>, b': seq<Cell>, path: seq<int>, nh: int, v: Cell)
    requires |path| >= 2 && OnSnake(b, path) && Distinct(path) && Linked(b, path)
    requires InBoard(nh) && nh < |b| && nh !in path
    requires IsSnake(v) && CellDir(path[|path| - 1], DirOf(v)) == nh && Shifted(b, b', path, nh, v)
    requires OnSnake(b', path[1..] + [nh])
    ensures Linked(b', path[1..] + [nh])
  {
    var path' := path[1..] + [nh];
    var last := |path| - 1;
    forall k | 0 <= k < |path'| - 1
      ensures CellDir(path'[k], DirOf(b'[path'[k]])) == path'[k + 1]
    {
      assert path'[k] == path[k + 1];
      if k + 1 < last {
        assert path[k + 1] != path[0] && path[k + 1] != path[last];
        assert path'[k + 1] == path[k + 2];
      }
    }
  }

  lemma ShiftOnlySnake(b: seq<Cell>, b': seq<Cell>, path: seq<int>, nh: int, v: Cell)
    requires |path| >= 2 && OnlySnake(b, path) && Shifted(b, b', path, nh, v)
    ensures OnlySnake(b', path[1..] + [nh])
  {
    var path' := path[1..] + [nh];
    var last := |path| - 1;
    forall i | 0 <= i < |b'| && IsSnake(b'[i])
      ensures i in path'
    {
      if i == nh {
        assert path'[|path'| - 1] == i;
      } else if i == path[last] {
        assert path'[last - 1] == i;
      } else {
        var k :| 0 <= k < |path| && path[k] == i;
        assert path'[k - 1] == i;
      }
    }
  }

  /** Laying the head onto an empty cell and clearing the tail cell shifts the
      path by one: it loses the old tail and gains the new head. */
  lemma ShiftTrace(b: seq<Cell>, path: seq<int>, d: CellDirection)
    requires Traces(b, path) && |path| >= 2 && d <= DIRECTION_MASK
    requires TypeOf(b[CellDir(path[|path| - 1], d)]) == EMPTY
    ensures Traces(b[path[|path| - 1] := MakeCell(SNAKE, d)]
                    [CellDir(path[|path| - 1], d) := MakeCell(SNAKE, d)]
                    [path[0] := EMPTY],
                   path[1..] + [CellDir(path[|path| - 1], d)])
  {
    var h, t := path[|path| - 1], path[0];
    var nh := CellDir(h, d);
    var v := MakeCell(SNAKE, d);
    var b' := b[h := v][nh := v][t := EMPTY];
    assert nh !in path;
    assert Shifted(b, b', path, nh, v);
    ShiftOnSnake(b, b', path, nh, v);
    ShiftDistinct(b, path, nh);
    ShiftLinked(b, b', path, nh, v);
    ShiftOnlySnake(b, b', path, nh, v);
  }

  // Moving onto an apple. `b'` is `b` with the head `h` and the new head `nh`
  // holding the segment `v` and the new apple on `p`.

  ghost predicate Extended(b: seq<Cell>, b': seq<Cell>, path: seq<int>, nh: int, v: Cell, p: int)
    requires |path| >= 1
  {
    |b'| == |b| &&
    forall i :: 0 <= i < |b| ==>
      b'[i] == if i == p then APPLE else if i == path[|path| - 1] || i == nh then v else b[i]
  }

  lemma ExtendOnSnake(b: seq<Cell>, b': seq<Cell>, path: seq<int>, nh: int, v: Cell, p: int)
    requires |path| >= 1 && OnSnake(b, path) && InBoard(nh) && nh < |b| && p !in path && p != nh
    requires IsSnake(v) && Extended(b, b', path, nh, v, p)
    ensures OnSnake(b', path + [nh])
  {
    var path' := path + [nh];
    forall k | 0 <= k < |path'|
      ensures InBoard(path'[k]) && 0 <= path'[k] < |b'| && IsSnake(b'[path'[k]])
    {
      if k < |path| {
        assert path'[k] == path[k];
      }
    }
  }

  lemma ExtendDistinct(path: seq<int>, nh: int)
    requires Distinct(path) && nh !in path
    ensures Distinct(path + [nh])
  {
    var path' := path + [nh];
    forall j, k | 0 <= j < k < |path'|
      ensures path'[j] != path'[k]
    {
      assert path'[j] == path[j];
    }
  }

  lemma ExtendLinked(b: seq<Cell>, b': seq<Cell>, path: seq<int>, nh: int, v: Cell, p: int)
    requires |path| >= 1 && OnSnake(b, path) && Distinct(path) && Linked(b, path) && p !in path
    requires CellDir(path[|path| - 1], DirOf(v)) == nh && Extended(b, b', path, nh, v, p)
    requires nh !in path && OnSnake(b', path + [nh])
    ensures Linked(b', path + [nh])
  {
    var path' := path + [nh];
    var last := |path| - 1;
    forall k | 0 <= k < |path'| - 1
      ensures CellDir(path'[k], DirOf(b'[path'[k]])) == path'[k + 1]
    {
      assert path'[k] == path[k];
      if k < last {
        assert path[k] != path[last];
        assert path'[k + 1] == path[k + 1];
      }
    }
  }

  lemma ExtendOnlySnake(b: seq<Cell>, b': seq<Cell>, path: seq<int>, nh: int, v: Cell, p: int)
    requires |path| >= 1 && OnlySnake(b, path) && Extended(b, b', path, nh, v, p)
    ensures OnlySnake(b', path + [nh])
  {
    var path' := path + [nh];
    forall i | 0 <= i < |b'| && IsSnake(b'[i])
      ensures i in path'
    {
      if i == nh {
        assert path'[|path'| - 1] == i;
      } else if i == path[|path| - 1] {
        assert path'[|path| - 1] == i;
      } else {
        var k :| 0 <= k < |path| && path[k] == i;
        assert path'[k] == i;
      }
    }
  }

  /** Laying the head onto an apple and placing a new apple on an empty cell
      extends the path by the new head. */
  lemma ExtendTrace(b: seq<Cell>, path: seq<int>, d: CellDirection, p: int)
    requires Traces(b, path) && d <= DIRECTION_MASK
    requires TypeOf(b[CellDir(path[|path| - 1], d)]) == APPLE
    requires InBoard(p)
    requires b[path[|path| - 1] := MakeCell(SNAKE, d)]
              [CellDir(path[|path| - 1], d) := MakeCell(SNAKE, d)][p] == EMPTY
    ensures Traces(b[path[|path| - 1] := MakeCell(SNAKE, d)]
                    [CellDir(path[|path| - 1], d) := MakeCell(SNAKE, d)]
                    [p := APPLE],
                   path + [CellDir(path[|path| - 1], d)])
  {
    var h := path[|path| - 1];
    var nh := CellDir(h, d);
    var v := MakeCell(SNAKE, d);
    var b' := b[h := v][nh := v][p := APPLE];
    assert p != h && p != nh;
    assert nh !in path && p !in path;
    assert Extended(b, b', path, nh, v, p);
    ExtendOnSnake(b, b', path, nh, v, p);
    ExtendDistinct(path, nh);
    ExtendLinked(b, b', path, nh, v, p);
    ExtendOnlySnake(b, b', path, nh, v, p);
  }

  /** Every tick of a running game whose snake is traced along a path of at
      least two cells leaves, if the game is still running, a snake traced
      along a path that is no shorter. */
  lemma StepKeepsTrace(input: Input, cur: GameState, next: GameState, path: seq<int>)
    requires WellFormed(cur) && cur.status == Running && StepsTo(input, cur, next)
    requires TracesSnake(cur, path) && |path| >= 2
    ensures next.status == Running ==>
              exists path' :: |path'| >= |path| && TracesSnake(next, path')
  {
    if Advances(input, cur) {
      var d := NewHeadDir(input, cur);
      var nh := CellDir(cur.head, d);
      StepAdvances(input, cur, next);
      var target := TypeOf(cur.board[nh]);
      assert IsCellType(target);
      if target == EMPTY {
        SlidState(cur, d, next);
        ShiftTrace(cur.board, path, d);
        var path' := path[1..] + [nh];
        assert CellDir(path[0], DirOf(cur.board[path[0]])) == path[1];
        assert TracesSnake(next, path');
      } else if target == APPLE {
        var p := GrewState(cur, d, next);
        ExtendTrace(cur.board, path, d, p);
        assert TracesSnake(next, path + [nh]);
      }
    } else if input != Quit {
      assert TracesSnake(next, path);
    }
  }

  /** While the game runs with a traced snake, the single apple on the board
      stays single: a slide leaves it alone and eating it places another. */
  lemma StepKeepsOneApple(input: Input, cur: GameState, next: GameState, path: seq<int>)
    requires WellFormed(cur) && cur.status == Running && StepsTo(input, cur, next)
    requires TracesSnake(cur, path) && AppleCount(cur.board) == 1
    ensures next.status == Running ==> AppleCount(next.board) == 1
  {
    assert IsSnake(cur.board[path[0]]) && IsSnake(cur.board[path[|path| - 1]]);
    if Advances(input, cur) {
      var target := TypeOf(cur.board[CellDir(cur.head, NewHeadDir(input, cur))]);
      assert IsCellType(target);
      if target == EMPTY {
        SlideKeepsLength(input, cur, next);
      } else if target == APPLE {
        GrowthAddsOneSegment(input, cur, next);
      }
    }
  }

  /** From a finished game, a directional input restarts it: the new game is
      running with a zero score, its three-cell snake is traced from tail to
      head and at most one apple is on the board (none when the first apple
      fell under the snake). */
  lemma RestartIsInitState(input: Input, cur: GameState, next: GameState)
    requires WellFormed(cur) && cur.status == Over && input.IsDirectional()
    requires StepsTo(input, cur, next)
    ensures next.status == Running && next.applesEaten == 0 && next.snakeSpeed == BASE_SPEED
    ensures TracesSnake(next, [INIT_TAIL, INIT_TAIL + 1, INIT_HEAD])
    ensures AppleCount(next.board) <= 1
  {
    InitIsTraced(next);
    var apple :| IsInitStateWith(next, apple);
    if INIT_TAIL <= apple <= INIT_HEAD {
      CoveredFirstApple(apple);
    } else {
      FreshGameHasOneApple(next);
    }
  }

  /** A board whose count of kind `t` is zero has no cell of kind `t`. */
  lemma {:induction false} CountOfZero(b: seq<Cell>, t: CellType)
    requires CountOf(b, t) == 0
    ensures forall i :: 0 <= i < |b| ==> TypeOf(b[i]) != t
  {
    if b != [] {
      CountOfZero(b[1..], t);
      forall i | 1 <= i < |b|
        ensures TypeOf(b[i]) != t
      {
        assert b[i] == b[1..][i - 1];
      }
    }
  }

  /** A running game with no apple on the board never scores again: no tick
      changes the score, and a tick that keeps the game running leaves the
      board without an apple. */
  lemma NoAppleNoScore(input: Input, cur: GameState, next: GameState, path: seq<int>)
    requires WellFormed(cur) && cur.status == Running && StepsTo(input, cur, next)
    requires TracesSnake(cur, path) && AppleCount(cur.board) == 0
    ensures next.applesEaten == cur.applesEaten
    ensures next.status == Running ==> AppleCount(next.board) == 0
  {
    assert IsSnake(cur.board[path[0]]) && IsSnake(cur.board[path[|path| - 1]]);
    if Advances(input, cur) {
      var nh := CellDir(cur.head, NewHeadDir(input, cur));
      CountOfZero(cur.board, APPLE);
      var target := TypeOf(cur.board[nh]);
      assert IsCellType(target) && target != APPLE;
      if target == EMPTY {
        SlideKeepsLength(input, cur, next);
      } else {
        CollisionEndsGame(input, cur, next);
      }
    }
  }
}
