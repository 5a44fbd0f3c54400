/**
 * The game-state machine: the snake, the score, the stored direction and the
 * board, with the key handler, the move run by the interval, and the start
 * and end transitions. Rendering, the timer and the key listener are left
 * out; `running` stands for "the interval and the listener are attached".
 */
module Game {
  import opened Options
  import opened Boards
  import opened Directions

  /** The snake `["00", "01", "02", "03"]` a game starts with, oldest segment first. */
  const InitialSnake: seq<int> := [0, 1, 2, 3]

  /** The game variables; the snake's head is its last segment. */
  datatype State = State(snake: seq<int>, score: nat, direction: Direction, board: Board, running: bool)

  /** The shape the operations need: a full board, a non-empty snake of cell indices. */
  predicate WellFormed(g: State) {
    Shaped(g.board) && |g.snake| >= 1 && AllInRange(g.snake)
  }

  /**
   * What holds of every state a game reaches: the free list mirrors the grid,
   * the snake has no repeated cell and is exactly the set of SNAKE cells, there
   * is at most one FOOD cell, and the score counts the segments grown since
   * the start.
   */
  predicate Valid(g: State) {
    && WellFormed(g)
    && Mirrors(g.board)
    && Distinct(g.snake)
    && (forall c :: 0 <= c < Cells ==> (g.board.grid[c] == Snake <==> c in g.snake))
    && AtMostOne(g.board.grid, Food)
    && g.score + |InitialSnake| == |g.snake|
  }

  function Head(g: State): int
    requires |g.snake| >= 1
  {
    g.snake[|g.snake| - 1]
  }

  /** `Number(head) + DIRECTIONS[direction]`: the index the head moves to. */
  function NextHead(g: State): int
    requires |g.snake| >= 1
  {
    Head(g) + Delta(g.direction)
  }

  /**
   * `handleDirectionEvent`, attached only while the game runs. An arrow key
   * replaces the stored direction unless it is that direction's opposite;
   * every other key is ignored.
   */
  function HandleDirectionEvent(g: State, code: string): (r: State)
    ensures !g.running ==> r == g
    ensures r == g.(direction := r.direction)
    ensures r.direction != Opposite(g.direction)
    ensures r.direction != g.direction ==> g.running && Code(r.direction) == code
    ensures g.running && Parse(code).Some? && Parse(code) != Some(Opposite(g.direction)) ==>
      Code(r.direction) == code
  {
    if !g.running then g
    else
      match Parse(code)
      case Some(d) => if Opposite(g.direction) != d then g.(direction := d) else g
      case None => g
  }

  /**
   * The first four tests of `isGameOver`: the index leaves 0..99, or a move
   * right lands in column 0, or a move left lands in column 9.
   */
  predicate HitsBoundary(next: int, d: Direction)
    ensures !HitsBoundary(next, d) ==> InRange(next)
    ensures InRange(next) && d in {Up, Down} ==> !HitsBoundary(next, d)
  {
    || next < 0
    || next >= Cells
    || (d == Right && Col(next) == 0)
    || (d == Left && Col(next) == Size - 1)
  }

  /** A step of d from the cell `head` leaves the 10 x 10 board. */
  predicate LeavesBoard(head: int, d: Direction) {
    var row, col := Row(head) + RowStep(d), Col(head) + ColStep(d);
    !(0 <= row < Size && 0 <= col < Size)
  }

  /** `isGameOver`; the grid is read only when the boundary tests all fail. */
  predicate IsGameOver(g: State, next: int)
    requires |g.board.grid| == Cells
    ensures !IsGameOver(g, next) ==> InRange(next) && g.board.grid[next] != Snake
    ensures InRange(next) && g.board.grid[next] == Snake ==> IsGameOver(g, next)
  {
    HitsBoundary(next, g.direction) || g.board.grid[next] == Snake
  }

  /** `endGame`: the interval and the key listener go; nothing else changes. */
  function EndGame(g: State): (r: State)
    ensures !r.running
    ensures r.snake == g.snake && r.score == g.score && r.direction == g.direction && r.board == g.board
  {
    g.(running := false)
  }

  /**
   * `updateSnakePosition`: the new head is pushed; on FOOD the score goes up
   * and new food is placed, otherwise the oldest segment is shifted off and
   * drawn EMPTY; then every segment is drawn SNAKE.
   */
  function UpdateSnakePosition(g: State, next: int, pick: nat): (r: State)
    requires WellFormed(g) && InRange(next) && PickOk(g.board, pick)
    ensures WellFormed(r)
    ensures r.running == g.running && r.direction == g.direction
    ensures r.snake[|r.snake| - 1] == next
    ensures r.score - g.score == |r.snake| - |g.snake|
    ensures r.score == g.score + 1 <==> g.board.grid[next] == Food
    ensures r.score == g.score <==> g.board.grid[next] != Food
  {
    if g.board.grid[next] == Food then Grow(g, next, pick) else Slide(g, next)
  }

  /** The FOOD branch of `updateSnakePosition`: push the head, score, place new food, draw the body. */
  function Grow(g: State, next: int, pick: nat): (r: State)
    requires WellFormed(g) && InRange(next) && PickOk(g.board, pick)
    ensures WellFormed(r)
    ensures r.running == g.running && r.direction == g.direction
    ensures |r.snake| == |g.snake| + 1 && r.score == g.score + 1
    ensures r.snake[..|g.snake|] == g.snake && r.snake[|g.snake|] == next
  {
    var pushed := g.snake + [next];
    g.(snake := pushed, score := g.score + 1, board := DrawAll(CreateRandomFood(g.board, pick), pushed, Snake))
  }

  /** The other branch of `updateSnakePosition`: push the head, shift off the tail and draw it EMPTY, draw the body. */
  function Slide(g: State, next: int): (r: State)
    requires WellFormed(g) && InRange(next)
    ensures WellFormed(r)
    ensures r.running == g.running && r.direction == g.direction
    ensures |r.snake| == |g.snake| && r.score == g.score
    ensures r.snake[..|g.snake| - 1] == g.snake[1..] && r.snake[|g.snake| - 1] == next
  {
    PushShift(g.snake, next);
    var pushed := g.snake + [next];
    var moved := g.(snake := pushed[1..], board := DrawSquare(g.board, pushed[0], Empty));
    moved.(board := DrawAll(moved.board, moved.snake, Snake))
  }

  /**
   * `moveSnake`, called by the interval. Once the game is over the interval
   * is cleared, so a call changes nothing.
   */
  function MoveSnake(g: State, pick: nat): (r: State)
    requires WellFormed(g) && PickOk(g.board, pick)
    ensures WellFormed(r)
    ensures !g.running ==> r == g
    ensures g.running ==> (r.running <==> !IsGameOver(g, NextHead(g)))
    ensures !r.running ==> r.snake == g.snake && r.score == g.score && r.board == g.board
    ensures r.direction == g.direction
  {
    if !g.running then g
    else
      var next := NextHead(g);
      if IsGameOver(g, next) then EndGame(g) else UpdateSnakePosition(g, next, pick)
  }

  /**
   * `startGame`: `initializeGame` resets the snake, the score and the
   * direction and has `createBoard` build a fresh board; the snake is drawn;
   * food is placed on the free cell at position `pick`; the listener and the
   * interval are attached. Nothing is carried over from an earlier game.
   */
  method StartGame(pick: nat) returns (r: State)
    requires pick < Cells - |InitialSnake|
    ensures Valid(r)
    ensures r.snake == InitialSnake && r.score == 0 && r.direction == Right && r.running
    ensures forall c :: 0 <= c < Cells ==> (r.board.grid[c] == Snake <==> c < |InitialSnake|)
    ensures forall c :: 0 <= c < Cells ==> (r.board.grid[c] == Food <==> c == |InitialSnake| + pick)
    ensures |r.board.free| == Cells - |InitialSnake| - 1
  {
    var board := CreateBoard();
    assert board.free[..|InitialSnake|] == InitialSnake;
    assert board.free[|InitialSnake| + pick] == |InitialSnake| + pick;
    FreshStart(board, InitialSnake, pick);
    var drawn := DrawAll(board, InitialSnake, Snake);
    r := State(InitialSnake, 0, Right, CreateRandomFood(drawn, pick), true);
    InitialSnakeCells(r.board.grid);
  }

  /** The initial snake occupies exactly the first cells of the board. */
  lemma InitialSnakeCells(grid: seq<Square>)
    requires |grid| == Cells
    requires forall c :: 0 <= c < Cells ==> (grid[c] == Snake <==> c in InitialSnake)
    ensures forall c :: 0 <= c < Cells ==> (grid[c] == Snake <==> c < |InitialSnake|)
  {
  }

  /**
   * The state `startGame` reaches from an all-EMPTY board whose free list
   * opens with the cells of the snake: exactly the snake's cells are SNAKE,
   * the food is on the free-list entry `pick` places after them, and the
   * invariant holds.
   */
  lemma FreshStart(board: Board, snake: seq<int>, pick: nat)
    requires Mirrors(board)
    requires forall c :: 0 <= c < Cells ==> board.grid[c] == Empty
    requires |snake| == |InitialSnake| && |snake| + pick < |board.free|
    requires board.free[..|snake|] == snake
    ensures Shaped(DrawAll(board, snake, Snake))
    ensures PickOk(DrawAll(board, snake, Snake), pick)
    ensures var r := State(snake, 0, Right, CreateRandomFood(DrawAll(board, snake, Snake), pick), true);
      && Valid(r)
      && (forall c :: 0 <= c < Cells ==> (r.board.grid[c] == Snake <==> c in snake))
      && (forall c :: 0 <= c < Cells ==> (r.board.grid[c] == Food <==> c == board.free[|snake| + pick]))
      && |r.board.free| == |board.free| - |snake| - 1
  {
    assert Distinct(snake) && AllInRange(snake) by {
      forall k | 0 <= k < |snake| ensures snake[k] == board.free[k] { }
    }
    FreshBoard(board, snake, pick);
  }

  /** The board half of `FreshStart`: drawing the snake over the front of the free list, then the food. */
  lemma FreshBoard(board: Board, snake: seq<int>, pick: nat)
    requires Mirrors(board)
    requires forall c :: 0 <= c < Cells ==> board.grid[c] == Empty
    requires |snake| + pick < |board.free|
    requires board.free[..|snake|] == snake
    ensures Shaped(DrawAll(board, snake, Snake))
    ensures PickOk(DrawAll(board, snake, Snake), pick)
    ensures var fed := CreateRandomFood(DrawAll(board, snake, Snake), pick);
      && Mirrors(fed)
      && (forall c :: 0 <= c < Cells ==> (fed.grid[c] == Snake <==> c in snake))
      && (forall c :: 0 <= c < Cells ==> (fed.grid[c] == Food <==> c == board.free[|snake| + pick]))
      && AtMostOne(fed.grid, Food)
      && |fed.free| == |board.free| - |snake| - 1
  {
    var rest := board.free[|snake|..];
    assert board.free == snake + rest;
    DrawOverFreeFront(board, snake, rest, Snake);
    var drawn := DrawAll(board, snake, Snake);
    var f := drawn.free[pick];
    assert f == board.free[|snake| + pick];
    var fed := CreateRandomFood(drawn, pick);
    assert fed.grid == drawn.grid[f := Food];
    forall c | 0 <= c < Cells
      ensures fed.grid[c] == Food <==> c == f
      ensures fed.grid[c] == Snake <==> c in snake
    {
      if c != f {
        assert fed.grid[c] == drawn.grid[c];
      }
    }
  }

  // Properties of the transitions.

  /**
   * For a head on the board, the first four tests of `isGameOver` fire
   * exactly when the geometric step leaves the 10 x 10 board; when they do
   * not, the flattened sum is the index of the cell one step away.
   */
  lemma BoundaryIsGeometric(head: int, d: Direction)
    requires InRange(head)
    ensures HitsBoundary(head + Delta(d), d) <==> LeavesBoard(head, d)
    ensures !LeavesBoard(head, d) ==>
      head + Delta(d) == Size * (Row(head) + RowStep(d)) + (Col(head) + ColStep(d))
  {
    var row, col := Row(head), Col(head);
    assert head == Size * row + col && 0 <= row < Size && 0 <= col < Size;
    var next := head + Delta(d);
    match d {
      case Up =>
      case Down =>
      case Left =>
        if col == 0 {
          if row > 0 {
            assert next == Size * (row - 1) + (Size - 1);
          }
        } else {
          assert next == Size * row + (col - 1);
        }
      case Right =>
        if col == Size - 1 {
          assert next == Size * (row + 1);
        } else {
          assert next == Size * row + (col + 1);
        }
    }
  }

  /** A move whose target is a snake segment, the current tail included, ends the game and changes nothing else. */
  lemma SelfCollisionEndsGame(g: State, pick: nat)
    requires Valid(g) && g.running && PickOk(g.board, pick)
    requires NextHead(g) in g.snake
    ensures MoveSnake(g, pick) == EndGame(g)
  {
    var k :| 0 <= k < |g.snake| && g.snake[k] == NextHead(g);
    assert InRange(g.snake[k]);
  }

  /** The segments after a plain move: drop the oldest, append the new head. */
  lemma {:induction false} AdvanceSegments(s: seq<int>, next: int)
    requires |s| >= 1 && Distinct(s) && next !in s
    ensures Distinct(s[1..] + [next])
    ensures s[0] !in s[1..] + [next]
    ensures forall c :: c in s && c != s[0] ==> c in s[1..] + [next]
  {
    var s' := s[1..] + [next];
    forall k | 0 <= k < |s'|
      ensures s'[k] != s[0]
    {
      if k < |s| - 1 { assert s'[k] == s[k + 1]; }
    }
    forall i, j | 0 <= i < j < |s'|
      ensures s'[i] != s'[j]
    {
      assert s'[i] == s[i + 1];
      if j < |s| - 1 { assert s'[j] == s[j + 1]; }
    }
    forall c | c in s && c != s[0]
      ensures c in s'
    {
      var k :| 0 <= k < |s| && s[k] == c;
      assert s'[k - 1] == c;
    }
  }

  /**
   * Pushing onto a non-empty sequence and shifting off its front is dropping
   * the front and appending: the old body without its first element comes
   * first and x last.
   */
  lemma PushShift(s: seq<int>, x: int)
    requires |s| >= 1
    ensures (s + [x])[1..] == s[1..] + [x]
    ensures (s + [x])[0] == s[0]
    ensures |(s + [x])[1..]| == |s|
    ensures (s + [x])[1..][..|s| - 1] == s[1..] && (s + [x])[1..][|s| - 1] == x
  {
    assert (s + [x])[1..] == s[1..] + [x];
  }

  /** The board after a plain move: the old tail freed, then every segment of the new body drawn SNAKE. */
  lemma AdvanceBoard(b: Board, s: seq<int>, next: int)
    requires Mirrors(b) && AtMostOne(b.grid, Food)
    requires |s| >= 1 && Distinct(s) && AllInRange(s)
    requires forall c :: 0 <= c < Cells ==> (b.grid[c] == Snake <==> c in s)
    requires InRange(next) && b.grid[next] == Empty
    ensures var b' := DrawAll(DrawSquare(b, s[0], Empty), s[1..] + [next], Snake);
      && Mirrors(b')
      && AtMostOne(b'.grid, Food)
      && b'.grid == b.grid[s[0] := Empty][next := Snake]
      && forall c :: 0 <= c < Cells ==> (b'.grid[c] == Snake <==> c in s[1..] + [next])
  {
    AdvanceSegments(s, next);
    AdvanceGrid(b, s, next);
    AdvanceSnakeCells(b.grid, s, next);
    AdvanceFood(b.grid, s[0], next);
  }

  /** Freeing the tail and marking the new head moves the SNAKE cells from s to its shifted body. */
  lemma AdvanceSnakeCells(grid: seq<Square>, s: seq<int>, next: int)
    requires |grid| == Cells
    requires |s| >= 1 && InRange(s[0]) && s[0] !in s[1..]
    requires forall c :: 0 <= c < Cells ==> (grid[c] == Snake <==> c in s)
    requires InRange(next) && grid[next] == Empty
    ensures forall c :: 0 <= c < Cells ==> (grid[s[0] := Empty][next := Snake][c] == Snake <==> c in s[1..] + [next])
  {
    var g' := grid[s[0] := Empty][next := Snake];
    forall c | 0 <= c < Cells
      ensures g'[c] == Snake <==> c in s[1..] + [next]
    {
      if c != next && c != s[0] {
        assert g'[c] == grid[c];
        assert c in s <==> c in s[1..];
      }
    }
  }

  /** Writing EMPTY over a SNAKE cell and SNAKE over an EMPTY one keeps at most one FOOD. */
  lemma AdvanceFood(grid: seq<Square>, tail: int, next: int)
    requires |grid| == Cells && AtMostOne(grid, Food)
    requires InRange(tail) && grid[tail] == Snake
    requires InRange(next) && grid[next] == Empty
    ensures AtMostOne(grid[tail := Empty][next := Snake], Food)
  {
    var g' := grid[tail := Empty][next := Snake];
    forall c | 0 <= c < Cells && g'[c] == Food
      ensures grid[c] == Food
    {
      assert c != next && c != tail;
    }
  }

  /** The grid half of `AdvanceBoard`. */
  lemma AdvanceGrid(b: Board, s: seq<int>, next: int)
    requires Shaped(b)
    requires |s| >= 1 && AllInRange(s)
    requires forall c :: 0 <= c < Cells ==> (b.grid[c] == Snake <==> c in s)
    requires InRange(next)
    requires s[0] !in s[1..]
    ensures DrawAll(DrawSquare(b, s[0], Empty), s[1..] + [next], Snake).grid == b.grid[s[0] := Empty][next := Snake]
  {
    var b1 := DrawSquare(b, s[0], Empty);
    forall c | c in s[1..]
      ensures b1.grid[c] == Snake
    {
      assert c in s && c != s[0];
    }
    RedrawPlusOne(b1, s[1..], next, Snake);
  }

  /**
   * A plain move onto an EMPTY cell: the head is appended and the oldest
   * segment dropped and freed; length and score stay the same.
   */
  lemma PlainMove(g: State, pick: nat)
    requires Valid(g) && g.running && PickOk(g.board, pick)
    requires !IsGameOver(g, NextHead(g)) && g.board.grid[NextHead(g)] == Empty
    ensures var r := MoveSnake(g, pick);
      && r.running
      && r.snake == g.snake[1..] + [NextHead(g)]
      && |r.snake| == |g.snake| && r.score == g.score
      && r.board.grid == g.board.grid[g.snake[0] := Empty][NextHead(g) := Snake]
      && Valid(r)
  {
    var next := NextHead(g);
    assert InRange(next) && next !in g.snake;
    AdvanceSegments(g.snake, next);
    AdvanceBoard(g.board, g.snake, next);
    var s' := g.snake[1..] + [next];
    PushShift(g.snake, next);
    assert Slide(g, next) == g.(snake := s', board := DrawAll(DrawSquare(g.board, g.snake[0], Empty), s', Snake));
    var r := MoveSnake(g, pick);
    assert r == Slide(g, next);
  }

  /** Appending a new cell on the board keeps a list of cells free of repeats and on the board. */
  lemma AppendCell(s: seq<int>, x: int)
    requires Distinct(s) && AllInRange(s) && InRange(x) && x !in s
    ensures Distinct(s + [x]) && AllInRange(s + [x])
  {
  }

  /** What the FOOD branch builds, field by field. */
  lemma GrowUnfold(g: State, next: int, pick: nat)
    requires WellFormed(g) && InRange(next) && PickOk(g.board, pick)
    ensures Grow(g, next, pick).snake == g.snake + [next]
    ensures Grow(g, next, pick).score == g.score + 1
    ensures Grow(g, next, pick).board == DrawAll(CreateRandomFood(g.board, pick), g.snake + [next], Snake)
  {
  }

  /** The board after eating: food placed on a free cell, then every segment of the grown body drawn SNAKE. */
  lemma GrowBoard(b: Board, s: seq<int>, next: int, pick: nat)
    requires Mirrors(b) && AtMostOne(b.grid, Food) && PickOk(b, pick)
    requires Distinct(s) && AllInRange(s)
    requires forall c :: 0 <= c < Cells ==> (b.grid[c] == Snake <==> c in s)
    requires InRange(next) && b.grid[next] == Food
    ensures var b' := DrawAll(CreateRandomFood(b, pick), s + [next], Snake);
      && Mirrors(b')
      && AtMostOne(b'.grid, Food)
      && b'.grid == (if |b.free| > 0 then b.grid[b.free[pick] := Food] else b.grid)[next := Snake]
      && forall c :: 0 <= c < Cells ==> (b'.grid[c] == Snake <==> c in s + [next])
  {
    GrowGrid(b, s, next, pick);
    EatCells(b.grid, s, next);
    if |b.free| > 0 {
      var food := b.free[pick];
      assert InRange(food) && b.grid[food] == Empty;
      PlaceFood(b.grid[next := Snake], s + [next], food);
      SwapUpdates(b.grid, food, Food, next, Snake);
    }
  }

  /** Marking the FOOD cell SNAKE adds it to the snake's cells and leaves no FOOD. */
  lemma EatCells(grid: seq<Square>, s: seq<int>, next: int)
    requires |grid| == Cells && AtMostOne(grid, Food)
    requires forall c :: 0 <= c < Cells ==> (grid[c] == Snake <==> c in s)
    requires InRange(next) && grid[next] == Food
    ensures forall c :: 0 <= c < Cells ==> (grid[next := Snake][c] == Snake <==> c in s + [next])
    ensures forall c :: 0 <= c < Cells && c != next ==> grid[c] != Food
    ensures AtMostOne(grid[next := Snake], Food)
  {
    var g' := grid[next := Snake];
    forall c | 0 <= c < Cells
      ensures (g'[c] == Snake <==> c in s + [next]) && g'[c] != Food
    {
      if c != next {
        assert g'[c] == grid[c];
      }
    }
  }

  /** Placing FOOD on a cell that is not SNAKE, in a grid without FOOD, keeps the SNAKE cells and leaves one FOOD. */
  lemma PlaceFood(grid: seq<Square>, s: seq<int>, food: int)
    requires |grid| == Cells
    requires forall c :: 0 <= c < Cells ==> (grid[c] == Snake <==> c in s)
    requires forall c :: 0 <= c < Cells ==> grid[c] != Food
    requires InRange(food) && grid[food] != Snake
    ensures forall c :: 0 <= c < Cells ==> (grid[food := Food][c] == Snake <==> c in s)
    ensures AtMostOne(grid[food := Food], Food)
  {
    var g' := grid[food := Food];
    forall c | 0 <= c < Cells
      ensures (g'[c] == Snake <==> c in s) && (g'[c] == Food ==> c == food)
    {
      if c != food {
        assert g'[c] == grid[c];
      }
    }
  }

  /** Writes to two different cells can be done in either order. */
  lemma SwapUpdates(grid: seq<Square>, i: int, v: Square, j: int, w: Square)
    requires 0 <= i < |grid| && 0 <= j < |grid| && i != j
    ensures grid[i := v][j := w] == grid[j := w][i := v]
  {
    var g1, g2 := grid[i := v][j := w], grid[j := w][i := v];
    assert forall k :: 0 <= k < |grid| ==> g1[k] == g2[k];
  }

  /** The grid half of `GrowBoard`. */
  lemma GrowGrid(b: Board, s: seq<int>, next: int, pick: nat)
    requires Mirrors(b) && PickOk(b, pick)
    requires AllInRange(s)
    requires forall c :: 0 <= c < Cells ==> (b.grid[c] == Snake <==> c in s)
    requires InRange(next)
    ensures DrawAll(CreateRandomFood(b, pick), s + [next], Snake).grid
         == (if |b.free| > 0 then b.grid[b.free[pick] := Food] else b.grid)[next := Snake]
  {
    var b1 := CreateRandomFood(b, pick);
    forall c | c in s
      ensures b1.grid[c] == Snake
    {
      assert b.grid[c] == Snake;
    }
    RedrawPlusOne(b1, s, next, Snake);
  }

  /**
   * Eating: on a move onto the FOOD cell the snake grows by that cell and the
   * score by one; new food goes on the free cell at position `pick`, which
   * was EMPTY and is not the new head, or, with no free cell, nowhere.
   */
  lemma EatFood(g: State, pick: nat)
    requires Valid(g) && g.running && PickOk(g.board, pick)
    requires !IsGameOver(g, NextHead(g)) && g.board.grid[NextHead(g)] == Food
    ensures var r := MoveSnake(g, pick);
      && r.running
      && r.snake == g.snake + [NextHead(g)]
      && |r.snake| == |g.snake| + 1 && r.score == g.score + 1
      && (|g.board.free| > 0 ==>
            var f := g.board.free[pick];
            && g.board.grid[f] == Empty && f != NextHead(g)
            && r.board.grid == g.board.grid[f := Food][NextHead(g) := Snake])
      && (|g.board.free| == 0 ==>
            && r.board.grid == g.board.grid[NextHead(g) := Snake]
            && forall c :: 0 <= c < Cells ==> r.board.grid[c] != Food)
      && Valid(r)
  {
    var next := NextHead(g);
    assert InRange(next) && next !in g.snake;
    AppendCell(g.snake, next);
    GrowBoard(g.board, g.snake, next, pick);
    GrowUnfold(g, next, pick);
    var r := MoveSnake(g, pick);
    assert r == Grow(g, next, pick);
  }

  /** The invariant holds after every call of `moveSnake`. */
  lemma MoveSnakePreservesValid(g: State, pick: nat)
    requires Valid(g) && PickOk(g.board, pick)
    ensures Valid(MoveSnake(g, pick))
  {
    if g.running && !IsGameOver(g, NextHead(g)) {
      if g.board.grid[NextHead(g)] == Food {
        EatFood(g, pick);
      } else {
        PlainMove(g, pick);
      }
    }
  }

  /** Score and length move in lockstep: a call of `moveSnake` adds the same 0 or 1 to both. */
  lemma ScoreLengthLockstep(g: State, pick: nat)
    requires Valid(g) && PickOk(g.board, pick)
    ensures var r := MoveSnake(g, pick);
      && r.score - g.score == |r.snake| - |g.snake|
      && (r.score == g.score || r.score == g.score + 1)
  {
    MoveSnakePreservesValid(g, pick);
    if g.running && !IsGameOver(g, NextHead(g)) {
      if g.board.grid[NextHead(g)] == Food {
        EatFood(g, pick);
      } else {
        PlainMove(g, pick);
      }
    }
  }

  /**
   * Every cell is free, a snake segment, or the food: the free list, the
   * snake and the food cells (at most one) account for all 100 cells.
   */
  lemma CellAccounting(g: State)
    requires Valid(g)
    ensures CountUpTo(g.board.grid, Food, Cells) <= 1
    ensures |g.board.free| + |g.snake| + CountUpTo(g.board.grid, Food, Cells) == Cells
  {
    FreeCount(g.board);
    ListedCount(g.snake, g.board.grid, Snake);
    AtMostOnce(g.board.grid, Food);
    CountPartition(g.board.grid, Cells);
  }

  /**
   * The reversal filter compares a key with the stored direction, which each
   * accepted key overwrites: moving right, Up and then Left before the next
   * move are both accepted, and that move then runs into the segment behind
   * the head and ends the game.
   */
  lemma QuickReversalEndsGame(g: State, pick: nat)
    requires Valid(g) && g.running && g.direction == Right && PickOk(g.board, pick)
    requires |g.snake| >= 2 && g.snake[|g.snake| - 2] == Head(g) - 1
    ensures var h := HandleDirectionEvent(HandleDirectionEvent(g, "ArrowUp"), "ArrowLeft");
      && h.direction == Left
      && MoveSnake(h, pick) == EndGame(h)
  {
    var h := HandleDirectionEvent(HandleDirectionEvent(g, "ArrowUp"), "ArrowLeft");
    assert h == g.(direction := Left);
    assert NextHead(h) == g.snake[|g.snake| - 2];
    assert InRange(g.snake[|g.snake| - 2]);
  }

  // Runs: the events that reach the game after `startGame`.

  /**
   * What the page delivers once a game is started: a keydown with its
   * `event.code`, or a firing of the interval. The random number
   * `createRandomFood` draws on a tick is the `random` field.
   */
  datatype Event = Key(code: string) | Tick(random: nat)

  /** `Math.floor(Math.random() * emptySquares.length)`: an index into a non-empty free list. */
  function PickOf(b: Board, random: nat): (pick: nat)
    ensures PickOk(b, pick)
  {
    if |b.free| == 0 then 0 else random % |b.free|
  }

  /** One event: a key goes to `handleDirectionEvent`, a tick to `moveSnake`. */
  function Step(g: State, e: Event): (r: State)
    requires WellFormed(g)
    ensures WellFormed(r)
  {
    match e
    case Key(code) => HandleDirectionEvent(g, code)
    case Tick(random) => MoveSnake(g, PickOf(g.board, random))
  }

  /** The events in the order they arrive. */
  function Run(g: State, events: seq<Event>): (r: State)
    requires WellFormed(g)
    ensures WellFormed(r)
    decreases |events|
  {
    if |events| == 0 then g else Run(Step(g, events[0]), events[1..])
  }

  /** Every state a run reaches keeps the invariant, and the score never goes down. */
  lemma {:induction false} RunPreservesValid(g: State, events: seq<Event>)
    requires Valid(g)
    ensures Valid(Run(g, events))
    ensures Run(g, events).score >= g.score
    decreases |events|
  {
    if |events| > 0 {
      var g' := Step(g, events[0]);
      match events[0] {
        case Key(code) =>
        case Tick(random) =>
          MoveSnakePreservesValid(g, PickOf(g.board, random));
          ScoreLengthLockstep(g, PickOf(g.board, random));
      }
      RunPreservesValid(g', events[1..]);
    }
  }

  /** Once the game is over nothing changes it: the listener and the interval are gone. */
  lemma {:induction false} GameOverIsFinal(g: State, events: seq<Event>)
    requires WellFormed(g) && !g.running
    ensures Run(g, events) == g
    decreases |events|
  {
    if |events| > 0 {
      GameOverIsFinal(Step(g, events[0]), events[1..]);
    }
  }

  /** A started game, whatever events follow, is in a state that keeps the invariant. */
  method Play(pick: nat, events: seq<Event>) returns (r: State)
    requires pick < Cells - |InitialSnake|
    ensures Valid(r)
    ensures r.score + |InitialSnake| == |r.snake|
    ensures |r.board.free| + |r.snake| <= Cells
  {
    var start := StartGame(pick);
    RunPreservesValid(start, events);
    r := Run(start, events);
    CellAccounting(r);
  }
}
