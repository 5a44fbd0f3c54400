/**
 * The board: `boardSquares`, a BOARD_SIZE x BOARD_SIZE grid of EMPTY, SNAKE
 * and FOOD, and `emptySquares`, the list of the cells that are free. A cell
 * is named by its flattened index 10 * row + col (see CellIds for how that
 * index relates to the id string `${row}${col}`); the grid is kept flat,
 * row after row, so `boardSquares[row][col]` is `grid[10 * row + col]`.
 *
 * After `createBoard` builds both parts, `drawSquare` (with
 * `updateEmptySquares`) is the only operation that changes either, and it
 * keeps the list a mirror of the grid.
 */
module Boards {

  /** BOARD_SIZE and the number of cells. */
  const Size: int := 10
  const Cells: int := Size * Size

  /** SQUARE_TYPES. */
  datatype Square = Empty | Snake | Food

  datatype Board = Board(grid: seq<Square>, free: seq<int>)

  predicate InRange(c: int) {
    0 <= c < Cells
  }

  /** The row and the column of a cell: `${row}${col}` split back into its two digits. */
  function Row(c: int): int {
    c / Size
  }

  function Col(c: int): int {
    c % Size
  }

  predicate AllInRange(s: seq<int>) {
    forall k :: 0 <= k < |s| ==> InRange(s[k])
  }

  predicate Distinct(s: seq<int>) {
    forall i, j :: 0 <= i < j < |s| ==> s[i] != s[j]
  }

  /** The shape every board has: a full grid, and a free list of cell indices. */
  predicate Shaped(b: Board) {
    |b.grid| == Cells && AllInRange(b.free)
  }

  /** The free list mirrors the grid: it has no duplicates and holds exactly the EMPTY cells. */
  predicate Mirrors(b: Board) {
    && Shaped(b)
    && Distinct(b.free)
    && forall c :: 0 <= c < Cells ==> (c in b.free <==> b.grid[c] == Empty)
  }

  /** `Array.prototype.indexOf`: the first position of x in s, or -1. */
  function IndexOf(s: seq<int>, x: int): (i: int)
    ensures -1 <= i < |s|
    ensures i == -1 <==> x !in s
    ensures 0 <= i ==> s[i] == x && x !in s[..i]
  {
    if |s| == 0 then -1
    else if s[0] == x then 0
    else
      var j := IndexOf(s[1..], x);
      if j == -1 then -1
      else
        assert s[..j + 1] == [s[0]] + s[1..][..j];
        j + 1
  }

  /**
   * `updateEmptySquares`: writing EMPTY appends the cell if it is absent;
   * writing SNAKE or FOOD splices the first occurrence out if it is present;
   * otherwise the list is left alone.
   */
  function UpdateEmptySquares(free: seq<int>, c: int, v: Square): (r: seq<int>)
    ensures (c in free <==> v == Empty) ==> r == free
    ensures Distinct(free) ==> Distinct(r)
    ensures Distinct(free) ==> forall x :: x in r <==> if x == c then v == Empty else x in free
    ensures AllInRange(free) && InRange(c) ==> AllInRange(r)
  {
    var index := IndexOf(free, c);
    if v == Empty && index == -1 then
      AppendAbsent(free, c)
    else if v != Empty && index != -1 then
      SpliceOut(free, index)
    else
      free
  }

  /** `s.push(c)` for a c that s does not hold keeps s duplicate-free. */
  function AppendAbsent(s: seq<int>, c: int): (r: seq<int>)
    requires c !in s
    ensures forall x :: x in r <==> x in s || x == c
    ensures Distinct(s) ==> Distinct(r)
    ensures AllInRange(s) && InRange(c) ==> AllInRange(r)
  {
    s + [c]
  }

  /** `s.splice(i, 1)` on a list without duplicates removes exactly s[i] and keeps the rest distinct. */
  function SpliceOut(s: seq<int>, i: int): (r: seq<int>)
    requires 0 <= i < |s|
    ensures |r| == |s| - 1
    ensures AllInRange(s) ==> AllInRange(r)
    ensures Distinct(s) ==> Distinct(r)
    ensures Distinct(s) ==> forall x :: x in r <==> x in s && x != s[i]
  {
    var r := s[..i] + s[i + 1..];
    assert forall k :: 0 <= k < |r| ==> r[k] == if k < i then s[k] else s[k + 1];
    forall x | x in s && x != s[i]
      ensures x in r
    {
      var k :| 0 <= k < |s| && s[k] == x;
      if k < i { assert r[k] == x; } else { assert r[k - 1] == x; }
    }
    r
  }

  /** `drawSquare`: write the square type into the grid and keep the free list in step. */
  function DrawSquare(b: Board, c: int, v: Square): (r: Board)
    requires Shaped(b) && InRange(c)
    ensures Shaped(r)
    ensures r.grid == b.grid[c := v]
    ensures Mirrors(b) ==> Mirrors(r)
  {
    Board(b.grid[c := v], UpdateEmptySquares(b.free, c, v))
  }

  /** `drawSquare` applied to each cell in turn, first to last, as `drawSnake` does. */
  function DrawAll(b: Board, cells: seq<int>, v: Square): (r: Board)
    requires Shaped(b) && AllInRange(cells)
    ensures Shaped(r)
    ensures Mirrors(b) ==> Mirrors(r)
    ensures forall c :: InRange(c) ==> r.grid[c] == if c in cells then v else b.grid[c]
    decreases |cells|
  {
    if |cells| == 0 then b
    else
      var r := DrawAll(DrawSquare(b, cells[0], v), cells[1..], v);
      assert forall c :: c in cells <==> c == cells[0] || c in cells[1..];
      r
  }

  /**
   * Drawing SNAKE or FOOD over cells that open the free list removes exactly
   * those cells from its front, whatever the rest of the list holds.
   */
  lemma {:induction false} DrawAllFront(b: Board, cells: seq<int>, rest: seq<int>, v: Square)
    requires Shaped(b) && AllInRange(cells)
    requires b.free == cells + rest
    requires v != Empty
    ensures DrawAll(b, cells, v).free == rest
    decreases |cells|
  {
    if |cells| > 0 {
      var b' := DrawSquare(b, cells[0], v);
      assert IndexOf(b.free, cells[0]) == 0;
      assert b'.free == cells[1..] + rest;
      DrawAllFront(b', cells[1..], rest, v);
    }
  }

  /**
   * Redrawing cells that already hold v, and then one more cell, changes
   * only that one cell.
   */
  lemma RedrawPlusOne(b: Board, cells: seq<int>, x: int, v: Square)
    requires Shaped(b) && AllInRange(cells) && InRange(x)
    requires forall c :: c in cells ==> b.grid[c] == v
    ensures AllInRange(cells + [x])
    ensures DrawAll(b, cells + [x], v).grid == b.grid[x := v]
  {
    var cells' := cells + [x];
    assert forall c :: c in cells' <==> c in cells || c == x;
    var r := DrawAll(b, cells', v);
    forall c | 0 <= c < Cells
      ensures r.grid[c] == b.grid[x := v][c]
    {
    }
  }

  /**
   * Drawing SNAKE or FOOD over the cells that open the free list of an
   * all-EMPTY board marks exactly those cells and leaves the rest of the list.
   */
  lemma DrawOverFreeFront(b: Board, cells: seq<int>, rest: seq<int>, v: Square)
    requires Mirrors(b) && AllInRange(cells) && b.free == cells + rest && v != Empty
    requires forall c :: 0 <= c < Cells ==> b.grid[c] == Empty
    ensures var b' := DrawAll(b, cells, v);
      && Mirrors(b')
      && b'.free == rest
      && forall c :: 0 <= c < Cells ==>
           && (b'.grid[c] == v <==> c in cells)
           && (b'.grid[c] == Empty <==> c !in cells)
  {
    DrawAllFront(b, cells, rest, v);
  }

  /**
   * `createBoard`: the two nested loops over rows and columns push the id
   * of every cell onto the free list, so the list holds every cell once, in
   * row-major order; the grid is the all-EMPTY array `initializeGame`
   * allocates.
   */
  method CreateBoard() returns (b: Board)
    ensures Mirrors(b)
    ensures forall c :: 0 <= c < Cells ==> b.grid[c] == Empty
    ensures |b.free| == Cells && forall k :: 0 <= k < Cells ==> b.free[k] == k
  {
    var free: seq<int> := [];
    var row := 0;
    while row < Size
      invariant 0 <= row <= Size
      invariant |free| == row * Size
      invariant forall k :: 0 <= k < |free| ==> free[k] == k
    {
      var col := 0;
      while col < Size
        invariant 0 <= col <= Size
        invariant |free| == row * Size + col
        invariant forall k :: 0 <= k < |free| ==> free[k] == k
      {
        free := free + [row * Size + col];
        col := col + 1;
      }
      row := row + 1;
    }
    b := Board(seq(Cells, _ => Empty), free);
    forall c | 0 <= c < Cells
      ensures c in b.free
    {
      assert b.free[c] == c;
    }
  }

  /** The random choice `Math.floor(Math.random() * emptySquares.length)` is an index into the free list. */
  predicate PickOk(b: Board, pick: nat) {
    pick < |b.free| || |b.free| == 0
  }

  /**
   * `createRandomFood`: with no free cell nothing happens; otherwise the
   * free cell at the chosen position becomes FOOD and leaves the free list.
   */
  function CreateRandomFood(b: Board, pick: nat): (r: Board)
    requires Shaped(b) && PickOk(b, pick)
    ensures Shaped(r)
    ensures |b.free| == 0 ==> r == b
    ensures |b.free| > 0 ==> r.grid == b.grid[b.free[pick] := Food]
    ensures Mirrors(b) ==> Mirrors(r)
    ensures Mirrors(b) && |b.free| > 0 ==>
      && b.grid[b.free[pick]] == Empty
      && |r.free| == |b.free| - 1
  {
    if |b.free| == 0 then b
    else
      var r := DrawSquare(b, b.free[pick], Food);
      assert Mirrors(b) ==> r.free == SpliceOut(b.free, pick) by {
        if Mirrors(b) {
          assert IndexOf(b.free, b.free[pick]) == pick;
        }
      }
      r
  }

  // Counting cells.

  /** The number of cells among the first n of the grid that hold v. */
  function CountUpTo(grid: seq<Square>, v: Square, n: nat): nat
    requires n <= |grid|
  {
    if n == 0 then 0 else CountUpTo(grid, v, n - 1) + (if grid[n - 1] == v then 1 else 0)
  }

  /** The indices among the first n of the grid that hold v. */
  function CellsWith(grid: seq<Square>, v: Square, n: nat): set<int>
    requires n <= |grid|
  {
    set i | 0 <= i < n && grid[i] == v
  }

  lemma {:induction false} CountIsCardinality(grid: seq<Square>, v: Square, n: nat)
    requires n <= |grid|
    ensures CountUpTo(grid, v, n) == |CellsWith(grid, v, n)|
  {
    if n > 0 {
      CountIsCardinality(grid, v, n - 1);
      if grid[n - 1] == v {
        assert CellsWith(grid, v, n) == CellsWith(grid, v, n - 1) + {n - 1};
      } else {
        assert CellsWith(grid, v, n) == CellsWith(grid, v, n - 1);
      }
    }
  }

  /** Every cell holds exactly one square type. */
  lemma {:induction false} CountPartition(grid: seq<Square>, n: nat)
    requires n <= |grid|
    ensures CountUpTo(grid, Empty, n) + CountUpTo(grid, Snake, n) + CountUpTo(grid, Food, n) == n
  {
    if n > 0 {
      CountPartition(grid, n - 1);
    }
  }

  lemma {:induction false} DistinctCardinality(s: seq<int>)
    requires Distinct(s)
    ensures |set x | x in s| == |s|
  {
    if |s| > 0 {
      var p := s[..|s| - 1];
      DistinctCardinality(p);
      assert (set x | x in s) == (set x | x in p) + {s[|s| - 1]};
    }
  }

  /**
   * A duplicate-free list of cells that holds exactly the cells of the grid
   * marked v is as long as the number of such cells.
   */
  lemma ListedCount(s: seq<int>, grid: seq<Square>, v: Square)
    requires |grid| == Cells
    requires Distinct(s) && AllInRange(s)
    requires forall c :: InRange(c) ==> (c in s <==> grid[c] == v)
    ensures |s| == CountUpTo(grid, v, Cells)
  {
    DistinctCardinality(s);
    CountIsCardinality(grid, v, Cells);
    assert (set x | x in s) == CellsWith(grid, v, Cells);
  }

  /** The free list is as long as the number of EMPTY cells. */
  lemma FreeCount(b: Board)
    requires Mirrors(b)
    ensures |b.free| == CountUpTo(b.grid, Empty, Cells)
  {
    ListedCount(b.free, b.grid, Empty);
  }

  /** Any two cells of the grid that hold v are the same cell. */
  predicate AtMostOne(grid: seq<Square>, v: Square) {
    forall a, b :: 0 <= a < |grid| && 0 <= b < |grid| && grid[a] == v && grid[b] == v ==> a == b
  }

  /** A grid in which any two cells holding v are the same cell holds v at most once. */
  lemma AtMostOnce(grid: seq<Square>, v: Square)
    requires |grid| == Cells
    requires AtMostOne(grid, v)
    ensures CountUpTo(grid, v, Cells) <= 1
  {
    CountIsCardinality(grid, v, Cells);
    var w := CellsWith(grid, v, Cells);
    if w != {} {
      var a :| a in w;
      assert w == {a};
    }
  }
}
