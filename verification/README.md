# Snake: the game-state machine, in Dafny

This project models the logic of a browser Snake game written in
JavaScript (`script.js`) and proves properties about it. The page draws
nothing here. What remains is the state machine:

- the snake, the score and the stored direction;
- the board: `boardSquares`, a 10 x 10 grid of EMPTY, SNAKE and FOOD, and
  `emptySquares`, the list of the free cells;
- the key handler `handleDirectionEvent`;
- the interval callback `moveSnake`, with `isGameOver` and
  `updateSnakePosition`;
- food placement with `createRandomFood`;
- the `startGame` and `endGame` transitions.

Modules, one file each:

- `Options` (`options.dfy`): `Option`, whose `None` stands for JavaScript's
  `NaN` and for a key code that is not in `DIRECTIONS`.
- `CellIds` (`cellids.dfy`): the two-character cell ids `${row}${col}` and
  the `Number` / `String` / `padStart` / `split` arithmetic a move does on
  them. It proves this arithmetic agrees with the flattened index
  `10 * row + col`.
- `Boards` (`boards.dfy`): the grid and the free list. Covers `drawSquare`,
  `updateEmptySquares`, `drawSnake`, `createBoard`, `createRandomFood`, and
  counting cells.
- `Directions` (`directions.dfy`): the four arrow keys, `DIRECTIONS`
  (index deltas) and `OPPOSITE_DIRECTIONS`.
- `Game` (`game.dfy`): the game state, the key and tick transitions, start
  and end, the invariant `Valid`, and runs of events after a start.

Everywhere except `CellIds`, a cell is its flattened index 0..99. The
grid is one flat sequence, so `boardSquares[row][col]` is
`grid[10 * row + col]`.

The random choice of `createRandomFood` is a parameter `pick`. It is an
index into the free list, as `Math.floor(Math.random() * length)` is.

The listener and the interval appear only as the flag `running`. It is
true between `startGame` and `endGame`. While it is false, key and tick
events change nothing.

**Reversals between ticks.** `handleDirectionEvent` compares a key with
the *stored* direction, and every accepted key overwrites it. So while
moving right, Up and then Left pressed before the next tick are both
accepted, and that tick runs the head into its own neck
(`QuickReversalEndsGame`).

## Model

| member | source | states |
|---|---|---|
| CellIds.NatToString | script.js:121-123 | for the integers the game converts, `String` of a natural number is a non-empty string of decimal digits, one character long exactly when the number is below ten |
| CellIds.PadStart | script.js:121-123 | `padStart` gives a string of at least the target length that ends with the original string and is filled in front with the fill character |
| CellIds.NumberOf | script.js:122 | `Number` yields a value only for a string that starts with a minus sign or a digit; anything else is NaN |
| CellIds.SplitNumbers | script.js:125 | on the strings the game splits (digits and '-'), `split("").map(Number)` gives one entry per character, and it is a number exactly at the digit characters |
| CellIds.NatToStringValue | script.js:121-123 | reading the decimal form of n back gives n |
| CellIds.LeadingZero | script.js:123 | a leading '0' added by padding changes neither the digit-ness nor the value of a digit string |
| CellIds.IntToString | script.js:121 | for the integers the game converts, `String(n)` is non-empty, starts with a minus sign exactly when n is negative, and is otherwise made of digits |
| CellIds.Id | script.js:52 | `${row}${col}` is two digit characters, the first reading as the row and the second as the column |
| CellIds.Advance | script.js:121-123 | the new-head expression gives a string of at least two characters that `Number` reads as the old index plus the delta, for every delta |
| CellIds.PaddedNumberRoundTrip | script.js:121-123 | for every integer n, `Number(String(n).padStart(2, "0"))` is n, negative numbers and numbers of three or more digits included; so the tests `newHead < 0` and `newHead >= 100` on the padded string compare the sum itself |
| CellIds.NegativeRoundTrip | script.js:121-123 | a negative sum is written with a minus sign and is read back unchanged, padding or not |
| CellIds.OneDigitRoundTrip | script.js:121-123 | a one-digit sum is padded with a leading zero and is read back unchanged |
| CellIds.NumberOfNegative | script.js:122 | `Number` of a minus sign followed by digits is minus their value, and such a string of two or more characters is not padded |
| CellIds.NumberOfDigits | script.js:122 | `Number` of a non-empty digit string is its decimal value |
| CellIds.IdRoundTrip | script.js:52-70 | the id `${row}${col}` splits back into row and column, `Number` reads it as 10 * row + col, and padding `String(10 * row + col)` writes the same id |
| CellIds.TwoDigitsValue | script.js:52 | the two digits of an id read as 10 * row + col |
| CellIds.IdSplit | script.js:70 | splitting an id and reading each character gives `[row, column]` |
| CellIds.IdWritten | script.js:121-123 | padding `String` of 10 * row + col to two characters writes the id `${row}${col}` |
| CellIds.CellId | script.js:52 | every cell's id has two characters |
| CellIds.CellIdNumber | script.js:52-55 | a cell's id is read by `Number` as the cell's index, is what padding `String` of the index writes, and splits into the row and column |
| CellIds.AdvanceAgrees | script.js:121-125 | a move computed on ids is the same move computed on indices: `Number` of the new id is index plus delta, and when that names a cell, the new id is that cell's id and splits into its row and column |
| Boards.IndexOf | script.js:80 | `indexOf` gives -1 exactly when the cell is absent; otherwise the first position holding it |
| Boards.UpdateEmptySquares | script.js:79-86 | writing EMPTY adds the cell only when absent; writing SNAKE or FOOD removes it only when present; otherwise the list is unchanged. A duplicate-free list stays duplicate-free and afterwards holds the cell exactly when EMPTY was written |
| Boards.AppendAbsent | script.js:81-82 | `push` of an absent cell adds exactly that cell and keeps the list duplicate-free |
| Boards.SpliceOut | script.js:83-84 | `splice(index, 1)` shortens the list by one; on a duplicate-free list it removes exactly the cell at that position |
| Boards.DrawSquare | script.js:69-76 | `drawSquare` writes the type into that one grid cell and keeps the free list an exact, duplicate-free mirror of the EMPTY cells |
| Boards.DrawAll | script.js:89-91 | `drawSnake` marks exactly the listed cells, leaves every other cell as it was, and keeps the free list mirroring the grid |
| Boards.DrawAllFront | script.js:89-91 | drawing the cells that open the free list removes exactly those cells from its front |
| Boards.RedrawPlusOne | script.js:158 | redrawing cells that are already SNAKE, plus one more cell, changes only that one cell |
| Boards.DrawOverFreeFront | script.js:89-91 | on an all-EMPTY board, drawing the cells at the front of the free list marks exactly those cells and leaves the rest of the list |
| Boards.CreateBoard | script.js:49-58 | the nested loops list every cell once, in row-major order, over an all-EMPTY grid, so the free list mirrors the grid |
| Boards.CreateRandomFood | script.js:99-104 | with no free cell nothing changes; otherwise the chosen free cell, which was EMPTY, becomes FOOD and leaves the free list, and the list still mirrors the grid |
| Boards.FreeCount | script.js:79-86 | the length of `emptySquares` is the number of EMPTY cells |
| Boards.CountPartition | script.js:4-8 | every cell holds exactly one of the three square types |
| Directions.Parse | script.js:113-114 | `event.code in DIRECTIONS` recognises exactly the four arrow codes, each as its own direction |
| Directions.Delta | script.js:9-14 | each `DIRECTIONS` delta is the geometric step flattened, 10 * row step + column step, and is never zero |
| Directions.Opposite | script.js:15-20 | `OPPOSITE_DIRECTIONS` gives the direction whose step undoes this one, and never the direction itself |
| Game.HandleDirectionEvent | script.js:107-117 | after the game is over keys change nothing; a key changes only the direction, never to the opposite of the stored one, only to the arrow pressed, and always when it is an arrow other than that opposite |
| Game.EndGame | script.js:162-167 | `endGame` stops the game and changes no snake, score, direction or board |
| Game.HitsBoundary | script.js:137-140 | when none of the four index tests fires, the new index is a cell of the board; a vertical move onto a cell of the board never fires them |
| Game.IsGameOver | script.js:135-142 | when `isGameOver` is false, the new index is a cell of the board and not a SNAKE cell, so the grid is read only in range; a SNAKE cell on the board always ends the game |
| Game.Grow | script.js:149-152 | the FOOD branch keeps the old body and appends the head, so the length and the score each rise by one; `EatFood` states what it does to the board |
| Game.Slide | script.js:153-158 | the other branch drops the oldest segment and appends the head, so the length and the score stay the same; `PlainMove` states what it does to the board |
| Game.UpdateSnakePosition | script.js:146-159 | the pushed head becomes the last segment; the score rises by one exactly when the head lands on FOOD and is unchanged otherwise, and the length changes by the same amount; running and direction are untouched |
| Game.MoveSnake | script.js:120-132 | once over, a tick changes nothing; otherwise the game keeps running exactly when `isGameOver` is false for the next head; a game-over tick changes no snake, score or board; the direction never changes |
| Game.StartGame | script.js:170-180 | a start gives snake `["00","01","02","03"]`, score 0, direction right, running; exactly those four cells SNAKE, exactly the chosen free cell FOOD, 95 free cells; the invariant holds |
| Game.InitialSnakeCells | script.js:34 | the initial snake occupies exactly cells 0 to 3 |
| Game.FreshStart | script.js:170-176 | drawing a snake over the front of a fresh board and then placing food gives a state that keeps the invariant, with exactly the snake's cells SNAKE and exactly the chosen free cell FOOD |
| Game.FreshBoard | script.js:174-176 | drawing a snake over the front of a fresh board and then placing food marks exactly the snake's cells SNAKE and one FOOD cell, and leaves the free list one shorter than the rest after the snake |
| Game.BoundaryIsGeometric | script.js:135-140 | the four index tests of `isGameOver` fire exactly when the 2D step leaves the 10 x 10 board; when they do not, the sum is the index of the neighbouring cell |
| Game.SelfCollisionEndsGame | script.js:141 | a move onto any segment, the current tail included, ends the game; the test comes before the tail is removed |
| Game.AdvanceSegments | script.js:147-154 | pushing an unoccupied head and shifting off the tail leaves a duplicate-free body without the old tail that keeps every other segment |
| Game.AdvanceBoard | script.js:153-158 | after a plain move, the board has the old tail EMPTY and the new head SNAKE and nothing else changed; the free list still mirrors it; there is still at most one FOOD; the SNAKE cells are exactly the new body |
| Game.AdvanceGrid | script.js:153-158 | after a plain move, the grid is the old grid with the tail EMPTY and the head SNAKE |
| Game.PlainMove | script.js:146-159 | a tick onto an EMPTY cell appends the head and drops the oldest segment; length and score are unchanged; the board changes in exactly those two cells; the invariant holds |
| Game.GrowBoard | script.js:149-158 | after eating, the new food is on the chosen free cell, if any, and the head is SNAKE, with nothing else changed; the free list still mirrors the board; there is at most one FOOD; the SNAKE cells are exactly the grown body |
| Game.GrowGrid | script.js:149-158 | after eating, the grid is the old grid with the new food placed and the head SNAKE |
| Game.EatFood | script.js:149-158 | a tick onto FOOD grows the snake and the score by exactly one; new food goes on a cell that was EMPTY and is not the new head, or nowhere when no cell is free; the invariant, with at most one FOOD, holds |
| Game.MoveSnakePreservesValid | script.js:120-159 | every tick keeps the invariant |
| Game.ScoreLengthLockstep | script.js:149-154 | a tick adds the same 0 or 1 to score and length |
| Game.CellAccounting | script.js:79-86 | free cells, snake segments and the at most one FOOD cell account for all 100 cells |
| Game.QuickReversalEndsGame | script.js:107-117 | moving right, Up then Left before a tick are both accepted, and that tick runs into the segment behind the head and ends the game |
| Game.PickOf | script.js:101 | the random index is a position in the free list whenever the list is non-empty |
| Game.Step | script.js:178-179 | delivering one key or tick keeps the state well formed |
| Game.Run | script.js:178-179 | a sequence of events keeps the state well formed |
| Game.RunPreservesValid | script.js:178-179 | every state reached by keys and ticks keeps the invariant, and the score never goes down |
| Game.GameOverIsFinal | script.js:164-166 | once the game is over, no sequence of keys and ticks changes the state |
| Game.Play | script.js:170-180 | any state a started game reaches keeps the invariant, with score + 4 equal to the snake's length and no more free cells and segments than cells |

## Left out

- DOM rendering is left out: `createSquareElement`, `appendChild`, `className`, `innerText`, `innerHTML`, the game-over sign and `startButton.disabled`. They only present the state.
- `setInterval`, `clearInterval`, `addEventListener` and `removeEventListener` are left out. Only the flag `running` stands for them, and a run is a sequence of `Event`s.
- The speed `GAME_SPEED` is left out, because timing is not modelled.
- `Math.random` is left out: the chosen index is a parameter. Uniform choice is a probabilistic property.
- The `try`/`catch` with `console.error` in `initializeGame` is left out, because it only logs.
- `updateScore` is left out. It copies the score into the page; the score itself is modelled.
- The state before the first start is left out. A restart after `endGame` is modelled: `StartGame` builds the state afresh and uses nothing of an earlier game, as `initializeGame` does. Only pressing start while a game runs is left out; the disabled start button prevents it.
- CellIds.NumberOf: models `Number` only for strings made of one optional minus sign and decimal digits, the only strings the game reads. General JavaScript coercion (whitespace, `""`, exponents, hexadecimal) is not modelled.
- CellIds.SplitNumbers: models `split("").map(Number)` only on strings of digits and '-', the only strings the game splits. JavaScript's `Number` reads a whitespace character as 0, where the model gives `None`.
- CellIds.IntToString: JavaScript numbers are doubles, so `String` writes exponent form from 1e21 on and integers above 2^53 are not exact; the model uses unbounded integers. Every value the game converts is a cell index plus a step, so it lies in -10..109, where the two agree.
- CellIds.NatToString: unbounded natural numbers, for the same reason as `CellIds.IntToString`.
- Directions.Parse: recognises only the four arrow codes. In `script.js`, `in DIRECTIONS` is also true for names inherited from `Object.prototype`, such as `"toString"`. No key has such a code.
