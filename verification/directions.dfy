/**
 * Directions: the four arrow keys, the flattened-index delta DIRECTIONS
 * gives each, and OPPOSITE_DIRECTIONS.
 */
module Directions {
  import opened Options
  import opened Boards

  datatype Direction = Up | Down | Left | Right

  /** The `event.code` of the arrow key for a direction. */
  function Code(d: Direction): string {
    match d
    case Up => "ArrowUp"
    case Down => "ArrowDown"
    case Left => "ArrowLeft"
    case Right => "ArrowRight"
  }

  /**
   * `newDirection in DIRECTIONS`: the direction an `event.code` names, or
   * None for every other key.
   */
  function Parse(code: string): (r: Option<Direction>)
    ensures r.Some? ==> Code(r.value) == code
    ensures forall d :: Code(d) == code ==> r == Some(d)
  {
    if code == "ArrowUp" then Some(Up)
    else if code == "ArrowDown" then Some(Down)
    else if code == "ArrowLeft" then Some(Left)
    else if code == "ArrowRight" then Some(Right)
    else None
  }

  /** The geometric step of a direction: the change of row. */
  function RowStep(d: Direction): int {
    match d
    case Up => -1
    case Down => 1
    case Left => 0
    case Right => 0
  }

  /** The geometric step of a direction: the change of column. */
  function ColStep(d: Direction): int {
    match d
    case Up => 0
    case Down => 0
    case Left => -1
    case Right => 1
  }

  /** DIRECTIONS: the change of the flattened index, which is the geometric step flattened. */
  function Delta(d: Direction): (delta: int)
    ensures delta == Size * RowStep(d) + ColStep(d)
    ensures delta != 0
  {
    match d
    case Up => -Size
    case Down => Size
    case Left => -1
    case Right => 1
  }

  /** OPPOSITE_DIRECTIONS: the direction whose step undoes this one's. */
  function Opposite(d: Direction): (r: Direction)
    ensures RowStep(r) == -RowStep(d) && ColStep(r) == -ColStep(d)
    ensures Delta(r) == -Delta(d)
    ensures r != d
  {
    match d
    case Up => Down
    case Down => Up
    case Left => Right
    case Right => Left
  }
}
