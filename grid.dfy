/** A conventional optional value, used for a move that would leave the grid. */
module Wrappers {
  datatype Option<+T> = None | Some(value: T)
}

/**
 The playing field: window size, cell size, the grid they give, cells on it,
 the four directions of travel and the one-cell step the snake's head takes.
 */
module Grid {
  import opened Wrappers

  /** Window size in pixels and the side of one square cell. */
  const WIDTH: nat := 640
  const HEIGHT: nat := 480
  const CELLSIZE: nat := 20

  /** The field measured in cells, as `Game::new` computes it. */
  const CELL_WIDTH: nat := WIDTH / CELLSIZE
  const CELL_HEIGHT: nat := HEIGHT / CELLSIZE

  /** The start-up assertions hold, and the field is 32 cells by 24. */
  lemma GridDimensions()
    ensures WIDTH % CELLSIZE == 0 && HEIGHT % CELLSIZE == 0
    ensures CELL_WIDTH == 32 && CELL_HEIGHT == 24
    ensures CELL_WIDTH * CELLSIZE == WIDTH && CELL_HEIGHT * CELLSIZE == HEIGHT
  {
  }

  /** A cell of the field; the source stores it as a `(usize, usize)` pair. */
  datatype Cell = Cell(x: nat, y: nat)

  datatype Direction = Up | Down | Left | Right

  predicate InGrid(c: Cell) {
    c.x < CELL_WIDTH && c.y < CELL_HEIGHT
  }

  /** The same test on integer coordinates, which may be negative. */
  predicate InGridAt(x: int, y: int) {
    0 <= x < CELL_WIDTH && 0 <= y < CELL_HEIGHT
  }

  /** Horizontal and vertical displacement of one step; y grows downwards. */
  function Dx(d: Direction): int {
    match d
    case Left => -1
    case Right => 1
    case _ => 0
  }

  function Dy(d: Direction): int {
    match d
    case Up => -1
    case Down => 1
    case _ => 0
  }

  function Abs(n: int): nat {
    if n < 0 then -n else n
  }

  /** Two cells that share a side. */
  predicate Adjacent(a: Cell, b: Cell) {
    Abs(a.x - b.x) + Abs(a.y - b.y) == 1
  }

  function Opposite(d: Direction): (r: Direction)
    ensures Dx(r) == -Dx(d) && Dy(r) == -Dy(d)
    ensures r != d
  {
    match d
    case Up => Down
    case Down => Up
    case Left => Right
    case Right => Left
  }

  /**
   The cell the head moves to, or None when the source ends the game at a
   wall: Up on the top row, Down on the bottom row, Left on the left column,
   Right on the right column. A move is refused only when it would leave the
   field, and from a cell on the field every move that stays on it is made.
   */
  function NextHead(head: Cell, d: Direction): (r: Option<Cell>)
    ensures r.Some? ==> r.value.x == head.x + Dx(d) && r.value.y == head.y + Dy(d)
    ensures r.Some? ==> Adjacent(r.value, head)
    ensures r.None? ==> !InGridAt(head.x + Dx(d), head.y + Dy(d))
    ensures InGrid(head) ==> (r.Some? <==> InGridAt(head.x + Dx(d), head.y + Dy(d)))
    ensures InGrid(head) && r.Some? ==> InGrid(r.value)
  {
    match d
    case Up => if head.y == 0 then None else Some(Cell(head.x, head.y - 1))
    case Down => if head.y == CELL_HEIGHT - 1 then None else Some(Cell(head.x, head.y + 1))
    case Left => if head.x == 0 then None else Some(Cell(head.x - 1, head.y))
    case Right => if head.x == CELL_WIDTH - 1 then None else Some(Cell(head.x + 1, head.y))
  }

  /** A step and the opposite step cancel out: the new head's neighbour behind it is the old head. */
  lemma StepBack(head: Cell, d: Direction)
    requires InGrid(head) && NextHead(head, d).Some?
    ensures NextHead(NextHead(head, d).value, Opposite(d)) == Some(head)
  {
  }
}
