/**
 Random placement. The random generator itself is not modelled: each call
 of `gen_range(low, high)` is given its raw draw as a parameter, and the
 model keeps only what the generator guarantees, a value in `[low, high)`.
 */
module Random {
  import opened Grid

  /** The two raw draws that one `(x, y)` placement consumes. */
  datatype Draw = Draw(first: nat, second: nat)

  /** `gen_range(low, high)`: panics unless `low < high`, else a value in `[low, high)`. */
  function GenRange(low: nat, high: nat, draw: nat): (r: nat)
    requires low < high
    ensures low <= r < high
  {
    low + draw % (high - low)
  }

  /** Every value of the range can be drawn. */
  lemma GenRangeReaches(low: nat, high: nat, v: nat)
    requires low <= v < high
    ensures GenRange(low, high, v - low) == v
  {
  }

  /** Where an apple may appear: any column, any row except the bottom one. */
  predicate AppleRange(c: Cell) {
    c.x < CELL_WIDTH && c.y < CELL_HEIGHT - 1
  }

  /** `get_random_location`: x from `[0, cell_width)`, y from `[0, cell_height - 1)`. */
  function GetRandomLocation(d: Draw): (r: Cell)
    ensures AppleRange(r) && InGrid(r)
    ensures r.y != CELL_HEIGHT - 1
  {
    Cell(GenRange(0, CELL_WIDTH, d.first), GenRange(0, CELL_HEIGHT - 1, d.second))
  }

  /**
   The placement range is exactly `AppleRange`: every such cell, including a
   cell the snake occupies, is the outcome of some draw.
   */
  lemma GetRandomLocationOnto(c: Cell)
    requires AppleRange(c)
    ensures GetRandomLocation(Draw(c.x, c.y)) == c
  {
    GenRangeReaches(0, CELL_WIDTH, c.x);
    GenRangeReaches(0, CELL_HEIGHT - 1, c.y);
  }

  /** `Game::new`'s start: x from `[5, cell_width - 6)`, y from `[5, cell_height - 6)`. */
  function StartCell(d: Draw): (r: Cell)
    ensures 5 <= r.x < CELL_WIDTH - 6 && 5 <= r.y < CELL_HEIGHT - 6
  {
    Cell(GenRange(5, CELL_WIDTH - 6, d.first), GenRange(5, CELL_HEIGHT - 6, d.second))
  }

  /** Every cell of that start range is the outcome of some draw. */
  lemma StartCellOnto(c: Cell)
    requires 5 <= c.x < CELL_WIDTH - 6 && 5 <= c.y < CELL_HEIGHT - 6
    ensures StartCell(Draw(c.x - 5, c.y - 5)) == c
  {
    GenRangeReaches(5, CELL_WIDTH - 6, c.x);
    GenRangeReaches(5, CELL_HEIGHT - 6, c.y);
  }
}
