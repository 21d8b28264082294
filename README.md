# Snake: a verified model of the game-state update

This project models the game logic of a small Snake game written in Rust
over SDL2 (`src/main.rs`). The field is 640×480 pixels cut into 20-pixel
cells, which gives 32×24 cells. The snake is a list of cells with its head
at index 0. It starts as three horizontal cells heading right, at a random
start inside a margin of the field. A frame of the game loop does four things
in order:

1. It handles the pending events. Quit or Escape stops the loop. An arrow key
   sets the direction.
2. It checks self-collision. The game ends if the head lies on any later
   segment.
3. It checks the apple. If the head is on the apple, a new apple is placed
   and the snake keeps its tail (it grows). Otherwise the tail is popped.
4. It computes the new head one cell away in the current direction. A step
   off the field ends the game. Otherwise the head is inserted at index 0 and
   the score `len - 3` is drawn.

Modules:

- `Grid` (grid.dfy): the constants, cells, directions and `NextHead`, the
  one-cell step with its four wall checks. `Wrappers` holds `Option`.
- `Random` (random.dfy): `gen_range`, `get_random_location` and the start
  cell of `Game::new`. The random generator is replaced by explicit draws
  passed as parameters. The model keeps only the generator's guarantee, a
  value in `[low, high)`.
- `Input` (input.dfy): events, the arrow-key mapping and `ApplyEvents`, the
  event loop as a function. Lemmas cover when it stops and which direction
  wins.
- `Snake` (snake.dfy): the game state as a value. `Advance` is one tick and
  `Play` is a run of frames. The lemmas cover length, adjacency, the field
  bounds, connectedness, scores and the missing reversal guard.
- `SnakeGame` (game.dfy): the class `Game`, holding `direction` and the body
  `snake`, which its methods update in place. `HeadHitsBody` is the
  self-collision `for` loop. Each method is proved against the functions of
  `Snake`.

The code has no reversal guard: an arrow key always sets the direction, the
opposite one included. The model follows the code. `Input.ReversalAccepted`
and `Snake.ReversalEndsGame` show the consequence: pressing Left at the start
of the game ends it on the next frame.

New apples are drawn from `[0, cell_width) × [0, cell_height - 1)`. So an
apple never appears on the bottom row, and it may appear on the snake. The
model keeps both behaviours.

## Model

| member | source | states |
|---|---|---|
| `Grid.GridDimensions` | src/main.rs:20-27 | The start-up assertions hold: width and height are multiples of the cell size, and the field is 32 by 24 cells. |
| `Grid.NextHead` | src/main.rs:139-164 | The new head is the old head moved one cell in the direction of travel, and it is adjacent to the old head. A move is refused (game over) only when it would leave the field. From a cell on the field, a move is refused exactly when it would leave the field, and an accepted move stays on the field. |
| `Grid.StepBack` | src/main.rs:139-164 | From a cell on the field, a step followed by the opposite step returns to the starting cell. |
| `Random.GenRange` | src/main.rs:229-230 | `gen_range(low, high)` needs `low < high` and yields a value in `[low, high)`. |
| `Random.GenRangeReaches` | src/main.rs:229-230 | Every value in `[low, high)` can be drawn. |
| `Random.GetRandomLocation` | src/main.rs:227-232 | An apple lies on the field, in any column and in any row except the bottom one. |
| `Random.GetRandomLocationOnto` | src/main.rs:227-232 | Every cell in that range, including one under the snake, is a possible apple. |
| `Random.StartCell` | src/main.rs:74-75 | The start head has x in `[5, cell_width - 6)` and y in `[5, cell_height - 6)`. |
| `Random.StartCellOnto` | src/main.rs:74-75 | Every cell of that start range can be drawn. |
| `Input.KeyDirection` | src/main.rs:106-121 | Only the four arrow keys select a direction, each its own. Quit and Escape select none. |
| `Input.KeyDirectionOfArrow` | src/main.rs:106-121 | Each direction is selected by its arrow key. |
| `Input.ApplyEventsQuits` | src/main.rs:99-105 | Polling stops the game exactly when some event is Quit or Escape. |
| `Input.ApplyEventsLastArrow` | src/main.rs:99-124 | Without Quit or Escape, the direction after polling is the one of the last arrow key, or unchanged if there is none. |
| `Input.ReversalAccepted` | src/main.rs:106-121 | The arrow opposite to the direction of travel is accepted: there is no reversal guard. |
| `Snake.InitialWellFormed` | src/main.rs:74-80 | Every possible initial snake is `[(sx,sy), (sx-1,sy), (sx-2,sy)]` with its head at the start cell. It has length 3, lies on the field, is connected and does not bite itself. |
| `Snake.Score` | src/main.rs:171 | The score passed to `draw_score` is the length minus 3. It exists only for lengths of at least 3, because `usize` subtraction cannot go below 0. |
| `Snake.Advance` | src/main.rs:126-165 | A bite (head equal to a segment at index ≥ 1) ends the tick and changes nothing. Otherwise the tick ends exactly when the step is refused at a wall. The apple is replaced exactly when the head is on it. The length grows by 1 when eating and otherwise stays the same. The new head is the old head shifted by one cell in the direction. The rest of the body is the old body when eating, or the old body without its tail otherwise. The direction is unchanged. |
| `Snake.AdvanceEndsExactly` | src/main.rs:126-164 | With the head on the field, a tick ends the game exactly when the head bites the body or the step would leave the field. |
| `Snake.AdvancePreservesPlayable` | src/main.rs:133-165 | A tick that does not end the game keeps the body at least 3 long, entirely on the field and connected, and keeps the apple in its range. |
| `Snake.Play` | src/main.rs:98-175 | Frames run in order: events, then tick, then score. While the game has not ended, the state stays playable and one score is drawn per frame. |
| `Snake.PlayScoresClimb` | src/main.rs:133-171 | Across frames, the drawn score never decreases and rises by at most 1 per frame. |
| `Snake.PlayFirstScore` | src/main.rs:133-171 | The first drawn score is the starting score or one more. |
| `Snake.PlayLastScore` | src/main.rs:165-171 | While the game goes on, the last drawn score is the current length minus 3. |
| `Snake.ReversalEndsGame` | src/main.rs:106-131 | From any initial state, pressing Left on the first frame puts the head on its neck, and the next frame ends the game. The only score drawn is 0, or 1 when the first apple lay on the start cell. |
| `SnakeGame.HeadHitsBody` | src/main.rs:126-131 | The scan over the segments after the head reports a hit exactly when the head equals one of them. |
| `SnakeGame.Game.constructor` | src/main.rs:71-92 | The new game heads right, its body is the three-cell initial snake at a start cell drawn from the margin range, and the object invariant holds. |
| `SnakeGame.Game.PollEvents` | src/main.rs:99-124 | The event loop changes only the direction, exactly as `ApplyEvents` says, and reports whether Quit or Escape was seen. |
| `SnakeGame.Game.Tick` | src/main.rs:126-165 | The in-place tick (scan, pop or new apple, wall check, insert at index 0) leaves the body, the apple and the game-over flag exactly as `Advance` gives them, on the ticks that end the game too. |
| `SnakeGame.Game.Run` | src/main.rs:94-177 | The game loop places the first apple, then runs the frames. It ends, reaches a state and draws scores exactly as `Play` says. The object invariant holds whenever the loop has not ended, so `len - 3` never underflows. |

## Left out

- SDL2 window, canvas, textures, fonts and text (`draw_grid`, `draw_snake`, `draw_apple`, the drawing in `draw_score`, `draw_press_key_msg`) are calls into an external library with no game logic.
- Frame timing (`thread::sleep` at 15 frames per second), `show_game_over_screen`, `process::exit` and the outer `run()` loop are process control. In the model, "ended" is where the game-over screen would be shown, for Quit and Escape as well as for a collision.
- The random generator (`rand::thread_rng`) is not modelled. Each `gen_range` call receives its draw as a parameter and returns `low + draw % (high - low)`. This keeps exactly the range the generator guarantees, not its distribution.
- The unused `width: 800` and `height: 600` fields, and `sdl_context`, `font`, `rng` and `canvas`, are not modelled. `cell_width` and `cell_height` are module constants rather than fields, because they never change.
- A key press without a key code, and every other key or event, is modelled as `OtherKey` or `OtherEvent`, which the event loop ignores.
- `usize` coordinates are modelled as `nat`. Every subtraction in the source is guarded (`head.1 == 0`, `head.0 == 0`, a start x of at least 5), so no wrap-around can occur.
- SnakeGame.Game.Run: runs over a finite sequence of frames and returns when they are used up, while the source's loop runs until game over or Quit.
- `apple` is a local variable of `Game::run`, not a field. `Tick` takes it as a parameter and returns the new one.
