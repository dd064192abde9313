# Snake game engine, modelled in Dafny

This project models the game-state engine of a single-player snake game on a 25 × 25 grid. The engine lives in `src/SnakeGame.java`. The snake is a sequence of cells with the head first. Each tick moves the head one cell in the current heading. If the head lands on the fruit, the snake grows by that cell and a new fruit is placed on a free cell. Otherwise the snake translates: the new head is added and the tail cell leaves. Then the collision test runs. The game ends when the head is off the grid or on another body cell. Because this test runs after the tail has left, following the tail into the cell it just vacated is legal. An arrow key changes the heading unless it asks for the exact reverse, which is silently ignored. A restart puts a one-cell snake at the centre, heading right, with a fresh fruit.

Everything is in `snake_game.dfy`, module `Snake`:

- Value types: `Cell`, `Direction` (`Up | Right | Down | Left`, with `Value()` giving the source's codes 0 to 3), and `Key`.
- Pure functions: `Step` (head displacement), `Grow`, `Translate`, `Collides` (the condition in `checkCollision()`) and `Turn` (the heading rule).
- Lemmas about those functions.
- The class `SnakeGame`. Its fields `snake: seq<Cell>`, `fruit`, `direction` and `alive` are updated in place by `Move`, `CheckCollision`, `HandleGameOver`, `RestartGame` and `KeyPressed`, like the Java fields.
- `alive` stands for the Swing timer running. `timer.stop()` becomes `alive := false`.
- The object invariant `Valid()` says four things. The snake is non-empty. The fruit is on the grid. The fruit is off the snake. While alive, the snake is on the grid and has no duplicate cell.

**Random fruit placement.** `createFruit()` retries `Random.nextInt(GRID_SIZE)` draws until one is off the snake. The model takes that random stream as a parameter `draws`. Each draw is a grid cell, which is what `nextInt(GRID_SIZE)` returns. For the loop to exit, some draw must be free. `CreateFruit` walks the stream in a `while` loop and returns the first free draw.

**The full-grid case.** When the snake fills the grid, no draw can be free, so the source's loop never exits. `FreeCellNeedsRoom` proves this by counting: a free grid cell exists only while the snake covers fewer than 625 cells. So `Move` can be called in the case that eats the last free cell only when some free draw exists, and no such draw can exist.

**Dead games and `Move`.** `Move` does not require the game to be alive. It follows the source's `move()` on any state that satisfies `Valid()`, alive or dead, and every state the game can reach satisfies it. Once dead, `alive` comes back only through a restart.

The last methods of the file (`NewGame`, `ScenarioHeading`, `ScenarioEat`, `ScenarioWall`, `ScenarioVacatedTail`, `ScenarioSelfCollision`, `ScenarioDoubleTurn`, `ScenarioDoubleTurnShort`) are client code. Using the contracts alone, each derives one expected behaviour: eating, translating, hitting a wall, restarting, following the tail, and hitting the body. `ScenarioDoubleTurn` shows what the reversal guard does not prevent. It compares a request with the stored heading, not with the heading of the last move. So pressing UP and then LEFT within one tick turns a snake of three or more cells moving RIGHT back into its own neck, and the game ends. A two-cell snake instead reverses into its vacated tail and lives, as `ScenarioDoubleTurnShort` shows.

## Model

| member | source | states |
|---|---|---|
| `Snake.Direction.Value` | src/SnakeGame.java:62-74 | each heading carries one of the integer codes 0 to 3 (UP 0, RIGHT 1, DOWN 2, LEFT 3) |
| `Snake.ValueInjective` | src/SnakeGame.java:62-74 | two headings have the same code exactly when they are the same heading |
| `Snake.Direction.Opposite` | src/SnakeGame.java:171-186 | the heading a key press may not switch to is the reverse one, whose code is the current code plus 2, modulo 4 |
| `Snake.Step` | src/SnakeGame.java:81-94 | the new head is one unit from the old head: vertical moves keep x, horizontal moves keep y, and the head always changes |
| `Snake.StepOpposite` | src/SnakeGame.java:81-94 | a step followed by a step in the reverse heading returns to the starting cell |
| `Snake.Grow` | src/SnakeGame.java:96-97 | eating adds the new head in front and drops nothing: one cell longer, the old snake behind the head, and no cell other than the new head appears; `GrowPreserves` shows that eating a valid fruit never collides and keeps the snake well formed |
| `Snake.Translate` | src/SnakeGame.java:99-101 | a plain step adds the new head and drops the tail: same length, the old snake without its last cell behind the head, and no cell other than the new head appears; `TranslateCollidesIff`, `EnterVacatedTail` and `TranslatePreserves` give its collision and invariant behaviour |
| `Snake.Collides` | src/SnakeGame.java:109 | the test passes exactly when the head is on the grid and differs from every other cell; a well-formed snake never collides; `TranslateCollidesIff` restates it for a tick in terms of the old snake |
| `Snake.Turn` | src/SnakeGame.java:171-186 | a request for the reverse of the current heading leaves the heading unchanged; any other request becomes the heading; the result is never the reverse of the current heading |
| `Snake.TurnIdempotent` | src/SnakeGame.java:171-186 | repeating a heading request gives the same heading as making it once |
| `Snake.TranslateCollidesIff` | src/SnakeGame.java:99-111 | on a tick that does not eat, alive or dead, the game ends exactly when the new head is off the grid or on a body cell other than the vacated tail |
| `Snake.EnterVacatedTail` | src/SnakeGame.java:99-111 | moving the head into the cell the tail vacates in the same tick is not a collision |
| `Snake.TranslatePreserves` | src/SnakeGame.java:99-111 | a tick that does not eat and does not collide keeps the snake on the grid and free of duplicates, and keeps the fruit off it |
| `Snake.GrowPreserves` | src/SnakeGame.java:96-111 | eating a fruit that is on the grid and off the snake never collides and keeps the snake well formed |
| `Snake.FreeCellNeedsRoom` | src/SnakeGame.java:54-57 | a grid cell off a duplicate-free, in-grid snake exists only while the snake has fewer than GRID_SIZE × GRID_SIZE cells |
| `Snake.FreeDrawNeedsRoom` | src/SnakeGame.java:54-57 | the retry loop can find a free draw only while the snake leaves some cell free; on a full grid it cannot stop |
| `Snake.SnakeGame.CreateFruit` | src/SnakeGame.java:51-59 | the returned fruit is on the grid, is off the snake and is the first draw of the random stream that is off the snake; the snake is not modified |
| `Snake.SnakeGame.constructor` | src/SnakeGame.java:36-42 | the game starts with the snake exactly [(12, 12)], heading RIGHT, alive, and the fruit at the first free draw; the invariant holds |
| `Snake.SnakeGame.Move` | src/SnakeGame.java:77-105 | new head = old head stepped in the heading; on eating: length + 1, the body behind the head is the whole old snake, and the new fruit is the first free draw; otherwise: same length, the body behind the head is the old snake without its last cell, and the fruit is unchanged; the heading is unchanged; alive afterwards exactly when it was alive and the new snake does not collide; the invariant is preserved |
| `Snake.SnakeGame.CheckCollision` | src/SnakeGame.java:107-112 | the game is over after the test exactly when it already was, or the head is off the grid or on another snake cell |
| `Snake.SnakeGame.HandleGameOver` | src/SnakeGame.java:114-115 | game over stops the tick timer (alive becomes false) |
| `Snake.SnakeGame.RestartGame` | src/SnakeGame.java:125-131 | after restart the snake is exactly [(12, 12)], the heading is RIGHT, the game is alive, the fruit is at the first free draw, and the invariant holds |
| `Snake.SnakeGame.KeyPressed` | src/SnakeGame.java:168-188 | an arrow key sets the heading to `Turn(old heading, arrow)`, so a reversal is ignored; any other key leaves the heading unchanged |

## Left out

- Rendering (`paint()`, tile-pixel arithmetic, the commented-out grid lines) is display only.
- Window setup in `initializeGame()` and `setupUI()` (title, size, close operation, focus, key-listener registration) is UI plumbing. Only the state set up there is modelled, in the constructor.
- The `javax.swing.Timer` and `actionPerformed` (which calls `move()` then `repaint()`) are left out as event-loop plumbing. The timer running is the `alive` flag.
- The play-again dialog and `System.exit` in `handleGameOver()` are interactive I/O. The model keeps the transition to dead in `HandleGameOver`, and restart is the explicit `RestartGame`.
- `java.util.Random` is a foreign, nondeterministic source. It becomes the caller-supplied `draws` sequence, with a precondition that its values are grid cells and that one of them is free.
- Snake.SnakeGame.CreateFruit: the source's loop runs forever when no cell is free. The model cannot express a call that never returns, so it requires a free draw. `FreeDrawNeedsRoom` shows that this excludes the full-grid case.
- Snake.SnakeGame.Move: the eating case requires a free draw for the grown snake, for the same reason. A tick that eats the last free cell is not modelled; in the source it hangs in `createFruit()`.
- The mapping from AWT key codes to arrows is left out. `Key` has the four arrows and `OtherKey` for every other key.
- The source stores the heading as an `int` and its `move()` switch has no default case. The model's `Direction` datatype has exactly the four values, so a heading outside 0 to 3 cannot be written.
- `GRID_SIZE / 2` is 12 with Java's integer division, and Dafny's division agrees for this positive operand. Coordinates are unbounded integers: a head is at most one cell off the grid before the game ends, so 32-bit overflow cannot arise.
