# Snake game state, in Dafny

This project models the game logic of a one-window Swing Snake game
(`SnakeGame.java`). The game runs on a 20 x 20 grid. Its state has five
fields:

- `snake`: the cells of the snake, head first;
- `food`: the food cell;
- `direction`: 0 up, 1 right, 2 down, 3 left;
- `score`;
- `gameOver`.

A timer tick runs `move`. The arrow keys run `keyPressed`. The "Play Again"
button runs `resetGame`. Food is placed by `generateFood`, which draws random
cells until it finds one that is not on the snake.

The model has two modules:

- `SnakeGame` (`snake_game.dfy`) holds the pure rules and the class `Game`.
  The pure rules are `NextHead` (the clamped step), `IsCollisionWithBorders`,
  `Turn` (the key rule) and `FirstFree` (which random draw food placement
  accepts). `Game` has the five fields. Its methods `Move`, `KeyPressed`,
  `GenerateFood` and `Reset`, and its constructor, update those fields in
  place, as the Java methods do. Each one keeps the object invariant
  `Game.Valid()`:
  - the snake is non-empty and on the grid;
  - the body behind the head has no repeated cell;
  - the game is over exactly when the head lies on that body;
  - the food is on the grid and not on the snake;
  - the direction is 0..3;
  - the score is the snake's length minus one.
- `FreeCells` (`free_cells.dfy`) proves how much room the grid leaves. A
  snake of distinct grid cells has at most 400 cells. A free cell exists
  exactly when it has fewer. This says when the food search can succeed.

`EatFirstFoodScenario` is a client of the class. It shows that one tick onto
food right of the centre gives the snake `[(11,10), (10,10)]` and score 1.

## Model

| member | source | states |
|---|---|---|
| SnakeGame.NextHead | SnakeGame.java:97-109 | From a grid cell, the new head is on the grid. It is the plain one-cell step in the current direction when that step stays on the grid, and the old head when the step would leave it (clamp, not wrap). |
| SnakeGame.IsCollisionWithBorders | SnakeGame.java:130-132 | True exactly when the point is off the 20 x 20 grid. |
| SnakeGame.ClampedHeadNeverHitsBorder | SnakeGame.java:97-132 | Because of clamping, the border test in the collision check is always false for the new head. |
| SnakeGame.MoveIntoWallHolds | SnakeGame.java:98-108 | At each wall, moving into it keeps the head in place: up from y = 0 stays at y = 0, and likewise right, down and left. |
| SnakeGame.Turn | SnakeGame.java:183-194 | The new direction is always 0..3 and never the reverse of the old one. Any other key leaves the direction as it is. An arrow key sets its own direction exactly when that is not the reverse of the current one; otherwise nothing changes. |
| SnakeGame.TwoPressesCanReverse | SnakeGame.java:185-193 | Only the current direction is compared. So Up then Left, pressed before one tick while moving right, gives the reverse of right. |
| SnakeGame.FirstFree | SnakeGame.java:79-87 | The rejection loop accepts the first draw that is not on the snake: that draw is free, and every earlier draw is on the snake. |
| SnakeGame.TailCellIsFree | SnakeGame.java:119-127 | The tail is removed before the collision check. So a head moving onto the cell the tail just left does not end the game. |
| SnakeGame.WallMoveEndsGame | SnakeGame.java:97-127 | A snake of two or more cells whose clamped new head equals its old head runs into its own second cell, so the game ends. |
| SnakeGame.EatingNeverCollides | SnakeGame.java:114-127 | Eating never ends the game: the food was not on the snake it is prepended to. |
| SnakeGame.Game.constructor | SnakeGame.java:24-77 | A new game has the one-cell snake at (10,10), direction right, score 0, not over. The food is the first free draw, so it is not on the snake. The invariant holds. |
| SnakeGame.Game.GenerateFood | SnakeGame.java:79-87 | The do/while loop leaves the food on the first draw not on the snake, a grid cell off the snake. Only `food` changes. |
| SnakeGame.Game.Move | SnakeGame.java:89-128 | A finished game does not change. Otherwise, if the new head is the food, the snake becomes the head followed by the old snake, the score goes up by 1, new food is the first free draw and the game goes on. If not, the snake becomes the new head followed by the old snake minus its last cell, and score and food are unchanged. The game is then over exactly when the new head lies on the rest of the snake. The direction never changes. The invariant is kept: food stays off the snake and the length changes by 0 or 1 with the score. |
| SnakeGame.Game.KeyPressed | SnakeGame.java:182-194 | The if/else chain over the four arrow keys sets the direction to `Turn` of the old direction and the key. The invariant is kept. |
| SnakeGame.Game.Reset | SnakeGame.java:140-151 | The snake is again the single cell (10,10), with direction right, score 0 and not over. Food is the first free draw, so it is off the snake. The invariant holds. |
| FreeCells.SnakeFitsInGrid | SnakeGame.java:79-86 | A snake of distinct grid cells has at most 400 cells. |
| FreeCells.FreeCellIffRoom | SnakeGame.java:79-86 | For a snake of distinct grid cells, a free grid cell exists exactly when the snake has fewer than 400 cells. Only then can the rejection loop end. |
| FreeCells.ScoreFitsGrid | SnakeGame.java:114-122 | In every valid state the score is at most 399, and in a live game at most 398. So the `int` score and coordinates never overflow. |
| FreeCells.FreeCellAfterEating | SnakeGame.java:114-118 | When a live game's next head is the food, a free cell for the new food exists exactly when the snake had fewer than 399 cells. |

## Left out

- Swing and AWT: the frame, the labels and the button with their visibility, `updateScoreLabel`, `paint`, `repaint`, the `Timer`, `main` and `SwingUtilities`. This is display and event plumbing. `gameOver()` is modelled only as setting the flag.
- `java.util.Random`: each operation that places food takes `draws`. These are the successive `(nextInt(20), nextInt(20))` pairs, each on the grid.
- SnakeGame.Game.GenerateFood: the search does not end when the grid has no free cell. Callers must supply draws with a free cell among them: `HasFreeDraw`. `FreeCells.FreeCellAfterEating` shows that this is impossible exactly when a 399-cell snake eats the last free cell. The model adds no "win" state, because the code has none.
- SnakeGame.Game.Move: the Java `default:` branch of the direction switch is unreachable, because `Valid()` keeps the direction in 0..3.
- `KeyEvent` key codes: the four arrow keys become the datatype `Key`, and every other key becomes `OtherKey`.
- `keyTyped` and `keyReleased` have empty bodies.
- Java 32-bit `int` arithmetic is modelled with unbounded integers. All coordinates stay in 0..19 and the score below 400 (`FreeCells.ScoreFitsGrid`), so nothing can wrap.

## Notes on the code

The model follows the code:

- A key press sets `direction` at once. There is no pending direction. Its reverse check uses the current direction, not the direction of the last tick. So two presses in one tick can reverse the snake into its own neck (`SnakeGame.TwoPressesCanReverse`).
- When the grid is full, food placement loops forever. It does not declare a win.
- The border check in `move` can never fire, because the new head is clamped (`SnakeGame.ClampedHeadNeverHitsBorder`).
