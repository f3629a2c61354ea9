# Snake game state machine in Dafny

This project models the game logic of the WinForms snake game `SnakeGame`
(`CustomSnake/CustomSnake/snakeGameFile.cs`). The form, its controls and its
timer plumbing are left out. What remains is one sequential state object:

- the snake body, a list of cells with the head at index 0;
- the food cell, the direction `(dirX, dirY)`, the score and the pause flag;
- the game timer (a running flag and an interval in milliseconds);
- the two selectors (difficulty and mode), which share one enabled flag.

The grid is fixed at 600/10 × 400/10 = 60 × 40 cells.

Two modules:

- `SnakeLogic` (`snake_logic.dfy`) holds the rules as values. It has the wrap,
  the body shift, the direction rule and the difficulty table, and a
  `Game` record of the whole state. It has one function per step of a timer
  tick, composed into `Tick`. Its lemmas state what a tick does.
- `SnakeGameForm` (`snake_game.dfy`) holds the class `SnakeGame`. Its fields
  are the ones the form mutates, and its methods are the form's handlers
  (`NewGame`, `EndGame`, `Update`, `ProcessCmdKey`, the start/pause click,
  paint). `NewGame`, `EndGame`, the start/pause click, `Update` and its step
  methods are proved to move the fields (seen as a `Game` through `View()`)
  exactly as the matching `SnakeLogic` function says. The other methods state
  their effect directly in their contracts. The body is
  a `seq` field that the methods reassign element by element, as the C# code
  index-assigns its `List<Point>`.

A tick runs its steps in the source's order:

1. recompute the interval;
2. check the pre-move head for a self-collision;
3. eat food under the pre-move head, appending a `(0, 0)` placeholder;
4. handle the boundary on the pre-move head (game over in Classic, a
   one-axis wrap in Modern);
5. shift the body tail-to-head and step the head.

Two quirks of the code are kept on purpose:

- Collisions and boundaries are checked before the move. A head that has
  just left the grid, or run into the body, is caught one tick later.
- `Update` does not return after `EndGame`. The rest of the tick runs on the
  fresh game, so a game-over tick ends with the new snake at `(11, 10)`. It
  can also eat at once, if the new food was drawn on the spawn cell `(10, 10)`.

Randomness is a nondeterministic choice in `RandomNext`, constrained to
`[0, n)` as `rand.Next(n)` promises. `Update` names the at most two cells
drawn during a tick as ghost out-parameters `resetDraw` and `foodDraw`. Its
new state is `Tick(old state, resetDraw, foodDraw)`.

Because food and the boundary are tested on the head before it moves,
several outcomes come one tick later than the move that causes them:

- Food one cell ahead of the head is eaten on the second tick
  (`FoodAheadEatenOnSecondTick`).
- In Classic mode, a head that steps off the grid rests one tick outside it.
  The game ends on the next tick (`ClassicExitEndsOnSecondTick`).

## Model

| member | source | states |
|---|---|---|
| `SnakeLogic.Interval` | CustomSnake/CustomSnake/snakeGameFile.cs:114-122 | the interval is one of 200, 100 or 50 ms (Easy, Medium, Hard) |
| `SnakeLogic.Wrap` | CustomSnake/CustomSnake/snakeGameFile.cs:157-160 | Modern wrap changes at most one coordinate. It is the identity exactly on the grid. x changes only to the opposite edge when x is out. y changes only when x is in range. A head at most one cell off on one axis lands on the grid |
| `SnakeLogic.Shifted` | CustomSnake/CustomSnake/snakeGameFile.cs:164-170 | a move keeps the length; the head steps by the direction and each follower takes its predecessor's previous cell |
| `SnakeLogic.ShiftedAfterGrowth` | CustomSnake/CustomSnake/snakeGameFile.cs:144-170 | the placeholder appended on eating is overwritten by the shift: the result is the stepped head followed by the whole old body |
| `SnakeLogic.Steer` | CustomSnake/CustomSnake/snakeGameFile.cs:191-216 | an arrow key sets its direction unless it is the exact reverse of the current one; other keys change nothing; unit directions stay unit |
| `SnakeLogic.AcceptsIsAxisGuard` | CustomSnake/CustomSnake/snakeGameFile.cs:193-216 | for a unit direction, "not the reverse" is the source's guard: Up refused iff dirY == 1, Down iff dirY == -1, Left iff dirX == 1, Right iff dirX == -1 |
| `SnakeLogic.KeyDir` | CustomSnake/CustomSnake/snakeGameFile.cs:193-216 | each arrow key asks for a unit direction (Up is (0,-1), screen y grows downwards) |
| `SnakeLogic.Accepts` | CustomSnake/CustomSnake/snakeGameFile.cs:193-216 | only arrow keys are ever taken, and for a unit direction the key for the current direction is always taken |
| `SnakeLogic.Reset` | CustomSnake/CustomSnake/snakeGameFile.cs:97-112 | NewGame leaves a one-segment body on the board, a unit direction and score 0. The food is on the grid when the draw is, and the interval is the difficulty's. Pause, timer, selectors and selections are kept |
| `SnakeLogic.GameOver` | CustomSnake/CustomSnake/snakeGameFile.cs:176-185 | EndGame leaves a paused game with the timer stopped and the selectors enabled. The selections are kept, and for a draw on the grid the invariant holds |
| `SnakeLogic.Toggled` | CustomSnake/CustomSnake/snakeGameFile.cs:61-78 | the click flips the pause flag, changes only the pause, timer and selector flags, and keeps the invariant |
| `SnakeLogic.CollisionStep` | CustomSnake/CustomSnake/snakeGameFile.cs:134-136 | no self-collision: nothing changes. A self-collision: a paused game with body `[(10,10)]`, score 0 and the draw as food |
| `SnakeLogic.FoodStep` | CustomSnake/CustomSnake/snakeGameFile.cs:139-146 | head on the food: score and length +1, with the old body kept as a prefix. Otherwise nothing changes. Only the score, body and food can change |
| `SnakeLogic.BoundaryStep` | CustomSnake/CustomSnake/snakeGameFile.cs:148-161 | Classic: the head is on the grid afterwards, and a head on the grid changes nothing. Modern: only the head changes, and a head near the grid lands on it |
| `SnakeLogic.MoveStep` | CustomSnake/CustomSnake/snakeGameFile.cs:163-170 | the length is kept, the head steps by the direction, the followers are the old body without its last segment, and nothing else changes |
| `SnakeLogic.Tick` | CustomSnake/CustomSnake/snakeGameFile.cs:129-174 | one tick grows the body by at most one and never empties it. It sets the interval from the difficulty, keeps the selections, and adds at most 1 to the score unless it restarts the game |
| `SnakeLogic.TickMoves` | CustomSnake/CustomSnake/snakeGameFile.cs:129-174 | a tick with no game over and no food keeps the length. The body becomes `[h + dir] ++ ([h] ++ old[1..])[0..n-1)`, with `h` the head after boundary handling. Nothing but the body and the interval changes |
| `SnakeLogic.TickEats` | CustomSnake/CustomSnake/snakeGameFile.cs:139-170 | pre-move head on food and no self-collision: score +1 and length +1. The body becomes `[head + dir] ++ old`, the food moves to the draw, and nothing else changes |
| `SnakeLogic.TickAfterSelfCollision` | CustomSnake/CustomSnake/snakeGameFile.cs:134-170 | a self-collision leaves a paused, reset game. If the reset food is not on (10,10): score 0, body `[(11,10)]`, food the reset draw. If it is: score 1, body `[(11,10),(10,10)]`, food the second draw |
| `SnakeLogic.TickAfterLeavingGrid` | CustomSnake/CustomSnake/snakeGameFile.cs:148-170 | in Classic mode a pre-move head off the grid leaves a paused, reset game with score 0, body `[(11,10)]` and the reset draw as food |
| `SnakeLogic.TickPausesIffGameOver` | CustomSnake/CustomSnake/snakeGameFile.cs:134-161 | a running tick ends paused iff the pre-move head hits the body, or is off the grid in Classic mode |
| `SnakeLogic.StepStaysNear` | CustomSnake/CustomSnake/snakeGameFile.cs:167 | a unit step from a cell on the grid leaves the head at most one cell off it on one axis |
| `SnakeLogic.TickPreservesInv` | CustomSnake/CustomSnake/snakeGameFile.cs:129-174 | every tick keeps the invariant. The length is at least 1, the direction is a unit vector, the food and every follower are on the grid, the head is at most one cell off, the timer runs iff not paused, the selectors are enabled iff paused, and the score is at least 0 |
| `SnakeLogic.ModernHeadLandsInGrid` | CustomSnake/CustomSnake/snakeGameFile.cs:154-161 | in Modern mode the head is on the grid after boundary handling |
| `SnakeLogic.GameOverForgetsPlay` | CustomSnake/CustomSnake/snakeGameFile.cs:176-185 | the state after EndGame depends only on the selections and the drawn food |
| `SnakeLogic.ToggledTwice` | CustomSnake/CustomSnake/snakeGameFile.cs:61-78 | two start/pause clicks undo each other |
| `SnakeLogic.FirstTickOfFreshGame` | CustomSnake/CustomSnake/snakeGameFile.cs:129-174 | from `[(10,10)]` heading right with food elsewhere, one tick gives `[(11,10)]` with score 0 |
| `SnakeLogic.FoodAheadEatenOnSecondTick` | CustomSnake/CustomSnake/snakeGameFile.cs:139-170 | from `[(5,5)]` heading right with food at (6,5): the first tick only moves, the second eats (score +1, body `[(7,5),(6,5)]`) |
| `SnakeLogic.ClassicExitEndsOnSecondTick` | CustomSnake/CustomSnake/snakeGameFile.cs:148-170 | Classic, `[(0,0)]` heading left: the head rests at (-1,0) for a tick, and the next tick resets to `[(11,10)]` with score 0 |
| `SnakeGameForm.SnakeGame.constructor` | CustomSnake/CustomSnake/snakeGameFile.cs:24-95 | a new form is paused with the timer stopped. Easy and Classic are selected, the interval is 200 ms, the body is `[(10,10)]` heading right, and the score is 0 |
| `SnakeGameForm.SnakeGame.RandomNext` | CustomSnake/CustomSnake/snakeGameFile.cs:126 | `rand.Next(n)` returns some value in `[0, n)` |
| `SnakeGameForm.SnakeGame.PlaceFood` | CustomSnake/CustomSnake/snakeGameFile.cs:124-127 | the food lands on the grid |
| `SnakeGameForm.SnakeGame.UpdateDifficulty` | CustomSnake/CustomSnake/snakeGameFile.cs:114-122 | the interval becomes the selected difficulty's |
| `SnakeGameForm.SnakeGame.NewGame` | CustomSnake/CustomSnake/snakeGameFile.cs:97-112 | the body becomes `[(10,10)]`, the direction (1,0) and the score 0. The food is on the grid and the interval is recomputed. Nothing else changes |
| `SnakeGameForm.SnakeGame.EndGame` | CustomSnake/CustomSnake/snakeGameFile.cs:176-185 | the timer stops, the game pauses and the selectors are enabled, then NewGame runs |
| `SnakeGameForm.SnakeGame.StartPauseClick` | CustomSnake/CustomSnake/snakeGameFile.cs:61-78 | flips the pause flag; the timer runs iff not paused; the selectors are enabled iff paused |
| `SnakeGameForm.SnakeGame.SelectDifficulty` | CustomSnake/CustomSnake/snakeGameFile.cs:76-77 | the difficulty can change only while the selectors are enabled, and nothing else changes |
| `SnakeGameForm.SnakeGame.SelectMode` | CustomSnake/CustomSnake/snakeGameFile.cs:76-77 | the mode can change only while the selectors are enabled, and nothing else changes |
| `SnakeGameForm.SnakeGame.ProcessCmdKey` | CustomSnake/CustomSnake/snakeGameFile.cs:187-221 | paused: the direction is unchanged. Running: the per-axis guards give exactly `Steer`, so a reversal is refused and the direction stays a unit vector |
| `SnakeGameForm.SnakeGame.CheckSelfCollision` | CustomSnake/CustomSnake/snakeGameFile.cs:134-136 | the loop ends the game iff some segment after the head is on the head's cell. After EndGame the body has one segment and the loop stops |
| `SnakeGameForm.SnakeGame.EatFood` | CustomSnake/CustomSnake/snakeGameFile.cs:138-146 | food under the head: score +1, a `(0,0)` segment appended, food re-placed on the grid; otherwise nothing changes |
| `SnakeGameForm.SnakeGame.HandleBoundary` | CustomSnake/CustomSnake/snakeGameFile.cs:148-161 | Classic: EndGame iff the head is off the grid. Modern: the head is replaced by its wrap |
| `SnakeGameForm.SnakeGame.MoveSnake` | CustomSnake/CustomSnake/snakeGameFile.cs:163-170 | the tail-to-head loop leaves exactly `Shifted` of the old body |
| `SnakeGameForm.SnakeGame.Update` | CustomSnake/CustomSnake/snakeGameFile.cs:129-174 | the new state is `Tick` of the old one for two drawn cells on the grid. It keeps the invariant (see the `Tick*` lemmas) |
| `SnakeGameForm.SnakeGame.Paint` | CustomSnake/CustomSnake/snakeGameFile.cs:223-231 | one rectangle `(x*10, y*10, 10, 10)` per segment, head first, then one for the food. It reads the state only, so painting twice gives the same list |

## Left out

- The form's layout, `Controls.Add`, the label's "Score: n" text, the button's Start/Pause caption and the brush colours are left out. They are user-interface plumbing with no effect on game state.
- `MessageBox.Show("Game Over")` in EndGame is left out. Its modal wait has no effect on state.
- Timer scheduling and event dispatch are left out. The timer is a running flag and an interval, `Update` is a plain method call, and `gameCanvas.Invalidate()` (a redraw request) has no modelled effect.
- `System.Random` internals are left out. Only the range promised by `rand.Next(n)` is modelled, so food may land on the body, as in the source.
- The value returned by `base.ProcessCmdKey` is left out. It is a call into the toolkit that does not touch game state.
- The difficulty switch reads the selector's item text. Here the selection is an enumeration, so its unmatched default case cannot arise.
- Changing a selection is toolkit behaviour, not code in the source. It is modelled as `SelectDifficulty`/`SelectMode`, which require the selector to be enabled, as a disabled combo box takes no input.
- Coordinates and the score are unbounded integers, and C#'s 32-bit wrap-around is not modelled. `TickPreservesInv` keeps every coordinate within one cell of the 60 × 40 grid, and the score would need 2^31 meals to wrap.
- `Update`'s steps are split into the private methods `CheckSelfCollision`, `EatFood`, `HandleBoundary` and `MoveSnake`. They are called in the source's order, and their loops and branches are the source's, except one. The Modern wrap's if/else chain is the function `Wrap`, which `HandleBoundary` calls. Only the method boundaries are new.
