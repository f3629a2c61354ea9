/** The rules of the snake game as values: cells, the four directions, the
    difficulty table, the Modern-mode wrap, the body shift, and one function
    per step of a timer tick. The class in snake_game.dfy is proved to update
    its fields exactly as `Tick` says; the lemmas here say what a tick does. */
module SnakeLogic {

  /** A grid cell (System.Drawing.Point); also used for the pixel origin of a rectangle. */
  datatype Point = Point(x: int, y: int)

  /** The items of the difficulty selector. */
  datatype Difficulty = Easy | Medium | Hard

  /** The items of the mode selector. */
  datatype Mode = Classic | Modern

  /** The keys the form reacts to; every other key is `OtherKey`. */
  datatype Key = Up | Down | Left | Right | OtherKey

  /** One FillRectangle call of the paint handler (colour left out). */
  datatype Rect = Rect(x: int, y: int, width: int, height: int)

  const CellSize: int := 10
  const CanvasWidth: int := 600
  const CanvasHeight: int := 400
  const GridWidth: int := CanvasWidth / CellSize
  const GridHeight: int := CanvasHeight / CellSize

  /** Where every new game starts its one-segment snake. */
  const Spawn: Point := Point(10, 10)

  /** The segment appended when food is eaten (`new Point()`). */
  const Placeholder: Point := Point(0, 0)

  predicate InGrid(p: Point) {
    0 <= p.x < GridWidth && 0 <= p.y < GridHeight
  }

  /** At most one cell outside the grid, and on one axis only: where a head
      that stood inside the grid can be after one unit move. */
  predicate NearGrid(p: Point) {
    && -1 <= p.x <= GridWidth
    && -1 <= p.y <= GridHeight
    && (0 <= p.x < GridWidth || 0 <= p.y < GridHeight)
  }

  predicate IsUnit(dx: int, dy: int) {
    (dx == 0 && (dy == 1 || dy == -1)) || (dy == 0 && (dx == 1 || dx == -1))
  }

  // ---------------------------------------------------------------------
  // Difficulty

  /** The timer interval, in milliseconds, that a difficulty selects. */
  function Interval(d: Difficulty): (ms: int)
    ensures ms == 200 || ms == 100 || ms == 50
  {
    match d
    case Easy => 200
    case Medium => 100
    case Hard => 50
  }

  // ---------------------------------------------------------------------
  // Boundary handling and movement

  /** Modern-mode boundary handling of the head: the first out-of-range test
      that holds, in the order x < 0, x >= width, y < 0, y >= height, moves
      that coordinate to the opposite edge; nothing else changes. */
  function Wrap(p: Point): (q: Point)
    ensures q.x == p.x || q.y == p.y
    ensures InGrid(p) <==> q == p
    ensures q.x != p.x ==> (p.x < 0 && q.x == GridWidth - 1) || (p.x >= GridWidth && q.x == 0)
    ensures q.y != p.y ==>
              && 0 <= p.x < GridWidth
              && ((p.y < 0 && q.y == GridHeight - 1) || (p.y >= GridHeight && q.y == 0))
    ensures NearGrid(p) ==> InGrid(q)
  {
    if p.x < 0 then Point(GridWidth - 1, p.y)
    else if p.x >= GridWidth then Point(0, p.y)
    else if p.y < 0 then Point(p.x, GridHeight - 1)
    else if p.y >= GridHeight then Point(p.x, 0)
    else p
  }

  /** The body after one move: the head steps by (dx, dy) and every other
      segment takes the cell its predecessor held before the move. */
  function Shifted(s: seq<Point>, dx: int, dy: int): (r: seq<Point>)
    requires |s| >= 1
    ensures |r| == |s|
    ensures r[0] == Point(s[0].x + dx, s[0].y + dy)
    ensures forall i :: 1 <= i < |r| ==> r[i] == s[i - 1]
  {
    [Point(s[0].x + dx, s[0].y + dy)] + s[..|s| - 1]
  }

  /** Growing the body by one segment before a move leaves the whole old body
      behind the new head: the appended segment is overwritten by the shift. */
  lemma ShiftedAfterGrowth(s: seq<Point>, extra: Point, dx: int, dy: int)
    requires |s| >= 1
    ensures Shifted(s + [extra], dx, dy) == [Point(s[0].x + dx, s[0].y + dy)] + s
  {
  }

  /** Some segment other than the head stands on the head's cell. */
  predicate SelfCollides(s: seq<Point>)
    requires |s| >= 1
  {
    exists i :: 1 <= i < |s| && s[i] == s[0]
  }

  // ---------------------------------------------------------------------
  // Direction input

  /** The unit vector an arrow key asks for (screen y grows downwards). */
  function KeyDir(key: Key): (d: (int, int))
    requires key != OtherKey
    ensures IsUnit(d.0, d.1)
  {
    match key
    case Up => (0, -1)
    case Down => (0, 1)
    case Left => (-1, 0)
    case Right => (1, 0)
  }

  /** A key press is taken unless it is not an arrow or it asks for the exact
      reverse of the current direction. */
  predicate Accepts(dx: int, dy: int, key: Key)
    ensures Accepts(dx, dy, key) ==> key != OtherKey
    ensures IsUnit(dx, dy) && key != OtherKey && KeyDir(key) == (dx, dy) ==> Accepts(dx, dy, key)
  {
    key != OtherKey && KeyDir(key) != (-dx, -dy)
  }

  /** The direction after a key press while the game runs. */
  function Steer(dx: int, dy: int, key: Key): (r: (int, int))
    ensures IsUnit(dx, dy) ==> IsUnit(r.0, r.1)
    ensures Accepts(dx, dy, key) ==> r == KeyDir(key)
    ensures !Accepts(dx, dy, key) ==> r == (dx, dy)
  {
    if Accepts(dx, dy, key) then KeyDir(key) else (dx, dy)
  }

  /** For a unit direction, "not the reverse" is exactly the per-key guard on
      one coordinate: Up is refused iff dy == 1, Down iff dy == -1, Left iff
      dx == 1 and Right iff dx == -1. */
  lemma AcceptsIsAxisGuard(dx: int, dy: int)
    requires IsUnit(dx, dy)
    ensures Accepts(dx, dy, Up) <==> dy != 1
    ensures Accepts(dx, dy, Down) <==> dy != -1
    ensures Accepts(dx, dy, Left) <==> dx != 1
    ensures Accepts(dx, dy, Right) <==> dx != -1
  {
  }

  // ---------------------------------------------------------------------
  // The whole game state as a value

  /** Every field the form mutates: the body (head first), food, direction,
      score, the pause flag, the timer (running flag and interval), the
      enabled flag shared by both selectors, and the two selections. */
  datatype Game = Game(
    snake: seq<Point>,
    food: Point,
    dirX: int,
    dirY: int,
    score: int,
    paused: bool,
    timerRunning: bool,
    interval: int,
    selectorsEnabled: bool,
    difficulty: Difficulty,
    mode: Mode)

  /** Every segment behind the head is on the grid; the head is at most one
      cell off it. */
  predicate OnBoard(s: seq<Point>) {
    |s| >= 1 && NearGrid(s[0]) && forall i :: 1 <= i < |s| ==> InGrid(s[i])
  }

  /** What holds between any two events. */
  predicate Inv(g: Game) {
    && OnBoard(g.snake)
    && IsUnit(g.dirX, g.dirY)
    && InGrid(g.food)
    && g.score >= 0
    && g.timerRunning == !g.paused
    && g.selectorsEnabled == g.paused
    && (g.interval == 200 || g.interval == 100 || g.interval == 50)
  }

  /** NewGame: a one-segment snake at the spawn cell heading right, score 0,
      food at `draw`, interval from the current difficulty. */
  function Reset(g: Game, draw: Point): (t: Game)
    ensures OnBoard(t.snake) && |t.snake| == 1 && IsUnit(t.dirX, t.dirY) && t.score == 0
    ensures InGrid(draw) ==> InGrid(t.food)
    ensures t.interval == Interval(g.difficulty)
    ensures t.paused == g.paused && t.timerRunning == g.timerRunning
    ensures t.selectorsEnabled == g.selectorsEnabled
    ensures t.difficulty == g.difficulty && t.mode == g.mode
  {
    g.(snake := [Spawn], dirX := 1, dirY := 0, score := 0, food := draw,
       interval := Interval(g.difficulty))
  }

  /** EndGame: stop the timer, pause, enable the selectors, start a new game. */
  function GameOver(g: Game, draw: Point): (t: Game)
    ensures t.paused && !t.timerRunning && t.selectorsEnabled
    ensures InGrid(draw) ==> Inv(t)
    ensures t.difficulty == g.difficulty && t.mode == g.mode
  {
    Reset(g.(timerRunning := false, paused := true, selectorsEnabled := true), draw)
  }

  /** The start/pause button. */
  function Toggled(g: Game): (t: Game)
    ensures t.paused == !g.paused
    ensures t.(paused := g.paused, timerRunning := g.timerRunning,
               selectorsEnabled := g.selectorsEnabled) == g
    ensures Inv(g) ==> Inv(t)
  {
    g.(paused := !g.paused, timerRunning := g.paused, selectorsEnabled := !g.paused)
  }

  /** Tick step 2: a self-collision of the pre-move head ends the game. */
  function CollisionStep(g: Game, draw: Point): (t: Game)
    requires |g.snake| >= 1
    ensures |t.snake| >= 1
    ensures !SelfCollides(g.snake) ==> t == g
    ensures SelfCollides(g.snake) ==>
              t.paused && t.snake == [Spawn] && t.score == 0 && t.food == draw
  {
    if SelfCollides(g.snake) then GameOver(g, draw) else g
  }

  /** Tick step 3: a head on the food scores, grows the body by a placeholder
      and moves the food to `draw`. */
  function FoodStep(g: Game, draw: Point): (t: Game)
    requires |g.snake| >= 1
    ensures var ate := if g.snake[0] == g.food then 1 else 0;
            && |t.snake| == |g.snake| + ate
            && t.score == g.score + ate
    ensures t.snake[..|g.snake|] == g.snake
    ensures g.snake[0] != g.food ==> t == g
    ensures t.(score := g.score, snake := g.snake, food := g.food) == g
  {
    if g.snake[0] == g.food
    then g.(score := g.score + 1, snake := g.snake + [Placeholder], food := draw)
    else g
  }

  /** Tick step 4: Classic ends the game when the pre-move head is off the
      grid; Modern wraps the head. */
  function BoundaryStep(g: Game, draw: Point): (t: Game)
    requires |g.snake| >= 1
    ensures |t.snake| >= 1
    ensures g.mode == Classic ==> InGrid(t.snake[0])
    ensures g.mode == Classic && InGrid(g.snake[0]) ==> t == g
    ensures g.mode == Modern ==>
              && t.snake[1..] == g.snake[1..]
              && t.(snake := g.snake) == g
              && (NearGrid(g.snake[0]) ==> InGrid(t.snake[0]))
  {
    match g.mode
    case Classic => if InGrid(g.snake[0]) then g else GameOver(g, draw)
    case Modern => g.(snake := g.snake[0 := Wrap(g.snake[0])])
  }

  /** Tick step 5: move the body. */
  function MoveStep(g: Game): (t: Game)
    requires |g.snake| >= 1
    ensures |t.snake| == |g.snake|
    ensures t.snake[0] == Point(g.snake[0].x + g.dirX, g.snake[0].y + g.dirY)
    ensures t.snake[1..] == g.snake[..|g.snake| - 1]
    ensures t.(snake := g.snake) == g
  {
    g.(snake := Shifted(g.snake, g.dirX, g.dirY))
  }

  /** One timer tick. `resetDraw` is the food cell drawn if the game ends
      during the tick, `foodDraw` the one drawn if food is eaten. The steps
      run in order and each sees the state the previous one left, including
      the fresh game that a game over has just set up. */
  function Tick(g: Game, resetDraw: Point, foodDraw: Point): (t: Game)
    requires |g.snake| >= 1
    ensures 1 <= |t.snake| <= |g.snake| + 1
    ensures t.interval == Interval(g.difficulty)
    ensures t.difficulty == g.difficulty && t.mode == g.mode
    ensures t.score == g.score || t.score == g.score + 1 || t.score <= 1
  {
    var g1 := g.(interval := Interval(g.difficulty));
    var g2 := CollisionStep(g1, resetDraw);
    var g3 := FoodStep(g2, foodDraw);
    var g4 := BoundaryStep(g3, resetDraw);
    MoveStep(g4)
  }

  /** A tick calls EndGame exactly when the pre-move head hits the body, or,
      in Classic mode, lies off the grid. */
  predicate EndsGame(g: Game)
    requires |g.snake| >= 1
  {
    SelfCollides(g.snake) || (g.mode == Classic && !InGrid(g.snake[0]))
  }

  /** The fixed part of the state a game over leaves. */
  predicate Restarted(t: Game, g: Game) {
    && t.paused && !t.timerRunning && t.selectorsEnabled
    && t.dirX == 1 && t.dirY == 0
    && t.interval == Interval(g.difficulty)
    && t.difficulty == g.difficulty && t.mode == g.mode
  }

  // ---------------------------------------------------------------------
  // What one tick does

  /** The head after boundary handling, when the game does not end. */
  function BoundedHead(mode: Mode, p: Point): Point {
    if mode == Modern then Wrap(p) else p
  }

  /** A tick without game over and without food keeps the length: the new
      body is the bounded head stepped once, followed by the bounded head and
      all but the last two old segments. Nothing but the body and the
      recomputed interval changes. */
  lemma TickMoves(g: Game, r: Point, e: Point)
    requires |g.snake| >= 1
    requires !EndsGame(g) && g.snake[0] != g.food
    ensures var h := BoundedHead(g.mode, g.snake[0]);
            var t := Tick(g, r, e);
            && |t.snake| == |g.snake|
            && t.snake == [Point(h.x + g.dirX, h.y + g.dirY)] + ([h] + g.snake[1..])[..|g.snake| - 1]
            && t == g.(snake := t.snake, interval := Interval(g.difficulty))
  {
  }

  /** A tick whose pre-move head is on the food (and does not hit the body)
      adds exactly one to the score and one segment to the body: the old body
      follows the stepped head, and the food moves to the draw. */
  lemma TickEats(g: Game, r: Point, e: Point)
    requires |g.snake| >= 1 && InGrid(g.food)
    requires !SelfCollides(g.snake) && g.snake[0] == g.food
    ensures var t := Tick(g, r, e);
            && t.score == g.score + 1
            && |t.snake| == |g.snake| + 1
            && t.snake == [Point(g.food.x + g.dirX, g.food.y + g.dirY)] + g.snake
            && t == g.(snake := t.snake, score := g.score + 1, food := e,
                       interval := Interval(g.difficulty))
  {
  }

  /** A self-collision resets the game and the rest of the tick then runs on
      the fresh one-segment snake: it eats if the reset food landed on the
      spawn cell, and in any case steps one cell right, so the new game
      already shows its head at (11, 10). */
  lemma TickAfterSelfCollision(g: Game, r: Point, e: Point)
    requires |g.snake| >= 1 && SelfCollides(g.snake)
    ensures var t := Tick(g, r, e);
            && Restarted(t, g)
            && (r == Spawn ==> t.score == 1 && t.snake == [Point(11, 10), Spawn] && t.food == e)
            && (r != Spawn ==> t.score == 0 && t.snake == [Point(11, 10)] && t.food == r)
  {
  }

  /** In Classic mode a pre-move head off the grid (and no self-collision)
      resets the game; the food check has already run on the old head, so
      the fresh snake never eats in this tick and ends at (11, 10). */
  lemma TickAfterLeavingGrid(g: Game, r: Point, e: Point)
    requires |g.snake| >= 1 && InGrid(g.food)
    requires g.mode == Classic && !SelfCollides(g.snake) && !InGrid(g.snake[0])
    ensures var t := Tick(g, r, e);
            Restarted(t, g) && t.score == 0 && t.snake == [Point(11, 10)] && t.food == r
  {
  }

  /** While the game runs, a tick leaves it paused exactly when it ends the
      game: after a self-collision of the pre-move head, or in Classic mode a
      pre-move head off the grid. */
  lemma TickPausesIffGameOver(g: Game, r: Point, e: Point)
    requires Inv(g) && !g.paused
    ensures Tick(g, r, e).paused <==> EndsGame(g)
  {
  }

  /** A head inside the grid stepped by a unit vector is near the grid. */
  lemma StepStaysNear(h: Point, dx: int, dy: int)
    requires InGrid(h) && IsUnit(dx, dy)
    ensures NearGrid(Point(h.x + dx, h.y + dy))
  {
  }

  /** The invariant survives every tick, whatever cells the generator draws
      on the grid. In particular the body stays on the grid and the head is
      never more than one cell outside it. */
  lemma TickPreservesInv(g: Game, r: Point, e: Point)
    requires Inv(g) && InGrid(r) && InGrid(e)
    ensures Inv(Tick(g, r, e))
  {
    if SelfCollides(g.snake) {
      TickAfterSelfCollision(g, r, e);
    } else if g.mode == Classic && !InGrid(g.snake[0]) {
      TickAfterLeavingGrid(g, r, e);
    } else if g.snake[0] == g.food {
      TickEats(g, r, e);
    } else {
      TickMoves(g, r, e);
      var h := BoundedHead(g.mode, g.snake[0]);
      var rest := [h] + g.snake[1..];
      assert forall i :: 0 <= i < |rest| ==> InGrid(rest[i]) by {
        forall i | 0 <= i < |rest| ensures InGrid(rest[i]) {
          if i > 0 { assert rest[i] == g.snake[i]; }
        }
      }
    }
  }

  /** In Modern mode the head is on the grid after boundary handling. */
  lemma ModernHeadLandsInGrid(g: Game)
    requires Inv(g) && g.mode == Modern
    ensures InGrid(BoundaryStep(g, g.food).snake[0])
  {
  }

  /** A game over forgets everything about the game that was played: two
      games with the same selections end in the same state. */
  lemma GameOverForgetsPlay(g1: Game, g2: Game, draw: Point)
    requires g1.difficulty == g2.difficulty && g1.mode == g2.mode
    ensures GameOver(g1, draw) == GameOver(g2, draw)
  {
  }

  /** Two clicks of the start/pause button undo each other. */
  lemma ToggledTwice(g: Game)
    requires Inv(g)
    ensures Toggled(Toggled(g)) == g
  {
  }

  // ---------------------------------------------------------------------
  // Scenarios

  /** A fresh game whose food is elsewhere: one tick moves the head to
      (11, 10), keeps the length at 1 and the score at 0. */
  lemma FirstTickOfFreshGame(g: Game, r: Point, e: Point)
    requires g.snake == [Spawn] && g.dirX == 1 && g.dirY == 0 && g.score == 0
    requires g.food != Spawn
    ensures var t := Tick(g, r, e);
            t.snake == [Point(11, 10)] && t.score == 0 && t.food == g.food
  {
  }

  /** Food one cell ahead is eaten on the second tick, not the first: the
      food check looks at the head before it moves. */
  lemma FoodAheadEatenOnSecondTick(g: Game, r1: Point, e1: Point, r2: Point, e2: Point)
    requires g.snake == [Point(5, 5)] && g.food == Point(6, 5) && g.dirX == 1 && g.dirY == 0
    ensures var t1 := Tick(g, r1, e1);
            && t1.snake == [Point(6, 5)] && t1.score == g.score && t1.food == g.food
            && var t2 := Tick(t1, r2, e2);
               t2.snake == [Point(7, 5), Point(6, 5)] && t2.score == g.score + 1 && t2.food == e2
  {
  }

  /** In Classic mode a head leaving the grid stays outside for one tick; the
      game ends on the next tick, with the fresh snake already at (11, 10). */
  lemma ClassicExitEndsOnSecondTick(g: Game, r1: Point, e1: Point, r2: Point, e2: Point)
    requires g.mode == Classic && !g.paused
    requires g.snake == [Point(0, 0)] && g.food != Point(0, 0) && InGrid(g.food)
    requires g.dirX == -1 && g.dirY == 0
    ensures var t1 := Tick(g, r1, e1);
            && t1.snake == [Point(-1, 0)] && !t1.paused
            && var t2 := Tick(t1, r2, e2);
               Restarted(t2, g) && t2.snake == [Point(11, 10)] && t2.score == 0
  {
  }
}
