/** The game form with its WinForms scaffolding taken away: the fields its
    event handlers mutate, and those handlers as methods. NewGame, EndGame,
    the start/pause click, the tick and its steps are proved to change the
    fields exactly as the matching function of SnakeLogic says; the other
    methods state their effect directly. */
module SnakeGameForm {
  import opened SnakeLogic

  class SnakeGame {
    var snake: seq<Point>        // head at index 0
    var food: Point
    var score: int
    var dirX: int
    var dirY: int
    var isPaused: bool
    var timerRunning: bool       // gameTimer started / stopped
    var interval: int            // gameTimer.Interval, in milliseconds
    var selectorsEnabled: bool   // cbDifficulty.Enabled and cbMode.Enabled
    var difficulty: Difficulty   // cbDifficulty.SelectedItem
    var mode: Mode               // cbMode.SelectedItem

    ghost function View(): Game
      reads this
    {
      Game(snake, food, dirX, dirY, score, isPaused, timerRunning, interval,
           selectorsEnabled, difficulty, mode)
    }

    ghost predicate Valid()
      reads this
    {
      Inv(View())
    }

    /** The form's constructor: Easy and Classic selected, timer stopped,
        paused, then a new game. */
    constructor ()
      ensures Valid()
      ensures snake == [Spawn] && dirX == 1 && dirY == 0 && score == 0
      ensures isPaused && !timerRunning && selectorsEnabled
      ensures difficulty == Easy && mode == Classic && interval == Interval(Easy)
    {
      snake := [];
      food := Point(0, 0);
      score := 0;
      dirX, dirY := 0, 0;
      isPaused := true;
      selectorsEnabled := true;
      difficulty := Easy;
      mode := Classic;
      interval := 1000;
      timerRunning := false;
      new;
      NewGame();
    }

    /** rand.Next(n): some integer in [0, n). */
    method RandomNext(n: int) returns (r: int)
      requires n > 0
      ensures 0 <= r < n
    {
      r :| 0 <= r < n;
    }

    method PlaceFood()
      modifies this`food
      ensures InGrid(food)
    {
      var x := RandomNext(CanvasWidth / CellSize);
      var y := RandomNext(CanvasHeight / CellSize);
      food := Point(x, y);
    }

    method UpdateDifficulty()
      modifies this`interval
      ensures interval == Interval(difficulty)
    {
      match difficulty
      case Easy => interval := 200;
      case Medium => interval := 100;
      case Hard => interval := 50;
    }

    method NewGame()
      modifies this
      ensures View() == Reset(old(View()), food) && InGrid(food)
    {
      snake := [];
      snake := snake + [Spawn];
      dirX := 1;
      dirY := 0;
      score := 0;
      PlaceFood();
      UpdateDifficulty();
    }

    method EndGame()
      modifies this
      ensures View() == GameOver(old(View()), food) && InGrid(food)
    {
      timerRunning := false;
      isPaused := true;
      selectorsEnabled := true;
      NewGame();
    }

    /** The start/pause button's click handler. */
    method StartPauseClick()
      requires Valid()
      modifies this`isPaused, this`timerRunning, this`selectorsEnabled
      ensures Valid()
      ensures View() == Toggled(old(View()))
    {
      if isPaused {
        isPaused := false;
        timerRunning := true;
      } else {
        isPaused := true;
        timerRunning := false;
      }
      selectorsEnabled := isPaused;
    }

    /** The user picks a difficulty; a disabled selector takes no input. */
    method SelectDifficulty(d: Difficulty)
      requires Valid() && selectorsEnabled
      modifies this`difficulty
      ensures Valid() && View() == old(View()).(difficulty := d)
    {
      difficulty := d;
    }

    /** The user picks a mode; a disabled selector takes no input. */
    method SelectMode(m: Mode)
      requires Valid() && selectorsEnabled
      modifies this`mode
      ensures Valid() && View() == old(View()).(mode := m)
    {
      mode := m;
    }

    /** The arrow keys: ignored while paused, and a key asking for the reverse
        of the current direction is refused. */
    method ProcessCmdKey(key: Key)
      requires Valid()
      modifies this`dirX, this`dirY
      ensures Valid()
      ensures old(isPaused) ==> dirX == old(dirX) && dirY == old(dirY)
      ensures !old(isPaused) ==> (dirX, dirY) == Steer(old(dirX), old(dirY), key)
    {
      if !isPaused {
        match key
        case Up =>
          if dirY != 1 {
            dirX := 0; dirY := -1;
          }
        case Down =>
          if dirY != -1 {
            dirX := 0; dirY := 1;
          }
        case Left =>
          if dirX != 1 {
            dirX := -1; dirY := 0;
          }
        case Right =>
          if dirX != -1 {
            dirX := 1; dirY := 0;
          }
        case OtherKey =>
      }
    }

    /** Tick step 2: the self-collision loop. An EndGame inside the loop
        leaves a one-segment body, so the loop stops after it. */
    method CheckSelfCollision()
      requires |snake| >= 1
      modifies this
      ensures |snake| >= 1
      ensures View() == CollisionStep(old(View()), food)
      ensures old(InGrid(food)) ==> InGrid(food)
    {
      ghost var g := View();
      ghost var collided := false;
      var i := 1;
      while i < |snake|
        invariant 1 <= i
        invariant !collided ==> View() == g && i <= |snake|
        invariant !collided ==> forall j :: 1 <= j < i ==> snake[j] != snake[0]
        invariant collided ==> SelfCollides(g.snake) && |snake| == 1
        invariant collided ==> View() == GameOver(g, food) && InGrid(food)
        decreases |snake| - i
      {
        if snake[i] == snake[0] {
          EndGame();
          collided := true;
        }
        i := i + 1;
      }
    }

    /** Tick step 3: food under the pre-move head. */
    method EatFood()
      requires |snake| >= 1
      modifies this
      ensures View() == FoodStep(old(View()), food)
      ensures old(InGrid(food)) ==> InGrid(food)
    {
      if snake[0] == food {
        score := score + 1;
        snake := snake + [Placeholder];
        PlaceFood();
      }
    }

    /** Tick step 4: boundary handling of the pre-move head. */
    method HandleBoundary()
      requires |snake| >= 1
      modifies this
      ensures View() == BoundaryStep(old(View()), food)
      ensures old(InGrid(food)) ==> InGrid(food)
    {
      if mode == Classic {
        if snake[0].x < 0 || snake[0].y < 0 || snake[0].x >= GridWidth || snake[0].y >= GridHeight {
          EndGame();
        }
      } else {
        snake := snake[0 := Wrap(snake[0])];
      }
    }

    /** Tick step 5: from the tail to the head, each segment takes its
        predecessor's cell, then the head steps by the direction. */
    method MoveSnake()
      requires |snake| >= 1
      modifies this`snake
      ensures snake == Shifted(old(snake), dirX, dirY)
    {
      ghost var s := snake;
      var k := |snake| - 1;
      while k >= 0
        invariant -1 <= k < |s| && |snake| == |s|
        invariant forall j :: 0 <= j <= k ==> snake[j] == s[j]
        invariant forall j :: k < j < |s| && j > 0 ==> snake[j] == s[j - 1]
        invariant k < 0 ==> snake[0] == Point(s[0].x + dirX, s[0].y + dirY)
      {
        if k == 0 {
          snake := snake[k := Point(snake[k].x + dirX, snake[k].y + dirY)];
        } else {
          snake := snake[k := snake[k - 1]];
        }
        k := k - 1;
      }
    }

    /** The timer's tick handler. `resetDraw` and `foodDraw` name the food
        cells the generator drew during the tick (for a game over and for
        eating); the new state is `Tick` of the old one with those draws. */
    method Update() returns (ghost resetDraw: Point, ghost foodDraw: Point)
      requires Valid()
      modifies this
      ensures Valid()
      ensures InGrid(resetDraw) && InGrid(foodDraw)
      ensures View() == Tick(old(View()), resetDraw, foodDraw)
    {
      ghost var g0 := View();
      UpdateDifficulty();
      ghost var g1 := View();
      assert g1 == g0.(interval := Interval(g0.difficulty));
      CheckSelfCollision();
      ghost var g2 := View();
      EatFood();
      ghost var g3 := View();
      foodDraw := food;
      HandleBoundary();
      ghost var g4 := View();
      resetDraw := if SelfCollides(g1.snake) then g2.food else food;
      assert CollisionStep(g1, resetDraw) == g2;
      assert FoodStep(g2, foodDraw) == g3;
      assert BoundaryStep(g3, resetDraw) == g4;
      MoveSnake();
      assert View() == MoveStep(g4);
      TickPreservesInv(g0, resetDraw, foodDraw);
    }

    /** The paint handler: one 10x10 rectangle per segment, head first, then
        one for the food. */
    method Paint() returns (rects: seq<Rect>)
      ensures |rects| == |snake| + 1
      ensures forall i :: 0 <= i < |snake| ==>
                rects[i] == Rect(snake[i].x * CellSize, snake[i].y * CellSize, CellSize, CellSize)
      ensures rects[|snake|] == Rect(food.x * CellSize, food.y * CellSize, CellSize, CellSize)
    {
      rects := [];
      var i := 0;
      while i < |snake|
        invariant 0 <= i <= |snake| && |rects| == i
        invariant forall j :: 0 <= j < i ==>
                    rects[j] == Rect(snake[j].x * CellSize, snake[j].y * CellSize, CellSize, CellSize)
      {
        rects := rects + [Rect(snake[i].x * CellSize, snake[i].y * CellSize, CellSize, CellSize)];
        i := i + 1;
      }
      rects := rects + [Rect(food.x * CellSize, food.y * CellSize, CellSize, CellSize)];
    }
  }
}
