/**
 * The snake game of the dashboard page: a 20 x 20 grid, a snake that moves
 * one cell per frame in the direction (dx, dy), food that makes it grow,
 * arrow keys that steer, and the score posted to /api/save-score once the
 * game is over.
 */
module Snake {
  import opened Js
  import SaveScore

  /** Cells per side of the board. */
  const Grid := 20

  datatype Point = Point(x: int, y: int)

  datatype Key = ArrowUp | ArrowDown | ArrowLeft | ArrowRight | OtherKey

  /** The variables the game loop closes over, plus the score and game-over flag. */
  datatype Game = Game(snake: seq<Point>, food: Point, dx: int, dy: int, score: nat, over: bool)

  predicate InGrid(p: Point) {
    0 <= p.x < Grid && 0 <= p.y < Grid
  }

  /** One of the four unit directions. */
  predicate Unit(dx: int, dy: int) {
    (dx == 0 && (dy == 1 || dy == -1)) || (dy == 0 && (dx == 1 || dx == -1))
  }

  predicate Distinct(s: seq<Point>) {
    forall i, j :: 0 <= i < j < |s| ==> s[i] != s[j]
  }

  /** What every reachable state satisfies. */
  predicate Inv(g: Game) {
    g.snake != [] &&
    (forall i :: 0 <= i < |g.snake| ==> InGrid(g.snake[i])) &&
    Distinct(g.snake) &&
    Unit(g.dx, g.dy) &&
    InGrid(g.food)
  }

  /** The state the effect sets up when the game starts. */
  function Initial(): (g: Game)
    ensures Inv(g) && |g.snake| == 1 && g.score == 0 && !g.over
  {
    Game([Point(10, 10)], Point(5, 5), 1, 0, 0, false)
  }

  /** The cell the head moves into. */
  function NextHead(g: Game): Point
    requires g.snake != []
  {
    Point(g.snake[0].x + g.dx, g.snake[0].y + g.dy)
  }

  /** The wall test as written: below zero, or exactly at the board size. */
  predicate HitsWall(p: Point) {
    p.x < 0 || p.x == Grid || p.y < 0 || p.y == Grid
  }

  /** The frame ends the game: a wall, or any segment (the tail included). */
  predicate Collides(g: Game)
    requires g.snake != []
  {
    HitsWall(NextHead(g)) || NextHead(g) in g.snake
  }

  /**
   * One frame: on a collision the game is over and nothing else changes;
   * otherwise the head is prepended, and either the food is eaten (score up,
   * new food) or the tail is dropped. `newFood` is the random cell the
   * frame would draw.
   */
  function Tick(g: Game, newFood: Point): Game
    requires g.snake != []
  {
    var head := NextHead(g);
    if Collides(g) then g.(over := true)
    else if head == g.food then g.(snake := [head] + g.snake, food := newFood, score := g.score + 1)
    else g.(snake := [head] + g.snake[..|g.snake| - 1])
  }

  /** The key handler: a turn is taken only across the current axis of travel. */
  function Steer(dx: int, dy: int, k: Key): (int, int) {
    match k
    case ArrowUp => if dy == 0 then (0, -1) else (dx, dy)
    case ArrowDown => if dy == 0 then (0, 1) else (dx, dy)
    case ArrowLeft => if dx == 0 then (-1, 0) else (dx, dy)
    case ArrowRight => if dx == 0 then (1, 0) else (dx, dy)
    case OtherKey => (dx, dy)
  }

  // ---------------------------------------------------------------------
  // Properties of a frame
  // ---------------------------------------------------------------------

  /**
   * The game ends exactly on a collision; a frame that ends it leaves the
   * snake, the food, the direction and the score as they were.
   */
  lemma TickOverIff(g: Game, newFood: Point)
    requires g.snake != [] && !g.over
    ensures Tick(g, newFood).over <==> Collides(g)
    ensures Collides(g) ==> Tick(g, newFood) == g.(over := true)
  {
  }

  /** Under the invariant, the `== 20` wall test is exactly "the head left the board". */
  lemma WallTestExact(g: Game)
    requires Inv(g)
    ensures HitsWall(NextHead(g)) <==> !InGrid(NextHead(g))
  {
  }

  /**
   * A frame that does not end the game moves the head by (dx, dy), keeps
   * the rest of the body as a prefix of the old one, and grows the snake
   * and the score by one exactly when the head lands on the food, which is
   * then replaced by `newFood`.
   */
  lemma TickMoves(g: Game, newFood: Point)
    requires g.snake != [] && !Collides(g)
    ensures var t := Tick(g, newFood);
      var eats := NextHead(g) == g.food;
      t.snake != [] &&
      t.snake[0] == Point(g.snake[0].x + g.dx, g.snake[0].y + g.dy) &&
      |t.snake| == |g.snake| + (if eats then 1 else 0) &&
      t.snake[1..] == g.snake[..|t.snake| - 1] &&
      t.score == g.score + (if eats then 1 else 0) &&
      t.food == (if eats then newFood else g.food) &&
      t.dx == g.dx && t.dy == g.dy && t.over == g.over
  {
    var t := Tick(g, newFood);
    if NextHead(g) == g.food {
      assert t.snake[1..] == g.snake;
    } else {
      assert t.snake[1..] == g.snake[..|g.snake| - 1];
    }
  }

  /** A new head outside the body keeps the body free of repeated cells. */
  lemma PrependDistinct(head: Point, s: seq<Point>)
    requires Distinct(s) && head !in s
    ensures Distinct([head] + s)
  {
    var t := [head] + s;
    forall i, j | 0 <= i < j < |t| ensures t[i] != t[j] {
      assert t[j] == s[j - 1];
      if i > 0 {
        assert t[i] == s[i - 1];
      }
    }
  }

  /**
   * Every frame keeps the invariant: the body stays on the board with no
   * cell repeated, the direction stays a unit vector, and the food stays
   * on the board when the new one is drawn from it.
   */
  lemma TickPreservesInv(g: Game, newFood: Point)
    requires Inv(g) && InGrid(newFood)
    ensures Inv(Tick(g, newFood))
  {
    if !Collides(g) {
      var head := NextHead(g);
      var t := Tick(g, newFood);
      WallTestExact(g);
      PrependDistinct(head, g.snake);
      var longer := [head] + g.snake;
      assert forall i :: 0 <= i < |longer| ==> InGrid(longer[i]) by {
        forall i | 0 <= i < |longer| ensures InGrid(longer[i]) {
          if i > 0 { assert longer[i] == g.snake[i - 1]; }
        }
      }
      if head != g.food {
        assert t.snake == longer[..|longer| - 1];
        forall i, j | 0 <= i < j < |t.snake| ensures t.snake[i] != t.snake[j] {
          assert t.snake[i] == longer[i] && t.snake[j] == longer[j];
        }
      }
    }
  }

  // ---------------------------------------------------------------------
  // Properties of steering
  // ---------------------------------------------------------------------

  /**
   * One key press keeps a unit direction, never reverses it, and changes it
   * only to a perpendicular one: a vertical turn only while moving
   * horizontally and a horizontal turn only while moving vertically.
   */
  lemma SteerTurnsOnlyAcross(dx: int, dy: int, k: Key)
    requires Unit(dx, dy)
    ensures var (ndx, ndy) := Steer(dx, dy, k);
      Unit(ndx, ndy) &&
      (ndx, ndy) != (-dx, -dy) &&
      ((ndx, ndy) != (dx, dy) ==> ndx * dx + ndy * dy == 0) &&
      ((ndx, ndy) != (dx, dy) && ndx == 0 ==> dy == 0) &&
      ((ndx, ndy) != (dx, dy) && ndy == 0 ==> dx == 0)
  {
  }

  /**
   * The no-reversal rule compares against the direction of the last key,
   * not of the last move: two presses inside one frame (Up then Left while
   * moving right) turn the snake straight back, and with a second segment
   * behind the head the next frame ends the game.
   */
  lemma TwoKeysInOneFrameReverse()
    ensures Steer(Steer(1, 0, ArrowUp).0, Steer(1, 0, ArrowUp).1, ArrowLeft) == (-1, 0)
    ensures var g := Game([Point(10, 10), Point(9, 10)], Point(5, 5), -1, 0, 0, false);
      Inv(g) && Collides(g) && Tick(g, Point(0, 0)).over
  {
    var g := Game([Point(10, 10), Point(9, 10)], Point(5, 5), -1, 0, 0, false);
    assert NextHead(g) == g.snake[1];
  }

  // ---------------------------------------------------------------------
  // Saving the score
  // ---------------------------------------------------------------------

  /**
   * The save button: disabled while the name is empty; otherwise it posts
   * `{ player_name, score }`.
   */
  function SaveRequest(player: string, score: nat): Option<SaveScore.Payload> {
    if player == "" then None else Some(SaveScore.Payload(Str(player), Num(score)))
  }

  /**
   * A request is sent exactly when a name was typed, and the server accepts
   * it exactly when the name fits the 255-character column, storing the
   * name and the score as played.
   */
  lemma SaveRequestValidated(player: string, score: nat)
    ensures SaveRequest(player, score).Some? <==> player != ""
    ensures SaveRequest(player, score).Some? ==>
      var v := SaveScore.Validate(SaveRequest(player, score).value);
      (v.Ok? <==> |player| <= SaveScore.MaxNameLength) &&
      (v.Ok? ==> v.value == SaveScore.InsertValues(Some(player), score)) &&
      (v.Err? ==> v.error == SaveScore.NameTooLong)
  {
  }

  // ---------------------------------------------------------------------
  // The game as the page mutates it
  // ---------------------------------------------------------------------

  class SnakeGame {
    var snake: seq<Point>
    var food: Point
    var dx: int
    var dy: int
    var score: nat
    var over: bool

    function State(): Game
      reads this
    {
      Game(snake, food, dx, dy, score, over)
    }

    predicate Valid()
      reads this
    {
      Inv(State())
    }

    /** Starting the game. */
    constructor ()
      ensures State() == Initial() && Valid()
    {
      snake := [Point(10, 10)];
      food := Point(5, 5);
      dx, dy := 1, 0;
      score := 0;
      over := false;
    }

    /**
     * `drawFrame`: compute the head, stop on a collision, otherwise
     * `unshift` the head and either eat or `pop` the tail. It runs only
     * until the game is over (the interval is cleared then).
     */
    method DrawFrame(newFood: Point)
      requires Valid() && !over && InGrid(newFood)
      modifies this
      ensures State() == Tick(old(State()), newFood)
      ensures Valid()
    {
      TickPreservesInv(State(), newFood);
      var head := Point(snake[0].x + dx, snake[0].y + dy);
      if head.x < 0 || head.x == Grid || head.y < 0 || head.y == Grid || head in snake {
        over := true;
        return;
      }
      snake := [head] + snake;
      if head == food {
        score := score + 1;
        food := newFood;
      } else {
        snake := snake[..|snake| - 1];
      }
    }

    /** `onKey`: only the direction can change. */
    method OnKey(k: Key)
      requires Valid()
      modifies this
      ensures (dx, dy) == Steer(old(dx), old(dy), k)
      ensures snake == old(snake) && food == old(food) && score == old(score) && over == old(over)
      ensures Valid()
    {
      SteerTurnsOnlyAcross(dx, dy, k);
      match k
      case ArrowUp => if dy == 0 { dx, dy := 0, -1; }
      case ArrowDown => if dy == 0 { dx, dy := 0, 1; }
      case ArrowLeft => if dx == 0 { dx, dy := -1, 0; }
      case ArrowRight => if dx == 0 { dx, dy := 1, 0; }
      case OtherKey =>
    }
  }
}
