/**
 * Game-state logic of a single-window Snake game on a 20 x 20 grid.
 *
 * The state is a snake (a sequence of cells, head first), a food cell, a
 * direction (0 up, 1 right, 2 down, 3 left), a score and a game-over flag.
 * A timer tick calls Move, an arrow key calls KeyPressed and the
 * "Play Again" button calls Reset. Food placement draws random cells until
 * one is free; here the random draws are a parameter.
 */
module SnakeGame {

  const GridSize: int := 20

  const Up: int := 0
  const Right: int := 1
  const Down: int := 2
  const Left: int := 3

  /** A grid cell. Like java.awt.Point, two cells are equal when both coordinates are. */
  datatype Point = Point(x: int, y: int)

  /** Where a new game starts: the centre of the grid. */
  const Center: Point := Point(GridSize / 2, GridSize / 2)

  /** The four arrow keys; every other key is OtherKey. */
  datatype Key = ArrowUp | ArrowRight | ArrowDown | ArrowLeft | OtherKey

  predicate InGrid(p: Point) {
    0 <= p.x < GridSize && 0 <= p.y < GridSize
  }

  ghost predicate AllInGrid(cells: seq<Point>) {
    forall i :: 0 <= i < |cells| ==> InGrid(cells[i])
  }

  /** No cell occurs twice. */
  ghost predicate Distinct(cells: seq<Point>) {
    forall i, j :: 0 <= i < j < |cells| ==> cells[i] != cells[j]
  }

  predicate IsDirection(d: int) {
    Up <= d <= Left
  }

  /** The exact reverse of direction d. */
  function Opposite(d: int): int {
    (d + 2) % 4
  }

  /** The cell one step from p in direction d, with no boundary handling at all. */
  function Shift(p: Point, d: int): Point
    requires IsDirection(d)
  {
    if d == Up then Point(p.x, p.y - 1)
    else if d == Right then Point(p.x + 1, p.y)
    else if d == Down then Point(p.x, p.y + 1)
    else Point(p.x - 1, p.y)
  }

  function Max(a: int, b: int): int { if a >= b then a else b }

  function Min(a: int, b: int): int { if a <= b then a else b }

  /**
   * The head after one tick: one step in direction d, the moving coordinate
   * clamped to [0, GridSize - 1]. From a cell of the grid this is the plain
   * step when that stays on the grid, and the same cell when it would leave it.
   */
  function NextHead(head: Point, d: int): (r: Point)
    requires IsDirection(d)
    ensures InGrid(head) ==> InGrid(r)
    ensures InGrid(head) ==> r == if InGrid(Shift(head, d)) then Shift(head, d) else head
  {
    if d == Up then Point(head.x, Max(0, head.y - 1))
    else if d == Right then Point(Min(GridSize - 1, head.x + 1), head.y)
    else if d == Down then Point(head.x, Min(GridSize - 1, head.y + 1))
    else Point(Max(0, head.x - 1), head.y)
  }

  function IsCollisionWithBorders(p: Point): (r: bool)
    ensures r <==> !InGrid(p)
  {
    p.x < 0 || p.x >= GridSize || p.y < 0 || p.y >= GridSize
  }

  /** Because the head is clamped, the border check after a move never fires. */
  lemma ClampedHeadNeverHitsBorder(head: Point, d: int)
    requires InGrid(head) && IsDirection(d)
    ensures !IsCollisionWithBorders(NextHead(head, d))
  {
  }

  /** At each of the four walls, moving into the wall leaves the head where it is. */
  lemma MoveIntoWallHolds(head: Point)
    requires InGrid(head)
    ensures head.y == 0 ==> NextHead(head, Up) == head
    ensures head.x == GridSize - 1 ==> NextHead(head, Right) == head
    ensures head.y == GridSize - 1 ==> NextHead(head, Down) == head
    ensures head.x == 0 ==> NextHead(head, Left) == head
  {
  }

  /** The direction an arrow key asks for. */
  function KeyDirection(key: Key): int
    requires !key.OtherKey?
  {
    match key
    case ArrowUp => Up
    case ArrowRight => Right
    case ArrowDown => Down
    case ArrowLeft => Left
  }

  /**
   * The direction after a key press: an arrow key sets its direction unless
   * that is the exact reverse of the current one; any other key is ignored.
   */
  function Turn(direction: int, key: Key): (d: int)
    requires IsDirection(direction)
    ensures IsDirection(d)
    ensures d != Opposite(direction)
    ensures key.OtherKey? ==> d == direction
    ensures !key.OtherKey? ==> (d == KeyDirection(key) <==> KeyDirection(key) != Opposite(direction))
    ensures d != direction ==> !key.OtherKey? && d == KeyDirection(key)
  {
    if key.OtherKey? || KeyDirection(key) == Opposite(direction) then direction
    else KeyDirection(key)
  }

  /**
   * Only the current direction is compared, so two presses before one tick
   * can still turn a snake moving right into moving left.
   */
  lemma TwoPressesCanReverse()
    ensures Turn(Turn(Right, ArrowUp), ArrowLeft) == Opposite(Right)
  {
  }

  /** Some draw of the random source falls on a cell not in body. */
  ghost predicate HasFreeDraw(body: seq<Point>, draws: seq<Point>) {
    exists i :: 0 <= i < |draws| && draws[i] !in body
  }

  /**
   * The position, in a run of random draws, of the cell the rejection loop
   * of food placement accepts: the first draw that is not on the body.
   */
  function FirstFree(body: seq<Point>, draws: seq<Point>): (k: nat)
    requires HasFreeDraw(body, draws)
    ensures k < |draws| && draws[k] !in body
    ensures forall j :: 0 <= j < k ==> draws[j] in body
    decreases |draws|
  {
    if draws[0] !in body then 0
    else
      assert HasFreeDraw(body, draws[1..]) by {
        var i :| 0 <= i < |draws| && draws[i] !in body;
        assert draws[1..][i - 1] == draws[i];
      }
      1 + FirstFree(body, draws[1..])
  }

  /** The snake after a tick without food: the new head in front, the last cell dropped. */
  function Slide(body: seq<Point>, head: Point): seq<Point>
    requires |body| >= 1
  {
    [head] + body[..|body| - 1]
  }

  lemma DistinctCons(x: Point, s: seq<Point>)
    requires Distinct(s) && x !in s
    ensures Distinct([x] + s)
  {
  }

  /**
   * The tail leaves its cell before the collision check, so moving the head
   * onto the cell the tail just left does not end the game.
   */
  lemma TailCellIsFree(body: seq<Point>)
    requires |body| >= 2 && Distinct(body)
    ensures var s := Slide(body, body[|body| - 1]); s[0] !in s[1..]
  {
  }

  /**
   * A snake of at least two cells that is clamped against a wall (its new
   * head is its old head) runs into its own second cell.
   */
  lemma WallMoveEndsGame(body: seq<Point>, d: int)
    requires |body| >= 2 && IsDirection(d)
    requires NextHead(body[0], d) == body[0]
    ensures var s := Slide(body, NextHead(body[0], d)); s[0] in s[1..]
  {
  }

  /** Eating never ends the game: the food was not on the body it is prepended to. */
  lemma EatingNeverCollides(body: seq<Point>, food: Point)
    requires food !in body
    ensures var s := [food] + body; s[0] !in s[1..]
  {
  }

  /** The game state of one window: the fields the timer, the keys and the button update. */
  class Game {
    var snake: seq<Point>
    var food: Point
    var direction: int
    var score: int
    var gameOver: bool

    /**
     * The invariant every operation keeps: a non-empty snake on the grid
     * whose body behind the head has no repeated cell, a game that is over
     * exactly when the head lies on that body, food on the grid and off the
     * snake, a valid direction, and one point per cell grown.
     */
    ghost predicate Valid()
      reads this
    {
      && |snake| >= 1
      && AllInGrid(snake)
      && Distinct(snake[1..])
      && (gameOver <==> snake[0] in snake[1..])
      && InGrid(food)
      && food !in snake
      && IsDirection(direction)
      && score == |snake| - 1
    }

    /** The state a new game starts in (besides the food). */
    ghost predicate Initial()
      reads this
    {
      snake == [Center] && direction == Right && score == 0 && !gameOver
    }

    /** The cell the head moves to on the next tick. */
    ghost function NewHead(): Point
      reads this
      requires Valid()
    {
      NextHead(snake[0], direction)
    }

    /** Opens a game: a one-cell snake in the centre, moving right, food on a free cell. */
    constructor (draws: seq<Point>)
      requires AllInGrid(draws) && HasFreeDraw([Center], draws)
      ensures Valid() && Initial()
      ensures food == draws[FirstFree([Center], draws)]
    {
      snake := [Center];
      direction := Right;
      score := 0;
      gameOver := false;
      new;
      GenerateFood(draws);
    }

    /**
     * Places the food on the first drawn cell that is not on the snake.
     * The draws stand for successive calls of the random generator, each in
     * the grid; the loop ends only if one of them is free.
     */
    method GenerateFood(draws: seq<Point>)
      requires AllInGrid(draws) && HasFreeDraw(snake, draws)
      modifies this`food
      ensures food == draws[FirstFree(snake, draws)]
      ensures InGrid(food) && food !in snake
    {
      var k := 0;
      var cell := draws[k];
      while cell in snake
        invariant 0 <= k <= FirstFree(snake, draws)
        invariant cell == draws[k]
        decreases FirstFree(snake, draws) - k
      {
        k := k + 1;
        cell := draws[k];
      }
      food := cell;
    }

    /**
     * One timer tick. A finished game does not change. Otherwise the head
     * moves one clamped step; on the food the snake grows by the new head,
     * new food is placed and the score goes up by one; elsewhere the new
     * head is added and the last cell dropped, and nothing else changes.
     * The game is then over exactly when the new head lies on the rest of
     * the snake.
     */
    method Move(draws: seq<Point>)
      requires Valid() && AllInGrid(draws)
      requires !gameOver && NewHead() == food ==> HasFreeDraw([food] + snake, draws)
      modifies this
      ensures Valid()
      ensures old(gameOver) ==> unchanged(this)
      ensures direction == old(direction)
      ensures !old(gameOver) && old(NewHead()) == old(food) ==>
        && snake == [old(food)] + old(snake)
        && score == old(score) + 1
        && food == draws[FirstFree(snake, draws)]
        && !gameOver
      ensures !old(gameOver) && old(NewHead()) != old(food) ==>
        && snake == Slide(old(snake), old(NewHead()))
        && score == old(score)
        && food == old(food)
      ensures !old(gameOver) ==> snake[0] == old(NewHead()) && (gameOver <==> snake[0] in snake[1..])
    {
      if gameOver {
        return;
      }
      var head := snake[0];
      var newHead := NextHead(head, direction);
      ghost var body := snake;
      assert Distinct(body) by { DistinctCons(body[0], body[1..]); assert body == [body[0]] + body[1..]; }
      if newHead == food {
        snake := [newHead] + snake;
        GenerateFood(draws);
        score := score + 1;
        assert snake[1..] == body;
      } else {
        snake := [newHead] + snake;
        snake := snake[..|snake| - 1];
        assert snake == Slide(body, newHead);
        assert snake[1..] == body[..|body| - 1];
      }
      if newHead in snake[1..] || IsCollisionWithBorders(newHead) {
        gameOver := true;
      }
    }

    /** An arrow key press: the direction becomes Turn of the old direction and the key. */
    method KeyPressed(key: Key)
      requires Valid()
      modifies this`direction
      ensures Valid()
      ensures direction == Turn(old(direction), key)
    {
      if key == ArrowUp && direction != Down {
        direction := Up;
      } else if key == ArrowRight && direction != Left {
        direction := Right;
      } else if key == ArrowDown && direction != Up {
        direction := Down;
      } else if key == ArrowLeft && direction != Right {
        direction := Left;
      }
    }

    /** "Play Again": back to a one-cell snake in the centre, moving right, score 0, food on a free cell. */
    method Reset(draws: seq<Point>)
      requires AllInGrid(draws) && HasFreeDraw([Center], draws)
      modifies this
      ensures Valid() && Initial()
      ensures food == draws[FirstFree([Center], draws)]
    {
      snake := [];
      snake := snake + [Center];
      GenerateFood(draws);
      direction := Right;
      score := 0;
      gameOver := false;
    }
  }

  /**
   * A game that opens with the food right of the centre: one tick eats it,
   * the snake is the new head followed by the centre, the score is 1 and the
   * game goes on.
   */
  method EatFirstFoodScenario() {
    assert [Point(11, 10)][0] !in [Center];
    var g := new Game([Point(11, 10)]);
    assert g.food == Point(11, 10);
    assert [Center, Point(3, 4)][1] !in [g.food] + g.snake;
    g.Move([Center, Point(3, 4)]);
    assert g.snake == [Point(11, 10), Center];
    assert g.score == 1 && !g.gameOver;
    assert g.food == Point(3, 4);
  }
}
