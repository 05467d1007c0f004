/**
 * How much room the grid leaves. A snake whose cells are distinct and on the
 * grid has at most GridSize * GridSize cells, and a free cell exists exactly
 * when it has fewer. Food placement draws cells until it finds a free one,
 * so these facts say when that search can succeed.
 */
module FreeCells {
  import opened SnakeGame

  /** Every cell of the grid, once each. */
  function AllCells(): (cells: seq<Point>)
    ensures |cells| == GridSize * GridSize
    ensures Distinct(cells)
    ensures forall p :: InGrid(p) ==> p in cells
  {
    var cells := seq(GridSize * GridSize, i => Point(i / GridSize, i % GridSize));
    forall p | InGrid(p)
      ensures p in cells
    {
      assert cells[p.x * GridSize + p.y] == p;
    }
    cells
  }

  /** A sequence without repeats, each of whose cells occurs in t, is no longer than t. */
  lemma {:induction false} CoveredLength(s: seq<Point>, t: seq<Point>)
    requires Distinct(s)
    requires forall i :: 0 <= i < |s| ==> s[i] in t
    ensures |s| <= |t|
    decreases |s|
  {
    if |s| > 0 {
      var k :| 0 <= k < |t| && t[k] == s[0];
      var rest := t[..k] + t[k + 1..];
      forall i | 0 <= i < |s[1..]|
        ensures s[1..][i] in rest
      {
        var x := s[1..][i];
        assert x == s[i + 1] && x != s[0];
        var m :| 0 <= m < |t| && t[m] == x;
        if m < k {
          assert rest[m] == x;
        } else {
          assert rest[m - 1] == x;
        }
      }
      CoveredLength(s[1..], rest);
    }
  }

  /** A snake with distinct cells on the grid fits in it. */
  lemma SnakeFitsInGrid(body: seq<Point>)
    requires AllInGrid(body) && Distinct(body)
    ensures |body| <= GridSize * GridSize
  {
    var cells := AllCells();
    CoveredLength(body, cells);
  }

  /** A free cell exists exactly when a snake with distinct cells on the grid does not fill it. */
  lemma FreeCellIffRoom(body: seq<Point>)
    requires AllInGrid(body) && Distinct(body)
    ensures (exists p :: InGrid(p) && p !in body) <==> |body| < GridSize * GridSize
  {
    if p :| InGrid(p) && p !in body {
      DistinctCons(p, body);
      SnakeFitsInGrid([p] + body);
    } else {
      var cells := AllCells();
      CoveredLength(cells, body);
    }
  }

  /**
   * The score of a valid game is below the number of cells: the body behind
   * the head and the food are distinct cells of the grid, and in a live game
   * the head is one more.
   */
  lemma ScoreFitsGrid(g: Game)
    requires g.Valid()
    ensures g.score <= GridSize * GridSize - 1
    ensures !g.gameOver ==> g.score <= GridSize * GridSize - 2
  {
    var body := g.snake[1..];
    DistinctCons(g.food, body);
    SnakeFitsInGrid([g.food] + body);
    if !g.gameOver {
      DistinctCons(g.snake[0], body);
      assert [g.snake[0]] + body == g.snake;
      DistinctCons(g.food, g.snake);
      SnakeFitsInGrid([g.food] + g.snake);
    }
  }

  /**
   * When a live game's next head is the food, the snake grows onto it and
   * new food has to be placed: a free cell for it exists exactly when the
   * grown snake still leaves one, that is when the snake had fewer than
   * GridSize * GridSize - 1 cells. Otherwise the rejection loop finds none.
   */
  lemma FreeCellAfterEating(g: Game)
    requires g.Valid() && !g.gameOver && g.NewHead() == g.food
    ensures (exists p :: InGrid(p) && p !in [g.food] + g.snake) <==> |g.snake| < GridSize * GridSize - 1
  {
    DistinctCons(g.snake[0], g.snake[1..]);
    assert [g.snake[0]] + g.snake[1..] == g.snake;
    DistinctCons(g.food, g.snake);
    FreeCellIffRoom([g.food] + g.snake);
  }
}
