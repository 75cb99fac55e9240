/**
 * The ball confiner of the game. Coordinates are pixels, as exact reals;
 * the map draws every cell 20 pixels wide (Map.cellWidth) and the ball has
 * radius 8 (Ball.radius). Both constants appear as the literals 20.0 and
 * 8.0, so that every bound below stays linear in the coordinates. A
 * motion step clamps the device's acceleration to at most 8 - 2 pixels
 * per axis, moves the ball by it, and then pushes the ball back off any
 * standing wall of the cell it landed in.
 */
module Game {
  import opened Geometry
  import opened MazeGrid

  datatype Point = Point(x: real, y: real)

  function Min(a: real, b: real): real
  {
    if a <= b then a else b
  }

  function Max(a: real, b: real): real
  {
    if a <= b then b else a
  }

  /**
   * What the four ordered clamps of onDeviceMotion leave of a delta a: a
   * limited to [-m, m]. For a negative m the last clamp that fires wins,
   * which always gives -m.
   */
  function Clamped(a: real, m: real): (r: real)
    ensures m >= 0.0 ==> -m <= r <= m
    ensures m >= 0.0 && -m <= a <= m ==> r == a
    ensures m >= 0.0 && a > m ==> r == m
    ensures m >= 0.0 && a < -m ==> r == -m
    ensures m < 0.0 ==> r == -m
  {
    if m < 0.0 then -m else Max(-m, Min(a, m))
  }

  /** The standing of the wall on side d of an in-grid cell. */
  ghost predicate Standing(walls: seq<seq<Wall>>, c: Cell, d: Direction)
  {
    !IsOpen(walls, SlotOf(c, d))
  }

  /** Scaling by a positive factor keeps the order: v / k lies below n exactly when v lies below n * k. */
  lemma Scaled(v: real, k: real, n: real)
    requires k > 0.0
    ensures v / k < n <==> v < n * k
    ensures n <= v / k <==> n * k <= v
  {
    assert v == (v / k) * k;
  }

  class MazeGame {
    const maze: Maze
    var ballX: real
    var ballY: real
    /** The position of the visibility mask, which follows the ball. */
    var maskX: real
    var maskY: real

    ghost predicate Valid()
      reads this, maze
    {
      maze.Valid()
    }

    /** The ball starts at the centre of cell (0, 0). */
    constructor (maze: Maze)
      requires maze.Valid() && maze.w > 0 && maze.h > 0
      ensures this.maze == maze && Valid()
      ensures ballX == Cell(0, 0).CenterX() * 20.0 && ballY == Cell(0, 0).CenterY() * 20.0
    {
      this.maze := maze;
      var cell := maze.GetCell(0.0, 0.0).value;
      ballX := cell.CenterX() * 20.0;
      ballY := cell.CenterY() * 20.0;
    }

    /**
     * Map.getCell: the cell under pixel (x, y). It fails exactly when the
     * pixel lies outside the w * 20 by h * 20 pixel board.
     */
    function PixelCell(x: real, y: real): (r: Result<Cell>)
      reads maze
      requires maze.Valid()
      ensures r.Success? <==> 0.0 <= x < maze.w as real * 20.0 && 0.0 <= y < maze.h as real * 20.0
      ensures r.Failure? ==> r.error == CellNotExists
      ensures r.Success? ==> InGrid(maze.w, maze.h, r.value)
      ensures r.Success? ==> r.value.x as real * 20.0 <= x < (r.value.x + 1) as real * 20.0
      ensures r.Success? ==> r.value.y as real * 20.0 <= y < (r.value.y + 1) as real * 20.0
    {
      Scaled(x, 20.0, maze.w as real);
      Scaled(y, 20.0, maze.h as real);
      var r := maze.GetCell(x / 20.0, y / 20.0);
      if r.Success? then
        Scaled(x, 20.0, r.value.x as real);
        Scaled(x, 20.0, (r.value.x + 1) as real);
        Scaled(y, 20.0, r.value.y as real);
        Scaled(y, 20.0, (r.value.y + 1) as real);
        r
      else
        r
    }

    /**
     * The horizontal clamp of wallRestrict in cell c: right of the centre a
     * standing right wall keeps the ball at least a radius to its left; left
     * of it (or on it) a standing left wall keeps the ball at least a radius
     * to its right; an absent wall leaves x alone.
     */
    function RestrictX(c: Cell, x: real): (r: real)
      reads maze
      requires maze.Valid() && InGrid(maze.w, maze.h, c)
      ensures x > c.CenterX() * 20.0 && Standing(maze.walls, c, Right) ==> r == Min(x, (c.x + 1) as real * 20.0 - 8.0)
      ensures x > c.CenterX() * 20.0 && !Standing(maze.walls, c, Right) ==> r == x
      ensures x <= c.CenterX() * 20.0 && Standing(maze.walls, c, Left) ==> r == Max(x, c.x as real * 20.0 + 8.0)
      ensures x <= c.CenterX() * 20.0 && !Standing(maze.walls, c, Left) ==> r == x
    {
      if x > c.CenterX() * 20.0 then
        var wall := maze.CellWall(c, Right);
        if wall.isWall && x > wall.x as real * 20.0 - 8.0 then wall.x as real * 20.0 - 8.0 else x
      else
        var wall := maze.CellWall(c, Left);
        if wall.isWall && x < wall.x as real * 20.0 + 8.0 then wall.x as real * 20.0 + 8.0 else x
    }

    /** The vertical clamp of wallRestrict in cell c, with the bottom and top walls. */
    function RestrictY(c: Cell, y: real): (r: real)
      reads maze
      requires maze.Valid() && InGrid(maze.w, maze.h, c)
      ensures y > c.CenterY() * 20.0 && Standing(maze.walls, c, Bottom) ==> r == Min(y, (c.y + 1) as real * 20.0 - 8.0)
      ensures y > c.CenterY() * 20.0 && !Standing(maze.walls, c, Bottom) ==> r == y
      ensures y <= c.CenterY() * 20.0 && Standing(maze.walls, c, Top) ==> r == Max(y, c.y as real * 20.0 + 8.0)
      ensures y <= c.CenterY() * 20.0 && !Standing(maze.walls, c, Top) ==> r == y
    {
      if y > c.CenterY() * 20.0 then
        var wall := maze.CellWall(c, Bottom);
        if wall.isWall && y > wall.y as real * 20.0 - 8.0 then wall.y as real * 20.0 - 8.0 else y
      else
        var wall := maze.CellWall(c, Top);
        if wall.isWall && y < wall.y as real * 20.0 + 8.0 then wall.y as real * 20.0 + 8.0 else y
    }

    /**
     * wallRestrict: the position the ball is allowed to take when it is
     * moved to (x, y). Off the board the cell lookup fails; in the goal cell
     * (w - 1, h - 1) the ball goes back to (20, 20); elsewhere
     * each coordinate is clamped against the walls of the cell on its own.
     */
    function WallRestrict(x: real, y: real): (r: Result<Point>)
      reads maze
      requires maze.Valid()
      ensures r.Failure? <==> !(0.0 <= x < maze.w as real * 20.0 && 0.0 <= y < maze.h as real * 20.0)
      ensures r.Failure? ==> r.error == CellNotExists
      ensures r.Success? && PixelCell(x, y).value == Cell(maze.w - 1, maze.h - 1) ==> r.value == Point(20.0, 20.0)
      ensures r.Success? && PixelCell(x, y).value != Cell(maze.w - 1, maze.h - 1) ==>
                r.value == Point(RestrictX(PixelCell(x, y).value, x), RestrictY(PixelCell(x, y).value, y))
    {
      match PixelCell(x, y)
      case Failure(e) => Failure(e)
      case Success(cell) =>
        if cell.x == maze.w - 1 && cell.y == maze.h - 1 then Success(Point(20.0, 20.0))
        else Success(Point(RestrictX(cell, x), RestrictY(cell, y)))
    }

    /**
     * A clamp only pushes towards the cell's inside: right of the centre it
     * never increases x, left of it never decreases x; and the clamped x
     * stays in the cell.
     */
    lemma RestrictXInward(c: Cell, x: real)
      requires maze.Valid() && InGrid(maze.w, maze.h, c)
      requires c.x as real * 20.0 <= x < (c.x + 1) as real * 20.0
      ensures x > c.CenterX() * 20.0 ==> c.CenterX() * 20.0 < RestrictX(c, x) <= x
      ensures x <= c.CenterX() * 20.0 ==> x <= RestrictX(c, x) <= c.CenterX() * 20.0
      ensures c.x as real * 20.0 <= RestrictX(c, x) < (c.x + 1) as real * 20.0
    {
    }

    lemma RestrictYInward(c: Cell, y: real)
      requires maze.Valid() && InGrid(maze.w, maze.h, c)
      requires c.y as real * 20.0 <= y < (c.y + 1) as real * 20.0
      ensures y > c.CenterY() * 20.0 ==> c.CenterY() * 20.0 < RestrictY(c, y) <= y
      ensures y <= c.CenterY() * 20.0 ==> y <= RestrictY(c, y) <= c.CenterY() * 20.0
      ensures c.y as real * 20.0 <= RestrictY(c, y) < (c.y + 1) as real * 20.0
    {
    }

    /** A clamped x is a fixed point of the clamp in the same cell. */
    lemma RestrictXFixed(c: Cell, x: real)
      requires maze.Valid() && InGrid(maze.w, maze.h, c)
      requires c.x as real * 20.0 <= x < (c.x + 1) as real * 20.0
      ensures RestrictX(c, RestrictX(c, x)) == RestrictX(c, x)
    {
      RestrictXInward(c, x);
    }

    lemma RestrictYFixed(c: Cell, y: real)
      requires maze.Valid() && InGrid(maze.w, maze.h, c)
      requires c.y as real * 20.0 <= y < (c.y + 1) as real * 20.0
      ensures RestrictY(c, RestrictY(c, y)) == RestrictY(c, y)
    {
      RestrictYInward(c, y);
    }

    /**
     * Outside the goal cell the ball stays in the cell it was moved to, and
     * restricting the restricted position again changes nothing: a ball
     * resting against a wall stays put.
     */
    lemma WallRestrictSettles(x: real, y: real)
      requires maze.Valid() && WallRestrict(x, y).Success?
      requires PixelCell(x, y).value != Cell(maze.w - 1, maze.h - 1)
      ensures PixelCell(WallRestrict(x, y).value.x, WallRestrict(x, y).value.y) == PixelCell(x, y)
      ensures WallRestrict(WallRestrict(x, y).value.x, WallRestrict(x, y).value.y) == WallRestrict(x, y)
    {
      var c := PixelCell(x, y).value;
      var p := Point(RestrictX(c, x), RestrictY(c, y));
      RestrictXInward(c, x);
      RestrictYInward(c, y);
      assert WallRestrict(x, y).value == p;
      SameCell(c, p.x, p.y);
      RestrictXFixed(c, x);
      RestrictYFixed(c, y);
    }

    /** A pixel inside cell c's square is looked up as c. */
    lemma SameCell(c: Cell, x: real, y: real)
      requires maze.Valid() && InGrid(maze.w, maze.h, c)
      requires c.x as real * 20.0 <= x < (c.x + 1) as real * 20.0
      requires c.y as real * 20.0 <= y < (c.y + 1) as real * 20.0
      ensures PixelCell(x, y) == Success(c)
    {
      assert 0.0 <= x < maze.w as real * 20.0 && 0.0 <= y < maze.h as real * 20.0;
      var d := PixelCell(x, y).value;
      assert d.x == c.x && d.y == c.y;
    }

    /**
     * The clamped x does not depend on y, nor the clamped y on x, as long
     * as both points fall in the same cell.
     */
    lemma AxesIndependent(x: real, y: real, x': real, y': real)
      requires maze.Valid() && WallRestrict(x, y).Success? && WallRestrict(x', y').Success?
      requires PixelCell(x, y) == PixelCell(x', y') && PixelCell(x, y).value != Cell(maze.w - 1, maze.h - 1)
      ensures x == x' ==> WallRestrict(x, y).value.x == WallRestrict(x', y').value.x
      ensures y == y' ==> WallRestrict(x, y).value.y == WallRestrict(x', y').value.y
    {
    }

    /**
     * onDeviceMotion, from the device delta (ax, ay) on: each component is
     * clamped to [-(radius - 2), radius - 2] = [-6, 6], the ball moves by it, and the
     * restricted position becomes the ball's and the mask's. When the moved
     * ball is off the board the lookup fails after the ball has moved, and
     * the mask stays where it was.
     */
    method OnDeviceMotion(ax: real, ay: real) returns (r: Result<Point>)
      requires Valid()
      modifies this`ballX, this`ballY, this`maskX, this`maskY
      ensures var x, y := old(ballX) + Clamped(ax, 6.0), old(ballY) + Clamped(ay, 6.0);
        && r == old(WallRestrict(x, y))
        && (r.Success? ==> ballX == r.value.x && ballY == r.value.y && maskX == ballX && maskY == ballY)
        && (r.Failure? ==> ballX == x && ballY == y && maskX == old(maskX) && maskY == old(maskY))
    {
      var dx, dy := ax, ay;
      var maxMove := 8.0 - 2.0;
      if dx > maxMove {
        dx := maxMove;
      }
      if dy > maxMove {
        dy := maxMove;
      }
      if dx < -maxMove {
        dx := -maxMove;
      }
      if dy < -maxMove {
        dy := -maxMove;
      }
      assert dx == Clamped(ax, maxMove) && dy == Clamped(ay, maxMove);
      var x, y := ballX + dx, ballY + dy;
      ghost var x0, y0 := old(ballX) + Clamped(ax, 6.0), old(ballY) + Clamped(ay, 6.0);
      assert x0 == x && y0 == y;
      // the restriction reads only the maze, so it may be taken before the ball is moved
      r := WallRestrict(x, y);
      ballX, ballY := x, y;
      if r.Success? {
        ballX := r.value.x;
        ballY := r.value.y;
        maskX := ballX;
        maskY := ballY;
      }
    }
  }
}
