/**
 * Grid geometry of the maze: the four neighbour directions, cells, stored
 * walls and the two index maps that say which stored wall lies on which side
 * of a cell and which cell lies beyond it.
 *
 * Walls are stored in a jagged grid of rows. Row 2y holds the w horizontal
 * walls above cell row y, row 2y+1 the w+1 vertical walls beside cell row y,
 * and the last row 2h the horizontal walls below the last cell row. A slot of
 * that grid is written Pos(column, row).
 */
module Geometry {

  /** NeighbourDirection, in its enumeration order. */
  datatype Direction = Top | Right | Bottom | Left

  /** WallDirection: a horizontal wall lies on a top/bottom edge, a vertical one on a left/right edge. */
  datatype WallDirection = Horizontal | Vertical

  /** A coordinate pair as returned by the index maps. */
  datatype Pos = Pos(x: int, y: int)

  /** A maze cell, identified by its column and row. */
  datatype Cell = Cell(x: int, y: int)
  {
    /** Centre of the cell, in cell units. */
    function CenterX(): (r: real)
      ensures x as real < r < (x + 1) as real
    {
      x as real + 0.5
    }

    function CenterY(): (r: real)
      ensures y as real < r < (y + 1) as real
    {
      y as real + 0.5
    }
  }

  /** A stored wall: its start corner (x, y) in cell units, its orientation and whether it stands. */
  datatype Wall = Wall(x: int, y: int, direction: WallDirection, isWall: bool)
  {
    /** The corner where the wall ends: one cell to the right, or one cell down. */
    function EndX(): (r: int)
      ensures x <= r <= x + 1
    {
      match direction
      case Horizontal => x + 1
      case Vertical => x
    }

    /** A wall is one cell long, along exactly one axis. */
    function EndY(): (r: int)
      ensures y <= r <= y + 1
      ensures (EndX() - x) + (r - y) == 1
    {
      match direction
      case Horizontal => y
      case Vertical => y + 1
    }
  }

  /** Position of a direction in the enumeration. */
  function Ord(d: Direction): nat
  {
    match d
    case Top => 0
    case Right => 1
    case Bottom => 2
    case Left => 3
  }

  function DirectionOf(i: nat): (d: Direction)
    requires i < 4
    ensures Ord(d) == i
  {
    if i == 0 then Top else if i == 1 then Right else if i == 2 then Bottom else Left
  }

  function Opposite(d: Direction): Direction
  {
    match d
    case Top => Bottom
    case Right => Left
    case Bottom => Top
    case Left => Right
  }

  /** The orientation of the walls stored in a row: `y & 1`, odd rows vertical. */
  function RowDirection(row: int): WallDirection
  {
    if row % 2 == 1 then Vertical else Horizontal
  }

  /** How many walls a row of a w-wide maze stores. */
  function RowWallCount(row: int, w: int): int
  {
    if RowDirection(row) == Vertical then w + 1 else w
  }

  /** How many wall rows an h-high maze stores. */
  function NumRows(h: int): nat
  {
    if h > 0 then 2 * h + 1 else 0
  }

  predicate InGrid(w: int, h: int, c: Cell)
  {
    0 <= c.x < w && 0 <= c.y < h
  }

  /** The slot lies inside the jagged wall grid of a w x h maze. */
  predicate InWallGrid(w: int, h: int, p: Pos)
  {
    0 <= p.y < NumRows(h) && 0 <= p.x < RowWallCount(p.y, w)
  }

  /** Cell.getWallIndex: the slot of the wall on side d of cell (x, y). */
  function WallIndex(x: int, y: int, d: Direction): (r: Pos)
    // a top or bottom side is stored in a horizontal row, a left or right side in a vertical one
    ensures RowDirection(r.y) == (if d == Top || d == Bottom then Horizontal else Vertical)
    // the wall stored there starts at the cell's corner, moved one cell for a right or bottom side
    ensures r.x == x + (if d == Right then 1 else 0) && r.y / 2 == y + (if d == Bottom then 1 else 0)
  {
    match d
    case Top => Pos(x, y * 2)
    case Right => Pos(x + 1, y * 2 + 1)
    case Bottom => Pos(x, y * 2 + 2)
    case Left => Pos(x, y * 2 + 1)
  }

  /** Cell.getNeighbourCellIndex: the coordinates of the cell beyond side d of (x, y). */
  function NeighbourIndex(x: int, y: int, d: Direction): (r: Pos)
    // the neighbour is one step away, along the row for left/right and along the column for top/bottom
    ensures d == Top || d == Bottom ==> r.x == x && (r.y == y - 1 || r.y == y + 1)
    ensures d == Left || d == Right ==> r.y == y && (r.x == x - 1 || r.x == x + 1)
    ensures (d == Bottom ==> r.y > y) && (d == Top ==> r.y < y) && (d == Right ==> r.x > x) && (d == Left ==> r.x < x)
  {
    match d
    case Top => Pos(x, y - 1)
    case Right => Pos(x + 1, y)
    case Bottom => Pos(x, y + 1)
    case Left => Pos(x - 1, y)
  }

  /** The cell beyond side d of c. */
  function Step(c: Cell, d: Direction): Cell
  {
    var p := NeighbourIndex(c.x, c.y, d);
    Cell(p.x, p.y)
  }

  /** The wall slot on side d of c. */
  function SlotOf(c: Cell, d: Direction): Pos
  {
    WallIndex(c.x, c.y, d)
  }

  /** Cell.neighboursExists[d]: c is not on the grid edge on side d. */
  function NeighbourExists(w: int, h: int, c: Cell, d: Direction): (r: bool)
    ensures InGrid(w, h, c) ==> (r <==> InGrid(w, h, Step(c, d)))
  {
    match d
    case Top => c.y != 0
    case Right => c.x != w - 1
    case Bottom => c.y != h - 1
    case Left => c.x != 0
  }

  /**
   * The two cells a stored wall separates: for a horizontal slot the cell
   * above and the cell below it, for a vertical slot the cell to its left
   * and the cell to its right.
   */
  function Sides(p: Pos): (Cell, Cell)
  {
    if p.y % 2 == 0 then (Cell(p.x, p.y / 2 - 1), Cell(p.x, p.y / 2))
    else (Cell(p.x - 1, p.y / 2), Cell(p.x, p.y / 2))
  }

  /** A wall between two cells of the grid, as opposed to one on its boundary. */
  predicate Interior(w: int, h: int, p: Pos)
  {
    InGrid(w, h, Sides(p).0) && InGrid(w, h, Sides(p).1)
  }

  /** The two cells on either side of a wall agree on its slot. */
  lemma SharedWall(c: Cell, d: Direction)
    ensures SlotOf(Step(c, d), Opposite(d)) == SlotOf(c, d)
  {
  }

  /** Stepping in direction d and then back in the opposite direction returns to c. */
  lemma StepBack(c: Cell, d: Direction)
    ensures Step(Step(c, d), Opposite(d)) == c
    ensures Opposite(Opposite(d)) == d && Opposite(d) != d
  {
  }

  /** For an in-grid cell, every side's slot lies in the jagged wall grid. */
  lemma SlotInWallGrid(w: int, h: int, c: Cell, d: Direction)
    requires InGrid(w, h, c)
    ensures InWallGrid(w, h, SlotOf(c, d))
  {
  }

  /** The slot on side d of c separates exactly c and the cell beyond side d. */
  lemma SlotSides(c: Cell, d: Direction)
    ensures Sides(SlotOf(c, d)) == (if d == Top || d == Left then (Step(c, d), c) else (c, Step(c, d)))
  {
  }

  /** A slot names a side of exactly one cell, or the shared side of two neighbours. */
  lemma SlotDetermines(c: Cell, d: Direction, c': Cell, d': Direction)
    requires SlotOf(c, d) == SlotOf(c', d')
    ensures (c' == c && d' == d) || (c' == Step(c, d) && d' == Opposite(d))
  {
  }

  /** For an in-grid cell, the neighbour on side d exists exactly when the wall there is interior. */
  lemma NeighbourExistsInterior(w: int, h: int, c: Cell, d: Direction)
    requires InGrid(w, h, c)
    ensures NeighbourExists(w, h, c, d) <==> Interior(w, h, SlotOf(c, d))
  {
    SlotSides(c, d);
  }
}
