/**
 * The maze: a w x h grid of cells and the jagged grid of walls around them.
 * Only the `isWall` flag of a stored wall ever changes; the cells and the
 * identity of every stored wall (position and orientation) are fixed when
 * the maze is built.
 */
module MazeGrid {
  import opened Geometry

  /** The two lookup failures: "cell not exists" and "wall not exists". */
  datatype Error = CellNotExists | WallNotExists

  datatype Result<T> = Success(value: T) | Failure(error: Error)

  /** A lookup that may find nothing: getNeighbourCell's null. */
  datatype Option<T> = None | Some(value: T)

  /** The wall the constructor stores at column i of row r (ignoring whether it stands). */
  predicate Labelled(wl: Wall, i: int, r: int)
  {
    wl.x == i && wl.y == r / 2 && wl.direction == RowDirection(r)
  }

  /** The wall grid has the layout of a w x h maze. */
  ghost predicate LaidOut(w: int, h: int, walls: seq<seq<Wall>>)
  {
    && |walls| == NumRows(h)
    && (forall r :: 0 <= r < |walls| ==> |walls[r]| == RowWallCount(r, w))
    && (forall r, i :: 0 <= r < |walls| && 0 <= i < |walls[r]| ==> Labelled(walls[r][i], i, r))
  }

  /** The cell grid of a w x h maze: row y, column x holds Cell(x, y). */
  ghost predicate CellsLaidOut(w: int, h: int, cells: seq<seq<Cell>>)
  {
    && |cells| == h
    && (forall y :: 0 <= y < h ==> |cells[y]| == w)
    && (forall y, x :: 0 <= y < h && 0 <= x < |cells[y]| ==> cells[y][x] == Cell(x, y))
  }

  ghost predicate AllStanding(walls: seq<seq<Wall>>)
  {
    forall r, i :: 0 <= r < |walls| && 0 <= i < |walls[r]| ==> walls[r][i].isWall
  }

  /** The slot holds a wall that has been removed. */
  predicate IsOpen(walls: seq<seq<Wall>>, p: Pos)
  {
    0 <= p.y < |walls| && 0 <= p.x < |walls[p.y]| && !walls[p.y][p.x].isWall
  }

  /** The first k slots of row r. */
  ghost function RowSlots(r: int, k: int): set<Pos>
  {
    if k <= 0 then {} else RowSlots(r, k - 1) + {Pos(k - 1, r)}
  }

  /** Every slot of the first n rows of the wall grid. */
  ghost function Slots(walls: seq<seq<Wall>>, n: int): set<Pos>
    requires n <= |walls|
  {
    if n <= 0 then {} else Slots(walls, n - 1) + RowSlots(n - 1, |walls[n - 1]|)
  }

  /** Every slot whose wall has been removed. */
  ghost function OpenSlots(walls: seq<seq<Wall>>): set<Pos>
  {
    set p | p in Slots(walls, |walls|) && IsOpen(walls, p)
  }

  lemma {:induction false} RowSlotsMembership(r: int, k: int, p: Pos)
    ensures p in RowSlots(r, k) <==> p.y == r && 0 <= p.x < k
  {
    if k > 0 {
      RowSlotsMembership(r, k - 1, p);
    }
  }

  lemma {:induction false} SlotsMembership(walls: seq<seq<Wall>>, n: int, p: Pos)
    requires n <= |walls|
    ensures p in Slots(walls, n) <==> 0 <= p.y < n && 0 <= p.x < |walls[p.y]|
  {
    if n > 0 {
      SlotsMembership(walls, n - 1, p);
      RowSlotsMembership(n - 1, |walls[n - 1]|, p);
    }
  }

  lemma OpenSlotsMembership(walls: seq<seq<Wall>>, p: Pos)
    ensures p in OpenSlots(walls) <==> IsOpen(walls, p)
  {
    SlotsMembership(walls, |walls|, p);
  }

  /** The wall grid with the wall at slot p removed (`isWall = false` on it). */
  function Opened(walls: seq<seq<Wall>>, p: Pos): (r: seq<seq<Wall>>)
    requires 0 <= p.y < |walls| && 0 <= p.x < |walls[p.y]|
    ensures |r| == |walls|
    ensures forall k :: 0 <= k < |r| ==> |r[k]| == |walls[k]|
  {
    walls[p.y := walls[p.y][p.x := walls[p.y][p.x].(isWall := false)]]
  }

  /** Opening a wall keeps the layout and adds exactly that slot to the open ones. */
  lemma OpenedSlots(w: int, h: int, walls: seq<seq<Wall>>, p: Pos)
    requires LaidOut(w, h, walls)
    requires 0 <= p.y < |walls| && 0 <= p.x < |walls[p.y]|
    ensures LaidOut(w, h, Opened(walls, p))
    ensures OpenSlots(Opened(walls, p)) == OpenSlots(walls) + {p}
    ensures forall q :: IsOpen(walls, q) ==> IsOpen(Opened(walls, p), q)
  {
    var walls' := Opened(walls, p);
    forall q | q in OpenSlots(walls')
      ensures q in OpenSlots(walls) + {p}
    {
      OpenSlotsMembership(walls', q);
      OpenSlotsMembership(walls, q);
    }
    forall q | q in OpenSlots(walls) + {p}
      ensures q in OpenSlots(walls')
    {
      OpenSlotsMembership(walls', q);
      OpenSlotsMembership(walls, q);
    }
  }

  /** A row after `reset`: every wall of it standing again. */
  function RaiseRow(row: seq<Wall>): (r: seq<Wall>)
  {
    seq(|row|, i requires 0 <= i < |row| => row[i].(isWall := true))
  }

  /** The whole wall grid after `reset`. */
  function RaiseAll(walls: seq<seq<Wall>>): (r: seq<seq<Wall>>)
  {
    seq(|walls|, k requires 0 <= k < |walls| => RaiseRow(walls[k]))
  }

  /**
   * `reset` stands every wall, changes nothing else about any wall, keeps the
   * layout, and doing it twice is the same as doing it once.
   */
  lemma RaiseAllProperties(w: int, h: int, walls: seq<seq<Wall>>)
    requires LaidOut(w, h, walls)
    ensures LaidOut(w, h, RaiseAll(walls))
    ensures AllStanding(RaiseAll(walls))
    ensures OpenSlots(RaiseAll(walls)) == {}
    ensures forall r, i :: 0 <= r < |walls| && 0 <= i < |walls[r]| ==>
              RaiseAll(walls)[r][i] == walls[r][i].(isWall := true)
    ensures RaiseAll(RaiseAll(walls)) == RaiseAll(walls)
  {
    var once := RaiseAll(walls);
    forall q | q in OpenSlots(once) ensures false {
      OpenSlotsMembership(once, q);
    }
    forall r | 0 <= r < |once| ensures RaiseRow(once[r]) == once[r] {
    }
  }

  // ---------------------------------------------------------------------------
  // The text dump produced by `toString`.

  /** A floor piece: "__" under a standing horizontal wall, two blanks otherwise. */
  function FloorText(wl: Wall): string
  {
    if wl.isWall then "__" else "  "
  }

  /** A post piece: "|" for a standing vertical wall, "." otherwise. */
  function PostText(wl: Wall): string
  {
    if wl.isWall then "|" else "."
  }

  /** The first n cells of the top line: "." and a floor piece per cell, from the top wall row. */
  function TopCells(floors: seq<Wall>, n: nat): string
    requires n <= |floors|
  {
    if n == 0 then "" else TopCells(floors, n - 1) + "." + FloorText(floors[n - 1])
  }

  /**
   * The first n cells of a later line: per cell a post from the vertical
   * row beside it and a floor from the horizontal row below it.
   */
  function RowCells(posts: seq<Wall>, floors: seq<Wall>, n: nat): string
    requires n <= |posts| && n <= |floors|
  {
    if n == 0 then "" else RowCells(posts, floors, n - 1) + PostText(posts[n - 1]) + FloorText(floors[n - 1])
  }

  /** The top line of a w-wide dump: its cells, a closing ".", and "\n". */
  function TopLine(floors: seq<Wall>, w: nat): string
    requires w <= |floors|
  {
    TopCells(floors, w) + ".\n"
  }

  /** A later line: its cells, the post after the last cell, and "\n". */
  function MidLine(posts: seq<Wall>, floors: seq<Wall>, w: nat): string
    requires w < |posts| && w <= |floors|
  {
    RowCells(posts, floors, w) + PostText(posts[w]) + "\n"
  }

  /** Line y of the dump of a w-wide maze. */
  function Line(w: nat, h: nat, walls: seq<seq<Wall>>, y: nat): string
    requires LaidOut(w, h, walls) && (h > 0 || w == 0) && y <= h
  {
    if y == 0 then TopLine(if w == 0 then [] else walls[0], w)
    else MidLine(walls[2 * y - 1], walls[2 * y], w)
  }

  /** The lines of the dump, top to bottom: one per cell row and the top line. */
  function DumpLines(w: nat, h: nat, walls: seq<seq<Wall>>): (r: seq<string>)
    requires LaidOut(w, h, walls) && (h > 0 || w == 0)
    ensures |r| == h + 1
  {
    seq(h + 1, y requires 0 <= y <= h => Line(w, h, walls, y))
  }

  /** The first n strings of ss, one after another. */
  function Join(ss: seq<string>, n: nat): string
    requires n <= |ss|
  {
    if n == 0 then "" else Join(ss, n - 1) + ss[n - 1]
  }

  /** The whole dump: lines 0 to h. */
  function Render(w: nat, h: nat, walls: seq<seq<Wall>>): string
    requires LaidOut(w, h, walls) && (h > 0 || w == 0)
  {
    Join(DumpLines(w, h, walls), h + 1)
  }

  /** Each line of the dump follows the lines above it. */
  lemma JoinNext(w: nat, h: nat, walls: seq<seq<Wall>>, y: nat)
    requires LaidOut(w, h, walls) && (h > 0 || w == 0) && y <= h
    ensures Join(DumpLines(w, h, walls), y + 1) == Join(DumpLines(w, h, walls), y) + Line(w, h, walls, y)
  {
  }

  /** `s` repeated n times. */
  function Repeat(s: string, n: nat): (r: string)
  {
    if n == 0 then "" else Repeat(s, n - 1) + s
  }

  lemma {:induction false} TopCellsShape(floors: seq<Wall>, n: nat)
    requires n <= |floors|
    ensures |TopCells(floors, n)| == 3 * n
    ensures '\n' !in TopCells(floors, n)
  {
    if n > 0 {
      TopCellsShape(floors, n - 1);
    }
  }

  lemma {:induction false} TopCellsStanding(floors: seq<Wall>, n: nat)
    requires n <= |floors|
    requires forall i :: 0 <= i < n ==> floors[i].isWall
    ensures TopCells(floors, n) == Repeat(".__", n)
  {
    if n > 0 {
      TopCellsStanding(floors, n - 1);
      var before := TopCells(floors, n - 1);
      assert TopCells(floors, n) == before + "." + "__";
      assert before + "." + "__" == before + ".__";
    }
  }

  lemma {:induction false} RowCellsShape(posts: seq<Wall>, floors: seq<Wall>, n: nat)
    requires n <= |posts| && n <= |floors|
    ensures |RowCells(posts, floors, n)| == 3 * n
    ensures '\n' !in RowCells(posts, floors, n)
  {
    if n > 0 {
      RowCellsShape(posts, floors, n - 1);
    }
  }

  lemma {:induction false} RowCellsStanding(posts: seq<Wall>, floors: seq<Wall>, n: nat)
    requires n <= |posts| && n <= |floors|
    requires forall i :: 0 <= i < n ==> posts[i].isWall && floors[i].isWall
    ensures RowCells(posts, floors, n) == Repeat("|__", n)
  {
    if n > 0 {
      RowCellsStanding(posts, floors, n - 1);
      var before := RowCells(posts, floors, n - 1);
      assert RowCells(posts, floors, n) == before + "|" + "__";
      assert before + "|" + "__" == before + "|__";
    }
  }

  lemma TopLineShape(floors: seq<Wall>, w: nat)
    requires w <= |floors|
    ensures |TopLine(floors, w)| == 3 * w + 2
    ensures TopLine(floors, w)[3 * w + 1] == '\n'
    ensures '\n' !in TopLine(floors, w)[..3 * w + 1]
  {
    TopCellsShape(floors, w);
    assert TopLine(floors, w)[..3 * w + 1] == TopCells(floors, w) + ".";
  }

  lemma MidLineShape(posts: seq<Wall>, floors: seq<Wall>, w: nat)
    requires w < |posts| && w <= |floors|
    ensures |MidLine(posts, floors, w)| == 3 * w + 2
    ensures MidLine(posts, floors, w)[3 * w + 1] == '\n'
    ensures '\n' !in MidLine(posts, floors, w)[..3 * w + 1]
  {
    RowCellsShape(posts, floors, w);
    assert MidLine(posts, floors, w)[..3 * w + 1] == RowCells(posts, floors, w) + PostText(posts[w]);
  }

  /** Cell row y > 0 of the dump reads the vertical row 2y-1 (w+1 walls) and the horizontal row 2y (w walls). */
  lemma RowLengths(w: nat, h: nat, walls: seq<seq<Wall>>, y: nat)
    requires LaidOut(w, h, walls) && 0 < y <= h
    ensures |walls[2 * y - 1]| == w + 1 && |walls[2 * y]| == w
    ensures RowWallCount(y * 2 - 1, w) == w + 1 && RowWallCount(y * 2, w) == w
  {
    assert RowDirection(2 * y - 1) == Vertical;
    assert RowDirection(2 * y) == Horizontal;
  }

  /** The top line reads the first wall row, which holds w walls. */
  lemma TopRowLength(w: nat, h: nat, walls: seq<seq<Wall>>)
    requires LaidOut(w, h, walls)
    ensures h > 0 ==> |walls[0]| == w && RowWallCount(0, w) == w
  {
  }

  /** Every line has 3w+1 characters followed by its single "\n". */
  lemma LineShape(w: nat, h: nat, walls: seq<seq<Wall>>, y: nat)
    requires LaidOut(w, h, walls) && (h > 0 || w == 0) && y <= h
    ensures |Line(w, h, walls, y)| == 3 * w + 2
    ensures Line(w, h, walls, y)[3 * w + 1] == '\n'
    ensures '\n' !in Line(w, h, walls, y)[..3 * w + 1]
  {
    if y == 0 {
      TopLineShape(if w == 0 then [] else walls[0], w);
    } else {
      MidLineShape(walls[2 * y - 1], walls[2 * y], w);
    }
  }

  /** Offset(k, L): where block k starts in a string of blocks of length L (k * L, see OffsetIsProduct). */
  function Offset(k: nat, L: nat): nat
  {
    if k == 0 then 0 else Offset(k - 1, L) + L
  }

  lemma {:induction false} OffsetIsProduct(k: nat, L: nat)
    ensures Offset(k, L) == k * L
  {
    if k > 0 {
      OffsetIsProduct(k - 1, L);
    }
  }

  lemma {:induction false} OffsetMono(i: nat, j: nat, L: nat)
    requires i <= j
    ensures Offset(i, L) <= Offset(j, L)
  {
    if i < j {
      OffsetMono(i, j - 1, L);
    }
  }

  /** Blocks of one width L, joined: block k sits at [k*L, (k+1)*L). */
  lemma {:induction false} BlockAt(ss: seq<string>, L: nat, n: nat, k: nat)
    requires forall i :: 0 <= i < |ss| ==> |ss[i]| == L
    requires k < n <= |ss|
    ensures |Join(ss, n)| == Offset(n, L)
    ensures Offset(k + 1, L) <= |Join(ss, n)|
    ensures Join(ss, n)[Offset(k, L)..Offset(k + 1, L)] == ss[k]
  {
    var prefix := Join(ss, n - 1);
    if k < n - 1 {
      BlockAt(ss, L, n - 1, k);
      OffsetMono(k + 1, n - 1, L);
      assert (prefix + ss[n - 1])[Offset(k, L)..Offset(k + 1, L)] == prefix[Offset(k, L)..Offset(k + 1, L)];
    } else if n > 1 {
      BlockAt(ss, L, n - 1, 0);
    }
  }

  lemma LinesWidth(w: nat, h: nat, walls: seq<seq<Wall>>)
    requires LaidOut(w, h, walls) && (h > 0 || w == 0)
    ensures forall i :: 0 <= i < |DumpLines(w, h, walls)| ==> |DumpLines(w, h, walls)[i]| == 3 * w + 2
  {
    forall i | 0 <= i < |DumpLines(w, h, walls)|
      ensures |DumpLines(w, h, walls)[i]| == 3 * w + 2
    {
      LineShape(w, h, walls, i);
    }
  }

  /** Line k of the dump is its k-th block of width 3w+2. */
  lemma LineAt(w: nat, h: nat, walls: seq<seq<Wall>>, k: nat)
    requires LaidOut(w, h, walls) && (h > 0 || w == 0) && k <= h
    ensures |Render(w, h, walls)| == Offset(h + 1, 3 * w + 2)
    ensures Offset(k, 3 * w + 2) <= Offset(k + 1, 3 * w + 2) <= |Render(w, h, walls)|
    ensures Render(w, h, walls)[Offset(k, 3 * w + 2)..Offset(k + 1, 3 * w + 2)] == Line(w, h, walls, k)
    ensures |Render(w, h, walls)| == (h + 1) * (3 * w + 2) && Offset(k, 3 * w + 2) == k * (3 * w + 2)
  {
    var ss := DumpLines(w, h, walls);
    var L := 3 * w + 2;
    LinesWidth(w, h, walls);
    BlockAt(ss, L, h + 1, k);
    OffsetMono(k, k + 1, L);
    OffsetIsProduct(h + 1, L);
    OffsetIsProduct(k, L);
  }

  /** On a fully walled maze the top line is ".__" per cell then ".", every other line "|__" per cell then "|". */
  lemma StandingLines(w: nat, h: nat, walls: seq<seq<Wall>>, y: nat)
    requires LaidOut(w, h, walls) && (h > 0 || w == 0) && y <= h
    requires AllStanding(walls)
    ensures y == 0 ==> Line(w, h, walls, y) == Repeat(".__", w) + ".\n"
    ensures y > 0 ==> Line(w, h, walls, y) == Repeat("|__", w) + "|\n"
  {
    if y == 0 {
      var floors := if w == 0 then [] else walls[0];
      assert forall i :: 0 <= i < w ==> floors[i].isWall;
      TopCellsStanding(floors, w);
      assert TopLine(floors, w) == Repeat(".__", w) + ".\n";
    } else {
      var posts, floors := walls[2 * y - 1], walls[2 * y];
      assert |posts| == w + 1 && |floors| == w;
      assert forall i :: 0 <= i < w ==> posts[i].isWall && floors[i].isWall;
      assert posts[w].isWall;
      RowCellsStanding(posts, floors, w);
      assert MidLine(posts, floors, w) == Repeat("|__", w) + "|\n";
    }
  }

  class Maze {
    const w: nat
    const h: nat
    var walls: seq<seq<Wall>>
    const cells: seq<seq<Cell>>

    ghost predicate Valid()
      reads this
    {
      LaidOut(w, h, walls) && CellsLaidOut(w, h, cells)
    }

    /** Builds the wall rows top to bottom, every wall standing, then the cell rows. */
    constructor (w: nat, h: nat)
      ensures this.w == w && this.h == h
      ensures Valid() && AllStanding(walls)
    {
      var ws: seq<seq<Wall>> := [];
      var y := 0;
      while y < h
        invariant 0 <= y <= h
        invariant |ws| == 2 * y
        invariant forall r :: 0 <= r < |ws| ==> |ws[r]| == RowWallCount(r, w)
        invariant forall r, i :: 0 <= r < |ws| && 0 <= i < |ws[r]| ==>
                    ws[r][i] == Wall(i, r / 2, RowDirection(r), true)
      {
        var horizontalRow: seq<Wall> := [];
        var verticalRow: seq<Wall> := [];
        var x := 0;
        while x < w
          invariant 0 <= x <= w
          invariant |horizontalRow| == x && |verticalRow| == x
          invariant forall i :: 0 <= i < x ==> horizontalRow[i] == Wall(i, y, Horizontal, true)
          invariant forall i :: 0 <= i < x ==> verticalRow[i] == Wall(i, y, Vertical, true)
        {
          horizontalRow := horizontalRow + [Wall(x, y, Horizontal, true)];
          verticalRow := verticalRow + [Wall(x, y, Vertical, true)];
          x := x + 1;
        }
        verticalRow := verticalRow + [Wall(w, y, Vertical, true)];
        ws := ws + [horizontalRow] + [verticalRow];
        y := y + 1;
      }
      if h > 0 {
        var horizontalRow: seq<Wall> := [];
        var x := 0;
        while x < w
          invariant 0 <= x <= w
          invariant |horizontalRow| == x
          invariant forall i :: 0 <= i < x ==> horizontalRow[i] == Wall(i, h, Horizontal, true)
        {
          horizontalRow := horizontalRow + [Wall(x, h, Horizontal, true)];
          x := x + 1;
        }
        ws := ws + [horizontalRow];
      }

      var cs: seq<seq<Cell>> := [];
      y := 0;
      while y < h
        invariant 0 <= y <= h
        invariant |cs| == y
        invariant forall k :: 0 <= k < y ==> |cs[k]| == w
        invariant forall k, x :: 0 <= k < y && 0 <= x < |cs[k]| ==> cs[k][x] == Cell(x, k)
      {
        var row: seq<Cell> := [];
        var x := 0;
        while x < w
          invariant 0 <= x <= w
          invariant |row| == x
          invariant forall i :: 0 <= i < x ==> row[i] == Cell(i, y)
        {
          row := row + [Cell(x, y)];
          x := x + 1;
        }
        cs := cs + [row];
        y := y + 1;
      }

      this.w := w;
      this.h := h;
      walls := ws;
      cells := cs;
    }

    /**
     * getCell: fails when x is outside [0, w) or y outside [0, h); otherwise
     * the cell at the floored coordinates.
     */
    function GetCell(x: real, y: real): (r: Result<Cell>)
      reads this
      requires Valid()
      ensures r.Success? <==> 0.0 <= x < w as real && 0.0 <= y < h as real
      ensures r.Failure? ==> r.error == CellNotExists
      ensures r.Success? ==> r.value == Cell(x.Floor, y.Floor) && InGrid(w, h, r.value)
      ensures r.Success? ==> r.value.x as real <= x < (r.value.x + 1) as real
      ensures r.Success? ==> r.value.y as real <= y < (r.value.y + 1) as real
    {
      if y < 0.0 || y >= h as real || x < 0.0 || x >= w as real then Failure(CellNotExists)
      else Success(cells[y.Floor][x.Floor])
    }

    /** getWall: fails exactly outside the jagged wall grid. */
    function GetWall(x: int, y: int): (r: Result<Wall>)
      reads this
      requires Valid()
      ensures r.Success? <==> InWallGrid(w, h, Pos(x, y))
      ensures r.Failure? ==> r.error == WallNotExists
      ensures r.Success? ==> r.value == walls[y][x] && Labelled(r.value, x, y)
    {
      if y < 0 || y >= |walls| then Failure(WallNotExists)
      else if x < 0 || x >= |walls[y]| then Failure(WallNotExists)
      else Success(walls[y][x])
    }

    /**
     * Cell.getWall: the stored wall on side d of an in-grid cell. The lookup
     * always succeeds, and the wall lies exactly on that side of the cell.
     */
    function CellWall(c: Cell, d: Direction): (r: Wall)
      reads this
      requires Valid() && InGrid(w, h, c)
      ensures GetWall(SlotOf(c, d).x, SlotOf(c, d).y) == Success(r)
      ensures d == Top ==> r.direction == Horizontal && r.x == c.x && r.y == c.y && r.EndX() == c.x + 1 && r.EndY() == c.y
      ensures d == Bottom ==> r.direction == Horizontal && r.x == c.x && r.y == c.y + 1 && r.EndX() == c.x + 1 && r.EndY() == c.y + 1
      ensures d == Left ==> r.direction == Vertical && r.x == c.x && r.y == c.y && r.EndX() == c.x && r.EndY() == c.y + 1
      ensures d == Right ==> r.direction == Vertical && r.x == c.x + 1 && r.y == c.y && r.EndX() == c.x + 1 && r.EndY() == c.y + 1
    {
      var p := SlotOf(c, d);
      SlotInWallGrid(w, h, c, d);
      GetWall(p.x, p.y).value
    }

    /**
     * `cell.getWall(d).isWall = false`: removes the wall on side d of an
     * in-grid cell; that slot becomes open and nothing else changes.
     */
    method OpenWall(c: Cell, d: Direction)
      requires Valid() && InGrid(w, h, c)
      modifies this`walls
      ensures Valid() && walls == Opened(old(walls), SlotOf(c, d))
      ensures OpenSlots(walls) == old(OpenSlots(walls)) + {SlotOf(c, d)}
      ensures forall q :: IsOpen(old(walls), q) ==> IsOpen(walls, q)
    {
      var p := SlotOf(c, d);
      SlotInWallGrid(w, h, c, d);
      OpenedSlots(w, h, walls, p);
      walls := Opened(walls, p);
    }

    /** Cell.getNeighbourCell: null (None) on the grid edge, otherwise the cell beyond side d. */
    function NeighbourCell(c: Cell, d: Direction): (r: Option<Cell>)
      reads this
      requires Valid() && InGrid(w, h, c)
      ensures r.Some? <==> InGrid(w, h, Step(c, d))
      ensures r.Some? ==> r.value == Step(c, d)
    {
      if !NeighbourExists(w, h, c, d) then None
      else
        var p := NeighbourIndex(c.x, c.y, d);
        Some(GetCell(p.x as real, p.y as real).value)
    }

    /** reset: every wall standing again; layout and cells untouched. */
    method Reset()
      requires Valid()
      modifies this`walls
      ensures Valid()
      ensures walls == RaiseAll(old(walls))
    {
      var r := 0;
      while r < |walls|
        invariant 0 <= r <= |walls|
        invariant |walls| == |old(walls)|
        invariant forall k :: 0 <= k < r ==> walls[k] == RaiseRow(old(walls)[k])
        invariant forall k :: r <= k < |walls| ==> walls[k] == old(walls)[k]
      {
        var row := walls[r];
        var i := 0;
        while i < |row|
          invariant 0 <= i <= |row| == |old(walls)[r]|
          invariant forall j :: 0 <= j < i ==> row[j] == old(walls)[r][j].(isWall := true)
          invariant forall j :: i <= j < |row| ==> row[j] == old(walls)[r][j]
        {
          row := row[i := row[i].(isWall := true)];
          i := i + 1;
        }
        walls := walls[r := row];
        r := r + 1;
      }
      RaiseAllProperties(w, h, old(walls));
    }

    /**
     * The first pass of toString's loop: "." and a floor piece per column,
     * then ".\n". Its getWall(x, 0) fails when there is no wall row at all.
     */
    method TopLineText() returns (r: Result<string>)
      requires Valid()
      ensures r.Failure? <==> (h == 0 && w > 0)
      ensures r.Failure? ==> r.error == WallNotExists
      ensures r.Success? ==> r.value == TopLine(if w == 0 then [] else walls[0], w)
    {
      ghost var floors := if h == 0 then [] else walls[0];
      TopRowLength(w, h, walls);
      var line := "";
      var x := 0;
      while x < w
        invariant 0 <= x <= w
        invariant x > 0 ==> h > 0
        invariant line == TopCells(floors, x)
      {
        line := line + ".";
        var wall := GetWall(x, 0);
        if wall.Failure? {
          return Failure(wall.error);
        }
        line := line + FloorText(wall.value);
        x := x + 1;
      }
      line := line + ".";
      line := line + "\n";
      return Success(line);
    }

    /**
     * A later pass of toString's loop: per column the post from row 2y-1 and
     * the floor from row 2y, then the closing post and "\n".
     */
    method CellLineText(y: nat) returns (line: string)
      requires Valid() && 0 < y <= h
      ensures line == MidLine(walls[2 * y - 1], walls[2 * y], w)
    {
      RowLengths(w, h, walls, y);
      var posts, floors := walls[2 * y - 1], walls[2 * y];
      line := "";
      var x := 0;
      while x < w
        invariant 0 <= x <= w
        invariant line == RowCells(posts, floors, x)
      {
        var post := GetWall(x, y * 2 - 1).value;
        var floor := GetWall(x, y * 2).value;
        line := line + PostText(post);
        line := line + FloorText(floor);
        x := x + 1;
      }
      line := line + PostText(GetWall(w, y * 2 - 1).value);
      line := line + "\n";
    }

    /**
     * toString: the fixed-width text dump, line by line. It fails when
     * h == 0 < w, since its first lookup getWall(0, 0) finds no wall row.
     */
    method ToString() returns (r: Result<string>)
      requires Valid()
      ensures r.Failure? <==> (h == 0 && w > 0)
      ensures r.Failure? ==> r.error == WallNotExists
      ensures r.Success? ==> (h > 0 || w == 0) && r.value == Render(w, h, walls)
    {
      var top := TopLineText();
      if top.Failure? {
        return Failure(top.error);
      }
      var result := top.value;
      JoinNext(w, h, walls, 0);
      var y := 1;
      while y <= h
        invariant 1 <= y <= h + 1
        invariant result == Join(DumpLines(w, h, walls), y)
      {
        var line := CellLineText(y);
        JoinNext(w, h, walls, y);
        result := result + line;
        y := y + 1;
      }
      return Success(result);
    }
  }
}
