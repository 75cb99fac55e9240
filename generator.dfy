/**
 * The maze generator: a depth-limited recursive backtracker whose paths,
 * once their budget runs out, park their last cell on a work queue; the
 * queue is then drained in random order, each element starting a new path.
 *
 * A per-cell visited flag (the generator's own cell grid) records which
 * cells a path has reached. Random choices are nondeterministic choices of
 * a valid index. Ghost parameters carry what the proofs need: the slots
 * the generator has opened, and for every visited cell a path of open
 * walls from the top-left cell to it.
 */
module MazeGeneration {
  import opened Geometry
  import opened MazeGrid

  /** The cell generation starts from: getCell(0, 0). */
  const Origin: Cell := Cell(0, 0)

  /** The visited flags form an h x w grid (row y, column x). */
  predicate Shaped(w: int, h: int, vis: seq<seq<bool>>)
  {
    |vis| == h && forall y :: 0 <= y < h ==> |vis[y]| == w
  }

  predicate IsVisited(w: int, h: int, vis: seq<seq<bool>>, c: Cell)
    requires Shaped(w, h, vis)
  {
    InGrid(w, h, c) && vis[c.y][c.x]
  }

  /** Disjoint sets add up. */
  lemma DisjointCard<T>(A: set<T>, B: set<T>)
    requires A !! B
    ensures |A + B| == |A| + |B|
  {
  }

  /** Adding a member changes nothing. */
  lemma Absorbed<T>(V: set<T>, a: T)
    requires a in V
    ensures V + {a} == V
  {
  }

  /** Two cells that are equal or both members extend V alike. */
  lemma SameJoin<T>(V: set<T>, a: T, b: T)
    requires a == b || (a in V && b in V)
    ensures V + {a} == V + {b}
  {
  }

  /** A subset is no larger. */
  lemma SubsetCard<T>(A: set<T>, B: set<T>)
    requires A <= B
    ensures |A| <= |B|
  {
    assert B == A + (B - A);
  }

  /** The first w cells of row y. */
  ghost function RowOf(w: int, y: int): set<Cell>
  {
    if w <= 0 then {} else RowOf(w - 1, y) + {Cell(w - 1, y)}
  }

  /** The cells of the first h rows of a w-wide grid, row by row. */
  ghost function AllCells(w: int, h: int): set<Cell>
  {
    if h <= 0 then {} else AllCells(w, h - 1) + RowOf(w, h - 1)
  }

  ghost function VisitedSet(w: int, h: int, vis: seq<seq<bool>>): set<Cell>
    requires Shaped(w, h, vis)
  {
    set c | c in AllCells(w, h) && IsVisited(w, h, vis, c)
  }

  ghost function UnvisitedSet(w: int, h: int, vis: seq<seq<bool>>): set<Cell>
    requires Shaped(w, h, vis)
  {
    set c | c in AllCells(w, h) && !IsVisited(w, h, vis, c)
  }

  /** The flag grid with c marked visited (`cell.isVisited = true`). */
  function Mark(vis: seq<seq<bool>>, c: Cell): (r: seq<seq<bool>>)
    requires 0 <= c.y < |vis| && 0 <= c.x < |vis[c.y]|
    ensures |r| == |vis| && forall y :: 0 <= y < |r| ==> |r[y]| == |vis[y]|
    ensures r[c.y][c.x]
    ensures forall y, x :: 0 <= y < |r| && 0 <= x < |r[y]| && (y != c.y || x != c.x) ==> r[y][x] == vis[y][x]
  {
    vis[c.y := vis[c.y][c.x := true]]
  }

  /** A fresh flag grid: h rows of w unvisited cells. */
  function Unmarked(w: nat, h: nat): (r: seq<seq<bool>>)
  {
    seq(h, _ => seq(w, _ => false))
  }

  /** Every in-grid neighbour of c has been visited: availableDirections of c is empty. */
  ghost predicate Saturated(w: int, h: int, vis: seq<seq<bool>>, c: Cell)
    requires Shaped(w, h, vis)
  {
    forall d :: NeighbourExists(w, h, c, d) ==> IsVisited(w, h, vis, Step(c, d))
  }

  /** b is the neighbour of a beyond one of a's sides, and the wall on that side is open. */
  ghost predicate Linked(walls: seq<seq<Wall>>, a: Cell, b: Cell)
  {
    exists d :: b == Step(a, d) && IsOpen(walls, SlotOf(a, d))
  }

  /** p walks from the origin to c through in-grid cells, each step crossing an open wall. */
  ghost predicate OpenPath(w: int, h: int, walls: seq<seq<Wall>>, p: seq<Cell>, c: Cell)
  {
    && |p| > 0 && p[0] == Origin && p[|p| - 1] == c
    && (forall i :: 0 <= i < |p| ==> InGrid(w, h, p[i]))
    && (forall i, j :: 0 <= i && j == i + 1 && j < |p| ==> Linked(walls, p[i], p[j]))
  }

  /** c can be reached from the origin through open walls. */
  ghost predicate Reachable(w: int, h: int, walls: seq<seq<Wall>>, c: Cell)
  {
    exists p :: OpenPath(w, h, walls, p, c)
  }

  /**
   * The carving so far is a tree over the cells V: every carved slot is an
   * interior wall between two cells of V, and there is one carved slot fewer
   * than there are cells.
   */
  ghost predicate Carved(w: int, h: int, carved: set<Pos>, V: set<Cell>)
  {
    && (forall p :: p in carved ==> Interior(w, h, p) && Sides(p).0 in V && Sides(p).1 in V)
    && |carved| + 1 == |V|
  }

  /** Every cell of V has a recorded open path from the origin. */
  ghost predicate Spanned(w: int, h: int, walls: seq<seq<Wall>>, paths: map<Cell, seq<Cell>>, V: set<Cell>)
  {
    forall c :: c in V ==> c in paths && OpenPath(w, h, walls, paths[c], c)
  }

  /** The path budget: w * h * riverFactor, raised to 3 when smaller. */
  function RiverLimit(w: nat, h: nat, riverFactor: real): (r: real)
    ensures r >= 3.0 && r >= (w * h) as real * riverFactor
    ensures r == 3.0 || r == (w * h) as real * riverFactor
  {
    var river := (w * h) as real * riverFactor;
    if river < 3.0 then 3.0 else river
  }

  // ---------------------------------------------------------------------------
  // Facts about the flag grid.

  lemma {:induction false} RowMembership(w: int, y: int, c: Cell)
    ensures c in RowOf(w, y) <==> 0 <= c.x < w && c.y == y
  {
    if w > 0 {
      RowMembership(w - 1, y, c);
    }
  }

  lemma {:induction false} AllCellsMembership(w: int, h: int, c: Cell)
    ensures c in AllCells(w, h) <==> InGrid(w, h, c)
  {
    if h > 0 {
      AllCellsMembership(w, h - 1, c);
      RowMembership(w, h - 1, c);
    }
  }

  lemma VisitedMembership(w: int, h: int, vis: seq<seq<bool>>, c: Cell)
    requires Shaped(w, h, vis)
    ensures c in VisitedSet(w, h, vis) <==> IsVisited(w, h, vis, c)
    ensures c in UnvisitedSet(w, h, vis) <==> InGrid(w, h, c) && !IsVisited(w, h, vis, c)
    ensures c in AllCells(w, h) <==> InGrid(w, h, c)
  {
    AllCellsMembership(w, h, c);
  }

  /** The visited and the unvisited cells split the grid. */
  lemma {:induction false} Partition(w: int, h: int, vis: seq<seq<bool>>)
    requires Shaped(w, h, vis)
    ensures VisitedSet(w, h, vis) + UnvisitedSet(w, h, vis) == AllCells(w, h)
    ensures VisitedSet(w, h, vis) * UnvisitedSet(w, h, vis) == {}
    ensures |VisitedSet(w, h, vis)| + |UnvisitedSet(w, h, vis)| == |AllCells(w, h)|
  {
    var V, U := VisitedSet(w, h, vis), UnvisitedSet(w, h, vis);
    forall c ensures c in V + U <==> c in AllCells(w, h) {
      VisitedMembership(w, h, vis, c);
    }
    forall c | c in V * U ensures false {
      VisitedMembership(w, h, vis, c);
    }
    assert V + U == AllCells(w, h);
  }

  /** Marking c adds c to the visited cells, removes it from the unvisited ones, and unmarks nothing. */
  lemma Marking(w: int, h: int, vis: seq<seq<bool>>, c: Cell)
    requires Shaped(w, h, vis) && InGrid(w, h, c)
    ensures Shaped(w, h, Mark(vis, c))
    ensures VisitedSet(w, h, Mark(vis, c)) == VisitedSet(w, h, vis) + {c}
    ensures UnvisitedSet(w, h, Mark(vis, c)) == UnvisitedSet(w, h, vis) - {c}
    ensures IsVisited(w, h, Mark(vis, c), c)
  {
    var vis' := Mark(vis, c);
    forall e ensures e in VisitedSet(w, h, vis') <==> e in VisitedSet(w, h, vis) + {c} {
      VisitedMembership(w, h, vis, e);
      VisitedMembership(w, h, vis', e);
    }
    forall e ensures e in UnvisitedSet(w, h, vis') <==> e in UnvisitedSet(w, h, vis) - {c} {
      VisitedMembership(w, h, vis, e);
      VisitedMembership(w, h, vis', e);
    }
  }

  /** A fresh flag grid has no visited cell. */
  lemma UnmarkedEmpty(w: nat, h: nat)
    ensures Shaped(w, h, Unmarked(w, h))
    ensures VisitedSet(w, h, Unmarked(w, h)) == {}
  {
    forall c | c in VisitedSet(w, h, Unmarked(w, h)) ensures false {
      VisitedMembership(w, h, Unmarked(w, h), c);
    }
  }

  /** Visiting more cells keeps a saturated cell saturated. */
  lemma SaturatedGrows(w: int, h: int, vis: seq<seq<bool>>, vis': seq<seq<bool>>, c: Cell)
    requires Shaped(w, h, vis) && Shaped(w, h, vis')
    requires VisitedSet(w, h, vis) <= VisitedSet(w, h, vis')
    requires Saturated(w, h, vis, c)
    ensures Saturated(w, h, vis', c)
  {
    forall d | NeighbourExists(w, h, c, d)
      ensures IsVisited(w, h, vis', Step(c, d))
    {
      VisitedMembership(w, h, vis, Step(c, d));
      VisitedMembership(w, h, vis', Step(c, d));
    }
  }

  /** Visiting more cells leaves fewer unvisited. */
  lemma UnvisitedShrinks(w: int, h: int, vis: seq<seq<bool>>, vis': seq<seq<bool>>)
    requires Shaped(w, h, vis) && Shaped(w, h, vis')
    requires VisitedSet(w, h, vis) <= VisitedSet(w, h, vis')
    ensures UnvisitedSet(w, h, vis') <= UnvisitedSet(w, h, vis)
  {
    forall c | c in UnvisitedSet(w, h, vis')
      ensures c in UnvisitedSet(w, h, vis)
    {
      VisitedMembership(w, h, vis, c);
      VisitedMembership(w, h, vis', c);
    }
  }

  /** A subset that misses an element of B is smaller than B. */
  lemma SmallerSubset<T>(A: set<T>, B: set<T>, x: T)
    requires A <= B && x in B && x !in A
    ensures |A| < |B|
  {
    assert B == A + (B - A);
    assert x in B - A;
  }

  lemma {:induction false} RowCard(w: nat, y: int)
    ensures |RowOf(w, y)| == w
  {
    if w > 0 {
      RowCard(w - 1, y);
      RowMembership(w - 1, y, Cell(w - 1, y));
    }
  }

  /** The grid has w * h cells. */
  lemma {:induction false} AllCellsCard(w: nat, h: nat)
    ensures |AllCells(w, h)| == w * h
  {
    if h > 0 {
      AllCellsCard(w, h - 1);
      RowCard(w, h - 1);
      var row := RowOf(w, h - 1);
      forall c | c in AllCells(w, h - 1) ensures c !in row {
        AllCellsMembership(w, h - 1, c);
        RowMembership(w, h - 1, c);
      }
      DisjointCard(AllCells(w, h - 1), row);
      assert w * h == w * (h - 1) + w;
    }
  }

  /**
   * When the origin is visited and no visited cell has an unvisited
   * neighbour, every cell is visited: walk from the origin down and right.
   */
  lemma {:induction false} ClosedIsAll(w: int, h: int, vis: seq<seq<bool>>, c: Cell)
    requires Shaped(w, h, vis) && InGrid(w, h, c)
    requires IsVisited(w, h, vis, Origin)
    requires forall e :: IsVisited(w, h, vis, e) ==> Saturated(w, h, vis, e)
    ensures IsVisited(w, h, vis, c)
    decreases c.x + c.y
  {
    if c.y > 0 {
      var above := Step(c, Top);
      ClosedIsAll(w, h, vis, above);
      StepBack(c, Top);
      assert NeighbourExists(w, h, above, Bottom);
    } else if c.x > 0 {
      var left := Step(c, Left);
      ClosedIsAll(w, h, vis, left);
      StepBack(c, Left);
      assert NeighbourExists(w, h, left, Right);
    }
  }

  // ---------------------------------------------------------------------------
  // Facts about open paths.

  /** Opening a wall keeps every open path open. */
  lemma PathOpened(w: int, h: int, walls: seq<seq<Wall>>, q: Pos, p: seq<Cell>, c: Cell)
    requires LaidOut(w, h, walls) && 0 <= q.y < |walls| && 0 <= q.x < |walls[q.y]|
    requires OpenPath(w, h, walls, p, c)
    ensures OpenPath(w, h, Opened(walls, q), p, c)
  {
    OpenedSlots(w, h, walls, q);
    forall i, j | 0 <= i && j == i + 1 && j < |p|
      ensures Linked(Opened(walls, q), p[i], p[j])
    {
      var d :| p[j] == Step(p[i], d) && IsOpen(walls, SlotOf(p[i], d));
      assert IsOpen(Opened(walls, q), SlotOf(p[i], d));
    }
  }

  lemma SpannedOpened(w: int, h: int, walls: seq<seq<Wall>>, q: Pos, paths: map<Cell, seq<Cell>>, V: set<Cell>)
    requires LaidOut(w, h, walls) && 0 <= q.y < |walls| && 0 <= q.x < |walls[q.y]|
    requires Spanned(w, h, walls, paths, V)
    ensures Spanned(w, h, Opened(walls, q), paths, V)
  {
    forall c | c in V
      ensures OpenPath(w, h, Opened(walls, q), paths[c], c)
    {
      PathOpened(w, h, walls, q, paths[c], c);
    }
  }

  /** An open path to a extends through the open wall on side d of a. */
  lemma PathExtended(w: int, h: int, walls: seq<seq<Wall>>, p: seq<Cell>, a: Cell, d: Direction)
    requires OpenPath(w, h, walls, p, a)
    requires InGrid(w, h, Step(a, d)) && IsOpen(walls, SlotOf(a, d))
    ensures OpenPath(w, h, walls, p + [Step(a, d)], Step(a, d))
  {
    var p' := p + [Step(a, d)];
    assert Linked(walls, p'[|p| - 1], p'[|p|]);
    forall i, j | 0 <= i && j == i + 1 && j < |p'|
      ensures Linked(walls, p'[i], p'[j])
    {
      if j < |p| {
        assert p'[i] == p[i] && p'[j] == p[j];
      }
    }
  }

  /**
   * Carving the wall on side d of a visited cell a into its unvisited
   * neighbour b keeps the carving a tree, now over V + {b}.
   */
  lemma CarveTree(w: int, h: int, carved: set<Pos>, V: set<Cell>, a: Cell, d: Direction)
    requires InGrid(w, h, a) && InGrid(w, h, Step(a, d))
    requires a in V && Step(a, d) !in V
    requires Carved(w, h, carved, V)
    ensures SlotOf(a, d) !in carved
    ensures Carved(w, h, carved + {SlotOf(a, d)}, V + {Step(a, d)})
  {
    var b, q := Step(a, d), SlotOf(a, d);
    SlotSides(a, d);
    NeighbourExistsInterior(w, h, a, d);
    assert Interior(w, h, q);
    assert |carved + {q}| == |carved| + 1;
    assert |V + {b}| == |V| + 1;
  }

  /** ... and gives b an open path: the one to a, extended through the carved wall. */
  lemma CarvePaths(w: int, h: int, walls: seq<seq<Wall>>, paths: map<Cell, seq<Cell>>, V: set<Cell>, a: Cell, d: Direction)
    requires LaidOut(w, h, walls) && InGrid(w, h, a) && InGrid(w, h, Step(a, d))
    requires a in V && Spanned(w, h, walls, paths, V)
    ensures InWallGrid(w, h, SlotOf(a, d))
    ensures Spanned(w, h, Opened(walls, SlotOf(a, d)), paths[Step(a, d) := paths[a] + [Step(a, d)]], V + {Step(a, d)})
  {
    var b, q := Step(a, d), SlotOf(a, d);
    SlotInWallGrid(w, h, a, d);
    var walls' := Opened(walls, q);
    OpenedSlots(w, h, walls, q);
    OpenSlotsMembership(walls', q);
    SpannedOpened(w, h, walls, q, paths, V);
    PathExtended(w, h, walls', paths[a], a, d);
  }

  // ---------------------------------------------------------------------------
  // How one pass of next's loop composes with the passes before it.

  /**
   * The queue after the passes so far extends Q0 by cells visited since V0;
   * one more pass, which extends Q1 by cells it visited itself, keeps that so.
   */
  lemma QueueChain(Q0: seq<Cell>, Q1: seq<Cell>, Q2: seq<Cell>, V0: set<Cell>, V1: set<Cell>, V2: set<Cell>)
    requires V0 <= V1 <= V2
    requires |Q0| <= |Q1| && Q1[..|Q0|] == Q0
    requires forall i :: |Q0| <= i < |Q1| ==> Q1[i] in V1 && Q1[i] !in V0
    requires |Q1| <= |Q2| && Q2[..|Q1|] == Q1
    requires forall i :: |Q1| <= i < |Q2| ==> Q2[i] in V2 && Q2[i] !in V1
    ensures |Q0| <= |Q2| && Q2[..|Q0|] == Q0
    ensures forall i :: |Q0| <= i < |Q2| ==> Q2[i] in V2 && Q2[i] !in V0
  {
    assert Q2[..|Q0|] == Q2[..|Q1|][..|Q0|];
    forall i | |Q0| <= i < |Q2|
      ensures Q2[i] in V2 && Q2[i] !in V0
    {
      if i < |Q1| {
        assert Q2[i] == Q2[..|Q1|][i];
      }
    }
  }

  /** Every cell visited since V0 is saturated or queued since Q0, before and after one more pass. */
  lemma ClosureChain(w: int, h: int, vis1: seq<seq<bool>>, vis2: seq<seq<bool>>, Q0: seq<Cell>, Q1: seq<Cell>, Q2: seq<Cell>,
                     V0: set<Cell>)
    requires Shaped(w, h, vis1) && Shaped(w, h, vis2)
    requires V0 <= VisitedSet(w, h, vis1) <= VisitedSet(w, h, vis2)
    requires |Q0| <= |Q1| <= |Q2| && Q2[..|Q1|] == Q1
    requires forall c :: c in VisitedSet(w, h, vis1) && c !in V0 ==>
               Saturated(w, h, vis1, c) || c in Q1[|Q0|..]
    requires forall c :: c in VisitedSet(w, h, vis2) && c !in VisitedSet(w, h, vis1) ==>
               Saturated(w, h, vis2, c) || c in Q2[|Q1|..]
    ensures forall c :: c in VisitedSet(w, h, vis2) && c !in V0 ==>
              Saturated(w, h, vis2, c) || c in Q2[|Q0|..]
  {
    forall c | c in VisitedSet(w, h, vis2) && c !in V0
      ensures Saturated(w, h, vis2, c) || c in Q2[|Q0|..]
    {
      if c in VisitedSet(w, h, vis1) {
        if Saturated(w, h, vis1, c) {
          SaturatedGrows(w, h, vis1, vis2, c);
        } else {
          var k :| |Q0| <= k < |Q1| && Q1[k] == c;
          assert Q2[k] == Q2[..|Q1|][k];
        }
      } else {
        if !Saturated(w, h, vis2, c) {
          var k :| |Q1| <= k < |Q2| && Q2[k] == c;
        }
      }
    }
  }

  /** The loop of next promises, about the state after marking cell, what next promises about the state before. */
  lemma MarkedExplore(w: int, h: int, vis: seq<seq<bool>>, V0: set<Cell>, V1: set<Cell>, U0: set<Cell>, U1: set<Cell>,
                      Q0: seq<Cell>, Q: seq<Cell>, cell: Cell)
    requires Shaped(w, h, vis)
    requires V1 == V0 + {cell} && U1 == U0 - {cell}
    requires V1 <= VisitedSet(w, h, vis) && UnvisitedSet(w, h, vis) <= U1
    requires forall i :: |Q0| <= i < |Q| ==> Q[i] in VisitedSet(w, h, vis) && Q[i] !in V1
    requires |Q0| <= |Q| && |Q| - |Q0| + |UnvisitedSet(w, h, vis)| <= |U1|
    requires Saturated(w, h, vis, cell)
    requires forall c :: c in VisitedSet(w, h, vis) && c !in V1 ==> Saturated(w, h, vis, c) || c in Q[|Q0|..]
    ensures forall i :: |Q0| <= i < |Q| ==> Q[i] in VisitedSet(w, h, vis) && Q[i] != cell && Q[i] !in V0
    ensures |Q| - |Q0| + |UnvisitedSet(w, h, vis)| <= |U0|
    ensures forall c :: c in VisitedSet(w, h, vis) && (c !in V0 || c == cell) ==>
              Saturated(w, h, vis, c) || c in Q[|Q0|..]
  {
    SubsetCard(U1, U0);
  }

  /**
   * One iteration of generate's loop: cell, taken out of the queue Q1 at
   * index n, went through next, which left the queue Q2. Every visited cell
   * is still saturated or queued, the origin is visited, and the measure
   * 2 * |unvisited| + |queue| went down.
   */
  lemma DrainStep(w: int, h: int, vis1: seq<seq<bool>>, vis2: seq<seq<bool>>, Q1: seq<Cell>, n: int, Q2: seq<Cell>)
    requires Shaped(w, h, vis1) && Shaped(w, h, vis2) && 0 <= n < |Q1|
    requires Origin in VisitedSet(w, h, vis1) || Q1 == [Origin]
    requires forall i :: 0 <= i < |Q1| ==> Q1[i] in VisitedSet(w, h, vis1) + {Origin}
    requires forall c :: c in VisitedSet(w, h, vis1) ==> Saturated(w, h, vis1, c) || c in Q1
    requires VisitedSet(w, h, vis1) <= VisitedSet(w, h, vis2) && Q1[n] in VisitedSet(w, h, vis2)
    requires UnvisitedSet(w, h, vis2) <= UnvisitedSet(w, h, vis1)
    requires var Q' := Q1[..n] + Q1[n + 1..];
      && |Q'| <= |Q2| && Q2[..|Q'|] == Q'
      && (forall i :: |Q'| <= i < |Q2| ==> Q2[i] in VisitedSet(w, h, vis2))
      && |Q2| - |Q'| + |UnvisitedSet(w, h, vis2)| <= |UnvisitedSet(w, h, vis1)|
      && (forall c :: c in VisitedSet(w, h, vis2) && (c !in VisitedSet(w, h, vis1) || c == Q1[n]) ==>
            Saturated(w, h, vis2, c) || c in Q2[|Q'|..])
    ensures Origin in VisitedSet(w, h, vis2)
    ensures forall i :: 0 <= i < |Q2| ==> Q2[i] in VisitedSet(w, h, vis2)
    ensures forall c :: c in VisitedSet(w, h, vis2) ==> Saturated(w, h, vis2, c) || c in Q2
    ensures 2 * |UnvisitedSet(w, h, vis2)| + |Q2| < 2 * |UnvisitedSet(w, h, vis1)| + |Q1|
  {
    var V1, V2 := VisitedSet(w, h, vis1), VisitedSet(w, h, vis2);
    var Q' := Q1[..n] + Q1[n + 1..];
    SubsetCard(UnvisitedSet(w, h, vis2), UnvisitedSet(w, h, vis1));
    forall i | 0 <= i < |Q2|
      ensures Q2[i] in V2
    {
      if i < |Q'| {
        assert Q2[i] == Q'[i];
        if i < n {
          assert Q'[i] == Q1[i];
        } else {
          assert Q'[i] == Q1[i + 1];
        }
      }
    }
    forall c | c in V2
      ensures Saturated(w, h, vis2, c) || c in Q2
    {
      if c in V1 && c != Q1[n] && !Saturated(w, h, vis2, c) {
        if Saturated(w, h, vis1, c) {
          SaturatedGrows(w, h, vis1, vis2, c);
        }
        var k :| 0 <= k < |Q1| && Q1[k] == c;
        var j := if k < n then k else k - 1;
        assert Q'[j] == c;
        assert Q2[j] == c;
      } else if !Saturated(w, h, vis2, c) {
        var k :| |Q'| <= k < |Q2| && Q2[k] == c;
      }
    }
  }

  /**
   * When the queue is drained: the visited region contains the origin and
   * is closed, so it is the whole grid; a carving that is a tree over it,
   * with open paths to every cell, is a spanning tree of the grid.
   */
  lemma Drained(w: nat, h: nat, vis: seq<seq<bool>>, walls: seq<seq<Wall>>, carved: set<Pos>, paths: map<Cell, seq<Cell>>)
    requires Shaped(w, h, vis) && Origin in VisitedSet(w, h, vis)
    requires forall c :: c in VisitedSet(w, h, vis) ==> Saturated(w, h, vis, c)
    requires Carved(w, h, carved, VisitedSet(w, h, vis)) && Spanned(w, h, walls, paths, VisitedSet(w, h, vis))
    ensures VisitedSet(w, h, vis) == AllCells(w, h)
    ensures |carved| == w * h - 1
    ensures forall c :: InGrid(w, h, c) ==> Reachable(w, h, walls, c)
  {
    var V := VisitedSet(w, h, vis);
    VisitedMembership(w, h, vis, Origin);
    forall e | IsVisited(w, h, vis, e)
      ensures Saturated(w, h, vis, e)
    {
      VisitedMembership(w, h, vis, e);
    }
    forall c
      ensures c in V <==> c in AllCells(w, h)
    {
      VisitedMembership(w, h, vis, c);
      if InGrid(w, h, c) {
        ClosedIsAll(w, h, vis, c);
      }
    }
    assert V == AllCells(w, h);
    AllCellsCard(w, h);
    forall c | InGrid(w, h, c)
      ensures Reachable(w, h, walls, c)
    {
      VisitedMembership(w, h, vis, c);
      assert OpenPath(w, h, walls, paths[c], c);
    }
  }

  /** Open slots that are the initial ones plus everything carved since compose over two stretches of carving. */
  lemma OpenChain(O0: set<Pos>, O1: set<Pos>, O2: set<Pos>, C0: set<Pos>, C1: set<Pos>, C2: set<Pos>)
    requires C0 <= C1 && O1 == O0 + (C1 - C0)
    requires C1 <= C2 && O2 == O1 + (C2 - C1)
    ensures C0 <= C2 && O2 == O0 + (C2 - C0)
  {
  }

  /** Carving slot q and then the slots C2 - (C0 + {q}) carves C2 - C0 in all. */
  lemma CarveChain(O0: set<Pos>, O2: set<Pos>, C0: set<Pos>, C2: set<Pos>, q: Pos)
    requires q !in C0 && C0 + {q} <= C2 && O2 == (O0 + {q}) + (C2 - (C0 + {q}))
    ensures C0 <= C2 && O2 == O0 + (C2 - C0)
  {
  }

  /** Slots opened on top of O0 by carvings C1 and then C2 - C1 are O0 + C2. */
  lemma OpenGrow(O0: set<Pos>, O1: set<Pos>, O2: set<Pos>, C1: set<Pos>, C2: set<Pos>)
    requires O1 == O0 + C1 && C1 <= C2 && O2 == O1 + (C2 - C1)
    ensures O2 == O0 + C2
  {
  }

  /** Joining the empty set changes nothing. */
  lemma UnionEmpty<T>(A: set<T>, B: set<T>)
    ensures B == {} ==> B + A == A && A + B == A
  {
  }

  /**
   * Next's promises, seen from a call on a cell that was not yet visited:
   * the cell itself is among the fresh ones, so every queued cell and every
   * cell to be closed is fresh, and no push is left unpaid.
   */
  lemma CarvedNext(w: int, h: int, vis2: seq<seq<bool>>, V0: set<Cell>, V2: set<Cell>, U0: set<Cell>, U2: set<Cell>,
                   Q0: seq<Cell>, Q2: seq<Cell>, n: Cell, len: real)
    requires Shaped(w, h, vis2) && n !in V0 && n in V2 && V0 <= V2 && |Q0| <= |Q2|
    requires forall i :: |Q0| <= i < |Q2| ==> Q2[i] in V2 && (Q2[i] != n ==> Q2[i] !in V0)
    requires |Q2| - |Q0| + |U2| <= |U0| + (if len <= 0.0 && n in V0 then 1 else 0)
    requires forall c :: c in V2 && (c !in V0 || c == n) ==> Saturated(w, h, vis2, c) || c in Q2[|Q0|..]
    ensures V0 + {n} <= V2
    ensures forall i :: |Q0| <= i < |Q2| ==> Q2[i] in V2 && Q2[i] !in V0
    ensures |Q2| - |Q0| + |U2| <= |U0|
    ensures forall c :: c in V2 && c !in V0 ==> Saturated(w, h, vis2, c) || c in Q2[|Q0|..]
  {
  }

  // ---------------------------------------------------------------------------

  class MazeGenerator {
    const maze: Maze
    /** cells[y][x].isVisited of the generator's cell grid. */
    var visited: seq<seq<bool>>
    var queue: seq<Cell>

    ghost predicate Valid()
      reads this, maze
    {
      && maze.Valid()
      && Shaped(maze.w, maze.h, visited)
      && (forall i :: 0 <= i < |queue| ==> InGrid(maze.w, maze.h, queue[i]))
    }

    ghost function Visited(): set<Cell>
      reads this`visited
      requires Shaped(maze.w, maze.h, visited)
    {
      VisitedSet(maze.w, maze.h, visited)
    }

    ghost function Unvisited(): set<Cell>
      reads this`visited
      requires Shaped(maze.w, maze.h, visited)
    {
      UnvisitedSet(maze.w, maze.h, visited)
    }

    /**
     * The invariant of generate's loop: the queue holds visited cells (or
     * just the origin, before the first round); the carving is a tree over
     * the visited cells and the origin, with open paths to all of them; and
     * every visited cell has no unvisited neighbour left or is queued.
     */
    ghost predicate Draining(carved: set<Pos>, paths: map<Cell, seq<Cell>>)
      reads this, maze
    {
      && Valid()
      && (Origin in Visited() || queue == [Origin])
      && (forall i :: 0 <= i < |queue| ==> queue[i] in Visited() + {Origin})
      && Carved(maze.w, maze.h, carved, Visited() + {Origin})
      && Spanned(maze.w, maze.h, maze.walls, paths, Visited() + {Origin})
      && (forall c :: c in Visited() ==> Saturated(maze.w, maze.h, visited, c) || c in queue)
    }

    /** One generator cell per maze cell, none visited; an empty queue. */
    constructor (maze: Maze)
      requires maze.Valid()
      ensures this.maze == maze && Valid()
      ensures visited == Unmarked(maze.w, maze.h) && queue == []
    {
      var rows: seq<seq<bool>> := [];
      var y := 0;
      while y < maze.h
        invariant 0 <= y <= maze.h
        invariant rows == Unmarked(maze.w, y)
      {
        var row: seq<bool> := [];
        var x := 0;
        while x < maze.w
          invariant 0 <= x <= maze.w
          invariant row == seq(x, _ => false)
        {
          row := row + [false];
          x := x + 1;
        }
        rows := rows + [row];
        y := y + 1;
      }
      this.maze := maze;
      visited := rows;
      queue := [];
      UnmarkedEmpty(maze.w, maze.h);
    }

    /** reset: every generator cell unvisited again. */
    method Reset()
      requires Valid()
      modifies this`visited
      ensures Valid() && visited == Unmarked(maze.w, maze.h)
    {
      var y := 0;
      while y < |visited|
        invariant 0 <= y <= |visited| == maze.h
        invariant Shaped(maze.w, maze.h, visited)
        invariant visited[..y] == Unmarked(maze.w, y)
      {
        var row := visited[y];
        var x := 0;
        while x < |row|
          invariant 0 <= x <= |row| == maze.w
          invariant row[..x] == seq(x, _ => false)
        {
          row := row[x := false];
          x := x + 1;
        }
        assert row == seq(maze.w, _ => false);
        visited := visited[y := row];
        y := y + 1;
      }
      assert visited == visited[..y];
    }

    /**
     * availableDirections: in ascending order, exactly the directions of c
     * whose neighbour exists and is not yet visited.
     */
    method AvailableDirections(c: Cell) returns (r: seq<Direction>)
      requires Valid() && InGrid(maze.w, maze.h, c)
      ensures forall d :: d in r <==> NeighbourExists(maze.w, maze.h, c, d) && !IsVisited(maze.w, maze.h, visited, Step(c, d))
      ensures forall i, j :: 0 <= i < j < |r| ==> Ord(r[i]) < Ord(r[j])
    {
      r := [];
      var i := 0;
      while i < 4
        invariant 0 <= i <= 4
        invariant forall d :: d in r <==> Ord(d) < i && NeighbourExists(maze.w, maze.h, c, d) && !IsVisited(maze.w, maze.h, visited, Step(c, d))
        invariant forall k :: 0 <= k < |r| ==> Ord(r[k]) < i
        invariant forall k, l :: 0 <= k < l < |r| ==> Ord(r[k]) < Ord(r[l])
      {
        var d := DirectionOf(i);
        var neighbour := maze.NeighbourCell(c, d);
        if neighbour.Some? {
          if !visited[neighbour.value.y][neighbour.value.x] {
            r := r + [d];
          }
        }
        i := i + 1;
      }
    }

    /** MazeGeneratorCell.getNeighbourCell: the generator cell beyond side d, for a side that has one. */
    function NeighbourOf(c: Cell, d: Direction): (r: Cell)
      reads this, maze
      requires Valid() && InGrid(maze.w, maze.h, c) && NeighbourExists(maze.w, maze.h, c, d)
      ensures r == Step(c, d) && InGrid(maze.w, maze.h, r)
      ensures SlotOf(r, Opposite(d)) == SlotOf(c, d)
    {
      SharedWall(c, d);
      maze.NeighbourCell(c, d).value
    }

    /**
     * next: mark cell visited; with budget left, keep carving into a random
     * unvisited neighbour and recursing there with one less, until none is
     * left; with no budget left, park cell on the queue.
     *
     * carved and paths are the proof's record of the carving before the
     * call, carved' and paths' after it: the opened slots, and an open path
     * from the origin to every visited cell.
     */
    method Next(cell: Cell, len: real, ghost carved: set<Pos>, ghost paths: map<Cell, seq<Cell>>)
      returns (ghost carved': set<Pos>, ghost paths': map<Cell, seq<Cell>>)
      requires Valid() && InGrid(maze.w, maze.h, cell)
      requires Carved(maze.w, maze.h, carved, Visited() + {cell})
      requires Spanned(maze.w, maze.h, maze.walls, paths, Visited() + {cell})
      modifies this`visited, this`queue, maze`walls
      ensures Valid() && cell in Visited() && old(Visited()) <= Visited()
      ensures Unvisited() <= old(Unvisited()) - {cell}
      // the queue only grows at its end, by visited cells: cell itself when out of budget, otherwise fresh ones
      ensures |old(queue)| <= |queue| && queue[..|old(queue)|] == old(queue)
      ensures forall i :: |old(queue)| <= i < |queue| ==>
                queue[i] in Visited() && (queue[i] == cell ==> len <= 0.0) && (queue[i] != cell ==> queue[i] !in old(Visited()))
      ensures len <= 0.0 ==> queue == old(queue) + [cell] && maze.walls == old(maze.walls) && visited == Mark(old(visited), cell)
      // each push is paid for by a fresh visit, except a re-parked cell
      ensures |queue| - |old(queue)| + |Unvisited()| <= old(|Unvisited()|) + (if len <= 0.0 && old(cell in Visited()) then 1 else 0)
      // the carving stays a tree over the visited cells, with open paths to all of them
      ensures carved <= carved' && Carved(maze.w, maze.h, carved', Visited())
      ensures OpenSlots(maze.walls) == old(OpenSlots(maze.walls)) + (carved' - carved)
      ensures Spanned(maze.w, maze.h, maze.walls, paths', Visited())
      // every cell this call visited has no unvisited neighbour left or waits on the queue
      ensures forall c :: c in Visited() && (c !in old(Visited()) || c == cell) ==>
                Saturated(maze.w, maze.h, visited, c) || c in queue[|old(queue)|..]
      decreases |Unvisited()| + (if cell in Visited() then 1 else 0), 0
    {
      var w, h := maze.w, maze.h;
      ghost var V0, U0, Q0 := Visited(), Unvisited(), queue;
      VisitedMembership(w, h, visited, cell);
      Marking(w, h, visited, cell);
      visited := Mark(visited, cell);
      VisitedMembership(w, h, visited, cell);
      if len > 0.0 {
        ghost var V1, U1 := Visited(), Unvisited();
        carved', paths' := Explore(cell, len, carved, paths);
        MarkedExplore(w, h, visited, V0, V1, U0, U1, Q0, queue, cell);
      } else {
        carved', paths' := carved, paths;
        queue := queue + [cell];
      }
    }

    /**
     * The loop of next, for a visited cell with budget left: while cell has
     * an unvisited neighbour, carve into a random one and continue next there.
     */
    method Explore(cell: Cell, len: real, ghost carved: set<Pos>, ghost paths: map<Cell, seq<Cell>>)
      returns (ghost carved': set<Pos>, ghost paths': map<Cell, seq<Cell>>)
      requires Valid() && InGrid(maze.w, maze.h, cell) && cell in Visited()
      requires Carved(maze.w, maze.h, carved, Visited()) && Spanned(maze.w, maze.h, maze.walls, paths, Visited())
      modifies this`visited, this`queue, maze`walls
      ensures Valid() && old(Visited()) <= Visited() && Unvisited() <= old(Unvisited())
      ensures |old(queue)| <= |queue| && queue[..|old(queue)|] == old(queue)
      ensures forall i :: |old(queue)| <= i < |queue| ==> queue[i] in Visited() && queue[i] !in old(Visited())
      ensures |queue| - |old(queue)| + |Unvisited()| <= old(|Unvisited()|)
      ensures carved <= carved' && Carved(maze.w, maze.h, carved', Visited())
      ensures OpenSlots(maze.walls) == old(OpenSlots(maze.walls)) + (carved' - carved)
      ensures Spanned(maze.w, maze.h, maze.walls, paths', Visited())
      ensures Saturated(maze.w, maze.h, visited, cell)
      ensures forall c :: c in Visited() && c !in old(Visited()) ==>
                Saturated(maze.w, maze.h, visited, c) || c in queue[|old(queue)|..]
      decreases |Unvisited()|, 2
    {
      var w, h := maze.w, maze.h;
      ghost var V0, U0, Q0, W0 := Visited(), Unvisited(), queue, maze.walls;
      carved', paths' := carved, paths;
      while true
        invariant Valid() && V0 <= Visited() && Unvisited() <= U0
        invariant |Q0| <= |queue| && queue[..|Q0|] == Q0
        invariant forall i :: |Q0| <= i < |queue| ==> queue[i] in Visited() && queue[i] !in V0
        invariant |queue| - |Q0| + |Unvisited()| <= |U0|
        invariant carved <= carved' && Carved(w, h, carved', Visited())
        invariant OpenSlots(maze.walls) == OpenSlots(W0) + (carved' - carved)
        invariant Spanned(w, h, maze.walls, paths', Visited())
        invariant forall c :: c in Visited() && c !in V0 ==> Saturated(w, h, visited, c) || c in queue[|Q0|..]
        decreases |Unvisited()|
      {
        var avails := AvailableDirections(cell);
        if |avails| == 0 {
          break;
        }
        var n :| 0 <= n < |avails|;
        var direction := avails[n];
        assert direction in avails;
        ghost var V1, U1, Q1, W1, C1, vis1 := Visited(), Unvisited(), queue, maze.walls, carved', visited;
        VisitedMembership(w, h, visited, Step(cell, direction));
        SubsetCard(U1, U0);
        carved', paths' := CarveInto(cell, direction, len, carved', paths');
        SmallerSubset(Unvisited(), U1, Step(cell, direction));
        QueueChain(Q0, Q1, queue, V0, V1, Visited());
        ClosureChain(w, h, vis1, visited, Q0, Q1, queue, V0);
        OpenChain(OpenSlots(W0), OpenSlots(W1), OpenSlots(maze.walls), carved, C1, carved');
      }
    }

    /**
     * One pass of next's loop: open the wall on side d of cell and continue
     * next from the unvisited neighbour there, with one less budget.
     */
    method CarveInto(cell: Cell, d: Direction, len: real, ghost carved: set<Pos>, ghost paths: map<Cell, seq<Cell>>)
      returns (ghost carved': set<Pos>, ghost paths': map<Cell, seq<Cell>>)
      requires Valid() && InGrid(maze.w, maze.h, cell) && cell in Visited()
      requires NeighbourExists(maze.w, maze.h, cell, d) && Step(cell, d) !in Visited()
      requires Carved(maze.w, maze.h, carved, Visited()) && Spanned(maze.w, maze.h, maze.walls, paths, Visited())
      modifies this`visited, this`queue, maze`walls
      ensures Valid() && old(Visited()) + {Step(cell, d)} <= Visited()
      ensures Unvisited() <= old(Unvisited()) - {Step(cell, d)}
      ensures |old(queue)| <= |queue| && queue[..|old(queue)|] == old(queue)
      ensures forall i :: |old(queue)| <= i < |queue| ==> queue[i] in Visited() && queue[i] !in old(Visited())
      ensures |queue| - |old(queue)| + |Unvisited()| <= old(|Unvisited()|)
      ensures carved <= carved' && Carved(maze.w, maze.h, carved', Visited())
      ensures OpenSlots(maze.walls) == old(OpenSlots(maze.walls)) + (carved' - carved)
      // the wall between cell and its neighbour is one of the newly carved slots, and it is open
      ensures SlotOf(cell, d) in carved' - carved && IsOpen(maze.walls, SlotOf(cell, d))
      ensures Spanned(maze.w, maze.h, maze.walls, paths', Visited())
      ensures forall c :: c in Visited() && c !in old(Visited()) ==>
                Saturated(maze.w, maze.h, visited, c) || c in queue[|old(queue)|..]
      decreases |Unvisited()|, 1
    {
      var w, h := maze.w, maze.h;
      var neighbour := NeighbourOf(cell, d);
      var slot := SlotOf(cell, d);
      ghost var W1, V0, U0, Q0 := maze.walls, Visited(), Unvisited(), queue;
      CarveTree(w, h, carved, V0, cell, d);
      CarvePaths(w, h, W1, paths, V0, cell, d);
      maze.OpenWall(cell, d);
      assert visited == old(visited);
      carved', paths' := Next(neighbour, len - 1.0, carved + {slot}, paths[neighbour := paths[cell] + [neighbour]]);
      CarvedNext(w, h, visited, V0, Visited(), U0, Unvisited(), Q0, queue, neighbour, len - 1.0);
      CarveChain(OpenSlots(W1), OpenSlots(maze.walls), carved, carved', slot);
      OpenSlotsMembership(maze.walls, slot);
    }

    /**
     * generate: unvisit every cell, queue the origin, and drain the queue in
     * random order with a budget of max(3, w * h * riverFactor) per path.
     * carved is the proof's record of the slots it opened.
     */
    method Generate(riverFactor: real := 0.1) returns (ghost carved: set<Pos>)
      requires Valid() && queue == [] && maze.w > 0 && maze.h > 0
      modifies this`visited, this`queue, maze`walls
      ensures Valid() && queue == []
      ensures Visited() == AllCells(maze.w, maze.h)
      ensures OpenSlots(maze.walls) == old(OpenSlots(maze.walls)) + carved
      ensures forall p :: p in carved ==> Interior(maze.w, maze.h, p)
      ensures |carved| == maze.w * maze.h - 1
      ensures old(OpenSlots(maze.walls)) == {} ==> |OpenSlots(maze.walls)| == maze.w * maze.h - 1
      ensures forall c :: InGrid(maze.w, maze.h, c) ==> Reachable(maze.w, maze.h, maze.walls, c)
    {
      var w, h := maze.w, maze.h;
      ghost var O0 := OpenSlots(maze.walls);
      Reset();
      queue := queue + [Origin];
      carved := {};
      ghost var paths: map<Cell, seq<Cell>> := map[Origin := [Origin]];
      Seeded();
      UnionEmpty(O0, {});
      var river := RiverLimit(w, h, riverFactor);
      while |queue| > 0
        invariant Draining(carved, paths)
        invariant OpenSlots(maze.walls) == O0 + carved
        decreases 2 * |Unvisited()| + |queue|
      {
        ghost var O1, C1 := OpenSlots(maze.walls), carved;
        ghost var picked, rest;
        carved, paths, picked, rest := Drain(river, carved, paths);
        OpenGrow(O0, O1, OpenSlots(maze.walls), C1, carved);
      }
      Finished(carved, paths);
      UnionEmpty(carved, O0);
    }

    /** The start of generate's loop: nothing visited, the origin queued and reached by itself. */
    lemma Seeded()
      requires Valid() && visited == Unmarked(maze.w, maze.h) && queue == [Origin]
      ensures Draining({}, map[Origin := [Origin]])
    {
      UnmarkedEmpty(maze.w, maze.h);
      assert OpenPath(maze.w, maze.h, maze.walls, [Origin], Origin);
    }

    /** The end of generate's loop: every cell visited, the carving a spanning tree. */
    lemma Finished(carved: set<Pos>, paths: map<Cell, seq<Cell>>)
      requires Draining(carved, paths) && queue == []
      ensures Visited() == AllCells(maze.w, maze.h)
      ensures forall p :: p in carved ==> Interior(maze.w, maze.h, p)
      ensures |carved| == maze.w * maze.h - 1
      ensures forall c :: InGrid(maze.w, maze.h, c) ==> Reachable(maze.w, maze.h, maze.walls, c)
    {
      assert Visited() + {Origin} == Visited();
      Drained(maze.w, maze.h, visited, maze.walls, carved, paths);
    }

    /**
     * One round of generate's loop: take a random cell out of the queue and
     * run next from it with the full budget.
     */
    method Drain(river: real, ghost carved: set<Pos>, ghost paths: map<Cell, seq<Cell>>)
      returns (ghost carved': set<Pos>, ghost paths': map<Cell, seq<Cell>>, ghost picked: nat, ghost rest: seq<Cell>)
      requires Draining(carved, paths) && |queue| > 0 && river > 0.0
      modifies this`visited, this`queue, maze`walls
      ensures Draining(carved', paths') && Origin in Visited()
      ensures carved <= carved' && OpenSlots(maze.walls) == old(OpenSlots(maze.walls)) + (carved' - carved)
      ensures 2 * |Unvisited()| + |queue| < old(2 * |Unvisited()| + |queue|)
      // visited flags only grow; exactly the picked cell leaves the queue, the rest keep their order at its head
      ensures old(Visited()) <= Visited()
      ensures picked < |old(queue)| && rest == old(queue)[..picked] + old(queue)[picked + 1..]
      ensures |rest| <= |queue| && queue[..|rest|] == rest
    {
      var w, h := maze.w, maze.h;
      var n :| 0 <= n < |queue|;
      var cell := queue[n];
      ghost var Q1, vis1 := queue, visited;
      SameJoin(Visited(), cell, Origin);
      queue := queue[..n] + queue[n + 1..];
      picked, rest := n, queue;
      assert visited == vis1;
      carved', paths' := Next(cell, river, carved, paths);
      DrainStep(w, h, vis1, visited, Q1, n, queue);
      Absorbed(Visited(), Origin);
    }
  }
}
