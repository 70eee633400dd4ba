/**
 * The unit tests of `src/snake/path.rs`, each stated as a method that builds the test's map,
 * calls shortest_path_to and promises the outcome the test asserts, and one more case showing
 * how the probe order breaks a tie between equally short paths.
 */
module SnakePathScenarios {
  import opened SnakeUtils
  import opened SnakeMap
  import opened SnakePath

  /** The 6 x 5 board of the first two tests: one snake along column 1, from row 0 down to
      row `last`. */
  function ColumnBoard(last: nat): Board
  {
    Board(height := 5, width := 6, food := [], bodies := [seq(last + 1, (y: int) requires 0 <= y => Coords(1, y))])
  }

  /** On a column board every coordinate fits, and the body runs down column 1 to row `last`. */
  lemma {:induction false} ColumnFits(last: nat)
    requires last < 5
    ensures Fits(ColumnBoard(last))
    ensures Bodies(ColumnBoard(last).bodies) == ColumnBoard(last).bodies[0]
    ensures forall d | d in ColumnBoard(last).bodies[0] :: d.x == 1 && d.y <= last
  {
    var b := ColumnBoard(last);
    assert forall d | d in b.bodies[0] :: d.x == 1 && d.y <= last;
    assert b.bodies[..0] == [];
  }

  /** The body's cells are blocked. */
  lemma {:induction false} ColumnBlocked(last: nat, c: Coords)
    requires last < 5 && c.x == 1 && c.y <= last
    ensures !Traversable(GridOf(ColumnBoard(last)), c)
  {
    var b := ColumnBoard(last);
    ColumnFits(last);
    assert c == b.bodies[0][c.y];
    BodyCellsReadSnake(b, b.bodies[0], c);
    TraversableOnBoard(b, c);
  }

  /** No cell of column 0, and no cell of column 1 below the tail, is blocked: no body
      coordinate shares their slots. */
  lemma {:induction false} ColumnOpen(last: nat, c: Coords)
    requires last < 5 && c.y < 5 && (c.x == 0 || (c.x == 1 && c.y > last))
    ensures Traversable(GridOf(ColumnBoard(last)), c)
  {
    var b := ColumnBoard(last);
    ColumnFits(last);
    assert forall d | d in Bodies(b.bodies) :: Slot(b.height, d.x, d.y) != Slot(b.height, c.x, c.y);
    assert Slot(b.height, c.x, c.y) !in BodySlots(b);
    UntouchedCellsReadEmpty(b, c);
    TraversableOnBoard(b, c);
  }

  /** The grid of the first test, as far as its path depends on it: 6 x 5, the tail cell
      (1, 3) blocked, the cells along the bottom row and up to (0, 3) open. */
  ghost predicate TailGrid(g: Grid)
  {
    && g.width == 6 && g.height == 5
    && !Traversable(g, Coords(1, 3))
    && Traversable(g, Coords(1, 4)) && Traversable(g, Coords(0, 4)) && Traversable(g, Coords(0, 3))
  }

  function AroundTail(): seq<Coords>
  {
    [Coords(2, 4), Coords(1, 4), Coords(0, 4), Coords(0, 3)]
  }

  lemma {:induction false} TailGridReaches(g: Grid)
    requires TailGrid(g)
    ensures Reaches(g, Coords(2, 4), Coords(0, 3), AroundTail())
  {
    var p := AroundTail();
    assert Step(g, p[0], p[1]) && Step(g, p[1], p[2]) && Step(g, p[2], p[3]);
  }

  /** Three moves is the least that gets from (2, 4) to (0, 3), and with (1, 3) blocked the
      bottom row and then up is the only way to do it in three. */
  lemma {:induction false} TailWalk(g: Grid, cs: seq<Coords>)
    requires TailGrid(g)
    requires Reaches(g, Coords(2, 4), Coords(0, 3), cs) && |cs| <= 4
    ensures cs == AroundTail()
  {
    WalkSpan(g, cs);
    assert Step(g, cs[0], cs[1]) && Step(g, cs[1], cs[2]);
    SuffixWalks(g, cs, 1);
    WalkSpan(g, cs[1..]);
    SuffixWalks(g, cs, 2);
    WalkSpan(g, cs[2..]);
    assert cs[1] == Coords(1, 4);
    assert cs[2] == Coords(0, 4);
  }

  /** The only shortest path from (2, 4) to (0, 3) when (1, 3) is blocked goes left along the
      bottom row and then up. */
  lemma {:induction false} AroundTheTail(g: Grid, p: seq<PathNode>)
    requires TailGrid(g)
    requires Reaches(g, Coords(2, 4), Coords(0, 3), Cells(p)) && Directed(p)
    requires NoShorter(g, Coords(2, 4), Coords(0, 3), |p|)
    ensures p == [PathNode(Coords(2, 4), Some(Left)), PathNode(Coords(1, 4), Some(Left)),
                  PathNode(Coords(0, 4), Some(Up)), PathNode(Coords(0, 3), None)]
  {
    var around := AroundTail();
    TailGridReaches(g);
    TailWalk(g, Cells(p));
    forall i | 0 <= i < 4
      ensures p[i].coords == around[i]
      ensures i < 3 ==> p[i].nextMove.Some? && Moved(around[i], p[i].nextMove.value, around[i + 1])
      ensures i == 3 ==> p[i].nextMove.None?
    {
      CellsAt(p, i);
      DirectedMoves(p, i);
      if i < 3 {
        CellsAt(p, i + 1);
      }
    }
  }

  /** `bfs_finds_target_node`: the snake's tail blocks (1, 3), so the path from (2, 4) to
      (0, 3) goes round it: left, left, up. */
  method FindsTargetScenario() returns (path: Option<seq<PathNode>>)
    ensures path == Some([PathNode(Coords(2, 4), Some(Left)), PathNode(Coords(1, 4), Some(Left)),
                          PathNode(Coords(0, 4), Some(Up)), PathNode(Coords(0, 3), None)])
  {
    var board := ColumnBoard(3);
    ColumnFits(3);
    ColumnBlocked(3, Coords(1, 3));
    ColumnOpen(3, Coords(1, 4));
    ColumnOpen(3, Coords(0, 4));
    ColumnOpen(3, Coords(0, 3));
    var m := new Map(board);
    BuiltTerrain(m);
    TailGridReaches(Terrain(m));
    path := ShortestPathTo(m, Coords(2, 4), Coords(0, 3));
    AroundTheTail(Terrain(m), path.value);
  }

  /** The cells right of column 1 on a 6 x 5 board. */
  function RightOfColumn(): set<Coords>
  {
    set x: nat, y: nat | 2 <= x < 6 && y < 5 :: Coords(x, y)
  }

  /** With the whole of column 1 of a 6 x 5 grid blocked, no walk from (2, 4) reaches (0, 3). */
  lemma {:induction false} WalledOff(g: Grid)
    requires g.width == 6 && g.height == 5
    requires forall c: Coords | c.x == 1 && c.y < 5 :: !Traversable(g, c)
    ensures !Reachable(g, Coords(2, 4), Coords(0, 3))
  {
    var inside := RightOfColumn();
    forall c, n | c in inside && Step(g, c, n)
      ensures n in inside
    {
      assert n.x != 1;
    }
    if p :| Reaches(g, Coords(2, 4), Coords(0, 3), p) {
      assert Coords(2, 4) in inside;
      WalkStaysInside(g, p, inside);
      assert false;
    }
  }

  /** `bfs_determines_target_node_inaccessible`: a snake covering all of column 1 walls
      (0, 3) off from (2, 4). */
  method InaccessibleScenario() returns (path: Option<seq<PathNode>>)
    ensures path == None
  {
    var board := ColumnBoard(4);
    ColumnFits(4);
    ghost var g := GridOf(board);
    forall c: Coords | c.x == 1 && c.y < 5
      ensures !Traversable(g, c)
    {
      ColumnBlocked(4, c);
    }
    var m := new Map(board);
    BuiltTerrain(m);
    WalledOff(Terrain(m));
    path := ShortestPathTo(m, Coords(2, 4), Coords(0, 3));
  }

  /** The empty 20 x 20 board of the last two tests. */
  function OpenBoard(): Board
  {
    Board(height := 20, width := 20, food := [], bodies := [])
  }

  /** With (0, 1) open, the only shortest path from (0, 0) to (0, 1) is the single step down. */
  lemma {:induction false} OneStepDown(g: Grid, p: seq<PathNode>)
    requires Traversable(g, Coords(0, 1))
    requires Reaches(g, Coords(0, 0), Coords(0, 1), Cells(p)) && Directed(p)
    requires NoShorter(g, Coords(0, 0), Coords(0, 1), |p|)
    ensures p == [PathNode(Coords(0, 0), Some(Down)), PathNode(Coords(0, 1), None)]
  {
    assert Reaches(g, Coords(0, 0), Coords(0, 1), [Coords(0, 0), Coords(0, 1)]);
    WalkSpan(g, Cells(p));
    CellsAt(p, 0);
    CellsAt(p, 1);
    DirectedMoves(p, 0);
    DirectedMoves(p, 1);
  }

  /** `bfs_handles_short_path`: one step down, from (0, 0) to (0, 1). */
  method ShortPathScenario() returns (path: Option<seq<PathNode>>)
    ensures path == Some([PathNode(Coords(0, 0), Some(Down)), PathNode(Coords(0, 1), None)])
  {
    var board := OpenBoard();
    SquareTraversable(board, Coords(0, 1));
    var m := new Map(board);
    BuiltTerrain(m);
    assert Reaches(Terrain(m), Coords(0, 0), Coords(0, 1), [Coords(0, 0), Coords(0, 1)]);
    path := ShortestPathTo(m, Coords(0, 0), Coords(0, 1));
    OneStepDown(Terrain(m), path.value);
  }

  /** From (0, 0), (1, 1) is two moves away along two paths, right then down or down then right;
      the one that comes first in probe order is right then down. */
  lemma {:induction false} RightThenDown(g: Grid, p: seq<PathNode>)
    requires Traversable(g, Coords(1, 0)) && Traversable(g, Coords(1, 1))
    requires Reaches(g, Coords(0, 0), Coords(1, 1), Cells(p)) && Directed(p)
    requires NoShorter(g, Coords(0, 0), Coords(1, 1), |p|)
    requires ProbeFirst(g, Coords(0, 0), Coords(1, 1), Cells(p))
    ensures p == [PathNode(Coords(0, 0), Some(Right)), PathNode(Coords(1, 0), Some(Down)), PathNode(Coords(1, 1), None)]
  {
    var w := [Coords(0, 0), Coords(1, 0), Coords(1, 1)];
    assert Reaches(g, Coords(0, 0), Coords(1, 1), w);
    var cs := Cells(p);
    WalkSpan(g, cs);
    assert !ProbedBefore(cs, w) by {
      forall i: nat
        ensures !DivergeAt(cs, w, i)
      {
        if i == 1 && |cs| == 3 && cs[..2] == w[..2] {
          assert cs[1] == cs[..2][1];
        }
      }
    }
    CellsAt(p, 0);
    CellsAt(p, 1);
    CellsAt(p, 2);
    DirectedMoves(p, 0);
    DirectedMoves(p, 1);
    DirectedMoves(p, 2);
  }

  /** Where two paths are equally short, bfs_to's probe order decides: Right is probed before
      Down, so the path from (0, 0) to (1, 1) on the empty board goes right, then down. */
  method ProbeOrderScenario() returns (path: Option<seq<PathNode>>)
    ensures path == Some([PathNode(Coords(0, 0), Some(Right)), PathNode(Coords(1, 0), Some(Down)),
                          PathNode(Coords(1, 1), None)])
  {
    var board := OpenBoard();
    SquareTraversable(board, Coords(1, 0));
    SquareTraversable(board, Coords(1, 1));
    var m := new Map(board);
    BuiltTerrain(m);
    assert Reaches(Terrain(m), Coords(0, 0), Coords(1, 1), [Coords(0, 0), Coords(1, 0), Coords(1, 1)]);
    path := ShortestPathTo(m, Coords(0, 0), Coords(1, 1));
    RightThenDown(Terrain(m), path.value);
  }

  /** `bfs_handles_no_path`: start and target coincide, so the path is the start alone. */
  method SameCellScenario() returns (path: Option<seq<PathNode>>)
    ensures path == Some([PathNode(Coords(0, 0), None)])
  {
    var m := new Map(OpenBoard());
    path := ShortestPathTo(m, Coords(0, 0), Coords(0, 0));
    assert Reaches(Terrain(m), Coords(0, 0), Coords(0, 0), [Coords(0, 0)]);
    SameCellPath(Terrain(m), Coords(0, 0), path.value);
  }
}
