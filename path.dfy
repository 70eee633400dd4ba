/**
 * The pathing utilities of `src/snake/path.rs`: a breadth-first search over the occupancy map
 * and the reconstruction of the path it finds, with the move to take at each step.
 *
 * Each BFS node of the source holds a reference-counted link to the node it was reached from.
 * Such a link always points at a node that has already been expanded, so here the expanded
 * nodes are kept in an arena (`expanded`, in the order they were expanded) and a node's `prev`
 * is the arena index of its predecessor.
 */
module SnakePath {
  import opened SnakeUtils
  import opened SnakeMap

  datatype Option<T> = None | Some(value: T)

  /** The four directions a snake's head can go. */
  datatype Move = Up | Down | Left | Right
  {
    /** The name of the move in the game's protocol. */
    function ToString(): string
    {
      match this
      case Up => "up"
      case Down => "down"
      case Left => "left"
      case Right => "right"
    }
  }

  /** Different moves have different names. */
  lemma ToStringDistinct(a: Move, b: Move)
    ensures a.ToString() == b.ToString() <==> a == b
  {
  }

  /** `b` is one step from `a` in direction `m`; y grows downwards. */
  predicate Moved(a: Coords, m: Move, b: Coords)
  {
    match m
    case Up => b.x == a.x && b.y + 1 == a.y
    case Down => b.x == a.x && b.y == a.y + 1
    case Left => b.x + 1 == a.x && b.y == a.y
    case Right => b.x == a.x + 1 && b.y == a.y
  }

  /** Cells that share a side. */
  predicate Adjacent(a: Coords, b: Coords)
  {
    || (a.y == b.y && (a.x + 1 == b.x || b.x + 1 == a.x))
    || (a.x == b.x && (a.y + 1 == b.y || b.y + 1 == a.y))
  }

  /** The move shortest_path_to records on a path node, from its coordinates and those of the
      node after it. */
  function MoveBetween(from: Coords, to: Coords): Option<Move>
  {
    if from.x > to.x then Some(Left)
    else if from.x < to.x then Some(Right)
    else if from.y > to.y then Some(Up)
    else if from.y < to.y then Some(Down)
    else None
  }

  /** Between adjacent cells MoveBetween names the move that leads from one to the other, and a
      move always leads to an adjacent cell. */
  lemma MoveBetweenInverts(a: Coords, b: Coords, m: Move)
    ensures Adjacent(a, b) ==> MoveBetween(a, b).Some? && Moved(a, MoveBetween(a, b).value, b)
    ensures Moved(a, m, b) <==> Adjacent(a, b) && MoveBetween(a, b) == Some(m)
  {
  }

  /** The order in which bfs_to probes the neighbours of a node: Right, Left, Up, Down. */
  function Rank(m: Move): nat
  {
    match m
    case Right => 0
    case Left => 1
    case Up => 2
    case Down => 3
  }

  function ProbeRank(from: Coords, to: Coords): nat
  {
    match MoveBetween(from, to)
    case Some(m) => Rank(m)
    case None => 4
  }

  /** What a search sees of a map: its dimensions and the cells that read SNAKE. */
  datatype Grid = Grid(width: nat, height: nat, blocked: iset<Coords>)

  /** The grid of the map built from board `b`. */
  ghost function GridOf(b: Board): (g: Grid)
    ensures g.width == b.width && g.height == b.height
  {
    Grid(b.width, b.height, iset c: Coords | Addressable(b.width, b.height, c.x, c.y) && CellAt(b, c) == Snake)
  }

  /** A cell a snake may move onto: in bounds, and not SNAKE (FOOD and EMPTY both are). */
  ghost predicate Traversable(g: Grid, c: Coords)
  {
    c.x < g.width && c.y < g.height && c !in g.blocked
  }

  /** On the board shapes whose cells all fit, a cell of a board's grid is traversable exactly
      when the map can read it and it reads EMPTY or FOOD. */
  lemma TraversableOnBoard(b: Board, c: Coords)
    requires StrideFits(b.width, b.height)
    ensures Traversable(GridOf(b), c) <==>
              Addressable(b.width, b.height, c.x, c.y) && CellAt(b, c) in {Empty, Food}
  {
    if c.x < b.width && c.y < b.height {
      SlotFits(b.width, b.height, c.x, c.y);
    }
  }

  /** On a square board, where cells do not share slots, a cell is traversable exactly when it
      is in bounds and no snake body covers it; food does not block. */
  lemma SquareTraversable(b: Board, c: Coords)
    requires Fits(b) && b.width == b.height
    ensures Traversable(GridOf(b), c) <==> c.x < b.width && c.y < b.height && !OnBody(b, c)
  {
    if c.x < b.width && c.y < b.height {
      SquareBoardCells(b, c);
    }
  }

  /** What a search sees of a map: its dimensions and the in-bounds cells that hold SNAKE. */
  ghost function Terrain(m: Map): (g: Grid)
    reads m, m.vals, m.vals.vals
    ensures g.width == m.width && g.height == m.height
  {
    Grid(m.width, m.height,
         iset c: Coords | c.x < m.width && c.y < m.height && Slot(m.height, c.x, c.y) < m.vals.vals.Length
                  && m.vals.vals[Slot(m.height, c.x, c.y)] == Snake)
  }

  /** The terrain of a map built from a board is the grid of that board. */
  lemma BuiltTerrain(m: Map)
    requires m.Valid()
    ensures Terrain(m) == GridOf(m.board)
  {
    var b := m.board;
    assert Terrain(m).blocked == GridOf(b).blocked by {
      forall c
        ensures c in Terrain(m).blocked <==> c in GridOf(b).blocked
      {
        if Addressable(b.width, b.height, c.x, c.y) {
          assert m.vals.vals[Slot(m.height, c.x, c.y)] == m.vals.vals[..][Slot(m.height, c.x, c.y)];
        }
      }
    }
  }

  /** `is_valid_node`: the bounds checks, then the map lookup. */
  function IsValidNode(m: Map, c: Coords): (r: bool)
    reads m, m.vals, m.vals.vals
    requires m.Shaped()
    requires c.x < m.width && c.y < m.height ==> Slot(m.height, c.x, c.y) < m.width * m.height
    ensures r == Traversable(Terrain(m), c)
  {
    if c.x >= m.width then false
    else if c.y >= m.height then false
    else m.At(c.x, c.y) != Snake
  }

  /** One move of a walk: onto an adjacent, traversable cell. */
  ghost predicate Step(g: Grid, a: Coords, b: Coords)
  {
    Adjacent(a, b) && Traversable(g, b)
  }

  /** A walk: at least one cell, and every later cell one step from the cell before it (the
      first cell, where the snake's head already is, is not checked). */
  ghost predicate IsWalk(g: Grid, p: seq<Coords>)
  {
    |p| >= 1 && forall i :: 1 <= i < |p| ==> Step(g, p[i - 1], p[i])
  }

  ghost predicate Reaches(g: Grid, s: Coords, t: Coords, p: seq<Coords>)
  {
    IsWalk(g, p) && p[0] == s && p[|p| - 1] == t
  }

  ghost predicate Reachable(g: Grid, s: Coords, t: Coords)
  {
    exists p :: Reaches(g, s, t, p)
  }

  /** No walk from s to t has fewer than n cells. */
  ghost predicate NoShorter(g: Grid, s: Coords, t: Coords, n: nat)
  {
    forall p :: Reaches(g, s, t, p) ==> n <= |p|
  }

  /** A walk cut after its k-th cell is a walk to that cell. */
  lemma PrefixReaches(g: Grid, s: Coords, p: seq<Coords>, k: nat)
    requires IsWalk(g, p) && p[0] == s && 1 <= k <= |p|
    ensures Reaches(g, s, p[k - 1], p[..k])
  {
    forall i | 1 <= i < k
      ensures Step(g, p[..k][i - 1], p[..k][i])
    {
      assert p[..k][i - 1] == p[i - 1] && p[..k][i] == p[i];
    }
  }

  /** A walk with its first k cells dropped is still a walk. */
  lemma SuffixWalks(g: Grid, p: seq<Coords>, k: nat)
    requires IsWalk(g, p) && k < |p|
    ensures IsWalk(g, p[k..])
  {
    forall i | 1 <= i < |p| - k
      ensures Step(g, p[k..][i - 1], p[k..][i])
    {
      assert p[k..][i - 1] == p[k + i - 1] && p[k..][i] == p[k + i];
    }
  }

  /** A walk whose last cell lies outside a set its first cell lies in leaves the set at some step. */
  lemma {:induction false} Crossing(p: seq<Coords>, inside: set<Coords>) returns (k: nat)
    requires |p| >= 1 && p[0] in inside && p[|p| - 1] !in inside
    ensures 1 <= k < |p| && p[k - 1] in inside && p[k] !in inside
    decreases |p|
  {
    if p[1] !in inside {
      k := 1;
    } else {
      var k' := Crossing(p[1..], inside);
      k := k' + 1;
    }
  }

  /** A walk that starts in a set closed under steps ends in it. */
  lemma {:induction false} WalkStaysInside(g: Grid, p: seq<Coords>, inside: set<Coords>)
    requires IsWalk(g, p) && p[0] in inside
    requires forall c, n :: c in inside && Step(g, c, n) ==> n in inside
    ensures p[|p| - 1] in inside
    decreases |p|
  {
    if |p| > 1 {
      var init := p[..|p| - 1];
      assert IsWalk(g, init) by {
        forall i | 1 <= i < |init|
          ensures Step(g, init[i - 1], init[i])
        {
          assert init[i - 1] == p[i - 1] && init[i] == p[i];
        }
      }
      WalkStaysInside(g, init, inside);
      assert Step(g, p[|p| - 2], p[|p| - 1]);
    }
  }

  /** How far apart two values are on one axis. */
  function Gap(a: nat, b: nat): nat
  {
    if a >= b then a - b else b - a
  }

  /** The number of moves between two cells on an open board. */
  function Distance(a: Coords, b: Coords): nat
  {
    Gap(a.x, b.x) + Gap(a.y, b.y)
  }

  /** A walk of k + 1 cells ends at most k moves away from where it starts. */
  lemma {:induction false} WalkSpan(g: Grid, p: seq<Coords>)
    requires IsWalk(g, p)
    ensures Distance(p[0], p[|p| - 1]) <= |p| - 1
    decreases |p|
  {
    if |p| > 1 {
      var init := p[..|p| - 1];
      assert IsWalk(g, init) by {
        forall i | 1 <= i < |init|
          ensures Step(g, init[i - 1], init[i])
        {
          assert init[i - 1] == p[i - 1] && init[i] == p[i];
        }
      }
      WalkSpan(g, init);
      assert Step(g, p[|p| - 2], p[|p| - 1]);
    }
  }

  /** A walk extended by one step onto a traversable neighbour of its last cell is a walk. */
  lemma WalkSnoc(g: Grid, p: seq<Coords>, c: Coords)
    requires IsWalk(g, p) && Step(g, p[|p| - 1], c)
    ensures IsWalk(g, p + [c])
  {
    var p' := p + [c];
    forall i | 1 <= i < |p'|
      ensures Step(g, p'[i - 1], p'[i])
    {
      if i < |p| {
        assert p'[i - 1] == p[i - 1] && p'[i] == p[i];
      }
    }
  }

  /** Walks p and q of the same length agree up to cell i, and the move p makes from there is
      probed before the one q makes. */
  ghost predicate DivergeAt(p: seq<Coords>, q: seq<Coords>, i: nat)
  {
    && |p| == |q| && i + 1 < |p|
    && p[..i + 1] == q[..i + 1]
    && ProbeRank(p[i], p[i + 1]) < ProbeRank(q[i], q[i + 1])
  }

  /** p comes before q in the order bfs_to probes moves: the lexicographic order on moves with
      Right before Left before Up before Down. */
  ghost predicate ProbedBefore(p: seq<Coords>, q: seq<Coords>)
  {
    exists i: nat :: DivergeAt(p, q, i)
  }

  /** Among the walks from s to t with as many cells as p, p comes first in probe order. */
  ghost predicate ProbeFirst(g: Grid, s: Coords, t: Coords, p: seq<Coords>)
  {
    forall w {:trigger ProbedBefore(p, w)} :: Reaches(g, s, t, w) && |w| == |p| ==> w == p || ProbedBefore(p, w)
  }

  /** No walk comes before one that comes before it. */
  lemma ProbedBeforeAsymmetric(p: seq<Coords>, q: seq<Coords>)
    ensures !(ProbedBefore(p, q) && ProbedBefore(q, p))
  {
    if i: nat, j: nat :| DivergeAt(p, q, i) && DivergeAt(q, p, j) {
      assert false;
    }
  }

  /** The probe order is transitive. */
  lemma ProbedBeforeTransitive(p: seq<Coords>, q: seq<Coords>, r: seq<Coords>)
    requires ProbedBefore(p, q) && ProbedBefore(q, r)
    ensures ProbedBefore(p, r)
  {
    var i: nat :| DivergeAt(p, q, i);
    var j: nat :| DivergeAt(q, r, j);
    if i < j {
      assert q[..j + 1][..i + 1] == q[..i + 1] && r[..j + 1][..i + 1] == r[..i + 1];
      assert q[..j + 1][i] == r[..j + 1][i] && q[..j + 1][i + 1] == r[..j + 1][i + 1];
      assert DivergeAt(p, r, i);
    } else if j < i {
      assert p[..i + 1][..j + 1] == p[..j + 1] && q[..i + 1][..j + 1] == q[..j + 1];
      assert p[..i + 1][j] == q[..i + 1][j] && p[..i + 1][j + 1] == q[..i + 1][j + 1];
      assert DivergeAt(p, r, j);
    } else {
      assert DivergeAt(p, r, i);
    }
  }

  /** Appending a cell to each of two walks keeps their order. */
  lemma ProbedBeforeSnoc(p: seq<Coords>, q: seq<Coords>, a: Coords, b: Coords)
    requires ProbedBefore(p, q)
    ensures ProbedBefore(p + [a], q + [b])
  {
    var i: nat :| DivergeAt(p, q, i);
    assert (p + [a])[..i + 1] == p[..i + 1] && (q + [b])[..i + 1] == q[..i + 1];
    assert DivergeAt(p + [a], q + [b], i);
  }

  /** Two one-step extensions of the same walk come in the probe order of their last moves. */
  lemma SiblingsProbedBefore(t: seq<Coords>, a: Coords, b: Coords)
    requires |t| >= 1 && ProbeRank(t[|t| - 1], a) < ProbeRank(t[|t| - 1], b)
    ensures ProbedBefore(t + [a], t + [b])
  {
    var i := |t| - 1;
    assert (t + [a])[..i + 1] == t == (t + [b])[..i + 1];
    assert DivergeAt(t + [a], t + [b], i);
  }

  /** There is only one walk of least length that comes first in probe order. */
  lemma ProbeFirstUnique(g: Grid, s: Coords, t: Coords, p: seq<Coords>, p': seq<Coords>)
    requires Reaches(g, s, t, p) && NoShorter(g, s, t, |p|) && ProbeFirst(g, s, t, p)
    requires Reaches(g, s, t, p') && NoShorter(g, s, t, |p'|) && ProbeFirst(g, s, t, p')
    ensures p == p'
  {
    ProbedBeforeAsymmetric(p, p');
  }

  /** `BfsNode`: the distance from the root, the arena index of the node it was reached from,
      and its coordinates. */
  datatype BfsNode = BfsNode(dist: nat, prev: Option<nat>, x: nat, y: nat)
  {
    function Pos(): Coords
    {
      Coords(x, y)
    }
  }

  /** The node bfs_to starts from. */
  function Root(start: Coords): BfsNode
  {
    BfsNode(0, None, start.x, start.y)
  }

  /** What bfs_to returns on success: the target's node and the arena of expanded nodes its chain
      of predecessors runs through. */
  datatype Found = Found(expanded: seq<BfsNode>, node: BfsNode)

  ghost predicate LinksBelow(n: BfsNode, bound: nat)
  {
    n.prev.Some? ==> n.prev.value < bound
  }

  /** Every node of the arena links to an earlier one. */
  ghost predicate Linked(tree: seq<BfsNode>)
  {
    forall i {:trigger LinksBelow(tree[i], i)} :: 0 <= i < |tree| ==> LinksBelow(tree[i], i)
  }

  /** The coordinates met by following the predecessor links from n back to the root, in
      forward order (root first, n last). */
  ghost function Trace(tree: seq<BfsNode>, n: BfsNode): (t: seq<Coords>)
    requires Linked(tree) && LinksBelow(n, |tree|)
    ensures |t| >= 1 && t[|t| - 1] == n.Pos()
    decreases if n.prev.Some? then n.prev.value + 1 else 0
  {
    match n.prev
    case None => [n.Pos()]
    case Some(j) =>
      assert LinksBelow(tree[j], j);
      Trace(tree, tree[j]) + [n.Pos()]
  }

  /** A node as bfs_to creates it: the root sits on the start with distance 0; any other node
      is one step from an arena node below `bound` and one further from the root. */
  ghost predicate GoodNode(g: Grid, start: Coords, tree: seq<BfsNode>, n: BfsNode, bound: nat)
  {
    match n.prev
    case None => n.Pos() == start && n.dist == 0
    case Some(j) =>
      && j < bound && j < |tree|
      && n.dist == tree[j].dist + 1
      && Step(g, tree[j].Pos(), n.Pos())
  }

  ghost predicate GoodTree(g: Grid, start: Coords, tree: seq<BfsNode>)
  {
    Linked(tree) && forall i {:trigger GoodNode(g, start, tree, tree[i], i)} :: 0 <= i < |tree| ==> GoodNode(g, start, tree, tree[i], i)
  }

  /** Following the links of a node back to the root traces a walk from the start to the node
      with exactly `dist + 1` cells. */
  lemma {:induction false} TraceWalks(g: Grid, start: Coords, tree: seq<BfsNode>, n: BfsNode)
    requires GoodTree(g, start, tree) && GoodNode(g, start, tree, n, |tree|)
    ensures LinksBelow(n, |tree|)
    ensures Reaches(g, start, n.Pos(), Trace(tree, n)) && |Trace(tree, n)| == n.dist + 1
    decreases if n.prev.Some? then n.prev.value + 1 else 0
  {
    match n.prev
    case None =>
    case Some(j) =>
      assert GoodNode(g, start, tree, tree[j], j) && LinksBelow(tree[j], j);
      TraceWalks(g, start, tree, tree[j]);
      var t := Trace(tree, tree[j]);
      var t' := t + [n.Pos()];
      forall i | 1 <= i < |t'|
        ensures Step(g, t'[i - 1], t'[i])
      {
        if i < |t| {
          assert t'[i - 1] == t[i - 1] && t'[i] == t[i];
        }
      }
  }

  /** Appending a node built on the arena keeps the arena well formed, and keeps every node
      built on the old arena well formed on the new one. */
  lemma ExtendTree(g: Grid, start: Coords, tree: seq<BfsNode>, cur: BfsNode)
    requires GoodTree(g, start, tree) && GoodNode(g, start, tree, cur, |tree|)
    ensures GoodTree(g, start, tree + [cur])
    ensures forall n, bound :: GoodNode(g, start, tree, n, bound) ==> GoodNode(g, start, tree + [cur], n, bound)
  {
    var t := tree + [cur];
    forall i | 0 <= i < |t|
      ensures LinksBelow(t[i], i) && GoodNode(g, start, t, t[i], i)
    {
      if i < |tree| {
        assert t[i] == tree[i];
        assert GoodNode(g, start, tree, tree[i], i) && LinksBelow(tree[i], i);
        if tree[i].prev.Some? {
          assert t[tree[i].prev.value] == tree[tree[i].prev.value];
        }
      } else if cur.prev.Some? {
        assert t[cur.prev.value] == tree[cur.prev.value];
      }
    }
    forall n, bound | GoodNode(g, start, tree, n, bound)
      ensures GoodNode(g, start, t, n, bound)
    {
      if n.prev.Some? {
        assert t[n.prev.value] == tree[n.prev.value];
      }
    }
  }

  /** The node bfs_to enqueues for cell c while expanding `cur`, if c is traversable: one further
      from the root and linked to arena index `parent`. */
  ghost function Child(g: Grid, cur: BfsNode, parent: nat, c: Coords): seq<BfsNode>
  {
    if Traversable(g, c) then [BfsNode(cur.dist + 1, Some(parent), c.x, c.y)] else []
  }

  /** The nodes bfs_to enqueues while expanding `cur`, in probe order: Right, Left, Up, Down. Left
      is not probed at x = 0 nor Up at y = 0, where the unsigned coordinate cannot go lower. */
  ghost function Children(g: Grid, cur: BfsNode, parent: nat): seq<BfsNode>
  {
    Child(g, cur, parent, Coords(cur.x + 1, cur.y))
    + (if cur.x != 0 then Child(g, cur, parent, Coords(cur.x - 1, cur.y)) else [])
    + (if cur.y != 0 then Child(g, cur, parent, Coords(cur.x, cur.y - 1)) else [])
    + Child(g, cur, parent, Coords(cur.x, cur.y + 1))
  }

  /** `added` holds a node for exactly the cells one step from `cur`, each one further from the
      root and linked to arena index `parent`. */
  ghost predicate Expands(g: Grid, cur: BfsNode, parent: nat, added: seq<BfsNode>)
  {
    && (forall n :: n in added ==>
          n.dist == cur.dist + 1 && n.prev == Some(parent) && Step(g, cur.Pos(), n.Pos()))
    && (forall c :: Step(g, cur.Pos(), c) ==> BfsNode(cur.dist + 1, Some(parent), c.x, c.y) in added)
  }

  /** The children of a node are exactly its successors in the search: no cell one step away is
      missed, even on the edges of the board, and nothing else is enqueued. */
  lemma ChildrenExpand(g: Grid, cur: BfsNode, parent: nat)
    ensures Expands(g, cur, parent, Children(g, cur, parent))
  {
    var right := Child(g, cur, parent, Coords(cur.x + 1, cur.y));
    var left := if cur.x != 0 then Child(g, cur, parent, Coords(cur.x - 1, cur.y)) else [];
    var up := if cur.y != 0 then Child(g, cur, parent, Coords(cur.x, cur.y - 1)) else [];
    var down := Child(g, cur, parent, Coords(cur.x, cur.y + 1));
    assert Children(g, cur, parent) == right + left + up + down;
    forall n: BfsNode | n in right + left + up + down
      ensures n.dist == cur.dist + 1 && n.prev == Some(parent) && Step(g, cur.Pos(), n.Pos())
    {
      if n in right {
      } else if n in left {
      } else if n in up {
      } else {
        assert n in down;
      }
    }
    forall c | Step(g, cur.Pos(), c)
      ensures BfsNode(cur.dist + 1, Some(parent), c.x, c.y) in right + left + up + down
    {
      if c.y == cur.y && c.x == cur.x + 1 {
        assert c == Coords(cur.x + 1, cur.y);
      } else if c.y == cur.y {
        assert c == Coords(cur.x - 1, cur.y);
      } else if c.y == cur.y + 1 {
        assert c == Coords(cur.x, cur.y + 1);
      } else {
        assert c == Coords(cur.x, cur.y - 1);
      }
    }
  }

  /** The node for a cell one step from `cur` is among its children. */
  lemma ChildOfStep(g: Grid, cur: BfsNode, parent: nat, c: Coords)
    requires Step(g, cur.Pos(), c)
    ensures BfsNode(cur.dist + 1, Some(parent), c.x, c.y) in Children(g, cur, parent)
  {
    ChildrenExpand(g, cur, parent);
  }

  /** The children come in the order Right, Left, Up, Down, with no direction twice. */
  lemma ChildrenInProbeOrder(g: Grid, cur: BfsNode, parent: nat)
    ensures forall i, j :: 0 <= i < j < |Children(g, cur, parent)| ==>
              ProbeRank(cur.Pos(), Children(g, cur, parent)[i].Pos()) < ProbeRank(cur.Pos(), Children(g, cur, parent)[j].Pos())
  {
  }

  /** One neighbour probe of bfs_to: enqueue a node for cell c when is_valid_node accepts it. */
  method Probe(m: Map, cur: BfsNode, parent: nat, c: Coords, added: seq<BfsNode>, ghost g: Grid)
    returns (added': seq<BfsNode>)
    requires m.Shaped() && StrideFits(m.width, m.height) && g == Terrain(m)
    ensures added' == added + Child(g, cur, parent, c)
  {
    if c.x < m.width && c.y < m.height {
      SlotFits(m.width, m.height, c.x, c.y);
    }
    added' := added;
    if IsValidNode(m, c) {
      added' := added + [BfsNode(cur.dist + 1, Some(parent), c.x, c.y)];
    }
  }

  /** The neighbour probes of bfs_to: the nodes to enqueue around `cur`, linked to arena index
      `parent`, for the map whose terrain is `g`. */
  method ExpandNeighbours(m: Map, cur: BfsNode, parent: nat, ghost g: Grid) returns (added: seq<BfsNode>)
    requires m.Shaped() && StrideFits(m.width, m.height) && g == Terrain(m)
    ensures added == Children(g, cur, parent)
  {
    var x, y := cur.x, cur.y;
    ghost var right, left, up, down := Child(g, cur, parent, Coords(x + 1, y)), [], [], Child(g, cur, parent, Coords(x, y + 1));
    // Right
    added := Probe(m, cur, parent, Coords(x + 1, y), [], g);
    assert added == right;
    // Left
    if x != 0 {
      left := Child(g, cur, parent, Coords(x - 1, y));
      added := Probe(m, cur, parent, Coords(x - 1, y), added, g);
    }
    assert added == right + left;
    // Up
    if y != 0 {
      up := Child(g, cur, parent, Coords(x, y - 1));
      added := Probe(m, cur, parent, Coords(x, y - 1), added, g);
    }
    assert added == right + left + up;
    // Down
    added := Probe(m, cur, parent, Coords(x, y + 1), added, g);
    assert added == right + left + up + down;
  }

  /** Every queued node is built on the arena. */
  ghost predicate QueueLinked(g: Grid, start: Coords, tree: seq<BfsNode>, q: seq<BfsNode>)
  {
    forall k {:trigger GoodNode(g, start, tree, q[k], |tree|)} :: 0 <= k < |q| ==> GoodNode(g, start, tree, q[k], |tree|)
  }

  /** `traversed` holds exactly the coordinates of the arena nodes. */
  ghost predicate Covers(tree: seq<BfsNode>, traversed: set<Coords>)
  {
    && (forall i :: 0 <= i < |tree| ==> tree[i].Pos() in traversed)
    && (forall c :: c in traversed ==> exists i :: 0 <= i < |tree| && tree[i].Pos() == c)
  }

  /** No coordinate is expanded twice. */
  ghost predicate Distinct(tree: seq<BfsNode>)
  {
    forall i, j :: 0 <= i < j < |tree| ==> tree[i].Pos() != tree[j].Pos()
  }

  /** The node's distance is the least number of steps from the start to its cell. */
  ghost predicate Shortest(g: Grid, start: Coords, n: BfsNode)
  {
    NoShorter(g, start, n.Pos(), n.dist + 1)
  }

  /** Every arena node is at the least distance from the start. */
  ghost predicate Settled(g: Grid, start: Coords, tree: seq<BfsNode>)
  {
    forall i {:trigger Shortest(g, start, tree[i])} :: 0 <= i < |tree| ==> Shortest(g, start, tree[i])
  }

  /** Every cell one step from an arena node is traversed or waits in the queue, at most one
      further from the root than that node. */
  ghost predicate Frontier(g: Grid, tree: seq<BfsNode>, traversed: set<Coords>, q: seq<BfsNode>)
  {
    forall i, n :: 0 <= i < |tree| && Step(g, tree[i].Pos(), n) && n !in traversed ==>
      exists k :: 0 <= k < |q| && q[k].Pos() == n && q[k].dist <= tree[i].dist + 1
  }

  /** Queue distances never decrease from front to back and span at most two values. */
  ghost predicate Layered(q: seq<BfsNode>)
  {
    forall i, j :: 0 <= i <= j < |q| ==> q[i].dist <= q[j].dist <= q[i].dist + 1
  }

  /** Before the first expansion the queue holds the root alone; after it the start is traversed. */
  ghost predicate Rooted(start: Coords, tree: seq<BfsNode>, traversed: set<Coords>, q: seq<BfsNode>)
  {
    && (|tree| == 0 ==> q == [Root(start)])
    && (|tree| > 0 ==> start in traversed)
  }

  /** The state bfs_to keeps between iterations: the arena `tree` of expanded nodes, the set
      `traversed` of their coordinates and the FIFO queue `q`; the target is not yet found. */
  ghost predicate BfsInv(g: Grid, start: Coords, target: Coords,
                         tree: seq<BfsNode>, traversed: set<Coords>, q: seq<BfsNode>)
  {
    && GoodTree(g, start, tree) && QueueLinked(g, start, tree, q)
    && Covers(tree, traversed) && Distinct(tree) && Settled(g, start, tree)
    && Frontier(g, tree, traversed, q) && Layered(q) && Rooted(start, tree, traversed, q)
    && target !in traversed
  }

  lemma BfsInvInit(g: Grid, start: Coords, target: Coords)
    ensures BfsInv(g, start, target, [], {}, [Root(start)])
  {
  }

  /** The first time a coordinate leaves the queue, its node is at the least distance. */
  lemma DequeueShortest(g: Grid, start: Coords, tree: seq<BfsNode>, traversed: set<Coords>, q: seq<BfsNode>)
    requires |q| > 0 && q[0].Pos() !in traversed
    requires Rooted(start, tree, traversed, q) && Covers(tree, traversed) && Settled(g, start, tree)
    requires Frontier(g, tree, traversed, q) && Layered(q)
    ensures Shortest(g, start, q[0])
  {
    forall p | Reaches(g, start, q[0].Pos(), p)
      ensures q[0].dist + 1 <= |p|
    {
      if |tree| > 0 {
        var k := Crossing(p, traversed);
        var i :| 0 <= i < |tree| && tree[i].Pos() == p[k - 1];
        PrefixReaches(g, start, p, k);
        assert Shortest(g, start, tree[i]);
        assert Step(g, p[k - 1], p[k]);
        var e :| 0 <= e < |q| && q[e].Pos() == p[k] && q[e].dist <= tree[i].dist + 1;
        assert q[0].dist <= q[e].dist;
      }
    }
  }

  /** Dropping a node whose coordinate is already traversed keeps the invariant. */
  lemma SkipPreserves(g: Grid, start: Coords, target: Coords,
                      tree: seq<BfsNode>, traversed: set<Coords>, q: seq<BfsNode>)
    requires BfsInv(g, start, target, tree, traversed, q)
    requires |q| > 0 && q[0].Pos() in traversed
    ensures BfsInv(g, start, target, tree, traversed, q[1..])
  {
    var q' := q[1..];
    forall i, n | 0 <= i < |tree| && Step(g, tree[i].Pos(), n) && n !in traversed
      ensures exists k :: 0 <= k < |q'| && q'[k].Pos() == n && q'[k].dist <= tree[i].dist + 1
    {
      var k :| 0 <= k < |q| && q[k].Pos() == n && q[k].dist <= tree[i].dist + 1;
      assert q'[k - 1] == q[k];
    }
    assert |tree| > 0;
  }

  lemma ExpandLinks(g: Grid, start: Coords, tree: seq<BfsNode>, q: seq<BfsNode>, added: seq<BfsNode>)
    requires GoodTree(g, start, tree) && QueueLinked(g, start, tree, q) && |q| > 0
    requires Expands(g, q[0], |tree|, added)
    ensures GoodTree(g, start, tree + [q[0]]) && QueueLinked(g, start, tree + [q[0]], q[1..] + added)
  {
    var t, q' := tree + [q[0]], q[1..] + added;
    ExtendTree(g, start, tree, q[0]);
    forall k | 0 <= k < |q'|
      ensures GoodNode(g, start, t, q'[k], |t|)
    {
      if k < |q| - 1 {
        assert q'[k] == q[k + 1];
        assert GoodNode(g, start, tree, q[k + 1], |tree|);
      } else {
        assert q'[k] == added[k - (|q| - 1)] && q'[k] in added;
        assert t[|tree|] == q[0];
      }
    }
  }

  lemma ExpandCovers(tree: seq<BfsNode>, traversed: set<Coords>, cur: BfsNode)
    requires Covers(tree, traversed) && Distinct(tree) && cur.Pos() !in traversed
    ensures Covers(tree + [cur], traversed + {cur.Pos()}) && Distinct(tree + [cur])
  {
    var t := tree + [cur];
    forall c | c in traversed + {cur.Pos()}
      ensures exists i :: 0 <= i < |t| && t[i].Pos() == c
    {
      if c in traversed {
        var i :| 0 <= i < |tree| && tree[i].Pos() == c;
        assert t[i] == tree[i];
      } else {
        assert t[|tree|] == cur;
      }
    }
    forall i, j | 0 <= i < j < |t|
      ensures t[i].Pos() != t[j].Pos()
    {
      assert t[i] == tree[i];
      if j < |tree| {
        assert t[j] == tree[j];
      }
    }
  }

  lemma ExpandSettled(g: Grid, start: Coords, tree: seq<BfsNode>, cur: BfsNode)
    requires Settled(g, start, tree) && Shortest(g, start, cur)
    ensures Settled(g, start, tree + [cur])
  {
    var t := tree + [cur];
    forall i | 0 <= i < |t|
      ensures Shortest(g, start, t[i])
    {
      if i < |tree| {
        assert t[i] == tree[i];
      }
    }
  }

  lemma ExpandFrontier(g: Grid, tree: seq<BfsNode>, traversed: set<Coords>, q: seq<BfsNode>, added: seq<BfsNode>)
    requires Frontier(g, tree, traversed, q) && |q| > 0
    requires Expands(g, q[0], |tree|, added)
    ensures Frontier(g, tree + [q[0]], traversed + {q[0].Pos()}, q[1..] + added)
  {
    var t, tr, q' := tree + [q[0]], traversed + {q[0].Pos()}, q[1..] + added;
    forall i, n | 0 <= i < |t| && Step(g, t[i].Pos(), n) && n !in tr
      ensures exists k :: 0 <= k < |q'| && q'[k].Pos() == n && q'[k].dist <= t[i].dist + 1
    {
      if i < |tree| {
        assert t[i] == tree[i];
        var k :| 0 <= k < |q| && q[k].Pos() == n && q[k].dist <= tree[i].dist + 1;
        assert q'[k - 1] == q[k];
      } else {
        assert t[i] == q[0];
        var k :| 0 <= k < |added| && added[k] == BfsNode(q[0].dist + 1, Some(|tree|), n.x, n.y);
        assert q'[|q| - 1 + k] == added[k];
      }
    }
  }

  lemma ExpandLayered(q: seq<BfsNode>, added: seq<BfsNode>)
    requires Layered(q) && |q| > 0
    requires forall n :: n in added ==> n.dist == q[0].dist + 1
    ensures Layered(q[1..] + added)
  {
    var q' := q[1..] + added;
    assert forall k :: 0 <= k < |added| ==> added[k] in added;
    forall i, j | 0 <= i <= j < |q'|
      ensures q'[i].dist <= q'[j].dist <= q'[i].dist + 1
    {
      if j < |q| - 1 {
        assert q'[i] == q[i + 1] && q'[j] == q[j + 1];
      } else if i < |q| - 1 {
        assert q'[i] == q[i + 1];
        assert q'[j] == added[j - (|q| - 1)];
        assert q[0].dist <= q'[i].dist;
      } else {
        assert q'[i] == added[i - (|q| - 1)] && q'[j] == added[j - (|q| - 1)];
      }
    }
  }

  /** Expanding the node at the head of the queue, which is new and not the target, keeps the
      invariant when its successors are appended to the queue. */
  lemma ExpandPreserves(g: Grid, start: Coords, target: Coords,
                        tree: seq<BfsNode>, traversed: set<Coords>, q: seq<BfsNode>, added: seq<BfsNode>)
    requires BfsInv(g, start, target, tree, traversed, q)
    requires |q| > 0 && q[0].Pos() !in traversed && q[0].Pos() != target
    requires added == Children(g, q[0], |tree|)
    ensures BfsInv(g, start, target, tree + [q[0]], traversed + {q[0].Pos()}, q[1..] + added)
  {
    ChildrenExpand(g, q[0], |tree|);
    DequeueShortest(g, start, tree, traversed, q);
    ExpandLinks(g, start, tree, q, added);
    ExpandCovers(tree, traversed, q[0]);
    ExpandSettled(g, start, tree, q[0]);
    ExpandFrontier(g, tree, traversed, q, added);
    ExpandLayered(q, added);
  }

  /** When the queue runs dry, every walk from the start ends on a traversed cell, so a target
      that was never traversed is unreachable. */
  lemma ExhaustedUnreachable(g: Grid, start: Coords, target: Coords, tree: seq<BfsNode>, traversed: set<Coords>)
    requires BfsInv(g, start, target, tree, traversed, [])
    ensures !Reachable(g, start, target)
  {
    forall c, n | c in traversed && Step(g, c, n)
      ensures n in traversed
    {
      var i :| 0 <= i < |tree| && tree[i].Pos() == c;
    }
    forall p | IsWalk(g, p) && p[0] == start
      ensures p[|p| - 1] in traversed
    {
      WalkStaysInside(g, p, traversed);
    }
  }

  /** The in-bounds coordinates of a width x height board. */
  ghost function InBounds(width: nat, height: nat): set<Coords>
  {
    set x: nat, y: nat | x < width && y < height :: Coords(x, y)
  }

  lemma TraversableInBounds(g: Grid, c: Coords)
    requires Traversable(g, c)
    ensures c in InBounds(g.width, g.height)
  {
    assert c == Coords(c.x, c.y);
  }

  /** A queued coordinate that is not yet traversed is the start or lies on the board, so
      traversing it leaves fewer cells to traverse. */
  lemma VisitShrinks(g: Grid, start: Coords, target: Coords,
                     tree: seq<BfsNode>, traversed: set<Coords>, q: seq<BfsNode>)
    requires BfsInv(g, start, target, tree, traversed, q)
    requires |q| > 0 && q[0].Pos() !in traversed
    requires traversed <= InBounds(g.width, g.height) + {start}
    ensures traversed + {q[0].Pos()} <= InBounds(g.width, g.height) + {start}
    ensures |InBounds(g.width, g.height) + {start} - (traversed + {q[0].Pos()})|
            < |InBounds(g.width, g.height) + {start} - traversed|
  {
    var cells := InBounds(g.width, g.height) + {start};
    assert GoodNode(g, start, tree, q[0], |tree|);
    if q[0].prev.Some? {
      TraversableInBounds(g, q[0].Pos());
    }
    assert cells - (traversed + {q[0].Pos()}) < cells - traversed;
  }

  /** Traversing the target for the first time yields a node whose predecessor chain is a walk of
      least length from the start. */
  lemma TargetFound(g: Grid, start: Coords, target: Coords,
                    tree: seq<BfsNode>, traversed: set<Coords>, q: seq<BfsNode>)
    requires BfsInv(g, start, target, tree, traversed, q)
    requires |q| > 0 && q[0].Pos() !in traversed && q[0].Pos() == target
    ensures GoodTree(g, start, tree + [q[0]])
    ensures GoodNode(g, start, tree + [q[0]], q[0], |tree + [q[0]]|)
    ensures Reaches(g, start, target, Trace(tree + [q[0]], q[0]))
    ensures |Trace(tree + [q[0]], q[0])| == q[0].dist + 1
    ensures NoShorter(g, start, target, q[0].dist + 1)
    ensures Distinct(tree + [q[0]])
  {
    var cur := q[0];
    assert GoodNode(g, start, tree, cur, |tree|);
    DequeueShortest(g, start, tree, traversed, q);
    ExpandCovers(tree, traversed, cur);
    ExtendTree(g, start, tree, cur);
    TraceWalks(g, start, tree + [cur], cur);
  }

  /** Node a entered the queue before node b: a is the root, or a's predecessor was expanded
      before b's, or both hang off one node and a's cell is probed first from it. */
  ghost predicate EnqueuedBefore(tree: seq<BfsNode>, a: BfsNode, b: BfsNode)
  {
    && b.prev.Some? && b.prev.value < |tree|
    && (a.prev.Some? ==>
          && a.prev.value < |tree|
          && (|| a.prev.value < b.prev.value
              || (&& a.prev.value == b.prev.value
                  && ProbeRank(tree[a.prev.value].Pos(), a.Pos()) < ProbeRank(tree[b.prev.value].Pos(), b.Pos()))))
  }

  /** The nodes of s, the arena followed by the queue, appear in the order they were enqueued. */
  ghost predicate InQueueOrder(tree: seq<BfsNode>, s: seq<BfsNode>)
  {
    forall i, j :: 0 <= i < j < |s| ==> EnqueuedBefore(tree, s[i], s[j])
  }

  /** Each arena node hangs off the earliest arena node one step from it. */
  ghost predicate FirstParents(g: Grid, tree: seq<BfsNode>)
  {
    forall i, k :: 0 <= i < |tree| && tree[i].prev.Some? && 0 <= k < |tree| && k < tree[i].prev.value ==>
      !Step(g, tree[k].Pos(), tree[i].Pos())
  }

  /** Every node enqueued while expanding an arena node is on a traversed cell or still queued. */
  ghost predicate Pending(g: Grid, tree: seq<BfsNode>, traversed: set<Coords>, q: seq<BfsNode>)
  {
    forall k, n :: 0 <= k < |tree| && n in Children(g, tree[k], k) ==> n.Pos() in traversed || n in q
  }

  /** The trace of arena node i. */
  ghost function TraceAt(tree: seq<BfsNode>, i: nat): seq<Coords>
    requires Linked(tree) && i < |tree|
  {
    assert LinksBelow(tree[i], i);
    Trace(tree, tree[i])
  }

  /** The trace of every arena node comes first in probe order among the walks as short as it. */
  ghost predicate Canonical(g: Grid, start: Coords, tree: seq<BfsNode>)
  {
    Linked(tree) && forall i {:trigger TraceAt(tree, i)} :: 0 <= i < |tree| ==> ProbeFirst(g, start, tree[i].Pos(), TraceAt(tree, i))
  }

  /** Arena nodes at the same distance were expanded in the probe order of their traces. */
  ghost predicate LayerOrdered(tree: seq<BfsNode>)
  {
    Linked(tree) && forall i, j {:trigger TraceAt(tree, i), TraceAt(tree, j)} :: 0 <= i < j < |tree| && tree[i].dist == tree[j].dist ==>
      ProbedBefore(TraceAt(tree, i), TraceAt(tree, j))
  }

  /** What the FIFO queue and the Right, Left, Up, Down probes add to BfsInv. */
  ghost predicate OrderInv(g: Grid, start: Coords, tree: seq<BfsNode>, traversed: set<Coords>, q: seq<BfsNode>)
  {
    && InQueueOrder(tree, tree + q) && FirstParents(g, tree) && Pending(g, tree, traversed, q)
    && Canonical(g, start, tree) && LayerOrdered(tree)
  }

  /** The queue holding only the root, with nothing traversed, satisfies the order invariant. */
  lemma OrderInvInit(g: Grid, start: Coords)
    ensures OrderInv(g, start, [], {}, [Root(start)])
  {
  }

  /** Dropping a node whose coordinate is already traversed keeps the order invariant. */
  lemma SkipKeepsOrder(g: Grid, start: Coords, tree: seq<BfsNode>, traversed: set<Coords>, q: seq<BfsNode>)
    requires OrderInv(g, start, tree, traversed, q)
    requires |q| > 0 && q[0].Pos() in traversed
    ensures OrderInv(g, start, tree, traversed, q[1..])
  {
    var s, s' := tree + q, tree + q[1..];
    forall i, j | 0 <= i < j < |s'|
      ensures EnqueuedBefore(tree, s'[i], s'[j])
    {
      var i0 := if i < |tree| then i else i + 1;
      var j0 := if j < |tree| then j else j + 1;
      assert s'[i] == s[i0] && s'[j] == s[j0];
    }
    forall k, n | 0 <= k < |tree| && n in Children(g, tree[k], k) && n.Pos() !in traversed
      ensures n in q[1..]
    {
      assert q == [q[0]] + q[1..];
    }
  }

  /** Following links in an arena does not depend on nodes appended after it. */
  lemma {:induction false} TraceExtend(tree: seq<BfsNode>, x: BfsNode, n: BfsNode)
    requires Linked(tree + [x]) && LinksBelow(n, |tree|)
    ensures Linked(tree) && Trace(tree + [x], n) == Trace(tree, n)
    decreases if n.prev.Some? then n.prev.value + 1 else 0
  {
    var t := tree + [x];
    forall i | 0 <= i < |tree|
      ensures LinksBelow(tree[i], i)
    {
      assert t[i] == tree[i] && LinksBelow(t[i], i);
    }
    match n.prev
    case None =>
    case Some(j) =>
      assert t[j] == tree[j] && LinksBelow(tree[j], j);
      TraceExtend(tree, x, tree[j]);
  }

  /** Appending a node leaves the traces of the arena nodes before it unchanged. */
  lemma TracesKept(tree: seq<BfsNode>, x: BfsNode)
    requires Linked(tree + [x])
    ensures Linked(tree)
    ensures forall i :: 0 <= i < |tree| ==> TraceAt(tree + [x], i) == TraceAt(tree, i)
  {
    var t := tree + [x];
    forall i | 0 <= i < |tree|
      ensures LinksBelow(tree[i], i)
    {
      assert t[i] == tree[i] && LinksBelow(t[i], i);
    }
    forall i | 0 <= i < |tree|
      ensures TraceAt(t, i) == TraceAt(tree, i)
    {
      assert t[i] == tree[i] && LinksBelow(t[i], i);
      TraceExtend(tree, x, tree[i]);
    }
  }

  /** A walk from the start that ends on a cell not yet traversed has more cells than the node at
      the head of the queue is far from the root. */
  lemma UntraversedFar(g: Grid, start: Coords, tree: seq<BfsNode>, traversed: set<Coords>, q: seq<BfsNode>,
                       p: seq<Coords>)
    requires |q| > 0 && |tree| > 0
    requires Rooted(start, tree, traversed, q) && Covers(tree, traversed) && Settled(g, start, tree)
    requires Frontier(g, tree, traversed, q) && Layered(q)
    requires IsWalk(g, p) && p[0] == start && p[|p| - 1] !in traversed
    ensures q[0].dist < |p|
  {
    var k := Crossing(p, traversed);
    var i :| 0 <= i < |tree| && tree[i].Pos() == p[k - 1];
    PrefixReaches(g, start, p, k);
    assert Shortest(g, start, tree[i]);
    assert Step(g, p[k - 1], p[k]);
    var e :| 0 <= e < |q| && q[e].Pos() == p[k] && q[e].dist <= tree[i].dist + 1;
    assert q[0].dist <= q[e].dist;
  }

  /** The node at the head of the queue entered it before every other queued node. */
  lemma HeadEnqueuedFirst(tree: seq<BfsNode>, q: seq<BfsNode>, e: nat)
    requires InQueueOrder(tree, tree + q) && 0 < e < |q|
    ensures EnqueuedBefore(tree, q[0], q[e])
  {
    var s := tree + q;
    assert s[|tree|] == q[0] && s[|tree| + e] == q[e];
  }

  /** A new node at the head of the queue hangs off the earliest arena node one step from it:
      an earlier one would have enqueued a node for the same cell ahead of it. */
  lemma HeadFirstParent(g: Grid, start: Coords, tree: seq<BfsNode>, traversed: set<Coords>, q: seq<BfsNode>, k: nat)
    requires QueueLinked(g, start, tree, q)
    requires InQueueOrder(tree, tree + q) && Pending(g, tree, traversed, q)
    requires |q| > 0 && q[0].Pos() !in traversed && q[0].prev.Some? && k < q[0].prev.value && k < |tree|
    ensures !Step(g, tree[k].Pos(), q[0].Pos())
  {
    assert GoodNode(g, start, tree, q[0], |tree|);
    if Step(g, tree[k].Pos(), q[0].Pos()) {
      var c := q[0].Pos();
      var n := BfsNode(tree[k].dist + 1, Some(k), c.x, c.y);
      ChildOfStep(g, tree[k], k, c);
      assert n.Pos() == c;
      var e :| 0 <= e < |q| && q[e] == n;
      HeadEnqueuedFirst(tree, q, e);
      assert false;
    }
  }

  /** The cell a walk as short as the new node at the head of the queue passes just before it is
      an arena node one step nearer the root. */
  lemma HeadNeighbour(g: Grid, start: Coords, target: Coords,
                      tree: seq<BfsNode>, traversed: set<Coords>, q: seq<BfsNode>, w: seq<Coords>)
    returns (k: nat)
    requires BfsInv(g, start, target, tree, traversed, q)
    requires |q| > 0 && q[0].Pos() !in traversed && q[0].prev.Some?
    requires Reaches(g, start, q[0].Pos(), w) && |w| == q[0].dist + 1
    ensures k < |tree| && |w| >= 2 && Step(g, tree[k].Pos(), q[0].Pos())
    ensures tree[k].Pos() == w[|w| - 2] && tree[k].dist + 1 == q[0].dist
  {
    var c, d := q[0].Pos(), q[0].dist;
    assert GoodNode(g, start, tree, q[0], |tree|);
    var u := w[d - 1];
    PrefixReaches(g, start, w, d);
    if u !in traversed {
      UntraversedFar(g, start, tree, traversed, q, w[..d]);
      assert false;
    }
    k :| 0 <= k < |tree| && tree[k].Pos() == u;
    assert Step(g, w[d - 1], w[d]);
    assert GoodNode(g, start, tree, tree[k], k);
    TraceWalks(g, start, tree, tree[k]);
    var around := Trace(tree, tree[k]) + [c];
    WalkSnoc(g, Trace(tree, tree[k]), c);
    assert Reaches(g, start, c, around);
    DequeueShortest(g, start, tree, traversed, q);
    assert d + 1 <= |around|;
    assert Shortest(g, start, tree[k]);
    assert tree[k].dist + 1 <= |w[..d]|;
  }

  /** The trace of arena node j comes first in probe order among the walks as short as it to the
      cell of an arena node k at j's distance expanded no earlier than j. */
  lemma TraceBeatsPrefix(g: Grid, start: Coords, tree: seq<BfsNode>, j: nat, k: nat, v: seq<Coords>)
    requires GoodTree(g, start, tree) && Canonical(g, start, tree) && LayerOrdered(tree)
    requires j <= k < |tree| && tree[j].dist == tree[k].dist
    requires Reaches(g, start, tree[k].Pos(), v) && |v| == tree[k].dist + 1
    ensures v == TraceAt(tree, j) || ProbedBefore(TraceAt(tree, j), v)
  {
    assert GoodNode(g, start, tree, tree[k], k) && LinksBelow(tree[k], k);
    TraceWalks(g, start, tree, tree[k]);
    var trace, traceK := TraceAt(tree, j), TraceAt(tree, k);
    assert v == traceK || ProbedBefore(traceK, v);
    if j < k {
      assert ProbedBefore(trace, traceK);
      if v != traceK {
        ProbedBeforeTransitive(trace, traceK, v);
      }
    }
  }

  /** Extending the trace of arena node j by cell c gives a walk that comes first in probe order
      among the walks to c as short as it, when the last-but-one cell of every such walk is an
      arena node k at j's distance expanded no earlier than j. */
  lemma TraceBeatsWalk(g: Grid, start: Coords, tree: seq<BfsNode>, j: nat, k: nat, c: Coords, w: seq<Coords>)
    requires GoodTree(g, start, tree) && Canonical(g, start, tree) && LayerOrdered(tree)
    requires j <= k < |tree| && tree[j].dist == tree[k].dist
    requires Reaches(g, start, c, w) && |w| == tree[k].dist + 2 && w[|w| - 2] == tree[k].Pos()
    ensures w == TraceAt(tree, j) + [c] || ProbedBefore(TraceAt(tree, j) + [c], w)
  {
    var d := |w| - 1;
    PrefixReaches(g, start, w, d);
    TraceBeatsPrefix(g, start, tree, j, k, w[..d]);
    var trace := TraceAt(tree, j);
    assert w == w[..d] + [w[d]];
    if w[..d] != trace {
      ProbedBeforeSnoc(trace, w[..d], c, c);
    }
  }

  /** The trace of a new node at the head of the queue comes first in probe order among the
      walks as short as it. */
  lemma HeadCanonical(g: Grid, start: Coords, target: Coords,
                      tree: seq<BfsNode>, traversed: set<Coords>, q: seq<BfsNode>)
    requires BfsInv(g, start, target, tree, traversed, q) && OrderInv(g, start, tree, traversed, q)
    requires |q| > 0 && q[0].Pos() !in traversed
    ensures Linked(tree + [q[0]]) && LinksBelow(q[0], |tree| + 1)
    ensures ProbeFirst(g, start, q[0].Pos(), Trace(tree + [q[0]], q[0]))
  {
    var t, c := tree + [q[0]], q[0].Pos();
    assert GoodNode(g, start, tree, q[0], |tree|);
    ExtendTree(g, start, tree, q[0]);
    assert LinksBelow(t[|tree|], |tree|);
    match q[0].prev
    case None =>
      forall w | Reaches(g, start, c, w) && |w| == 1
        ensures w == [c]
      {
      }
    case Some(j) =>
      assert t[j] == tree[j] && LinksBelow(tree[j], j);
      TraceExtend(tree, q[0], tree[j]);
      assert Trace(t, q[0]) == TraceAt(tree, j) + [c];
      TraceWalks(g, start, t, q[0]);
      forall w | Reaches(g, start, c, w) && |w| == |Trace(t, q[0])|
        ensures w == Trace(t, q[0]) || ProbedBefore(Trace(t, q[0]), w)
      {
        var k := HeadNeighbour(g, start, target, tree, traversed, q, w);
        if k < j {
          HeadFirstParent(g, start, tree, traversed, q, k);
          assert false;
        }
        TraceBeatsWalk(g, start, tree, j, k, c, w);
      }
  }

  /** Arena node i, at the distance of the node at the head of the queue, has a trace that
      comes before that node's in probe order: its predecessor came first, or both share one and
      i's cell is probed first from it. */
  lemma HeadAfterLayer(g: Grid, start: Coords, tree: seq<BfsNode>, q: seq<BfsNode>, i: nat)
    requires GoodTree(g, start, tree) && QueueLinked(g, start, tree, q)
    requires InQueueOrder(tree, tree + q) && LayerOrdered(tree)
    requires |q| > 0 && q[0].prev.Some? && i < |tree| && tree[i].dist == q[0].dist
    ensures Linked(tree + [q[0]])
    ensures ProbedBefore(TraceAt(tree + [q[0]], i), TraceAt(tree + [q[0]], |tree|))
  {
    var t, c := tree + [q[0]], q[0].Pos();
    assert GoodNode(g, start, tree, q[0], |tree|);
    ExtendTree(g, start, tree, q[0]);
    TracesKept(tree, q[0]);
    assert GoodNode(g, start, tree, tree[i], i) && LinksBelow(tree[i], i);
    var j := q[0].prev.value;
    var pi := tree[i].prev.value;
    assert t[j] == tree[j] && t[|tree|] == q[0] && LinksBelow(tree[j], j);
    TraceExtend(tree, q[0], tree[j]);
    var trace := TraceAt(tree, j);
    assert TraceAt(t, |tree|) == trace + [c];
    assert LinksBelow(tree[pi], pi);
    assert TraceAt(tree, i) == TraceAt(tree, pi) + [tree[i].Pos()];
    var s := tree + q;
    assert s[i] == tree[i] && s[|tree|] == q[0];
    assert EnqueuedBefore(tree, s[i], s[|tree|]);
    if pi < j {
      assert ProbedBefore(TraceAt(tree, pi), trace);
      ProbedBeforeSnoc(TraceAt(tree, pi), trace, tree[i].Pos(), c);
    } else {
      SiblingsProbedBefore(trace, tree[i].Pos(), c);
    }
  }

  /** Enqueueing order does not depend on nodes appended to the arena after both nodes' links. */
  lemma EnqueuedBeforeKept(tree: seq<BfsNode>, x: BfsNode, a: BfsNode, b: BfsNode)
    requires EnqueuedBefore(tree, a, b)
    ensures EnqueuedBefore(tree + [x], a, b)
  {
    var t := tree + [x];
    assert t[b.prev.value] == tree[b.prev.value];
    if a.prev.Some? {
      assert t[a.prev.value] == tree[a.prev.value];
    }
  }

  /** Every node of the arena and of the queue links below the arena's end. */
  lemma AllLinkBelow(g: Grid, start: Coords, tree: seq<BfsNode>, q: seq<BfsNode>)
    requires Linked(tree) && QueueLinked(g, start, tree, q)
    ensures forall i :: 0 <= i < |tree + q| ==> LinksBelow((tree + q)[i], |tree|)
  {
    var s := tree + q;
    forall i | 0 <= i < |s|
      ensures LinksBelow(s[i], |tree|)
    {
      if i < |tree| {
        assert s[i] == tree[i] && LinksBelow(tree[i], i);
      } else {
        assert s[i] == q[i - |tree|] && GoodNode(g, start, tree, q[i - |tree|], |tree|);
      }
    }
  }

  /** A node linked into the arena entered the queue before every child of a node appended to it. */
  lemma BeforeChild(tree: seq<BfsNode>, cur: BfsNode, a: BfsNode, b: BfsNode)
    requires LinksBelow(a, |tree|) && b.prev == Some(|tree|)
    ensures EnqueuedBefore(tree + [cur], a, b)
  {
  }

  /** Two children of a node appended to the arena entered the queue in their probe order. */
  lemma SiblingsEnqueued(tree: seq<BfsNode>, cur: BfsNode, a: BfsNode, b: BfsNode)
    requires a.prev == Some(|tree|) && b.prev == Some(|tree|)
    requires ProbeRank(cur.Pos(), a.Pos()) < ProbeRank(cur.Pos(), b.Pos())
    ensures EnqueuedBefore(tree + [cur], a, b)
  {
    assert (tree + [cur])[|tree|] == cur;
  }

  /** Expanding the head of the queue appends its children, in probe order, behind everything
      enqueued so far. */
  lemma ExpandInOrder(g: Grid, start: Coords, tree: seq<BfsNode>, q: seq<BfsNode>, added: seq<BfsNode>)
    requires GoodTree(g, start, tree) && QueueLinked(g, start, tree, q) && |q| > 0
    requires InQueueOrder(tree, tree + q) && added == Children(g, q[0], |tree|)
    ensures InQueueOrder(tree + [q[0]], (tree + [q[0]]) + (q[1..] + added))
  {
    var t, s := tree + [q[0]], tree + q;
    var s' := t + (q[1..] + added);
    assert s' == s + added;
    AllLinkBelow(g, start, tree, q);
    ChildrenInProbeOrder(g, q[0], |tree|);
    ChildrenExpand(g, q[0], |tree|);
    forall i, j | 0 <= i < j < |s'|
      ensures EnqueuedBefore(t, s'[i], s'[j])
    {
      if j < |s| {
        EnqueuedBeforeKept(tree, q[0], s[i], s[j]);
      } else if i < |s| {
        assert added[j - |s|] in added;
        BeforeChild(tree, q[0], s[i], added[j - |s|]);
      } else {
        assert added[i - |s|] in added && added[j - |s|] in added;
        SiblingsEnqueued(tree, q[0], added[i - |s|], added[j - |s|]);
      }
    }
  }

  /** A queued node other than the head is behind it. */
  lemma QueueTail(q: seq<BfsNode>, n: BfsNode)
    requires n in q && n != q[0]
    ensures n in q[1..]
  {
    assert q == [q[0]] + q[1..];
  }

  /** Expanding the head of the queue keeps every enqueued node traversed or queued. */
  lemma ExpandPending(g: Grid, tree: seq<BfsNode>, traversed: set<Coords>, q: seq<BfsNode>, added: seq<BfsNode>)
    requires Pending(g, tree, traversed, q) && |q| > 0 && added == Children(g, q[0], |tree|)
    ensures Pending(g, tree + [q[0]], traversed + {q[0].Pos()}, q[1..] + added)
  {
    var t, tr, q' := tree + [q[0]], traversed + {q[0].Pos()}, q[1..] + added;
    forall k, n | 0 <= k < |t| && n in Children(g, t[k], k) && n.Pos() !in tr
      ensures n in q'
    {
      if k < |tree| {
        assert t[k] == tree[k] && n in q && n != q[0];
        QueueTail(q, n);
      } else {
        assert t[k] == q[0] && n in added;
      }
    }
  }

  /** Expanding a new head of the queue keeps every arena node hanging off its earliest
      neighbour. */
  lemma ExpandFirstParents(g: Grid, start: Coords, tree: seq<BfsNode>, traversed: set<Coords>, q: seq<BfsNode>)
    requires Linked(tree) && QueueLinked(g, start, tree, q) && FirstParents(g, tree)
    requires InQueueOrder(tree, tree + q) && Pending(g, tree, traversed, q)
    requires |q| > 0 && q[0].Pos() !in traversed
    ensures FirstParents(g, tree + [q[0]])
  {
    var t := tree + [q[0]];
    forall i, k | 0 <= i < |t| && t[i].prev.Some? && 0 <= k < |t| && k < t[i].prev.value
      ensures !Step(g, t[k].Pos(), t[i].Pos())
    {
      if i < |tree| {
        assert t[i] == tree[i] && LinksBelow(tree[i], i);
        assert t[k] == tree[k];
      } else {
        assert t[i] == q[0] && GoodNode(g, start, tree, q[0], |tree|);
        assert t[k] == tree[k];
        HeadFirstParent(g, start, tree, traversed, q, k);
      }
    }
  }

  /** Expanding a new head of the queue keeps every arena trace first in probe order. */
  lemma ExpandCanonical(g: Grid, start: Coords, target: Coords,
                        tree: seq<BfsNode>, traversed: set<Coords>, q: seq<BfsNode>)
    requires BfsInv(g, start, target, tree, traversed, q) && OrderInv(g, start, tree, traversed, q)
    requires |q| > 0 && q[0].Pos() !in traversed
    ensures Canonical(g, start, tree + [q[0]])
  {
    var t := tree + [q[0]];
    HeadCanonical(g, start, target, tree, traversed, q);
    TracesKept(tree, q[0]);
    assert t[|tree|] == q[0];
    forall i | 0 <= i < |t|
      ensures ProbeFirst(g, start, t[i].Pos(), TraceAt(t, i))
    {
      if i < |tree| {
        assert t[i] == tree[i];
      }
    }
  }

  /** Expanding a new head of the queue keeps each layer of the arena in probe order. */
  lemma ExpandLayers(g: Grid, start: Coords, tree: seq<BfsNode>, traversed: set<Coords>, q: seq<BfsNode>)
    requires GoodTree(g, start, tree) && QueueLinked(g, start, tree, q)
    requires Covers(tree, traversed) && Rooted(start, tree, traversed, q)
    requires InQueueOrder(tree, tree + q) && LayerOrdered(tree)
    requires |q| > 0 && q[0].Pos() !in traversed
    ensures LayerOrdered(tree + [q[0]])
  {
    var t := tree + [q[0]];
    assert GoodNode(g, start, tree, q[0], |tree|);
    ExtendTree(g, start, tree, q[0]);
    TracesKept(tree, q[0]);
    forall i, j | 0 <= i < j < |t| && t[i].dist == t[j].dist
      ensures ProbedBefore(TraceAt(t, i), TraceAt(t, j))
    {
      assert t[i] == tree[i];
      if j < |tree| {
        assert t[j] == tree[j];
      } else {
        HeadAfterLayer(g, start, tree, q, i);
      }
    }
  }

  /** Expanding a new head of the queue keeps the order invariant. */
  lemma ExpandKeepsOrder(g: Grid, start: Coords, target: Coords,
                         tree: seq<BfsNode>, traversed: set<Coords>, q: seq<BfsNode>, added: seq<BfsNode>)
    requires BfsInv(g, start, target, tree, traversed, q) && OrderInv(g, start, tree, traversed, q)
    requires |q| > 0 && q[0].Pos() !in traversed && added == Children(g, q[0], |tree|)
    ensures OrderInv(g, start, tree + [q[0]], traversed + {q[0].Pos()}, q[1..] + added)
  {
    ExpandInOrder(g, start, tree, q, added);
    ExpandPending(g, tree, traversed, q, added);
    ExpandFirstParents(g, start, tree, traversed, q);
    ExpandCanonical(g, start, target, tree, traversed, q);
    ExpandLayers(g, start, tree, traversed, q);
  }

  /** `bfs_to`: breadth-first search from `start`. It finds the target exactly when the target is
      reachable; the chain of predecessors of the node it returns is then a walk of least length
      from the start to the target, and among those the first in probe order. */
  method BfsTo(m: Map, start: Coords, target: Coords) returns (r: Option<Found>)
    requires m.Shaped() && StrideFits(m.width, m.height)
    ensures r.None? <==> !Reachable(Terrain(m), start, target)
    ensures r.Some? ==>
              && GoodTree(Terrain(m), start, r.value.expanded)
              && GoodNode(Terrain(m), start, r.value.expanded, r.value.node, |r.value.expanded|)
              && r.value.node.Pos() == target
              && Reaches(Terrain(m), start, target, Trace(r.value.expanded, r.value.node))
              && |Trace(r.value.expanded, r.value.node)| == r.value.node.dist + 1
              && NoShorter(Terrain(m), start, target, r.value.node.dist + 1)
              && ProbeFirst(Terrain(m), start, target, Trace(r.value.expanded, r.value.node))
              && Distinct(r.value.expanded)
  {
    ghost var g := Terrain(m);
    var q: seq<BfsNode> := [BfsNode(0, None, start.x, start.y)];
    var traversed: set<Coords> := {};
    var tree: seq<BfsNode> := [];
    ghost var cells := InBounds(g.width, g.height) + {start};
    BfsInvInit(g, start, target);
    OrderInvInit(g, start);
    while |q| > 0
      invariant BfsInv(g, start, target, tree, traversed, q)
      invariant OrderInv(g, start, tree, traversed, q)
      invariant traversed <= cells
      decreases |cells - traversed|, |q|
    {
      var cur := q[0];
      ghost var tree0, traversed0, q0 := tree, traversed, q;
      q := q[1..];
      var x, y := cur.x, cur.y;

      // A coordinate already expanded is dropped.
      if Coords(x, y) in traversed {
        SkipPreserves(g, start, target, tree, traversed, q0);
        SkipKeepsOrder(g, start, tree, traversed, q0);
        continue;
      }

      VisitShrinks(g, start, target, tree, traversed, q0);
      var index := |tree|;
      traversed := traversed + {Coords(x, y)};
      tree := tree + [cur];

      // Stop at the first node on the target.
      if x == target.x && y == target.y {
        TargetFound(g, start, target, tree0, traversed0, q0);
        HeadCanonical(g, start, target, tree0, traversed0, q0);
        return Some(Found(tree, cur));
      }

      var added := ExpandNeighbours(m, cur, index, g);
      ExpandPreserves(g, start, target, tree0, traversed0, q0, added);
      ExpandKeepsOrder(g, start, target, tree0, traversed0, q0, added);
      q := q + added;
    }

    // The queue ran dry without meeting the target.
    ExhaustedUnreachable(g, start, target, tree, traversed);
    return None;
  }

  /** `PathNode`: a cell of a path and the move that leads on to the next cell, or None on the
      last cell. */
  datatype PathNode = PathNode(coords: Coords, nextMove: Option<Move>)

  /** The cells of a path, in order. */
  function Cells(p: seq<PathNode>): (cs: seq<Coords>)
    ensures |cs| == |p|
  {
    if p == [] then [] else [p[0].coords] + Cells(p[1..])
  }

  /** The i-th cell of a path is the cell of its i-th node. */
  lemma {:induction false} CellsAt(p: seq<PathNode>, i: nat)
    requires i < |p|
    ensures Cells(p)[i] == p[i].coords
    decreases i
  {
    if i > 0 {
      CellsAt(p[1..], i - 1);
    }
  }

  /** Every node but the last names the move onto the next node's cell; the last names none. */
  predicate Directed(p: seq<PathNode>)
  {
    && |p| >= 1
    && if |p| == 1 then p[0].nextMove.None?
       else p[0].nextMove.Some? && Moved(p[0].coords, p[0].nextMove.value, p[1].coords) && Directed(p[1..])
  }

  /** `Vec::reverse`: the same elements, last first. */
  function Reversed<T>(s: seq<T>): (r: seq<T>)
    ensures |r| == |s|
  {
    if s == [] then [] else [s[|s| - 1]] + Reversed(s[..|s| - 1])
  }

  /** Element i of the reversed sequence is element |s| - 1 - i of the original. */
  lemma {:induction false} ReversedAt<T>(s: seq<T>, i: nat)
    requires i < |s|
    ensures Reversed(s)[i] == s[|s| - 1 - i]
    decreases |s|
  {
    if i > 0 {
      ReversedAt(s[..|s| - 1], i - 1);
    }
  }

  /** Following a directed path from its first cell, move by move, visits its cells in order. */
  lemma {:induction false} DirectedMoves(p: seq<PathNode>, i: nat)
    requires Directed(p) && i < |p|
    ensures i < |p| - 1 ==> p[i].nextMove.Some? && Moved(p[i].coords, p[i].nextMove.value, p[i + 1].coords)
    ensures i == |p| - 1 ==> p[i].nextMove.None?
    decreases i
  {
    if i > 0 {
      DirectedMoves(p[1..], i - 1);
    }
  }

  /** Walking back one link: the node whose trace is the first k + 1 cells of a trace sits on
      cell k, and its predecessor's trace is the first k cells (there is none when k = 0). */
  lemma TraceBack(tree: seq<BfsNode>, n: BfsNode, trace: seq<Coords>, k: nat)
    requires Linked(tree) && LinksBelow(n, |tree|) && k < |trace|
    requires Trace(tree, n) == trace[..k + 1]
    ensures n.Pos() == trace[k]
    ensures n.prev.None? <==> k == 0
    ensures n.prev.Some? ==> LinksBelow(tree[n.prev.value], |tree|) && Trace(tree, tree[n.prev.value]) == trace[..k]
  {
    var t := trace[..k + 1];
    assert t[k] == trace[k];
    match n.prev
    case None =>
    case Some(j) =>
      assert LinksBelow(tree[j], j);
      var before := Trace(tree, tree[j]);
      assert t == before + [n.Pos()];
      assert t[..k] == trace[..k];
      assert before == t[..|t| - 1];
  }

  /** One round of shortest_path_to's loop, read forwards: the node for cell k of a walk, naming
      the move onto cell k + 1, goes in front of the path already collected for the cells after
      it. */
  lemma CollectStep(g: Grid, start: Coords, target: Coords, trace: seq<Coords>, k: nat,
                    forward: seq<PathNode>, node: PathNode)
    requires Reaches(g, start, target, trace) && k < |trace|
    requires k + 1 < |trace| ==> Directed(forward) && Cells(forward) == trace[k + 1..]
    requires k + 1 == |trace| ==> forward == []
    requires node.coords == trace[k]
    requires node.nextMove == if k + 1 < |trace| then MoveBetween(trace[k], trace[k + 1]) else None
    ensures Directed([node] + forward) && Cells([node] + forward) == trace[k..]
  {
    var p := [node] + forward;
    assert p[1..] == forward;
    if k + 1 < |trace| {
      assert Step(g, trace[k], trace[k + 1]);
      MoveBetweenInverts(trace[k], trace[k + 1], Up);
      assert trace[k..] == [trace[k]] + trace[k + 1..];
    }
  }

  /** When the start is the target, the one path of least length is the start alone, with no
      move to make. */
  lemma {:induction false} SameCellPath(g: Grid, s: Coords, p: seq<PathNode>)
    requires Reaches(g, s, s, Cells(p)) && Directed(p) && NoShorter(g, s, s, |p|)
    ensures p == [PathNode(s, None)]
  {
    assert Reaches(g, s, s, [s]);
    assert Cells(p)[0] == p[0].coords;
  }

  /** The loop of `shortest_path_to`: from the found node back to the root, one path node per
      BFS node, each naming the move onto the node collected before it. Collected in that
      order the nodes run backwards: reversed, they form a directed path along the node's trace. */
  method FollowBack(tree: seq<BfsNode>, found: BfsNode, ghost g: Grid, ghost start: Coords, ghost target: Coords)
    returns (path: seq<PathNode>)
    requires Linked(tree) && LinksBelow(found, |tree|)
    requires Reaches(g, start, target, Trace(tree, found))
    ensures Directed(Reversed(path)) && Cells(Reversed(path)) == Trace(tree, found)
  {
    var cur := found;
    ghost var trace := Trace(tree, found);
    ghost var n := |trace|;
    assert trace[..n] == trace;
    path := [];
    ghost var forward: seq<PathNode> := [];
    var idx := 0;
    while true
      invariant Linked(tree) && LinksBelow(cur, |tree|)
      invariant 0 <= idx < n && |path| == idx
      invariant Trace(tree, cur) == trace[..n - idx]
      invariant forward == Reversed(path)
      invariant idx > 0 ==> Directed(forward) && Cells(forward) == trace[n - idx..]
      invariant idx > 0 ==> path[idx - 1].coords == trace[n - idx]
      decreases n - idx
    {
      TraceBack(tree, cur, trace, n - 1 - idx);
      var nextMove: Option<Move> := None;
      if idx > 0 {
        var next := path[idx - 1];
        nextMove := MoveBetween(cur.Pos(), next.coords);
      }
      var node := PathNode(cur.Pos(), nextMove);
      CollectStep(g, start, target, trace, n - 1 - idx, forward, node);
      ghost var before := path;
      path := path + [node];
      forward := [node] + forward;
      assert path[..|path| - 1] == before;
      assert forward == Reversed(path);

      if cur.prev.None? {
        assert trace[n - 1 - idx..] == trace;
        break;
      }
      cur := tree[cur.prev.value];
      idx := idx + 1;
    }
  }

  /** `shortest_path_to`: a path of least length from `start` to `target`, each node naming the
      move onto the next, exactly when the target is reachable. Of several such paths it is the
      first in probe order: at the first move where two differ, Right, Left, Up, Down. */
  method ShortestPathTo(m: Map, start: Coords, target: Coords) returns (r: Option<seq<PathNode>>)
    requires m.Shaped() && StrideFits(m.width, m.height)
    ensures r.None? <==> !Reachable(Terrain(m), start, target)
    ensures r.Some? ==>
              && Reaches(Terrain(m), start, target, Cells(r.value))
              && Directed(r.value)
              && NoShorter(Terrain(m), start, target, |r.value|)
              && ProbeFirst(Terrain(m), start, target, Cells(r.value))
  {
    var found := BfsTo(m, start, target);
    if found.None? {
      return None;
    }
    ghost var g := Terrain(m);
    ghost var trace := Trace(found.value.expanded, found.value.node);
    assert Reaches(g, start, target, trace) && NoShorter(g, start, target, |trace|);

    var path := FollowBack(found.value.expanded, found.value.node, g, start, target);
    path := Reversed(path);
    assert Cells(path) == trace;
    return Some(path);
  }
}
