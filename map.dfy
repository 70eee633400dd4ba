/**
 * The occupancy map of `src/snake/map.rs`: a board snapshot turned into a grid of EMPTY, FOOD
 * and SNAKE cells. Food is written first and snake bodies second, so a body cell always wins.
 *
 * The board input keeps only what the map reads from the request (`src/snake/api.rs`): the
 * dimensions, the food coordinates and each snake's body.
 */
module SnakeMap {
  import opened SnakeUtils

  /** `BoardSpace`; its `Default` is Empty. */
  datatype BoardSpace = Empty | Snake | Food

  datatype Coords = Coords(x: nat, y: nat)

  /** The part of the request's `Board` the map reads: `bodies[i]` is `snakes[i].body`. */
  datatype Board = Board(height: nat, width: nat, food: seq<Coords>, bodies: seq<seq<Coords>>)

  /** Every food and body coordinate can be written without a panic. */
  predicate Fits(b: Board)
  {
    && (forall c | c in b.food :: Addressable(b.width, b.height, c.x, c.y))
    && (forall body, c | body in b.bodies && c in body :: Addressable(b.width, b.height, c.x, c.y))
  }

  /** A coordinate of some snake's body. */
  ghost predicate OnBody(b: Board, c: Coords)
  {
    exists body :: body in b.bodies && c in body
  }

  /** The body coordinates of all snakes, in the order Map::new writes them. */
  function Bodies(bodies: seq<seq<Coords>>): seq<Coords>
  {
    if bodies == [] then [] else Bodies(bodies[..|bodies| - 1]) + bodies[|bodies| - 1]
  }

  lemma {:induction false} BodiesMembership(bodies: seq<seq<Coords>>, c: Coords)
    ensures c in Bodies(bodies) <==> exists body :: body in bodies && c in body
  {
    if bodies != [] {
      var init := bodies[..|bodies| - 1];
      BodiesMembership(init, c);
      assert bodies == init + [bodies[|bodies| - 1]];
      if c in Bodies(init) {
        var body :| body in init && c in body;
        assert body in bodies;
      }
    }
  }

  /** The cells after writing `v` at the slot of each of `cs`, in order; a slot past the end
      of the cells (which Map::new's precondition rules out) leaves them as they are. */
  function Paint(cells: seq<BoardSpace>, height: nat, cs: seq<Coords>, v: BoardSpace): (r: seq<BoardSpace>)
    ensures |r| == |cells|
  {
    if cs == [] then cells
    else
      var r := Paint(cells, height, cs[..|cs| - 1], v);
      var s := Slot(height, cs[|cs| - 1].x, cs[|cs| - 1].y);
      if s < |r| then r[s := v] else r
  }

  /** Painting one more coordinate writes `v` at its slot over the earlier painting. */
  lemma PaintSnoc(cells: seq<BoardSpace>, height: nat, cs: seq<Coords>, c: Coords, v: BoardSpace)
    requires Slot(height, c.x, c.y) < |cells|
    ensures Paint(cells, height, cs + [c], v) == Paint(cells, height, cs, v)[Slot(height, c.x, c.y) := v]
  {
    assert (cs + [c])[..|cs|] == cs;
  }

  /** Painting two lists one after the other paints their concatenation. */
  lemma {:induction false} PaintConcat(cells: seq<BoardSpace>, height: nat, cs: seq<Coords>, ds: seq<Coords>, v: BoardSpace)
    ensures Paint(Paint(cells, height, cs, v), height, ds, v) == Paint(cells, height, cs + ds, v)
  {
    if ds != [] {
      var init, last := ds[..|ds| - 1], ds[|ds| - 1];
      PaintConcat(cells, height, cs, init, v);
      assert (cs + ds)[..|cs + ds| - 1] == cs + init;
      assert (cs + ds)[|cs + ds| - 1] == last;
    } else {
      assert cs + ds == cs;
    }
  }

  /** The slots of a list of coordinates. */
  function SlotsOf(height: nat, cs: seq<Coords>): set<nat>
  {
    set c | c in cs :: Slot(height, c.x, c.y)
  }

  /** Painting puts `v` exactly at the slots of the painted coordinates and keeps every other cell. */
  lemma {:induction false} PaintAt(cells: seq<BoardSpace>, height: nat, cs: seq<Coords>, v: BoardSpace, s: nat)
    requires s < |cells|
    ensures Paint(cells, height, cs, v)[s] == if s in SlotsOf(height, cs) then v else cells[s]
  {
    if cs != [] {
      var init, last := cs[..|cs| - 1], cs[|cs| - 1];
      PaintAt(cells, height, init, v, s);
      assert cs == init + [last];
      assert SlotsOf(height, cs) == SlotsOf(height, init) + {Slot(height, last.x, last.y)};
    }
  }

  /** A fresh vector of `width * height` default cells. */
  function Blank(width: nat, height: nat): seq<BoardSpace>
  {
    seq(width * height, _ => Empty)
  }

  /** The vector that Map::new builds: food first, then every snake body. */
  function Occupancy(b: Board): (cells: seq<BoardSpace>)
    ensures |cells| == b.width * b.height
  {
    Paint(Paint(Blank(b.width, b.height), b.height, b.food, Food), b.height, Bodies(b.bodies), Snake)
  }

  function FoodSlots(b: Board): set<nat>
  {
    SlotsOf(b.height, b.food)
  }

  function BodySlots(b: Board): set<nat>
  {
    SlotsOf(b.height, Bodies(b.bodies))
  }

  /** The cell that the map reads for an addressable coordinate. */
  function CellAt(b: Board, c: Coords): BoardSpace
    requires Addressable(b.width, b.height, c.x, c.y)
  {
    Occupancy(b)[Slot(b.height, c.x, c.y)]
  }

  /** Slot by slot: SNAKE where some body coordinate lands, otherwise FOOD where some food
      coordinate lands, otherwise the default EMPTY. */
  lemma OccupancyAt(b: Board, s: nat)
    requires s < b.width * b.height
    ensures Occupancy(b)[s] == if s in BodySlots(b) then Snake else if s in FoodSlots(b) then Food else Empty
  {
    var fed := Paint(Blank(b.width, b.height), b.height, b.food, Food);
    PaintAt(fed, b.height, Bodies(b.bodies), Snake, s);
    PaintAt(Blank(b.width, b.height), b.height, b.food, Food, s);
  }

  /** Every coordinate of every snake body reads SNAKE, on any board shape. */
  lemma BodyCellsReadSnake(b: Board, body: seq<Coords>, c: Coords)
    requires Fits(b) && body in b.bodies && c in body
    ensures Addressable(b.width, b.height, c.x, c.y) && CellAt(b, c) == Snake
  {
    BodiesMembership(b.bodies, c);
    OccupancyAt(b, Slot(b.height, c.x, c.y));
  }

  /** A food coordinate reads FOOD unless a snake body covers its slot, and SNAKE if one does. */
  lemma FoodCellsRead(b: Board, c: Coords)
    requires Fits(b) && c in b.food
    ensures Addressable(b.width, b.height, c.x, c.y)
    ensures CellAt(b, c) == if Slot(b.height, c.x, c.y) in BodySlots(b) then Snake else Food
  {
    OccupancyAt(b, Slot(b.height, c.x, c.y));
  }

  /** A coordinate whose slot no food and no body coordinate lands on reads the default EMPTY. */
  lemma UntouchedCellsReadEmpty(b: Board, c: Coords)
    requires Addressable(b.width, b.height, c.x, c.y)
    requires Slot(b.height, c.x, c.y) !in FoodSlots(b) && Slot(b.height, c.x, c.y) !in BodySlots(b)
    ensures CellAt(b, c) == Empty
  {
    OccupancyAt(b, Slot(b.height, c.x, c.y));
  }

  /** On a square board, where cells do not share slots, the map is exactly the board: SNAKE on
      every body coordinate, FOOD on every food coordinate no body covers, EMPTY elsewhere. */
  lemma SquareBoardCells(b: Board, c: Coords)
    requires Fits(b) && b.width == b.height && c.x < b.width && c.y < b.height
    ensures Addressable(b.width, b.height, c.x, c.y)
    ensures CellAt(b, c) == Snake <==> OnBody(b, c)
    ensures CellAt(b, c) == Food <==> c in b.food && !OnBody(b, c)
    ensures CellAt(b, c) == Empty <==> c !in b.food && !OnBody(b, c)
  {
    var n, s := b.width, Slot(b.height, c.x, c.y);
    SquareCellsIndependent(n, c.x, c.y, c.x, c.y);
    OccupancyAt(b, s);
    BodiesMembership(b.bodies, c);
    if s in BodySlots(b) {
      var d :| d in Bodies(b.bodies) && Slot(n, d.x, d.y) == s;
      BodiesMembership(b.bodies, d);
      SquareCellsIndependent(n, c.x, c.y, d.x, d.y);
    }
    if s in FoodSlots(b) {
      var d :| d in b.food && Slot(n, d.x, d.y) == s;
      SquareCellsIndependent(n, c.x, c.y, d.x, d.y);
    }
  }

  /** One of Map::new's loops: write `v` at every coordinate of `cs`, in order. */
  method WriteCells(grid: TwoDimensionalMap<BoardSpace>, cs: seq<Coords>, v: BoardSpace)
    requires grid.Valid()
    requires forall c | c in cs :: Addressable(grid.width, grid.height, c.x, c.y)
    modifies grid.vals
    ensures grid.vals[..] == Paint(old(grid.vals[..]), grid.height, cs, v)
  {
    for i := 0 to |cs|
      invariant grid.vals[..] == Paint(old(grid.vals[..]), grid.height, cs[..i], v)
    {
      var c := cs[i];
      grid.Set(c.x, c.y, v);
      PaintSnoc(old(grid.vals[..]), grid.height, cs[..i], c, v);
      assert cs[..i + 1] == cs[..i] + [c];
    }
    assert cs[..|cs|] == cs;
  }

  /** `Map`: the board's dimensions and the grid of cells, fixed once built. The board it was
      built from is kept as a ghost so that its cells can be stated. */
  class Map {
    const width: nat
    const height: nat
    const vals: TwoDimensionalMap<BoardSpace>
    ghost const board: Board

    /** The grid has the map's dimensions and one slot per cell. */
    ghost predicate Shaped()
      reads this, vals
    {
      vals.Valid() && vals.width == width && vals.height == height
    }

    /** The map holds the cells Map::new writes for its board. */
    ghost predicate Valid()
      reads this, vals, vals.vals
    {
      && Shaped()
      && width == board.width && height == board.height
      && vals.vals[..] == Occupancy(board)
    }

    /** `Map::new`: food first, then snakes, so that a body cell wins over food. */
    constructor (board: Board)
      requires Fits(board)
      ensures Valid() && this.board == board
      ensures width == board.width && height == board.height
      ensures fresh(vals) && fresh(vals.vals)
    {
      var grid := new TwoDimensionalMap<BoardSpace>(board.width, board.height, Empty);
      WriteCells(grid, board.food, Food);
      ghost var fed := grid.vals[..];
      for j := 0 to |board.bodies|
        invariant grid.vals[..] == Paint(fed, board.height, Bodies(board.bodies[..j]), Snake)
      {
        var body := board.bodies[j];
        assert body in board.bodies;
        WriteCells(grid, body, Snake);
        PaintConcat(fed, board.height, Bodies(board.bodies[..j]), body, Snake);
        assert board.bodies[..j + 1][..j] == board.bodies[..j];
      }
      assert board.bodies[..|board.bodies|] == board.bodies;
      width := board.width;
      height := board.height;
      vals := grid;
      this.board := board;
    }

    /** `at`: the cell of an addressable coordinate, as the board it was built from dictates. */
    function At(x: nat, y: nat): (s: BoardSpace)
      reads this, vals, vals.vals
      requires Shaped() && Addressable(width, height, x, y)
      ensures Valid() ==> s == CellAt(board, Coords(x, y))
    {
      vals.Get(x, y)
    }
  }

  /** The unit test that builds a 25 x 20 map with two food items and one three-segment snake. */
  method PopulatesFoodAndSnakesScenario() returns (food: seq<BoardSpace>, snake: seq<BoardSpace>)
    ensures food == [Food, Food]
    ensures snake == [Snake, Snake, Snake]
  {
    var body := [Coords(1, 1), Coords(1, 2), Coords(2, 2)];
    var board := Board(width := 25, height := 20, food := [Coords(22, 18), Coords(5, 2)], bodies := [body]);
    var m := new Map(board);
    assert Bodies(board.bodies) == body by {
      assert board.bodies[..0] == [];
    }
    assert BodySlots(board) == {21, 41, 42};
    FoodCellsRead(board, Coords(22, 18));
    FoodCellsRead(board, Coords(5, 2));
    BodyCellsReadSnake(board, body, Coords(1, 1));
    BodyCellsReadSnake(board, body, Coords(1, 2));
    BodyCellsReadSnake(board, body, Coords(2, 2));
    food := [m.At(22, 18), m.At(5, 2)];
    snake := [m.At(1, 1), m.At(1, 2), m.At(2, 2)];
  }
}
