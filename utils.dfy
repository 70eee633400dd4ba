/**
 * The flat two-dimensional array of `src/snake/utils.rs`: `width * height` cells kept in one
 * vector, read and written through coordinate pairs (x, y).
 *
 * The slot of cell (x, y) is `y * height + x`, exactly as the source computes it (the stride is
 * the height, not the width). The lemmas at the end of this module say precisely on which board
 * shapes that formula keeps every in-bounds cell inside the vector and gives distinct cells
 * distinct slots.
 */
module SnakeUtils {

  /** The vector slot that both `index` and `index_mut` use for cell (x, y). */
  function Slot(height: nat, x: nat, y: nat): nat
  {
    y * height + x
  }

  /** A read or write of (x, y) neither trips one of the two coordinate assertions nor
      indexes past the end of the vector. */
  predicate Addressable(width: nat, height: nat, x: nat, y: nat)
  {
    x < width && y < height && Slot(height, x, y) < width * height
  }

  /** The board shapes on which every in-bounds cell is addressable (see SlotsFitIff). */
  predicate StrideFits(width: nat, height: nat)
  {
    width == 0 || height <= 1 || height <= width
  }

  /** The board shapes on which distinct in-bounds cells have distinct slots (see SlotsInjectiveIff). */
  predicate StrideSeparates(width: nat, height: nat)
  {
    width <= height || height <= 1
  }

  lemma MulMonotone(a: nat, b: nat, c: nat)
    requires a <= b
    ensures a * c <= b * c
  {
    var d := b - a;
    assert b * c == a * c + d * c;
  }

  /** Row y of a grid with stride `height` starts past every cell of the rows above it. */
  lemma RowsDoNotOverlap(height: nat, x1: nat, y1: nat, x2: nat, y2: nat)
    requires x1 < height && y1 < y2
    ensures Slot(height, x1, y1) < Slot(height, x2, y2)
  {
    MulMonotone(y1 + 1, y2, height);
    assert (y1 + 1) * height == y1 * height + height;
  }

  /** On the shapes StrideFits names, the slot of an in-bounds cell lies inside the vector. */
  lemma SlotFits(width: nat, height: nat, x: nat, y: nat)
    requires StrideFits(width, height) && x < width && y < height
    ensures Slot(height, x, y) < width * height
  {
    if height <= 1 {
      assert y == 0 && height == 1;
    } else {
      var a := height - 1;
      MulMonotone(y, a, height);
      MulMonotone(height, width, a);
      assert y * height <= a * width;
      assert width * height == width * a + width by {
        assert height == a + 1;
      }
    }
  }

  /** On a board taller than it is wide and at least two rows high, the last cell of the last row
      lies past the end of the vector. */
  lemma LastSlotOverflows(width: nat, height: nat)
    requires !StrideFits(width, height)
    ensures Slot(height, width - 1, height - 1) >= width * height
  {
    var a, d := height - 1, height - width;
    assert a * height == a * width + a * d by {
      assert height == width + d;
    }
    MulMonotone(1, d, a);
    assert (a + 1) * width == a * width + width;
  }

  /** Every in-bounds cell has its slot inside the vector of `width * height` cells exactly on
      the shapes StrideFits names. */
  lemma SlotsFitIff(width: nat, height: nat)
    ensures (forall x: nat, y: nat :: x < width && y < height ==> Slot(height, x, y) < width * height)
            <==> StrideFits(width, height)
  {
    if StrideFits(width, height) {
      forall x: nat, y: nat | x < width && y < height
        ensures Slot(height, x, y) < width * height
      {
        SlotFits(width, height, x, y);
      }
    } else {
      LastSlotOverflows(width, height);
    }
  }

  /** Distinct in-bounds cells have distinct slots exactly on the shapes StrideSeparates names;
      on a board wider than it is tall (and at least two rows high) the cells (height, 0) and
      (0, 1) share slot `height`. */
  lemma SlotsInjectiveIff(width: nat, height: nat)
    ensures (forall x1: nat, y1: nat, x2: nat, y2: nat ::
               (x1 < width && y1 < height && x2 < width && y2 < height &&
                Slot(height, x1, y1) == Slot(height, x2, y2)) ==> x1 == x2 && y1 == y2)
            <==> StrideSeparates(width, height)
  {
    if StrideSeparates(width, height) {
      forall x1: nat, y1: nat, x2: nat, y2: nat |
        x1 < width && y1 < height && x2 < width && y2 < height &&
        Slot(height, x1, y1) == Slot(height, x2, y2)
        ensures x1 == x2 && y1 == y2
      {
        if y1 < y2 {
          RowsDoNotOverlap(height, x1, y1, x2, y2);
        } else if y2 < y1 {
          RowsDoNotOverlap(height, x2, y2, x1, y1);
        }
      }
    } else {
      assert Slot(height, height, 0) == Slot(height, 0, 1);
    }
  }

  /** On a square board every in-bounds cell has its own slot inside the vector. */
  lemma SquareCellsIndependent(n: nat, x1: nat, y1: nat, x2: nat, y2: nat)
    requires x1 < n && y1 < n && x2 < n && y2 < n
    ensures Addressable(n, n, x1, y1) && Addressable(n, n, x2, y2)
    ensures Slot(n, x1, y1) == Slot(n, x2, y2) <==> x1 == x2 && y1 == y2
  {
    SlotsFitIff(n, n);
    SlotsInjectiveIff(n, n);
  }

  /** `TwoDimensionalMap<T>`: the dimensions are fixed when the map is built (`const`), and the
      vector `vals` is updated in place through Set. */
  class TwoDimensionalMap<T> {
    const width: nat
    const height: nat
    const vals: array<T>

    ghost predicate Valid()
      reads this
    {
      vals.Length == width * height
    }

    /** `new`: `width * height` slots, each holding the default value. */
    constructor (width: nat, height: nat, default: T)
      ensures Valid() && fresh(vals)
      ensures this.width == width && this.height == height
      ensures vals[..] == seq(width * height, _ => default)
      ensures forall x: nat, y: nat :: Addressable(width, height, x, y) ==> Get(x, y) == default
    {
      this.width := width;
      this.height := height;
      vals := new T[width * height](_ => default);
    }

    /** `index`: the value stored for cell (x, y). */
    function Get(x: nat, y: nat): T
      reads this, vals
      requires Valid() && Addressable(width, height, x, y)
    {
      vals[Slot(height, x, y)]
    }

    /** `index_mut` followed by an assignment through the returned reference. */
    method Set(x: nat, y: nat, v: T)
      requires Valid() && Addressable(width, height, x, y)
      modifies vals
      ensures vals[..] == old(vals[..])[Slot(height, x, y) := v]
      ensures Get(x, y) == v
      ensures width == height ==>
                forall x': nat, y': nat :: x' < width && y' < height && (x', y') != (x, y) ==>
                  Addressable(width, height, x', y') && Get(x', y') == old(Get(x', y'))
    {
      vals[Slot(height, x, y)] := v;
      if width == height {
        forall x': nat, y': nat | x' < width && y' < height && (x', y') != (x, y)
          ensures Addressable(width, height, x', y') && Get(x', y') == old(Get(x', y'))
        {
          SquareCellsIndependent(width, x, y, x', y');
        }
      }
    }
  }

  /** The unit test that writes two cells of a 30 x 30 map and reads both back. */
  method AddValuesScenario() returns (first: int, second: int)
    ensures first == 15 && second == -12
  {
    var arr := new TwoDimensionalMap<int>(30, 30, 0);
    arr.Set(25, 20, 15);
    arr.Set(13, 9, -12);
    first := arr.Get(25, 20);
    second := arr.Get(13, 9);
  }

  /** The two unit tests that expect a panic: each coordinate is rejected by its own assertion. */
  lemma OutOfBoundsScenario()
    ensures !Addressable(30, 30, 31, 15)
    ensures !Addressable(30, 30, 15, 31)
  {
  }
}
