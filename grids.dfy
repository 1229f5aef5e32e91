/** The grid of grid_synth: a row-major store of integer cells with a width
    and a height. Cell (x, y) lives at position y * width + x. */
module Grids {

  /** y * w + x addresses one of the w * h cells when (x, y) is inside the grid. */
  lemma IndexInRange(w: nat, h: nat, x: int, y: int)
    requires 0 <= x < w && 0 <= y < h
    ensures 0 <= y * w + x < w * h
  {
    MulMonotone(y, h - 1, w);
    assert (h - 1) * w + w == h * w;
  }

  /** Two cells inside the grid never share a position in the store. */
  lemma IndexInjective(w: nat, h: nat, x: int, y: int, x': int, y': int)
    requires 0 <= x < w && 0 <= y < h
    requires 0 <= x' < w && 0 <= y' < h
    requires y * w + x == y' * w + x'
    ensures x == x' && y == y'
  {
    if y < y' {
      assert (y + 1) * w == y * w + w;
      MulMonotone(y + 1, y', w);
    } else if y' < y {
      assert (y' + 1) * w == y' * w + w;
      MulMonotone(y' + 1, y, w);
    }
  }

  lemma MulMonotone(a: nat, b: nat, c: nat)
    requires a <= b
    ensures a * c <= b * c
  {
  }

  /** The value of a grid: its dimensions and its cells. Search and
      replacement patterns are grids held by value. */
  datatype GridValue = GridValue(width: nat, height: nat, cells: seq<int>)
  {
    /** The store holds exactly width * height cells. */
    predicate Valid() {
      |cells| == width * height
    }

    predicate InBounds(x: int, y: int) {
      0 <= x < width && 0 <= y < height
    }

    /** Position of cell (x, y) in the row-major store. */
    function Index(x: int, y: int): int {
      y * width + x
    }

    /** Reads cell (x, y): the store entry at its row-major position, which
        lies inside the store. */
    function Get(x: int, y: int): (r: int)
      requires Valid() && InBounds(x, y)
      ensures 0 <= y * width + x < |cells| && r == cells[y * width + x]
    {
      IndexInRange(width, height, x, y);
      cells[Index(x, y)]
    }

    /** This grid with cell (x, y) overwritten by v. */
    function With(x: int, y: int, v: int): (r: GridValue)
      requires Valid() && InBounds(x, y)
      ensures r.Valid() && r.width == width && r.height == height
      ensures forall x', y' :: InBounds(x', y') ==>
                r.Get(x', y') == if x' == x && y' == y then v else Get(x', y')
    {
      IndexInRange(width, height, x, y);
      var r := GridValue(width, height, cells[Index(x, y) := v]);
      forall x', y' | InBounds(x', y')
        ensures r.Get(x', y') == if x' == x && y' == y then v else Get(x', y')
      {
        IndexInRange(width, height, x', y');
        if Index(x', y') == Index(x, y) {
          IndexInjective(width, height, x, y, x', y');
        }
      }
      r
    }
  }

  /** A grid of the given size with every cell equal to value. */
  function Filled(width: nat, height: nat, value: int): (g: GridValue)
    ensures g.Valid() && g.width == width && g.height == height
    ensures forall x, y :: g.InBounds(x, y) ==> g.Get(x, y) == value
  {
    var g := GridValue(width, height, seq(width * height, _ => value));
    forall x, y | g.InBounds(x, y) ensures g.Get(x, y) == value {
      IndexInRange(width, height, x, y);
    }
    g
  }

  /** A grid part-way through a cell-by-cell rewrite, with the number of
      random draws taken so far. */
  datatype Progress = Progress(grid: GridValue, drawn: nat)

  /** Whether cell (x, y) comes before cell (i, j) when cells are visited
      column by column: x in the outer loop, y in the inner loop. */
  predicate VisitedBefore(x: int, y: int, i: int, j: int) {
    x < i || (x == i && y < j)
  }

  /** The engine's mutable grid. */
  class Grid {
    var width: nat
    var height: nat
    var cells: seq<int>

    predicate Valid()
      reads this
    {
      Value().Valid()
    }

    function Value(): GridValue
      reads this
    {
      GridValue(width, height, cells)
    }

    /** A width x height grid whose every cell is defaultValue: resizing the
        empty store fills every new cell. */
    constructor (width: nat := 10, height: nat := 10, defaultValue: int := 0)
      ensures Valid() && this.width == width && this.height == height
      ensures forall x, y :: Value().InBounds(x, y) ==> Value().Get(x, y) == defaultValue
    {
      this.width, this.height, cells := 0, 0, [];
      new;
      Resize(width, height, defaultValue);
      forall x, y | Value().InBounds(x, y) ensures Value().Get(x, y) == defaultValue {
        IndexInRange(width, height, x, y);
      }
    }

    /** The only guard: a cell inside the bounds has a place in the store. */
    predicate InBounds(x: int, y: int)
      reads this
      ensures InBounds(x, y) && Valid() ==> 0 <= y * width + x < |cells|
    {
      if Value().InBounds(x, y) then IndexInRange(width, height, x, y); true else false
    }

    /** Reads one cell; the const indexed accessor reads the same way. */
    function Get(x: int, y: int): (r: int)
      reads this
      requires Valid() && InBounds(x, y)
      ensures 0 <= y * width + x < |cells| && r == cells[y * width + x]
    {
      Value().Get(x, y)
    }

    /** Writes one cell; the indexed accessor writes the same way. */
    method Set(x: int, y: int, v: int)
      requires Valid() && InBounds(x, y)
      modifies this
      ensures Valid() && width == old(width) && height == old(height)
      ensures Value() == old(Value()).With(x, y, v)
    {
      IndexInRange(width, height, x, y);
      cells := cells[y * width + x := v];
    }

    /** Resizes the store like a vector resize: the first cells keep their
        values in linear order and only the added cells get defaultValue. */
    method Resize(newWidth: nat, newHeight: nat, defaultValue: int := 0)
      modifies this
      ensures Valid() && width == newWidth && height == newHeight
      ensures forall k :: 0 <= k < |cells| && k < |old(cells)| ==> cells[k] == old(cells)[k]
      ensures forall k :: |old(cells)| <= k < |cells| ==> cells[k] == defaultValue
    {
      var n := newWidth * newHeight;
      width, height := newWidth, newHeight;
      if n <= |cells| {
        cells := cells[..n];
      } else {
        cells := cells + seq(n - |cells|, _ => defaultValue);
      }
    }

    /** Overwrites every cell with value, keeping the dimensions. */
    method Clear(value: int := 0)
      requires Valid()
      modifies this
      ensures Valid() && width == old(width) && height == old(height)
      ensures forall x, y :: Value().InBounds(x, y) ==> Value().Get(x, y) == value
    {
      cells := seq(|cells|, _ => value);
      forall x, y | Value().InBounds(x, y) ensures Value().Get(x, y) == value {
        IndexInRange(width, height, x, y);
      }
    }
  }
}
