/** What a random transformation does to a grid: visit every cell, column by
    column, and write the id of a symbol picked from the alphabet's listing. */
module Fill {
  import opened Grids
  import opened Alphabets

  /** Every pick the generator can make indexes the listing. */
  ghost predicate PicksInRange(pool: seq<Symbol>, index: nat -> nat) {
    forall n :: index(n) < |pool|
  }

  /** The fill after the columns before i. */
  function FillColumns(g0: GridValue, pool: seq<Symbol>, index: nat -> nat, i: nat): (r: Progress)
    requires g0.Valid() && PicksInRange(pool, index) && i <= g0.width
    ensures r.grid.Valid() && r.grid.width == g0.width && r.grid.height == g0.height
    decreases i, 0, 0
  {
    if i == 0 then Progress(g0, 0) else FillCells(g0, pool, index, i - 1, g0.height)
  }

  /** The fill after the columns before i and the cells above j in column i. */
  function FillCells(g0: GridValue, pool: seq<Symbol>, index: nat -> nat, i: nat, j: nat): (r: Progress)
    requires g0.Valid() && PicksInRange(pool, index) && i < g0.width && j <= g0.height
    ensures r.grid.Valid() && r.grid.width == g0.width && r.grid.height == g0.height
    decreases i, 1, j
  {
    if j == 0 then FillColumns(g0, pool, index, i)
    else
      var st := FillCells(g0, pool, index, i, j - 1);
      Progress(st.grid.With(i, j - 1, pool[index(st.drawn)].id), st.drawn + 1)
  }

  /** After the columns before i: one pick per visited cell, and a visited
      cell (x, y) holds the symbol of pick number x * height + y. */
  lemma {:induction false} FillColumnsCells(g0: GridValue, pool: seq<Symbol>, index: nat -> nat, i: nat)
    requires g0.Valid() && PicksInRange(pool, index) && i <= g0.width
    ensures FillColumns(g0, pool, index, i).drawn == i * g0.height
    ensures forall x, y :: g0.InBounds(x, y) ==>
              FillColumns(g0, pool, index, i).grid.Get(x, y)
              == if x < i then pool[index(x * g0.height + y)].id else g0.Get(x, y)
    decreases i, 0, 0
  {
    if i > 0 {
      FillCellsCells(g0, pool, index, i - 1, g0.height);
    }
  }

  /** The same, part-way through column i. */
  lemma {:induction false} FillCellsCells(g0: GridValue, pool: seq<Symbol>, index: nat -> nat, i: nat, j: nat)
    requires g0.Valid() && PicksInRange(pool, index) && i < g0.width && j <= g0.height
    ensures FillCells(g0, pool, index, i, j).drawn == i * g0.height + j
    ensures forall x, y :: g0.InBounds(x, y) ==>
              FillCells(g0, pool, index, i, j).grid.Get(x, y)
              == if VisitedBefore(x, y, i, j) then pool[index(x * g0.height + y)].id else g0.Get(x, y)
    decreases i, 1, j
  {
    if j == 0 {
      FillColumnsCells(g0, pool, index, i);
    } else {
      FillCellsCells(g0, pool, index, i, j - 1);
    }
  }

  /** The grid a random transformation leaves, given the k-th pick of the
      call as index(k): cell (x, y) gets pick number x * height + y. */
  function RandomFilled(g0: GridValue, pool: seq<Symbol>, index: nat -> nat): (r: GridValue)
    requires g0.Valid() && PicksInRange(pool, index)
    ensures r.Valid() && r.width == g0.width && r.height == g0.height
    ensures forall x, y :: g0.InBounds(x, y) ==> r.Get(x, y) == pool[index(x * g0.height + y)].id
  {
    FillColumnsCells(g0, pool, index, g0.width);
    FillColumns(g0, pool, index, g0.width).grid
  }

  /** Drawn from the alphabet's listing, every cell holds a registered id. */
  lemma FilledCellsRegistered(g0: GridValue, m: map<int, Symbol>, index: nat -> nat)
    requires g0.Valid() && Consistent(m) && PicksInRange(Listing(m), index)
    ensures forall x, y :: g0.InBounds(x, y) ==> RandomFilled(g0, Listing(m), index).Get(x, y) in m
  {
    ListingMembers(m);
    var pool := Listing(m);
    forall x, y | g0.InBounds(x, y) ensures RandomFilled(g0, pool, index).Get(x, y) in m {
      var s := pool[index(x * g0.height + y)];
      assert s in pool;
    }
  }

  /** With a single registered symbol the fill is deterministic: the listing
      holds just that symbol, and every cell gets its id. */
  lemma SingleSymbolFill(g0: GridValue, s: Symbol, index: nat -> nat)
    requires g0.Valid() && PicksInRange(Listing(map[s.id := s]), index)
    ensures Listing(map[s.id := s]) == [s]
    ensures forall x, y :: g0.InBounds(x, y) ==> RandomFilled(g0, Listing(map[s.id := s]), index).Get(x, y) == s.id
  {
    var m := map[s.id := s];
    ListingMembers(m);
    assert |Listing(m)| == 1;
    assert Listing(m)[0] in Listing(m);
  }
}
