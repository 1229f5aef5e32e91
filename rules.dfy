/** What a rule-based transformation does to a grid: scan every anchor,
    column by column; where the search pattern matches the grid as it stands
    at that moment, draw a number, pick a replacement by running sum, and
    paste its non-wildcard cells at the anchor. */
module Rules {
  import opened Grids
  import opened Alphabets

  datatype Option<T> = None | Some(value: T)

  datatype Replacement = Replacement(probability: real, pattern: GridValue)

  datatype Rule = Rule(search: GridValue, replacements: seq<Replacement>)

  /** p lies inside the box of s when both are anchored at the same cell. */
  predicate FitsIn(p: GridValue, s: GridValue) {
    p.Valid() && p.width <= s.width && p.height <= s.height
  }

  /** What the scan needs to stay inside the grid: a search pattern of at
      least one cell, and replacement patterns no larger than it, so that a
      replacement pasted at an accepted anchor never leaves the grid. */
  predicate WellFormed(rule: Rule) {
    && rule.search.Valid()
    && rule.search.width >= 1 && rule.search.height >= 1
    && forall k :: 0 <= k < |rule.replacements| ==> FitsIn(rule.replacements[k].pattern, rule.search)
  }

  /** The anchor test: the bottom-right cell of the search box anchored at
      (i, j) is inside g. */
  predicate WindowInside(s: GridValue, g: GridValue, i: int, j: int) {
    g.InBounds(i + s.width - 1, j + s.height - 1)
  }

  /** Search cell (x, y) accepts the grid cell under it: a wildcard accepts
      anything, any other value only itself. */
  predicate CellMatches(s: GridValue, g: GridValue, i: int, j: int, x: int, y: int)
    requires s.Valid() && g.Valid() && s.InBounds(x, y) && g.InBounds(i + x, j + y)
  {
    s.Get(x, y) == WildcardSymbol.id || g.Get(i + x, j + y) == s.Get(x, y)
  }

  predicate Matches(s: GridValue, g: GridValue, i: int, j: int)
    requires s.Valid() && g.Valid() && 0 <= i && 0 <= j
    requires i + s.width <= g.width && j + s.height <= g.height
  {
    forall x, y :: 0 <= x < s.width && 0 <= y < s.height ==> CellMatches(s, g, i, j, x, y)
  }

  /** The running sum of the first n probabilities, in list order. */
  function PrefixSum(reps: seq<Replacement>, n: nat): real
    requires n <= |reps|
  {
    if n == 0 then 0.0 else PrefixSum(reps, n - 1) + reps[n - 1].probability
  }

  /** The replacement chosen for draw r among those from index k on. */
  function SelectFrom(reps: seq<Replacement>, r: real, k: nat): (c: Option<nat>)
    requires k <= |reps|
    ensures c.Some? ==> k <= c.value < |reps| && r <= PrefixSum(reps, c.value + 1)
    ensures c.Some? ==> forall n :: k < n <= c.value ==> PrefixSum(reps, n) < r
    ensures c.None? ==> forall n :: k < n <= |reps| ==> PrefixSum(reps, n) < r
    decreases |reps| - k
  {
    if k == |reps| then None
    else if r <= PrefixSum(reps, k + 1) then Some(k)
    else SelectFrom(reps, r, k + 1)
  }

  /** The replacement chosen for draw r: the first one whose running sum
      reaches r, or none when the whole sum stays below r. */
  function Select(reps: seq<Replacement>, r: real): (c: Option<nat>)
    ensures c.Some? ==> c.value < |reps| && r <= PrefixSum(reps, c.value + 1)
    ensures c.Some? ==> forall n :: 0 < n <= c.value ==> PrefixSum(reps, n) < r
    ensures c.None? ==> forall n :: 0 < n <= |reps| ==> PrefixSum(reps, n) < r
  {
    SelectFrom(reps, r, 0)
  }

  /** The value that pasting p at (i, j) gives cell (x, y) of g: the pattern's
      value where the pattern covers the cell with a non-wildcard, the old
      value elsewhere. */
  function PastedCell(g: GridValue, p: GridValue, i: int, j: int, x: int, y: int): int
    requires g.Valid() && p.Valid() && g.InBounds(x, y)
  {
    if p.InBounds(x - i, y - j) && p.Get(x - i, y - j) != WildcardSymbol.id
    then p.Get(x - i, y - j) else g.Get(x, y)
  }

  /** Pasting the pattern columns before x. */
  function PasteColumns(g: GridValue, p: GridValue, i: nat, j: nat, x: nat): (r: GridValue)
    requires g.Valid() && p.Valid() && x <= p.width
    requires i + p.width <= g.width && j + p.height <= g.height
    ensures r.Valid() && r.width == g.width && r.height == g.height
    ensures forall cx, cy :: g.InBounds(cx, cy) ==>
              r.Get(cx, cy) == if cx - i < x then PastedCell(g, p, i, j, cx, cy) else g.Get(cx, cy)
    decreases x, 0, 0
  {
    if x == 0 then g else PasteCells(g, p, i, j, x - 1, p.height)
  }

  /** Pasting the pattern columns before x and the cells above y in column x,
      in the order of the nested write loops. */
  function PasteCells(g: GridValue, p: GridValue, i: nat, j: nat, x: nat, y: nat): (r: GridValue)
    requires g.Valid() && p.Valid() && x < p.width && y <= p.height
    requires i + p.width <= g.width && j + p.height <= g.height
    ensures r.Valid() && r.width == g.width && r.height == g.height
    ensures forall cx, cy :: g.InBounds(cx, cy) ==>
              r.Get(cx, cy) == if VisitedBefore(cx - i, cy - j, x, y) then PastedCell(g, p, i, j, cx, cy) else g.Get(cx, cy)
    decreases x, 1, y
  {
    if y == 0 then PasteColumns(g, p, i, j, x)
    else
      var h := PasteCells(g, p, i, j, x, y - 1);
      var v := p.Get(x, y - 1);
      if v == WildcardSymbol.id then h else h.With(i + x, j + y - 1, v)
  }

  /** g with the non-wildcard cells of p written at anchor (i, j). */
  function Pasted(g: GridValue, p: GridValue, i: nat, j: nat): (r: GridValue)
    requires g.Valid() && p.Valid()
    requires i + p.width <= g.width && j + p.height <= g.height
    ensures r.Valid() && r.width == g.width && r.height == g.height
    ensures forall x, y :: g.InBounds(x, y) ==> r.Get(x, y) == PastedCell(g, p, i, j, x, y)
  {
    PasteColumns(g, p, i, j, p.width)
  }

  /** One anchor of the scan. The match is tested against the grid as it
      stands, including what earlier anchors wrote; a match takes one draw. */
  function Step(rule: Rule, st: Progress, i: nat, j: nat, uniform: nat -> real): (r: Progress)
    requires WellFormed(rule) && st.grid.Valid()
    ensures r.grid.Valid() && r.grid.width == st.grid.width && r.grid.height == st.grid.height
  {
    var s := rule.search;
    if !WindowInside(s, st.grid, i, j) || !Matches(s, st.grid, i, j) then st
    else
      match Select(rule.replacements, uniform(st.drawn))
      case None => Progress(st.grid, st.drawn + 1)
      case Some(k) => Progress(Pasted(st.grid, rule.replacements[k].pattern, i, j), st.drawn + 1)
  }

  /** The scan after the anchor columns before i. */
  function AfterColumns(rule: Rule, g0: GridValue, uniform: nat -> real, i: nat): (r: Progress)
    requires WellFormed(rule) && g0.Valid() && i <= g0.width
    ensures r.grid.Valid() && r.grid.width == g0.width && r.grid.height == g0.height
    decreases i, 0, 0
  {
    if i == 0 then Progress(g0, 0) else AfterAnchors(rule, g0, uniform, i - 1, g0.height)
  }

  /** The scan after the anchor columns before i and the anchors above j in
      column i. */
  function AfterAnchors(rule: Rule, g0: GridValue, uniform: nat -> real, i: nat, j: nat): (r: Progress)
    requires WellFormed(rule) && g0.Valid() && i < g0.width && j <= g0.height
    ensures r.grid.Valid() && r.grid.width == g0.width && r.grid.height == g0.height
    decreases i, 1, j
  {
    if j == 0 then AfterColumns(rule, g0, uniform, i)
    else Step(rule, AfterAnchors(rule, g0, uniform, i, j - 1), i, j - 1, uniform)
  }

  /** The grid a rule-based transformation leaves, given the k-th uniform
      draw of the call as uniform(k). */
  function Rewritten(rule: Rule, g0: GridValue, uniform: nat -> real): (r: GridValue)
    requires WellFormed(rule) && g0.Valid()
    ensures r.Valid() && r.width == g0.width && r.height == g0.height
  {
    AfterColumns(rule, g0, uniform, g0.width).grid
  }

  // ---------------------------------------------------------------------
  // Properties of the scan
  // ---------------------------------------------------------------------

  /** With no replacements a match selects nothing, so no anchor writes. */
  lemma {:induction false} NoReplacementColumns(rule: Rule, g0: GridValue, uniform: nat -> real, i: nat)
    requires WellFormed(rule) && g0.Valid() && i <= g0.width && rule.replacements == []
    ensures AfterColumns(rule, g0, uniform, i).grid == g0
    decreases i, 0, 0
  {
    if i > 0 {
      NoReplacementAnchors(rule, g0, uniform, i - 1, g0.height);
    }
  }

  lemma {:induction false} NoReplacementAnchors(rule: Rule, g0: GridValue, uniform: nat -> real, i: nat, j: nat)
    requires WellFormed(rule) && g0.Valid() && i < g0.width && j <= g0.height && rule.replacements == []
    ensures AfterAnchors(rule, g0, uniform, i, j).grid == g0
    decreases i, 1, j
  {
    if j == 0 {
      NoReplacementColumns(rule, g0, uniform, i);
    } else {
      NoReplacementAnchors(rule, g0, uniform, i, j - 1);
    }
  }

  /** A rule without replacements leaves every grid as it was. */
  lemma NoReplacementKeepsGrid(rule: Rule, g0: GridValue, uniform: nat -> real)
    requires WellFormed(rule) && g0.Valid() && rule.replacements == []
    ensures Rewritten(rule, g0, uniform) == g0
  {
    NoReplacementColumns(rule, g0, uniform, g0.width);
  }

  /** The scan fires replacement k at anchor (a, b): the window fits there,
      the search matches the grid as the scan has left it on reaching that
      anchor, and the draw taken there selects k. */
  ghost predicate FiredAt(rule: Rule, g0: GridValue, uniform: nat -> real, a: nat, b: nat, k: nat)
    requires WellFormed(rule) && g0.Valid()
  {
    && a < g0.width && b < g0.height
    && var st := AfterAnchors(rule, g0, uniform, a, b);
    && WindowInside(rule.search, st.grid, a, b)
    && Matches(rule.search, st.grid, a, b)
    && Select(rule.replacements, uniform(st.drawn)) == Some(k)
  }

  /** Some replacement that the scan fires at an anchor (a, b) holds the
      non-wildcard value v at offset (x - a, y - b), so its paste writes v
      onto cell (x, y). */
  ghost predicate Writable(rule: Rule, g0: GridValue, uniform: nat -> real, x: int, y: int, v: int)
    requires WellFormed(rule) && g0.Valid()
  {
    && v != WildcardSymbol.id
    && exists a: nat, b: nat, k: nat ::
         && FiredAt(rule, g0, uniform, a, b, k)
         && k < |rule.replacements|
         && rule.replacements[k].pattern.InBounds(x - a, y - b)
         && rule.replacements[k].pattern.Get(x - a, y - b) == v
  }

  /** Every cell of g either still holds its value in g0 or holds a value
      that a fired replacement writes there. */
  ghost predicate OnlyReplacementWrites(rule: Rule, g0: GridValue, uniform: nat -> real, g: GridValue)
    requires WellFormed(rule) && g0.Valid() && g.Valid()
  {
    && g.width == g0.width && g.height == g0.height
    && forall x, y :: g0.InBounds(x, y) ==> g.Get(x, y) == g0.Get(x, y) || Writable(rule, g0, uniform, x, y, g.Get(x, y))
  }

  lemma StepOnlyReplacementWrites(rule: Rule, g0: GridValue, uniform: nat -> real, i: nat, j: nat)
    requires WellFormed(rule) && g0.Valid() && i < g0.width && j < g0.height
    requires OnlyReplacementWrites(rule, g0, uniform, AfterAnchors(rule, g0, uniform, i, j).grid)
    ensures OnlyReplacementWrites(rule, g0, uniform, AfterAnchors(rule, g0, uniform, i, j + 1).grid)
  {
    var st := AfterAnchors(rule, g0, uniform, i, j);
    assert AfterAnchors(rule, g0, uniform, i, j + 1) == Step(rule, st, i, j, uniform);
    var s := rule.search;
    if WindowInside(s, st.grid, i, j) && Matches(s, st.grid, i, j) {
      var c := Select(rule.replacements, uniform(st.drawn));
      if c.Some? {
        var k := c.value;
        assert FiredAt(rule, g0, uniform, i, j, k);
        var p := rule.replacements[k].pattern;
        var g := Pasted(st.grid, p, i, j);
        forall x, y | g0.InBounds(x, y)
          ensures g.Get(x, y) == g0.Get(x, y) || Writable(rule, g0, uniform, x, y, g.Get(x, y))
        {
          if p.InBounds(x - i, y - j) && p.Get(x - i, y - j) != WildcardSymbol.id {
            assert FiredAt(rule, g0, uniform, i, j, k) && p.Get(x - i, y - j) == g.Get(x, y);
          }
        }
      }
    }
  }

  lemma {:induction false} OnlyReplacementColumns(rule: Rule, g0: GridValue, uniform: nat -> real, i: nat)
    requires WellFormed(rule) && g0.Valid() && i <= g0.width
    ensures OnlyReplacementWrites(rule, g0, uniform, AfterColumns(rule, g0, uniform, i).grid)
    decreases i, 0, 0
  {
    if i > 0 {
      OnlyReplacementAnchors(rule, g0, uniform, i - 1, g0.height);
    }
  }

  lemma {:induction false} OnlyReplacementAnchors(rule: Rule, g0: GridValue, uniform: nat -> real, i: nat, j: nat)
    requires WellFormed(rule) && g0.Valid() && i < g0.width && j <= g0.height
    ensures OnlyReplacementWrites(rule, g0, uniform, AfterAnchors(rule, g0, uniform, i, j).grid)
    decreases i, 1, j
  {
    if j == 0 {
      OnlyReplacementColumns(rule, g0, uniform, i);
    } else {
      OnlyReplacementAnchors(rule, g0, uniform, i, j - 1);
      StepOnlyReplacementWrites(rule, g0, uniform, i, j - 1);
    }
  }

  /** A cell changes only when some anchor's search matched the grid as the
      scan had left it, the draw there selected a replacement, and that
      replacement holds the cell's new, non-wildcard value at the cell's
      offset from the anchor. */
  lemma ChangedOnlyByReplacement(rule: Rule, g0: GridValue, uniform: nat -> real, x: int, y: int)
    requires WellFormed(rule) && g0.Valid() && g0.InBounds(x, y)
    requires Rewritten(rule, g0, uniform).Get(x, y) != g0.Get(x, y)
    ensures Writable(rule, g0, uniform, x, y, Rewritten(rule, g0, uniform).Get(x, y))
  {
    OnlyReplacementColumns(rule, g0, uniform, g0.width);
  }

  // ---------------------------------------------------------------------
  // The deterministic case: a one-cell rule that always fires
  // ---------------------------------------------------------------------

  /** The rule "every v becomes w": a 1x1 search v and one 1x1 replacement w
      of probability 1. */
  function Recolor(v: int, w: int): (rule: Rule)
    ensures WellFormed(rule)
  {
    Rule(GridValue(1, 1, [v]), [Replacement(1.0, GridValue(1, 1, [w]))])
  }

  function Recolored(g0: GridValue, v: int, w: int, x: int, y: int): int
    requires g0.Valid() && g0.InBounds(x, y)
  {
    if g0.Get(x, y) == v then w else g0.Get(x, y)
  }

  /** After the anchors visited so far, exactly the visited cells are recolored. */
  ghost predicate RecoloredBefore(g0: GridValue, g: GridValue, v: int, w: int, i: int, j: int)
    requires g0.Valid() && g.Valid()
  {
    && g.width == g0.width && g.height == g0.height
    && forall x, y :: g0.InBounds(x, y) ==>
         g.Get(x, y) == if VisitedBefore(x, y, i, j) then Recolored(g0, v, w, x, y) else g0.Get(x, y)
  }

  lemma RecolorStep(g0: GridValue, st: Progress, v: int, w: int, i: nat, j: nat, uniform: nat -> real)
    requires v != WildcardSymbol.id && w != WildcardSymbol.id
    requires forall n :: uniform(n) <= 1.0
    requires g0.Valid() && st.grid.Valid() && g0.InBounds(i, j)
    requires RecoloredBefore(g0, st.grid, v, w, i, j)
    ensures RecoloredBefore(g0, Step(Recolor(v, w), st, i, j, uniform).grid, v, w, i, j + 1)
  {
    var rule := Recolor(v, w);
    var s := rule.search;
    assert s.Get(0, 0) == v;
    assert WindowInside(s, st.grid, i, j);
    assert st.grid.Get(i, j) == g0.Get(i, j);
    if g0.Get(i, j) == v {
      assert CellMatches(s, st.grid, i, j, 0, 0);
      assert Matches(s, st.grid, i, j);
      assert PrefixSum(rule.replacements, 1) == 1.0;
      var c := Select(rule.replacements, uniform(st.drawn));
      assert c == Some(0);
      var p := rule.replacements[0].pattern;
      assert p.Get(0, 0) == w;
    } else {
      assert !CellMatches(s, st.grid, i, j, 0, 0);
    }
  }

  /** The anchor (i, j) of the scan extends the recolored region by one cell. */
  lemma RecolorAnchorStep(g0: GridValue, v: int, w: int, uniform: nat -> real, i: nat, j: nat)
    requires v != WildcardSymbol.id && w != WildcardSymbol.id
    requires forall n :: uniform(n) <= 1.0
    requires g0.Valid() && i < g0.width && j < g0.height
    requires RecoloredBefore(g0, AfterAnchors(Recolor(v, w), g0, uniform, i, j).grid, v, w, i, j)
    ensures RecoloredBefore(g0, AfterAnchors(Recolor(v, w), g0, uniform, i, j + 1).grid, v, w, i, j + 1)
  {
    var st := AfterAnchors(Recolor(v, w), g0, uniform, i, j);
    assert AfterAnchors(Recolor(v, w), g0, uniform, i, j + 1) == Step(Recolor(v, w), st, i, j, uniform);
    RecolorStep(g0, st, v, w, i, j, uniform);
  }

  /** Past the last anchor of column i is the start of column i + 1. */
  lemma RecoloredColumnDone(g0: GridValue, g: GridValue, v: int, w: int, i: int)
    requires g0.Valid() && g.Valid()
    requires RecoloredBefore(g0, g, v, w, i, g0.height)
    ensures RecoloredBefore(g0, g, v, w, i + 1, 0)
  {
  }

  lemma {:induction false} RecolorColumns(g0: GridValue, v: int, w: int, uniform: nat -> real, i: nat)
    requires v != WildcardSymbol.id && w != WildcardSymbol.id
    requires forall n :: uniform(n) <= 1.0
    requires g0.Valid() && i <= g0.width
    ensures RecoloredBefore(g0, AfterColumns(Recolor(v, w), g0, uniform, i).grid, v, w, i, 0)
    decreases i, 0, 0
  {
    if i > 0 {
      RecolorAnchors(g0, v, w, uniform, i - 1, g0.height);
      RecoloredColumnDone(g0, AfterColumns(Recolor(v, w), g0, uniform, i).grid, v, w, i - 1);
    }
  }

  lemma {:induction false} RecolorAnchors(g0: GridValue, v: int, w: int, uniform: nat -> real, i: nat, j: nat)
    requires v != WildcardSymbol.id && w != WildcardSymbol.id
    requires forall n :: uniform(n) <= 1.0
    requires g0.Valid() && i < g0.width && j <= g0.height
    ensures RecoloredBefore(g0, AfterAnchors(Recolor(v, w), g0, uniform, i, j).grid, v, w, i, j)
    decreases i, 1, j
  {
    if j == 0 {
      RecolorColumns(g0, v, w, uniform, i);
    } else {
      RecolorAnchors(g0, v, w, uniform, i, j - 1);
      RecolorAnchorStep(g0, v, w, uniform, i, j - 1);
    }
  }

  /** A one-cell rule v -> w of probability 1 turns every v into w and leaves
      every other cell alone, whatever the draws in [0, 1]. */
  lemma RecolorReplacesEvery(g0: GridValue, v: int, w: int, uniform: nat -> real)
    requires v != WildcardSymbol.id && w != WildcardSymbol.id
    requires forall n :: 0.0 <= uniform(n) <= 1.0
    requires g0.Valid()
    ensures forall x, y :: g0.InBounds(x, y) ==>
              Rewritten(Recolor(v, w), g0, uniform).Get(x, y) == Recolored(g0, v, w, x, y)
  {
    RecolorColumns(g0, v, w, uniform, g0.width);
  }
}
