/** The transformations of grid_synth: named, switchable rewrites of one grid
    in place. The two kinds are a tagged variant; apply dispatches on it. */
module Transformations {
  import opened Grids
  import opened Alphabets
  import opened Rules
  import opened Fill

  datatype Kind = RandomFill | RuleBased(rule: Rule)

  /** The numbers one apply call takes from its random generator: the n-th
      uniform real in [0, 1] for the rule matches, and the n-th index into the
      symbol listing for the random fill. */
  datatype Draws = Draws(uniform: nat -> real, index: nat -> nat)

  /** What apply demands before it runs: a random fill needs every pick to
      index the listing, which also makes the listing non-empty (the pick
      range ends at size() - 1); a rule needs a well-formed search and
      replacements. */
  ghost predicate Runnable(kind: Kind, pool: seq<Symbol>, draws: Draws) {
    match kind
    case RandomFill => PicksInRange(pool, draws.index)
    case RuleBased(rule) => WellFormed(rule)
  }

  /** The grid one apply call leaves, for either kind. */
  ghost function Applied(kind: Kind, g: GridValue, pool: seq<Symbol>, draws: Draws): (r: GridValue)
    requires g.Valid() && Runnable(kind, pool, draws)
    ensures r.Valid() && r.width == g.width && r.height == g.height
  {
    match kind
    case RandomFill => RandomFilled(g, pool, draws.index)
    case RuleBased(rule) => Rewritten(rule, g, draws.uniform)
  }

  /** A transformation as the pipeline sees it: whether it runs, what it
      does, and the listing of the alphabet it draws symbols from. */
  datatype Stage = Stage(name: string, enabled: bool, kind: Kind, pool: seq<Symbol>)

  /** The search loops of the rule-based apply: whether s matches g anchored
      at (i, j), stopping a column early at the first mismatch. */
  method MatchesAt(g: Grid, s: GridValue, i: nat, j: nat) returns (isMatch: bool)
    requires g.Valid() && s.Valid()
    requires i + s.width <= g.width && j + s.height <= g.height
    ensures isMatch == Matches(s, g.Value(), i, j)
  {
    ghost var gv := g.Value();
    isMatch := true;
    for x := 0 to s.width
      invariant isMatch <==> forall x', y' :: 0 <= x' < x && 0 <= y' < s.height ==> CellMatches(s, gv, i, j, x', y')
    {
      for y := 0 to s.height
        invariant isMatch <==>
          && (forall x', y' :: 0 <= x' < x && 0 <= y' < s.height ==> CellMatches(s, gv, i, j, x', y'))
          && (forall y' :: 0 <= y' < y ==> CellMatches(s, gv, i, j, x, y'))
      {
        if s.Get(x, y) == WildcardSymbol.id {
          continue;
        }
        if g.Get(i + x, j + y) != s.Get(x, y) {
          assert !CellMatches(s, gv, i, j, x, y);
          isMatch := false;
          break;
        }
      }
    }
  }

  /** The running-sum loop of the rule-based apply: the first replacement
      whose accumulated probability reaches r. */
  method Choose(reps: seq<Replacement>, r: real) returns (c: Option<nat>)
    ensures c == Select(reps, r)
  {
    c := None;
    var acc := 0.0;
    for k := 0 to |reps|
      invariant acc == PrefixSum(reps, k)
      invariant c == None && SelectFrom(reps, r, k) == Select(reps, r)
    {
      acc := acc + reps[k].probability;
      if r <= acc {
        c := Some(k);
        break;
      }
    }
  }

  /** The write loops of the rule-based apply: copies the non-wildcard cells
      of p into g at anchor (i, j). */
  method PasteAt(g: Grid, p: GridValue, i: nat, j: nat)
    requires g.Valid() && p.Valid()
    requires i + p.width <= g.width && j + p.height <= g.height
    modifies g
    ensures g.Valid() && g.Value() == Pasted(old(g.Value()), p, i, j)
  {
    ghost var g0 := g.Value();
    for x := 0 to p.width
      invariant g.Valid() && g.width == g0.width && g.height == g0.height
      invariant g.Value() == PasteColumns(g0, p, i, j, x)
    {
      for y := 0 to p.height
        invariant g.Valid() && g.width == g0.width && g.height == g0.height
        invariant g.Value() == PasteCells(g0, p, i, j, x, y)
      {
        if p.Get(x, y) == WildcardSymbol.id {
          continue;
        }
        g.Set(i + x, j + y, p.Get(x, y));
      }
    }
  }

  /** One anchor of the rule-based apply: skip it when the search box would
      leave the grid; otherwise test the match against the grid as it stands
      and, on a match, draw a number and paste the chosen replacement. */
  method VisitAnchor(g: Grid, rule: Rule, uniform: nat -> real, i: nat, j: nat, drawn0: nat) returns (drawn: nat)
    requires WellFormed(rule) && g.Valid()
    modifies g
    ensures Progress(g.Value(), drawn) == Step(rule, Progress(old(g.Value()), drawn0), i, j, uniform)
  {
    var search := rule.search;
    drawn := drawn0;
    if !g.InBounds(i + search.width - 1, j + search.height - 1) {
      return;
    }
    var isMatch := MatchesAt(g, search, i, j);
    if isMatch {
      var r := uniform(drawn);
      drawn := drawn + 1;
      var c := Choose(rule.replacements, r);
      if c.Some? {
        PasteAt(g, rule.replacements[c.value].pattern, i, j);
      }
    }
  }

  class Transformation {
    const name: string
    var enabled: bool
    var kind: Kind
    /** The alphabet shared with the engine; read, never changed, by apply. */
    const alphabet: Alphabet

    /** A random transformation; new transformations are enabled. */
    constructor RandomTransformation(name: string, alphabet: Alphabet)
      ensures this.name == name && this.alphabet == alphabet
      ensures enabled && kind == RandomFill
    {
      this.name, this.alphabet := name, alphabet;
      enabled, kind := true, RandomFill;
    }

    /** A rule-based transformation with the default search grid (10 x 10,
        every cell 0) and no replacements; new transformations are enabled. */
    constructor RuleBasedTransformation(name: string, alphabet: Alphabet)
      ensures this.name == name && this.alphabet == alphabet
      ensures enabled && kind == RuleBased(Rule(Filled(10, 10, 0), []))
    {
      this.name, this.alphabet := name, alphabet;
      enabled, kind := true, RuleBased(Rule(Filled(10, 10, 0), []));
    }

    ghost function Value(): Stage
      reads this, alphabet
    {
      Stage(name, enabled, kind, Listing(alphabet.symbols))
    }

    method SetEnabled(b: bool)
      modifies this
      ensures enabled == b && kind == old(kind)
    {
      enabled := b;
    }

    /** Replaces the search pattern with a copy of search. */
    method SetSearch(search: GridValue)
      requires kind.RuleBased?
      modifies this
      ensures enabled == old(enabled)
      ensures kind == RuleBased(old(kind.rule).(search := search))
    {
      kind := RuleBased(kind.rule.(search := search));
    }

    /** Appends one weighted replacement after the existing ones. */
    method AddReplacement(probability: real, replacement: GridValue)
      requires kind.RuleBased?
      modifies this
      ensures enabled == old(enabled) && kind.RuleBased?
      ensures kind.rule.search == old(kind.rule.search)
      ensures kind.rule.replacements == old(kind.rule.replacements) + [Replacement(probability, replacement)]
    {
      kind := RuleBased(kind.rule.(replacements := kind.rule.replacements + [Replacement(probability, replacement)]));
    }

    /** Rewrites g in place: the virtual apply of either kind. */
    method Apply(g: Grid, draws: Draws)
      requires g.Valid() && alphabet.Valid()
      requires Runnable(kind, Listing(alphabet.symbols), draws)
      modifies g
      ensures g.Valid() && g.Value() == Applied(kind, old(g.Value()), Listing(alphabet.symbols), draws)
    {
      match kind
      case RandomFill =>
        ApplyRandom(g, draws.index);
      case RuleBased(rule) =>
        ApplyRuleBased(g, draws.uniform);
    }

    /** Sets every cell, column by column, to the id of the listed symbol at
        the next drawn index. */
    method ApplyRandom(g: Grid, index: nat -> nat)
      requires kind.RandomFill? && g.Valid() && alphabet.Valid()
      requires PicksInRange(Listing(alphabet.symbols), index)
      modifies g
      ensures g.Valid() && g.Value() == RandomFilled(old(g.Value()), Listing(alphabet.symbols), index)
    {
      ghost var g0 := g.Value();
      ghost var pool := Listing(alphabet.symbols);
      var drawn := 0;
      for i := 0 to g.width
        invariant Progress(g.Value(), drawn) == FillColumns(g0, pool, index, i)
      {
        drawn := FillColumn(g, index, g0, i, drawn);
      }
    }

    /** The inner loop of the random apply: column i, top to bottom. */
    method FillColumn(g: Grid, index: nat -> nat, ghost g0: GridValue, i: nat, drawn0: nat) returns (drawn: nat)
      requires g0.Valid() && alphabet.Valid() && PicksInRange(Listing(alphabet.symbols), index) && i < g0.width
      requires Progress(g.Value(), drawn0) == FillColumns(g0, Listing(alphabet.symbols), index, i)
      modifies g
      ensures Progress(g.Value(), drawn) == FillColumns(g0, Listing(alphabet.symbols), index, i + 1)
    {
      ghost var pool := Listing(alphabet.symbols);
      drawn := drawn0;
      for j := 0 to g.height
        invariant Progress(g.Value(), drawn) == FillCells(g0, pool, index, i, j)
      {
        var listed := alphabet.GetSymbols();
        g.Set(i, j, listed[index(drawn)].id);
        drawn := drawn + 1;
      }
    }

    /** Scans every anchor, column by column; where the search matches the
        grid as it stands, draws a number and pastes the chosen replacement. */
    method ApplyRuleBased(g: Grid, uniform: nat -> real)
      requires kind.RuleBased? && WellFormed(kind.rule) && g.Valid()
      modifies g
      ensures g.Valid() && g.Value() == Rewritten(kind.rule, old(g.Value()), uniform)
    {
      var rule := kind.rule;
      ghost var g0 := g.Value();
      var drawn := 0;
      for i := 0 to g.width
        invariant Progress(g.Value(), drawn) == AfterColumns(rule, g0, uniform, i)
      {
        for j := 0 to g.height
          invariant Progress(g.Value(), drawn) == AfterAnchors(rule, g0, uniform, i, j)
        {
          drawn := VisitAnchor(g, rule, uniform, i, j, drawn);
        }
      }
    }
  }
}
