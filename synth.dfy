/** The engine of grid_synth: one grid, one alphabet, and an ordered list of
    transformations that synthesize applies to the grid in place. */
module Synth {
  import opened Grids
  import opened Alphabets
  import opened Transformations

  /** Every enabled slot of the pipeline can run with its draws. */
  ghost predicate AllRunnable(stages: seq<Stage>, draws: seq<Draws>)
    requires |draws| == |stages|
  {
    forall k :: 0 <= k < |stages| && stages[k].enabled ==> Runnable(stages[k].kind, stages[k].pool, draws[k])
  }

  /** One pipeline slot: an enabled transformation applies, a disabled one
      passes the grid through untouched. */
  ghost function StageResult(s: Stage, g: GridValue, d: Draws): (r: GridValue)
    requires g.Valid() && (s.enabled ==> Runnable(s.kind, s.pool, d))
    ensures r.Valid() && r.width == g.width && r.height == g.height
    ensures !s.enabled ==> r == g
  {
    if s.enabled then Applied(s.kind, g, s.pool, d) else g
  }

  /** The grid the pipeline leaves: the slots in list order, each on the
      grid the previous one left, slot k using draws[k]. */
  ghost function Run(stages: seq<Stage>, g: GridValue, draws: seq<Draws>): (r: GridValue)
    requires g.Valid() && |draws| == |stages| && AllRunnable(stages, draws)
    ensures r.Valid() && r.width == g.width && r.height == g.height
    decreases |stages|
  {
    if stages == [] then g
    else
      assert AllRunnable(stages[1..], draws[1..]) by {
        forall k | 0 <= k < |stages| - 1 && stages[1..][k].enabled
          ensures Runnable(stages[1..][k].kind, stages[1..][k].pool, draws[1..][k])
        {
          assert stages[1..][k] == stages[k + 1];
        }
      }
      Run(stages[1..], StageResult(stages[0], g, draws[0]), draws[1..])
  }

  lemma AllRunnableSlice(stages: seq<Stage>, draws: seq<Draws>, lo: nat, hi: nat)
    requires |draws| == |stages| && AllRunnable(stages, draws) && lo <= hi <= |stages|
    ensures AllRunnable(stages[lo..hi], draws[lo..hi])
  {
    forall k | 0 <= k < hi - lo && stages[lo..hi][k].enabled
      ensures Runnable(stages[lo..hi][k].kind, stages[lo..hi][k].pool, draws[lo..hi][k])
    {
      assert stages[lo..hi][k] == stages[lo + k];
    }
  }

  lemma SuffixIsSlice<T>(s: seq<T>, lo: nat)
    requires lo <= |s|
    ensures s[lo..] == s[lo..|s|]
  {
  }

  lemma AllRunnableAppend(a: seq<Stage>, b: seq<Stage>, da: seq<Draws>, db: seq<Draws>)
    requires |da| == |a| && |db| == |b| && AllRunnable(a, da) && AllRunnable(b, db)
    ensures AllRunnable(a + b, da + db)
  {
    var s, d := a + b, da + db;
    forall k | 0 <= k < |s| && s[k].enabled ensures Runnable(s[k].kind, s[k].pool, d[k]) {
      if k < |a| {
        assert s[k] == a[k] && d[k] == da[k];
      } else {
        assert s[k] == b[k - |a|] && d[k] == db[k - |a|];
      }
    }
  }

  /** Running two pipelines one after the other is running them joined. */
  lemma {:induction false} RunAppend(a: seq<Stage>, b: seq<Stage>, g: GridValue, da: seq<Draws>, db: seq<Draws>)
    requires g.Valid() && |da| == |a| && |db| == |b|
    requires AllRunnable(a, da) && AllRunnable(b, db)
    ensures AllRunnable(a + b, da + db)
    ensures Run(a + b, g, da + db) == Run(b, Run(a, g, da), db)
    decreases |a|
  {
    AllRunnableAppend(a, b, da, db);
    if a == [] {
      assert a + b == b && da + db == db;
    } else {
      var s, d := a + b, da + db;
      AllRunnableSlice(a, da, 1, |a|);
      SuffixIsSlice(a, 1);
      SuffixIsSlice(da, 1);
      var g1 := StageResult(a[0], g, da[0]);
      RunAppend(a[1..], b, g1, da[1..], db);
      assert s[0] == a[0] && d[0] == da[0];
      assert s[1..] == a[1..] + b;
      assert d[1..] == da[1..] + db;
      assert Run(s, g, d) == Run(s[1..], g1, d[1..]);
      assert Run(a, g, da) == Run(a[1..], g1, da[1..]);
    }
  }

  /** Running the slots from k on is running slot k, then the slots after it. */
  lemma RunFrom(stages: seq<Stage>, g: GridValue, draws: seq<Draws>, k: nat)
    requires g.Valid() && |draws| == |stages| && AllRunnable(stages, draws) && k < |stages|
    ensures AllRunnable(stages[k..], draws[k..]) && AllRunnable(stages[k + 1..], draws[k + 1..])
    ensures Run(stages[k..], g, draws[k..])
         == Run(stages[k + 1..], StageResult(stages[k], g, draws[k]), draws[k + 1..])
  {
    AllRunnableSlice(stages, draws, k, |stages|);
    AllRunnableSlice(stages, draws, k + 1, |stages|);
    SuffixIsSlice(stages, k);
    SuffixIsSlice(draws, k);
    SuffixIsSlice(stages, k + 1);
    SuffixIsSlice(draws, k + 1);
    assert stages[k..][0] == stages[k] && draws[k..][0] == draws[k];
    assert stages[k..][1..] == stages[k + 1..];
    assert draws[k..][1..] == draws[k + 1..];
  }

  /** Slot k works on the grid the slots before it left and hands its result
      to the slots after it: enabling or disabling it changes only its own
      contribution. */
  lemma RunAroundSlot(stages: seq<Stage>, g: GridValue, draws: seq<Draws>, k: nat)
    requires g.Valid() && |draws| == |stages| && AllRunnable(stages, draws) && k < |stages|
    ensures AllRunnable(stages[..k], draws[..k]) && AllRunnable(stages[k + 1..], draws[k + 1..])
    ensures Run(stages, g, draws)
         == Run(stages[k + 1..], StageResult(stages[k], Run(stages[..k], g, draws[..k]), draws[k]), draws[k + 1..])
  {
    var pre, post, dpre, dpost := stages[..k], stages[k..], draws[..k], draws[k..];
    AllRunnableSlice(stages, draws, 0, k);
    assert pre == stages[0..k] && dpre == draws[0..k];
    AllRunnableSlice(stages, draws, k, |stages|);
    SuffixIsSlice(stages, k);
    SuffixIsSlice(draws, k);
    assert stages == pre + post && draws == dpre + dpost;
    RunAppend(pre, post, g, dpre, dpost);
    var mid := Run(pre, g, dpre);
    RunFrom(stages, mid, draws, k);
  }

  /** A disabled slot is as if it were not in the list at all. */
  lemma DisabledSlotSkipped(stages: seq<Stage>, g: GridValue, draws: seq<Draws>, k: nat)
    requires g.Valid() && |draws| == |stages| && AllRunnable(stages, draws)
    requires k < |stages| && !stages[k].enabled
    ensures AllRunnable(stages[..k] + stages[k + 1..], draws[..k] + draws[k + 1..])
    ensures Run(stages, g, draws) == Run(stages[..k] + stages[k + 1..], g, draws[..k] + draws[k + 1..])
  {
    RunAroundSlot(stages, g, draws, k);
    RunAppend(stages[..k], stages[k + 1..], g, draws[..k], draws[k + 1..]);
  }

  /** With no slot enabled the grid comes through unchanged. */
  lemma {:induction false} NoneEnabledKeepsGrid(stages: seq<Stage>, g: GridValue, draws: seq<Draws>)
    requires g.Valid() && |draws| == |stages|
    requires forall k :: 0 <= k < |stages| ==> !stages[k].enabled
    ensures AllRunnable(stages, draws) && Run(stages, g, draws) == g
    decreases |stages|
  {
    if stages != [] {
      NoneEnabledKeepsGrid(stages[1..], g, draws[1..]);
    }
  }

  class GridSynth {
    const grid: Grid
    const alphabet: Alphabet
    var transformations: seq<Transformation>

    /** A width x height grid of defaultValue, an empty alphabet and no
        transformations. */
    constructor (width: nat := 32, height: nat := 32, defaultValue: int := 0)
      ensures fresh(grid) && fresh(alphabet)
      ensures grid.Valid() && grid.width == width && grid.height == height
      ensures forall x, y :: grid.Value().InBounds(x, y) ==> grid.Value().Get(x, y) == defaultValue
      ensures alphabet.Valid() && alphabet.symbols == map[]
      ensures transformations == []
    {
      grid := new Grid(width, height, defaultValue);
      alphabet := new Alphabet();
      transformations := [];
    }

    /** Appends t after the existing transformations. */
    method AddTransformation(t: Transformation)
      modifies this
      ensures transformations == old(transformations) + [t]
    {
      transformations := transformations + [t];
    }

    /** The pipeline as it stands: one slot per transformation, in list order. */
    ghost function Stages(): (r: seq<Stage>)
      reads this, set t | t in transformations, set t | t in transformations :: t.alphabet
    {
      seq(|transformations|, k requires 0 <= k < |transformations|
                                reads this, transformations, set t | t in transformations :: t.alphabet
                                => transformations[k].Value())
    }

    /** Applies the enabled transformations to the grid in list order,
        skipping the disabled ones; transformation k takes draws[k]. */
    method Synthesize(draws: seq<Draws>)
      requires grid.Valid() && |draws| == |transformations|
      requires forall k :: 0 <= k < |transformations| ==> transformations[k].alphabet.Valid()
      requires AllRunnable(Stages(), draws)
      modifies grid
      ensures grid.Valid() && grid.width == old(grid.width) && grid.height == old(grid.height)
      ensures grid.Value() == Run(Stages(), old(grid.Value()), draws)
    {
      ghost var stages := Stages();
      ghost var g0 := grid.Value();
      assert stages[0..] == stages && draws[0..] == draws;
      for k := 0 to |transformations|
        invariant grid.Valid() && Stages() == stages
        invariant AllRunnable(stages[k..], draws[k..])
        invariant Run(stages[k..], grid.Value(), draws[k..]) == Run(stages, g0, draws)
      {
        var t := transformations[k];
        ghost var before := grid.Value();
        RunFrom(stages, before, draws, k);
        assert stages[k] == t.Value();
        if t.enabled {
          t.Apply(grid, draws[k]);
        }
        assert grid.Value() == StageResult(stages[k], before, draws[k]);
      }
      assert stages[|stages|..] == [];
    }
  }
}
