# grid-synth core in Dafny

This project models the engine of grid-synth, a small procedural grid
generator. The engine has four parts.

- **Grid.** A row-major store of integer cells. Cell (x, y) lives at
  position `y * width + x`.
- **Alphabet.** A registry of symbols kept in an ordered map keyed by id.
  Two sentinel symbols exist as constants: empty (id 0) and wildcard (id -1).
- **Transformations.** Each one is named and can be switched on and off. Each
  rewrites one grid in place. There are two kinds:
  - A *random* transformation fills every cell with the id of a symbol picked
    from the alphabet.
  - A *rule-based* transformation scans every anchor, column by column.
    Wherever its search pattern matches the grid as it stands at that moment,
    it draws a number. It then picks the first replacement whose running
    probability sum reaches that number, and pastes that replacement's
    non-wildcard cells at the anchor.
- **Engine.** It owns a grid, an alphabet and an ordered list of
  transformations. `synthesize` applies the enabled transformations to the
  grid in list order.

## Modules

- **`Grids`** (`grids.dfy`):
  - the value `GridValue`, used for search and replacement patterns, which
    the source copies by value;
  - the mutable engine grid `Grid`, a class with `Set`, `Resize` and `Clear`.
- **`Alphabets`** (`alphabets.dfy`):
  - `Symbol` and the two sentinels;
  - the class `Alphabet`;
  - `Listing`, the ascending-id traversal of the registry.
- **`Rules`** (`rules.dfy`): what a rule-based transformation does, as
  functions that follow its loops one anchor at a time.
  - `Step` is one anchor.
  - `AfterColumns` and `AfterAnchors` are the two scan loops.
  - `Select` is the running-sum choice.
  - `Pasted` is the write loops.
  - The file also holds the properties of the scan.
- **`Fill`** (`fill.dfy`): what a random transformation does, as functions,
  with its properties.
- **`Transformations`** (`transformations.dfy`):
  - the class `Transformation`; its `kind` field is a datatype with one
    variant per kind of transformation, in place of the class hierarchy;
  - imperative `Apply` methods, proved equal to the functions of `Rules` and
    `Fill`.
- **`Synth`** (`synth.dfy`):
  - the class `GridSynth`;
  - the pipeline function `Run`, which `Synthesize` is proved to compute;
  - properties of the pipeline.

Randomness is an input. One apply call takes a `Draws` value holding two
streams:
- `uniform(k)` is the k-th real drawn for a rule match;
- `index(k)` is the k-th index drawn for the random fill.

The methods count the draws they use. The specification functions thread the
same count through a `Progress` value.

## Model

| member | source | states |
|---|---|---|
| Grids.IndexInRange | source/core/grid_synth.hpp:20-24 | a cell inside the bounds has its position `y * w + x` inside the store of `w * h` cells |
| Grids.IndexInjective | source/core/grid_synth.hpp:20-24 | two different in-bounds cells never share a store position, so a write touches exactly one cell |
| Grids.GridValue.Get | source/core/grid_synth.hpp:20 | a read of an in-bounds cell (x, y) returns the store entry at row-major position `y * width + x`, and that position lies inside the store |
| Grids.GridValue.With | source/core/grid_synth.hpp:20-24 | after writing v at (x, y), reading (x, y) gives v; every other cell and both dimensions are unchanged |
| Grids.Filled | source/core/grid_synth.hpp:18 | a grid of the given size in which every cell holds the given value, as a default-constructed search pattern is |
| Grids.Grid.constructor | source/core/grid_synth.cpp:10-13 | a new grid has the requested width and height and every cell equal to the default value (defaults 10, 10, 0) |
| Grids.Grid.InBounds | source/core/grid_synth.hpp:22 | the guard `0 <= x < width && 0 <= y < height`; when it holds, the store position of the cell exists |
| Grids.Grid.Get | source/core/grid_synth.hpp:20-24 | `get` and the const indexed accessor: an in-bounds read returns the store entry at position `y * width + x`, which exists; after `Set`, it returns the written value (by `GridValue.With`) |
| Grids.Grid.Set | source/core/grid_synth.hpp:21-23 | the write through `set` or the indexed accessor: the new grid is the old one with only cell (x, y) replaced by v |
| Grids.Grid.Resize | source/core/grid_synth.cpp:15-20 | the new width and height hold; the store has `w * h` cells; the first min(old, new) cells keep their values in linear order; only the added cells get the default |
| Grids.Grid.Clear | source/core/grid_synth.cpp:22-25 | every cell becomes the value; the width and height are unchanged |
| Alphabets.Listing | source/core/grid_synth.hpp:61 | the traversal of an ordered map has one entry per registered id |
| Alphabets.ListingMembers | source/core/grid_synth.cpp:41-48 | a symbol appears in the listing exactly when it is the one registered under its id |
| Alphabets.ListingAscending | source/core/grid_synth.cpp:41-48 | the listing is in strictly ascending id order, so no id appears twice |
| Alphabets.Alphabet.constructor | source/core/grid_synth.cpp:32-39 | a new alphabet is empty; neither sentinel id is registered |
| Alphabets.Alphabet.AddSymbol | source/core/grid_synth.cpp:50-54 | inserts only when the id is absent; an existing entry, its name included, never changes (the first registration wins) |
| Alphabets.Alphabet.HasSymbol | source/core/grid_synth.hpp:54 | an id is registered exactly when some symbol in the ascending listing carries it |
| Alphabets.Alphabet.RemoveSymbol | source/core/grid_synth.hpp:55 | afterwards the id is not registered and all other entries are unchanged; removing an absent id changes nothing |
| Alphabets.Alphabet.GetSymbol | source/core/grid_synth.hpp:56 | returns the symbol stored under the id when it is registered; otherwise the out-of-range failure that the map lookup throws |
| Alphabets.Alphabet.GetSymbols | source/core/grid_synth.cpp:41-48 | the rebuilt list is the registry's listing: exactly the registered symbols, in ascending id order |
| Rules.Select | source/core/grid_synth.cpp:83-96 | picks the least index whose running probability sum reaches the draw; every shorter prefix sums below it; nothing is picked when the whole sum stays below it |
| Rules.Pasted | source/core/grid_synth.cpp:88-93 | pasting sets each covered cell to the pattern's value where that value is not the wildcard; every other cell keeps its value |
| Rules.Rewritten | source/core/grid_synth.cpp:59-100 | a rule-based apply keeps the grid's dimensions |
| Rules.NoReplacementKeepsGrid | source/core/grid_synth.cpp:82-97 | with zero replacements a rule-based apply leaves the grid unchanged |
| Rules.ChangedOnlyByReplacement | source/core/grid_synth.cpp:65-93 | a cell (x, y) that changes was written by a fired replacement: at some anchor (a, b) the search box fits, the search matches the grid as the scan left it on reaching (a, b), the draw taken there selects replacement k, and k holds the cell's new, non-wildcard value at offset (x - a, y - b) |
| Rules.RecolorReplacesEvery | source/core/grid_synth.cpp:65-96 | a 1x1 search V with the single replacement (1.0, [W]) turns every V cell into W and leaves every other cell unchanged, for any draws in [0, 1] |
| Fill.RandomFilled | source/core/grid_synth.cpp:105-114 | a random fill keeps the dimensions; cell (x, y) gets the id of the listed symbol at pick number `x * height + y` |
| Fill.FilledCellsRegistered | source/core/grid_synth.cpp:105-114 | after a random fill every cell holds a registered symbol id |
| Fill.SingleSymbolFill | source/core/grid_synth.cpp:105-114 | an alphabet with exactly one registered symbol lists just that symbol, and a random fill puts its id in every cell |
| Transformations.Applied | source/core/grid_synth.hpp:74 | either kind of apply keeps the grid's dimensions |
| Transformations.MatchesAt | source/core/grid_synth.cpp:70-80 | the search loops, with their early exit from a column, report a match exactly when every non-wildcard search cell equals the grid cell under it |
| Transformations.Choose | source/core/grid_synth.cpp:84-96 | the running-sum loop with its `break` returns the replacement `Select` specifies |
| Transformations.PasteAt | source/core/grid_synth.cpp:88-93 | the write loops leave exactly the grid `Pasted` specifies |
| Transformations.VisitAnchor | source/core/grid_synth.cpp:67-97 | one anchor: skipped when the search box would leave the grid; otherwise matched against the grid as it stands and, on a match, one draw and the chosen paste; the result is exactly `Step` |
| Transformations.Transformation.RandomTransformation | source/core/grid_synth.hpp:90-91 | a new random transformation has the given name and alphabet and is enabled |
| Transformations.Transformation.RuleBasedTransformation | source/core/grid_synth.hpp:102-103 | a new rule-based transformation is enabled; its search is the default 10x10 grid of 0 and it has no replacements |
| Transformations.Transformation.SetEnabled | source/core/grid_synth.hpp:76-77 | the flag becomes the given value; what the transformation does is unchanged (the name is constant) |
| Transformations.Transformation.SetSearch | source/core/grid_synth.hpp:105 | the search becomes the given pattern; the replacements and the flag are unchanged |
| Transformations.Transformation.AddReplacement | source/core/grid_synth.hpp:106-107 | appends one weighted replacement at the end, keeping the earlier ones and their order |
| Transformations.Transformation.Apply | source/core/grid_synth.hpp:74 | the virtual apply rewrites the grid in place into the grid its kind specifies |
| Transformations.Transformation.ApplyRandom | source/core/grid_synth.cpp:105-114 | the fill loops leave exactly `RandomFilled` of the old grid |
| Transformations.Transformation.FillColumn | source/core/grid_synth.cpp:112-113 | the inner fill loop sets column i top to bottom, each cell to the listed symbol at the next draw, re-listing the alphabet for every cell; the result is the fill after column i |
| Transformations.Transformation.ApplyRuleBased | source/core/grid_synth.cpp:59-100 | the anchor loops, matching against the grid they are rewriting, leave exactly `Rewritten` of the old grid |
| Synth.StageResult | source/core/grid_synth.cpp:123-126 | a disabled transformation passes the grid through unchanged; an enabled one keeps its dimensions |
| Synth.Run | source/core/grid_synth.cpp:119-128 | the pipeline keeps the grid's dimensions |
| Synth.RunAppend | source/core/grid_synth.cpp:119-128 | running two lists one after the other is running them joined: each transformation acts on the grid the earlier ones left |
| Synth.RunAroundSlot | source/core/grid_synth.cpp:119-128 | transformation k acts on the grid left by those before it, and those after it act on its result |
| Synth.DisabledSlotSkipped | source/core/grid_synth.cpp:119-128 | a disabled transformation has the same effect as removing it from the list |
| Synth.NoneEnabledKeepsGrid | source/core/grid_synth.cpp:119-128 | with no transformation enabled the grid is unchanged |
| Synth.GridSynth.constructor | source/core/grid_synth.hpp:124-138 | a new engine has a w x h grid of d (defaults 32, 32, 0), an empty alphabet and no transformations |
| Synth.GridSynth.AddTransformation | source/core/grid_synth.hpp:130-131 | appends one transformation at the end, keeping the earlier ones and their order |
| Synth.GridSynth.Synthesize | source/core/grid_synth.cpp:119-128 | the loop leaves exactly `Run` of the old grid: the enabled transformations applied in list order, the disabled ones skipped |

## Left out

- Random number generation is not modelled: `std::random_device`, `mt19937`
  and both distributions (source/core/grid_synth.cpp:61-63, 107-109). Each
  apply takes its draws as an input. A rule draw is assumed to lie in [0, 1]
  only where a lemma needs it. A fill draw must index the listing.
- Rules.Select: the running sum is over reals, so `float` rounding in the
  accumulation is not modelled.
- Grids.Grid.Resize: the product `width * height` is unbounded. The `int`
  overflow of a very large grid is not modelled.
- Negative sizes: with a single negative size the product `width * height`
  is negative, and `resize` throws a length error when it converts it to an
  unsigned size. With two negative sizes the grid has no cell in bounds.
  Sizes are `nat`, so neither case is modelled.
- Cell access is unchecked in the source. A position outside the bounds but
  inside the store reads or writes the cell it wraps onto; past the store it
  is undefined. Every accessor requires `InBounds`, so the wrap is not
  modelled.
- Rules.WellFormed: requires a search pattern of at least one cell. It also
  requires every replacement to fit inside the search box. The source also
  accepts a larger replacement. Pasting one at an anchor near the edge writes
  past the row, wrapping into the next row or past the end of the store. That
  path is not modelled.
- Fill.PicksInRange: every pick must index the listing, which also makes the
  alphabet non-empty, as the pick range `0 .. size() - 1` demands. In the
  source an empty alphabet makes `size() - 1` wrap around and the index read
  out of range.
- Ownership is not modelled: `shared_ptr` and `unique_ptr`, virtual dispatch
  and `dynamic_cast`. The two kinds of transformation are a datatype inside
  one class, and the engine holds plain references.
- The accessors `get_alphabet`, `get_grid` and `get_transformations` are not
  modelled separately. They are the fields `alphabet`, `grid` and
  `transformations` of `GridSynth`.
- `get_symbols` returns a reference to a static vector that the next call
  overwrites. It is modelled as a freshly built sequence, so that aliasing is
  not captured.
- `operator()` is not a separate member. It reads like `Grid.Get` and writes
  like `Grid.Set`.
- The editor (ImGui drawing, colours, the render loop, its example data) is
  not part of this model.
- The engine's code has no archive format and no double buffering; neither
  is modelled.
- `Resize` has vector-resize semantics: it keeps the first cells rather than
  resetting every cell. A rule matches against the grid it is rewriting, so a
  write at one anchor is seen by the anchors after it.
