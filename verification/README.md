# Overlapping Wave-Function-Collapse model in Dafny

This project models the core of the overlapping Wave-Function-Collapse
texture synthesiser `src/overlappingmodel.rs` (rust-wfc). The model has
three layers.

- **Cells** (`UncertainCell`). An output cell is two bit vectors: the
  palette colours it may still show and the catalog patterns ("states") it
  may still take. The layer covers construction with every bit set, the
  bounds-checked colour lookup, the case structure of the entropy
  (contradiction, resolved, undecided) and collapse to one chosen state.
- **The model** (`OverlappingModel`). It is built from a seed image. The
  palette is the sorted, duplicate-free list of the seed's colours. The
  catalog counts every N×N window of the seed, at stride one, by content.
  The layer covers:
  - the grid of fully unconstrained cells;
  - the row-major selection of the next cell to collapse, which reports the
    first contradiction, the last cell of least positive entropy, or that
    all states are decided;
  - the palette lookup by binary search;
  - the bounds check;
  - the per-position pattern compatibility test.
- **Shannon entropy**. The entropy as written evaluates to NaN for every
  undecided cell (see Findings). A corrected entropy, `-Σ p·ln p` over the
  frequency-weighted possible states, is defined against an abstract
  logarithm. The selection built on it is proved to pick the cell of least
  positive entropy. On the two-colour example it picks the last of the tied
  cells.

Module layout:

- `wrappers.dfy`: `Option` and `Result`.
- `arrays.dfy`: row-major two-dimensional arrays, standing for ndarray's
  `Array2` and `from_shape_vec`. The coordinates `indexed_iter` yields are
  the flat position `k` mapped to `(k / cols, k % cols)`.
- `colors.dfy`: colours, their order, sort, dedup and binary search.
- `bits.dfy`: bit vectors and set-bit counting.
- `cells.dfy`: `UncertainCell`.
- `catalog.dfy`: the palette, windows and the frequency map.
- `selection.dfy`: the scan over entropies.
- `model.dfy`: `OverlappingModel` and `ModelError`.
- `scenarios.dfy`: whole-model consequences.
- `shannon.dfy`: the corrected entropy and selection.

Grid coordinates are `(row, col)` throughout. `from_seed_image` receives its
dimensions as `(x, y)` and builds a grid of `y` rows of `x` cells.

## Model

| member | source | states |
|---|---|---|
| Cells.New | src/overlappingmodel.rs:21-28 | A new cell has a colour vector of the palette's length and a state vector of the catalog's length, with every bit set. |
| Cells.ValidColor | src/overlappingmodel.rs:30-33 | The colour lookup returns the colour vector's bit at the palette index. An index past the end is a panic in the source and a precondition here. |
| Cells.Entropy | src/overlappingmodel.rs:35-66 | The result is no value exactly when no state bit is set. It is zero exactly when one bit is the only set bit. It is NaN exactly when two or more bits are set, so it is never positive. |
| Cells.Collapse | src/overlappingmodel.rs:70-77 | After a collapse to a possible state `k`, bit `k` is the only set state bit. The state vector keeps its length. No cleared bit becomes set. The colours are untouched. |
| Cells.NewCellEntropy | src/overlappingmodel.rs:21-44 | A fresh cell is a contradiction iff the catalog is empty, resolved iff it has one pattern, and undecided iff it has two or more. |
| Cells.CollapseResolvedIsIdentity | src/overlappingmodel.rs:70-77 | Collapsing a cell whose only possible state is `k` to `k` leaves it unchanged. |
| Bits.CountOneIff | src/overlappingmodel.rs:42-44 | For a set bit `k`, the number of set bits is one exactly when `k` is the only set bit. |
| Bits.CountZeroIff | src/overlappingmodel.rs:39-41 | No bit is set exactly when the set-bit count is zero. |
| Model.FromSeedImage | src/overlappingmodel.rs:89-113 | The grid has `y` rows of `x` cells and every cell has all colour and state bits set. The palette is the seed's palette, holding exactly the seed's colours. The catalog is the seed's block-frequency map at the given block size. Every catalog colour is in the palette. The block size is kept. |
| Model.CatalogColorsInImage | src/overlappingmodel.rs:93-95 | Every catalog pattern is a rectangular block whose colours all occur in the seed. |
| Model.FindLowestNonzeroEntropyCoordinates | src/overlappingmodel.rs:115-136 | `NoValidStates` names the first cell in row-major order with no possible state. `AllStatesDecided` is returned iff no cell is a contradiction. Because undecided cells evaluate to NaN, the result is never `Ok` and never `UnexpectedNaN`. |
| Selection.ScanCorrect | src/overlappingmodel.rs:115-136 | On any sequence of finite entropies the scan has four outcomes. A contradiction gives the first contradiction. Otherwise it chooses a position of least positive entropy with no later position tied with it. It reports decided iff nothing is a contradiction and nothing is positive. It never reports a NaN. |
| Selection.ScanFromCorrect | src/overlappingmodel.rs:116-132 | The loop state (best position, best entropy) meets the invariant after each cell, so the scan ends in an outcome meeting the selection's specification. |
| Selection.ScanStopsAtContradiction | src/overlappingmodel.rs:118-120 | Two entropy sequences that agree up to and including their first contradiction scan to the same `NoValidStates` position. Nothing after it matters. |
| Model.ColorToIndex | src/overlappingmodel.rs:139-141 | For a colour in the sorted palette, the index returned holds that colour. |
| Colors.BinarySearch | src/overlappingmodel.rs:139-141 | On a strictly increasing sequence the search succeeds iff the colour is present. On success the index holds the colour. |
| Colors.SearchRange | src/overlappingmodel.rs:140 | Halving a range that brackets the colour finds it iff it is present. |
| Model.ValidCoordinateAddressesCell | src/overlappingmodel.rs:143-147 | A coordinate passes the bounds check exactly when it is the coordinate of some stored cell. |
| Model.ValidStatesAtPosition | src/overlappingmodel.rs:149-166 | The result is strictly increasing and holds catalog indices only. An index is in it exactly when every pixel of that pattern fits at the position. |
| Model.FitsIffEveryPixelFits | src/overlappingmodel.rs:153-159 | A pattern fits at `p` exactly when every pixel `d` lands on the grid at `p + d`, on a cell that still allows that pixel's palette index. |
| Model.FitsOnUnconstrainedGrid | src/overlappingmodel.rs:156-157 | When no colour has been ruled out, a non-empty pattern fits exactly when it lies wholly on the grid. A pattern hanging over an edge is rejected. |
| Model.ForbiddenColorExcludes | src/overlappingmodel.rs:155-158 | A cell that has ruled out a colour excludes every pattern that would place that colour on it. |
| Model.FitsMonotone | src/overlappingmodel.rs:149-166 | Ruling out colours never makes a pattern fit that did not fit before. |
| Model.CollapseAt | src/overlappingmodel.rs:70-77 | Collapsing one grid cell makes the chosen state its only state and keeps its colours. No state bit becomes set. Every other cell, the palette and the catalog are unchanged. |
| Catalog.BuildColorPalette | src/overlappingmodel.rs:168-173 | The palette is strictly increasing, and a colour is in it exactly when it occurs in the image. |
| Colors.Sort | src/overlappingmodel.rs:170 | The result is sorted and is a permutation of the input. |
| Colors.Dedup | src/overlappingmodel.rs:171 | The same elements remain, the first is kept, no two neighbours are equal, and a sorted input becomes strictly increasing. |
| Colors.Insert | src/overlappingmodel.rs:170 | Inserting into a sorted sequence keeps it sorted and adds exactly one occurrence of the element. |
| Catalog.Window | src/overlappingmodel.rs:182-183 | A window is an `n`×`n` block whose pixel `d` is the image pixel at the window's corner plus `d`. |
| Catalog.Windows | src/overlappingmodel.rs:182 | There are `(h−n+1)·(w−n+1)` windows. The `k`-th is the window whose corner is the `k`-th position in row-major order, so each position occurs exactly once. Each is a window of the image, and every window position occurs. |
| Catalog.Tally | src/overlappingmodel.rs:178-188 | The keys are distinct and are exactly the elements counted. Each count is that element's multiplicity. The counts sum to the number of elements. |
| Catalog.Bump | src/overlappingmodel.rs:184-185 | One more occurrence raises that key's count by one, or appends it with count one. The total grows by one. |
| Catalog.BuildBlockFrequencyMap | src/overlappingmodel.rs:175-189 | The blocks are pairwise distinct. Every count is at least one and equals the number of windows with that content. Every block is a window and every window is a block. The counts sum to `(h−N+1)·(w−N+1)`. |
| Scenarios.UniformSeedPalette | src/overlappingmodel.rs:168-173 | A non-empty single-colour seed has a one-colour palette. |
| Scenarios.UniformSeedCatalog | src/overlappingmodel.rs:175-189 | With block size 1, a non-empty single-colour seed has one pattern whose count is the number of pixels. |
| Scenarios.UniformSeedIsDecided | src/overlappingmodel.rs:89-136 | A model of any size built from such a seed is finished before any collapse. The catalog has one pattern, every cell has exactly one possible state and entropy zero, and the selection returns `AllStatesDecided`. |
| Scenarios.FreshModelReportsDecided | src/overlappingmodel.rs:89-136 | With a non-empty catalog, a freshly built model of any size is reported as all decided. With two or more patterns, every one of its cells is still undecided. |
| Scenarios.TwoColorSeedHasTwoPatterns | src/overlappingmodel.rs:168-189 | A 1×2 seed of two different colours has a palette of two colours and at least two patterns at block size 1. |
| Scenarios.TwoColorPalette | src/overlappingmodel.rs:168-173 | The palette of that seed has exactly two colours, and both seed colours are in it. |
| Scenarios.TwoColorSeedReportsDecided | src/overlappingmodel.rs:55-66 | From that seed with a 3×3 grid, all nine cells have two possible states, yet the selection returns `AllStatesDecided`. |
| Shannon.CorrectedEntropy | src/overlappingmodel.rs:35-66 | With Shannon entropy: no value iff no state is possible, zero iff one is, and otherwise a value in `(0, count]`. It is never NaN. |
| Shannon.SumBounds | src/overlappingmodel.rs:55-64 | With every possible weight strictly inside the total, `Σ p·ln p` lies in `[−count, 0]` and is negative when some state is possible. |
| Shannon.FindLowestCorrected | src/overlappingmodel.rs:115-136 | With Shannon entropy there are four cases. `NoValidStates` names the first contradiction. `AllStatesDecided` is returned iff every cell is resolved. `Ok` is returned iff there is no contradiction and some cell is undecided, and it names an undecided cell of least entropy with no later cell tied with it. `UnexpectedNaN` never occurs. |
| Shannon.AllTiedSelectsLast | src/overlappingmodel.rs:121-124 | When every cell is undecided with the same entropy, the selection picks the bottom-right cell, the last in row-major order. |
| Shannon.EqualPairEntropy | src/overlappingmodel.rs:47-66 | Two equally frequent possible states give entropy `−ln(1/2) = ln 2`. |
| Shannon.TwoColorSeedEntropyIsLn2 | src/overlappingmodel.rs:35-66 | For the two-colour seed and a grid of any size, the 3×3 one included, there are two patterns of positive weight and every fresh cell's Shannon entropy is `ln 2`. |
| Shannon.UniformSeedCorrectedIsDecided | src/overlappingmodel.rs:115-136 | For a single-colour seed, the corrected selection returns `AllStatesDecided`. It does so only when every cell is resolved, unlike the selection as written. |
| Shannon.TwoColorSeedSelectsLastCell | src/overlappingmodel.rs:115-136 | For the same model, the corrected selection returns `Ok((2, 2))`. |

## Left out

- Cells.Entropy: the floating-point value is not computed. Only its case structure and the NaN it evaluates to are modelled. The IEEE argument for the NaN is given in the member's documentation, and the logarithm is not modelled.
- Shannon.CorrectedEntropy: the logarithm is a parameter, constrained only by `1 − 1/x ≤ ln x < 0` on `(0, 1)`. Values are exact reals, not doubles, so rounding is not modelled.
- Cells.Collapse: the chosen state is a parameter, required to be currently possible. `utils::masked_weighted_choice` and its random number generator are not part of this model.
- Model.CollapseAt: `RefCell` interior mutability becomes a functional update of one cell of the grid.
- Catalog.BuildBlockFrequencyMap: `HashMap` iteration order is unspecified. The model lists blocks in order of first occurrence, and every stated property holds for any order. A block size of zero is excluded as a precondition, because ndarray's `windows` panics on it.
- `SeedImage` loading and `sourceimage::RGB` are not part of this model. A seed is a row-major array of RGB colours, ordered lexicographically by (r, g, b).
- Symmetry augmentation (rotations and reflections) is a TODO in the source and is not implemented there.
- Machine-width arithmetic is not modelled: no `usize` overflow in `x * y` or in the counts. The corrected selection bounds the catalog size by 2^64, so every entropy stays below `f64::MAX`.
- The `debug_assert!` that a cell's state vector matches the catalog length becomes a precondition.
- Cells.ValidColor and Model.ColorToIndex: the `expect` panics become preconditions. These are an index within the colour vector, and a colour present in the sorted palette.
- Model.ValidStatesAtPosition: a pattern with a pixel that falls off the grid is rejected outright. The `continue 'state` at src/overlappingmodel.rs:157 skips the push at line 160. The model follows the code and does not treat such a pixel as unconstrained.
- Rendering, the solve loop and propagation lie outside the core and are not modelled.

## Findings

| source | as written | input that shows it | evidently intended | confidence | as-written member | corrected member |
|---|---|---|---|---|---|---|
| src/overlappingmodel.rs:59-63 | Each term is `y·ln y` with `y = x·ln x`. The second `map` applies the transform twice. For `0 < x < 1`, `y` is negative, so `ln y` and the whole sum are NaN. `NaN > 0` is false, so no undecided cell is ever selected and the scan returns `AllStatesDecided` while undecided cells remain. | A 1×2 seed of two different colours, block size 1, a 3×3 grid: all nine cells have two possible states. | Shannon entropy `−Σ p·ln p`, as the name `entropy` and the phrase "lowest nonzero entropy" show. Two equally frequent states give `ln 2`, and the selection should then return a cell. | not executed | Scenarios.TwoColorSeedReportsDecided | Shannon.FindLowestCorrected |
