/** The overlapping model: the grid of uncertain cells together with the
    palette and the pattern catalog built from the seed image. */
module Model {

  import opened Wrappers
  import opened Arrays
  import opened Colors
  import opened Bits
  import opened Cells
  import opened Catalog
  import opened Selection

  datatype OverlappingModel = OverlappingModel(
    model: Array2<UncertainCell>,
    palette: seq<Color>,
    states: seq<(Pattern, nat)>,
    stateSize: nat)

  /** Why no coordinate could be selected. `AllStatesDecided` is the normal
      end of a synthesis, not a failure. */
  datatype ModelError = NoValidStates(at: Coord) | UnexpectedNaN(at: Coord) | AllStatesDecided

  /** The grid is rectangular and every cell's bit vectors are as long as
      the palette and the catalog. */
  ghost predicate Sized(m: OverlappingModel) {
    && m.model.Valid()
    && forall k :: 0 <= k < |m.model.data| ==>
         |m.model.data[k].possibleColors| == |m.palette| &&
         |m.model.data[k].possibleStates| == |m.states|
  }

  /** The palette is sorted and duplicate-free, and every pattern is a
      rectangular block whose colours all appear in the palette. */
  ghost predicate CatalogInPalette(m: OverlappingModel) {
    && StrictlyIncreasing(m.palette)
    && forall s :: 0 <= s < |m.states| ==>
         m.states[s].0.Valid() &&
         forall k :: 0 <= k < |m.states[s].0.data| ==> m.states[s].0.data[k] in m.palette
  }

  ghost predicate WellFormed(m: OverlappingModel) {
    Sized(m) && CatalogInPalette(m)
  }

  /** Every cell is resolved: exactly one possible state. */
  ghost predicate AllResolved(m: OverlappingModel) {
    forall k :: 0 <= k < |m.model.data| ==> CountSet(m.model.data[k].possibleStates) == 1
  }

  /** Builds the palette and the catalog from the seed image and a grid of
      fully unconstrained cells. The output dimensions are given as
      `(width, height)` and the grid is laid out as `height` rows of
      `width` cells. */
  function FromSeedImage(seed: Array2<Color>, outputDims: (nat, nat), blockSize: nat): (m: OverlappingModel)
    requires seed.Valid() && blockSize >= 1
    ensures WellFormed(m)
    ensures m.model.rows == outputDims.1 && m.model.cols == outputDims.0
    ensures forall k :: 0 <= k < |m.model.data| ==>
      (forall c :: 0 <= c < |m.palette| ==> m.model.data[k].possibleColors[c]) &&
      (forall s :: 0 <= s < |m.states| ==> m.model.data[k].possibleStates[s])
    ensures forall x :: x in m.palette <==> x in seed.data
    ensures m.palette == BuildColorPalette(seed)
    ensures m.states == BuildBlockFrequencyMap(seed, blockSize)
    ensures m.stateSize == blockSize
  {
    var palette := BuildColorPalette(seed);
    var states := BuildBlockFrequencyMap(seed, blockSize);
    var (x, y) := outputDims;
    var m := OverlappingModel(FreshGrid(y, x, |palette|, |states|), palette, states, blockSize);
    assert CatalogInPalette(m) by {
      CatalogColorsInImage(seed, blockSize);
    }
    m
  }

  /** A `rows` by `cols` grid of fully unconstrained cells. */
  function FreshGrid(rows: nat, cols: nat, numColors: nat, numStates: nat): (g: Array2<UncertainCell>)
    ensures g.Valid() && g.rows == rows && g.cols == cols
    ensures forall k :: 0 <= k < |g.data| ==> g.data[k] == New(numColors, numStates)
  {
    Array2(rows, cols, seq(rows * cols, _ => New(numColors, numStates)))
  }

  /** Every pattern of the catalog is a rectangular block of image colours. */
  lemma CatalogColorsInImage(seed: Array2<Color>, blockSize: nat)
    requires seed.Valid() && blockSize >= 1
    ensures var states := BuildBlockFrequencyMap(seed, blockSize);
      forall s :: 0 <= s < |states| ==>
        states[s].0.Valid() &&
        forall k :: 0 <= k < |states[s].0.data| ==> states[s].0.data[k] in seed.data
  {
    var states := BuildBlockFrequencyMap(seed, blockSize);
    forall s | 0 <= s < |states|
      ensures states[s].0.Valid()
      ensures forall k :: 0 <= k < |states[s].0.data| ==> states[s].0.data[k] in seed.data
    {
      WindowColorsInImage(seed, states[s].0, blockSize);
    }
  }

  /** Every colour of a window is a colour of the image. */
  lemma WindowColorsInImage(image: Array2<Color>, w: Pattern, n: nat)
    requires image.Valid()
    requires IsWindowOf(image, w, n)
    ensures w.Valid()
    ensures forall k :: 0 <= k < |w.data| ==> w.data[k] in image.data
  {
    var row: nat, col: nat :|
      row + n <= image.rows && col + n <= image.cols && w == Window(image, row, col, n);
    forall k | 0 <= k < |w.data| ensures w.data[k] in image.data {
      var d := w.CoordOf(k);
      assert w.data[k] == w.Get(d);
      assert image.Get((row + d.0, col + d.1)) in image.data;
    }
  }

  /** Entropy of every cell, in row-major order. */
  function Entropies(m: OverlappingModel): (es: seq<EntropyValue>)
    requires Sized(m)
    ensures |es| == |m.model.data|
    ensures forall k :: 0 <= k < |es| ==> es[k] == Entropy(m.model.data[k], m.states)
  {
    seq(|m.model.data|, k requires 0 <= k < |m.model.data| => Entropy(m.model.data[k], m.states))
  }

  /** Turns a scan outcome over flat positions into grid coordinates. */
  function ToCoordinates(grid: Array2<UncertainCell>, o: ScanOutcome): Result<Coord, ModelError>
    requires grid.Valid()
    requires !o.Decided? ==> o.index < |grid.data|
  {
    match o
    case Chosen(k) => Ok(grid.CoordOf(k))
    case Contradiction(k) => Err(NoValidStates(grid.CoordOf(k)))
    case NaNAt(k) => Err(UnexpectedNaN(grid.CoordOf(k)))
    case Decided => Err(AllStatesDecided)
  }

  /** The cell to collapse next: the first contradiction in row-major order
      is reported as such; failing that, the last cell of least positive
      entropy; failing that, all states are decided.

      As the entropy is computed, an undecided cell's entropy is NaN and
      never positive, so no cell is ever selected: the result is the first
      contradiction or, when there is none, `AllStatesDecided`, whether or
      not undecided cells remain. */
  function FindLowestNonzeroEntropyCoordinates(m: OverlappingModel): (r: Result<Coord, ModelError>)
    requires Sized(m)
    ensures r.Err? && r.error.NoValidStates? ==>
      && m.model.InBounds(r.error.at)
      && NoneSet(m.model.Get(r.error.at).possibleStates)
      && forall k :: 0 <= k < m.model.Index(r.error.at) ==> !NoneSet(m.model.data[k].possibleStates)
    ensures r == Err(AllStatesDecided) <==>
      forall k :: 0 <= k < |m.model.data| ==> !NoneSet(m.model.data[k].possibleStates)
    ensures r.Err? && (r.error.NoValidStates? || r.error.AllStatesDecided?)
  {
    var es := Entropies(m);
    ScanCorrect(es);
    forall k | 0 <= k < |es| ensures es[k].Contra? <==> NoneSet(m.model.data[k].possibleStates) {
      CountZeroIff(m.model.data[k].possibleStates);
    }
    ToCoordinates(m.model, Scan(es))
  }

  /** The palette index of a colour, by binary search. A colour absent from
      the palette is a programming error (the lookup panics). */
  function ColorToIndex(m: OverlappingModel, color: Color): (i: nat)
    requires StrictlyIncreasing(m.palette)
    requires color in m.palette
    ensures i < |m.palette| && m.palette[i] == color
  {
    BinarySearch(m.palette, color).value
  }

  /** Whether `coord`, read as `(row, col)`, lies on the grid. */
  function ValidCoordinate(m: OverlappingModel, coord: Coord): bool
  {
    coord.0 < m.model.rows && coord.1 < m.model.cols
  }

  /** A coordinate passes the bounds check exactly when it is the
      coordinate of some stored cell. */
  lemma ValidCoordinateAddressesCell(m: OverlappingModel, coord: Coord)
    requires m.model.Valid()
    ensures ValidCoordinate(m, coord) <==>
      exists k :: 0 <= k < |m.model.data| && m.model.CoordOf(k) == coord
  {
    if ValidCoordinate(m, coord) {
      var k := m.model.Index(coord);
      assert m.model.CoordOf(k) == coord;
    }
  }

  /** Pixel `k` of `pattern`, placed with the pattern's top-left corner at
      `p`, lands on the grid on a cell that still allows its colour. */
  predicate PixelFits(m: OverlappingModel, p: Coord, pattern: Pattern, k: nat)
    requires WellFormed(m)
    requires pattern.Valid() && k < |pattern.data| && pattern.data[k] in m.palette
  {
    var color := ColorToIndex(m, pattern.data[k]);
    var d := pattern.CoordOf(k);
    var q := (p.0 + d.0, p.1 + d.1);
    ValidCoordinate(m, q) && ValidColor(m.model.Get(q), color)
  }

  /** Every pixel of the pattern fits: a pattern that hangs over the edge of
      the grid does not. */
  ghost predicate Fits(m: OverlappingModel, p: Coord, s: nat)
    requires WellFormed(m) && s < |m.states|
  {
    forall k :: 0 <= k < |m.states[s].0.data| ==> PixelFits(m, p, m.states[s].0, k)
  }

  /** The indices of the catalog patterns that fit with their top-left
      corner at `position`, in increasing order. A pattern is dropped at its
      first pixel that lies off the grid or on a cell that no longer allows
      the pixel's colour. */
  method ValidStatesAtPosition(m: OverlappingModel, position: Coord) returns (valid: seq<nat>)
    requires WellFormed(m)
    ensures forall i :: 0 <= i < |valid| ==> valid[i] < |m.states|
    ensures forall i, j :: 0 <= i < j < |valid| ==> valid[i] < valid[j]
    ensures forall s :: 0 <= s < |m.states| ==> (s in valid <==> Fits(m, position, s))
  {
    valid := [];
    var s := 0;
    while s < |m.states|
      invariant s <= |m.states|
      invariant forall i :: 0 <= i < |valid| ==> valid[i] < s
      invariant forall i, j :: 0 <= i < j < |valid| ==> valid[i] < valid[j]
      invariant forall t :: 0 <= t < s ==> (t in valid <==> Fits(m, position, t))
    {
      var pattern := m.states[s].0;
      var k := 0;
      var fits := true;
      while fits && k < |pattern.data|
        invariant k <= |pattern.data|
        invariant forall j :: 0 <= j < k ==> PixelFits(m, position, pattern, j)
        invariant !fits ==> k < |pattern.data| && !PixelFits(m, position, pattern, k)
        decreases |pattern.data| - k, fits
      {
        var color := ColorToIndex(m, pattern.data[k]);
        var d := pattern.CoordOf(k);
        var q := (position.0 + d.0, position.1 + d.1);
        if !ValidCoordinate(m, q) {
          fits := false;
        } else if !ValidColor(m.model.Get(q), color) {
          fits := false;
        } else {
          k := k + 1;
        }
      }
      if fits {
        valid := valid + [s];
      }
      s := s + 1;
    }
  }

  /** Collapses the cell at `coord` to state `chosen`, leaving every other
      cell, the palette and the catalog as they were. */
  function CollapseAt(m: OverlappingModel, coord: Coord, chosen: nat): (m': OverlappingModel)
    requires Sized(m) && m.model.InBounds(coord)
    requires chosen < |m.states| && m.model.Get(coord).possibleStates[chosen]
    ensures Sized(m')
    ensures m'.palette == m.palette && m'.states == m.states && m'.stateSize == m.stateSize
    ensures m'.model.rows == m.model.rows && m'.model.cols == m.model.cols
    ensures OnlySet(m'.model.Get(coord).possibleStates, chosen)
    ensures m'.model.Get(coord).possibleColors == m.model.Get(coord).possibleColors
    ensures Shrinks(m.model.Get(coord).possibleStates, m'.model.Get(coord).possibleStates)
    ensures forall k :: 0 <= k < |m.model.data| && k != m.model.Index(coord) ==>
      m'.model.data[k] == m.model.data[k]
  {
    var k := m.model.Index(coord);
    var cell := Collapse(m.model.data[k], chosen);
    m.(model := m.model.(data := m.model.data[k := cell]))
  }

  /** No cell has had any colour ruled out. */
  ghost predicate ColorsUnconstrained(m: OverlappingModel) {
    forall k, c :: 0 <= k < |m.model.data| && 0 <= c < |m.model.data[k].possibleColors| ==>
      m.model.data[k].possibleColors[c]
  }

  /** `Fits` in grid terms: every pixel `d` of the pattern, placed at
      `p + d`, is on the grid and on a cell allowing its colour. */
  lemma FitsIffEveryPixelFits(m: OverlappingModel, p: Coord, s: nat)
    requires WellFormed(m) && s < |m.states|
    ensures var pattern := m.states[s].0;
      Fits(m, p, s) <==>
        forall d: Coord :: pattern.InBounds(d) ==>
          var q := (p.0 + d.0, p.1 + d.1);
          && m.model.InBounds(q)
          && m.model.Get(q).possibleColors[ColorToIndex(m, pattern.Get(d))]
  {
    var pattern := m.states[s].0;
    if Fits(m, p, s) {
      forall d: Coord | pattern.InBounds(d)
        ensures var q := (p.0 + d.0, p.1 + d.1);
          m.model.InBounds(q) && m.model.Get(q).possibleColors[ColorToIndex(m, pattern.Get(d))]
      {
        assert PixelFits(m, p, pattern, pattern.Index(d));
      }
    }
  }

  /** On a grid where no colour has been ruled out, a pattern fits exactly
      when it lies wholly on the grid: patterns hanging over an edge are
      rejected, not treated as satisfied. */
  lemma FitsOnUnconstrainedGrid(m: OverlappingModel, p: Coord, s: nat)
    requires WellFormed(m) && ColorsUnconstrained(m) && s < |m.states|
    ensures var pattern := m.states[s].0;
      Fits(m, p, s) <==>
        |pattern.data| == 0 ||
        (p.0 + pattern.rows <= m.model.rows && p.1 + pattern.cols <= m.model.cols)
  {
    var pattern := m.states[s].0;
    if |pattern.data| > 0 {
      if p.0 + pattern.rows <= m.model.rows && p.1 + pattern.cols <= m.model.cols {
        forall k | 0 <= k < |pattern.data| ensures PixelFits(m, p, pattern, k) {
          var d := pattern.CoordOf(k);
          var q := (p.0 + d.0, p.1 + d.1);
          assert m.model.InBounds(q);
          assert m.model.Get(q) == m.model.data[m.model.Index(q)];
        }
      } else {
        var corner := (pattern.rows - 1, pattern.cols - 1);
        var k := pattern.Index(corner);
        assert pattern.CoordOf(k) == corner;
        assert !PixelFits(m, p, pattern, k);
      }
    }
  }

  /** A cell that has ruled out a colour excludes every pattern that would
      place that colour on it. */
  lemma ForbiddenColorExcludes(m: OverlappingModel, p: Coord, s: nat, d: Coord, c: nat)
    requires WellFormed(m) && s < |m.states|
    requires m.states[s].0.InBounds(d)
    requires m.model.InBounds((p.0 + d.0, p.1 + d.1))
    requires c < |m.palette| && m.palette[c] == m.states[s].0.Get(d)
    requires !m.model.Get((p.0 + d.0, p.1 + d.1)).possibleColors[c]
    ensures !Fits(m, p, s)
  {
    var pattern := m.states[s].0;
    var k := pattern.Index(d);
    assert pattern.data[k] == pattern.Get(d);
    StrictlyIncreasingIsSortedAndDistinct(m.palette);
    assert ColorToIndex(m, pattern.Get(d)) == c;
    assert !PixelFits(m, p, pattern, k);
  }

  /** Ruling out colours never makes a pattern fit that did not fit before. */
  lemma FitsMonotone(m: OverlappingModel, m': OverlappingModel, p: Coord, s: nat)
    requires WellFormed(m) && WellFormed(m') && s < |m.states|
    requires m'.palette == m.palette && m'.states == m.states
    requires m'.model.rows == m.model.rows && m'.model.cols == m.model.cols
    requires forall k :: 0 <= k < |m.model.data| ==>
      Shrinks(m.model.data[k].possibleColors, m'.model.data[k].possibleColors)
    ensures Fits(m', p, s) ==> Fits(m, p, s)
  {
    var pattern := m.states[s].0;
    if Fits(m', p, s) {
      forall k | 0 <= k < |pattern.data| ensures PixelFits(m, p, pattern, k) {
        assert PixelFits(m', p, pattern, k);
        var d := pattern.CoordOf(k);
        var q := (p.0 + d.0, p.1 + d.1);
        var i := m.model.Index(q);
        assert m'.model.Index(q) == i;
      }
    }
  }
}
