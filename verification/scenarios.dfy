/** Whole-model consequences: what a single-colour seed and a two-colour
    seed lead to. */
module Scenarios {

  import opened Wrappers
  import opened Arrays
  import opened Colors
  import opened Bits
  import opened Cells
  import opened Catalog
  import opened Model

  /** Every pixel of the image has colour `color`. */
  ghost predicate Uniform(image: Array2<Color>, color: Color) {
    forall k :: 0 <= k < |image.data| ==> image.data[k] == color
  }

  /** Every 1 by 1 window of a single-colour image shows that colour. */
  lemma UniformWindow(image: Array2<Color>, color: Color, w: Pattern)
    requires image.Valid() && Uniform(image, color)
    requires IsWindowOf(image, w, 1)
    ensures w == Array2(1, 1, [color])
  {
  }

  /** A strictly increasing sequence repeating one value has at most one
      element. */
  lemma ConstantIncreasingIsShort(s: seq<Color>, x: Color)
    requires StrictlyIncreasing(s)
    requires forall i :: 0 <= i < |s| ==> s[i] == x
    ensures |s| <= 1
  {
    assert |s| >= 2 ==> Below(s[0], s[1]);
  }

  /** A strictly increasing sequence drawing on two values has at most two
      elements. */
  lemma TwoValuesIncreasingIsShort(s: seq<Color>, a: Color, b: Color)
    requires StrictlyIncreasing(s)
    requires forall i :: 0 <= i < |s| ==> s[i] == a || s[i] == b
    ensures |s| <= 2
  {
    if |s| >= 3 {
      var x, y, z := s[0], s[1], s[2];
      BelowIsStrictTotalOrder(x, y, z);
      assert false;
    }
  }

  /** A non-empty single-colour seed has a one-colour palette. */
  lemma UniformSeedPalette(seed: Array2<Color>, color: Color)
    requires seed.Valid() && |seed.data| > 0 && Uniform(seed, color)
    ensures BuildColorPalette(seed) == [color]
  {
    var palette := BuildColorPalette(seed);
    assert color in palette by {
      assert seed.data[0] == color;
    }
    forall i | 0 <= i < |palette| ensures palette[i] == color {
      assert palette[i] in seed.data;
      var k :| 0 <= k < |seed.data| && seed.data[k] == palette[i];
    }
    ConstantIncreasingIsShort(palette, color);
    assert palette[0] == color;
  }

  /** With block size 1 a non-empty single-colour seed has a catalog of one
      pattern whose frequency is the number of pixels. */
  lemma UniformSeedCatalog(seed: Array2<Color>, color: Color)
    requires seed.Valid() && |seed.data| > 0 && Uniform(seed, color)
    ensures BuildBlockFrequencyMap(seed, 1) == [(Array2(1, 1, [color]), |seed.data|)]
  {
    var states := BuildBlockFrequencyMap(seed, 1);
    var block := Array2(1, 1, [color]);
    forall i | 0 <= i < |states| ensures states[i].0 == block {
      UniformWindow(seed, color, states[i].0);
    }
    SingleKey(states, block, |seed.data|);
  }

  /** An association list with distinct keys, all equal to `key`, whose
      counts sum to a positive `total` is the single entry `(key, total)`. */
  lemma SingleKey<T>(entries: seq<(T, nat)>, key: T, total: nat)
    requires DistinctKeys(entries)
    requires forall i :: 0 <= i < |entries| ==> entries[i].0 == key
    requires SumCounts(entries) == total > 0
    ensures entries == [(key, total)]
  {
  }

  /** Built from a non-empty single-colour seed with block size 1, a model
      of any size is finished before any cell is collapsed: the catalog has
      one pattern, every cell has that one state and entropy zero, and the
      selection reports that all states are decided. */
  lemma UniformSeedIsDecided(seed: Array2<Color>, color: Color, outputDims: (nat, nat))
    requires seed.Valid() && |seed.data| > 0 && Uniform(seed, color)
    ensures var m := FromSeedImage(seed, outputDims, 1);
      && |m.states| == 1
      && AllResolved(m)
      && (forall k :: 0 <= k < |m.model.data| ==> Entropy(m.model.data[k], m.states) == Val(0.0))
      && FindLowestNonzeroEntropyCoordinates(m) == Err(AllStatesDecided)
  {
    UniformSeedCatalog(seed, color);
    SingleStateModel(FromSeedImage(seed, outputDims, 1));
  }

  /** A grid of fresh cells over a one-pattern catalog is resolved
      everywhere. The catalog size is repeated among the ensures so that a
      caller gets every fact about `m` from this one call; the lemma exists
      to keep the uniform-seed proof cheap. */
  lemma SingleStateModel(m: OverlappingModel)
    requires Sized(m) && |m.states| == 1
    requires forall k :: 0 <= k < |m.model.data| ==> m.model.data[k] == New(|m.palette|, 1)
    ensures |m.states| == 1
    ensures AllResolved(m)
    ensures forall k :: 0 <= k < |m.model.data| ==> Entropy(m.model.data[k], m.states) == Val(0.0)
    ensures FindLowestNonzeroEntropyCoordinates(m) == Err(AllStatesDecided)
  {
    var start := New(|m.palette|, 1);
    CountOneIff(start.possibleStates, 0);
    CountZeroIff(start.possibleStates);
  }

  /** Fresh cells of a non-empty catalog are never contradictions, so the
      selection on a freshly built model reports that all states are
      decided; with two or more patterns every one of those cells is in
      fact undecided. */
  lemma FreshModelReportsDecided(seed: Array2<Color>, outputDims: (nat, nat), blockSize: nat)
    requires seed.Valid() && blockSize >= 1
    requires |BuildBlockFrequencyMap(seed, blockSize)| >= 1
    ensures var m := FromSeedImage(seed, outputDims, blockSize);
      && FindLowestNonzeroEntropyCoordinates(m) == Err(AllStatesDecided)
      && (|m.states| >= 2 ==>
            forall k :: 0 <= k < |m.model.data| ==> CountSet(m.model.data[k].possibleStates) >= 2)
  {
    var m := FromSeedImage(seed, outputDims, blockSize);
    var start := New(|m.palette|, |m.states|);
    assert !NoneSet(start.possibleStates) by {
      CountPositive(start.possibleStates, 0);
      CountZeroIff(start.possibleStates);
    }
    if |m.states| >= 2 {
      CountTwo(start.possibleStates, 0, 1);
    }
    assert forall k :: 0 <= k < |m.model.data| ==> m.model.data[k] == start;
  }

  /** A seed of one row and two pixels of different colours. */
  predicate TwoColorStrip(seed: Array2<Color>) {
    seed.Valid() && seed.rows == 1 && seed.cols == 2 && seed.data[0] != seed.data[1]
  }

  /** A two-colour strip has a palette of two colours and, with block size
      1, at least two patterns. */
  lemma TwoColorSeedHasTwoPatterns(seed: Array2<Color>)
    requires TwoColorStrip(seed)
    ensures |BuildColorPalette(seed)| == 2
    ensures |BuildBlockFrequencyMap(seed, 1)| >= 2
  {
    TwoColorPalette(seed);
    var left := Window(seed, 0, 0, 1);
    var right := Window(seed, 0, 1, 1);
    assert left.Get((0, 0)) != right.Get((0, 0));
    DistinctWindowsGiveTwoPatterns(seed, 1, left, right);
  }

  /** Two windows of different content are two different patterns. */
  lemma DistinctWindowsGiveTwoPatterns(image: Array2<Color>, n: nat, a: Pattern, b: Pattern)
    requires image.Valid() && n >= 1
    requires a != b
    requires IsWindowOf(image, a, n) && IsWindowOf(image, b, n)
    ensures |BuildBlockFrequencyMap(image, n)| >= 2
  {
    var states := BuildBlockFrequencyMap(image, n);
    var ks := Keys(states);
    assert a in ks && b in ks;
    var i :| 0 <= i < |ks| && ks[i] == a;
    var j :| 0 <= j < |ks| && ks[j] == b;
    assert i != j;
  }

  /** From a two-colour strip with block size 1, every cell of a fresh 3 by
      3 grid still has two possible states, yet the selection reports that
      all states are decided. */
  lemma TwoColorSeedReportsDecided(seed: Array2<Color>)
    requires TwoColorStrip(seed)
    ensures var m := FromSeedImage(seed, (3, 3), 1);
      && |m.model.data| == 9
      && (forall k :: 0 <= k < |m.model.data| ==> CountSet(m.model.data[k].possibleStates) >= 2)
      && FindLowestNonzeroEntropyCoordinates(m) == Err(AllStatesDecided)
  {
    TwoColorSeedHasTwoPatterns(seed);
    FreshModelReportsDecided(seed, (3, 3), 1);
  }

  /** The palette of a two-colour strip is its two colours in increasing
      order. */
  lemma TwoColorPalette(seed: Array2<Color>)
    requires TwoColorStrip(seed)
    ensures var palette := BuildColorPalette(seed);
      |palette| == 2 && seed.data[0] in palette && seed.data[1] in palette
  {
    var a, b := seed.data[0], seed.data[1];
    assert forall k :: 0 <= k < |seed.data| ==> seed.data[k] == a || seed.data[k] == b;
    TwoColorPaletteOf(seed, a, b);
  }

  /** An image showing exactly two different colours has a palette of
      those two. */
  lemma TwoColorPaletteOf(image: Array2<Color>, a: Color, b: Color)
    requires a != b && a in image.data && b in image.data
    requires forall k :: 0 <= k < |image.data| ==> image.data[k] == a || image.data[k] == b
    ensures var palette := BuildColorPalette(image);
      |palette| == 2 && a in palette && b in palette
  {
    var palette := BuildColorPalette(image);
    assert a in palette && b in palette;
    assert |palette| >= 2 by {
      var i :| 0 <= i < |palette| && palette[i] == a;
      var j :| 0 <= j < |palette| && palette[j] == b;
    }
    forall t | 0 <= t < |palette| ensures palette[t] == a || palette[t] == b {
      assert palette[t] in image.data;
    }
    TwoValuesIncreasingIsShort(palette, a, b);
  }
}
