/** Building the colour palette and the pattern catalog from a seed image. */
module Catalog {

  import opened Arrays
  import opened Colors

  /** An N-by-N block of colours taken from the seed image. */
  type Pattern = Array2<Color>

  /** The distinct colours of the image in increasing order: every pixel is
      collected, the collection sorted, and adjacent repeats removed. */
  function BuildColorPalette(image: Array2<Color>): (palette: seq<Color>)
    ensures StrictlyIncreasing(palette)
    ensures forall x :: x in palette <==> x in image.data
  {
    var sorted := Sort(image.data);
    assert forall x :: x in sorted <==> x in image.data by {
      forall x ensures x in sorted <==> x in image.data {
        assert x in sorted <==> x in multiset(sorted);
        assert x in image.data <==> x in multiset(image.data);
      }
    }
    Dedup(sorted)
  }

  /** The `n` by `n` block of `image` whose top-left pixel is at `(row, col)`. */
  function Window(image: Array2<Color>, row: nat, col: nat, n: nat): (w: Pattern)
    requires image.Valid()
    requires row + n <= image.rows && col + n <= image.cols
    ensures w.Valid() && w.rows == n && w.cols == n
    ensures forall d: Coord :: w.InBounds(d) ==> w.Get(d) == image.Get((row + d.0, col + d.1))
  {
    Init(n, n, (d: Coord) requires d.0 < n && d.1 < n => image.Get((row + d.0, col + d.1)))
  }

  /** Number of positions a window of side `n` can take along an axis of
      length `len` without wrapping around. */
  function Positions(len: nat, n: nat): nat
  {
    if n <= len then len - n + 1 else 0
  }

  /** `block` is the content of some window of side `n` of the image. */
  ghost predicate IsWindowOf(image: Array2<Color>, block: Pattern, n: nat)
    requires image.Valid()
  {
    exists row: nat, col: nat ::
      row + n <= image.rows && col + n <= image.cols && block == Window(image, row, col, n)
  }

  /** The top-left corner of the `k`-th window position in row-major
      order: `k` counts positions row by row, `across` to a row. */
  function Corner(image: Array2<Color>, n: nat, k: nat): (c: Coord)
    requires k < Positions(image.rows, n) * Positions(image.cols, n)
    ensures c.0 + n <= image.rows && c.1 + n <= image.cols
  {
    var across := Positions(image.cols, n);
    NthCorner(image.rows, image.cols, n, k);
    (k / across, k % across)
  }

  /** The window whose top-left corner is the `k`-th position in row-major
      order. */
  function NthWindow(image: Array2<Color>, n: nat, k: nat): (w: Pattern)
    requires image.Valid() && n >= 1
    requires k < Positions(image.rows, n) * Positions(image.cols, n)
    ensures IsWindowOf(image, w, n)
    ensures w == Window(image, Corner(image, n, k).0, Corner(image, n, k).1, n)
  {
    var c := Corner(image, n, k);
    Window(image, c.0, c.1, n)
  }

  /** The `k`-th corner in row-major order leaves room for a whole window. */
  lemma NthCorner(rows: nat, cols: nat, n: nat, k: nat)
    requires k < Positions(rows, n) * Positions(cols, n)
    ensures Positions(cols, n) > 0
    ensures k / Positions(cols, n) + n <= rows && k % Positions(cols, n) + n <= cols
  {
    var down, across := Positions(rows, n), Positions(cols, n);
    CoordBounds(down, across, k);
  }

  /** All windows of side `n`, stride one in both axes, with top-left
      corners in row-major order, each position exactly once. A window side
      of zero is refused. */
  function Windows(image: Array2<Color>, n: nat): (ws: seq<Pattern>)
    requires image.Valid() && n >= 1
    ensures |ws| == Positions(image.rows, n) * Positions(image.cols, n)
    ensures forall k :: 0 <= k < |ws| ==> ws[k] == NthWindow(image, n, k)
    ensures forall w :: w in ws ==> IsWindowOf(image, w, n)
    ensures forall row: nat, col: nat :: row + n <= image.rows && col + n <= image.cols ==>
      Window(image, row, col, n) in ws
  {
    var count := Positions(image.rows, n) * Positions(image.cols, n);
    var ws := seq(count, k requires 0 <= k < count => NthWindow(image, n, k));
    WindowsCover(image, n, ws);
    ws
  }

  /** Every window position occurs in the row-major enumeration. */
  lemma WindowsCover(image: Array2<Color>, n: nat, ws: seq<Pattern>)
    requires image.Valid() && n >= 1
    requires |ws| == Positions(image.rows, n) * Positions(image.cols, n)
    requires forall k :: 0 <= k < |ws| ==> ws[k] == NthWindow(image, n, k)
    ensures forall row: nat, col: nat :: row + n <= image.rows && col + n <= image.cols ==>
      Window(image, row, col, n) in ws
  {
    var down := Positions(image.rows, n);
    var across := Positions(image.cols, n);
    forall row: nat, col: nat | row + n <= image.rows && col + n <= image.cols
      ensures Window(image, row, col, n) in ws
    {
      FlatIndexBounds(down, across, row, col);
      assert ws[row * across + col] == Window(image, row, col, n);
    }
  }

  /** The keys of an association list, in order. */
  function Keys<T>(entries: seq<(T, nat)>): (ks: seq<T>)
    ensures |ks| == |entries|
    ensures forall i :: 0 <= i < |entries| ==> ks[i] == entries[i].0
  {
    if entries == [] then [] else [entries[0].0] + Keys(entries[1..])
  }

  /** No key occurs twice. */
  ghost predicate DistinctKeys<T>(entries: seq<(T, nat)>) {
    forall i, j :: 0 <= i < j < |entries| ==> entries[i].0 != entries[j].0
  }

  /** Dropping the first entry keeps the keys distinct. */
  lemma DistinctKeysTail<T>(entries: seq<(T, nat)>)
    requires entries != [] && DistinctKeys(entries)
    ensures DistinctKeys(entries[1..])
  {
    forall i, j | 0 <= i < j < |entries| - 1 ensures entries[1..][i].0 != entries[1..][j].0 {
      assert entries[1..][i] == entries[i + 1] && entries[1..][j] == entries[j + 1];
    }
  }

  /** Sum of the counts of an association list. */
  function SumCounts<T>(entries: seq<(T, nat)>): nat
  {
    if entries == [] then 0 else entries[0].1 + SumCounts(entries[1..])
  }

  /** Adds one occurrence of `x`: its count goes up by one, starting from
      zero when `x` is not yet a key, in which case it is appended. */
  function {:induction false} Bump<T(==)>(entries: seq<(T, nat)>, x: T): (r: seq<(T, nat)>)
    requires DistinctKeys(entries)
    ensures |r| == if x in Keys(entries) then |entries| else |entries| + 1
    ensures forall i :: 0 <= i < |entries| ==> r[i].0 == entries[i].0
    ensures forall i :: 0 <= i < |entries| ==>
      r[i].1 == entries[i].1 + (if entries[i].0 == x then 1 else 0)
    ensures x !in Keys(entries) ==> r[|entries|] == (x, 1)
    ensures SumCounts(r) == SumCounts(entries) + 1
  {
    if entries == [] then
      [(x, 1)]
    else
      assert Keys(entries) == [entries[0].0] + Keys(entries[1..]);
      if entries[0].0 == x then
        assert x !in Keys(entries[1..]);
        var r := [(x, entries[0].1 + 1)] + entries[1..];
        assert r[1..] == entries[1..];
        r
      else
        DistinctKeysTail(entries);
        var rest := Bump(entries[1..], x);
        var r := [entries[0]] + rest;
        assert r[1..] == rest;
        r
  }

  /** Counts the occurrences of each distinct element of `xs`, listing the
      elements in order of first occurrence. */
  function {:induction false} Tally<T(==)>(xs: seq<T>): (r: seq<(T, nat)>)
    ensures DistinctKeys(r)
    ensures forall i :: 0 <= i < |r| ==> r[i].0 in xs
    ensures forall k :: 0 <= k < |xs| ==> xs[k] in Keys(r)
    ensures forall i :: 0 <= i < |r| ==> r[i].1 == multiset(xs)[r[i].0]
    ensures SumCounts(r) == |xs|
  {
    if xs == [] then []
    else
      var init := xs[..|xs| - 1];
      var last := xs[|xs| - 1];
      var prev := Tally(init);
      var r := Bump(prev, last);
      SplitLast(xs);
      TallyStep(xs, init, last, prev, r);
      r
  }

  /** One step of `Tally`: counting one more element keeps the keys
      distinct, the keys equal to the elements seen and the counts equal to
      their multiplicities. */
  lemma TallyStep<T>(xs: seq<T>, init: seq<T>, last: T, prev: seq<(T, nat)>, r: seq<(T, nat)>)
    requires xs == init + [last]
    requires DistinctKeys(prev)
    requires forall i :: 0 <= i < |prev| ==> prev[i].0 in init
    requires forall k :: 0 <= k < |init| ==> init[k] in Keys(prev)
    requires forall i :: 0 <= i < |prev| ==> prev[i].1 == multiset(init)[prev[i].0]
    requires r == Bump(prev, last)
    ensures DistinctKeys(r)
    ensures forall i :: 0 <= i < |r| ==> r[i].0 in xs
    ensures forall k :: 0 <= k < |xs| ==> xs[k] in Keys(r)
    ensures forall i :: 0 <= i < |r| ==> r[i].1 == multiset(xs)[r[i].0]
  {
    var isNew := last !in Keys(prev);
    if isNew {
      UnseenKey(init, last, prev);
    }
    TallyStepKeys(xs, init, last, prev, r, isNew);
    TallyStepCounts(xs, init, last, prev, r, isNew);
    TallyStepCover(xs, init, last, prev, r);
  }

  /** A non-empty sequence is its prefix followed by its last element. */
  lemma SplitLast<T>(xs: seq<T>)
    requires xs != []
    ensures xs == xs[..|xs| - 1] + [xs[|xs| - 1]]
  {
  }

  /** An element that is not a key of a tally covering `init` does not occur
      in `init`, and differs from every key. */
  lemma UnseenKey<T>(init: seq<T>, last: T, prev: seq<(T, nat)>)
    requires forall k :: 0 <= k < |init| ==> init[k] in Keys(prev)
    requires last !in Keys(prev)
    ensures last !in init
    ensures forall i :: 0 <= i < |prev| ==> prev[i].0 != last
  {
  }

  lemma TallyStepKeys<T>(xs: seq<T>, init: seq<T>, last: T, prev: seq<(T, nat)>, r: seq<(T, nat)>, isNew: bool)
    requires xs == init + [last]
    requires DistinctKeys(prev)
    requires forall i :: 0 <= i < |prev| ==> prev[i].0 in init
    requires isNew ==> forall i :: 0 <= i < |prev| ==> prev[i].0 != last
    requires |r| == if isNew then |prev| + 1 else |prev|
    requires forall i :: 0 <= i < |prev| ==> r[i].0 == prev[i].0
    requires isNew ==> r[|prev|].0 == last
    ensures DistinctKeys(r)
    ensures forall i :: 0 <= i < |r| ==> r[i].0 in xs
  {
  }

  lemma TallyStepCounts<T>(xs: seq<T>, init: seq<T>, last: T, prev: seq<(T, nat)>, r: seq<(T, nat)>, isNew: bool)
    requires xs == init + [last]
    requires forall i :: 0 <= i < |prev| ==> prev[i].1 == multiset(init)[prev[i].0]
    requires isNew ==> last !in init
    requires |r| == if isNew then |prev| + 1 else |prev|
    requires forall i :: 0 <= i < |prev| ==> r[i].0 == prev[i].0
    requires forall i :: 0 <= i < |prev| ==>
      r[i].1 == prev[i].1 + (if prev[i].0 == last then 1 else 0)
    requires isNew ==> r[|prev|] == (last, 1)
    ensures forall i :: 0 <= i < |r| ==> r[i].1 == multiset(xs)[r[i].0]
  {
  }

  lemma TallyStepCover<T>(xs: seq<T>, init: seq<T>, last: T, prev: seq<(T, nat)>, r: seq<(T, nat)>)
    requires xs == init + [last]
    requires DistinctKeys(prev)
    requires forall k :: 0 <= k < |init| ==> init[k] in Keys(prev)
    requires r == Bump(prev, last)
    ensures forall k :: 0 <= k < |xs| ==> xs[k] in Keys(r)
  {
  }

  /** The pattern catalog: every window of side `blockSize`, counted by
      content. The order of the entries is one admissible choice (first
      occurrence); none of the properties below depends on it. */
  function BuildBlockFrequencyMap(image: Array2<Color>, blockSize: nat): (states: seq<(Pattern, nat)>)
    requires image.Valid() && blockSize >= 1
    ensures DistinctKeys(states)
    ensures forall i :: 0 <= i < |states| ==> states[i].1 >= 1
    ensures forall i :: 0 <= i < |states| ==> IsWindowOf(image, states[i].0, blockSize)
    ensures forall i :: 0 <= i < |states| ==>
      states[i].1 == multiset(Windows(image, blockSize))[states[i].0]
    ensures forall row: nat, col: nat :: row + blockSize <= image.rows && col + blockSize <= image.cols ==>
      Window(image, row, col, blockSize) in Keys(states)
    ensures SumCounts(states) == Positions(image.rows, blockSize) * Positions(image.cols, blockSize)
  {
    var ws := Windows(image, blockSize);
    var states := Tally(ws);
    KeysCover(ws, states);
    states
  }

  /** When every element of `xs` is a key of `entries`, so is every member. */
  lemma KeysCover<T>(xs: seq<T>, entries: seq<(T, nat)>)
    requires forall k :: 0 <= k < |xs| ==> xs[k] in Keys(entries)
    ensures forall x :: x in xs ==> x in Keys(entries)
  {
  }
}
