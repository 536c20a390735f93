/** Colours and the sorted-palette machinery: the total order on colours,
    sorting, removal of adjacent duplicates, and binary search. */
module Colors {

  import opened Wrappers

  type Channel = x: int | 0 <= x < 256

  /** An RGB pixel value. */
  datatype Color = RGB(r: Channel, g: Channel, b: Channel)

  /** The strict total order on colours: lexicographic over (r, g, b). */
  predicate Below(x: Color, y: Color) {
    x.r < y.r || (x.r == y.r && (x.g < y.g || (x.g == y.g && x.b < y.b)))
  }

  predicate AtMost(x: Color, y: Color) {
    Below(x, y) || x == y
  }

  /** `Below` is a strict total order: irreflexive, transitive, and any two
      distinct colours are comparable. */
  lemma BelowIsStrictTotalOrder(x: Color, y: Color, z: Color)
    ensures !Below(x, x)
    ensures Below(x, y) && Below(y, z) ==> Below(x, z)
    ensures x != y ==> Below(x, y) != Below(y, x)
  {
  }

  /** Non-decreasing under `AtMost`. */
  ghost predicate Sorted(s: seq<Color>) {
    forall i, j :: 0 <= i < j < |s| ==> AtMost(s[i], s[j])
  }

  /** Strictly increasing under `Below`: sorted and duplicate-free. */
  ghost predicate StrictlyIncreasing(s: seq<Color>) {
    forall i, j :: 0 <= i < j < |s| ==> Below(s[i], s[j])
  }

  lemma StrictlyIncreasingIsSortedAndDistinct(s: seq<Color>)
    requires StrictlyIncreasing(s)
    ensures Sorted(s)
    ensures forall i, j :: 0 <= i < j < |s| ==> s[i] != s[j]
  {
  }

  /** Prepending an element no larger than the head keeps a sequence sorted. */
  lemma SortedCons(a: Color, s: seq<Color>)
    requires Sorted(s)
    requires |s| > 0 ==> AtMost(a, s[0])
    ensures Sorted([a] + s)
  {
  }

  /** Inserts `x` into a sorted sequence, before the first element above it. */
  function {:induction false} Insert(x: Color, s: seq<Color>): (r: seq<Color>)
    requires Sorted(s)
    ensures Sorted(r)
    ensures multiset(r) == multiset(s) + multiset{x}
    ensures |r| == |s| + 1
    ensures r[0] == x || (|s| > 0 && r[0] == s[0])
  {
    if s == [] || AtMost(x, s[0]) then
      [x] + s
    else
      var rest := Insert(x, s[1..]);
      assert s == [s[0]] + s[1..];
      assert AtMost(s[0], rest[0]);
      var r := [s[0]] + rest;
      SortedCons(s[0], rest);
      r
  }

  /** Sorts a sequence of colours. Every sort produces the same sequence
      here, because the order is total and equal colours are identical. */
  function {:induction false} Sort(s: seq<Color>): (r: seq<Color>)
    ensures Sorted(r)
    ensures multiset(r) == multiset(s)
  {
    if s == [] then []
    else
      assert s == s[..|s| - 1] + [s[|s| - 1]];
      Insert(s[|s| - 1], Sort(s[..|s| - 1]))
  }

  /** Removes consecutive repeated elements, keeping one of each run. */
  function {:induction false} Dedup(s: seq<Color>): (r: seq<Color>)
    ensures forall y :: y in r <==> y in s
    ensures |s| > 0 ==> |r| > 0 && r[0] == s[0]
    ensures forall i :: 0 <= i < |r| - 1 ==> r[i] != r[i + 1]
    ensures Sorted(s) ==> StrictlyIncreasing(r)
  {
    if |s| <= 1 then s
    else if s[0] == s[1] then
      Dedup(s[1..])
    else
      var rest := Dedup(s[1..]);
      assert s == [s[0]] + s[1..];
      [s[0]] + rest
  }

  /** Looks `x` up in a strictly increasing sequence by halving the search
      range `[lo, hi)`; `None` when `x` is absent. */
  function {:induction false} SearchRange(s: seq<Color>, x: Color, lo: nat, hi: nat): (r: Option<nat>)
    requires StrictlyIncreasing(s)
    requires lo <= hi <= |s|
    requires forall i :: 0 <= i < lo ==> Below(s[i], x)
    requires forall i :: hi <= i < |s| ==> Below(x, s[i])
    ensures r.Some? <==> x in s
    ensures r.Some? ==> r.value < |s| && s[r.value] == x
    decreases hi - lo
  {
    if lo == hi then
      assert forall i :: 0 <= i < |s| ==> s[i] != x by {
        forall i | 0 <= i < |s| ensures s[i] != x {
          BelowIsStrictTotalOrder(s[i], x, s[i]);
        }
      }
      None
    else
      var mid := lo + (hi - lo) / 2;
      if Below(s[mid], x) then
        SearchRange(s, x, mid + 1, hi)
      else if Below(x, s[mid]) then
        SearchRange(s, x, lo, mid)
      else
        Some(mid)
  }

  /** Binary search over the whole of a strictly increasing sequence. */
  function BinarySearch(s: seq<Color>, x: Color): (r: Option<nat>)
    requires StrictlyIncreasing(s)
    ensures r.Some? <==> x in s
    ensures r.Some? ==> r.value < |s| && s[r.value] == x
  {
    SearchRange(s, x, 0, |s|)
  }
}
