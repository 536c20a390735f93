/** Cell selection with the entropy computed as the Shannon entropy of the
    remaining states, weighted by catalog frequency:
    `-sum p * ln(p)` with `p = weight / total weight of possible states`.

    The logarithm is a parameter; all that is used of it is that on the
    open interval (0, 1) it is negative and at least `1 - 1/x`, which the
    natural logarithm satisfies. */
module Shannon {

  import opened Wrappers
  import opened Arrays
  import opened Bits
  import opened Cells
  import opened Selection
  import opened Model
  import opened Colors
  import opened Catalog
  import opened Scenarios

  /** The two facts about the natural logarithm on (0, 1) the proofs use. */
  ghost predicate LogOnUnitInterval(ln: real -> real) {
    forall x: real :: 0.0 < x < 1.0 ==> 1.0 - 1.0 / x <= ln(x) < 0.0
  }

  /** Every catalog entry has been seen at least once. */
  ghost predicate PositiveWeights<T>(concreteStates: seq<(T, nat)>) {
    forall i :: 0 <= i < |concreteStates| ==> concreteStates[i].1 >= 1
  }

  /** Total frequency of the possible states. */
  function PossibleWeight<T>(bits: BitVec, concreteStates: seq<(T, nat)>): nat
    requires |bits| == |concreteStates|
  {
    if bits == [] then 0
    else (if bits[0] then concreteStates[0].1 else 0) + PossibleWeight(bits[1..], concreteStates[1..])
  }

  /** `sum p * ln(p)` over the possible states, `p` being a state's
      frequency divided by `total`. */
  function SumPLogP<T>(bits: BitVec, concreteStates: seq<(T, nat)>, total: real, ln: real -> real): real
    requires |bits| == |concreteStates| && total > 0.0
  {
    if bits == [] then 0.0
    else
      var p := concreteStates[0].1 as real / total;
      (if bits[0] then p * ln(p) else 0.0) + SumPLogP(bits[1..], concreteStates[1..], total, ln)
  }

  /** A single term `p * ln(p)` with `0 < p < 1` lies in `[-1, 0)`. */
  lemma TermBounds(p: real, ln: real -> real)
    requires LogOnUnitInterval(ln)
    requires 0.0 < p < 1.0
    ensures -1.0 <= p * ln(p) < 0.0
  {
  }

  /** A possible state weighs no more than the total, and two possible
      states weigh no more than the total together. */
  lemma {:induction false} WeightSplit<T>(bits: BitVec, concreteStates: seq<(T, nat)>, i: nat, j: nat)
    requires |bits| == |concreteStates|
    requires i < |bits| && bits[i] && j < |bits| && bits[j]
    ensures concreteStates[i].1 <= PossibleWeight(bits, concreteStates)
    ensures i != j ==> concreteStates[i].1 + concreteStates[j].1 <= PossibleWeight(bits, concreteStates)
  {
    if i > 0 && j > 0 {
      WeightSplit(bits[1..], concreteStates[1..], i - 1, j - 1);
    } else if i > 0 {
      WeightSplit(bits[1..], concreteStates[1..], i - 1, i - 1);
    } else if j > 0 {
      WeightSplit(bits[1..], concreteStates[1..], j - 1, j - 1);
    }
  }

  /** With every possible weight strictly between 0 and the total, the sum
      of `p * ln(p)` lies between minus the number of possible states and
      zero, and is negative when some state is possible. */
  lemma {:induction false} SumBounds<T>(bits: BitVec, concreteStates: seq<(T, nat)>, total: real, ln: real -> real)
    requires |bits| == |concreteStates| && total > 0.0
    requires LogOnUnitInterval(ln)
    requires forall i :: 0 <= i < |bits| && bits[i] ==>
      0 < concreteStates[i].1 && (concreteStates[i].1 as real) < total
    ensures -(CountSet(bits) as real) <= SumPLogP(bits, concreteStates, total, ln) <= 0.0
    ensures CountSet(bits) >= 1 ==> SumPLogP(bits, concreteStates, total, ln) < 0.0
  {
    if bits != [] {
      assert forall i :: 1 <= i < |bits| ==> bits[1..][i - 1] == bits[i] && concreteStates[1..][i - 1] == concreteStates[i];
      SumBounds(bits[1..], concreteStates[1..], total, ln);
      HeadTermBounds(bits, concreteStates, total, ln);
    }
  }

  /** The first term of the sum: in `[-1, 0)` when the first state is
      possible, and zero otherwise. */
  lemma HeadTermBounds<T>(bits: BitVec, concreteStates: seq<(T, nat)>, total: real, ln: real -> real)
    requires |bits| == |concreteStates| && total > 0.0 && bits != []
    requires LogOnUnitInterval(ln)
    requires bits[0] ==> 0 < concreteStates[0].1 && (concreteStates[0].1 as real) < total
    ensures var head := SumPLogP(bits, concreteStates, total, ln) - SumPLogP(bits[1..], concreteStates[1..], total, ln);
      (bits[0] ==> -1.0 <= head < 0.0) && (!bits[0] ==> head == 0.0)
  {
    if bits[0] {
      var p := concreteStates[0].1 as real / total;
      RatioInUnitInterval(concreteStates[0].1 as real, total);
      TermBounds(p, ln);
    }
  }

  lemma RatioInUnitInterval(w: real, total: real)
    requires 0.0 < w < total
    ensures 0.0 < w / total < 1.0
  {
    var p := w / total;
    assert p * total == w;
    // p >= 1 would make p * total at least total, which exceeds w
    if p >= 1.0 {
      assert false;
    }
  }

  /** The entropy of a cell with the Shannon formula: no value for a
      contradiction, zero for a resolved cell, and otherwise a positive
      finite number, never NaN. */
  function CorrectedEntropy<T>(c: UncertainCell, concreteStates: seq<(T, nat)>, ln: real -> real): (e: EntropyValue)
    requires |c.possibleStates| == |concreteStates|
    requires LogOnUnitInterval(ln) && PositiveWeights(concreteStates)
    ensures e.Contra? <==> CountSet(c.possibleStates) == 0
    ensures e == Val(0.0) <==> CountSet(c.possibleStates) == 1
    ensures CountSet(c.possibleStates) >= 2 ==> e.Val? && 0.0 < e.v <= CountSet(c.possibleStates) as real
    ensures !e.NaN?
  {
    var bits := c.possibleStates;
    CountZeroIff(bits);
    if NoneSet(bits) then Contra
    else if CountSet(bits) == 1 then Val(0.0)
    else
      var total := PossibleWeight(bits, concreteStates);
      assert forall i :: 0 <= i < |bits| && bits[i] ==> concreteStates[i].1 < total by {
        forall i | 0 <= i < |bits| && bits[i] ensures concreteStates[i].1 < total {
          var j := OtherSetBit(bits, i);
          WeightSplit(bits, concreteStates, i, j);
        }
      }
      SumBounds(bits, concreteStates, total as real, ln);
      Val(-SumPLogP(bits, concreteStates, total as real, ln))
  }

  /** With two or more set bits, every set bit has another set bit beside it. */
  lemma OtherSetBit(bits: BitVec, i: nat) returns (j: nat)
    requires i < |bits| && bits[i] && CountSet(bits) >= 2
    ensures j < |bits| && bits[j] && j != i
  {
    if forall j :: 0 <= j < |bits| && j != i ==> !bits[j] {
      CountOneIff(bits, i);
      assert false;
    }
    j :| 0 <= j < |bits| && j != i && bits[j];
  }

  /** The largest count of catalog entries a machine-sized length allows. */
  const USIZE_LIMIT: nat := 0x1_0000_0000_0000_0000

  /** No cell is a contradiction. */
  ghost predicate NoContradictionIn(m: OverlappingModel) {
    forall k :: 0 <= k < |m.model.data| ==> CountSet(m.model.data[k].possibleStates) >= 1
  }

  function CorrectedEntropies(m: OverlappingModel, ln: real -> real): (es: seq<EntropyValue>)
    requires Sized(m) && LogOnUnitInterval(ln) && PositiveWeights(m.states)
    ensures |es| == |m.model.data|
    ensures forall k :: 0 <= k < |es| ==> es[k] == CorrectedEntropy(m.model.data[k], m.states, ln)
  {
    seq(|m.model.data|, k requires 0 <= k < |m.model.data| =>
      CorrectedEntropy(m.model.data[k], m.states, ln))
  }

  /** The corrected entropies are finite doubles; a cell's entropy is a
      contradiction exactly when the cell has no possible state, and
      positive exactly when it has two or more. */
  lemma CorrectedEntropiesClassified(m: OverlappingModel, ln: real -> real)
    requires Sized(m) && LogOnUnitInterval(ln) && PositiveWeights(m.states)
    requires |m.states| < USIZE_LIMIT
    ensures var es := CorrectedEntropies(m, ln);
      && Finite(es)
      && (forall k :: 0 <= k < |es| ==> (es[k].Contra? <==> NoneSet(m.model.data[k].possibleStates)))
      && (forall k :: 0 <= k < |es| ==> (Positive(es[k]) <==> CountSet(m.model.data[k].possibleStates) >= 2))
  {
    var es := CorrectedEntropies(m, ln);
    forall k | 0 <= k < |es|
      ensures es[k].Val? ==> es[k].v <= F64_MAX
      ensures es[k].Contra? <==> NoneSet(m.model.data[k].possibleStates)
      ensures Positive(es[k]) <==> CountSet(m.model.data[k].possibleStates) >= 2
    {
      CountBound(m.model.data[k].possibleStates);
      CountZeroIff(m.model.data[k].possibleStates);
    }
  }

  /** The selection of the cell to collapse next, with Shannon entropy: the
      first contradiction if any; otherwise the last of the undecided cells
      of least entropy; and `AllStatesDecided` exactly when every cell is
      resolved. */
  function FindLowestCorrected(m: OverlappingModel, ln: real -> real): (r: Result<Coord, ModelError>)
    requires Sized(m) && LogOnUnitInterval(ln) && PositiveWeights(m.states)
    requires |m.states| < USIZE_LIMIT
    ensures r.Err? && r.error.NoValidStates? ==>
      && m.model.InBounds(r.error.at)
      && NoneSet(m.model.Get(r.error.at).possibleStates)
      && forall k :: 0 <= k < m.model.Index(r.error.at) ==> !NoneSet(m.model.data[k].possibleStates)
    ensures r == Err(AllStatesDecided) <==> AllResolved(m)
    ensures r.Ok? <==> NoContradictionIn(m) && !AllResolved(m)
    ensures r.Ok? ==>
      && m.model.InBounds(r.value)
      && CountSet(m.model.Get(r.value).possibleStates) >= 2
      && forall k :: 0 <= k < |m.model.data| && CountSet(m.model.data[k].possibleStates) >= 2 ==>
           var lowest := CorrectedEntropy(m.model.Get(r.value), m.states, ln).v;
           var other := CorrectedEntropy(m.model.data[k], m.states, ln).v;
           lowest <= other && (k > m.model.Index(r.value) ==> lowest < other)
    ensures !(r.Err? && r.error.UnexpectedNaN?)
  {
    var es := CorrectedEntropies(m, ln);
    CorrectedEntropiesClassified(m, ln);
    ScanCorrect(es);
    ToCoordinates(m.model, Scan(es))
  }

  /** Two equally frequent possible states give entropy `ln 2`, written
      `-ln(1/2)`. */
  lemma EqualPairEntropy<T>(c: UncertainCell, concreteStates: seq<(T, nat)>, ln: real -> real)
    requires |c.possibleStates| == 2 == |concreteStates|
    requires c.possibleStates[0] && c.possibleStates[1]
    requires concreteStates[0].1 == concreteStates[1].1 >= 1
    requires LogOnUnitInterval(ln)
    ensures CorrectedEntropy(c, concreteStates, ln) == Val(-ln(0.5))
  {
    var bits := c.possibleStates;
    var a := concreteStates[0].1;
    CountTwo(bits, 0, 1);
    assert PossibleWeight(bits[1..][1..], concreteStates[1..][1..]) == 0;
    assert PossibleWeight(bits, concreteStates) == 2 * a;
    var total := (2 * a) as real;
    HalfOfDouble(a as real);
    assert total == 2.0 * (a as real);
    assert SumPLogP(bits[1..][1..], concreteStates[1..][1..], total, ln) == 0.0;
    assert SumPLogP(bits, concreteStates, total, ln) == 0.5 * ln(0.5) + 0.5 * ln(0.5);
  }

  lemma HalfOfDouble(a: real)
    requires a > 0.0
    ensures a / (2.0 * a) == 0.5
  {
  }

  /** Entries of count at least one whose counts sum to their number all
      have count exactly one. */
  lemma {:induction false} UnitCounts<T>(entries: seq<(T, nat)>)
    requires PositiveWeights(entries)
    requires SumCounts(entries) <= |entries|
    ensures SumCounts(entries) == |entries|
    ensures forall i :: 0 <= i < |entries| ==> entries[i].1 == 1
  {
    if entries != [] {
      assert forall i :: 1 <= i < |entries| ==> entries[1..][i - 1] == entries[i];
      SumCountsAtLeastLength(entries[1..]);
      UnitCounts(entries[1..]);
    }
  }

  lemma {:induction false} SumCountsAtLeastLength<T>(entries: seq<(T, nat)>)
    requires PositiveWeights(entries)
    ensures SumCounts(entries) >= |entries|
  {
    if entries != [] {
      assert forall i :: 1 <= i < |entries| ==> entries[1..][i - 1] == entries[i];
      SumCountsAtLeastLength(entries[1..]);
    }
  }

  /** When every cell is undecided and all have the same entropy, the
      selection picks the last cell in row-major order. */
  lemma AllTiedSelectsLast(m: OverlappingModel, ln: real -> real, h: real)
    requires Sized(m) && LogOnUnitInterval(ln) && PositiveWeights(m.states)
    requires |m.states| < USIZE_LIMIT
    requires |m.model.data| > 0
    requires forall k :: 0 <= k < |m.model.data| ==> CountSet(m.model.data[k].possibleStates) >= 2
    requires forall k :: 0 <= k < |m.model.data| ==> CorrectedEntropy(m.model.data[k], m.states, ln) == Val(h)
    ensures FindLowestCorrected(m, ln) == Ok((m.model.rows - 1, m.model.cols - 1))
  {
    var r := FindLowestCorrected(m, ln);
    TiedChoiceIsLast(m, ln, h);
    assert r.value == m.model.CoordOf(m.model.Index(r.value));
    LastCoord(m.model);
  }

  /** The flat position of the cell chosen among tied undecided cells is
      the last one. */
  lemma TiedChoiceIsLast(m: OverlappingModel, ln: real -> real, h: real)
    requires Sized(m) && LogOnUnitInterval(ln) && PositiveWeights(m.states)
    requires |m.states| < USIZE_LIMIT
    requires |m.model.data| > 0
    requires forall k :: 0 <= k < |m.model.data| ==> CountSet(m.model.data[k].possibleStates) >= 2
    requires forall k :: 0 <= k < |m.model.data| ==> CorrectedEntropy(m.model.data[k], m.states, ln) == Val(h)
    ensures var r := FindLowestCorrected(m, ln);
      r.Ok? && m.model.InBounds(r.value) && m.model.Index(r.value) == |m.model.data| - 1
  {
    var last := |m.model.data| - 1;
    var r := FindLowestCorrected(m, ln);
    assert NoContradictionIn(m);
    assert !AllResolved(m) by {
      assert CountSet(m.model.data[0].possibleStates) >= 2;
    }
    var i := m.model.Index(r.value);
    assert m.model.Get(r.value) == m.model.data[i];
    assert CorrectedEntropy(m.model.data[i], m.states, ln).v == h;
    assert CountSet(m.model.data[last].possibleStates) >= 2;
  }

  /** The catalog of the two-colour seed with block size 1: two patterns,
      each seen once. */
  lemma TwoColorSeedCatalog(seed: Array2<Color>)
    requires TwoColorStrip(seed)
    ensures var states := BuildBlockFrequencyMap(seed, 1);
      |states| == 2 && PositiveWeights(states) && states[0].1 == states[1].1 == 1
  {
    TwoColorSeedCounts(seed);
    PairOfUnitCounts(BuildBlockFrequencyMap(seed, 1));
  }

  /** The counts of the two-colour catalog: at least two entries, each
      positive, two in all. */
  lemma TwoColorSeedCounts(seed: Array2<Color>)
    requires TwoColorStrip(seed)
    ensures var states := BuildBlockFrequencyMap(seed, 1);
      |states| >= 2 && SumCounts(states) == 2 && PositiveWeights(states)
  {
    TwoColorSeedHasTwoPatterns(seed);
    assert Positions(seed.rows, 1) == 1 && Positions(seed.cols, 1) == 2;
  }

  /** At least two entries of positive count summing to two are exactly
      two entries of count one. */
  lemma PairOfUnitCounts<T>(entries: seq<(T, nat)>)
    requires |entries| >= 2 && SumCounts(entries) == 2 && PositiveWeights(entries)
    ensures |entries| == 2 && PositiveWeights(entries) && entries[0].1 == entries[1].1 == 1
  {
    UnitCounts(entries);
  }

  /** A grid whose cells all allow both of two equally frequent patterns
      has entropy `ln 2` everywhere. */
  lemma EqualPairGridTied(m: OverlappingModel, ln: real -> real)
    requires Sized(m) && LogOnUnitInterval(ln)
    requires |m.states| == 2 && m.states[0].1 == m.states[1].1 >= 1
    requires forall k :: 0 <= k < |m.model.data| ==>
      m.model.data[k].possibleStates[0] && m.model.data[k].possibleStates[1]
    ensures forall k :: 0 <= k < |m.model.data| ==> CountSet(m.model.data[k].possibleStates) >= 2
    ensures forall k :: 0 <= k < |m.model.data| ==>
      CorrectedEntropy(m.model.data[k], m.states, ln) == Val(-ln(0.5))
  {
    forall k | 0 <= k < |m.model.data|
      ensures CorrectedEntropy(m.model.data[k], m.states, ln) == Val(-ln(0.5))
      ensures CountSet(m.model.data[k].possibleStates) >= 2
    {
      EqualPairEntropy(m.model.data[k], m.states, ln);
      CountTwo(m.model.data[k].possibleStates, 0, 1);
    }
  }

  /** On a non-empty grid whose cells all allow both of two equally
      frequent patterns, the selection picks the last cell. */
  lemma EqualPairGridSelectsLast(m: OverlappingModel, ln: real -> real)
    requires Sized(m) && LogOnUnitInterval(ln) && |m.model.data| > 0
    requires |m.states| == 2 && m.states[0].1 == m.states[1].1 >= 1
    requires forall k :: 0 <= k < |m.model.data| ==>
      m.model.data[k].possibleStates[0] && m.model.data[k].possibleStates[1]
    ensures PositiveWeights(m.states)
    ensures FindLowestCorrected(m, ln) == Ok((m.model.rows - 1, m.model.cols - 1))
  {
    EqualPairGridTied(m, ln);
    AllTiedSelectsLast(m, ln, -ln(0.5));
  }

  /** The model built from a two-colour strip with block size 1, for a
      grid of any size: two patterns of frequency one, and every cell
      allowing both. */
  lemma TwoColorModel(seed: Array2<Color>, outputDims: (nat, nat))
    requires TwoColorStrip(seed)
    ensures var m := FromSeedImage(seed, outputDims, 1);
      && Sized(m) && m.model.rows == outputDims.1 && m.model.cols == outputDims.0
      && |m.states| == 2 && m.states[0].1 == m.states[1].1 == 1
      && forall k :: 0 <= k < |m.model.data| ==>
           m.model.data[k].possibleStates[0] && m.model.data[k].possibleStates[1]
  {
    TwoColorSeedCatalog(seed);
  }

  /** With Shannon entropy, a two-colour strip with block size 1 gives
      every cell of a fresh grid, of any size and so of the 3 by 3 one,
      entropy `ln 2`. */
  lemma TwoColorSeedEntropyIsLn2(seed: Array2<Color>, outputDims: (nat, nat), ln: real -> real)
    requires TwoColorStrip(seed) && LogOnUnitInterval(ln)
    ensures var m := FromSeedImage(seed, outputDims, 1);
      && |m.states| == 2
      && PositiveWeights(m.states)
      && forall k :: 0 <= k < |m.model.data| ==>
           CorrectedEntropy(m.model.data[k], m.states, ln) == Val(-ln(0.5))
  {
    TwoColorModel(seed, outputDims);
    EqualPairModel(FromSeedImage(seed, outputDims, 1), ln);
  }

  /** On a grid whose cells all allow both of two patterns seen once, every
      cell has entropy `ln 2`. This is `EqualPairGridTied` restated with
      `PositiveWeights` as a single fact, so that a caller can pass it on
      without the solver expanding the catalog's contract; it exists to keep
      the two-colour proofs cheap. */
  lemma EqualPairModel(m: OverlappingModel, ln: real -> real)
    requires Sized(m) && LogOnUnitInterval(ln)
    requires |m.states| == 2 && m.states[0].1 == m.states[1].1 == 1
    requires forall k :: 0 <= k < |m.model.data| ==>
      m.model.data[k].possibleStates[0] && m.model.data[k].possibleStates[1]
    ensures |m.states| == 2
    ensures PositiveWeights(m.states)
    ensures forall k :: 0 <= k < |m.model.data| ==>
      CorrectedEntropy(m.model.data[k], m.states, ln) == Val(-ln(0.5))
  {
    EqualPairGridTied(m, ln);
  }

  /** With Shannon entropy the selection on the 3 by 3 grid, all cells
      being tied, picks the last cell in row-major order. */
  lemma TwoColorSeedSelectsLastCell(seed: Array2<Color>, ln: real -> real)
    requires TwoColorStrip(seed) && LogOnUnitInterval(ln)
    ensures var m := FromSeedImage(seed, (3, 3), 1);
      && |m.states| == 2
      && PositiveWeights(m.states)
      && FindLowestCorrected(m, ln) == Ok((2, 2))
  {
    TwoColorModel(seed, (3, 3));
    EqualPairGridSelectsLast(FromSeedImage(seed, (3, 3), 1), ln);
  }

  /** With Shannon entropy too, a model built from a non-empty single-colour
      seed with block size 1 is finished before any collapse. Unlike the
      selection as written, which says the same of every grid without a
      contradiction, this answer singles out the resolved grid. */
  lemma UniformSeedCorrectedIsDecided(seed: Array2<Color>, color: Color, outputDims: (nat, nat), ln: real -> real)
    requires seed.Valid() && |seed.data| > 0 && Uniform(seed, color) && LogOnUnitInterval(ln)
    ensures var m := FromSeedImage(seed, outputDims, 1);
      && Sized(m) && PositiveWeights(m.states) && |m.states| < USIZE_LIMIT
      && FindLowestCorrected(m, ln) == Err(AllStatesDecided)
  {
    UniformSeedIsDecided(seed, color, outputDims);
    UniformSeedWeights(seed, color, outputDims);
    ResolvedModelIsDecided(FromSeedImage(seed, outputDims, 1), ln);
  }

  /** The one pattern of a single-colour seed has a positive count. */
  lemma UniformSeedWeights(seed: Array2<Color>, color: Color, outputDims: (nat, nat))
    requires seed.Valid() && |seed.data| > 0 && Uniform(seed, color)
    ensures var m := FromSeedImage(seed, outputDims, 1);
      |m.states| == 1 && PositiveWeights(m.states)
  {
    UniformSeedCatalog(seed, color);
  }

  /** A grid whose every cell is resolved is reported as decided. */
  lemma ResolvedModelIsDecided(m: OverlappingModel, ln: real -> real)
    requires Sized(m) && LogOnUnitInterval(ln) && PositiveWeights(m.states)
    requires |m.states| < USIZE_LIMIT && AllResolved(m)
    ensures FindLowestCorrected(m, ln) == Err(AllStatesDecided)
  {
  }
}
