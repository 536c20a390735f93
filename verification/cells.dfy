/** One output cell whose final value is not yet known: the colours and the
    catalog patterns ("states") it may still take, as two bit vectors. */
module Cells {

  import opened Wrappers
  import opened Bits

  datatype UncertainCell = UncertainCell(possibleColors: BitVec, possibleStates: BitVec)

  /** What the entropy of a cell evaluates to: no value (the cell is a
      contradiction), a floating-point number, or a NaN. */
  datatype EntropyValue = Contra | Val(v: real) | NaN

  /** A fully unconstrained cell: every colour and every state possible. */
  function New(numColors: nat, numStates: nat): (c: UncertainCell)
    ensures |c.possibleColors| == numColors && |c.possibleStates| == numStates
    ensures forall i :: 0 <= i < numColors ==> c.possibleColors[i]
    ensures forall i :: 0 <= i < numStates ==> c.possibleStates[i]
  {
    UncertainCell(FromElem(numColors, true), FromElem(numStates, true))
  }

  /** Whether colour `paletteIndex` is still possible. An index past the end
      of the colour vector is a programming error (the lookup panics). */
  function ValidColor(c: UncertainCell, paletteIndex: nat): (b: bool)
    requires paletteIndex < |c.possibleColors|
    ensures b == c.possibleColors[paletteIndex]
  {
    Get(c.possibleColors, paletteIndex).value
  }

  /** The entropy of a cell, given the catalog of (pattern, frequency) pairs
      its state vector is indexed by.

      No set state bit gives no value, exactly one gives 0. With two or more
      set bits the frequency-weighted sum is taken over terms `y * ln(y)`
      with `y = x * ln(x)` and `x` the normalised weight of a possible
      state. In IEEE double arithmetic every such term is NaN: for
      `0 < x < 1`, `y` is negative and its logarithm is NaN; for `x == 0` or
      `x == 1`, one factor is zero and the other infinite; and a zero total
      weight makes `x` itself `0 / 0`. A NaN summand makes the sum NaN, so
      an undecided cell evaluates to NaN whatever the frequencies are. */
  function Entropy<T>(c: UncertainCell, concreteStates: seq<(T, nat)>): (e: EntropyValue)
    requires |c.possibleStates| == |concreteStates|
    ensures e.Contra? <==> CountSet(c.possibleStates) == 0
    ensures e == Val(0.0) <==> exists k :: OnlySet(c.possibleStates, k)
    ensures e.NaN? <==> CountSet(c.possibleStates) >= 2
    ensures e.Val? ==> e.v == 0.0
  {
    CountZeroIff(c.possibleStates);
    CountBound(c.possibleStates);
    if NoneSet(c.possibleStates) then Contra
    else if CountSet(c.possibleStates) == 1 then
      assert exists k :: OnlySet(c.possibleStates, k) by {
        var k :| 0 <= k < |c.possibleStates| && c.possibleStates[k];
        CountOneIff(c.possibleStates, k);
      }
      Val(0.0)
    else
      assert !exists k :: OnlySet(c.possibleStates, k) by {
        forall k | OnlySet(c.possibleStates, k) ensures false {
          CountOneIff(c.possibleStates, k);
        }
      }
      NaN
  }

  /** Keeps only state `chosen` possible. The choice itself (a random draw
      weighted by catalog frequency among the possible states) is made by
      the caller and passed in; it is always a currently possible state. */
  function Collapse(c: UncertainCell, chosen: nat): (r: UncertainCell)
    requires chosen < |c.possibleStates| && c.possibleStates[chosen]
    ensures r.possibleColors == c.possibleColors
    ensures OnlySet(r.possibleStates, chosen)
    ensures Shrinks(c.possibleStates, r.possibleStates)
    ensures CountSet(r.possibleStates) == 1
  {
    var states := seq(|c.possibleStates|, i => i == chosen);
    CountOneIff(states, chosen);
    UncertainCell(c.possibleColors, states)
  }

  /** A fresh cell is a contradiction when the catalog is empty, resolved
      when it holds one pattern, and undecided (NaN) otherwise. */
  lemma NewCellEntropy<T>(numColors: nat, concreteStates: seq<(T, nat)>)
    ensures var e := Entropy(New(numColors, |concreteStates|), concreteStates);
      && (e.Contra? <==> |concreteStates| == 0)
      && (e == Val(0.0) <==> |concreteStates| == 1)
      && (e.NaN? <==> |concreteStates| >= 2)
  {
    var bits := New(numColors, |concreteStates|).possibleStates;
    if |concreteStates| == 1 {
      CountOneIff(bits, 0);
    } else if |concreteStates| >= 2 {
      CountTwo(bits, 0, 1);
    }
  }

  /** A collapsed cell is resolved: its entropy is zero. */
  lemma CollapseResolves<T>(c: UncertainCell, chosen: nat, concreteStates: seq<(T, nat)>)
    requires chosen < |c.possibleStates| && c.possibleStates[chosen]
    requires |c.possibleStates| == |concreteStates|
    ensures Entropy(Collapse(c, chosen), concreteStates) == Val(0.0)
  {
  }

  /** Collapsing an already resolved cell changes nothing. */
  lemma CollapseResolvedIsIdentity(c: UncertainCell, chosen: nat)
    requires OnlySet(c.possibleStates, chosen)
    ensures Collapse(c, chosen) == c
  {
  }
}
