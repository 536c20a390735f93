/** The row-major scan that picks the next cell to collapse, over the cells'
    entropy values in iteration order (flat positions of the grid). */
module Selection {

  import opened Wrappers
  import opened Cells

  /** The largest finite double, the scan's initial minimum. */
  const F64_MAX: real := 179769313486231570814527423731704356798070567525844996598917476803157260780028538760589558632766878171540458953514382464234321326889464182768467546703537516986049910576551282076245490090389328944075868508455133942304583236903222948165808559332123348274797826204144723168738177180919299881250404026184124858368.0

  /** How the scan ends, by flat position. */
  datatype ScanOutcome = Chosen(index: nat) | Contradiction(index: nat) | NaNAt(index: nat) | Decided

  /** Every numeric entropy is a finite double. */
  ghost predicate Finite(es: seq<EntropyValue>) {
    forall j :: 0 <= j < |es| && es[j].Val? ==> es[j].v <= F64_MAX
  }

  predicate Positive(e: EntropyValue) {
    e.Val? && e.v > 0.0
  }

  /** The scan from position `i` on, having recorded `output` as the best
      position so far and `entropy` as its entropy. A contradiction stops
      the scan at once. A positive entropy no larger than the recorded one
      replaces it, so among equal entropies the later position wins. The
      NaN check of `find_lowest_nonzero_entropy_coordinates` (line 125 of
      src/overlappingmodel.rs) sits on the branch for a positive entropy
      above the recorded one, and a NaN is never positive, so that check
      never fires: a NaN, like zero, is passed over. */
  function ScanFrom(es: seq<EntropyValue>, i: nat, output: Option<nat>, entropy: real): ScanOutcome
    requires i <= |es|
    decreases |es| - i
  {
    if i == |es| then
      match output
      case None => Decided
      case Some(k) => Chosen(k)
    else
      match es[i]
      case Contra => Contradiction(i)
      case Val(u) =>
        if u > 0.0 then
          if u <= entropy then ScanFrom(es, i + 1, Some(i), u)
          else ScanFrom(es, i + 1, output, entropy)
        else ScanFrom(es, i + 1, output, entropy)
      case NaN => ScanFrom(es, i + 1, output, entropy)
  }

  function Scan(es: seq<EntropyValue>): ScanOutcome
  {
    ScanFrom(es, 0, None, F64_MAX)
  }

  ghost predicate NoContradiction(es: seq<EntropyValue>) {
    forall j :: 0 <= j < |es| ==> !es[j].Contra?
  }

  /** `i` is the first contradiction. */
  ghost predicate FirstContradiction(es: seq<EntropyValue>, i: nat) {
    i < |es| && es[i].Contra? && forall j :: 0 <= j < i ==> !es[j].Contra?
  }

  /** `i` has the least positive entropy, and is the last position with it. */
  ghost predicate IsLowest(es: seq<EntropyValue>, i: nat) {
    && i < |es|
    && Positive(es[i])
    && (forall j :: 0 <= j < |es| && Positive(es[j]) ==> es[i].v <= es[j].v)
    && (forall j :: i < j < |es| && Positive(es[j]) ==> es[i].v < es[j].v)
  }

  /** What the scan promises of its outcome. */
  ghost predicate ScanPost(es: seq<EntropyValue>, r: ScanOutcome) {
    && (r.Contradiction? ==> FirstContradiction(es, r.index))
    && (!NoContradiction(es) ==> r.Contradiction?)
    && (r.Decided? <==> NoContradiction(es) && forall j :: 0 <= j < |es| ==> !Positive(es[j]))
    && (r.Chosen? ==> NoContradiction(es) && IsLowest(es, r.index))
    && !r.NaNAt?
  }

  /** What holds of the scan's state after the first `i` positions. */
  ghost predicate ScanInvariant(es: seq<EntropyValue>, i: nat, output: Option<nat>, entropy: real) {
    && i <= |es|
    && (forall j :: 0 <= j < i ==> !es[j].Contra?)
    && (output.None? ==> entropy == F64_MAX && forall j :: 0 <= j < i ==> !Positive(es[j]))
    && (output.Some? ==>
         && output.value < i
         && Positive(es[output.value])
         && es[output.value].v == entropy
         && (forall j :: 0 <= j < i && Positive(es[j]) ==> entropy <= es[j].v)
         && (forall j :: output.value < j < i && Positive(es[j]) ==> entropy < es[j].v))
  }

  lemma {:induction false} ScanFromCorrect(es: seq<EntropyValue>, i: nat, output: Option<nat>, entropy: real)
    requires Finite(es)
    requires ScanInvariant(es, i, output, entropy)
    ensures ScanPost(es, ScanFrom(es, i, output, entropy))
    decreases |es| - i
  {
    if i < |es| {
      match es[i]
      case Contra =>
      case Val(u) =>
        if u > 0.0 && u <= entropy {
          ScanFromCorrect(es, i + 1, Some(i), u);
        } else {
          ScanFromCorrect(es, i + 1, output, entropy);
        }
      case NaN =>
        ScanFromCorrect(es, i + 1, output, entropy);
    }
  }

  /** The scan reports the first contradiction if there is one; otherwise
      the last position of least positive entropy; otherwise that every
      cell is decided. It never reports a NaN. */
  lemma ScanCorrect(es: seq<EntropyValue>)
    requires Finite(es)
    ensures ScanPost(es, Scan(es))
  {
    ScanFromCorrect(es, 0, None, F64_MAX);
  }

  /** Once a contradiction is reached, nothing after it matters: two entropy
      sequences that agree up to and including their first contradiction
      scan to the same outcome. */
  lemma ScanStopsAtContradiction(es: seq<EntropyValue>, es': seq<EntropyValue>, i: nat)
    requires Finite(es) && Finite(es')
    requires FirstContradiction(es, i)
    requires i < |es'| && es[..i + 1] == es'[..i + 1]
    ensures Scan(es) == Scan(es') == Contradiction(i)
  {
    ScanCorrect(es);
    ScanCorrect(es');
    assert forall j :: 0 <= j <= i ==> es[j] == es'[j] by {
      forall j | 0 <= j <= i ensures es[j] == es'[j] {
        assert es[..i + 1][j] == es'[..i + 1][j];
      }
    }
    assert FirstContradiction(es', i);
  }
}
