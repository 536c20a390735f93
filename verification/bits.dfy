/** Fixed-length bit vectors, the possibility sets of a cell. */
module Bits {

  import opened Wrappers

  type BitVec = seq<bool>

  /** A vector of `n` bits, each equal to `value`. */
  function FromElem(n: nat, value: bool): (v: BitVec)
    ensures |v| == n
    ensures forall i :: 0 <= i < n ==> v[i] == value
  {
    seq(n, _ => value)
  }

  /** Bounds-checked read: `None` past the end of the vector. */
  function Get(v: BitVec, i: nat): (r: Option<bool>)
    ensures r.Some? <==> i < |v|
    ensures r.Some? ==> r.value == v[i]
  {
    if i < |v| then Some(v[i]) else None
  }

  /** Number of set bits. */
  function CountSet(v: BitVec): nat
  {
    if v == [] then 0 else (if v[0] then 1 else 0) + CountSet(v[1..])
  }

  /** No bit is set. */
  predicate NoneSet(v: BitVec) {
    forall i :: 0 <= i < |v| ==> !v[i]
  }

  /** Bit `k` is the one and only set bit. */
  predicate OnlySet(v: BitVec, k: nat) {
    k < |v| && v[k] && forall i :: 0 <= i < |v| && i != k ==> !v[i]
  }

  /** `after` is `before` with zero or more bits cleared and none set. */
  predicate Shrinks(before: BitVec, after: BitVec) {
    |after| == |before| && forall i :: 0 <= i < |after| && after[i] ==> before[i]
  }

  lemma {:induction false} CountZeroIff(v: BitVec)
    ensures CountSet(v) == 0 <==> NoneSet(v)
  {
    if v != [] {
      CountZeroIff(v[1..]);
      assert forall i :: 1 <= i < |v| ==> v[i] == v[1..][i - 1];
    }
  }

  /** A set bit `k` is the only one exactly when the count is one. */
  lemma {:induction false} CountOneIff(v: BitVec, k: nat)
    requires k < |v| && v[k]
    ensures CountSet(v) == 1 <==> OnlySet(v, k)
  {
    assert forall i :: 1 <= i < |v| ==> v[i] == v[1..][i - 1];
    if k == 0 {
      CountZeroIff(v[1..]);
    } else {
      CountOneIff(v[1..], k - 1);
      if v[0] {
        CountPositive(v[1..], k - 1);
      }
    }
  }

  lemma {:induction false} CountPositive(v: BitVec, k: nat)
    requires k < |v| && v[k]
    ensures CountSet(v) >= 1
  {
    if k > 0 {
      CountPositive(v[1..], k - 1);
    }
  }

  /** Two distinct set bits make the count at least two. */
  lemma {:induction false} CountTwo(v: BitVec, i: nat, j: nat)
    requires i < j < |v| && v[i] && v[j]
    ensures CountSet(v) >= 2
  {
    if i == 0 {
      CountPositive(v[1..], j - 1);
    } else {
      CountTwo(v[1..], i - 1, j - 1);
    }
  }

  /** The count is at most the length. */
  lemma {:induction false} CountBound(v: BitVec)
    ensures CountSet(v) <= |v|
  {
    if v != [] {
      CountBound(v[1..]);
    }
  }
}
