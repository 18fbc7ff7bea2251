/** One-point crossover of two individuals, in place. */
module Crossover {
  import opened Failures

  function Min(a: nat, b: nat): nat {
    if a < b then a else b
  }

  /** The two individuals after every paired element from `p` up to the
      shorter length has been exchanged. */
  function Exchanged<T>(a: seq<T>, b: seq<T>, p: nat): (r: (seq<T>, seq<T>))
    requires p <= Min(|a|, |b|)
    ensures |r.0| == |a| && |r.1| == |b|
    ensures forall i :: 0 <= i < |a| ==> r.0[i] == (if p <= i < |b| then b[i] else a[i])
    ensures forall i :: 0 <= i < |b| ==> r.1[i] == (if p <= i < |a| then a[i] else b[i])
  {
    var m := Min(|a|, |b|);
    (a[..p] + b[p..m] + a[m..], b[..p] + a[p..m] + b[m..])
  }

  /** `one_point`: panics unless both individuals have at least two elements;
      otherwise swaps ind1[i] and ind2[i] for every i in [point, min_len).
      `point` is the draw of `gen_range(1..length)`. */
  method OnePoint<T>(ind1: array<T>, ind2: array<T>, point: nat) returns (outcome: Outcome)
    requires ind1 != ind2
    requires Min(ind1.Length, ind2.Length) >= 2 ==> 1 <= point < Min(ind1.Length, ind2.Length)
    modifies ind1, ind2
    ensures outcome == if Min(ind1.Length, ind2.Length) < 2 then Failed(CrossoverTooShort) else Done
    ensures outcome.Failed? ==> ind1[..] == old(ind1[..]) && ind2[..] == old(ind2[..])
    ensures outcome.Done? ==> (ind1[..], ind2[..]) == Exchanged(old(ind1[..]), old(ind2[..]), point)
  {
    var length := Min(ind1.Length, ind2.Length);
    if length <= 1 {
      return Failed(CrossoverTooShort);
    }
    var i := point;
    while i < length
      invariant point <= i <= length
      invariant forall k :: 0 <= k < ind1.Length ==>
        ind1[k] == if point <= k < i then old(ind2[k]) else old(ind1[k])
      invariant forall k :: 0 <= k < ind2.Length ==>
        ind2[k] == if point <= k < i then old(ind1[k]) else old(ind2[k])
    {
      ind1[i], ind2[i] := ind2[i], ind1[i];
      i := i + 1;
    }
    ghost var r := Exchanged(old(ind1[..]), old(ind2[..]), point);
    assert ind1[..] == r.0;
    assert ind2[..] == r.1;
    outcome := Done;
  }

  /** Crossover only redistributes elements: nothing is lost or duplicated. */
  lemma ExchangeConserves<T>(a: seq<T>, b: seq<T>, p: nat)
    requires p <= Min(|a|, |b|)
    ensures multiset(Exchanged(a, b, p).0) + multiset(Exchanged(a, b, p).1)
         == multiset(a) + multiset(b)
  {
    var m := Min(|a|, |b|);
    assert a == a[..p] + a[p..m] + a[m..];
    assert b == b[..p] + b[p..m] + b[m..];
  }

  /** Crossing the results again at the same point gives back the originals. */
  lemma ExchangeInvolutive<T>(a: seq<T>, b: seq<T>, p: nat)
    requires p <= Min(|a|, |b|)
    ensures Exchanged(Exchanged(a, b, p).0, Exchanged(a, b, p).1, p) == (a, b)
  {
    var r := Exchanged(a, b, p);
    var s := Exchanged(r.0, r.1, p);
    assert s.0 == a;
    assert s.1 == b;
  }

  /** The example of the documentation: `[1; 4]` and `[2; 7]` crossed at point 2. */
  lemma DocumentedExample()
    ensures Exchanged([1, 1, 1, 1], [2, 2, 2, 2, 2, 2, 2], 2)
         == ([1, 1, 2, 2], [2, 2, 1, 1, 2, 2, 2])
  {
    var r := Exchanged([1, 1, 1, 1], [2, 2, 2, 2, 2, 2, 2], 2);
    assert r.0 == [1, 1, 2, 2];
    assert r.1 == [2, 2, 1, 1, 2, 2, 2];
  }
}
