/** The per-element mutators: Gaussian noise, index shuffling and bit flips.
    Each works in place on one individual; its random draws are inputs. */
module Mutation {
  import opened Failures
  import opened Draws

  // ---------------------------------------------------------------------
  // flip_bit

  /** The individual after position i has been negated for every i whose draw fires. */
  function Flipped(s: seq<bool>, draws: seq<real>, indpb: real): (r: seq<bool>)
    requires |draws| == |s|
    ensures |r| == |s|
  {
    if s == [] then []
    else
      var n := |s| - 1;
      Flipped(s[..n], draws[..n], indpb) + [if Fires(draws[n], indpb) then !s[n] else s[n]]
  }

  lemma {:induction false} FlippedAt(s: seq<bool>, draws: seq<real>, indpb: real, i: nat)
    requires |draws| == |s| && i < |s|
    ensures Flipped(s, draws, indpb)[i] == if Fires(draws[i], indpb) then !s[i] else s[i]
  {
    var n := |s| - 1;
    if i < n {
      FlippedAt(s[..n], draws[..n], indpb, i);
    }
  }

  function Complement(s: seq<bool>): (r: seq<bool>)
    ensures |r| == |s| && forall i :: 0 <= i < |s| ==> r[i] == !s[i]
  {
    seq(|s|, i requires 0 <= i < |s| => !s[i])
  }

  /** `flip_bit`: `draws[i]` is the `gen::<f64>()` drawn for position i. */
  method FlipBit(individual: array<bool>, indpb: real, draws: seq<real>)
    requires |draws| == individual.Length
    modifies individual
    ensures individual[..] == Flipped(old(individual[..]), draws, indpb)
  {
    var i := 0;
    while i < individual.Length
      invariant 0 <= i <= individual.Length
      invariant forall k :: 0 <= k < i ==>
        individual[k] == if Fires(draws[k], indpb) then !old(individual[k]) else old(individual[k])
      invariant forall k :: i <= k < individual.Length ==> individual[k] == old(individual[k])
    {
      if Fires(draws[i], indpb) {
        individual[i] := !individual[i];
      }
      i := i + 1;
    }
    forall k | 0 <= k < individual.Length
      ensures individual[..][k] == Flipped(old(individual[..]), draws, indpb)[k]
    {
      FlippedAt(old(individual[..]), draws, indpb, k);
    }
  }

  /** When every draw fires (draws lie in [0, 1), so `indpb >= 1` suffices)
      the result is the logical complement of the input. */
  lemma {:induction false} FlipAllFiring(s: seq<bool>, draws: seq<real>, indpb: real)
    requires |draws| == |s| && AllUnitDraws(draws) && indpb >= 1.0
    ensures Flipped(s, draws, indpb) == Complement(s)
  {
    forall i | 0 <= i < |s| ensures Flipped(s, draws, indpb)[i] == Complement(s)[i] {
      FlippedAt(s, draws, indpb, i);
    }
  }

  /** With `indpb <= 0` no draw fires and the individual is left as it was. */
  lemma {:induction false} FlipNoneFiring(s: seq<bool>, draws: seq<real>, indpb: real)
    requires |draws| == |s| && AllUnitDraws(draws) && indpb <= 0.0
    ensures Flipped(s, draws, indpb) == s
  {
    forall i | 0 <= i < |s| ensures Flipped(s, draws, indpb)[i] == s[i] {
      FlippedAt(s, draws, indpb, i);
    }
  }

  /** Flipping twice with the same draws restores the individual. */
  lemma {:induction false} FlipInvolutive(s: seq<bool>, draws: seq<real>, indpb: real)
    requires |draws| == |s|
    ensures Flipped(Flipped(s, draws, indpb), draws, indpb) == s
  {
    var t := Flipped(s, draws, indpb);
    forall i | 0 <= i < |s| ensures Flipped(t, draws, indpb)[i] == s[i] {
      FlippedAt(s, draws, indpb, i);
      FlippedAt(t, draws, indpb, i);
    }
  }

  // ---------------------------------------------------------------------
  // gaussian_list and gaussian
  //
  // `samples[i]` stands for `Normal::new(mus[i], sigmas[i]).unwrap()` followed by
  // `sample`: None when the distribution library rejects the parameters (the
  // unwrap panics), otherwise the value drawn. It is consulted only when the
  // gate of position i fires, as in the source.

  /** Position i after its mutation: the sample added when the gate fires. */
  function NoiseAt(s: seq<real>, indpb: real, draws: seq<real>, samples: seq<Option<real>>, k: nat): real
    requires |draws| == |s| && |samples| == |s| && k < |s|
  {
    if Fires(draws[k], indpb) && samples[k].Some? then s[k] + samples[k].value else s[k]
  }

  /** The first of the first `n` positions whose gate fires on a distribution
      that cannot be built, or `n` when there is none. */
  function FirstInvalid(indpb: real, draws: seq<real>, samples: seq<Option<real>>, n: nat): (j: nat)
    requires n <= |draws| && n <= |samples|
    ensures j <= n
    ensures j < n ==> Fires(draws[j], indpb) && samples[j].None?
    ensures forall k :: 0 <= k < j ==> !(Fires(draws[k], indpb) && samples[k].None?)
  {
    if n == 0 then 0
    else
      var j := FirstInvalid(indpb, draws, samples, n - 1);
      if j < n - 1 then j
      else if Fires(draws[n - 1], indpb) && samples[n - 1].None? then n - 1
      else n
  }

  /** The outcome and the individual after the first `n` positions of the loop. */
  function GaussianSteps(s: seq<real>, indpb: real, draws: seq<real>, samples: seq<Option<real>>, n: nat)
    : (r: (Outcome, seq<real>))
    requires n <= |s| && |draws| == |s| && |samples| == |s|
    ensures |r.1| == |s|
  {
    if n == 0 then (Done, s)
    else
      var (o, t) := GaussianSteps(s, indpb, draws, samples, n - 1);
      if o.Failed? || !Fires(draws[n - 1], indpb) then (o, t)
      else match samples[n - 1]
        case None => (Failed(InvalidNormal), t)
        case Some(v) => (Done, t[n - 1 := t[n - 1] + v])
  }

  /** The loop stops at the first position whose distribution cannot be built:
      every position before it has had its sample added if its gate fired, and
      that position and all after it are untouched. */
  lemma {:induction false} GaussianStepsShape(s: seq<real>, indpb: real, draws: seq<real>, samples: seq<Option<real>>, n: nat)
    requires n <= |s| && |draws| == |s| && |samples| == |s|
    ensures var j := FirstInvalid(indpb, draws, samples, n);
            var r := GaussianSteps(s, indpb, draws, samples, n);
            && r.0 == (if j < n then Failed(InvalidNormal) else Done)
            && forall k :: 0 <= k < |s| ==> r.1[k] == if k < j then NoiseAt(s, indpb, draws, samples, k) else s[k]
  {
    if n > 0 {
      GaussianStepsShape(s, indpb, draws, samples, n - 1);
    }
  }

  /** With `indpb <= 0` no gate fires: the individual is left exactly as it was. */
  lemma GaussianNoneFiring(s: seq<real>, indpb: real, draws: seq<real>, samples: seq<Option<real>>)
    requires |draws| == |s| && |samples| == |s| && AllUnitDraws(draws) && indpb <= 0.0
    ensures GaussianSteps(s, indpb, draws, samples, |s|) == (Done, s)
  {
    GaussianStepsShape(s, indpb, draws, samples, |s|);
    var j := FirstInvalid(indpb, draws, samples, |s|);
    assert j == |s|;
    var t := GaussianSteps(s, indpb, draws, samples, |s|).1;
    assert t == s;
  }

  /** With `indpb >= 1` and every distribution valid, each element changes by its own sample. */
  lemma GaussianAllFiring(s: seq<real>, indpb: real, draws: seq<real>, samples: seq<Option<real>>)
    requires |draws| == |s| && |samples| == |s| && AllUnitDraws(draws) && indpb >= 1.0
    requires forall k :: 0 <= k < |s| ==> samples[k].Some?
    ensures GaussianSteps(s, indpb, draws, samples, |s|).0 == Done
    ensures forall k :: 0 <= k < |s| ==>
              GaussianSteps(s, indpb, draws, samples, |s|).1[k] == s[k] + samples[k].value
  {
    GaussianStepsShape(s, indpb, draws, samples, |s|);
  }

  lemma {:induction false} GaussianFailurePersists(s: seq<real>, indpb: real, draws: seq<real>, samples: seq<Option<real>>, m: nat, n: nat)
    requires m <= n <= |s| && |draws| == |s| && |samples| == |s|
    requires GaussianSteps(s, indpb, draws, samples, m).0.Failed?
    ensures GaussianSteps(s, indpb, draws, samples, n) == GaussianSteps(s, indpb, draws, samples, m)
  {
    if n > m {
      GaussianFailurePersists(s, indpb, draws, samples, m, n - 1);
    }
  }

  /** `gaussian_list`: both length checks come before any element is touched;
      then each position whose draw fires gets its sample added. */
  method GaussianList(individual: array<real>, mus: seq<real>, sigmas: seq<real>, indpb: real,
                      draws: seq<real>, samples: seq<Option<real>>)
    returns (outcome: Outcome)
    requires |draws| == individual.Length && |samples| == individual.Length
    modifies individual
    ensures |mus| != individual.Length ==>
              outcome == Failed(MusLengthMismatch) && individual[..] == old(individual[..])
    ensures |mus| == individual.Length && |sigmas| != individual.Length ==>
              outcome == Failed(SigmasLengthMismatch) && individual[..] == old(individual[..])
    ensures |mus| == individual.Length && |sigmas| == individual.Length ==>
              (outcome, individual[..]) == GaussianSteps(old(individual[..]), indpb, draws, samples, individual.Length)
  {
    if individual.Length != |mus| {
      return Failed(MusLengthMismatch);
    }
    if individual.Length != |sigmas| {
      return Failed(SigmasLengthMismatch);
    }
    ghost var s := individual[..];
    var i := 0;
    while i < individual.Length
      invariant 0 <= i <= individual.Length
      invariant GaussianSteps(s, indpb, draws, samples, i) == (Done, individual[..])
    {
      if Fires(draws[i], indpb) {
        match samples[i]
        case None =>
          GaussianFailurePersists(s, indpb, draws, samples, i + 1, individual.Length);
          return Failed(InvalidNormal);
        case Some(v) =>
          individual[i] := individual[i] + v;
      }
      i := i + 1;
    }
    outcome := Done;
  }

  /** The per-position samples when every position shares one `(mu, sigma)`:
      the library either accepts that pair everywhere, and `noise[k]` is the
      value drawn at position k, or rejects it everywhere. */
  function SharedSamples(accepted: bool, noise: seq<real>): (r: seq<Option<real>>)
    ensures |r| == |noise|
    ensures forall k, l :: 0 <= k < |r| && 0 <= l < |r| ==> (r[k].None? <==> r[l].None?)
    ensures accepted ==> forall k :: 0 <= k < |r| ==> r[k] == Some(noise[k])
  {
    seq(|noise|, k requires 0 <= k < |noise| => if accepted then Some(noise[k]) else None)
  }

  /** With one shared pair, a rejected pair panics at the first fired position,
      before any element has changed, and only if some position fires; an
      accepted pair never panics. */
  lemma GaussianSharedParameters(s: seq<real>, indpb: real, draws: seq<real>, accepted: bool, noise: seq<real>)
    requires |draws| == |s| && |noise| == |s|
    ensures var r := GaussianSteps(s, indpb, draws, SharedSamples(accepted, noise), |s|);
            && (accepted ==> r.0 == Done)
            && (!accepted ==> r.1 == s && (r.0 == Failed(InvalidNormal) <==> exists k :: 0 <= k < |s| && Fires(draws[k], indpb)))
            && (!accepted ==> r.0 == Failed(InvalidNormal) || r.0 == Done)
  {
    var samples := SharedSamples(accepted, noise);
    GaussianStepsShape(s, indpb, draws, samples, |s|);
    var j := FirstInvalid(indpb, draws, samples, |s|);
    var r := GaussianSteps(s, indpb, draws, samples, |s|);
    if accepted {
      assert j == |s|;
    } else {
      assert forall k :: 0 <= k < |s| ==> NoiseAt(s, indpb, draws, samples, k) == s[k];
      assert r.1 == s;
      if exists k :: 0 <= k < |s| && Fires(draws[k], indpb) {
        var k :| 0 <= k < |s| && Fires(draws[k], indpb);
        assert j <= k;
      }
    }
  }

  /** `gaussian`: the same mean and deviation for every position. The vectors it
      builds always match the individual's length, so no length check can fail,
      and a rejected `(mu, sigma)` panics before any element changes. */
  method Gaussian(individual: array<real>, mu: real, sigma: real, indpb: real,
                  draws: seq<real>, accepted: bool, noise: seq<real>)
    returns (outcome: Outcome)
    requires |draws| == individual.Length && |noise| == individual.Length
    modifies individual
    ensures (outcome, individual[..])
         == GaussianSteps(old(individual[..]), indpb, draws, SharedSamples(accepted, noise), individual.Length)
    ensures accepted ==> outcome == Done
    ensures !accepted ==> individual[..] == old(individual[..])
    ensures !accepted ==>
              (outcome == Failed(InvalidNormal) <==> exists k :: 0 <= k < individual.Length && Fires(draws[k], indpb))
  {
    GaussianSharedParameters(individual[..], indpb, draws, accepted, noise);
    var size := individual.Length;
    var mus := seq(size, _ => mu);
    var sigmas := seq(size, _ => sigma);
    outcome := GaussianList(individual, mus, sigmas, indpb, draws, SharedSamples(accepted, noise));
  }

  // ---------------------------------------------------------------------
  // shuffle_indexes

  /** The swap partner of `idx`: `r` is the draw of `gen_range(0..(size - 2))`,
      bumped by one when it is at or past `idx`. */
  function Partner(size: nat, idx: nat, r: nat): (j: nat)
    requires idx < size && r < size - 2
    ensures j != idx && j < size - 1
    ensures j == r || j == r + 1
  {
    if r >= idx then r + 1 else r
  }

  /** The exact set of partners `idx` can get: every index below `size - 1`
      except `idx` itself, and for the last index also not `size - 2`.
      So index `size - 1` is never anybody's partner. */
  lemma PartnerRange(size: nat, idx: nat, j: nat)
    requires 3 <= size && idx < size
    ensures (exists r: nat :: r < size - 2 && Partner(size, idx, r) == j)
        <==> j < size - 1 && j != idx && (idx < size - 1 || j < size - 2)
  {
    if j < size - 1 && j != idx && (idx < size - 1 || j < size - 2) {
      var r: nat := if j < idx then j else j - 1;
      assert r < size - 2 && Partner(size, idx, r) == j;
    }
  }

  function Swap<T>(s: seq<T>, i: nat, j: nat): (r: seq<T>)
    requires i < |s| && j < |s|
    ensures |r| == |s| && r[i] == s[j] && r[j] == s[i]
    ensures forall k :: 0 <= k < |s| && k != i && k != j ==> r[k] == s[k]
    ensures multiset(r) == multiset(s)
  {
    s[i := s[j]][j := s[i]]
  }

  /** Requirement on the partner draws: whenever a partner can be drawn at all
      (size at least 3), each lies in `0..(size - 2)`. */
  predicate PartnerDraws(size: nat, partners: seq<nat>) {
    |partners| == size &&
    (size >= 3 ==> forall k :: 0 <= k < size ==> partners[k] < size - 2)
  }

  /** The individual after the first `n` indices of the shuffle pass, or the
      panic that stopped it. */
  function ShuffleSteps<T>(s: seq<T>, indpb: real, draws: seq<real>, partners: seq<nat>, n: nat): (r: Result<seq<T>>)
    requires n <= |s| && |draws| == |s| && PartnerDraws(|s|, partners)
    ensures r.Ok? ==> |r.value| == |s|
  {
    if n == 0 then Ok(s)
    else
      match ShuffleSteps(s, indpb, draws, partners, n - 1)
      case Err(e) => Err(e)
      case Ok(t) =>
        if !Fires(draws[n - 1], indpb) then Ok(t)
        else if |s| < 2 then Err(PartnerRangeUnderflow)
        else if |s| == 2 then Err(EmptyPartnerRange)
        else Ok(Swap(t, n - 1, Partner(|s|, n - 1, partners[n - 1])))
  }

  /** Shuffling only swaps: a successful pass is a permutation of its input. */
  lemma {:induction false} ShufflePermutes<T>(s: seq<T>, indpb: real, draws: seq<real>, partners: seq<nat>, n: nat)
    requires n <= |s| && |draws| == |s| && PartnerDraws(|s|, partners)
    ensures ShuffleSteps(s, indpb, draws, partners, n).Ok? ==>
              multiset(ShuffleSteps(s, indpb, draws, partners, n).value) == multiset(s)
  {
    if n > 0 {
      ShufflePermutes(s, indpb, draws, partners, n - 1);
    }
  }

  /** On individuals of at least three elements the pass never panics. */
  lemma {:induction false} ShuffleLargeSucceeds<T>(s: seq<T>, indpb: real, draws: seq<real>, partners: seq<nat>, n: nat)
    requires n <= |s| && |draws| == |s| && PartnerDraws(|s|, partners) && |s| >= 3
    ensures ShuffleSteps(s, indpb, draws, partners, n).Ok?
  {
    if n > 0 {
      ShuffleLargeSucceeds(s, indpb, draws, partners, n - 1);
    }
  }

  /** On individuals of fewer than three elements the pass panics exactly when
      some index fires (underflow below size 2, empty range at size 2), and
      otherwise leaves the individual as it was. */
  lemma {:induction false} ShuffleSmall<T>(s: seq<T>, indpb: real, draws: seq<real>, partners: seq<nat>, n: nat)
    requires n <= |s| && |draws| == |s| && PartnerDraws(|s|, partners) && |s| < 3
    ensures ShuffleSteps(s, indpb, draws, partners, n)
         == if exists k :: 0 <= k < n && Fires(draws[k], indpb)
            then Err(if |s| < 2 then PartnerRangeUnderflow else EmptyPartnerRange)
            else Ok(s)
  {
    if n > 0 {
      ShuffleSmall(s, indpb, draws, partners, n - 1);
      if Fires(draws[n - 1], indpb) {
        assert exists k :: 0 <= k < n && Fires(draws[k], indpb);
      }
    }
  }

  /** `shuffle_indexes`: `draws[idx]` is the `gen::<f64>()` for index idx and
      `partners[idx]` the `gen_range(0..(size - 2))` drawn when it fires. */
  method ShuffleIndexes<T>(individual: array<T>, indpb: real, draws: seq<real>, partners: seq<nat>)
    returns (outcome: Outcome)
    requires |draws| == individual.Length && PartnerDraws(individual.Length, partners)
    modifies individual
    ensures match ShuffleSteps(old(individual[..]), indpb, draws, partners, individual.Length)
            case Ok(t) => outcome == Done && individual[..] == t
            case Err(e) => outcome == Failed(e) && individual[..] == old(individual[..])
  {
    ghost var s := individual[..];
    var size := individual.Length;
    var idx := 0;
    while idx < size
      invariant 0 <= idx <= size
      invariant ShuffleSteps(s, indpb, draws, partners, idx) == Ok(individual[..])
    {
      if Fires(draws[idx], indpb) {
        if size < 3 {
          ShuffleSmall(s, indpb, draws, partners, idx);
          ShuffleSmall(s, indpb, draws, partners, size);
          if size < 2 {
            return Failed(PartnerRangeUnderflow);
          }
          return Failed(EmptyPartnerRange);
        }
        var swapIdx := partners[idx];
        if swapIdx >= idx {
          swapIdx := swapIdx + 1;
        }
        assert swapIdx == Partner(size, idx, partners[idx]);
        individual[idx], individual[swapIdx] := individual[swapIdx], individual[idx];
      }
      idx := idx + 1;
    }
    outcome := Done;
  }
}
