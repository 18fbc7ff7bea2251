/** The population container: individuals, their fitnesses and one mutator,
    crossover and selector each, with the batch mutation over all individuals. */
module Population {
  import opened Draws

  /** The population's gate for one individual: `rand::random::<f64>() > indpb`.
      It is the opposite comparison from the mutators' `Fires`. */
  predicate Selected(draw: real, indpb: real) {
    draw > indpb
  }

  /** The individuals after every one whose draw passes the gate has been
      replaced by the mutator's result. `mutatorDraws[i]` is the randomness the
      mutator consumes on individual i. */
  function MutatedWithChance<G, D>(individuals: seq<G>, mutate: (G, D) -> G, indpb: real,
                                   draws: seq<real>, mutatorDraws: seq<D>): (r: seq<G>)
    requires |draws| == |individuals| && |mutatorDraws| == |individuals|
    ensures |r| == |individuals|
  {
    if individuals == [] then []
    else
      var n := |individuals| - 1;
      MutatedWithChance(individuals[..n], mutate, indpb, draws[..n], mutatorDraws[..n])
        + [if Selected(draws[n], indpb) then mutate(individuals[n], mutatorDraws[n]) else individuals[n]]
  }

  /** Each individual's outcome depends only on its own old value and its own draws. */
  lemma {:induction false} MutatedWithChanceAt<G, D>(individuals: seq<G>, mutate: (G, D) -> G, indpb: real,
                                                     draws: seq<real>, mutatorDraws: seq<D>, i: nat)
    requires |draws| == |individuals| && |mutatorDraws| == |individuals| && i < |individuals|
    ensures MutatedWithChance(individuals, mutate, indpb, draws, mutatorDraws)[i]
         == if Selected(draws[i], indpb) then mutate(individuals[i], mutatorDraws[i]) else individuals[i]
  {
    var n := |individuals| - 1;
    if i < n {
      MutatedWithChanceAt(individuals[..n], mutate, indpb, draws[..n], mutatorDraws[..n], i);
    }
  }

  /** Because the gate is `>`, `indpb >= 1` mutates nobody (draws lie in [0, 1)). */
  lemma {:induction false} NoneMutatedAtOne<G, D>(individuals: seq<G>, mutate: (G, D) -> G, indpb: real,
                               draws: seq<real>, mutatorDraws: seq<D>)
    requires |draws| == |individuals| && |mutatorDraws| == |individuals|
    requires AllUnitDraws(draws) && indpb >= 1.0
    ensures MutatedWithChance(individuals, mutate, indpb, draws, mutatorDraws) == individuals
  {
    forall i | 0 <= i < |individuals|
      ensures MutatedWithChance(individuals, mutate, indpb, draws, mutatorDraws)[i] == individuals[i]
    {
      MutatedWithChanceAt(individuals, mutate, indpb, draws, mutatorDraws, i);
    }
  }

  /** `indpb < 0` mutates everybody, and `indpb == 0` mutates every individual
      whose draw is not exactly 0. */
  lemma {:induction false} AllMutatedBelowZero<G, D>(individuals: seq<G>, mutate: (G, D) -> G, indpb: real,
                                  draws: seq<real>, mutatorDraws: seq<D>)
    requires |draws| == |individuals| && |mutatorDraws| == |individuals|
    requires AllUnitDraws(draws) && indpb <= 0.0
    ensures forall i :: 0 <= i < |individuals| && (indpb < 0.0 || draws[i] != 0.0) ==>
              MutatedWithChance(individuals, mutate, indpb, draws, mutatorDraws)[i]
              == mutate(individuals[i], mutatorDraws[i])
  {
    forall i | 0 <= i < |individuals| && (indpb < 0.0 || draws[i] != 0.0)
      ensures MutatedWithChance(individuals, mutate, indpb, draws, mutatorDraws)[i]
              == mutate(individuals[i], mutatorDraws[i])
    {
      MutatedWithChanceAt(individuals, mutate, indpb, draws, mutatorDraws, i);
    }
  }

  /** `Population<G, M, C, S, F>`: the mutator is a function from an individual
      and the mutator's own randomness to the mutated individual; the crossover
      and the selector are held but not used by the operations modelled here. */
  class Population<G, D, F, C, S> {
    var individuals: seq<G>
    var fitnesses: seq<F>
    var mutator: (G, D) -> G
    var crossover: C
    var selector: S

    constructor (individuals: seq<G>, fitnesses: seq<F>, mutator: (G, D) -> G, crossover: C, selector: S)
      ensures this.individuals == individuals && this.fitnesses == fitnesses
      ensures this.mutator == mutator && this.crossover == crossover && this.selector == selector
    {
      this.individuals := individuals;
      this.fitnesses := fitnesses;
      this.mutator := mutator;
      this.crossover := crossover;
      this.selector := selector;
    }

    /** `mutate_with_chance`: walks the individuals in order and mutates in
        place each one whose draw is greater than `indpb`. */
    method MutateWithChance(indpb: real, draws: seq<real>, mutatorDraws: seq<D>)
      requires |draws| == |individuals| && |mutatorDraws| == |individuals|
      modifies this`individuals
      ensures individuals == MutatedWithChance(old(individuals), mutator, indpb, draws, mutatorDraws)
      ensures |individuals| == |old(individuals)|
      ensures fitnesses == old(fitnesses) && mutator == old(mutator)
      ensures crossover == old(crossover) && selector == old(selector)
    {
      ghost var before := individuals;
      var i := 0;
      while i < |individuals|
        invariant 0 <= i <= |individuals| == |before|
        invariant forall k :: 0 <= k < i ==>
          individuals[k] == if Selected(draws[k], indpb) then mutator(before[k], mutatorDraws[k]) else before[k]
        invariant forall k :: i <= k < |individuals| ==> individuals[k] == before[k]
      {
        if Selected(draws[i], indpb) {
          individuals := individuals[i := mutator(individuals[i], mutatorDraws[i])];
        }
        i := i + 1;
      }
      forall k | 0 <= k < |individuals|
        ensures individuals[k] == MutatedWithChance(before, mutator, indpb, draws, mutatorDraws)[k]
      {
        MutatedWithChanceAt(before, mutator, indpb, draws, mutatorDraws, k);
      }
    }
  }
}
