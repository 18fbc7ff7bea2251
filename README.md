# DEARS genome operators in Dafny

A model of the genome-manipulation layer of the DEARS genetic-algorithm
toolkit: one-point crossover, the per-element mutators (`flip_bit`,
`shuffle_indexes`, `gaussian_list`, `gaussian`), tournament selection with
its generic `select_n`, and the population container's batch mutation
`mutate_with_chance`.

Every random draw of the source is an input of the model, constrained to the
range the generator call can return:

- `rng.gen::<f64>()` and `rand::random::<f64>()` are `real` draws in [0, 1) (`Draws.IsUnitDraw`);
- the crossover point is the draw of `gen_range(1..length)`;
- the shuffle partner draws are those of `gen_range(0..(size - 2))`;
- the tournament candidates are the draws of `gen_range(0..len)`;
- a Gaussian sample is `Some(value)`, or `None` when `Normal::new` rejects the parameters; for `gaussian`, whose parameters are shared, one flag says whether the pair is accepted.

Panics (`assert!`, `expect`, `unwrap`, usize underflow, an empty `gen_range`)
are modelled as `Failures.Outcome` / `Failures.Result` values carrying a
`Failures.Panic` that names the condition.

Files, one module per source file:

- `failures.dfy`: the panics and the result wrappers.
- `draws.dfy`: the draw ranges and the mutators' gate `draw < indpb`.
- `crossover.dfy`: `one_point` on two arrays, specified by `Exchanged`.
- `mutation.dfy`: the mutators.
  - `flip_bit` and `shuffle_indexes` work in place on arrays.
  - `gaussian_list` and `gaussian` also work on arrays, specified by the step functions.
- `selection.dfy`: `select` as the pure `max_by` fold, and `select_n` as a loop.
- `population.dfy`: a `Population` class whose `individuals` sequence `MutateWithChance` reassigns.

Behaviours of the code that the model makes explicit:

- `gaussian_list` builds `Normal::new(mu, sigma)` inside the loop, and only for positions whose gate fires. So rejected parameters panic after earlier positions were already changed (`Mutation.GaussianStepsShape`). `gaussian` shares one `(mu, sigma)` across all positions, so a rejected pair panics at the first fired position before any element changes (`Mutation.GaussianSharedParameters`).
- `shuffle_indexes` draws the partner from `0..(size - 2)` and bumps it past the index. So index `size - 1` is never a partner (`Mutation.PartnerRange`). Any fired index panics when the size is below 3 (`Mutation.ShuffleSmall`).
- `mutate_with_chance` mutates an individual when its draw is greater than `indpb`, the opposite of the mutators' `<` test. So `indpb >= 1` mutates nobody (`Population.NoneMutatedAtOne`), and `indpb < 0` mutates everybody (`Population.AllMutatedBelowZero`).
- `select` on a vector of one fitness returns 0 only when it does not panic. A NaN fitness compared against itself panics once the tournament has two candidates (`Selection.TournamentSingleFitness`). A NaN drawn at any position of such a tournament panics (`Selection.TournamentNaN`).

## Model

| member | source | states |
|---|---|---|
| `Crossover.Exchanged` | src/crossover.rs:21-29 | both individuals keep their lengths; position i of each takes the other's old value exactly when p <= i < min length; all else is untouched |
| `Crossover.OnePoint` | src/crossover.rs:21-29 | panics with CrossoverTooShort exactly when the shorter individual has fewer than 2 elements, leaving both unchanged; otherwise the arrays become `Exchanged` of their old contents at the drawn point in [1, min length) |
| `Crossover.ExchangeConserves` | src/crossover.rs:26-27 | the combined multiset of elements of the two individuals is preserved |
| `Crossover.ExchangeInvolutive` | src/crossover.rs:26-27 | crossing the two results again at the same point restores both originals |
| `Crossover.DocumentedExample` | src/crossover.rs:15-19 | `[1;4]` and `[2;7]` at point 2 give `[1,1,2,2]` and `[2,2,1,1,2,2,2]` |
| `Mutation.Flipped` | src/mutation.rs:104-111 | flipping never changes the individual's length |
| `Mutation.FlippedAt` | src/mutation.rs:106-110 | position i is negated exactly when its draw is below indpb, and is unchanged otherwise |
| `Mutation.FlipBit` | src/mutation.rs:104-111 | the array after the loop is `Flipped` of its old contents with the given draws |
| `Mutation.FlipAllFiring` | src/mutation.rs:106-108 | with draws in [0,1) and indpb >= 1 the result is the logical complement of the input |
| `Mutation.FlipNoneFiring` | src/mutation.rs:107 | with indpb <= 0 the individual is unchanged |
| `Mutation.FlipInvolutive` | src/mutation.rs:106-110 | flipping twice with the same draws restores the individual |
| `Mutation.FirstInvalid` | src/mutation.rs:56-61 | the first position whose gate fires on parameters Normal::new rejects, or n; no earlier position has that property |
| `Mutation.GaussianSteps` | src/mutation.rs:56-62 | the Gaussian loop never changes the individual's length |
| `Mutation.GaussianStepsShape` | src/mutation.rs:56-62 | the loop panics with InvalidNormal exactly when some fired position has rejected parameters; positions before the first such one get their sample added when fired; it and all later positions are untouched |
| `Mutation.GaussianNoneFiring` | src/mutation.rs:57 | with indpb <= 0 the loop succeeds and leaves the individual exactly as it was |
| `Mutation.GaussianAllFiring` | src/mutation.rs:57-60 | with indpb >= 1 and every distribution valid, every element changes by its own sample |
| `Mutation.GaussianFailurePersists` | src/mutation.rs:58 | once a position has panicked no later position is processed |
| `Mutation.GaussianList` | src/mutation.rs:50-63 | a `mus` length mismatch panics first, then a `sigmas` mismatch, both before any element is touched; otherwise outcome and array are those of `GaussianSteps` |
| `Mutation.SharedSamples` | src/mutation.rs:21-23 | one shared `(mu, sigma)` is accepted or rejected at every position alike: the samples are all present (the drawn noise) or all absent |
| `Mutation.GaussianSharedParameters` | src/mutation.rs:19-24 | with one shared pair, an accepted pair never panics; a rejected pair leaves every element unchanged and panics with InvalidNormal exactly when some position fires |
| `Mutation.Gaussian` | src/mutation.rs:19-24 | never trips a length check: outcome and array are those of `GaussianSteps` on the shared samples; an accepted pair gives Done; a rejected pair leaves the array unchanged and panics iff some position fires |
| `Mutation.Partner` | src/mutation.rs:83-86 | the bumped partner is never the index itself and is below size - 1 |
| `Mutation.PartnerRange` | src/mutation.rs:83-86 | a partner can be j iff j < size - 1, j differs from idx, and j differs from size - 2 when idx is the last index; the last index is never a partner |
| `Mutation.Swap` | src/mutation.rs:87 | exchanges two positions, keeps every other one and the multiset of elements |
| `Mutation.ShuffleSteps` | src/mutation.rs:81-89 | a shuffle pass that does not panic keeps the individual's length |
| `Mutation.ShufflePermutes` | src/mutation.rs:81-89 | a shuffle pass that does not panic returns a permutation of its input |
| `Mutation.ShuffleLargeSucceeds` | src/mutation.rs:83 | on individuals of 3 or more elements the shuffle never panics |
| `Mutation.ShuffleSmall` | src/mutation.rs:82-83 | below 3 elements the shuffle panics iff some index fires, with PartnerRangeUnderflow below size 2 and EmptyPartnerRange at size 2, and otherwise changes nothing |
| `Mutation.ShuffleIndexes` | src/mutation.rs:78-90 | the array ends as the successful `ShuffleSteps` result, or is left unchanged with the panic that stopped the pass |
| `Selection.MaxBy` | src/selection.rs:39-42 | a successful `max_by` returns the first element or one of the rest |
| `Selection.TournamentSelect` | src/selection.rs:33-43 | an empty fitness vector panics with EmptyFitnesses for every size; size 0 then panics with ZeroTournament; a returned index is one of the candidates and below the vector's length |
| `Selection.TournamentOfOne` | src/selection.rs:38-42 | a tournament of one returns its single drawn candidate |
| `Selection.MaxByLast` | src/selection.rs:39-42 | the fold's winner is drawn at a position after which every candidate compares strictly below it |
| `Selection.TournamentLastMaximum` | src/selection.rs:39-42 | the winner is drawn at some position q and every candidate drawn after q is strictly worse: of equal maxima the last is returned |
| `Selection.MaxByMaximal` | src/selection.rs:39-42 | under the PartialOrd laws the fold's winner is at least every element it passed over |
| `Selection.TournamentMaximal` | src/selection.rs:39-42 | under the PartialOrd laws the winner's fitness is at least that of every other drawn candidate |
| `Selection.MaxByFails` | src/selection.rs:40-41 | the fold fails only with IncomparableFitnesses, and only when two of its elements are unordered |
| `Selection.TournamentIncomparable` | src/selection.rs:40-41 | an IncomparableFitnesses panic implies two drawn candidates are unordered; unordered first two candidates always panic, never tie |
| `Selection.MaxByNaN` | src/selection.rs:39-42 | a value unordered against every fitness that is compared anywhere in the fold makes it fail with IncomparableFitnesses |
| `Selection.TournamentNaN` | src/selection.rs:39-42 | a fitness unordered against every fitness (NaN) drawn at any position of a tournament of two or more makes the selection panic with IncomparableFitnesses |
| `Selection.MaxBySingle` | src/selection.rs:39-42 | with one fitness the fold returns 0 unless it compares that fitness with itself and finds it unordered |
| `Selection.TournamentSingleFitness` | src/selection.rs:34-42 | with one fitness the result is ZeroTournament for size 0, index 0 for size 1 or an ordered fitness, and IncomparableFitnesses otherwise |
| `Selection.SelectN` | src/selection.rs:17-23 | returns exactly n indices, the k-th being the k-th independent select call; if a call panics, the first panicking call's panic is returned |
| `Population.MutatedWithChance` | src/population.rs:31-35 | the batch mutation never changes the number of individuals |
| `Population.MutatedWithChanceAt` | src/population.rs:32-33 | individual i becomes the mutator's result exactly when its draw is greater than indpb, depending only on its own value and draws |
| `Population.NoneMutatedAtOne` | src/population.rs:32 | with indpb >= 1 no individual is mutated |
| `Population.AllMutatedBelowZero` | src/population.rs:32 | with indpb < 0 every individual is mutated; with indpb == 0 every one whose draw is not 0 |
| `Population.Population.constructor` | src/population.rs:9-21 | the population holds exactly the given individuals, fitnesses, mutator, crossover and selector |
| `Population.Population.MutateWithChance` | src/population.rs:30-36 | individuals become `MutatedWithChance` of the old ones; fitnesses, mutator, crossover and selector are unchanged, so the two collections' lengths relate as before |

## Left out

- The random generator (`thread_rng`, `gen`, `gen_range`, `rand::random`) is replaced by draw inputs constrained to the ranges those calls return.
- Floating point: draws, `indpb`, genes and samples are `real`. NaN, infinities and the rounding of `*ind += val` are not modelled. A NaN `indpb` would make every gate false.
- `Normal::new` and `sample` belong to a distribution library. Each Gaussian position's construction and sample is one `Option<real>` input. Which `(mu, sigma)` pairs the library rejects is not modelled.
- Mutation.ShuffleIndexes: in a release build `size - 2` wraps around instead of trapping, and `swap` then panics out of bounds. The model reports both cases as PartnerRangeUnderflow.
- Population.Population.MutateWithChance: the mutator is a total function of the individual and its own randomness. A mutator that panics part-way is not modelled.
- The `Mutator` and `Crossover` traits are not part of this model. They are not defined in the shown files, so the mutator is a function field and the crossover and selector are opaque type parameters.
- `population.rs` and `selection.rs` are not listed as modules in `src/lib.rs`, and population.rs does not import a `Mutator` trait. The model treats both files as if they compiled.
- Selection.SelectN: the source implements `select_n` only for the trait object `dyn SelectOne<F>`. The model takes any select-one function of the per-call draws.
- Selection.TournamentMaximal assumes the laws of `PartialOrd` as a precondition: `a > b` implies `b < a`, and `<=` is transitive over the fitness vector. Every other selection property holds for any comparison function.
- `Population::select` is `todo!()` and has no behaviour. `SelBest` is an empty struct. The commented-out code is not compiled.
- `src/individual.rs` and `src/lib.rs` hold a trait declaration, a type alias and a trivial `add`; they are not part of this model.
- benches/random.rs (benchmarks, rayon's `par_iter_mut`) and the example driver programs are not part of this model.
