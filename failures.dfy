/** The ways the operators of the library stop with a panic, and the wrappers
    that carry either a value or one of those panics. */
module Failures {

  /** One constructor per `assert!`, `expect`, `unwrap` or arithmetic trap of the operators. */
  datatype Panic =
    | CrossoverTooShort       // one_point: shorter individual has fewer than 2 elements
    | MusLengthMismatch       // gaussian_list: `mus` does not match the individual's length
    | SigmasLengthMismatch    // gaussian_list: `sigmas` does not match the individual's length
    | InvalidNormal           // gaussian_list: `Normal::new(mu, sigma).unwrap()` on rejected parameters
    | PartnerRangeUnderflow   // shuffle_indexes: `size - 2` on a usize below 2
    | EmptyPartnerRange       // shuffle_indexes: `gen_range(0..0)` when size is 2
    | EmptyFitnesses          // select: "Can't select from empty fitnesses vector"
    | IncomparableFitnesses   // select: `partial_cmp` returned None ("are they NaN?")
    | ZeroTournament          // select: `max_by` over no candidates ("Tournament size can't be 0")

  /** The result of an operator that returns nothing when it does not panic. */
  datatype Outcome = Done | Failed(panic: Panic)

  /** The result of an operator that returns a value when it does not panic. */
  datatype Result<T> = Ok(value: T) | Err(panic: Panic)

  datatype Option<T> = None | Some(value: T)
}
