/** The random-sampling boundary: every random draw of the operators is an
    input of the model, constrained to the range the generator call returns. */
module Draws {

  /** A value `rng.gen::<f64>()` or `rand::random::<f64>()` can return: uniform in [0, 1). */
  predicate IsUnitDraw(d: real) {
    0.0 <= d < 1.0
  }

  predicate AllUnitDraws(ds: seq<real>) {
    forall k :: 0 <= k < |ds| ==> IsUnitDraw(ds[k])
  }

  /** The per-element gate of every mutator: `rng.gen::<f64>() < indpb`. */
  predicate Fires(draw: real, indpb: real) {
    draw < indpb
  }
}
