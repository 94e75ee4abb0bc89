/** Option and Result values, and the ways the prototype aborts.
    Every failure in the Rust code is a panic (an `unwrap`, an `expect` or an
    out-of-range slice); the model returns it as an `Err` instead. */
module Outcomes {

  datatype Option<T> = None | Some(value: T)

  /** The reason a call aborts in the Rust code. */
  datatype Abort =
    | NoEvaluationDomain    // GeneralEvaluationDomain::new returned None
    | DegreeOutOfRange      // slicing powers_of_g[..=d] past its end
    | MissingGammaPower     // powers_of_gamma_g has no entry for a key 0..=d
    | TooManyCoefficients   // KZG commit: more coefficients than powers in the key
    | NotInvertible         // inverse() of zero, then unwrap

  datatype Result<T> = Ok(value: T) | Err(abort: Abort)
}
