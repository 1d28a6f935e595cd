/** Shared vocabulary: optional values, success-or-error results and
    identifiers.  A UUID is modelled as a natural number; the all-zero
    UUID (`uuid.Nil` in the source) is 0. */
module Prelude {

  datatype Option<+T> = None | Some(value: T)

  datatype Result<+T, +E> = Ok(value: T) | Err(error: E)

  type Uuid = nat

  /** The all-zero identifier that every "optional id" filter tests against. */
  const Nil: Uuid := 0
}
