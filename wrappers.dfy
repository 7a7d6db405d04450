/** The optional value used for regular-expression captures, `Date.parse`
    results and matcher outcomes (`undefined` / `null` / `NaN` in the source). */
module Wrappers {

  datatype Option<+T> = None | Some(value: T)
}
