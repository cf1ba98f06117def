/** The absent-or-present value that stands for JavaScript's `null` results
    and for `NaN` from a failed parse. */
module Options {

  datatype Option<T> = None | Some(value: T)
}
