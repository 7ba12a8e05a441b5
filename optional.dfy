/** An absent-or-present value: a missing request field, a missing dictionary key,
    or a fetch that raised. */
module Optional {
  datatype Option<+T> = None | Some(value: T)
}
