/** The absent-or-present value used wherever the source returns a null
    `shared_ptr` or an empty `std::optional`. */
module Wrappers {

  datatype Option<+T> = None | Some(value: T)
}
