/** C pointers that may be NULL, optional values, and memory effects. */
module Pointers {

  /** A C pointer argument: NULL, or a reference to a value. */
  datatype Ptr<T> = Null | Ref(target: T)

  datatype Option<T> = None | Some(value: T)

  /** The outcome of C code whose effect the model does not fix: either a
      defined result, or `Undefined` for an access outside the memory the
      object owns or a call whose behaviour there an unmodelled library
      decides. */
  datatype Effect<T> = Defined(value: T) | Undefined
}
