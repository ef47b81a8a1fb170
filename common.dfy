/** Small shared vocabulary of the model. */
module Common {

  /** An optional value: `None` stands for a NULL pointer of the C++ source. */
  datatype Option<+T> = None | Some(value: T)

  /** A callback `void *(*)(void *, int)`, identified by an opaque number. */
  type FuncId = nat

  /** The opaque `void *` argument handed to a callback. */
  type ArgsRef = nat
}
