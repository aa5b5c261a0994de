/** Small result types shared by the model. */
module Wrappers {

  datatype Option<+T> = None | Some(value: T)

  /** The outcome of an operation of the file system layer.
      Halted: the source stops on a failed ASSERT, on the disk's
      sector-range assertion or on a null handle.
      Unmodelled: the operation reaches the triple-indirect tier of a growing
      header, whose index arithmetic in the source is inconsistent and which
      this model does not follow. */
  datatype Outcome<+T> = Done(value: T) | Halted | Unmodelled
}
