/** Option and Result values shared by every module of the model. */
module Wrappers {

  /** A value that may be absent: JavaScript's `undefined` and "no match". */
  datatype Option<+T> = None | Some(value: T)

  /** An outcome that may instead be a thrown JavaScript error, carrying its message. */
  datatype Result<+T> = Ok(value: T) | Err(message: string)
}
