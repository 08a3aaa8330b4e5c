/** Small failure-carrying wrappers shared by every module of the model. */
module Common {

  /** A value that may be absent: a missing JSON field, `null` or `undefined`. */
  datatype Option<+T> = None | Some(value: T)

  /** The outcome of an operation that either yields a value or throws with a message. */
  datatype Result<+T> = Ok(value: T) | Err(message: string)

  /** A prefix one element longer is the shorter prefix followed by that element. */
  lemma TakeOneMore<T>(s: seq<T>, k: nat)
    requires k < |s|
    ensures s[..k + 1] == s[..k] + [s[k]]
  {
  }
}
