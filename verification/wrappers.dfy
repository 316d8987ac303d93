/** Small value wrappers shared by the whole model: an optional value (the
    source's `T | null`) and the settled state of an awaited promise. */
module Wrappers {

  /** `Some(v)` for a present value, `None` for JavaScript's `null`. */
  datatype Option<+T> = None | Some(value: T)

  /** The outcome of awaiting one asynchronous collaborator call: it either
      fulfils with a value or rejects with a reason. Every network call of the
      widget is supplied to the model as one of these, so the model reasons
      about control flow only. */
  datatype Settled<+T> = Fulfilled(value: T) | Rejected(reason: string)
}
