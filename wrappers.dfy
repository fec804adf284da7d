/** Small result types shared by every module of the model. */
module Wrappers {

  /** Python's `None` versus a present value. */
  datatype Option<+T> = None | Some(value: T)

  /** What a call into code outside the model did: it raised, or it returned a value. */
  datatype Outcome<+T> = Raised | Returned(value: T)
}
