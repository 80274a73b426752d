/** Small failure-carrying datatypes used by the cart model. */
module Wrappers {

  /** An optional value: the position `find` returns, if any, and the
      storage slot's content, absent while it was never written. */
  datatype Option<+T> = None | Some(value: T)

  /** What an awaited `api.get` hands back to the cart: the request threw
      (network error, non-2xx status), it resolved with an empty (falsy)
      body, or it resolved with data. */
  datatype Response<+T> = Thrown | Empty | Data(value: T)
}
