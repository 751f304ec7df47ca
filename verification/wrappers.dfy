/** Optional values and the outcome of awaited calls, shared by the other modules. */
module Wrappers {

  /** A value that may be absent: JavaScript's `undefined` / `null`. */
  datatype Option<+T> = None | Some(value: T)

  /** The outcome of an awaited network call: a parsed reply, or a thrown error
      (a failed `fetch`, a non-JSON body) that lands in a `catch` block. */
  datatype Reply<+T> = Replied(value: T) | Threw
}
