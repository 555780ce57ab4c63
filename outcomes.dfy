/** Optional values and the outcome of a remote call.

    Every call the dashboard makes to the user endpoint either resolves with a
    response body or is rejected (network error or non-2xx status). The model
    receives that outcome as an input instead of performing the call. */
module Outcomes {

  datatype Option<T> = None | Some(value: T)

  /** The settled promise of one HTTP call: the response body, or a rejection. */
  datatype Outcome<T> = Succeeded(body: T) | Failed
}
