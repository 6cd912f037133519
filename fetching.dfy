/**
 * `fetchData` (app.js:25-46): replace the abort controller, then turn the
 * outcome of the request into the parsed body or `null`.
 */
module Fetching {
  import opened Wrappers
  import opened Products

  /** Why `fetch` rejected: the signal was aborted, or any other failure (network, CORS, ...). */
  datatype FetchError = AbortError | NetworkFailure

  /** What `response.json()` produced: the product array, or a rejection. */
  datatype Body = Json(items: seq<Product>) | Malformed

  /** How one request went: `fetch` rejected, or a response with a status and a body arrived. */
  datatype Exchange = Rejected(error: FetchError) | Responded(status: int, body: Body)

  /** `Response.ok`: the status is in the range 200-299. */
  predicate IsOk(status: int) {
    200 <= status <= 299
  }

  /** The value `fetchData` resolves to: the parsed body after an ok response, otherwise `null`. */
  function FetchResult(e: Exchange): (r: Option<seq<Product>>)
    ensures r.None? <==> (e.Rejected? || !IsOk(e.status) || e.body.Malformed?)
    ensures r.Some? ==> e.Responded? && IsOk(e.status) && e.body == Json(r.value)
  {
    match e
    case Rejected(_) => None
    case Responded(status, body) =>
      if !IsOk(status) then None
      else match body
        case Json(items) => Some(items)
        case Malformed => None
  }

  /**
   * The abort flag of every `AbortController` the widget has created, oldest
   * first; the last one is the controller `abortController` holds.
   * Every controller except the current one has been aborted.
   */
  predicate AtMostOneLive(aborted: seq<bool>) {
    forall i :: 0 <= i < |aborted| - 1 ==> aborted[i]
  }

  /** Lines 26-30: abort the current controller, if there is one, then install a fresh one. */
  function ReplaceController(aborted: seq<bool>): (r: seq<bool>)
    ensures |r| == |aborted| + 1 && !r[|aborted|]
    ensures forall i :: 0 <= i < |aborted| - 1 ==> r[i] == aborted[i]
    ensures |aborted| > 0 ==> r[|aborted| - 1]
    ensures AtMostOneLive(aborted) ==> AtMostOneLive(r) && forall i :: 0 <= i < |aborted| ==> r[i]
  {
    if |aborted| > 0 then aborted[..|aborted| - 1] + [true, false] else [false]
  }
}
