/** One page's markdown fetch: the HTTP transport is abstracted into a
    response value, and the outcome is either the content or exactly one
    of the exporter's error strings. */
module Fetch {
  import opened Text
  import opened Urls

  /** What a GET with a timeout can come back with. */
  datatype Response =
    | Response(status: int, body: string)
    | TimedOut
    | ConnectionFailed

  /** A fetch result: content or an error message, never both. */
  datatype Outcome = Content(text: string) | Failed(error: string)

  const NotExist: string := "Pages that don't exist"
  const RateLimited: string := "Rate limiting from the server"
  const CantAccess: string := "Pages that can't be accessed"

  /** The asynchronous client treats every status of 400 or more as an
      error, which the fetch reports as inaccessible unless it is 404. */
  function MarkdownOutcome(r: Response): (o: Outcome)
    ensures o.Content? <==> r.Response? && r.status < 400
    ensures o.Content? ==> o.text == r.body
    ensures o == Failed(NotExist) <==> r.Response? && r.status == 404
    ensures o == Failed(RateLimited) <==> r.TimedOut?
    ensures o == Failed(CantAccess) <==>
              r.ConnectionFailed? || (r.Response? && r.status >= 400 && r.status != 404)
  {
    match r
    case Response(status, body) =>
      if status == 404 then Failed(NotExist)
      else if status >= 400 then Failed(CantAccess)
      else Content(body)
    case TimedOut => Failed(RateLimited)
    case ConnectionFailed => Failed(CantAccess)
  }

  /** Fetching a page means requesting its markdown URL; `get` stands for
      the network. */
  function FetchPage(get: string -> Response, url: string): (o: Outcome)
    ensures o.Content? <==> get(MarkdownUrl(url)).Response? && get(MarkdownUrl(url)).status < 400
    ensures o.Content? ==> o.text == get(MarkdownUrl(url)).body
    ensures o.Failed? ==> o.error in {NotExist, RateLimited, CantAccess}
  {
    MarkdownOutcome(get(MarkdownUrl(url)))
  }
}
