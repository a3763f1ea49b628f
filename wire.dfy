/**
 * The records that travel between the loaders and the animals server, and the
 * outcome of one HTTP request as the loaders see it.
 */
module Wire {
  import opened Wrappers

  /** The outcome of one request once `response.raise_for_status()` has run:
      a 2xx response with its body, an error status (`httpx.HTTPStatusError`),
      or no response at all (`httpx.RequestError`: refused connection, timeout). */
  datatype Reply<T> = Ok(body: T) | StatusError(status: int) | RequestError

  /** The same failure, raised again by a caller that did not catch it. */
  function Reraise<T, U>(r: Reply<T>): (e: Reply<U>)
    requires !r.Ok?
    ensures e.StatusError? <==> r.StatusError?
    ensures e.StatusError? ==> e.status == r.status
    ensures e.RequestError? <==> r.RequestError?
  {
    match r
    case StatusError(status) => StatusError(status)
    case RequestError => RequestError
  }

  /** The server errors that both loaders treat as passing: 500, 502, 503 and 504. */
  predicate IsTransientStatus(status: int) {
    status == 500 || status == 502 || status == 503 || status == 504
  }

  /** One item of a listing page: an animal without its friends (`BaseAnimal`). */
  datatype Summary = Summary(id: int, name: string, bornAt: Option<int>)

  /** A listing page, `{page, total_pages, items}` (`Animals`). */
  datatype Listing = Listing(page: int, totalPages: int, items: seq<Summary>)

  /** An animal as the server stores it and as `GET /animals/{id}` returns it:
      `friends` is a comma-joined string, `bornAt` epoch milliseconds (`Animal`). */
  datatype Animal = Animal(id: int, name: string, bornAt: Option<int>, friends: string)
}
