/**
 * The broker's error values. In the Go program each is a pointer to an
 * `HTTPError` struct carrying the HTTP status the handlers answer with and a
 * message; the model keeps that struct as a value and the two package-level
 * error variables as constants.
 */
module Errors {

  const StatusOK: int := 200
  const StatusBadRequest: int := 400
  const StatusNotFound: int := 404
  const StatusServiceUnavailable: int := 503

  datatype HttpError = HttpError(status: int, message: string) {
    /** The text the `error` interface reports. */
    function Error(): string { message }
  }

  /** Returned by a claim when every slot is leased. */
  const ErrNoAvailableGpu: HttpError := HttpError(StatusServiceUnavailable, "no GPU available")

  /** Returned by a release for a user that holds no lease. */
  const ErrSessionNotFound: HttpError := HttpError(StatusNotFound, "session not found")

  /**
   * The two broker errors: 503 "no GPU available" and 404 "session not
   * found", told apart by their statuses, each reporting its message as its
   * error text.
   */
  lemma ErrorValues()
    ensures ErrNoAvailableGpu.status == 503 && ErrNoAvailableGpu.Error() == "no GPU available"
    ensures ErrSessionNotFound.status == 404 && ErrSessionNotFound.Error() == "session not found"
    ensures ErrNoAvailableGpu.status != ErrSessionNotFound.status
  {
  }
}
