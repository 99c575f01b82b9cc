/**
 * The claim and release endpoints of the HTTP adapter, reduced to what they
 * decide: an empty `user_id` query value is refused with 400 before the pool is
 * touched, a broker error is answered with its own status and message, and a
 * success with 200. Routing, middleware and JSON encoding are not modelled;
 * a response body is one of the three shapes the handlers write.
 */
module Handlers {
  import opened Wrappers
  import opened Errors
  import opened Pool
  import Broker

  datatype Body = SessionJson(session: Session) | Text(message: string) | NoBody

  datatype Response = Response(status: int, body: Body)

  /** The answer to a request whose `user_id` is missing or empty. */
  const MissingUserId: Response := Response(StatusBadRequest, Text("user_id required"))

  /** How a handler answers a broker error: its status, with its message as the body. */
  function ErrorResponse(e: HttpError): Response {
    Response(e.status, Text(e.message))
  }

  /** The two broker errors reach the client as 503 "no GPU available" and 404 "session not found". */
  lemma ErrorResponses()
    ensures ErrorResponse(ErrNoAvailableGpu) == Response(503, Text("no GPU available"))
    ensures ErrorResponse(ErrSessionNotFound) == Response(404, Text("session not found"))
  {
  }

  /** POST /api/claim?user_id=`userId`: the new pool state and the response. */
  function ClaimEndpoint(st: PoolState, userId: string, pin: string, now: int): (PoolState, Response) {
    if userId == "" then (st, MissingUserId)
    else
      var (st1, r) := ClaimSpec(st, userId, pin, now);
      match r
      case Ok(s) => (st1, Response(StatusOK, SessionJson(s)))
      case Err(e) => (st1, ErrorResponse(e))
  }

  /** POST /api/release?user_id=`userId`: the new pool state and the response. */
  function ReleaseEndpoint(st: PoolState, userId: string): (PoolState, Response)
    requires userId in st.sessions ==> 0 <= st.sessions[userId].gpuId < |st.gpus|
  {
    if userId == "" then (st, MissingUserId)
    else
      var (st1, err) := ReleaseSpec(st, userId);
      match err
      case None => (st1, Response(StatusOK, NoBody))
      case Some(e) => (st1, ErrorResponse(e))
  }

  /**
   * The claim endpoint answers 400 exactly for an empty user ID, and then
   * leaves the pool alone; 503 exactly when a new user finds every slot
   * leased; and otherwise 200 with the user's lease in the body.
   */
  lemma ClaimEndpointStatus(st: PoolState, userId: string, pin: string, now: int)
    requires Consistent(st)
    ensures var (st1, resp) := ClaimEndpoint(st, userId, pin, now);
      && (resp.status == 400 <==> userId == "")
      && (userId == "" ==> st1 == st && resp.body == Text("user_id required"))
      && (resp.status == 503 <==> userId != "" && userId !in st.sessions && |st.sessions| == |st.gpus|)
      && (resp.status == 503 ==> st1 == st && resp.body == Text("no GPU available"))
      && (resp.status == 200 <==> userId != "" && (userId in st.sessions || |st.sessions| < |st.gpus|))
      && (resp.status == 200 ==> userId in st1.sessions && resp.body == SessionJson(st1.sessions[userId]))
  {
    if userId != "" && userId !in st.sessions {
      ClaimFailsIffFull(st, userId, pin, now);
      SessionCount(st);
    }
  }

  /**
   * The release endpoint answers 400 exactly for an empty user ID, 404
   * exactly for a user without a lease, in both cases leaving the pool
   * alone, and otherwise 200 with an empty body after ending the lease.
   */
  lemma ReleaseEndpointStatus(st: PoolState, userId: string)
    requires Consistent(st)
    ensures userId in st.sessions ==> 0 <= st.sessions[userId].gpuId < |st.gpus|
    ensures var (st1, resp) := ReleaseEndpoint(st, userId);
      && (resp.status == 400 <==> userId == "")
      && (userId == "" ==> resp.body == Text("user_id required"))
      && (resp.status == 404 <==> userId != "" && userId !in st.sessions)
      && (resp.status != 200 ==> st1 == st)
      && (resp.status == 404 ==> resp.body == Text("session not found"))
      && (resp.status == 200 <==> userId != "" && userId in st.sessions)
      && (resp.status == 200 ==> resp.body == NoBody && userId !in st1.sessions)
  {
    ReleasePreservesConsistent(st, userId);
  }

  /** The claim handler run against the broker object. */
  method HandleClaim(o: Broker.Orchestrator, userId: string, pin: string, now: int) returns (resp: Response)
    requires o.Valid()
    modifies o, o.gpus
    ensures o.Valid()
    ensures (o.State(), resp) == ClaimEndpoint(old(o.State()), userId, pin, now)
  {
    if userId == "" {
      return MissingUserId;
    }
    var r := o.Claim(userId, pin, now);
    match r
    case Ok(session) => resp := Response(StatusOK, SessionJson(session));
    case Err(e) => resp := ErrorResponse(e);
  }

  /** The release handler run against the broker object. */
  method HandleRelease(o: Broker.Orchestrator, userId: string) returns (resp: Response)
    requires o.Valid()
    modifies o, o.gpus
    ensures o.Valid()
    ensures (o.State(), resp) == ReleaseEndpoint(old(o.State()), userId)
  {
    ReleasePreservesConsistent(o.State(), userId);
    if userId == "" {
      return MissingUserId;
    }
    var err := o.Release(userId);
    match err
    case None => resp := Response(StatusOK, NoBody);
    case Some(e) => resp := ErrorResponse(e);
  }
}
