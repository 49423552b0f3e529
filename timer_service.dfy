/**
 * The request router of src/bin/timersock.rs (`handle_request`). Each
 * request that reaches the timer does so under the write lock, which is held
 * across one engine operation and the snapshot that follows it; the model is
 * therefore one atomic step per request. Reading and decoding the
 * `{"seconds": n}` body is abstracted to its outcome.
 */
module TimerService {
  import opened Text
  import opened TimerEngine

  const STATUS_OK: nat := 200
  const STATUS_BAD_REQUEST: nat := 400
  const STATUS_NOT_FOUND: nat := 404

  const ROUTE_NOT_FOUND: string := "route not found"
  /** The fixed part of the message when the body cannot be collected. */
  const INVALID_BODY: string := "invalid body"
  /** The fixed part of the message when the body is not `{"seconds": n}`. */
  const BAD_SECONDS_BODY: string := "expected JSON like {\"seconds\": 300}"

  /** What `parse_seconds_body` makes of the request body. */
  datatype BodyOutcome = Decoded(seconds: u64) | ReadFailed | DecodeFailed {
    /** The 400 message of a failed outcome: the read failure is reported before any decoding. */
    function Message(): (m: string)
      requires !Decoded?
      ensures m == INVALID_BODY <==> ReadFailed?
      ensures DecodeFailed? ==> m == BAD_SECONDS_BODY
    {
      if ReadFailed? then INVALID_BODY else BAD_SECONDS_BODY
    }
  }

  /**
   * A request as the router sees it: the method, the URI path, and what
   * reading and decoding the body gives. The body only matters on the two
   * routes that read one.
   */
  datatype Request = Request(verb: string, path: string, body: BodyOutcome)

  datatype ResponseBody = SnapshotBody(snapshot: TimerSnapshot) | ErrorBody(message: string)

  datatype Response = Response(status: nat, body: ResponseBody)

  datatype Route = TimeLeft | StartRoute | PauseRoute | ResumeRoute | ExtendRoute | NoRoute {
    predicate ReadsBody() {
      StartRoute? || ExtendRoute?
    }
  }

  /** The `match (method, path)` table. */
  function RouteOf(verb: string, path: string): Route {
    if verb == "GET" && path == "/time_left" then TimeLeft
    else if verb == "POST" && path == "/start" then StartRoute
    else if verb == "POST" && path == "/pause" then PauseRoute
    else if verb == "POST" && path == "/resume" then ResumeRoute
    else if verb == "POST" && path == "/extend" then ExtendRoute
    else NoRoute
  }

  /** The one engine operation a found route performs before its snapshot. */
  function Operate(route: Route, seconds: u64, t: Timer, now: Instant): Timer
    requires route != NoRoute
  {
    match route
    case TimeLeft => t
    case StartRoute => Started(seconds, now)
    case PauseRoute => Paused(t, now)
    case ResumeRoute => Resumed(t, now)
    case ExtendRoute => Extended(t, seconds, now)
  }

  /**
   * One request: the response and the state left behind. `opNow` is the clock
   * reading of the operation, `snapNow` that of the snapshot after it.
   */
  function Handle(req: Request, t: Timer, opNow: Instant, snapNow: Instant): (Response, Timer) {
    var route := RouteOf(req.verb, req.path);
    if route == NoRoute then
      (Response(STATUS_NOT_FOUND, ErrorBody(ROUTE_NOT_FOUND)), t)
    else if route.ReadsBody() && !req.body.Decoded? then
      (Response(STATUS_BAD_REQUEST, ErrorBody(req.body.Message())), t)
    else
      var seconds := if route.ReadsBody() then req.body.seconds else 0;
      var done := Refreshed(Operate(route, seconds, t, opNow), snapNow);
      (Response(STATUS_OK, SnapshotBody(View(done))), done)
  }

  /** `handle_request` on the shared state. */
  method HandleRequest(state: TimerState, req: Request, opNow: Instant, snapNow: Instant) returns (resp: Response)
    requires state.Valid()
    modifies state
    ensures state.Valid()
    ensures (resp, state.Model()) == Handle(req, old(state.Model()), opNow, snapNow)
  {
    var route := RouteOf(req.verb, req.path);
    if route == NoRoute {
      return Response(STATUS_NOT_FOUND, ErrorBody(ROUTE_NOT_FOUND));
    }
    if route.ReadsBody() && !req.body.Decoded? {
      return Response(STATUS_BAD_REQUEST, ErrorBody(req.body.Message()));
    }
    match route {
      case TimeLeft =>
      case StartRoute => state.Start(req.body.seconds, opNow);
      case PauseRoute => state.Pause(opNow);
      case ResumeRoute => state.Resume(opNow);
      case ExtendRoute => state.Extend(req.body.seconds, opNow);
    }
    var snap := state.Snapshot(snapNow);
    resp := Response(STATUS_OK, SnapshotBody(snap));
  }
}
