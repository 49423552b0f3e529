/**
 * The client's subcommands against the server's router: what each
 * subcommand does to the timer when its request arrives. The server's JSON
 * decoding is taken to read back the seconds that the client's
 * `{"seconds":n}` body carries.
 */
module EndToEnd {
  import opened Text
  import opened TimerEngine
  import opened TimerService
  import opened Client

  /**
   * The request the router sees for a subcommand. A subcommand without a
   * payload sends an empty body, which would not decode; the routes it
   * reaches never read it.
   */
  function Delivered(c: Command): Request {
    var out := CommandRequest(c);
    Request(out.verb, out.path, if c.Start? || c.Extend? then Decoded(c.seconds) else DecodeFailed)
  }

  /** The engine operation a subcommand stands for, followed by the snapshot's refresh. */
  function Effect(c: Command, t: Timer, opNow: Instant, snapNow: Instant): Timer
    requires !c.Toggle?
  {
    var op := match c
      case Status => t
      case Start(n) => Started(n, opNow)
      case Pause => Paused(t, opNow)
      case Resume => Resumed(t, opNow)
      case Extend(n) => Extended(t, n, opNow);
    Refreshed(op, snapNow)
  }

  /**
   * Every subcommand but Toggle reaches its own engine operation and is
   * answered 200 with the resulting snapshot; Toggle's `POST /toggle` has no
   * route and is answered 404 with the timer untouched.
   */
  lemma CommandsReachEngine(c: Command, t: Timer, opNow: Instant, snapNow: Instant)
    ensures c.Toggle? ==> Handle(Delivered(c), t, opNow, snapNow) == (Response(404, ErrorBody(ROUTE_NOT_FOUND)), t)
    ensures !c.Toggle? ==>
      var (resp, t') := Handle(Delivered(c), t, opNow, snapNow);
      t' == Effect(c, t, opNow, snapNow) && resp == Response(200, SnapshotBody(View(t')))
  {
    var req := Delivered(c);
    match c
    case Status => assert RouteOf(req.verb, req.path) == TimeLeft;
    case Start(n) => assert RouteOf(req.verb, req.path) == StartRoute;
    case Pause => assert RouteOf(req.verb, req.path) == PauseRoute;
    case Resume => assert RouteOf(req.verb, req.path) == ResumeRoute;
    case Toggle => assert RouteOf(req.verb, req.path) == NoRoute;
    case Extend(n) => assert RouteOf(req.verb, req.path) == ExtendRoute;
  }
}
