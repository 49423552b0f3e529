/**
 * What the router promises: error routes leave the timer alone, a found
 * route answers 200 with the snapshot taken after its operation, and
 * lock-serialised requests compose as one step after another.
 */
module ServiceProperties {
  import opened Text
  import opened TimerEngine
  import opened TimerService
  import Hms

  /** An unknown (method, path) answers 404 and leaves the state exactly as it was. */
  lemma NotFoundUntouched(req: Request, t: Timer, opNow: Instant, snapNow: Instant)
    requires RouteOf(req.verb, req.path) == NoRoute
    ensures Handle(req, t, opNow, snapNow) == (Response(404, ErrorBody(ROUTE_NOT_FOUND)), t)
  {
  }

  /**
   * A body on /start or /extend that cannot be read or decoded answers 400
   * before the engine is reached, with the message of the step that failed.
   */
  lemma BadBodyUntouched(req: Request, t: Timer, opNow: Instant, snapNow: Instant)
    requires RouteOf(req.verb, req.path).ReadsBody() && !req.body.Decoded?
    ensures Handle(req, t, opNow, snapNow)
            == (Response(400, ErrorBody(if req.body.ReadFailed? then INVALID_BODY else BAD_SECONDS_BODY)), t)
  {
  }

  /**
   * The status is 200 exactly when the route exists and its body (if it reads
   * one) decodes; then the state is the operation followed by a refresh, and
   * the response is the snapshot of that final state.
   */
  lemma SuccessReportsAfterOp(req: Request, t: Timer, opNow: Instant, snapNow: Instant)
    ensures var route := RouteOf(req.verb, req.path);
      var (resp, t') := Handle(req, t, opNow, snapNow);
      && (resp.status == 200 <==> route != NoRoute && (route.ReadsBody() ==> req.body.Decoded?))
      && (resp.status == 200 ==>
            && t' == Refreshed(Operate(route, if route.ReadsBody() then req.body.seconds else 0, t, opNow), snapNow)
            && resp.body == SnapshotBody(View(t')))
      && (resp.status != 200 ==> t' == t && resp.body.ErrorBody?)
  {
  }

  /** Only three statuses occur. */
  lemma StatusCodes(req: Request, t: Timer, opNow: Instant, snapNow: Instant)
    ensures Handle(req, t, opNow, snapNow).0.status in {200, 400, 404}
  {
  }

  /** Every request keeps the invariant running ==> time left > 0. */
  lemma HandleInv(req: Request, t: Timer, opNow: Instant, snapNow: Instant)
    requires Inv(t)
    ensures Inv(Handle(req, t, opNow, snapNow).1)
  {
  }

  // ---------------------------------------------------------------------
  // Requests serialised by the lock

  /** A request with its two clock readings. */
  datatype Step = Step(req: Request, opNow: Instant, snapNow: Instant)

  /** The state after serving `steps` one at a time, in lock order. */
  function ServeAll(t: Timer, steps: seq<Step>): Timer
    decreases |steps|
  {
    if |steps| == 0 then t
    else ServeAll(Handle(steps[0].req, t, steps[0].opNow, steps[0].snapNow).1, steps[1..])
  }

  function SumSeconds(steps: seq<Step>): nat
    decreases |steps|
  {
    if |steps| == 0 then 0
    else (if steps[0].req.body.Decoded? then steps[0].req.body.seconds else 0) + SumSeconds(steps[1..])
  }

  predicate IsExtend(s: Step) {
    s.req.verb == "POST" && s.req.path == "/extend" && s.req.body.Decoded?
  }

  /**
   * Extends against a timer that is not running each add their seconds, in
   * whatever order the lock admits them and whenever they arrive: no update
   * is lost, the sum only saturates at the u64 maximum, and the timer stays
   * stopped.
   */
  lemma {:induction false} ExtendsAccumulate(t: Timer, steps: seq<Step>)
    requires !t.running
    requires forall i :: 0 <= i < |steps| ==> IsExtend(steps[i])
    ensures ServeAll(t, steps).timeLeftSecs
            == if t.timeLeftSecs + SumSeconds(steps) <= U64_MAX then t.timeLeftSecs + SumSeconds(steps) else U64_MAX
    ensures !ServeAll(t, steps).running
    decreases |steps|
  {
    if |steps| > 0 {
      var s := steps[0];
      var t1 := Handle(s.req, t, s.opNow, s.snapNow).1;
      assert t1.timeLeftSecs == SaturatingAdd(t.timeLeftSecs, s.req.body.seconds);
      assert !t1.running;
      ExtendsAccumulate(t1, steps[1..]);
    }
  }

  /** N extend(1) requests from the default state leave exactly N seconds. */
  lemma ExtendOneNTimes(now: Instant, steps: seq<Step>)
    requires forall i :: 0 <= i < |steps| ==> IsExtend(steps[i]) && steps[i].req.body == Decoded(1)
    requires |steps| <= U64_MAX
    ensures ServeAll(Default(now), steps).timeLeftSecs == |steps|
    ensures !ServeAll(Default(now), steps).running
  {
    assert SumSeconds(steps) == |steps| by { SumOfOnes(steps); }
    ExtendsAccumulate(Default(now), steps);
  }

  lemma {:induction false} SumOfOnes(steps: seq<Step>)
    requires forall i :: 0 <= i < |steps| ==> steps[i].req.body == Decoded(1)
    ensures SumSeconds(steps) == |steps|
    decreases |steps|
  {
    if |steps| > 0 {
      SumOfOnes(steps[1..]);
    }
  }

  // ---------------------------------------------------------------------
  // Scenarios

  /** start(5) then an immediate query reports 5 s running; a query 5 s or more later reports 0, stopped. */
  lemma ScenarioStartFive(t: Timer, now: Instant, later: Instant)
    requires later >= now + 5 * NANOS_PER_SEC
    ensures var (resp, t1) := Handle(Request("POST", "/start", Decoded(5)), t, now, now);
      && resp == Response(200, SnapshotBody(TimerSnapshot(5, "00:00:05", true)))
      && Handle(Request("GET", "/time_left", DecodeFailed), t1, later, later).0
         == Response(200, SnapshotBody(TimerSnapshot(0, "00:00:00", false)))
  {
    assert Hms.FormatHms(5) == "00:00:05";
    assert Hms.FormatHms(0) == "00:00:00";
  }

  /** start(0) gives a stopped, zeroed timer. */
  lemma ScenarioStartZero(t: Timer, now: Instant, later: Instant)
    ensures var (resp, t1) := Handle(Request("POST", "/start", Decoded(0)), t, now, now);
      && resp == Response(200, SnapshotBody(TimerSnapshot(0, "00:00:00", false)))
      && Handle(Request("GET", "/time_left", DecodeFailed), t1, later, later).0 == resp
  {
    assert Hms.FormatHms(0) == "00:00:00";
  }

  /** POST /start with an undecodable body such as {"seconds":"abc"}: 400, state unchanged. */
  lemma ScenarioBadStart(t: Timer, opNow: Instant, snapNow: Instant)
    ensures Handle(Request("POST", "/start", DecodeFailed), t, opNow, snapNow) == (Response(400, ErrorBody(BAD_SECONDS_BODY)), t)
  {
  }

  /** GET /nope: 404. */
  lemma ScenarioNope(t: Timer, body: BodyOutcome, opNow: Instant, snapNow: Instant)
    ensures Handle(Request("GET", "/nope", body), t, opNow, snapNow) == (Response(404, ErrorBody(ROUTE_NOT_FOUND)), t)
  {
  }
}
