/**
 * The timer engine of src/bin/timersock.rs (`TimerState`): one countdown
 * with its remaining whole seconds, a run flag and the instant it was last
 * reconciled. Elapsed time is folded in lazily by `refresh`, which every
 * operation but `start` runs first.
 *
 * Instants are nanoseconds on a monotonic clock and are passed in as `now`;
 * `as_secs()` truncates the elapsed nanoseconds to whole seconds.
 */
module TimerEngine {
  import opened Text
  import Hms

  const NANOS_PER_SEC: nat := 1_000_000_000

  /** A reading of the monotonic clock, in nanoseconds. */
  type Instant = nat

  /** `u64::saturating_sub` */
  function SaturatingSub(a: u64, b: nat): (r: u64)
    ensures b <= a ==> r + b == a
    ensures b >= a ==> r == 0
  {
    if b < a then a - b else 0
  }

  /** `u64::saturating_add` */
  function SaturatingAdd(a: u64, b: u64): (r: u64)
    ensures a + b <= U64_MAX ==> r == a + b
    ensures a + b >= U64_MAX ==> r == U64_MAX
  {
    if a + b <= U64_MAX then a + b else U64_MAX
  }

  datatype Timer = Timer(timeLeftSecs: u64, running: bool, updatedAt: Instant)

  /** The engine's invariant: a running timer has time left. */
  predicate Inv(t: Timer) {
    t.running ==> t.timeLeftSecs > 0
  }

  /** `TimerState::default()`: zero seconds, not running. */
  function Default(now: Instant): Timer {
    Timer(0, false, now)
  }

  /**
   * `now.duration_since(updated_at).as_secs()`: whole seconds since the last
   * reconciliation; `duration_since` saturates to zero for an earlier `now`.
   */
  function ElapsedSecs(t: Timer, now: Instant): (e: nat)
    ensures now >= t.updatedAt ==> e * NANOS_PER_SEC <= now - t.updatedAt < (e + 1) * NANOS_PER_SEC
    ensures now <= t.updatedAt ==> e == 0
  {
    if now >= t.updatedAt then (now - t.updatedAt) / NANOS_PER_SEC else 0
  }

  /** `refresh`: reconcile elapsed whole seconds into the remaining time. */
  function Refreshed(t: Timer, now: Instant): Timer {
    if !t.running then t.(updatedAt := now)
    else
      var elapsed := ElapsedSecs(t, now);
      if elapsed == 0 then t
      else
        var left := SaturatingSub(t.timeLeftSecs, elapsed);
        Timer(left, if left == 0 then false else t.running, now)
  }

  /** `start`: overwrite the state outright. */
  function Started(seconds: u64, now: Instant): Timer {
    Timer(seconds, seconds > 0, now)
  }

  /** `pause`: reconcile, then stop. */
  function Paused(t: Timer, now: Instant): Timer {
    Refreshed(t, now).(running := false)
  }

  /** `resume`: reconcile, then run again if any time is left. */
  function Resumed(t: Timer, now: Instant): Timer {
    var r := Refreshed(t, now);
    if r.timeLeftSecs > 0 then r.(running := true, updatedAt := now) else r
  }

  /** `extend`: reconcile, then add time, saturating at the u64 maximum. */
  function Extended(t: Timer, seconds: u64, now: Instant): Timer {
    var r := Refreshed(t, now);
    r.(timeLeftSecs := SaturatingAdd(r.timeLeftSecs, seconds))
  }

  /** `TimerSnapshot`: what leaves the critical section. */
  datatype TimerSnapshot = TimerSnapshot(timeLeftSecs: u64, timeLeftHms: string, running: bool)

  /** The snapshot of an already reconciled state. */
  function View(t: Timer): TimerSnapshot {
    TimerSnapshot(t.timeLeftSecs, Hms.FormatHms(t.timeLeftSecs), t.running)
  }

  /** `snapshot`: reconcile, then report. The state after it is `Refreshed(t, now)`. */
  function SnapshotOf(t: Timer, now: Instant): TimerSnapshot {
    View(Refreshed(t, now))
  }

  /** The mutable record behind the server's lock. */
  class TimerState {
    var timeLeftSecs: u64
    var running: bool
    var updatedAt: Instant

    function Model(): Timer
      reads this
    {
      Timer(timeLeftSecs, running, updatedAt)
    }

    ghost predicate Valid()
      reads this
    {
      Inv(Model())
    }

    /** `TimerState::default()` */
    constructor (now: Instant)
      ensures Model() == Default(now)
      ensures Valid()
    {
      timeLeftSecs := 0;
      running := false;
      updatedAt := now;
    }

    method Refresh(now: Instant)
      requires Valid()
      modifies this
      ensures Model() == Refreshed(old(Model()), now)
      ensures Valid()
    {
      if !running {
        updatedAt := now;
        return;
      }
      var elapsed := ElapsedSecs(Model(), now);
      if elapsed == 0 {
        return;
      }
      timeLeftSecs := SaturatingSub(timeLeftSecs, elapsed);
      if timeLeftSecs == 0 {
        running := false;
      }
      updatedAt := now;
    }

    method Start(seconds: u64, now: Instant)
      modifies this
      ensures Model() == Started(seconds, now)
      ensures Valid()
    {
      timeLeftSecs := seconds;
      running := seconds > 0;
      updatedAt := now;
    }

    method Pause(now: Instant)
      requires Valid()
      modifies this
      ensures Model() == Paused(old(Model()), now)
      ensures Valid()
    {
      Refresh(now);
      running := false;
    }

    method Resume(now: Instant)
      requires Valid()
      modifies this
      ensures Model() == Resumed(old(Model()), now)
      ensures Valid()
    {
      Refresh(now);
      if timeLeftSecs > 0 {
        running := true;
        updatedAt := now;
      }
    }

    method Extend(seconds: u64, now: Instant)
      requires Valid()
      modifies this
      ensures Model() == Extended(old(Model()), seconds, now)
      ensures Valid()
    {
      Refresh(now);
      timeLeftSecs := SaturatingAdd(timeLeftSecs, seconds);
    }

    method Snapshot(now: Instant) returns (snap: TimerSnapshot)
      requires Valid()
      modifies this
      ensures Model() == Refreshed(old(Model()), now)
      ensures snap == SnapshotOf(old(Model()), now)
      ensures snap == View(Model())
      ensures Valid()
    {
      Refresh(now);
      snap := TimerSnapshot(timeLeftSecs, Hms.FormatHms(timeLeftSecs), running);
    }
  }
}
