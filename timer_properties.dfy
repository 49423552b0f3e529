/**
 * What the timer engine promises: the reconciliation rules, the invariant
 * `running ==> time left > 0`, and what each operation does to the run flag
 * and the remaining time, over one call and over runs of calls.
 */
module TimerProperties {
  import opened Text
  import opened TimerEngine

  // ---------------------------------------------------------------------
  // Reconciliation

  /** A running timer with e >= 1 whole seconds elapsed loses e seconds (down to 0), stops exactly at 0 and is stamped `now`. */
  lemma RefreshRunning(t: Timer, now: Instant)
    requires t.running && ElapsedSecs(t, now) > 0
    ensures var r := Refreshed(t, now); var e := ElapsedSecs(t, now);
      && r.timeLeftSecs == (if t.timeLeftSecs > e then t.timeLeftSecs - e else 0)
      && (r.running <==> r.timeLeftSecs > 0)
      && r.updatedAt == now
  {
  }

  /** Less than a second since the last reconciliation: nothing changes, not even the stamp. */
  lemma RefreshSubSecond(t: Timer, now: Instant)
    requires t.running && ElapsedSecs(t, now) == 0
    ensures Refreshed(t, now) == t
  {
  }

  /** A stopped timer keeps its time and flag; only the stamp moves to `now`. */
  lemma RefreshStopped(t: Timer, now: Instant)
    requires !t.running
    ensures Refreshed(t, now) == Timer(t.timeLeftSecs, false, now)
  {
  }

  /** Reconciling twice at one instant is reconciling once, so two snapshots at one instant agree. */
  lemma RefreshIdempotent(t: Timer, now: Instant)
    ensures Refreshed(Refreshed(t, now), now) == Refreshed(t, now)
    ensures SnapshotOf(Refreshed(t, now), now) == SnapshotOf(t, now)
  {
  }

  /** At least as many elapsed seconds as remain: the timer ends at zero, stopped. */
  lemma RefreshSaturates(t: Timer, now: Instant)
    requires Inv(t) && t.running
    requires ElapsedSecs(t, now) >= t.timeLeftSecs
    ensures Refreshed(t, now).timeLeftSecs == 0 && !Refreshed(t, now).running
  {
  }

  /** Sub-second reconciliations lose nothing: the fraction keeps accumulating against the old stamp. */
  lemma FractionAccumulates(t: Timer, a: Instant, b: Instant)
    requires t.running && ElapsedSecs(t, a) == 0
    ensures Refreshed(Refreshed(t, a), b) == Refreshed(t, b)
  {
  }

  /**
   * A reconciliation that folds in whole seconds restamps with `now` and so
   * drops the fraction: refreshing a 10 s timer at 1.5 s and again at 3 s
   * leaves 8 s, where a single refresh at 3 s leaves 7 s.
   */
  lemma RemainderDiscarded()
    ensures var t := Timer(10, true, 0);
      && Refreshed(Refreshed(t, 1_500_000_000), 3_000_000_000).timeLeftSecs == 8
      && Refreshed(t, 3_000_000_000).timeLeftSecs == 7
  {
  }

  // ---------------------------------------------------------------------
  // The invariant running ==> time left > 0

  lemma DefaultInv(now: Instant)
    ensures Inv(Default(now)) && Default(now).timeLeftSecs == 0 && !Default(now).running
  {
  }

  lemma RefreshInv(t: Timer, now: Instant)
    requires Inv(t)
    ensures Inv(Refreshed(t, now))
  {
  }

  lemma StartInv(seconds: u64, now: Instant)
    ensures Inv(Started(seconds, now))
  {
  }

  lemma PauseInv(t: Timer, now: Instant)
    ensures Inv(Paused(t, now)) && !Paused(t, now).running
  {
  }

  lemma ResumeInv(t: Timer, now: Instant)
    requires Inv(t)
    ensures Inv(Resumed(t, now))
  {
  }

  lemma ExtendInv(t: Timer, seconds: u64, now: Instant)
    requires Inv(t)
    ensures Inv(Extended(t, seconds, now))
  {
  }

  /** The snapshot reports a state that satisfies the invariant, and leaves one behind. */
  lemma SnapshotInv(t: Timer, now: Instant)
    requires Inv(t)
    ensures Inv(Refreshed(t, now))
    ensures SnapshotOf(t, now).running ==> SnapshotOf(t, now).timeLeftSecs > 0
  {
  }

  // ---------------------------------------------------------------------
  // The operations

  /** `start` sets every field from its arguments alone, whatever the prior state. */
  lemma StartOverwrites(seconds: u64, now: Instant)
    ensures var r := Started(seconds, now);
      r.timeLeftSecs == seconds && (r.running <==> seconds > 0) && r.updatedAt == now
  {
  }

  /** `pause` stops the timer and keeps the reconciled time. */
  lemma PauseKeepsTime(t: Timer, now: Instant)
    ensures Paused(t, now).timeLeftSecs == Refreshed(t, now).timeLeftSecs
    ensures !Paused(t, now).running
  {
  }

  /** After `resume` the timer runs exactly when reconciled time is left; the time itself is unchanged. */
  lemma ResumeRunFlag(t: Timer, now: Instant)
    requires Inv(t)
    ensures Resumed(t, now).running <==> Refreshed(t, now).timeLeftSecs > 0
    ensures Resumed(t, now).timeLeftSecs == Refreshed(t, now).timeLeftSecs
  {
  }

  /** Resuming a zeroed timer does nothing beyond reconciling. */
  lemma ResumeFromZero(t: Timer, now: Instant)
    requires Inv(t)
    requires Refreshed(t, now).timeLeftSecs == 0
    ensures Resumed(t, now) == Refreshed(t, now)
    ensures !Resumed(t, now).running
  {
  }

  /** `extend` adds to the reconciled time, saturating at the u64 maximum, and keeps the reconciled run flag. */
  lemma ExtendAdds(t: Timer, seconds: u64, now: Instant)
    ensures var r := Refreshed(t, now);
      && Extended(t, seconds, now).running == r.running
      && Extended(t, seconds, now).timeLeftSecs
         == (if r.timeLeftSecs + seconds <= U64_MAX then r.timeLeftSecs + seconds else U64_MAX)
  {
  }

  /** `extend` never starts a stopped or paused timer, and on one it adds to the time as it was. */
  lemma ExtendNeverStarts(t: Timer, seconds: u64, now: Instant)
    requires !t.running
    ensures !Extended(t, seconds, now).running
    ensures Extended(t, seconds, now).timeLeftSecs == SaturatingAdd(t.timeLeftSecs, seconds)
  {
  }

  /** With a monotonic clock every operation moves the stamp forward, never past `now`. */
  lemma StampMonotone(t: Timer, seconds: u64, now: Instant)
    requires t.updatedAt <= now
    ensures t.updatedAt <= Refreshed(t, now).updatedAt <= now
    ensures Started(seconds, now).updatedAt == now
    ensures t.updatedAt <= Paused(t, now).updatedAt <= now
    ensures t.updatedAt <= Resumed(t, now).updatedAt <= now
    ensures t.updatedAt <= Extended(t, seconds, now).updatedAt <= now
  {
  }

  // ---------------------------------------------------------------------
  // Runs of reconciliations (one per snapshot)

  /** The state after a snapshot at each instant of `times`, in order. */
  function RefreshAll(t: Timer, times: seq<Instant>): Timer
    decreases |times|
  {
    if |times| == 0 then t else RefreshAll(Refreshed(t, times[0]), times[1..])
  }

  /** Clock readings taken after `t`'s stamp, in non-decreasing order. */
  predicate Later(t: Timer, times: seq<Instant>) {
    && (forall i :: 0 <= i < |times| ==> t.updatedAt <= times[i])
    && (forall i, j :: 0 <= i <= j < |times| ==> times[i] <= times[j])
  }

  /** A timer that is not running never changes its time and never starts, however many snapshots pass. */
  lemma {:induction false} StoppedFrozen(t: Timer, times: seq<Instant>)
    requires !t.running
    ensures RefreshAll(t, times).timeLeftSecs == t.timeLeftSecs
    ensures !RefreshAll(t, times).running
    decreases |times|
  {
    if |times| > 0 {
      StoppedFrozen(Refreshed(t, times[0]), times[1..]);
    }
  }

  /** After `pause`, no later snapshot reports less time than the pause left. */
  lemma PauseFreezesDecay(t: Timer, now: Instant, times: seq<Instant>, later: Instant)
    ensures RefreshAll(Paused(t, now), times).timeLeftSecs == Paused(t, now).timeLeftSecs
    ensures SnapshotOf(RefreshAll(Paused(t, now), times), later).timeLeftSecs == Paused(t, now).timeLeftSecs
  {
    StoppedFrozen(Paused(t, now), times);
  }

  lemma FloorSum(a: nat, b: nat)
    ensures a / NANOS_PER_SEC + b / NANOS_PER_SEC <= (a + b) / NANOS_PER_SEC
  {
    var n := NANOS_PER_SEC;
    assert (a / n) * n <= a;
    assert (b / n) * n <= b;
    assert (a / n + b / n) * n <= a + b;
  }

  /**
   * Snapshots never make the timer run fast: after any run of them the time
   * lost is at most the whole seconds elapsed since the first stamp.
   */
  lemma {:induction false} DecayAtMostElapsed(t: Timer, times: seq<Instant>)
    requires |times| > 0 && Later(t, times)
    ensures RefreshAll(t, times).timeLeftSecs <= t.timeLeftSecs
    ensures RefreshAll(t, times).timeLeftSecs + (times[|times| - 1] - t.updatedAt) / NANOS_PER_SEC >= t.timeLeftSecs
    decreases |times|
  {
    var r := Refreshed(t, times[0]);
    var last := times[|times| - 1];
    assert t.updatedAt <= r.updatedAt <= times[0] <= last;
    assert r.timeLeftSecs + (times[0] - t.updatedAt) / NANOS_PER_SEC >= t.timeLeftSecs;
    if |times| == 1 {
    } else {
      var rest := times[1..];
      assert Later(r, rest);
      DecayAtMostElapsed(r, rest);
      assert rest[|rest| - 1] == last;
      FloorSum(last - r.updatedAt, r.updatedAt - t.updatedAt);
      FloorSum(times[0] - r.updatedAt, r.updatedAt - t.updatedAt);
      assert r.updatedAt == t.updatedAt || r.updatedAt == times[0];
    }
  }
}
