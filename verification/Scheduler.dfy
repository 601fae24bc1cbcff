/** Interval and one-shot schedules: constant-time catch-up, and what every run of admissions keeps. */
module Scheduler {
  import opened Common

  /** Instants are nanoseconds from the Unix epoch, within what the clock type can hold. */
  const NANOS: int := 1_000_000_000
  const MIN_INSTANT: int := -8_334_601_228_800 * NANOS
  const MAX_INSTANT: int := 8_210_266_876_800 * NANOS - 1
  /** The first instant after year 9999. */
  const YEAR_10000: int := 253_402_300_800 * NANOS
  const MAX_U64 := 0xFFFF_FFFF_FFFF_FFFF

  datatype Spec = At(at: int) | Interval(anchor: int, every: nat)

  datatype Timing = AtInstant(at: int) | After(seconds: nat) | Every(seconds: nat)

  datatype Error = NotDue | InvalidTiming | InvalidInterval | Exhausted

  predicate InRange(t: int) { MIN_INSTANT <= t <= MAX_INSTANT }

  function CheckedAdd(at: int, seconds: int): Option<int> {
    if InRange(at + seconds * NANOS) then Some(at + seconds * NANOS) else None
  }

  function AddSeconds(at: int, seconds: int): Result<int, Error> {
    var sum := CheckedAdd(at, seconds);
    if sum.Some? && sum.value < YEAR_10000 then Ok(sum.value) else Err(Exhausted)
  }

  /** `ScheduleTiming::resolve`, apart from calendars. */
  function Resolve(timing: Timing, now: int): Result<(Spec, int), Error> {
    match timing
    case AtInstant(at) => if at > now && at < YEAR_10000 then Ok((At(at), at)) else Err(InvalidTiming)
    case After(seconds) =>
      if seconds == 0 then Err(InvalidTiming)
      else
        var at := AddSeconds(now, seconds);
        if at.Err? then Err(at.error) else Ok((At(at.value), at.value))
    case Every(seconds) =>
      if seconds < 60 then Err(InvalidTiming)
      else
        var anchor := AddSeconds(now, seconds);
        if anchor.Err? then Err(anchor.error) else Ok((Interval(anchor.value, seconds), anchor.value))
  }

  /** `ScheduleSpec::occurrence`: the occurrence to admit, and the next due instant. */
  function Occurrence(spec: Spec, due: int, now: int): Result<(int, Option<int>), Error> {
    if now < due then Err(NotDue)
    else
      match spec
      case At(_) => Ok((due, None))
      case Interval(_, every) =>
        if every < 60 then Err(InvalidInterval)
        else
          var elapsed := (now - due) / NANOS;
          var selected := AddSeconds(due, elapsed / every * every);
          if selected.Err? then Err(selected.error)
          else
            var next := CheckedAdd(selected.value, every);
            Ok((selected.value, if next.Some? && next.value < YEAR_10000 then next else None))
  }

  // ---- the stepping loop it replaces ----

  /** Step from `t` by the period until the next step would pass `now`. */
  function Stepped(t: int, now: int, period: int): int
    requires period > 0
    decreases now - t
  {
    if t + period <= now then Stepped(t + period, now, period) else t
  }

  function PeriodOf(every: nat): int { every * NANOS }

  lemma DivideTwice(x: nat, every: nat) returns (k: nat)
    requires every > 0
    ensures k == x / NANOS / every && k * PeriodOf(every) <= x < (k + 1) * PeriodOf(every)
    ensures x / NANOS / every * every * NANOS == k * PeriodOf(every)
  {
    var e := x / NANOS;
    k := e / every;
    Multiples(e, every, k);
    assert e + 1 <= (k + 1) * every;
    ScaleUp(e + 1, (k + 1) * every);
    ScaleUp(k * every, e);
    Associate(k, every);
    Associate(k + 1, every);
  }

  lemma Multiples(e: nat, every: nat, k: nat)
    requires every > 0 && k == e / every
    ensures k * every <= e < (k + 1) * every
  {
    assert e == every * (e / every) + e % every;
    assert (k + 1) * every == k * every + every;
  }

  lemma ScaleUp(a: int, b: int)
    requires a <= b
    ensures a * NANOS <= b * NANOS
  {
  }

  lemma Associate(k: nat, every: nat)
    ensures k * every * NANOS == k * PeriodOf(every)
  {
  }

  lemma {:induction false} SteppedIs(t: int, now: int, period: int, k: nat)
    requires period > 0 && t + k * period <= now < t + (k + 1) * period
    ensures Stepped(t, now, period) == t + k * period
    decreases k
  {
    if k > 0 {
      assert k * period == (k - 1) * period + period && (k + 1) * period == k * period + period;
      assert (k - 1) * period >= 0;
      SteppedIs(t + period, now, period, k - 1);
    }
  }

  /** The stepping loop stops at the last instant of `due`'s grid that is not after `now`. */
  lemma {:induction false} SteppedIsLast(t: int, now: int, period: int)
    requires period > 0 && t <= now
    ensures var r := Stepped(t, now, period); t <= r <= now < r + period && Congruent(r, t, period)
    decreases now - t
  {
    if t + period <= now {
      SteppedIsLast(t + period, now, period);
      Chain(Stepped(t, now, period), t + period, t, period);
    } else {
      assert (t - t) % period == 0;
    }
  }

  predicate Congruent(a: int, b: int, period: int)
    requires period > 0
  {
    (a - b) % period == 0
  }

  lemma Chain(a: int, b: int, c: int, period: int)
    requires period > 0 && Congruent(a, b, period) && b == c + period
    ensures Congruent(a, c, period)
  {
    SumDivides(a - b, 1, period);
  }

  lemma SumDivides(x: int, m: int, period: int)
    requires period > 0 && x % period == 0
    ensures (x + m * period) % period == 0
  {
    var q := x / period;
    assert x == q * period;
    assert x + m * period == (q + m) * period;
    MultipleDivides(q + m, period);
  }

  lemma MultipleDivides(q: int, period: int)
    requires period > 0
    ensures (q * period) % period == 0
  {
    var r := (q * period) % period;
    var d := (q * period) / period;
    assert q * period == d * period + r;
    assert (q - d) * period == r;
    assert q - d >= 1 ==> (q - d) * period >= period;
    assert q - d <= -1 ==> (q - d) * period <= -period;
  }

  /** What the constant-time formula adds is a whole number of periods, and the right one. */
  lemma CatchUpIsStepped(due: int, now: int, every: nat)
    requires every >= 60 && due <= now
    ensures due + (now - due) / NANOS / every * every * NANOS == Stepped(due, now, PeriodOf(every))
  {
    var k := DivideTwice(now - due, every);
    SteppedIs(due, now, PeriodOf(every), k);
  }

  /** Interval catch-up selects what the stepping loop selects, and fails exactly when that lies beyond year 9999. */
  lemma OccurrenceRefinesStepping(anchor: int, every: nat, due: int, now: int)
    requires every >= 60 && InRange(due) && InRange(now)
    ensures var r := Occurrence(Interval(anchor, every), due, now);
            && (r == Err(NotDue) <==> now < due)
            && (now >= due ==>
                  var last := Stepped(due, now, PeriodOf(every));
                  && due <= last <= now < last + PeriodOf(every) && Congruent(last, due, PeriodOf(every))
                  && (r.Ok? <==> last < YEAR_10000) && (r.Err? ==> r.error == Exhausted)
                  && (r.Ok? ==> r.value.0 == last)
                  && (r.Ok? ==> r.value.1 == if last + PeriodOf(every) < YEAR_10000 then Some(last + PeriodOf(every))
                    else None))
  {
    if now >= due {
      CatchUpIsStepped(due, now, every);
      SteppedIsLast(due, now, PeriodOf(every));
    }
  }

  /** Sub-second clocks included: while the clock is within year 9999, a due interval always yields an occurrence. */
  lemma NeverExhaustedInTime(anchor: int, every: nat, due: int, now: int)
    requires every >= 60 && InRange(due) && InRange(now) && due <= now < YEAR_10000
    ensures Occurrence(Interval(anchor, every), due, now).Ok?
  {
    OccurrenceRefinesStepping(anchor, every, due, now);
  }

  /**
   * A timing resolves exactly when its first instant is future and within year 9999 (and
   * intervals are at least a minute).
   */
  lemma ResolveExactly(timing: Timing, now: int)
    requires InRange(now)
    ensures var first := if timing.AtInstant? then timing.at else now + timing.seconds * NANOS;
            && (Resolve(timing, now).Ok? <==> now < first < YEAR_10000 && (timing.Every? ==> timing.seconds >= 60))
            && (Resolve(timing, now).Ok? ==> Resolve(timing, now).value.1 == first)
            && (Resolve(timing, now).Ok? ==>
              Resolve(timing, now).value.0 == if timing.Every? then Interval(first, timing.seconds) else At(first))
  {
  }

  // ---- admissions ----

  datatype State = Enabled | Disabled | Completed

  datatype Snapshot = Snapshot(spec: Spec, state: State, nextDue: Option<int>, revision: nat, last: Option<int>)

  datatype Admission =
    | AlreadyAdvanced
    | NotYetDue
    | WaitingForTarget
    | SchedulerCapacity
    | Failed
    | DisabledBy(error: Error)
    | Admitted(occurrence: int)

  /** One transaction's inputs: the caller's expected revision, the clock, and what the store's queries answer. */
  datatype Attempt = Attempt(expected: nat, now: int, outstanding: bool, queued: nat)

  /** `admit_scheduled_target` as it changes the schedule row. */
  function Admit(s: Snapshot, a: Attempt): (Snapshot, Admission) {
    if s.revision != a.expected then (s, AlreadyAdvanced)
    else if s.nextDue.None? || s.nextDue.value > a.now || !s.state.Enabled? then (s, NotYetDue)
    else if a.outstanding then (s, WaitingForTarget)
    else if a.queued >= 256 then (s, SchedulerCapacity)
    else if s.revision >= MAX_U64 then (s, Failed)
    else
      match Occurrence(s.spec, s.nextDue.value, a.now)
      case Err(error) => (s.(state := Disabled, revision := s.revision + 1), DisabledBy(error))
      case Ok((occurrence, next)) =>
        (s.(revision := s.revision + 1, nextDue := next, last := Some(occurrence), state := if next.None? then Completed
          else s.state),
         Admitted(occurrence))
  }

  function Run(s: Snapshot, attempts: seq<Attempt>): Snapshot
    decreases |attempts|
  {
    if attempts == [] then s else Admit(Run(s, attempts[..|attempts| - 1]), attempts[|attempts| - 1]).0
  }

  /** The occurrences a run admits, in order. */
  function Occurrences(s: Snapshot, attempts: seq<Attempt>): seq<int>
    decreases |attempts|
  {
    if attempts == [] then []
    else
      var before, a := attempts[..|attempts| - 1], attempts[|attempts| - 1];
      var admission := Admit(Run(s, before), a).1;
      if admission.Admitted? then Occurrences(s, before) + [admission.occurrence] else Occurrences(s, before)
  }

  /** Due instants lie on the anchor's grid, after everything admitted, and exist exactly while more can come. */
  predicate Inv(s: Snapshot) {
    && s.spec.Interval? && s.spec.every >= 60
    && (s.nextDue.Some? ==>
          InRange(s.nextDue.value) && Congruent(s.nextDue.value, s.spec.anchor, PeriodOf(s.spec.every)))
    && (s.nextDue.Some? && s.last.Some? ==> s.last.value < s.nextDue.value)
    && (s.nextDue.None? ==> s.state.Completed?)
  }

  lemma CongruentSum(a: int, b: int, c: int, period: int)
    requires period > 0 && Congruent(a, b, period) && Congruent(b, c, period)
    ensures Congruent(a, c, period)
  {
    var q := (a - b) / period;
    assert a - b == q * period;
    SumDivides(b - c, q, period);
    assert a - c == (b - c) + q * period;
  }

  /** One admission: the last aligned instant not after the clock, later than everything before it. */
  lemma AdmitKeepsInv(s: Snapshot, a: Attempt)
    requires Inv(s) && InRange(a.now)
    ensures var (next, admission) := Admit(s, a);
            && Inv(next) && next.spec == s.spec
            && (admission.Admitted? ==>
                  var period := PeriodOf(s.spec.every);
                  && admission.occurrence <= a.now < admission.occurrence + period
                  && Congruent(admission.occurrence, s.spec.anchor, period)
                  && (s.last.Some? ==> s.last.value < admission.occurrence) && next.last == Some(admission.occurrence))
            && (!admission.Admitted? ==> next.last == s.last)
            && (a.now < YEAR_10000 ==> !admission.DisabledBy?)
  {
    var (next, admission) := Admit(s, a);
    if admission.Admitted? || admission.DisabledBy? {
      var due, period := s.nextDue.value, PeriodOf(s.spec.every);
      OccurrenceRefinesStepping(s.spec.anchor, s.spec.every, due, a.now);
      if admission.Admitted? {
        CongruentSum(admission.occurrence, due, s.spec.anchor, period);
        SumDivides(admission.occurrence - s.spec.anchor, 1, period);
        assert admission.occurrence + period - s.spec.anchor == (admission.occurrence - s.spec.anchor) + 1 * period;
      }
    }
  }

  predicate Increasing(s: seq<int>) { forall i, j :: 0 <= i < j < |s| ==> s[i] < s[j] }

  /** Over any run of attempts with any clocks: occurrences strictly increase, stay on the anchor's grid, and
    * the schedule is never disabled while the clock stays within year 9999. */
  lemma {:induction false} RunStaysAligned(s: Snapshot, attempts: seq<Attempt>)
    requires Inv(s) && s.last.None? && forall i :: 0 <= i < |attempts| ==> InRange(attempts[i].now)
    ensures var t, o := Run(s, attempts), Occurrences(s, attempts);
            && Inv(t) && t.spec == s.spec && Increasing(o)
            && (forall i :: 0 <= i < |o| ==> Congruent(o[i], s.spec.anchor, PeriodOf(s.spec.every)))
            && (if o == [] then t.last.None? else t.last == Some(o[|o| - 1]))
    ensures (forall i :: 0 <= i < |attempts| ==> attempts[i].now < YEAR_10000) ==>
              Run(s, attempts).state.Disabled? ==> s.state.Disabled?
    decreases |attempts|
  {
    if attempts != [] {
      var before, a := attempts[..|attempts| - 1], attempts[|attempts| - 1];
      RunStaysAligned(s, before);
      AdmitKeepsInv(Run(s, before), a);
    }
  }

  /** From the command that creates an interval: every occurrence is a whole number of periods after that moment. */
  lemma CreatedIntervalRuns(seconds: nat, created: int, attempts: seq<Attempt>)
    requires InRange(created) && Resolve(Every(seconds), created).Ok?
    requires forall i :: 0 <= i < |attempts| ==> InRange(attempts[i].now)
    ensures var (spec, first) := Resolve(Every(seconds), created).value;
            var o := Occurrences(Snapshot(spec, Enabled, Some(first), 0, None), attempts);
            && seconds >= 60 && Increasing(o) && forall i :: 0 <= i < |o| ==>
              Congruent(o[i], created, PeriodOf(seconds))
  {
    var (spec, first) := Resolve(Every(seconds), created).value;
    var period := PeriodOf(seconds);
    var s := Snapshot(spec, Enabled, Some(first), 0, None);
    MultipleDivides(0, period);
    MultipleDivides(1, period);
    assert Congruent(first, first, period) && Congruent(first, created, period);
    RunStaysAligned(s, attempts);
    var o := Occurrences(s, attempts);
    forall i | 0 <= i < |o| ensures Congruent(o[i], created, period) {
      CongruentSum(o[i], first, created, period);
    }
  }

  // ---- each admission exactly ----

  /** What stands in the way of an admission, in the order the transaction tests for it. */
  function Obstacle(s: Snapshot, a: Attempt): Option<Admission> {
    if a.expected != s.revision then Some(AlreadyAdvanced)
    else if s.state != Enabled || s.nextDue.None? || a.now < s.nextDue.value then Some(NotYetDue)
    else if a.outstanding then Some(WaitingForTarget)
    else if !(a.queued < 256) then Some(SchedulerCapacity)
    else if !(s.revision < 0xFFFF_FFFF_FFFF_FFFF) then Some(Failed)
    else None
  }

  /**
   * An obstacle changes nothing. Otherwise the due occurrence is admitted, the revision advances
   * and the schedule is due again or completed; an occurrence that cannot be computed disables it.
   */
  lemma AdmitExactly(s: Snapshot, a: Attempt)
    ensures var (next, admission) := Admit(s, a);
            && next.spec == s.spec
            && (Obstacle(s, a).Some? ==> (next, admission) == (s, Obstacle(s, a).value))
            && (Obstacle(s, a).None? ==>
                  var chosen := Occurrence(s.spec, s.nextDue.value, a.now);
                  && next.revision == s.revision + 1
                  && (chosen.Ok? ==>
                        && admission == Admitted(chosen.value.0) && next.last == Some(chosen.value.0)
                        && next.nextDue == chosen.value.1
                        && next.state == (if chosen.value.1.Some? then Enabled else Completed))
                  && (chosen.Err? ==>
                        && admission == DisabledBy(chosen.error) && next.state == Disabled
                        && next.last == s.last && next.nextDue == s.nextDue))
  {
  }

  /** A one-shot schedule is due at its instant, once. */
  lemma OneShotExactly(at: int, due: int, now: int)
    ensures Occurrence(At(at), due, now) == if due <= now then Ok((due, None)) else Err(NotDue)
  {
  }

  /** Intervals under a minute are refused when due. */
  lemma ShortIntervalIsInvalid(anchor: int, every: nat, due: int, now: int)
    requires every < 60 && due <= now
    ensures Occurrence(Interval(anchor, every), due, now) == Err(InvalidInterval)
  {
  }

  /** Over every run, a one-shot schedule admits its instant at most once, not before it, and is then completed. */
  lemma {:induction false} OneShotRuns(at: int, attempts: seq<Attempt>)
    ensures var s := Snapshot(At(at), Enabled, Some(at), 0, None);
            var t := Run(s, attempts);
            && t.spec == s.spec
            && (Occurrences(s, attempts) == [] ==> t == s)
            && (Occurrences(s, attempts) != [] ==>
                  && Occurrences(s, attempts) == [at] && t.state == Completed && t.nextDue.None?
                  && exists k :: 0 <= k < |attempts| && attempts[k].now >= at && attempts[k].expected == 0)
    decreases |attempts|
  {
    if attempts != [] {
      var n := |attempts| - 1;
      OneShotRuns(at, attempts[..n]);
      AdmitExactly(Run(Snapshot(At(at), Enabled, Some(at), 0, None), attempts[..n]), attempts[n]);
      if k :| 0 <= k < n && attempts[..n][k].now >= at && attempts[..n][k].expected == 0 {
        assert attempts[k] == attempts[..n][k];
      }
    }
  }

  /** The instants the clock type holds, in whole seconds either side of the epoch, and the end of year 9999. */
  lemma ClockRange(t: int)
    ensures InRange(t) <==> -8_334_601_228_800 * 1_000_000_000 <= t < 8_210_266_876_800 * 1_000_000_000
    ensures YEAR_10000 == 253_402_300_800 * 1_000_000_000 && PeriodOf(60) == 60_000_000_000
  {
  }

  /** Why a timing does not resolve. */
  lemma ResolveRefusal(timing: Timing, now: int)
    requires InRange(now) && Resolve(timing, now).Err?
    ensures Resolve(timing, now).error ==
            if timing.AtInstant? || timing.seconds == 0 || (timing.Every? && timing.seconds < 60) then InvalidTiming
            else Exhausted
  {
  }
}
