/**
 * Deadline arithmetic of the futex wrapper (include/log/futex.h): turning an
 * absolute time point into a `timespec`, converting a time point between
 * the steady and the system clock, and choosing between an untimed and a
 * timed futex wait. Durations are counted in nanoseconds, the tick of both
 * standard clocks; the clocks' current readings are parameters.
 */
module Futex {

  const NANOS_PER_SECOND: nat := 1_000_000_000
  /** `time_point::max()`: the largest 64-bit tick count. */
  const MAX_TICKS: int := 0x7FFF_FFFF_FFFF_FFFF

  /** `struct timespec` */
  datatype TimeSpec = TimeSpec(tvSec: int, tvNsec: int)

  /** `timeSpecFromTimePoint(absTime)` for a time point `sinceEpoch`
      nanoseconds after its clock's epoch: a time before the epoch becomes
      the epoch, then whole seconds and the nanoseconds left over. */
  function TimeSpecFromTimePoint(sinceEpoch: int): (r: TimeSpec)
    ensures r.tvSec >= 0 && 0 <= r.tvNsec < NANOS_PER_SECOND
    ensures r.tvSec * NANOS_PER_SECOND + r.tvNsec == if sinceEpoch < 0 then 0 else sinceEpoch
  {
    var epoch := if sinceEpoch < 0 then 0 else sinceEpoch;
    var secs := epoch / NANOS_PER_SECOND;
    var nanos := epoch - secs * NANOS_PER_SECOND;
    TimeSpec(secs, nanos)
  }

  /** The `timespec` is the only normalised one for the clamped time: any
      seconds/nanoseconds pair with the nanoseconds in [0, 10^9) that adds up
      to it is that one. */
  lemma TimeSpecUnique(sinceEpoch: int, s: TimeSpec)
    requires 0 <= s.tvNsec < NANOS_PER_SECOND
    requires s.tvSec * NANOS_PER_SECOND + s.tvNsec == if sinceEpoch < 0 then 0 else sinceEpoch
    ensures s == TimeSpecFromTimePoint(sinceEpoch)
  {
    var r := TimeSpecFromTimePoint(sinceEpoch);
    assert (s.tvSec - r.tvSec) * NANOS_PER_SECOND == r.tvNsec - s.tvNsec;
  }

  datatype Clock = Steady | System

  /** `Clock::is_steady` */
  predicate IsSteady(c: Clock)
  {
    c == Steady
  }

  datatype TimePoint = TimePoint(clock: Clock, sinceEpoch: int)

  function MaxTimePoint(c: Clock): TimePoint
  {
    TimePoint(c, MAX_TICKS)
  }

  /** `time_point_conv<target>(time)`, with `sourceNow` and `targetNow` the
      readings of the source and target clocks' `now()`. The maximum maps to
      the maximum, a time point of the target clock keeps its ticks, and any
      other keeps the time left until it. */
  function TimePointConv(target: Clock, time: TimePoint, sourceNow: int, targetNow: int): (r: TimePoint)
    ensures r.clock == target
    ensures time.sinceEpoch == MAX_TICKS ==> r == MaxTimePoint(target)
    ensures time.sinceEpoch != MAX_TICKS && time.clock == target ==> r == time
    ensures time.sinceEpoch != MAX_TICKS && time.clock != target ==>
      r.sinceEpoch - targetNow == time.sinceEpoch - sourceNow
  {
    if time == MaxTimePoint(time.clock) then MaxTimePoint(target)
    else if time.clock == target then TimePoint(target, time.sinceEpoch)
    else TimePoint(target, targetNow + (time.sinceEpoch - sourceNow))
  }

  /** Which kernel wait `futexWaitUntil` issues. */
  datatype WaitCall = Untimed | TimedSteady(deadline: int) | TimedSystem(deadline: int)

  /** `futexWaitUntil(futex, expected, deadline)`: convert the deadline to
      the steady clock when its clock is steady, else to the system clock;
      wait without a timeout when the result is the maximum, else hand the
      converted deadline to the wait for its clock. Since the target clock is
      the deadline's own, the untimed wait is chosen exactly for the maximum
      deadline and a timed wait gets the deadline unchanged. */
  function FutexWaitUntil(deadline: TimePoint, sourceNow: int, targetNow: int): (r: WaitCall)
    ensures r.Untimed? <==> deadline.sinceEpoch == MAX_TICKS
    ensures r.TimedSteady? <==> deadline.sinceEpoch != MAX_TICKS && IsSteady(deadline.clock)
    ensures r.TimedSteady? || r.TimedSystem? ==> r.deadline == deadline.sinceEpoch
  {
    var target := if IsSteady(deadline.clock) then Steady else System;
    var converted := TimePointConv(target, deadline, sourceNow, targetNow);
    if converted == MaxTimePoint(target) then Untimed
    else if IsSteady(target) then TimedSteady(converted.sinceEpoch)
    else TimedSystem(converted.sinceEpoch)
  }
}
