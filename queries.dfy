/**
 * The read-only queries the page computes from the tracker's state on every
 * refresh: the current status from the idle time, the productivity
 * percentage, and the recent part of the activity log.
 */
module Queries {

  import opened Engine

  /** How many log entries the page shows. */
  const RecentLimit: nat := 15

  /** `s[::-1]`: the elements of `s` in the opposite order. */
  function Reverse<T>(s: seq<T>): (r: seq<T>)
    ensures |r| == |s|
    ensures forall i :: 0 <= i < |s| ==> r[i] == s[|s| - 1 - i]
  {
    if s == [] then [] else Reverse(s[1..]) + [s[0]]
  }

  /** `s[-n:]` for a positive `n`: the last `n` elements, or all of them if fewer. */
  function LastN<T>(s: seq<T>, n: nat): seq<T>
    requires n > 0
  {
    if n >= |s| then s else s[|s| - n..]
  }

  /**
   * `activity_log[-15:][::-1]`: at most fifteen entries, the most recent
   * first, each one the entry that many places from the end of the log.
   */
  function RecentLog(log: seq<Entry>): (r: seq<Entry>)
    ensures |r| == if |log| < RecentLimit then |log| else RecentLimit
    ensures forall i :: 0 <= i < |r| ==> r[i] == log[|log| - 1 - i]
  {
    Reverse(LastN(log, RecentLimit))
  }

  /** The status shown for the time since the last interaction (idle time). */
  function CurrentStatus(s: Snapshot, now: int): Status
    requires s.lastTime.Some?
  {
    ClassifyGap(now - s.lastTime.value)
  }

  /**
   * The status shown just before an interaction is the status that the
   * interaction commits to the log: the display classifies the open gap with
   * the same thresholds as the accounting, but only the interaction moves
   * time into a total.
   */
  lemma ShownStatusIsCommittedStatus(s: Snapshot, now: int, stamp: string, action: string)
    requires Truthy(s.lastTime)
    ensures var r := Registered(s, now, stamp, action);
      |r.log| == |s.log| + 1 && r.log[|s.log|].status == CurrentStatus(s, now)
  {
  }

  /** The time since the session started. */
  function SessionTime(s: Snapshot, now: int): int
    requires s.startTime.Some?
  {
    now - s.startTime.value
  }

  /**
   * The productivity percentage: zero when no session time has passed, and
   * otherwise the active total as a percentage of the session time.
   */
  function Productivity(active: int, sessionTime: int): (p: real)
    ensures sessionTime <= 0 ==> p == 0.0
    ensures sessionTime > 0 ==> p * (sessionTime as real) == (active as real) * 100.0
  {
    if sessionTime > 0 then (active as real / sessionTime as real) * 100.0 else 0.0
  }

  /**
   * While a session runs on a clock that never goes back, productivity is a
   * percentage: between 0 and 100.
   */
  lemma ProductivityIsPercentage(s: Snapshot, now: int)
    requires Consistent(s) && Ordered(s) && s.started && now >= s.lastTime.value
    ensures 0.0 <= Productivity(s.totalActive, SessionTime(s, now)) <= 100.0
  {
    var a, t := s.totalActive, SessionTime(s, now);
    if t > 0 {
      RatioAtMostOne(a as real, t as real);
    }
  }

  /** A part of a positive whole is at most the whole, as a ratio at most one. */
  lemma RatioAtMostOne(a: real, t: real)
    requires 0.0 <= a <= t && t > 0.0
    ensures 0.0 <= a / t <= 1.0
  {
  }
}
