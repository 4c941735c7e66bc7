/**
 * The activity tracking engine: the gap classifier, the log entries, the
 * session state, and the three operations that change it (start, end and
 * register an interaction).
 *
 * Time is whole seconds read from a clock the caller passes in as `now`; the
 * display timestamp of a log entry is an opaque string `stamp`.  The state
 * transitions are specified by functions on a `Snapshot` value; the `Tracker`
 * class holds the same state in fields that its methods update in place.
 */
module Engine {

  import opened Wrappers
  import opened TimeFormat

  /** A gap below this many seconds counts as activity. */
  const ActiveThreshold: int := 60
  /** A gap below this many seconds (and not active) is a short break. */
  const ShortBreakThreshold: int := 300

  datatype Status = Active | ShortBreak | ExtendedInactivity

  /** `get_activity_status`: the class of an inactivity gap, boundaries exact. */
  function ClassifyGap(gap: int): (st: Status)
    ensures st == Active <==> gap < ActiveThreshold
    ensures st == ShortBreak <==> ActiveThreshold <= gap < ShortBreakThreshold
    ensures st == ExtendedInactivity <==> ShortBreakThreshold <= gap
  {
    if gap < ActiveThreshold then Active
    else if gap < ShortBreakThreshold then ShortBreak
    else ExtendedInactivity
  }

  /** The position of a status on the scale from active to inactive. */
  function Severity(st: Status): nat {
    match st
    case Active => 0
    case ShortBreak => 1
    case ExtendedInactivity => 2
  }

  /** A longer gap never gets a milder status. */
  lemma ClassifyGapMonotone(g1: int, g2: int)
    requires g1 <= g2
    ensures Severity(ClassifyGap(g1)) <= Severity(ClassifyGap(g2))
  {
  }

  /**
   * One activity log entry.  `gap` is the gap before the entry in whole
   * seconds, absent on the session-start entry; the log shows it as the text
   * `GapText` gives.
   */
  datatype Entry = Entry(timestamp: string, action: string, status: Status, gap: Option<int>) {

    /** The entry's gap as the log shows it, `HH:MM:SS`. */
    function GapText(): Option<string> {
      if gap.Some? then Some(FormatTime(gap.value)) else None
    }
  }

  /** The tracker's whole state, as the page keeps it between reruns. */
  datatype Snapshot = Snapshot(
    started: bool,
    startTime: Option<int>,
    lastTime: Option<int>,
    totalActive: int,
    totalInactive: int,
    count: int,
    log: seq<Entry>)

  /**
   * Python's truthiness of an optional time: both `None` and a zero reading
   * are false.
   */
  predicate Truthy(t: Option<int>) {
    t.Some? && t.value != 0
  }

  /**
   * The consistency the engine keeps while driven the way the page drives it:
   * one log entry per counted interaction, and while a session runs both times
   * are set (to positive clock readings) and the two totals add up to the
   * time from the session's start to its last interaction.
   */
  ghost predicate Consistent(s: Snapshot) {
    s.count == |s.log| &&
    (s.started <==> s.startTime.Some?) &&
    (s.startTime.Some? <==> s.lastTime.Some?) &&
    (s.started ==>
      s.startTime.value > 0 && s.lastTime.value > 0 &&
      s.totalActive + s.totalInactive == s.lastTime.value - s.startTime.value)
  }

  /** With a clock that never goes back, the totals are never negative. */
  ghost predicate Ordered(s: Snapshot) {
    s.started && s.startTime.Some? && s.lastTime.Some? ==>
      s.startTime.value <= s.lastTime.value && 0 <= s.totalActive && 0 <= s.totalInactive
  }

  /** The state before any session was started. */
  function Initial(): (s: Snapshot)
    ensures Consistent(s) && !s.started && s.log == []
  {
    Snapshot(false, None, None, 0, 0, 0, [])
  }

  /** `start_work_session`: the state after a start at `now`, whatever came before. */
  function Started(now: int, stamp: string): (s: Snapshot)
    ensures s.started && s.startTime == Some(now) && s.lastTime == Some(now)
    ensures s.totalActive == 0 && s.totalInactive == 0 && s.count == 1
    ensures s.log == [Entry(stamp, "Session Started", Active, None)]
    ensures now > 0 ==> Consistent(s) && Ordered(s)
  {
    Snapshot(true, Some(now), Some(now), 0, 0, 1, [Entry(stamp, "Session Started", Active, None)])
  }

  /** `end_work_session`: only the flag and the two times are cleared. */
  function Ended(s: Snapshot): (r: Snapshot)
    ensures !r.started && r.startTime == None && r.lastTime == None
    ensures r.totalActive == s.totalActive && r.totalInactive == s.totalInactive
    ensures r.count == s.count && r.log == s.log
    ensures Consistent(s) ==> Consistent(r)
  {
    s.(started := false, startTime := None, lastTime := None)
  }

  /** The entry `register_interaction` appends for a gap. */
  function GapEntry(stamp: string, action: string, gap: int): Entry {
    Entry(stamp, action, ClassifyGap(gap), Some(gap))
  }

  /**
   * `register_interaction`: when there is a (truthy) previous interaction,
   * the gap since it is classified, added to the active total if active and
   * to the inactive total otherwise, and a classified entry is appended; in
   * every case the interaction time moves to `now` and the count goes up.
   */
  function Registered(s: Snapshot, now: int, stamp: string, action: string): Snapshot
  {
    if Truthy(s.lastTime) then
      var gap := now - s.lastTime.value;
      var st := ClassifyGap(gap);
      s.(totalActive := if st == Active then s.totalActive + gap else s.totalActive,
         totalInactive := if st == Active then s.totalInactive else s.totalInactive + gap,
         log := s.log + [GapEntry(stamp, action, gap)],
         lastTime := Some(now),
         count := s.count + 1)
    else
      s.(lastTime := Some(now), count := s.count + 1)
  }

  /**
   * One interaction with a previous interaction on record: exactly one of the
   * totals grows by the gap, the active one iff the gap is under the active
   * threshold, and the log grows by one entry at its end whose status is the
   * classifier's verdict on the gap.
   */
  lemma RegisteredCommitsGap(s: Snapshot, now: int, stamp: string, action: string)
    requires Truthy(s.lastTime)
    ensures var r, gap := Registered(s, now, stamp, action), now - s.lastTime.value;
      (gap < ActiveThreshold ==> r.totalActive == s.totalActive + gap && r.totalInactive == s.totalInactive) &&
      (gap >= ActiveThreshold ==> r.totalInactive == s.totalInactive + gap && r.totalActive == s.totalActive) &&
      r.log == s.log + [GapEntry(stamp, action, gap)] &&
      r.log[|s.log|].status == ClassifyGap(gap) && r.log[|s.log|].gap == Some(gap) &&
      r.lastTime == Some(now) && r.count == s.count + 1 &&
      r.started == s.started && r.startTime == s.startTime
  {
  }

  /**
   * One interaction with no previous interaction on record (none, or a zero
   * reading): only the interaction time and the count change.
   */
  lemma RegisteredWithoutPrevious(s: Snapshot, now: int, stamp: string, action: string)
    requires !Truthy(s.lastTime)
    ensures Registered(s, now, stamp, action) == s.(lastTime := Some(now), count := s.count + 1)
  {
  }

  /** The appended entry shows its gap as `format_time` renders it. */
  lemma CommittedGapText(s: Snapshot, now: int, stamp: string, action: string)
    requires Truthy(s.lastTime)
    ensures var r := Registered(s, now, stamp, action);
      |r.log| == |s.log| + 1 && r.log[|s.log|].GapText() == Some(FormatTime(now - s.lastTime.value))
  {
  }

  /** An interaction during a session keeps the state consistent. */
  lemma RegisteredKeepsConsistent(s: Snapshot, now: int, stamp: string, action: string)
    requires Consistent(s) && s.started && now > 0
    ensures Consistent(Registered(s, now, stamp, action))
  {
  }

  /**
   * With a clock that does not go back, an interaction keeps the totals
   * non-negative and neither total shrinks.
   */
  lemma RegisteredKeepsOrdered(s: Snapshot, now: int, stamp: string, action: string)
    requires Consistent(s) && Ordered(s) && s.started && now >= s.lastTime.value
    ensures var r := Registered(s, now, stamp, action);
      Ordered(r) && s.totalActive <= r.totalActive && s.totalInactive <= r.totalInactive
  {
  }

  /**
   * The tracker's state as the page's session store holds it: fields that the
   * operations assign, and a log they grow in place.
   */
  class Tracker {
    var started: bool
    var startTime: Option<int>
    var lastTime: Option<int>
    var totalActive: int
    var totalInactive: int
    var count: int
    var log: seq<Entry>

    function State(): Snapshot
      reads this
    {
      Snapshot(started, startTime, lastTime, totalActive, totalInactive, count, log)
    }

    ghost predicate Valid()
      reads this
    {
      Consistent(State())
    }

    /** The first-run initialisation of the session store. */
    constructor ()
      ensures State() == Initial() && Valid()
    {
      started := false;
      startTime := None;
      lastTime := None;
      totalActive := 0;
      totalInactive := 0;
      count := 0;
      log := [];
    }

    method Start(now: int, stamp: string)
      modifies this
      ensures State() == Started(now, stamp)
      ensures now > 0 ==> Valid()
    {
      started := true;
      startTime := Some(now);
      lastTime := Some(now);
      totalActive := 0;
      totalInactive := 0;
      count := 1;
      log := [Entry(stamp, "Session Started", Active, None)];
    }

    method End()
      modifies this
      ensures State() == Ended(old(State()))
      ensures old(Valid()) ==> Valid()
    {
      started := false;
      startTime := None;
      lastTime := None;
    }

    /**
     * The gap is classified by the same two thresholds as `ClassifyGap`,
     * tested inline.
     */
    method RegisterInteraction(now: int, stamp: string, action: string)
      modifies this
      ensures State() == Registered(old(State()), now, stamp, action)
      ensures old(Valid()) && old(started) && now > 0 ==> Valid()
    {
      ghost var before := State();
      if lastTime.Some? && lastTime.value != 0 {
        var gap := now - lastTime.value;
        var status;
        if gap < ActiveThreshold {
          totalActive := totalActive + gap;
          status := Active;
        } else if gap < ShortBreakThreshold {
          totalInactive := totalInactive + gap;
          status := ShortBreak;
        } else {
          totalInactive := totalInactive + gap;
          status := ExtendedInactivity;
        }
        assert status == ClassifyGap(gap);
        log := log + [Entry(stamp, action, status, Some(gap))];
      }
      lastTime := Some(now);
      count := count + 1;
      assert State() == Registered(before, now, stamp, action);
      if old(Valid()) && old(started) && now > 0 {
        RegisteredKeepsConsistent(before, now, stamp, action);
      }
    }
  }
}
