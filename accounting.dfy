/**
 * The accounting over a whole session: a start followed by any run of
 * interactions.  Each interaction's gap is committed to exactly one total, so
 * the totals are the sums of the committed gaps, they add up to the time from
 * the start to the last interaction, and the log holds one entry per counted
 * interaction.
 */
module Accounting {

  import opened Wrappers
  import opened Engine

  /** One registered interaction: the clock reading, the display stamp and the action. */
  datatype Interaction = Interaction(now: int, stamp: string, action: string)

  /** The state after registering `evs` in order, starting from `s`. */
  function Replay(s: Snapshot, evs: seq<Interaction>): Snapshot
    decreases |evs|
  {
    if evs == [] then s
    else Replay(Registered(s, evs[0].now, evs[0].stamp, evs[0].action), evs[1..])
  }

  /** The gaps between consecutive interactions, the first measured from `last`. */
  function Gaps(last: int, evs: seq<Interaction>): seq<int>
    decreases |evs|
  {
    if evs == [] then [] else [evs[0].now - last] + Gaps(evs[0].now, evs[1..])
  }

  /** The clock reading of the last interaction, or `last` if there is none. */
  function FinalTime(last: int, evs: seq<Interaction>): int {
    if evs == [] then last else evs[|evs| - 1].now
  }

  function Sum(gaps: seq<int>): int {
    if gaps == [] then 0 else gaps[0] + Sum(gaps[1..])
  }

  /** The total of the gaps the classifier calls active. */
  function ActiveSum(gaps: seq<int>): int {
    if gaps == [] then 0
    else (if ClassifyGap(gaps[0]) == Active then gaps[0] else 0) + ActiveSum(gaps[1..])
  }

  /** The total of the gaps the classifier calls a short break or extended inactivity. */
  function InactiveSum(gaps: seq<int>): int {
    if gaps == [] then 0
    else (if ClassifyGap(gaps[0]) == Active then 0 else gaps[0]) + InactiveSum(gaps[1..])
  }

  /** Every clock reading is positive, as an epoch-seconds clock is. */
  predicate PositiveClock(evs: seq<Interaction>) {
    forall i :: 0 <= i < |evs| ==> evs[i].now > 0
  }

  /** The readings never go back, starting from `last`. */
  predicate NonDecreasing(last: int, evs: seq<Interaction>)
    decreases |evs|
  {
    evs == [] || (last <= evs[0].now && NonDecreasing(evs[0].now, evs[1..]))
  }

  /** There is one gap per interaction, and the gaps add up to the time they span. */
  lemma {:induction false} GapsTelescope(last: int, evs: seq<Interaction>)
    ensures |Gaps(last, evs)| == |evs|
    ensures Sum(Gaps(last, evs)) == FinalTime(last, evs) - last
    decreases |evs|
  {
    if evs != [] {
      GapsTelescope(evs[0].now, evs[1..]);
      if |evs| > 1 {
        assert evs[1..][|evs| - 2] == evs[|evs| - 1];
      }
    }
  }

  /** Each gap is either active or inactive, never both nor neither. */
  lemma {:induction false} ActivePlusInactive(gaps: seq<int>)
    ensures ActiveSum(gaps) + InactiveSum(gaps) == Sum(gaps)
  {
    if gaps != [] {
      ActivePlusInactive(gaps[1..]);
    }
  }

  /** Gaps of a clock that never goes back are not negative, and neither are their sums. */
  lemma {:induction false} NonDecreasingGaps(last: int, evs: seq<Interaction>)
    requires NonDecreasing(last, evs)
    ensures ActiveSum(Gaps(last, evs)) >= 0 && InactiveSum(Gaps(last, evs)) >= 0
    ensures FinalTime(last, evs) >= last
    decreases |evs|
  {
    if evs != [] {
      NonDecreasingGaps(evs[0].now, evs[1..]);
      if |evs| > 1 {
        assert evs[1..][|evs| - 2] == evs[|evs| - 1];
      }
    }
  }

  /**
   * Replaying interactions during a session: the state stays consistent and
   * the session stays open, each total grows by the sum of the gaps
   * classified its way, and the count grows by one per interaction.
   */
  lemma {:induction false} ReplayTotals(s: Snapshot, evs: seq<Interaction>)
    requires Consistent(s) && s.started && PositiveClock(evs)
    ensures var r, gaps := Replay(s, evs), Gaps(s.lastTime.value, evs);
      Consistent(r) && r.started && r.startTime == s.startTime &&
      r.lastTime == Some(FinalTime(s.lastTime.value, evs)) &&
      r.totalActive == s.totalActive + ActiveSum(gaps) &&
      r.totalInactive == s.totalInactive + InactiveSum(gaps) &&
      r.count == s.count + |evs|
    decreases |evs|
  {
    if evs != [] {
      var e, rest := evs[0], evs[1..];
      var s1 := Registered(s, e.now, e.stamp, e.action);
      RegisteredCommitsGap(s, e.now, e.stamp, e.action);
      RegisteredKeepsConsistent(s, e.now, e.stamp, e.action);
      PositiveClockRest(evs);
      ReplayTotals(s1, rest);
      if |rest| > 0 {
        assert rest[|rest| - 1] == evs[|evs| - 1];
      }
    }
  }

  lemma PositiveClockRest(evs: seq<Interaction>)
    requires evs != [] && PositiveClock(evs)
    ensures PositiveClock(evs[1..])
  {
  }

  /** The log entries a run of interactions appends, the first gap measured from `last`. */
  function Entries(last: int, evs: seq<Interaction>): seq<Entry>
    decreases |evs|
  {
    if evs == [] then []
    else [GapEntry(evs[0].stamp, evs[0].action, evs[0].now - last)] + Entries(evs[0].now, evs[1..])
  }

  /** The `i`-th appended entry carries the `i`-th interaction, classified by the `i`-th gap. */
  lemma {:induction false} EntriesAt(last: int, evs: seq<Interaction>, i: nat)
    requires i < |evs|
    ensures |Entries(last, evs)| == |Gaps(last, evs)| == |evs|
    ensures Entries(last, evs)[i] == GapEntry(evs[i].stamp, evs[i].action, Gaps(last, evs)[i])
    decreases |evs|
  {
    var e, rest := evs[0], evs[1..];
    var head := GapEntry(e.stamp, e.action, e.now - last);
    assert Entries(last, evs) == [head] + Entries(e.now, rest);
    assert Gaps(last, evs) == [e.now - last] + Gaps(e.now, rest);
    if i > 0 {
      EntriesAt(e.now, rest, i - 1);
      assert evs[i] == rest[i - 1];
      assert Entries(last, evs)[i] == Entries(e.now, rest)[i - 1];
      assert Gaps(last, evs)[i] == Gaps(e.now, rest)[i - 1];
    } else if rest != [] {
      EntriesAt(e.now, rest, 0);
    }
  }

  /** The part of `RegisteredCommitsGap` the log replay needs. */
  lemma RegisteredAppends(s: Snapshot, now: int, stamp: string, action: string)
    requires Truthy(s.lastTime)
    ensures var r := Registered(s, now, stamp, action);
      r.log == s.log + [GapEntry(stamp, action, now - s.lastTime.value)] && r.lastTime == Some(now)
  {
  }

  /**
   * Replaying interactions during a session keeps every earlier log entry and
   * appends the entries of the interactions, in order.
   */
  lemma {:induction false} ReplayLog(s: Snapshot, evs: seq<Interaction>)
    requires Truthy(s.lastTime) && PositiveClock(evs)
    ensures Replay(s, evs).log == s.log + Entries(s.lastTime.value, evs)
    decreases |evs|
  {
    if evs != [] {
      var e, rest := evs[0], evs[1..];
      var head := GapEntry(e.stamp, e.action, e.now - s.lastTime.value);
      var s1 := Registered(s, e.now, e.stamp, e.action);
      RegisteredAppends(s, e.now, e.stamp, e.action);
      assert s1.log == s.log + [head] && Truthy(s1.lastTime);
      PositiveClockRest(evs);
      ReplayLog(s1, rest);
      assert Replay(s, evs) == Replay(s1, rest);
      assert Entries(s.lastTime.value, evs) == [head] + Entries(e.now, rest);
      assert (s.log + [head]) + Entries(e.now, rest) == s.log + ([head] + Entries(e.now, rest));
    }
  }

  /**
   * The accounting invariant of a whole session: after a start at `start` and
   * any run of interactions, the active and inactive totals are the sums of
   * the committed gaps classified each way, together they equal the time from
   * the start to the last interaction, and the count equals the log length.
   */
  lemma SessionAccounting(start: int, stamp: string, evs: seq<Interaction>)
    requires start > 0 && PositiveClock(evs)
    ensures var r, gaps := Replay(Started(start, stamp), evs), Gaps(start, evs);
      r.totalActive == ActiveSum(gaps) && r.totalInactive == InactiveSum(gaps) &&
      r.totalActive + r.totalInactive == FinalTime(start, evs) - start &&
      r.lastTime == Some(FinalTime(start, evs)) &&
      r.count == |r.log| == |evs| + 1 &&
      r.log == Started(start, stamp).log + Entries(start, evs)
  {
    ReplayTotals(Started(start, stamp), evs);
    ReplayLog(Started(start, stamp), evs);
    GapsTelescope(start, evs);
    ActivePlusInactive(Gaps(start, evs));
  }

  /** With a clock that never goes back, neither total of a session is ever negative. */
  lemma SessionTotalsNonNegative(start: int, stamp: string, evs: seq<Interaction>)
    requires start > 0 && PositiveClock(evs) && NonDecreasing(start, evs)
    ensures var r := Replay(Started(start, stamp), evs);
      r.totalActive >= 0 && r.totalInactive >= 0 && r.totalActive + r.totalInactive >= 0
  {
    ReplayTotals(Started(start, stamp), evs);
    NonDecreasingGaps(start, evs);
  }

  /** The four quick-action buttons and the check-in button, each with the action it logs. */
  datatype QuickAction = CheckIn | Coffee | Email | Meeting | Reading

  function Label(q: QuickAction): string {
    match q
    case CheckIn => "Quick Check-in"
    case Coffee => "Coffee Break"
    case Email => "Checking Email"
    case Meeting => "In Meeting"
    case Reading => "Reading/Research"
  }

  /**
   * What the page lets the user do: the start button shows only while no
   * session runs, the end button and the interaction buttons only while one
   * does.
   */
  datatype PageAction =
    | StartClick(now: int, stamp: string)
    | EndClick
    | Quick(now: int, stamp: string, kind: QuickAction)
    | LogTask(now: int, stamp: string, text: string)

  /** Python's `str.isspace` on the ASCII range: space, tab to carriage return, and the separators 0x1C to 0x1F. */
  predicate IsSpace(c: char) {
    c == ' ' || 0x09 <= c as int <= 0x0D || 0x1C <= c as int <= 0x1F
  }

  /** `text.strip()` is non-empty exactly when some character is not whitespace. */
  predicate HasContent(text: string) {
    exists i :: 0 <= i < |text| && !IsSpace(text[i])
  }

  /** The clock reading an action carries, if any. */
  predicate PositiveReading(a: PageAction) {
    match a
    case StartClick(now, _) => now > 0
    case EndClick => true
    case Quick(now, _, _) => now > 0
    case LogTask(now, _, _) => now > 0
  }

  /**
   * The effect of one action; an action whose button is not shown changes
   * nothing, and a task whose description is blank is refused.
   */
  function Step(s: Snapshot, a: PageAction): Snapshot {
    match a
    case StartClick(now, stamp) => if !s.started then Started(now, stamp) else s
    case EndClick => if s.started then Ended(s) else s
    case Quick(now, stamp, kind) => if s.started then Registered(s, now, stamp, Label(kind)) else s
    case LogTask(now, stamp, text) =>
      if s.started && HasContent(text) then Registered(s, now, stamp, "Task: " + text) else s
  }

  /** The state after a run of actions. */
  function Run(s: Snapshot, acts: seq<PageAction>): Snapshot
    decreases |acts|
  {
    if acts == [] then s else Run(Step(s, acts[0]), acts[1..])
  }

  /** A blank task description leaves the state as it was. */
  lemma BlankTaskIgnored(s: Snapshot, now: int, stamp: string, text: string)
    requires forall i :: 0 <= i < |text| ==> IsSpace(text[i])
    ensures Step(s, LogTask(now, stamp, text)) == s
  {
  }

  /** A task with content, during a session, is registered under the action `Task: <text>`. */
  lemma TaskLogged(s: Snapshot, now: int, stamp: string, text: string)
    requires s.started && Truthy(s.lastTime) && HasContent(text)
    ensures var r := Step(s, LogTask(now, stamp, text));
      r.log == s.log + [GapEntry(stamp, "Task: " + text, now - s.lastTime.value)] &&
      r.count == s.count + 1
  {
  }

  /**
   * Whatever the user does through the page, across any number of sessions,
   * the state stays consistent: the count equals the log length, and during
   * a session the totals add up to the time from its start to its last
   * interaction.
   */
  lemma {:induction false} RunKeepsConsistent(s: Snapshot, acts: seq<PageAction>)
    requires Consistent(s)
    requires forall i :: 0 <= i < |acts| ==> PositiveReading(acts[i])
    ensures Consistent(Run(s, acts))
    decreases |acts|
  {
    if acts != [] {
      var a := acts[0];
      match a {
        case StartClick(now, stamp) =>
        case EndClick =>
        case Quick(now, stamp, kind) =>
          if s.started {
            RegisteredKeepsConsistent(s, now, stamp, Label(kind));
          }
        case LogTask(now, stamp, text) =>
          if s.started {
            RegisteredKeepsConsistent(s, now, stamp, "Task: " + text);
          }
      }
      assert forall i :: 0 <= i < |acts| - 1 ==> acts[1..][i] == acts[i + 1];
      RunKeepsConsistent(Step(s, a), acts[1..]);
    }
  }

  /** In particular from the first-run state. */
  lemma FromFirstRun(acts: seq<PageAction>)
    requires forall i :: 0 <= i < |acts| ==> PositiveReading(acts[i])
    ensures var r := Run(Initial(), acts);
      r.count == |r.log| &&
      (r.started ==>
         r.startTime.Some? && r.lastTime.Some? &&
         r.totalActive + r.totalInactive == r.lastTime.value - r.startTime.value)
  {
    RunKeepsConsistent(Initial(), acts);
  }

  /**
   * Ending a session and starting the next one leaves nothing of the old
   * session: a single start entry and zero totals, whatever came before.
   */
  lemma RestartIsFresh(s: Snapshot, now: int, stamp: string)
    requires s.started
    ensures var r := Run(s, [EndClick, StartClick(now, stamp)]);
      r == Started(now, stamp) && r.totalActive == 0 && r.totalInactive == 0 &&
      r.log == [Entry(stamp, "Session Started", Active, None)]
  {
    var acts := [EndClick, StartClick(now, stamp)];
    assert acts[1..][1..] == [];
    assert Run(s, acts) == Run(Ended(s), acts[1..]);
  }

  /** The interactions of the three-gap scenario: 30, 250 and 400 seconds apart after `t0`. */
  function ScenarioRun(t0: int): seq<Interaction> {
    [Interaction(t0 + 30, "t1", "task1"), Interaction(t0 + 280, "t2", "task2"), Interaction(t0 + 680, "t3", "task3")]
  }

  lemma ScenarioGaps(t0: int)
    ensures Gaps(t0, ScenarioRun(t0)) == [30, 250, 400]
  {
    var evs := ScenarioRun(t0);
    assert Gaps(t0 + 680, evs[3..]) == [];
    assert Gaps(t0 + 280, evs[2..]) == [400] by { assert evs[2..][1..] == evs[3..]; }
    assert Gaps(t0 + 30, evs[1..]) == [250, 400] by { assert evs[1..][1..] == evs[2..]; }
  }

  /**
   * The three-gap scenario: one active gap and two inactive ones give an
   * active total of 30 and an inactive total of 650, over four counted
   * interactions and four log entries.
   */
  lemma ScenarioTotals(t0: int, stamp: string)
    requires t0 > 0
    ensures var r := Replay(Started(t0, stamp), ScenarioRun(t0));
      r.totalActive == 30 && r.totalInactive == 650 && r.count == 4 && |r.log| == 4
  {
    var evs := ScenarioRun(t0);
    ScenarioGaps(t0);
    SessionAccounting(t0, stamp, evs);
    assert ActiveSum([30, 250, 400]) == 30 + ActiveSum([250, 400]);
    assert InactiveSum([30, 250, 400]) == InactiveSum([250, 400]);
  }

  /** The three-gap scenario logs the gaps as active, short break and extended inactivity. */
  lemma ScenarioStatuses(t0: int, stamp: string)
    requires t0 > 0
    ensures var r := Replay(Started(t0, stamp), ScenarioRun(t0));
      |r.log| == 4 &&
      r.log[1].status == Active && r.log[2].status == ShortBreak &&
      r.log[3].status == ExtendedInactivity
  {
    var evs := ScenarioRun(t0);
    var r := Replay(Started(t0, stamp), evs);
    ScenarioGaps(t0);
    SessionAccounting(t0, stamp, evs);
    EntriesAt(t0, evs, 0);
    EntriesAt(t0, evs, 1);
    EntriesAt(t0, evs, 2);
    assert r.log[1..] == Entries(t0, evs);
  }

  /**
   * The truthiness guard of `register_interaction` at a zero reading: a
   * session started at reading 0 records no previous interaction, so the
   * first interaction commits no gap and appends no entry, yet still counts.
   * The same three interactions then give 0 active and 650 inactive seconds,
   * a count of 4 but only three log entries, and the state is not consistent.
   */
  lemma ZeroStartSkipsFirstGap(stamp: string)
    ensures var r := Replay(Started(0, stamp), ScenarioRun(0));
      r.totalActive == 0 && r.totalInactive == 650 && r.count == 4 && |r.log| == 3 &&
      !Consistent(r)
  {
  }
}
