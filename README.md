# Activity tracking engine of the WFH inactivity detector

This project models the engine behind the "Work From Home Inactivity
Detection System" page (`app.py`), and proves properties about it. A work
session starts, the user registers interactions (quick actions or logged
tasks), and the session ends. Each interaction commits the gap since the
previous one to exactly one of two totals:
- the active total, if the gap is under 60 seconds;
- the inactive total otherwise, whether a short break (under 300 seconds) or
  extended inactivity.

Each interaction that has a previous interaction on record also appends a log
entry with the gap's status and the gap rendered as `HH:MM:SS`. On every refresh the page shows three things:
- the current status of the open gap;
- a productivity percentage;
- the fifteen most recent log entries, newest first.

The modules:
- `TimeFormat` (`time_format.dfy`) covers `format_time` (app.py:38-51), as
  `TimeFormat.FormatTime`: the split into hours, minutes and seconds with
  Python's floor division (`TimeFormat.Split`), and the `{:02d}` padding
  (`TimeFormat.Pad2`). It proves that the text encodes the duration exactly.
- `Engine` (`engine.dfy`) holds the thresholds and the classifier
  `get_activity_status` (app.py:54-69), as `Engine.ClassifyGap`. It specifies
  the session state as a `Snapshot` value, with one function per transition:
  - `Engine.Started` is `start_work_session` (app.py:72-88);
  - `Engine.Ended` is `end_work_session` (app.py:91-98);
  - `Engine.Registered` is `register_interaction` (app.py:101-135).

  The class `Engine.Tracker` keeps the same state in fields. Its methods
  `Start`, `End` and `RegisterInteraction` update those fields in place, and
  each is proved against its function.
- `Queries` (`queries.dfy`) covers the read-only computations of the page:
  - `Queries.CurrentStatus` is the status of the idle time (app.py:199-202);
  - `Queries.Productivity` is the guarded percentage (app.py:258-261);
  - `Queries.RecentLog` is the slice `activity_log[-15:][::-1]` (app.py:345).
- `Accounting` (`accounting.dfy`) relates a whole session to its sequence of
  gaps, with `Accounting.Replay` registering a run of interactions. It also
  models the page's button guards (app.py:173-191 and 303-334) as
  `Accounting.Step` over user actions. It proves that the tracker stays
  consistent under any sequence of such actions.

Clock readings are whole seconds passed in as `now`. The display timestamp of
an entry is an opaque string `stamp`, because the source reads it from the
wall clock.

Two details of `register_interaction` that the model keeps:
- Its guard (app.py:111) is the Python truthiness of the stored time. A
  previous reading of exactly `0` therefore counts as "no previous
  interaction": the gap is not committed and no entry is appended, but the
  count still grows.
  - `Engine.RegisteredWithoutPrevious` states this for one interaction.
  - `Accounting.ZeroStartSkipsFirstGap` shows the effect on a whole session
    started at reading 0, with interactions 30, 280 and 680 seconds later.
    The first gap is lost, the totals are 0 active and 650 inactive seconds,
    the count is 4, the log has only three entries, and the consistency
    invariant fails.
  - The same interactions from any positive start give 30 and 650 seconds and
    four entries (`Accounting.ScenarioTotals`).
  - `time.time()` (app.py:77, 108) returns epoch seconds, which are never 0,
    so the consistency invariants assume positive readings.
- `register_interaction` does not call `get_activity_status`. It repeats the
  two threshold tests inline. `Engine.Tracker.RegisterInteraction` follows
  that inline chain and proves that it agrees with `Engine.ClassifyGap`.

## Model

| member | source | states |
|---|---|---|
| Engine.ClassifyGap | app.py:54-69 | each status holds exactly when the gap is in its band: Active iff gap < 60, Short Break iff 60 <= gap < 300, Extended Inactivity iff gap >= 300 (thresholds at app.py:17-18) |
| Engine.ClassifyGapMonotone | app.py:64-69 | a longer gap never gets a milder status |
| TimeFormat.SplitExact | app.py:48-50 | hours*3600 + minutes*60 + secs recovers the seconds, with minutes and secs in 0..59 and hours non-negative for a non-negative input |
| TimeFormat.DigitsRoundTrip | app.py:51 | the decimal digits of n are all digits and read back as n |
| TimeFormat.Pad2RoundTrip | app.py:51 | `{:02d}` of a non-negative n is at least two digits, exactly two below 100, with no leading zero beyond the padding, and reads back as n |
| TimeFormat.FormatTimeRoundTrip | app.py:38-51 | for a non-negative duration the text is `H:MM:SS` with an hours field of at least two digits (exactly two below 100 hours, otherwise no leading zero), two-digit minutes and seconds below 60, and the fields read back to exactly that many seconds |
| Engine.Initial | app.py:25-32 | the first-run state has no session and an empty log, and is consistent |
| Engine.Tracker.constructor | app.py:25-32 | the store starts in the first-run state |
| Engine.Started | app.py:72-88 | a start resets everything (both times set to now, totals zero, count 1, log the single "Session Started" Active entry) and yields a consistent state whatever came before |
| Engine.Tracker.Start | app.py:72-88 | the fields become the started state, and the tracker is consistent for a positive clock reading |
| Engine.Ended | app.py:91-98 | ending clears only the flag and the two times, keeps totals, count and log unchanged, and preserves consistency |
| Engine.Tracker.End | app.py:91-98 | the fields become the ended state, and consistency is kept |
| Engine.RegisteredCommitsGap | app.py:108-135 | with a previous interaction, a gap under 60 goes to the active total and any other gap to the inactive total; exactly one entry with the classifier's status and the gap is appended; the last time becomes now and the count grows by one |
| Engine.RegisteredWithoutPrevious | app.py:111-135 | with no previous interaction (none, or a zero reading), only the last time and the count change |
| Engine.CommittedGapText | app.py:130 | the appended entry shows its gap as `format_time` of the gap |
| Engine.RegisteredKeepsConsistent | app.py:101-135 | during a session an interaction keeps count == log length and totals == last time - start time |
| Engine.RegisteredKeepsOrdered | app.py:112-123 | with a clock that does not go back, the totals stay non-negative and neither shrinks |
| Engine.Tracker.RegisterInteraction | app.py:101-135 | the inline threshold chain updates the fields exactly as the registered state says, and keeps the tracker consistent during a session |
| Queries.Reverse | app.py:345 | `[::-1]` keeps the length and puts element i at position len-1-i |
| Queries.RecentLog | app.py:343-345 | the shown log has min(len, 15) entries, entry i being the log's i-th entry from the end |
| Queries.ShownStatusIsCommittedStatus | app.py:199-202 | the status shown for the open gap is the status the next interaction commits to the log |
| Queries.Productivity | app.py:257-261 | zero when no session time has passed, otherwise p * sessionTime == active * 100 |
| Queries.ProductivityIsPercentage | app.py:258-261 | during a session, on a clock that does not go back, productivity lies between 0 and 100 |
| Accounting.GapsTelescope | app.py:110-134 | there is one gap per interaction, and the gaps sum to the time from the first reading to the last |
| Accounting.ActivePlusInactive | app.py:115-123 | every gap is counted in exactly one of the two sums |
| Accounting.NonDecreasingGaps | app.py:112 | on a clock that does not go back, both sums are non-negative |
| Accounting.ReplayTotals | app.py:101-135 | over any run of interactions each total grows by the sum of the gaps classified its way, the count by one per interaction, and consistency holds |
| Accounting.EntriesAt | app.py:126-131 | the i-th appended entry carries the i-th interaction and the classification of the i-th gap |
| Accounting.ReplayLog | app.py:126-131 | a run of interactions keeps every earlier entry and appends one entry per interaction, in order |
| Accounting.SessionAccounting | app.py:72-135 | after a start and any run of interactions, the totals are the active and inactive sums of the gaps, they add up to last time - start, and count == log length == interactions + 1 |
| Accounting.SessionTotalsNonNegative | app.py:112-123 | on a clock that does not go back, neither total of a session is negative |
| Accounting.BlankTaskIgnored | app.py:303-310 | logging a whitespace-only task changes nothing |
| Accounting.TaskLogged | app.py:303-305 | a task with content is registered under the action `Task: <text>` |
| Accounting.RunKeepsConsistent | app.py:173-334 | any sequence of clicks on the buttons the page shows keeps the state consistent |
| Accounting.FromFirstRun | app.py:173-191 | from the first-run state, any sequence of clicks keeps count == log length, and during a session totals == last time - start time |
| Accounting.RestartIsFresh | app.py:173-185 | ending and then starting again gives the fresh started state, whatever the old session held |
| Accounting.ScenarioGaps | app.py:112 | readings 30, 280 and 680 seconds after the start give gaps 30, 250 and 400 |
| Accounting.ScenarioTotals | app.py:72-135 | from any positive start, those three interactions give 30 active and 650 inactive seconds, count 4 and four entries |
| Accounting.ZeroStartSkipsFirstGap | app.py:111-135 | a session started at reading 0 loses its first gap to the truthiness guard: with gaps 30, 250 and 400 the totals are 0 and 650, the count is 4 but the log has three entries, and the state is not consistent |
| Accounting.ScenarioStatuses | app.py:115-123 | from a positive start, the three entries after the start entry are Active, Short Break and Extended Inactivity, in that order |

## Left out

- The Streamlit page itself is not modelled: titles, columns, metrics, expanders, success and warning messages, `st.rerun`, `time.sleep` and the auto-refresh loop. Only the button guards that decide which engine operation runs are modelled, in `Accounting.Step`.
- The clocks `time.time()` and `datetime.now().strftime(...)` are parameters (`now` and `stamp`), not modelled.
- Clock readings are whole seconds (`int`), whereas the source uses float seconds. Fractional gaps, float rounding and the `int()` truncation of fractional values in `format_time` are therefore not modelled.
- Queries.Productivity: a real-valued ratio stands in for the float division, and the `:.1f` rendering of the percentage is not modelled.
- The two progress bars (app.py:272-284) are not modelled. They compute the active and the inactive share of the session time, under the same `total_session_time > 0` guard (app.py:273, 280).
- The status colour and emoji returned by `get_activity_status`, the emoji chosen for log lines (app.py:349), the line layout (app.py:352) and the "showing last 15" caption (app.py:354-355) are presentation, and are not modelled.
- Engine.Entry: the gap is stored as whole seconds, and `GapText` gives the `format_time` text that the source stores.
- Accounting.IsSpace: only ASCII whitespace counts as blank for the `task_input.strip()` test. Python also strips non-ASCII whitespace such as U+00A0 and U+2028.
- Engine.Consistent: the invariants assume positive clock readings, as an epoch-seconds clock gives. A zero reading is handled by the model exactly as the source handles it, but the invariants say nothing about it.
