# Deferred actions, stopwatch and material lists of Urho-Train-Sample

This project models the small amount of real logic in `Source/misc.h` of the
Urho-Train-Sample game and proves properties of that model in Dafny.

- **`delayed_action_handler`** (module `DelayedActions`, file
  `delayed_actions.dfy`) is a table of deferred callbacks. It is an ordered
  map from fire instant to callback. `insert` files a callback under
  `now + delay`. `update` reads the clock once. It then keeps taking the
  earliest entry, running and erasing it, as long as that entry's instant is
  at or before the reading. The class `DelayedActionHandler<A>` keeps the map
  as the field `actions: map<int, A>`. Callbacks are opaque values of type `A`.
  `Update` returns the entries it ran as `(instant, callback)` pairs, in the
  order it ran them. `std::map::begin()` is the function `Earliest`.
- **`timer`** (module `Timing`, file `timer.dfy`) is a stopwatch. The class
  `Timer` has the fields `str`, `start` and `output`, two constructors and
  `Reset`. `UntilNow` gives the elapsed time in whole microseconds, cut toward
  zero the way `duration_cast` cuts it (`WholeMicros`).
- **The material list of `set_model`** (module `MaterialList`, file
  `material_list.dfy`). At most 10000 characters of the list are read
  (`Truncate`). The text is split into lines the way repeated `std::getline`
  calls split it (`GetLine`, `Lines`). Each line loses one trailing `'\r'`
  (`StripCR`). Line i names the material for slot i. `MaterialSlots` is the
  `for` loop, written as a `while` loop over the stream position.

Time is an integer count of `steady_clock` ticks, taken to be nanoseconds
(module `SteadyClock`, file `clock.dfy`). Every operation that reads the
clock takes the reading as a parameter `now`. Delays are whole
milliseconds.

Where the code and its intended design differ, the model follows the code:

- A second callback filed under an instant that is already taken is dropped.
  This is what `std::map::emplace` does. It is not queued first-in-first-out
  (`Insert`, `DuplicateInstantScenario`).
- Negative delays are accepted: `insert` files such a callback at an instant
  before the current one, and the next update runs it
  (`NonPositiveDelayFiresAtOnce`, which also shows a zero delay running at
  the next update).
- Nothing keeps a callback that calls `insert` while `update` runs from being
  run in that same update. This re-entrant case is not modelled (see the
  line on re-entrant inserts under "## Left out").
- A reading taken before `start` gives a negative elapsed time. Nothing
  clamps it to zero (`WholeMicros`, `TimerUsage`).

The methods `ThreeDelaysScenario`, `DuplicateInstantScenario`, `TimerUsage`
and `MaterialSlotsUsage` are verified clients. They show what a caller can
derive from the contracts alone.

## Model

| member | source | states |
|---|---|---|
| Timing.WholeMicros | Source/misc.h:55 | the whole microseconds in a span, truncated toward zero: r·1000 ≤ span < (r+1)·1000 for non-negative spans, the mirror image for negative ones |
| Timing.WholeMicrosMonotone | Source/misc.h:55 | a longer span never holds fewer whole microseconds |
| Timing.Timer.constructor | Source/misc.h:39 | keeps the label, reporting defaults to on, start is the current instant |
| Timing.Timer.Silent | Source/misc.h:40 | empty label, reporting off, start is the current instant |
| Timing.Timer.Reset | Source/misc.h:49 | start becomes the current instant; label and reporting flag are untouched |
| Timing.Timer.UntilNow | Source/misc.h:52-56 | elapsed whole microseconds since start: non-negative and within one microsecond of the span on a monotonic clock, zero at the start instant |
| Timing.UntilNowNonDecreasing | Source/misc.h:52-56 | two successive readings of one timer never decrease |
| Timing.ResetNeverIncreases | Source/misc.h:49-56 | after a reset to a later instant, a reading is never larger than it would have been without the reset, and strictly smaller when the reset comes at least a microsecond after the old start |
| DelayedActions.HasLeast | Source/misc.h:85 | every non-empty finite set of instants has a least element, so `begin()` exists for a non-empty table |
| DelayedActions.FireInstant | Source/misc.h:79 | the key `now + milliseconds(delay)`: after the reading for a positive delay, at it for zero, before it for a negative one, and exactly `delay` whole milliseconds from it. The factor from milliseconds to ticks rests on the one-nanosecond tick of `SteadyClock` |
| DelayedActions.Earliest | Source/misc.h:85 | the key of `actions.begin()`: an instant of the table at or before every other |
| DelayedActions.Pending | Source/misc.h:86-91 | exactly the entries after the given instant, with their callbacks unchanged |
| DelayedActions.DelayedActionHandler.constructor | Source/misc.h:77 | a new table is empty |
| DelayedActions.DelayedActionHandler.Insert | Source/misc.h:79 | the table gains the instant now + delay; if it was free it now holds the new callback and every old entry is unchanged; if it was taken the table is unchanged |
| DelayedActions.DelayedActionHandler.Update | Source/misc.h:81-93 | with one clock reading: afterwards exactly the entries after the reading remain, unchanged; what ran is each due entry exactly once, with its own callback, in strictly ascending instant order; the loop ends because each pass erases one entry |
| DelayedActions.FireEarliestKeepsSettling | Source/misc.h:85-91 | running and erasing the earliest entry, when due, keeps the invariant of the loop and shrinks the table |
| DelayedActions.SettledWhenNothingDue | Source/misc.h:86-87 | once the table is empty or its earliest entry is in the future, the loop has run exactly the due entries and left exactly the rest |
| DelayedActions.AscendingRunsAgree | Source/misc.h:85-91 | two strictly ascending runs over the same instants with the table's callbacks are identical |
| DelayedActions.FiredUnique | Source/misc.h:83-92 | what one update runs, and in which order, is fully determined by the table and the reading |
| DelayedActions.NothingDueIsNoop | Source/misc.h:86-87 | an update with no due entry runs nothing and leaves the table as it was |
| DelayedActions.RepeatedUpdateIsNoop | Source/misc.h:83-92 | a second update at the same reading runs nothing and changes nothing |
| DelayedActions.UpdatesCompose | Source/misc.h:83-92 | an update at t1 followed by one at t2 ≥ t1 runs what one update at t2 would run, in the same order, and leaves the same table |
| DelayedActions.ShorterDelayFiresFirst | Source/misc.h:79-91 | for two delays from one reading, whenever an entry at the longer delay's instant runs, the entry at the shorter delay's instant ran before it in the same update. That entry holds whichever callback was filed there first, since `emplace` drops a later one |
| DelayedActions.NonPositiveDelayFiresAtOnce | Source/misc.h:79-91 | a callback inserted with a delay of zero or less, at a free instant, runs in an update at the same reading |
| MaterialList.Truncate | Source/misc.h:111-113 | at most 10000 characters are kept; they are a prefix of the file, and a file that fits is kept whole |
| MaterialList.NextNewline | Source/misc.h:117 | where the line from the position ends: a '\n' at or after it, or the end of the text |
| MaterialList.NextNewlineIsFirst | Source/misc.h:117 | no '\n' lies between the position and the end NextNewline finds, so it is the first one |
| MaterialList.GetLine | Source/misc.h:117 | getline fails exactly at the end of the text; otherwise it moves the stream forward, never past the end |
| MaterialList.GetLineReads | Source/misc.h:117 | the line read is the newline-free run of text from the position; the stream then stands just past the '\n' that ends it, or at the end of the text |
| MaterialList.LinesFrom | Source/misc.h:117 | the lines successive getline calls return from a position: none exactly at the end of the text, and never more lines than characters left, since each call consumes at least one |
| MaterialList.LinesFromStep | Source/misc.h:117 | before the end, the lines read from a position are the one getline reads there followed by the lines read from where it leaves the stream |
| MaterialList.Lines | Source/misc.h:115-117 | the lines the loop visits, from the start of the text: none exactly for the empty text, and at most one per character |
| MaterialList.LinesFromJoin | Source/misc.h:115-117 | from any position, the lines read hold no '\n' and joined with '\n' give back the rest of the text, with a '\n' added only if it did not end with one |
| MaterialList.LinesRoundTrip | Source/misc.h:115-117 | the lines of a text, each put back with its '\n', give the text (plus one '\n' when it lacked a final one); a final '\n' yields no extra empty line |
| MaterialList.SpellsStep | Source/misc.h:117 | where the text from a position is newline-free lines joined with '\n', getline reads the first of them and the rest of the text is the remaining lines |
| MaterialList.JoinFromLines | Source/misc.h:115-117 | newline-free lines joined with '\n' are read back one for one from any position |
| MaterialList.JoinSplitRoundTrip | Source/misc.h:115-117 | splitting a text made of newline-free lines gives exactly those lines |
| MaterialList.StripCR | Source/misc.h:119-120 | exactly one trailing '\r' is removed, and a line without one is kept as it is |
| MaterialList.GetLineNoEmpty | Source/misc.h:117-119 | the line getline reads is non-empty and none after it is empty exactly when no '\n' from the position on opens an empty line |
| MaterialList.NoEmptyLineFromIff | Source/misc.h:117-119 | from a position, every line read is non-empty exactly when no '\n' there opens an empty line |
| MaterialList.NoEmptyLineIff | Source/misc.h:119 | the text holds no empty line (no leading '\n', no "\n\n") exactly when every line the loop reads is non-empty |
| MaterialList.MaterialSlots | Source/misc.h:111-122 | given non-empty lines, one slot per line of the truncated text, slot i getting line i without its trailing '\r' |
| MaterialList.MixedLineEndsSplit | Source/misc.h:115-120 | a list with "\r\n" and "\n" line ends splits into its lines with the '\r' still attached |

## Left out

- Clock reads (`steady_clock::now()`, Source/misc.h:49,54,79,83): the reading is a parameter. The tick is taken as one nanosecond, the usual `steady_clock` period. The 64-bit range of `time_point` and overflow of `now + delay` are not modelled.
- Timing.Timer.UntilNow: returns whole microseconds. The division by 1000000.0 into seconds (Source/misc.h:55) and `operator double` (Source/misc.h:59) are floating point and are left out.
- The report printed by `~timer` (Source/misc.h:41-46) is output to `std::cout` and is left out.
- DelayedActions.DelayedActionHandler.Insert: takes the delay in whole milliseconds. The conversion `int(wait_time*1000)` of a `float` (Source/misc.h:79) is floating point and is left out.
- Callback bodies and exceptions they throw (Source/misc.h:89): callbacks are opaque values, and running one is recorded by returning it from `Update`.
- A callback that calls `insert` on the same table while `update` runs is not modelled (Source/misc.h:79,85,89). Because each pass re-reads `actions.begin()`, such an entry would run in the same update if its instant were at or before the reading. With a negative delay its instant can even lie before an entry already run in that pass, so the run would no longer be in the ascending order `Update` promises.
- `set_model`'s engine calls are left out: `SetModel`, `GetResource`, `GetFile`, `IsOpen`, `SetMaterial` (Source/misc.h:100-109,121). They are wrappers over the Urho3D engine. `MaterialSlots` returns the (slot, name) pairs that would be passed to `SetMaterial`.
- The file read (Source/misc.h:113) is modelled as the file's text cut to 10000 characters, one character per byte.
- MaterialList.MaterialSlots: requires every line to be non-empty. On an empty line the source reads `line[line.size()-1]`, which is out of range (Source/misc.h:119). `NoEmptyLineIff` states the condition on the text itself.
- Source/gs_pause.h declares a pause-menu game state wired to engine events. It has no logic to model.
