# SmartCalendar scheduling engine, modelled in Dafny

SmartCalendar books tasks into a Google Calendar. Its algorithmic core, in
`main.py`, has two parts that run one after the other:

- the **gap finder** (`find_free_slots`) sweeps a cursor over the day's
  busy events, in the order the calendar returned them, and emits the free
  gaps of the work day between them;
- the **task placer** (the loop of `schedule_tasks`) takes the tasks in list
  order and puts each into the first free slot that is long enough and ends
  by the task's deadline. The slot is removed from the free list, and what is
  left of it after the task is appended at the end of the list.

The model works on an integer timeline. Instants and durations are `int`s in
one unit, such as minutes. An interval is the half-open `Interval(start, end)`.
A busy event is an `Option<Interval>`, and `None` stands for an event whose
start or end did not parse. The work day is passed in as `dayStart`/`dayEnd`.
The task list and the busy events are passed in as parameters. The pass
returns its placements (task position plus interval) and the positions of the
tasks it could not place.

Files:

- `intervals.dfy` (module `Intervals`): intervals, overlap, containment, total length.
- `gap_finder.dfy` (module `GapFinder`): the sweep as a function (`Sweep`,
  `FreeSlots`), the loop as main.py writes it (`FindFreeSlots`), and the
  properties of the gaps.
- `task_placer.dfy` (module `TaskPlacer`): first-fit choice, one placement
  (`PlaceOne`), the pass (`PlaceAll`), and the mutable free list
  (`FreePool`, whose methods are proved equal to those functions).
  Also the properties of placements.
- `scheduler.dfy` (module `Scheduler`): the two parts composed, as
  `schedule_tasks` composes them.

Three behaviours of main.py are kept as written:

- The code does not sort the events before the sweep. It relies on the
  calendar query's `orderBy='startTime'`. So "no gap overlaps an event" is
  proved for events sorted by start, and `UnsortedOverlapExample` shows a
  gap that overlaps an event when they are not sorted.
- The sweep stops only when the cursor is strictly past `dayEnd`, and gap
  ends are not clipped to `dayEnd` (`UnclippedGapExample`). So "free time
  plus busy time equals the window" does not hold. What the model proves
  instead: every instant of the window lies in a gap or in a busy event
  (`FreeSlotsCoverDay`), and for sorted, well-formed events no gap overlaps
  an event (`FreeSlotsAvoidBusy`).
- The residual of a used slot is appended, not inserted in start order
  (`AppendedResidualExample`).

## Model

| member | source | states |
|---|---|---|
| GapFinder.Sweep | main.py:98-118 | the cursor never decreases; every gap the loop emits is non-empty and starts at or after the cursor it started from; if that cursor is inside the day, every gap starts at or before the day's end |
| GapFinder.FreeSlots | main.py:91-123 | every free slot is non-empty and starts at or after the day start; when the window is not inverted, every slot starts at or before the day end |
| GapFinder.FindFreeSlots | main.py:91-123 | the cursor loop with its `break` returns exactly the slots `FreeSlots` describes |
| GapFinder.SweepOrdered | main.py:114-118 | with well-formed events, the emitted gaps are ordered and end at or before the final cursor |
| GapFinder.FreeSlotsOrdered | main.py:114-121 | with well-formed events, the slots come out in start order and are pairwise disjoint |
| GapFinder.SweepPassesEvents | main.py:116-118 | a sweep that did not stop early has moved its cursor past the end of every parsed event |
| GapFinder.SweepAvoidsBusy | main.py:114-118 | with sorted, well-formed events, no gap emitted by the loop overlaps a parsed event |
| GapFinder.FreeSlotsAvoidBusy | main.py:114-121 | with events sorted by start and well-formed, no free slot overlaps any parsed busy event |
| GapFinder.SweepCovers | main.py:114-118 | every instant the cursor passed over lies in an emitted gap or in a parsed event |
| GapFinder.FreeSlotsCoverDay | main.py:114-121 | every instant of [dayStart, dayEnd) lies in a free slot or in a parsed busy event |
| GapFinder.SweepOverNothing | main.py:101-106 | a sweep over unparsable events only emits nothing and leaves the cursor where it was |
| GapFinder.NoBusyWholeDay | main.py:98-121 | with no parsable event, the result is exactly the one slot [dayStart, dayEnd), or nothing when the window is empty |
| GapFinder.SweepSkipsMalformed | main.py:101-106 | an unparsable event anywhere in the list changes neither the gaps nor the final cursor |
| GapFinder.FreeSlotsSkipMalformed | main.py:101-106 | an unparsable event anywhere in the list leaves the free slots unchanged |
| GapFinder.OneMeetingExample | main.py:114-121 | a 09:00-10:00 meeting in an 08:00-22:00 day leaves exactly 08:00-09:00 and 10:00-22:00 |
| GapFinder.UnclippedGapExample | main.py:114-118 | an event starting after the day end yields a gap that reaches past the day end |
| GapFinder.UnsortedOverlapExample | main.py:114-116 | events out of start order yield a gap that overlaps a busy event |
| TaskPlacer.FirstFit | main.py:143-144 | the position returned holds a slot that is long enough and ends by the deadline, and no earlier slot does; no position means no slot in the list does |
| TaskPlacer.FirstIndex | main.py:154 | for a value in the list, the position found holds that value and no earlier position does |
| TaskPlacer.RemoveFirst | main.py:154 | `list.remove` demands that the value be present (Python raises `ValueError` otherwise) and takes out exactly its first occurrence, keeping the other elements in order |
| TaskPlacer.Residual | main.py:155-156 | something is put back exactly when the task ends strictly before the slot does, and then it is the one interval from the task's end to the slot's end |
| TaskPlacer.SlotSplits | main.py:145-156 | for a fitting slot and a non-negative duration, an instant lies in the slot iff it lies in the placement or in the residual; the residual stays inside the slot and does not overlap the placement |
| TaskPlacer.RemoveFirstAt | main.py:154 | removing by value the first fitting slot removes exactly its position, and the other slots keep their order |
| TaskPlacer.PlaceOne | main.py:141-160 | the task is placed iff some slot fits. Unplaced leaves the list unchanged. Placed means: the task starts at the first fitting slot's start, lasts exactly its duration, and ends by both the slot end and the deadline; the slot leaves the list, the others keep their order, and the non-empty residual is appended last |
| TaskPlacer.PlaceOneConservesFreeTime | main.py:154-156 | a placement lowers the total free time by exactly the task's duration; an unplaced task leaves it unchanged |
| TaskPlacer.Advance | main.py:157-160 | one iteration of the task loop over the pass so far: earlier reports are kept as prefixes; the task is reported unplaced, with the free list unchanged, exactly when no slot fits; otherwise exactly one placement for this task is added. `AdvanceReports` and `AdvanceKeepsCarved` state what it preserves |
| TaskPlacer.PlaceAll | main.py:140-160 | the whole pass, task by task in list order: every task yields one report, placed or unplaced. `PlaceAllReports`, `PlaceAllCarved` and `FreePool.Schedule` state its properties and tie it to the loop |
| TaskPlacer.AdvanceReports | main.py:157-160 | processing one more task keeps every task reported exactly once, in order |
| TaskPlacer.PlaceAllReports | main.py:140-160 | every task is reported exactly once, placed or unplaced, both lists in task order; each placement lasts exactly its task's duration and ends by its deadline |
| TaskPlacer.AdvanceKeepsCarved | main.py:145-156 | for a task of non-negative duration, one placement keeps the free slots and placements pairwise disjoint, each inside a slot of the original free list |
| TaskPlacer.PlaceAllCarved | main.py:140-160 | starting from disjoint slots and with non-negative durations, the placements of a pass are pairwise disjoint, clear of the slots still free, and each inside one original slot |
| TaskPlacer.FreePool.constructor | main.py:138 | the free list starts as the gap finder's slots |
| TaskPlacer.FreePool.PlaceTask | main.py:141-160 | the in-place scan, `remove` and `append` leave the list and report the placement exactly as `PlaceOne` says |
| TaskPlacer.FreePool.Schedule | main.py:140-160 | the task loop over the mutable list yields exactly the placements, unplaced tasks and final list of `PlaceAll` |
| TaskPlacer.ShortTaskExample | main.py:143-156 | a 30-minute task due 09:30 goes to 08:00-08:30, and 08:30-09:00 is appended after 10:00-22:00 |
| TaskPlacer.NoSlotExample | main.py:159-160 | a 60-minute task due 08:30 fits nowhere and the list is unchanged |
| TaskPlacer.BackToBackExample | main.py:140-158 | two 45-minute tasks in a free day go to 08:00-08:45 and 08:45-09:30 |
| TaskPlacer.AppendedResidualExample | main.py:154-158 | because the residual is appended, a later 20-minute task goes to 10:00 rather than to the earlier 08:30 |
| Scheduler.PlacementsDisjoint | main.py:137-160 | with well-formed events and non-negative durations, in any event order, the placements are pairwise disjoint and each lies inside a free slot |
| Scheduler.PlacementsAvoidBusy | main.py:137-160 | with sorted, well-formed events and non-negative durations, the placements are pairwise disjoint, each inside a free slot, and none overlaps a busy event |
| Scheduler.ScheduleTasks | main.py:137-160 | one pass reports each task once, with exact durations and deadlines met; with well-formed events and no negative duration its placements are pairwise disjoint, and when the events are also sorted by start they are clear of busy events |
| Scheduler.DayExample | main.py:137-160 | with one 09:00-10:00 meeting, a 30-minute task due 09:30 is placed at 08:00-08:30 and a 60-minute task due 08:30 is reported unplaced |

## Left out

- Google OAuth, token files and calendar API calls (`main`, `get_calendar_events`, `create_event`, main.py:13-88) are network and file I/O over external libraries. A placement is returned instead of being sent to `create_event`.
- Reading tasks from CSV (main.py:127-135) is file I/O. The model takes the task list as a parameter.
- Parsing with `datetime.fromisoformat` and time-zone normalisation (main.py:102-112) are not modelled. Instants are integers, and a parse failure is the `None` event.
- The work day is derived from `datetime.now` (main.py:94-96), a clock read. It is a parameter here.
- A CSV deadline without a UTC offset parses to a naive datetime (main.py:134). Once a slot passes the length test, comparing that deadline with the UTC-aware slot end at main.py:144 raises `TypeError`, which aborts the pass; tasks already sent to `create_event` stay booked. The model puts every deadline on the one integer timeline, which is main.py's behaviour for deadlines that carry an offset.
- The printed messages (the skipped-event warning at main.py:105 and the unplaced-task warning at main.py:160) are console output. Unplaced tasks are returned as positions instead.
- gui.py is Tkinter plumbing. Its single-task first-fit loop (gui.py:42-53) repeats the slot test of main.py:144 without changing the list, and is not modelled separately.
- Re-running the gap finder on the same input gives the same slots, trivially: `FreeSlots` is a function.
- TaskPlacer.AdvanceKeepsCarved: assumes the task's duration is non-negative, for the reason given in the next line.
- TaskPlacer.PlaceAllCarved: assumes every task duration is non-negative. main.py does not check durations read from CSV. With a negative duration, the residual starts before the slot does, so a placement can fall outside the original free slots.
- Scheduler.PlacementsDisjoint: assumes non-negative durations and well-formed parsed events (start <= end); neither is checked by main.py.
- Scheduler.PlacementsAvoidBusy: assumes non-negative durations for the same reason. It also assumes events sorted by start, which main.py takes from the calendar query rather than checking. And it assumes every parsed event is well formed (start <= end), which main.py does not check either.
- Scheduler.ScheduleTasks: promises disjoint placements only for well-formed parsed events (start <= end) and non-negative durations, and placements clear of busy events only when the events are also sorted by start.
