/** `schedule_tasks` of main.py without its file and calendar I/O: free slots
    of the work day are found from the busy events, then the tasks are placed
    into them. */
module Scheduler {
  import opened Intervals
  import opened GapFinder
  import opened TaskPlacer

  /** With well-formed events and tasks of non-negative duration, in any
      event order, the placements of a pass are pairwise disjoint and each
      lies within one free slot of the day. */
  lemma PlacementsDisjoint(events: seq<Event>, tasks: seq<Task>, dayStart: int, dayEnd: int)
    requires WellFormed(events)
    requires forall i :: 0 <= i < |tasks| ==> tasks[i].duration >= 0
    ensures var slots := FreeSlots(events, dayStart, dayEnd);
      var ps := PlaceAll(slots, tasks).placements;
      && (forall i :: 0 <= i < |ps| ==> InsideSome(ps[i].slot, slots))
      && (forall i, j :: 0 <= i < |ps| && 0 <= j < |ps| && i != j ==> !Overlaps(ps[i].slot, ps[j].slot))
  {
    FreeSlotsOrdered(events, dayStart, dayEnd);
    PlaceAllCarved(FreeSlots(events, dayStart, dayEnd), tasks);
  }

  /** With sorted, well-formed events and tasks of non-negative duration,
      the placements of a pass are pairwise disjoint, each lies within one
      free slot of the day, and none overlaps a parsed busy event. */
  lemma PlacementsAvoidBusy(events: seq<Event>, tasks: seq<Task>, dayStart: int, dayEnd: int)
    requires WellFormed(events) && SortedByStart(events)
    requires forall i :: 0 <= i < |tasks| ==> tasks[i].duration >= 0
    ensures var slots := FreeSlots(events, dayStart, dayEnd);
      var ps := PlaceAll(slots, tasks).placements;
      && (forall i :: 0 <= i < |ps| ==> InsideSome(ps[i].slot, slots))
      && (forall i, j :: 0 <= i < |ps| && 0 <= j < |ps| && i != j ==> !Overlaps(ps[i].slot, ps[j].slot))
      && (forall i, j :: 0 <= i < |ps| && 0 <= j < |events| && events[j].Some? ==>
            !Overlaps(ps[i].slot, events[j].value))
  {
    var slots := FreeSlots(events, dayStart, dayEnd);
    var ps := PlaceAll(slots, tasks).placements;
    FreeSlotsOrdered(events, dayStart, dayEnd);
    FreeSlotsAvoidBusy(events, dayStart, dayEnd);
    PlaceAllCarved(slots, tasks);
    forall i, j | 0 <= i < |ps| && 0 <= j < |events| && events[j].Some?
      ensures !Overlaps(ps[i].slot, events[j].value)
    {
      assert InsideSome(ps[i].slot, slots);
      var k :| 0 <= k < |slots| && Within(ps[i].slot, slots[k]);
      WithinAvoids(ps[i].slot, slots[k], events[j].value);
    }
  }

  /** One scheduling pass (main.py:137-160): free slots from the events, then
      every task in list order. Each task is reported placed or unplaced
      exactly once; a placement lasts its task's duration and ends by its
      deadline; with well-formed events and non-negative durations the
      placements are pairwise disjoint, and when the events are also sorted
      by start they are clear of every busy event. */
  method ScheduleTasks(events: seq<Event>, tasks: seq<Task>, dayStart: int, dayEnd: int)
    returns (placements: seq<Placement>, unplaced: seq<nat>)
    ensures var r := PlaceAll(FreeSlots(events, dayStart, dayEnd), tasks);
      placements == r.placements && unplaced == r.unplaced
    ensures Reported(tasks, placements, unplaced)
    ensures WellFormed(events) && (forall i :: 0 <= i < |tasks| ==> tasks[i].duration >= 0) ==>
      forall i, j :: 0 <= i < |placements| && 0 <= j < |placements| && i != j ==>
        !Overlaps(placements[i].slot, placements[j].slot)
    ensures WellFormed(events) && SortedByStart(events) &&
            (forall i :: 0 <= i < |tasks| ==> tasks[i].duration >= 0) ==>
      (forall i, j :: 0 <= i < |placements| && 0 <= j < |events| && events[j].Some? ==>
            !Overlaps(placements[i].slot, events[j].value))
  {
    var slots := FindFreeSlots(events, dayStart, dayEnd);
    var pool := new FreePool(slots);
    placements, unplaced := pool.Schedule(tasks);
    PlaceAllReports(slots, tasks);
    if WellFormed(events) && (forall i :: 0 <= i < |tasks| ==> tasks[i].duration >= 0) {
      PlacementsDisjoint(events, tasks, dayStart, dayEnd);
      if SortedByStart(events) {
        PlacementsAvoidBusy(events, tasks, dayStart, dayEnd);
      }
    }
  }

  /** One meeting 09:00-10:00; a 30-minute task due 09:30 is placed at
      08:00-08:30 and a 60-minute task due 08:30 is reported unplaced. */
  lemma DayExample()
    ensures var events := [Some(Interval(540, 600))];
      var tasks := [Task("review", 30, 570), Task("essay", 60, 510)];
      var r := PlaceAll(FreeSlots(events, 480, 1320), tasks);
      r.placements == [Placement(0, Interval(480, 510))] && r.unplaced == [1] &&
      r.pool == [Interval(600, 1320), Interval(510, 540)]
  {
  }
}
