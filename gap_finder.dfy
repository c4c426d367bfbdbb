/** The gap finder of main.py (`find_free_slots`): one sweep over the day's
    busy events, in the order the calendar returned them, emitting the free
    gaps between them inside a work day [dayStart, dayEnd]. */
module GapFinder {
  import opened Intervals

  /** A calendar event as read: `None` when its start or end did not parse. */
  type Event = Option<Interval>

  /** What the sweep has emitted so far and where its cursor stands. */
  datatype SweepState = SweepState(gaps: seq<Interval>, cursor: int)

  /** Events that parsed have start <= end. */
  predicate WellFormed(events: seq<Event>)
  {
    forall i :: 0 <= i < |events| && events[i].Some? ==> events[i].value.start <= events[i].value.end
  }

  /** The events that parsed come in ascending start order (the calendar is
      asked for `orderBy='startTime'`; the sweep itself does not sort). */
  predicate SortedByStart(events: seq<Event>)
  {
    forall i, j :: 0 <= i < j < |events| && events[i].Some? && events[j].Some? ==>
      events[i].value.start <= events[j].value.start
  }

  /** Instant t lies in some parsed event. */
  predicate Busy(events: seq<Event>, t: int)
  {
    exists j :: 0 <= j < |events| && events[j].Some? && Contains(events[j].value, t)
  }

  /** Instant t lies in some gap. */
  predicate Free(gaps: seq<Interval>, t: int)
  {
    exists i :: 0 <= i < |gaps| && Contains(gaps[i], t)
  }

  /** The loop of `find_free_slots` run from `cursor` over `events`: a gap
      [cursor, start) when an event starts after the cursor, then the cursor
      moves to max(cursor, end); the sweep stops as soon as the cursor is past
      dayEnd. Unparsable events are skipped. */
  function Sweep(events: seq<Event>, cursor: int, dayEnd: int): (r: SweepState)
    ensures cursor <= r.cursor
    ensures forall i :: 0 <= i < |r.gaps| ==> cursor <= r.gaps[i].start < r.gaps[i].end
    ensures cursor <= dayEnd ==> forall i :: 0 <= i < |r.gaps| ==> r.gaps[i].start <= dayEnd
    decreases |events|
  {
    if events == [] then SweepState([], cursor)
    else match events[0]
      case None => Sweep(events[1..], cursor, dayEnd)
      case Some(busy) =>
        var gap := if busy.start > cursor then [Interval(cursor, busy.start)] else [];
        var next := Max(cursor, busy.end);
        if next > dayEnd then SweepState(gap, next)
        else
          var rest := Sweep(events[1..], next, dayEnd);
          SweepState(gap + rest.gaps, rest.cursor)
  }

  /** `find_free_slots`: the sweep from dayStart, then a final gap
      [cursor, dayEnd) when time remains. Every gap is non-empty and starts
      at or after dayStart; when the window is not inverted every gap starts
      at or before dayEnd (its end is not clipped to dayEnd). */
  function FreeSlots(events: seq<Event>, dayStart: int, dayEnd: int): (slots: seq<Interval>)
    ensures forall i :: 0 <= i < |slots| ==> dayStart <= slots[i].start < slots[i].end
    ensures dayStart <= dayEnd ==> forall i :: 0 <= i < |slots| ==> slots[i].start <= dayEnd
  {
    var s := Sweep(events, dayStart, dayEnd);
    if s.cursor < dayEnd then s.gaps + [Interval(s.cursor, dayEnd)] else s.gaps
  }

  /** The sweep as main.py writes it: a cursor variable, a list that gaps are
      appended to, and a `break` once the cursor is past the end of the day. */
  method FindFreeSlots(events: seq<Event>, dayStart: int, dayEnd: int) returns (slots: seq<Interval>)
    ensures slots == FreeSlots(events, dayStart, dayEnd)
  {
    ghost var whole := Sweep(events, dayStart, dayEnd);
    slots := [];
    var cursor := dayStart;
    var i := 0;
    while i < |events|
      invariant 0 <= i <= |events|
      invariant whole == SweepState(slots + Sweep(events[i..], cursor, dayEnd).gaps,
                                    Sweep(events[i..], cursor, dayEnd).cursor)
    {
      assert events[i..][1..] == events[i+1..];
      match events[i] {
        case None =>
        case Some(busy) =>
          if busy.start > cursor {
            slots := slots + [Interval(cursor, busy.start)];
          }
          cursor := Max(cursor, busy.end);
          if cursor > dayEnd {
            assert whole == SweepState(slots, cursor);
            break;
          }
      }
      i := i + 1;
    }
    assert whole == SweepState(slots, cursor);
    if cursor < dayEnd {
      slots := slots + [Interval(cursor, dayEnd)];
    }
  }

  // ---------------------------------------------------------------------------
  // Ordering and disjointness of the gaps

  /** With well-formed events the gaps come out ordered, each ending at or
      before the cursor the sweep finishes with. */
  lemma {:induction false} SweepOrdered(events: seq<Event>, cursor: int, dayEnd: int)
    requires WellFormed(events)
    ensures var r := Sweep(events, cursor, dayEnd);
      Ordered(r.gaps) && forall i :: 0 <= i < |r.gaps| ==> r.gaps[i].end <= r.cursor
    decreases |events|
  {
    if events != [] {
      assert WellFormed(events[1..]) by {
        forall i | 0 <= i < |events[1..]| && events[1..][i].Some?
          ensures events[1..][i].value.start <= events[1..][i].value.end
        {
          assert events[1..][i] == events[i + 1];
        }
      }
      match events[0] {
        case None =>
          SweepOrdered(events[1..], cursor, dayEnd);
        case Some(busy) =>
          var next := Max(cursor, busy.end);
          if next <= dayEnd {
            SweepOrdered(events[1..], next, dayEnd);
          }
      }
    }
  }

  /** Gaps are in start order and pairwise disjoint (main.py:114-121). */
  lemma FreeSlotsOrdered(events: seq<Event>, dayStart: int, dayEnd: int)
    requires WellFormed(events)
    ensures Ordered(FreeSlots(events, dayStart, dayEnd))
    ensures PairwiseDisjoint(FreeSlots(events, dayStart, dayEnd))
  {
    SweepOrdered(events, dayStart, dayEnd);
    OrderedIsDisjoint(FreeSlots(events, dayStart, dayEnd));
  }

  // ---------------------------------------------------------------------------
  // Gaps avoid the busy events

  /** A sweep that did not stop early has moved its cursor past every event. */
  lemma {:induction false} SweepPassesEvents(events: seq<Event>, cursor: int, dayEnd: int)
    ensures var r := Sweep(events, cursor, dayEnd);
      r.cursor <= dayEnd ==>
        forall j :: 0 <= j < |events| && events[j].Some? ==> events[j].value.end <= r.cursor
    decreases |events|
  {
    if events != [] {
      var r := Sweep(events, cursor, dayEnd);
      match events[0] {
        case None =>
          SweepPassesEvents(events[1..], cursor, dayEnd);
          forall j | 1 <= j < |events| ensures events[j] == events[1..][j - 1] { }
        case Some(busy) =>
          var next := Max(cursor, busy.end);
          if next <= dayEnd {
            SweepPassesEvents(events[1..], next, dayEnd);
            forall j | 1 <= j < |events| ensures events[j] == events[1..][j - 1] { }
          }
      }
    }
  }

  /** With sorted, well-formed events no gap overlaps a parsed event. */
  lemma {:induction false} SweepAvoidsBusy(events: seq<Event>, cursor: int, dayEnd: int)
    requires WellFormed(events) && SortedByStart(events)
    ensures forall i, j :: 0 <= i < |Sweep(events, cursor, dayEnd).gaps| && 0 <= j < |events| && events[j].Some? ==>
      !Overlaps(Sweep(events, cursor, dayEnd).gaps[i], events[j].value)
    decreases |events|
  {
    if events != [] {
      var tail := events[1..];
      assert forall j :: 1 <= j < |events| ==> events[j] == tail[j - 1];
      assert WellFormed(tail) && SortedByStart(tail);
      var r := Sweep(events, cursor, dayEnd);
      match events[0] {
        case None =>
          SweepAvoidsBusy(tail, cursor, dayEnd);
          forall i, j | 0 <= i < |r.gaps| && 0 <= j < |events| && events[j].Some?
            ensures !Overlaps(r.gaps[i], events[j].value)
          {
            assert events[j] == tail[j - 1];
            assert r.gaps[i] == Sweep(tail, cursor, dayEnd).gaps[i];
          }
        case Some(busy) =>
          var gap := if busy.start > cursor then [Interval(cursor, busy.start)] else [];
          var next := Max(cursor, busy.end);
          // the gap before this event ends where the event starts, and every
          // later event starts no earlier
          forall i, j | 0 <= i < |gap| && 0 <= j < |events| && events[j].Some?
            ensures !Overlaps(gap[i], events[j].value)
          {
            if j > 0 {
              assert busy.start <= events[j].value.start;
            }
          }
          if next <= dayEnd {
            var rest := Sweep(tail, next, dayEnd);
            SweepAvoidsBusy(tail, next, dayEnd);
            // later gaps start at or after `next`, where this event has ended
            forall i, j | 0 <= i < |rest.gaps| && 0 <= j < |events| && events[j].Some?
              ensures !Overlaps(rest.gaps[i], events[j].value)
            {
              if j > 0 {
                assert events[j] == tail[j - 1];
                assert !Overlaps(Sweep(tail, next, dayEnd).gaps[i], tail[j - 1].value);
              }
            }
            assert r.gaps == gap + rest.gaps;
          }
      }
    }
  }

  /** With sorted, well-formed events no free slot overlaps a parsed busy
      event (main.py:114-121, relying on the ordering requested at main.py:86). */
  lemma FreeSlotsAvoidBusy(events: seq<Event>, dayStart: int, dayEnd: int)
    requires WellFormed(events) && SortedByStart(events)
    ensures var slots := FreeSlots(events, dayStart, dayEnd);
      forall i, j :: 0 <= i < |slots| && 0 <= j < |events| && events[j].Some? ==>
        !Overlaps(slots[i], events[j].value)
  {
    SweepAvoidsBusy(events, dayStart, dayEnd);
    SweepPassesEvents(events, dayStart, dayEnd);
  }

  // ---------------------------------------------------------------------------
  // Gaps and events together cover the window

  /** Every instant the cursor moved over lies in a gap or in a parsed event. */
  lemma {:induction false} SweepCovers(events: seq<Event>, cursor: int, dayEnd: int, t: int)
    requires cursor <= t < Sweep(events, cursor, dayEnd).cursor
    ensures Free(Sweep(events, cursor, dayEnd).gaps, t) || Busy(events, t)
    decreases |events|
  {
    var tail := events[1..];
    match events[0] {
      case None =>
        SweepCovers(tail, cursor, dayEnd, t);
        if Busy(tail, t) {
          var j :| 0 <= j < |tail| && tail[j].Some? && Contains(tail[j].value, t);
          assert events[j + 1] == tail[j];
        }
      case Some(busy) =>
        var gap := if busy.start > cursor then [Interval(cursor, busy.start)] else [];
        var next := Max(cursor, busy.end);
        var r := Sweep(events, cursor, dayEnd);
        if t < next {
          if busy.start > cursor && t < busy.start {
            assert Contains(r.gaps[0], t);
          } else {
            assert Contains(events[0].value, t);
          }
        } else {
          var rest := Sweep(tail, next, dayEnd);
          assert r.gaps == gap + rest.gaps;
          SweepCovers(tail, next, dayEnd, t);
          if Free(rest.gaps, t) {
            var i :| 0 <= i < |rest.gaps| && Contains(rest.gaps[i], t);
            assert r.gaps[|gap| + i] == rest.gaps[i];
          } else {
            var j :| 0 <= j < |tail| && tail[j].Some? && Contains(tail[j].value, t);
            assert events[j + 1] == tail[j];
          }
        }
    }
  }

  /** Every instant of the work day lies in a free slot or in a parsed busy
      event: the gaps are the whole complement of the events (main.py:114-121). */
  lemma FreeSlotsCoverDay(events: seq<Event>, dayStart: int, dayEnd: int, t: int)
    requires dayStart <= t < dayEnd
    ensures Free(FreeSlots(events, dayStart, dayEnd), t) || Busy(events, t)
  {
    var s := Sweep(events, dayStart, dayEnd);
    var slots := FreeSlots(events, dayStart, dayEnd);
    if t < s.cursor {
      SweepCovers(events, dayStart, dayEnd, t);
      if Free(s.gaps, t) {
        var i :| 0 <= i < |s.gaps| && Contains(s.gaps[i], t);
        assert slots[i] == s.gaps[i];
      }
    } else {
      assert Contains(slots[|slots| - 1], t);
    }
  }

  // ---------------------------------------------------------------------------
  // Unparsable events

  /** A sweep over unparsable events only leaves everything as it was. */
  lemma {:induction false} SweepOverNothing(events: seq<Event>, cursor: int, dayEnd: int)
    requires forall i :: 0 <= i < |events| ==> events[i].None?
    ensures Sweep(events, cursor, dayEnd) == SweepState([], cursor)
    decreases |events|
  {
    if events != [] {
      SweepOverNothing(events[1..], cursor, dayEnd);
    }
  }

  /** No parsable event: the whole day is one free slot (main.py:98-106,
      main.py:120-121); an empty or inverted window gives no slot. */
  lemma NoBusyWholeDay(events: seq<Event>, dayStart: int, dayEnd: int)
    requires forall i :: 0 <= i < |events| ==> events[i].None?
    ensures FreeSlots(events, dayStart, dayEnd) ==
      if dayStart < dayEnd then [Interval(dayStart, dayEnd)] else []
  {
    SweepOverNothing(events, dayStart, dayEnd);
  }

  /** An unparsable event between any others changes neither cursor nor gaps. */
  lemma {:induction false} SweepSkipsMalformed(before: seq<Event>, after: seq<Event>, cursor: int, dayEnd: int)
    ensures Sweep(before + [None] + after, cursor, dayEnd) == Sweep(before + after, cursor, dayEnd)
    decreases |before|
  {
    if before == [] {
      assert (before + [None] + after)[1..] == after;
      assert before + after == after;
    } else {
      assert (before + [None] + after)[1..] == before[1..] + [None] + after;
      assert (before + after)[1..] == before[1..] + after;
      assert (before + [None] + after)[0] == (before + after)[0] == before[0];
      match before[0] {
        case None =>
          SweepSkipsMalformed(before[1..], after, cursor, dayEnd);
        case Some(busy) =>
          var next := Max(cursor, busy.end);
          if next <= dayEnd {
            SweepSkipsMalformed(before[1..], after, next, dayEnd);
          }
      }
    }
  }

  /** Skipping an unparsable event leaves the free slots unchanged (main.py:101-106). */
  lemma FreeSlotsSkipMalformed(before: seq<Event>, after: seq<Event>, dayStart: int, dayEnd: int)
    ensures FreeSlots(before + [None] + after, dayStart, dayEnd) == FreeSlots(before + after, dayStart, dayEnd)
  {
    SweepSkipsMalformed(before, after, dayStart, dayEnd);
  }

  // ---------------------------------------------------------------------------
  // Worked examples (instants in minutes after midnight)

  /** One meeting 09:00-10:00 in an 08:00-22:00 day leaves 08:00-09:00 and 10:00-22:00. */
  lemma OneMeetingExample()
    ensures FreeSlots([Some(Interval(540, 600))], 480, 1320) == [Interval(480, 540), Interval(600, 1320)]
  {
  }

  /** An event after the end of the day stretches the last gap past dayEnd:
      gap ends are not clipped (main.py:114-118). */
  lemma UnclippedGapExample()
    ensures FreeSlots([Some(Interval(1400, 1450))], 480, 1320) == [Interval(480, 1400)]
  {
  }

  /** The sweep does not sort: events out of start order produce a gap that
      overlaps a busy event, so the ordering requested from the calendar is
      what `FreeSlotsAvoidBusy` rests on. */
  lemma UnsortedOverlapExample()
    ensures var events := [Some(Interval(600, 660)), Some(Interval(540, 570))];
      FreeSlots(events, 480, 1320) == [Interval(480, 600), Interval(660, 1320)] &&
      Overlaps(FreeSlots(events, 480, 1320)[0], Interval(540, 570))
  {
  }
}
