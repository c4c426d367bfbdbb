/** The task placer of main.py (the loop of `schedule_tasks`): tasks are taken
    in list order, and each goes first-fit into the current list of free slots.
    The chosen slot is removed and the part after the task is appended at the
    END of the list, not put back in start order. */
module TaskPlacer {
  import opened Intervals

  /** A task row: name, duration and deadline (instants and durations share
      one integer unit). main.py does not check that the duration is positive. */
  datatype Task = Task(name: string, duration: int, deadline: int)

  /** A placed task: its position in the task list and the interval it occupies. */
  datatype Placement = Placement(task: nat, slot: Interval)

  /** The effect of one task on the free list. */
  datatype Step = Step(placed: Option<Interval>, pool: seq<Interval>)

  /** The result of a whole pass: placements, unplaced task positions, and
      the free list left over. */
  datatype PassResult = PassResult(placements: seq<Placement>, unplaced: seq<nat>, pool: seq<Interval>)

  /** The slot test: long enough for the task and ending by its deadline. */
  predicate Fits(g: Interval, t: Task)
  {
    g.end - g.start >= t.duration && g.end <= t.deadline
  }

  /** Position of the first slot in list order that fits the task. */
  function FirstFit(pool: seq<Interval>, t: Task): (r: Option<nat>)
    ensures r.Some? ==> r.value < |pool| && Fits(pool[r.value], t) &&
                        forall j :: 0 <= j < r.value ==> !Fits(pool[j], t)
    ensures r.None? ==> forall j :: 0 <= j < |pool| ==> !Fits(pool[j], t)
  {
    if pool == [] then None
    else if Fits(pool[0], t) then Some(0)
    else match FirstFit(pool[1..], t)
      case None => None
      case Some(k) => Some(k + 1)
  }

  /** Position of the first element equal to x, as `list.remove` finds it. */
  function FirstIndex(s: seq<Interval>, x: Interval): (k: nat)
    requires x in s
    ensures k < |s| && s[k] == x && x !in s[..k]
  {
    if s[0] == x then 0
    else
      var k := FirstIndex(s[1..], x);
      assert s[..k + 1] == [s[0]] + s[1..][..k];
      k + 1
  }

  /** Python's `list.remove` on a value the list holds: drop the first
      element equal to x. (On a missing value Python raises `ValueError`;
      main.py only ever removes the slot it has just found.) */
  function RemoveFirst(s: seq<Interval>, x: Interval): (r: seq<Interval>)
    requires x in s
    ensures exists k :: 0 <= k < |s| && s[k] == x && x !in s[..k] && r == s[..k] + s[k+1..]
  {
    var k := FirstIndex(s, x);
    s[..k] + s[k+1..]
  }

  /** What is left of slot g after the task takes its beginning: nothing, or
      the non-empty interval from the task's end to g's end. */
  function Residual(g: Interval, t: Task): (r: seq<Interval>)
    ensures r != [] <==> g.start + t.duration < g.end
    ensures |r| <= 1
    ensures forall i :: 0 <= i < |r| ==> r[i] == Interval(g.start + t.duration, g.end)
  {
    var taskEnd := g.start + t.duration;
    if g.end - taskEnd > 0 then [Interval(taskEnd, g.end)] else []
  }

  /** A fitting slot splits exactly into the placed task and its residual:
      an instant of the slot lies in one of the two, and the two do not
      overlap (main.py:145-156). */
  lemma SlotSplits(g: Interval, t: Task, x: int)
    requires Fits(g, t) && t.duration >= 0
    ensures var placed := Interval(g.start, g.start + t.duration);
      var rest := Residual(g, t);
      && (Contains(g, x) <==> Contains(placed, x) || exists i :: 0 <= i < |rest| && Contains(rest[i], x))
      && forall i :: 0 <= i < |rest| ==> !Overlaps(rest[i], placed) && Within(rest[i], g)
  {
    var rest := Residual(g, t);
    if Contains(g, x) && x >= g.start + t.duration {
      assert Contains(rest[0], x);
    }
  }

  /** Removing by value at the first fitting slot removes exactly that index:
      no earlier slot can equal it, because no earlier slot fits. */
  lemma RemoveFirstAt(s: seq<Interval>, k: nat)
    requires k < |s|
    requires forall j :: 0 <= j < k ==> s[j] != s[k]
    ensures RemoveFirst(s, s[k]) == s[..k] + s[k+1..]
  {
  }

  /** One task against the free list (main.py:141-160). A placed task starts
      where its slot starts, lasts exactly its duration and ends by its
      deadline and by the slot's end; the slot leaves the list, the others
      keep their order and the residual, when non-empty, goes to the back.
      With no fitting slot the list is left as it was. */
  function PlaceOne(pool: seq<Interval>, t: Task): (r: Step)
    ensures r.placed.None? <==> forall j :: 0 <= j < |pool| ==> !Fits(pool[j], t)
    ensures r.placed.None? ==> r.pool == pool
    ensures r.placed.Some? ==>
      var k := FirstFit(pool, t).value;
      && r.placed.value == Interval(pool[k].start, pool[k].start + t.duration)
      && Length(r.placed.value) == t.duration
      && r.placed.value.end <= pool[k].end
      && r.placed.value.end <= t.deadline
      && r.pool == pool[..k] + pool[k+1..] + Residual(pool[k], t)
  {
    match FirstFit(pool, t)
    case None => Step(None, pool)
    case Some(k) =>
      var g := pool[k];
      RemoveFirstAt(pool, k);
      Step(Some(Interval(g.start, g.start + t.duration)), RemoveFirst(pool, g) + Residual(g, t))
  }

  /** PlaceOne when the first fitting slot is slot k. */
  lemma PlaceOneAt(pool: seq<Interval>, t: Task, k: nat)
    requires FirstFit(pool, t) == Some(k)
    ensures PlaceOne(pool, t) ==
      Step(Some(Interval(pool[k].start, pool[k].start + t.duration)), RemoveFirst(pool, pool[k]) + Residual(pool[k], t))
  {
  }

  /** PlaceOne when no slot fits. */
  lemma PlaceOneNowhere(pool: seq<Interval>, t: Task)
    requires forall j :: 0 <= j < |pool| ==> !Fits(pool[j], t)
    ensures PlaceOne(pool, t) == Step(None, pool)
  {
  }

  /** A placement takes exactly the task's duration out of the free list;
      a task left unplaced takes nothing. */
  lemma PlaceOneConservesFreeTime(pool: seq<Interval>, t: Task)
    ensures var r := PlaceOne(pool, t);
      Total(r.pool) == Total(pool) - (if r.placed.Some? then t.duration else 0)
  {
    var r := PlaceOne(pool, t);
    if r.placed.Some? {
      var k := FirstFit(pool, t).value;
      TotalWithout(pool, k);
      TotalAppend(pool[..k] + pool[k+1..], Residual(pool[k], t));
      var rest := Residual(pool[k], t);
      if rest != [] {
        assert Total(rest) == Length(rest[0]);
      }
    }
  }

  /** Task number i of the pass meets the free list as the earlier tasks left
      it. The task is added to the unplaced list, with the free list kept,
      exactly when no slot fits; otherwise one placement for task i is added.
      Earlier reports are never changed. */
  function Advance(p: PassResult, i: nat, t: Task): (r: PassResult)
    ensures p.placements <= r.placements && p.unplaced <= r.unplaced
    ensures r.unplaced == p.unplaced + [i] <==> forall j :: 0 <= j < |p.pool| ==> !Fits(p.pool[j], t)
    ensures r.unplaced == p.unplaced + [i] ==> r.placements == p.placements && r.pool == p.pool
    ensures r.unplaced != p.unplaced + [i] ==>
      r.unplaced == p.unplaced && |r.placements| == |p.placements| + 1 &&
      r.placements[|p.placements|].task == i
  {
    var step := PlaceOne(p.pool, t);
    match step.placed
    case None => PassResult(p.placements, p.unplaced + [i], p.pool)
    case Some(slot) => PassResult(p.placements + [Placement(i, slot)], p.unplaced, step.pool)
  }

  /** The whole pass over the task list (main.py:140-160), in list order. */
  function PlaceAll(pool: seq<Interval>, tasks: seq<Task>): (r: PassResult)
    ensures |r.placements| + |r.unplaced| == |tasks|
    decreases |tasks|
  {
    if tasks == [] then PassResult([], [], pool)
    else
      var n := |tasks| - 1;
      Advance(PlaceAll(pool, tasks[..n]), n, tasks[n])
  }

  /** Each task of the list is either placed or reported unplaced, never both,
      both lists in task order; each placement lasts exactly its task's
      duration and ends by its task's deadline. */
  predicate Reported(tasks: seq<Task>, placements: seq<Placement>, unplaced: seq<nat>)
  {
    && |placements| + |unplaced| == |tasks|
    && (forall i :: 0 <= i < |placements| ==>
          var p := placements[i];
          p.task < |tasks| && Length(p.slot) == tasks[p.task].duration && p.slot.end <= tasks[p.task].deadline)
    && (forall i :: 0 <= i < |unplaced| ==> unplaced[i] < |tasks|)
    && (forall i, j :: 0 <= i < j < |placements| ==> placements[i].task < placements[j].task)
    && (forall i, j :: 0 <= i < j < |unplaced| ==> unplaced[i] < unplaced[j])
    && (forall i, j :: 0 <= i < |placements| && 0 <= j < |unplaced| ==> placements[i].task != unplaced[j])
  }

  /** Reporting task n as placed in `slot` extends a report of the first n tasks. */
  lemma ReportPlaced(tasks: seq<Task>, placements: seq<Placement>, unplaced: seq<nat>, n: nat, slot: Interval)
    requires n < |tasks| && Reported(tasks[..n], placements, unplaced)
    requires Length(slot) == tasks[n].duration && slot.end <= tasks[n].deadline
    ensures Reported(tasks[..n + 1], placements + [Placement(n, slot)], unplaced)
  {
    assert forall i :: 0 <= i < n ==> tasks[..n][i] == tasks[..n + 1][i] == tasks[i];
  }

  /** Reporting task n as unplaced extends a report of the first n tasks. */
  lemma ReportUnplaced(tasks: seq<Task>, placements: seq<Placement>, unplaced: seq<nat>, n: nat)
    requires n < |tasks| && Reported(tasks[..n], placements, unplaced)
    ensures Reported(tasks[..n + 1], placements, unplaced + [n])
  {
    assert forall i :: 0 <= i < n ==> tasks[..n][i] == tasks[..n + 1][i] == tasks[i];
  }

  lemma AdvanceReports(tasks: seq<Task>, p: PassResult, n: nat)
    requires n < |tasks|
    requires Reported(tasks[..n], p.placements, p.unplaced)
    ensures var q := Advance(p, n, tasks[n]); Reported(tasks[..n + 1], q.placements, q.unplaced)
  {
    var step := PlaceOne(p.pool, tasks[n]);
    if step.placed.Some? {
      ReportPlaced(tasks, p.placements, p.unplaced, n, step.placed.value);
    } else {
      ReportUnplaced(tasks, p.placements, p.unplaced, n);
    }
  }

  /** Every pass reports every task exactly once (main.py:140-160). */
  lemma {:induction false} PlaceAllReports(pool: seq<Interval>, tasks: seq<Task>)
    ensures var r := PlaceAll(pool, tasks); Reported(tasks, r.placements, r.unplaced)
    decreases |tasks|
  {
    if tasks != [] {
      var n := |tasks| - 1;
      PlaceAllReports(pool, tasks[..n]);
      AdvanceReports(tasks, PlaceAll(pool, tasks[..n]), n);
      assert tasks[..n + 1] == tasks;
    }
  }

  // ---------------------------------------------------------------------------
  // Placements are carved out of the original free slots

  /** x lies within one of the slots of `pool0`. */
  predicate InsideSome(x: Interval, pool0: seq<Interval>)
  {
    exists k :: 0 <= k < |pool0| && Within(x, pool0[k])
  }

  /** What a pass keeps true of its state: the free slots and the placements
      are pairwise disjoint, each other and among themselves, and each lies
      within a slot of the free list the pass started with. */
  predicate Carved(pool0: seq<Interval>, p: PassResult)
  {
    && PairwiseDisjoint(p.pool)
    && (forall i, j :: 0 <= i < |p.placements| && 0 <= j < |p.placements| && i != j ==>
          !Overlaps(p.placements[i].slot, p.placements[j].slot))
    && (forall i, j :: 0 <= i < |p.pool| && 0 <= j < |p.placements| ==>
          !Overlaps(p.pool[i], p.placements[j].slot))
    && (forall i :: 0 <= i < |p.pool| ==> InsideSome(p.pool[i], pool0))
    && (forall j :: 0 <= j < |p.placements| ==> InsideSome(p.placements[j].slot, pool0))
  }

  lemma WithinInsideSome(a: Interval, b: Interval, pool0: seq<Interval>)
    requires Within(a, b) && InsideSome(b, pool0)
    ensures InsideSome(a, pool0)
  {
  }

  /** The free list with slot k taken out keeps the other slots, in order. */
  lemma WithoutAt(s: seq<Interval>, k: nat, i: nat)
    requires k < |s| && i < |s| - 1
    ensures (s[..k] + s[k+1..])[i] == s[if i < k then i else i + 1]
  {
  }

  /** Slots other than slot k avoid everything carved out of slot k. */
  lemma OthersAvoidPieces(pool: seq<Interval>, k: nat, pieces: seq<Interval>)
    requires PairwiseDisjoint(pool) && k < |pool|
    requires forall x :: 0 <= x < |pieces| ==> Within(pieces[x], pool[k])
    ensures var others := pool[..k] + pool[k+1..];
      forall a, x :: 0 <= a < |others| && 0 <= x < |pieces| ==>
        !Overlaps(others[a], pieces[x]) && !Overlaps(pieces[x], others[a])
  {
    var others := pool[..k] + pool[k+1..];
    forall a, x | 0 <= a < |others| && 0 <= x < |pieces|
      ensures !Overlaps(others[a], pieces[x]) && !Overlaps(pieces[x], others[a])
    {
      WithoutAt(pool, k, a);
      WithinAvoids(pieces[x], pool[k], pool[if a < k then a else a + 1]);
    }
  }

  /** Taking slot k out of a disjoint list and appending at most one piece
      of it leaves the list disjoint. */
  lemma CarvedPoolDisjoint(pool: seq<Interval>, k: nat, rest: seq<Interval>)
    requires PairwiseDisjoint(pool) && k < |pool| && |rest| <= 1
    requires forall x :: 0 <= x < |rest| ==> Within(rest[x], pool[k])
    ensures PairwiseDisjoint(pool[..k] + pool[k+1..] + rest)
  {
    var others := pool[..k] + pool[k+1..];
    var q := others + rest;
    OthersAvoidPieces(pool, k, rest);
    forall a, b | 0 <= a < |q| && 0 <= b < |q| && a != b
      ensures !Overlaps(q[a], q[b])
    {
      if a < |others| && b < |others| {
        WithoutAt(pool, k, a);
        WithoutAt(pool, k, b);
      }
    }
  }

  /** Replacing slot k by a part of it, and recording a placement carved from
      slot k apart from that part, keeps a carved state carved. */
  lemma CarveSlot(pool0: seq<Interval>, p: PassResult, k: nat, placed: Interval, rest: seq<Interval>, i: nat)
    requires Carved(pool0, p) && k < |p.pool|
    requires Within(placed, p.pool[k]) && |rest| <= 1
    requires forall x :: 0 <= x < |rest| ==> Within(rest[x], p.pool[k]) && !Overlaps(rest[x], placed)
    ensures Carved(pool0, PassResult(p.placements + [Placement(i, placed)], p.unplaced, p.pool[..k] + p.pool[k+1..] + rest))
  {
    var g := p.pool[k];
    var others := p.pool[..k] + p.pool[k+1..];
    OthersAvoidPieces(p.pool, k, rest + [placed]);
    assert forall a, x :: 0 <= a < |others| && 0 <= x < |rest| ==> !Overlaps(others[a], (rest + [placed])[x]);
    assert forall a :: 0 <= a < |others| ==> !Overlaps(others[a], (rest + [placed])[|rest|]);
    CarvedPoolDisjoint(p.pool, k, rest);
    forall a | 0 <= a < |others| ensures InsideSome(others[a], pool0) {
      WithoutAt(p.pool, k, a);
    }
    forall x | 0 <= x < |rest| ensures InsideSome(rest[x], pool0) {
      WithinInsideSome(rest[x], g, pool0);
    }
    WithinInsideSome(placed, g, pool0);
    // earlier placements avoid g, hence avoid its residual and the new placement
    forall j | 0 <= j < |p.placements|
      ensures !Overlaps(placed, p.placements[j].slot) && !Overlaps(p.placements[j].slot, placed)
      ensures forall x :: 0 <= x < |rest| ==> !Overlaps(rest[x], p.placements[j].slot)
    {
      WithinAvoids(placed, g, p.placements[j].slot);
      forall x | 0 <= x < |rest| ensures !Overlaps(rest[x], p.placements[j].slot) {
        WithinAvoids(rest[x], g, p.placements[j].slot);
      }
    }
  }

  /** One task keeps a carved state carved, when its duration is not negative. */
  lemma AdvanceKeepsCarved(pool0: seq<Interval>, p: PassResult, i: nat, t: Task)
    requires Carved(pool0, p)
    requires t.duration >= 0
    ensures Carved(pool0, Advance(p, i, t))
  {
    var step := PlaceOne(p.pool, t);
    if step.placed.Some? {
      var k := FirstFit(p.pool, t).value;
      var g := p.pool[k];
      var placed := step.placed.value;
      SlotSplits(g, t, g.start);
      CarveSlot(pool0, p, k, placed, Residual(g, t), i);
    }
  }

  /** Across a pass whose tasks have non-negative durations, placements are
      pairwise disjoint, avoid the slots still free, and each lies within one
      slot of the original free list (main.py:145-156). */
  lemma {:induction false} PlaceAllCarved(pool0: seq<Interval>, tasks: seq<Task>)
    requires PairwiseDisjoint(pool0)
    requires forall i :: 0 <= i < |tasks| ==> tasks[i].duration >= 0
    ensures Carved(pool0, PlaceAll(pool0, tasks))
    decreases |tasks|
  {
    if tasks == [] {
      assert forall i :: 0 <= i < |pool0| ==> Within(pool0[i], pool0[i]);
    } else {
      var n := |tasks| - 1;
      PlaceAllCarved(pool0, tasks[..n]);
      AdvanceKeepsCarved(pool0, PlaceAll(pool0, tasks[..n]), n, tasks[n]);
    }
  }

  // ---------------------------------------------------------------------------
  // The free list as main.py mutates it

  /** The `free_slots` list of `schedule_tasks`, updated in place. */
  class FreePool {
    var slots: seq<Interval>

    constructor (initial: seq<Interval>)
      ensures slots == initial
    {
      slots := initial;
    }

    /** One iteration of the task loop: scan the slots in list order, take the
        first that fits, remove it and append its residual. */
    method PlaceTask(t: Task) returns (placed: Option<Interval>)
      modifies this
      ensures Step(placed, slots) == PlaceOne(old(slots), t)
    {
      var free := slots;
      var k := 0;
      while k < |free|
        invariant 0 <= k <= |free|
        invariant forall j :: 0 <= j < k ==> !Fits(free[j], t)
      {
        var g := free[k];
        if g.end - g.start >= t.duration && g.end <= t.deadline {
          assert FirstFit(free, t) == Some(k);
          PlaceOneAt(free, t, k);
          var taskEnd := g.start + t.duration;
          placed := Some(Interval(g.start, taskEnd));
          free := RemoveFirst(free, g);
          if g.end - taskEnd > 0 {
            free := free + [Interval(taskEnd, g.end)];
          }
          slots := free;
          return;
        }
        k := k + 1;
      }
      PlaceOneNowhere(free, t);
      placed := None;
    }

    /** The task loop of `schedule_tasks`: every task in list order, reporting
        where each placed task went and which tasks found no slot. */
    method Schedule(tasks: seq<Task>) returns (placements: seq<Placement>, unplaced: seq<nat>)
      modifies this
      ensures PassResult(placements, unplaced, slots) == PlaceAll(old(slots), tasks)
    {
      placements, unplaced := [], [];
      for i := 0 to |tasks|
        invariant PassResult(placements, unplaced, slots) == PlaceAll(old(slots), tasks[..i])
      {
        assert tasks[..i + 1][..i] == tasks[..i];
        var placed := PlaceTask(tasks[i]);
        match placed {
          case None => unplaced := unplaced + [i];
          case Some(slot) => placements := placements + [Placement(i, slot)];
        }
      }
      assert tasks[..|tasks|] == tasks;
    }
  }

  // ---------------------------------------------------------------------------
  // Worked examples (instants in minutes after midnight)

  /** A 30-minute task due 09:30 goes to 08:00-08:30; the rest of that slot,
      08:30-09:00, is appended after 10:00-22:00. */
  lemma ShortTaskExample()
    ensures PlaceOne([Interval(480, 540), Interval(600, 1320)], Task("review", 30, 570)) ==
      Step(Some(Interval(480, 510)), [Interval(600, 1320), Interval(510, 540)])
  {
  }

  /** A 60-minute task due 08:30 fits nowhere; the free list is unchanged. */
  lemma NoSlotExample()
    ensures PlaceOne([Interval(480, 540), Interval(600, 1320)], Task("essay", 60, 510)) ==
      Step(None, [Interval(480, 540), Interval(600, 1320)])
  {
  }

  /** Two 45-minute tasks in a free 08:00-22:00 day go back to back. */
  lemma BackToBackExample()
    ensures var tasks := [Task("a", 45, 1320), Task("b", 45, 1320)];
      PlaceAll([Interval(480, 1320)], tasks) ==
        PassResult([Placement(0, Interval(480, 525)), Placement(1, Interval(525, 570))], [],
                   [Interval(570, 1320)])
  {
  }

  /** Appending the residual changes later choices: after the 30-minute task
      above, a 20-minute task goes to 10:00 although 08:30-09:00 is earlier. */
  lemma AppendedResidualExample()
    ensures var tasks := [Task("review", 30, 570), Task("call", 20, 1320)];
      PlaceAll([Interval(480, 540), Interval(600, 1320)], tasks).placements ==
        [Placement(0, Interval(480, 510)), Placement(1, Interval(600, 620))]
  {
  }
}
