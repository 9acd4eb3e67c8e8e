/**
 * The flexible prep placement of generate_schedule (backend/scheduler.py, "Schedule
 * flexible prep time"): for each working day, the free pieces left by the day's blocked
 * pieces and its sessions are searched for two contiguous pieces spanning an hour; failing
 * that, the first two free pieces are taken as two half hours; failing that, a conflict
 * is reported.
 */
module Prep {
  import opened Wrappers
  import opened Sorting
  import opened Students
  import opened Grid
  import opened Schedules

  const PrepMinutes := 60

  /** `scheduled_sessions`: (start, end) of the day's session entries, in schedule order. */
  function SessionPieces(schedule: seq<TimeSlot>, day: Day): seq<Piece>
  {
    if schedule == [] then []
    else
      var e := schedule[|schedule| - 1];
      SessionPieces(schedule[..|schedule| - 1], day) + (if e.day == day && e.kind.Session? then [(e.start, e.end)] else [])
  }

  /** A session entry of the day, seen as the piece it occupies. */
  predicate SessionOn(schedule: seq<TimeSlot>, day: Day, p: Piece)
  {
    exists e :: e in schedule && e.day == day && e.kind.Session? && p == (e.start, e.end)
  }

  /** The comprehension keeps exactly the sessions of the day (days compared exactly, not lower-cased). */
  lemma {:induction false} SessionPiecesExact(schedule: seq<TimeSlot>, day: Day, p: Piece)
    ensures p in SessionPieces(schedule, day) <==> SessionOn(schedule, day, p)
  {
    if schedule != [] {
      var init := schedule[..|schedule| - 1];
      var e := schedule[|schedule| - 1];
      SessionPiecesExact(init, day, p);
      assert schedule == init + [e];
      if SessionOn(schedule, day, p) {
        var e' :| e' in schedule && e'.day == day && e'.kind.Session? && p == (e'.start, e'.end);
        if e' != e {
          assert e' in init;
        }
      }
    }
  }

  /** Entries that are not sessions (the prep entries already placed) do not change what is collected. */
  lemma {:induction false} SessionPiecesIgnores(schedule: seq<TimeSlot>, extra: seq<TimeSlot>, day: Day)
    requires forall e :: e in extra ==> !e.kind.Session?
    ensures SessionPieces(schedule + extra, day) == SessionPieces(schedule, day)
  {
    if extra == [] {
      assert schedule + extra == schedule;
    } else {
      var init := extra[..|extra| - 1];
      var whole := schedule + extra;
      SessionPiecesIgnores(schedule, init, day);
      assert whole[..|whole| - 1] == schedule + init;
      assert whole[|whole| - 1] == extra[|extra| - 1];
      assert !whole[|whole| - 1].kind.Session?;
    }
  }

  /** `day_available`: the blocked pieces and the sessions, sorted by start, then generate_available_slots. */
  function PrepFree(workStart: int, workEnd: int, blocked: seq<Piece>, schedule: seq<TimeSlot>, day: Day): seq<Piece>
  {
    Available(workStart, workEnd, SortBy(blocked + SessionPieces(schedule, day), StartKey), SlotDuration)
  }

  /** The source sorts before generate_available_slots sorts again; the first sort is redundant. */
  lemma PrepSortRedundant(workStart: int, workEnd: int, blocked: seq<Piece>, schedule: seq<TimeSlot>, day: Day)
    ensures PrepFree(workStart, workEnd, blocked, schedule, day)
         == Available(workStart, workEnd, blocked + SessionPieces(schedule, day), SlotDuration)
  {
    var all := blocked + SessionPieces(schedule, day);
    SortByCorrect(all, StartKey);
    SortBySorted(SortBy(all, StartKey), StartKey);
  }

  /** `slot1[1] == slot2[0] and (slot2[1] - slot1[0]) >= 60` for the pieces at i and i + 1. */
  predicate HourAt(avail: seq<Piece>, i: int)
  {
    0 <= i < |avail| - 1 && avail[i].1 == avail[i + 1].0 && avail[i + 1].1 - avail[i].0 >= PrepMinutes
  }

  /** The first index from i on where an hour starts: the `for i in range(len - 1)` with `break`. */
  function FirstHourFrom(avail: seq<Piece>, i: nat): (r: Option<nat>)
    ensures r.Some? ==> i <= r.value && HourAt(avail, r.value)
    ensures forall j :: i <= j && (r.None? || j < r.value) ==> !HourAt(avail, j)
    decreases |avail| - i
  {
    if i + 1 >= |avail| then None
    else if HourAt(avail, i) then Some(i)
    else FirstHourFrom(avail, i + 1)
  }

  /** The fallback test: two free pieces whose span, from the first start to the second end, is an hour. */
  predicate FallbackFits(avail: seq<Piece>)
  {
    |avail| >= 2 && avail[1].1 - avail[0].0 >= PrepMinutes
  }

  /** The prep entries placed on a day with the given free pieces; [] means the conflict is reported. */
  function PrepEntries(day: Day, avail: seq<Piece>): seq<TimeSlot>
  {
    match FirstHourFrom(avail, 0)
    case Some(i) => [TimeSlot(day, avail[i].0, avail[i].0 + PrepMinutes, Prep)]
    case None =>
      if FallbackFits(avail) then
        [TimeSlot(day, avail[0].0, avail[0].0 + 30, Prep), TimeSlot(day, avail[0].0 + 30, avail[0].0 + 60, Prep)]
      else []
  }

  /**
   * Prep is one hour on the day: a single hour-long entry, or two contiguous half hours;
   * nothing is placed exactly when neither test succeeds anywhere.
   */
  lemma PrepEntriesShape(day: Day, avail: seq<Piece>)
    ensures var r := PrepEntries(day, avail);
      (r == [] <==> (forall j :: !HourAt(avail, j)) && !FallbackFits(avail))
      && (forall e :: e in r ==> e.day == day && e.kind == Prep)
      && (|r| == 1 ==> r[0].end - r[0].start == PrepMinutes)
      && (|r| == 2 ==> r[0].end == r[1].start && r[0].end - r[0].start == 30 && r[1].end - r[1].start == 30)
      && (r == [] || |r| == 1 || |r| == 2)
  {
  }

  /** An hour found by the first test lies wholly inside the free pieces. */
  lemma PrepHourCovered(day: Day, avail: seq<Piece>)
    requires FirstHourFrom(avail, 0).Some?
    ensures var r := PrepEntries(day, avail);
      |r| == 1 && forall t :: r[0].start <= t < r[0].end ==> Covers(avail, t)
  {
    var i := FirstHourFrom(avail, 0).value;
    var r := PrepEntries(day, avail);
    forall t | r[0].start <= t < r[0].end ensures Covers(avail, t) {
      if t < avail[i].1 {
        assert InPiece(t, avail[i]);
      } else {
        assert InPiece(t, avail[i + 1]);
      }
    }
  }

  /**
   * When every blocked piece and session starts by the end of the working window, an hour
   * found by the first test is inside the window, clear of every blocked piece, and shares
   * no minute with any session of the day.
   */
  lemma PrepHourClear(workStart: int, workEnd: int, blocked: seq<Piece>, schedule: seq<TimeSlot>, day: Day)
    requires forall p :: p in blocked + SessionPieces(schedule, day) ==> p.0 <= workEnd
    requires FirstHourFrom(PrepFree(workStart, workEnd, blocked, schedule, day), 0).Some?
    ensures var r := PrepEntries(day, PrepFree(workStart, workEnd, blocked, schedule, day));
      |r| == 1 &&
      forall t :: r[0].start <= t < r[0].end ==>
        Within(t, workStart, workEnd) && !Covers(blocked, t) &&
        forall e :: e in schedule && e.day == day && e.kind.Session? ==> !Within(t, e.start, e.end)
  {
    var all := blocked + SessionPieces(schedule, day);
    var avail := PrepFree(workStart, workEnd, blocked, schedule, day);
    PrepSortRedundant(workStart, workEnd, blocked, schedule, day);
    AvailableCorrect(workStart, workEnd, all, SlotDuration);
    PrepHourCovered(day, avail);
    var r := PrepEntries(day, avail);
    forall t | r[0].start <= t < r[0].end
      ensures Within(t, workStart, workEnd) && !Covers(blocked, t)
      ensures forall e :: e in schedule && e.day == day && e.kind.Session? ==> !Within(t, e.start, e.end)
    {
      assert Covers(avail, t);
      CoversConcat(blocked, SessionPieces(schedule, day), t);
      forall e | e in schedule && e.day == day && e.kind.Session? ensures !Within(t, e.start, e.end) {
        SessionPiecesExact(schedule, day, (e.start, e.end));
        assert !InPiece(t, (e.start, e.end));
      }
    }
  }

  /**
   * The fallback does not look at what lies between the first two free pieces.  With
   * working hours [workStart, workStart + 120), lunch at workStart + 30 and nothing else
   * blocked, the free pieces are [workStart, lunch) and [lunch + 60, lunch + 90); no hour is
   * contiguous, and the second half hour of prep is placed at [lunch, lunch + 30), inside lunch.
   */
  lemma PrepFallbackOverlapsLunch(workStart: int, day: Day)
    ensures var lunch := workStart + 30;
      var workEnd := workStart + 120;
      var blocked := BlockedPieces([], day, workStart, workEnd, SlotDuration) + Chop(lunch, lunch + LunchMinutes, SlotDuration);
      var avail := PrepFree(workStart, workEnd, blocked, [], day);
      avail == [(workStart, lunch), (lunch + 60, workEnd)]
      && PrepEntries(day, avail) == [TimeSlot(day, workStart, lunch, Prep), TimeSlot(day, lunch, lunch + 30, Prep)]
      && Overlaps(lunch, lunch + 30, lunch, lunch + LunchMinutes)
  {
    var lunch := workStart + 30;
    var workEnd := workStart + 120;
    var pieces := [(lunch, lunch + 30), (lunch + 30, lunch + 60)];
    assert Chop(lunch + 30, lunch + 60, 30) == [(lunch + 30, lunch + 60)] + Chop(lunch + 60, lunch + 60, 30);
    assert Chop(lunch, lunch + 60, 30) == pieces;
    assert BlockedPieces([], day, workStart, workEnd, SlotDuration) + pieces + SessionPieces([], day) == pieces;
    assert SortBy(pieces, StartKey) == pieces by {
      assert pieces[1..] == [(lunch + 30, lunch + 60)];
      assert SortBy(pieces[1..], StartKey) == [(lunch + 30, lunch + 60)];
    }
    assert Chop(lunch + 60, workEnd, 30) == [(lunch + 60, workEnd)] + Chop(workEnd, workEnd, 30);
    assert Gaps(lunch + 60, [], workEnd, 30) == [(lunch + 60, workEnd)];
    assert Gaps(lunch + 30, pieces[1..], workEnd, 30) == [(lunch + 60, workEnd)];
    assert Chop(workStart, lunch, 30) == [(workStart, lunch)] + Chop(lunch, lunch, 30);
    assert Gaps(workStart, pieces, workEnd, 30) == [(workStart, lunch)] + Gaps(lunch + 30, pieces[1..], workEnd, 30);
    var avail := [(workStart, lunch), (lunch + 60, workEnd)];
    assert !HourAt(avail, 0);
    assert FirstHourFrom(avail, 1) == None;
  }

  /** The search on one day's free pieces: the loop with `break`, then the fallback. */
  method PlacePrep(day: Day, avail: seq<Piece>) returns (entries: seq<TimeSlot>)
    ensures entries == PrepEntries(day, avail)
  {
    entries := [];
    var scheduled := false;
    var i := 0;
    while i + 1 < |avail|
      invariant 0 <= i && FirstHourFrom(avail, 0) == FirstHourFrom(avail, i)
    {
      var slot1, slot2 := avail[i], avail[i + 1];
      if slot1.1 == slot2.0 && slot2.1 - slot1.0 >= PrepMinutes {
        entries := [TimeSlot(day, slot1.0, slot1.0 + PrepMinutes, Prep)];
        scheduled := true;
        break;
      }
      i := i + 1;
    }
    if !scheduled && |avail| >= 2 {
      var slot1, slot2 := avail[0], avail[1];
      if slot2.1 - slot1.0 >= PrepMinutes {
        entries := [TimeSlot(day, slot1.0, slot1.0 + 30, Prep), TimeSlot(day, slot1.0 + 30, slot1.0 + 60, Prep)];
      }
    }
  }

  /** The prep entries for one day of the request, from the day's entry in `blocked_by_day`. */
  function DayPrep(workStart: int, workEnd: int, blockedByDay: map<Day, seq<Piece>>, schedule: seq<TimeSlot>, day: Day)
    : seq<TimeSlot>
    requires day in blockedByDay
  {
    PrepEntries(day, PrepFree(workStart, workEnd, blockedByDay[day], schedule, day))
  }

  /** The entries and conflicts of the loop over the days, given the schedule before prep. */
  function PrepPlan(days: seq<Day>, workStart: int, workEnd: int, blockedByDay: map<Day, seq<Piece>>, schedule: seq<TimeSlot>)
    : (seq<TimeSlot>, seq<Conflict>)
    requires forall d :: d in days ==> d in blockedByDay
  {
    if days == [] then ([], [])
    else
      var day := days[|days| - 1];
      var plan := PrepPlan(days[..|days| - 1], workStart, workEnd, blockedByDay, schedule);
      var placed := DayPrep(workStart, workEnd, blockedByDay, schedule, day);
      if placed == [] then (plan.0, plan.1 + [PrepMissing(day)]) else (plan.0 + placed, plan.1)
  }

  /**
   * Each working day gets its prep entries or a conflict naming it, never both; every entry
   * is prep placed for its own day, and every conflict is a PrepMissing of a working day.
   */
  lemma {:induction false} PrepPlanExact(days: seq<Day>, workStart: int, workEnd: int, blockedByDay: map<Day, seq<Piece>>,
                                         schedule: seq<TimeSlot>)
    requires forall d :: d in days ==> d in blockedByDay
    ensures var plan := PrepPlan(days, workStart, workEnd, blockedByDay, schedule);
      (forall c :: c in plan.1 <==> c.PrepMissing? && c.day in days && DayPrep(workStart, workEnd, blockedByDay, schedule, c.day) == [])
      && (forall e :: e in plan.0 <==> e.day in days && e in DayPrep(workStart, workEnd, blockedByDay, schedule, e.day))
  {
    if days != [] {
      var init := days[..|days| - 1];
      var day := days[|days| - 1];
      PrepPlanExact(init, workStart, workEnd, blockedByDay, schedule);
      assert days == init + [day];
      forall d | d in days ensures d in init || d == day {
      }
      PrepEntriesShape(day, PrepFree(workStart, workEnd, blockedByDay[day], schedule, day));
      var plan := PrepPlan(days, workStart, workEnd, blockedByDay, schedule);
      forall e: TimeSlot | e in plan.0 ensures e.day in days && e in DayPrep(workStart, workEnd, blockedByDay, schedule, e.day) {
        if e !in PrepPlan(init, workStart, workEnd, blockedByDay, schedule).0 {
          assert e in DayPrep(workStart, workEnd, blockedByDay, schedule, day);
        }
      }
      forall e: TimeSlot | e.day in days && e in DayPrep(workStart, workEnd, blockedByDay, schedule, e.day) ensures e in plan.0 {
        if e.day != day {
          assert e.day in init;
        }
      }
    }
  }

  /** Every entry of the plan is a prep entry, so no later day's session list changes. */
  lemma {:induction false} PrepPlanOnlyPrep(days: seq<Day>, workStart: int, workEnd: int, blockedByDay: map<Day, seq<Piece>>,
                                            schedule: seq<TimeSlot>)
    requires forall d :: d in days ==> d in blockedByDay
    ensures forall e :: e in PrepPlan(days, workStart, workEnd, blockedByDay, schedule).0 ==> e.kind == Prep
  {
    if days != [] {
      var day := days[|days| - 1];
      PrepPlanOnlyPrep(days[..|days| - 1], workStart, workEnd, blockedByDay, schedule);
      PrepEntriesShape(day, PrepFree(workStart, workEnd, blockedByDay[day], schedule, day));
    }
  }

  /** One more day of the plan; the sessions read from the grown schedule are those read from the original one. */
  lemma PrepPlanStep(days: seq<Day>, i: int, workStart: int, workEnd: int, blockedByDay: map<Day, seq<Piece>>,
                     schedule: seq<TimeSlot>)
    requires 0 <= i < |days| && forall d :: d in days ==> d in blockedByDay
    ensures forall d :: d in days[..i] ==> d in blockedByDay
    ensures forall d :: d in days[..i + 1] ==> d in blockedByDay
    ensures var plan := PrepPlan(days[..i], workStart, workEnd, blockedByDay, schedule);
      var placed := PrepEntries(days[i], PrepFree(workStart, workEnd, blockedByDay[days[i]], schedule + plan.0, days[i]));
      var next := PrepPlan(days[..i + 1], workStart, workEnd, blockedByDay, schedule);
      next.0 == (if placed == [] then plan.0 else plan.0 + placed)
      && next.1 == (if placed == [] then plan.1 + [PrepMissing(days[i])] else plan.1)
  {
    var plan := PrepPlan(days[..i], workStart, workEnd, blockedByDay, schedule);
    assert days[..i + 1][..i] == days[..i] && days[..i + 1][i] == days[i];
    PrepPlanOnlyPrep(days[..i], workStart, workEnd, blockedByDay, schedule);
    SessionPiecesIgnores(schedule, plan.0, days[i]);
  }

  /** One day of the loop: collect the sessions, sort them in with the blocked pieces, search. */
  method PrepForDay(workStart: int, workEnd: int, blocked: seq<Piece>, schedule: seq<TimeSlot>, day: Day)
    returns (placed: seq<TimeSlot>)
    ensures placed == PrepEntries(day, PrepFree(workStart, workEnd, blocked, schedule, day))
  {
    var sessions := SessionPieces(schedule, day);
    var allBlocked := blocked + sessions;
    allBlocked := SortBy(allBlocked, StartKey);
    var dayAvailable := GenerateAvailableSlots(workStart, workEnd, allBlocked, SlotDuration);
    placed := PlacePrep(day, dayAvailable);
  }

  /** The body of the loop for the i-th working day. */
  method PrepStep(days: seq<Day>, i: int, workStart: int, workEnd: int, blockedByDay: map<Day, seq<Piece>>,
                  ghost schedule: seq<TimeSlot>, current: seq<TimeSlot>, ghost conflicts: seq<Conflict>, found: seq<Conflict>)
    returns (current': seq<TimeSlot>, found': seq<Conflict>)
    requires 0 <= i < |days| && forall d :: d in days ==> d in blockedByDay
    requires forall d :: d in days[..i] ==> d in blockedByDay
    requires current == schedule + PrepPlan(days[..i], workStart, workEnd, blockedByDay, schedule).0
    requires found == conflicts + PrepPlan(days[..i], workStart, workEnd, blockedByDay, schedule).1
    ensures forall d :: d in days[..i + 1] ==> d in blockedByDay
    ensures current' == schedule + PrepPlan(days[..i + 1], workStart, workEnd, blockedByDay, schedule).0
    ensures found' == conflicts + PrepPlan(days[..i + 1], workStart, workEnd, blockedByDay, schedule).1
  {
    var day := days[i];
    PrepPlanStep(days, i, workStart, workEnd, blockedByDay, schedule);
    ghost var plan := PrepPlan(days[..i], workStart, workEnd, blockedByDay, schedule);
    var placed := PrepForDay(workStart, workEnd, blockedByDay[day], current, day);
    current', found' := current, found;
    if placed == [] {
      found' := found + [PrepMissing(day)];
      AppendAssoc(conflicts, plan.1, [PrepMissing(day)]);
    } else {
      current' := current + placed;
      AppendAssoc(schedule, plan.0, placed);
    }
  }

  /**
   * The loop over the working days, appending prep entries to the schedule and conflicts to
   * the conflicts.  The sessions are collected from the schedule as it grows, which the
   * already placed prep entries do not affect.
   */
  method PlaceAllPrep(days: seq<Day>, workStart: int, workEnd: int, blockedByDay: map<Day, seq<Piece>>,
                      schedule: seq<TimeSlot>, conflicts: seq<Conflict>)
    returns (schedule': seq<TimeSlot>, conflicts': seq<Conflict>)
    requires forall d :: d in days ==> d in blockedByDay
    ensures schedule' == schedule + PrepPlan(days, workStart, workEnd, blockedByDay, schedule).0
    ensures conflicts' == conflicts + PrepPlan(days, workStart, workEnd, blockedByDay, schedule).1
  {
    schedule', conflicts' := schedule, conflicts;
    assert schedule + [] == schedule && conflicts + [] == conflicts;
    for i := 0 to |days|
      invariant forall d :: d in days[..i] ==> d in blockedByDay
      invariant schedule' == schedule + PrepPlan(days[..i], workStart, workEnd, blockedByDay, schedule).0
      invariant conflicts' == conflicts + PrepPlan(days[..i], workStart, workEnd, blockedByDay, schedule).1
    {
      schedule', conflicts' := PrepStep(days, i, workStart, workEnd, blockedByDay, schedule, schedule', conflicts, conflicts');
    }
    assert days[..|days|] == days;
  }
}
