/**
 * generate_schedule of backend/scheduler.py from end to end: the lunch entries, the
 * blocked pieces and free pieces of every working day, the display entries of the
 * students' blocked times, the daily and the weekly pass, prep placement, the
 * requirement check, the final sort and the response.
 */
module Scheduler {
  import opened Wrappers
  import opened Sorting
  import opened Students
  import opened Grid
  import opened Schedules
  import opened Allocation
  import opened Requirements
  import opened Prep

  // ---------------------------------------------------------------------------------
  // Lunch
  // ---------------------------------------------------------------------------------

  /** One lunch entry [lunch, lunch + 60) per working day, in the order of the days. */
  function LunchEntries(days: seq<Day>, lunch: int): seq<TimeSlot>
  {
    if days == [] then []
    else LunchEntries(days[..|days| - 1], lunch) + [TimeSlot(days[|days| - 1], lunch, lunch + LunchMinutes, Lunch)]
  }

  /** Every working day gets its lunch hour, and nothing else is added. */
  lemma {:induction false} LunchEntriesExact(days: seq<Day>, lunch: int, e: TimeSlot)
    ensures |LunchEntries(days, lunch)| == |days|
    ensures e in LunchEntries(days, lunch) <==> e.day in days && e == TimeSlot(e.day, lunch, lunch + LunchMinutes, Lunch)
  {
    if days != [] {
      var init := days[..|days| - 1];
      LunchEntriesExact(init, lunch, e);
      assert days == init + [days[|days| - 1]];
    }
  }

  method AddLunch(days: seq<Day>, lunch: int) returns (schedule: seq<TimeSlot>)
    ensures schedule == LunchEntries(days, lunch)
  {
    schedule := [];
    for i := 0 to |days|
      invariant schedule == LunchEntries(days[..i], lunch)
    {
      assert days[..i + 1][..i] == days[..i] && days[..i + 1][i] == days[i];
      schedule := schedule + [TimeSlot(days[i], lunch, lunch + LunchMinutes, Lunch)];
    }
    assert days[..|days|] == days;
  }

  // ---------------------------------------------------------------------------------
  // blocked_by_day and available_by_day
  // ---------------------------------------------------------------------------------

  /** `blocked_by_day[day]`: the students' pieces of the day, then the pieces of the lunch hour. */
  function DayBlocked(req: ScheduleRequest, day: Day): seq<Piece>
  {
    var wh := req.workingHours;
    BlockedPieces(req.students, day, wh.startTime, wh.endTime, SlotDuration)
    + Chop(req.lunchTime, req.lunchTime + LunchMinutes, SlotDuration)
  }

  /** Lunch is blocked on every day, whatever the working hours. */
  lemma LunchBlocked(req: ScheduleRequest, day: Day, t: int)
    requires Within(t, req.lunchTime, req.lunchTime + LunchMinutes)
    ensures Covers(DayBlocked(req, day), t)
  {
    var wh := req.workingHours;
    ChopCovers(req.lunchTime, req.lunchTime + LunchMinutes, SlotDuration);
    CoversConcat(BlockedPieces(req.students, day, wh.startTime, wh.endTime, SlotDuration),
                 Chop(req.lunchTime, req.lunchTime + LunchMinutes, SlotDuration), t);
  }

  method BuildBlockedByDay(req: ScheduleRequest) returns (blockedByDay: map<Day, seq<Piece>>)
    ensures forall d :: d in blockedByDay <==> d in req.workingHours.days
    ensures forall d :: d in blockedByDay ==> blockedByDay[d] == DayBlocked(req, d)
  {
    var wh := req.workingHours;
    blockedByDay := map[];
    for i := 0 to |wh.days|
      invariant forall d :: d in blockedByDay <==> d in wh.days[..i]
      invariant forall d :: d in blockedByDay ==> blockedByDay[d] == DayBlocked(req, d)
    {
      var day := wh.days[i];
      assert forall d :: d in wh.days[..i + 1] <==> d in wh.days[..i] || d == day;
      var pieces := GetBlockedSlotsForDay(day, req.students, wh.startTime, wh.endTime, SlotDuration);
      pieces := AppendChopped(pieces, req.lunchTime, req.lunchTime + LunchMinutes, SlotDuration);
      blockedByDay := blockedByDay[day := pieces];
    }
    assert wh.days[..|wh.days|] == wh.days;
  }

  /** `available_by_day`: the free pieces of every working day. */
  function AvailableByDay(req: ScheduleRequest): map<Day, seq<Piece>>
  {
    map d | d in req.workingHours.days :: Available(req.workingHours.startTime, req.workingHours.endTime, DayBlocked(req, d), SlotDuration)
  }

  method BuildAvailableByDay(req: ScheduleRequest, blockedByDay: map<Day, seq<Piece>>)
    returns (availableByDay: map<Day, seq<Piece>>)
    requires forall d :: d in req.workingHours.days ==> d in blockedByDay && blockedByDay[d] == DayBlocked(req, d)
    ensures forall d :: d in availableByDay <==> d in req.workingHours.days
    ensures forall d :: d in availableByDay ==>
      availableByDay[d] == Available(req.workingHours.startTime, req.workingHours.endTime, DayBlocked(req, d), SlotDuration)
    ensures AllWellFormed(availableByDay) && availableByDay == AvailableByDay(req)
  {
    var wh := req.workingHours;
    availableByDay := map[];
    for i := 0 to |wh.days|
      invariant forall d :: d in availableByDay <==> d in wh.days[..i]
      invariant forall d :: d in availableByDay ==>
        availableByDay[d] == Available(wh.startTime, wh.endTime, DayBlocked(req, d), SlotDuration)
      invariant AllWellFormed(availableByDay)
    {
      var day := wh.days[i];
      assert forall d :: d in wh.days[..i + 1] <==> d in wh.days[..i] || d == day;
      var slots := GenerateAvailableSlots(wh.startTime, wh.endTime, blockedByDay[day], SlotDuration);
      AvailableShape(wh.startTime, wh.endTime, DayBlocked(req, day), SlotDuration);
      availableByDay := availableByDay[day := slots];
    }
    assert wh.days[..|wh.days|] == wh.days;
    assert availableByDay.Keys == AvailableByDay(req).Keys;
  }

  // ---------------------------------------------------------------------------------
  // The display entries of the blocked times
  // ---------------------------------------------------------------------------------

  /** A blocked time is shown on a day it matches when it reaches into the window, clipped to it. */
  predicate ShowsTime(bt: BlockedTime, day: Day, workStart: int, workEnd: int, e: TimeSlot)
  {
    SameDay(bt.day, day) && bt.end > workStart && bt.start < workEnd &&
    e == TimeSlot(day, Max(bt.start, workStart), Min(bt.end, workEnd), Blocked(bt.labelText))
  }

  function ShownTimes(times: seq<BlockedTime>, day: Day, workStart: int, workEnd: int): seq<TimeSlot>
  {
    if times == [] then []
    else
      var bt := times[|times| - 1];
      ShownTimes(times[..|times| - 1], day, workStart, workEnd)
      + (if SameDay(bt.day, day) && bt.end > workStart && bt.start < workEnd
         then [TimeSlot(day, Max(bt.start, workStart), Min(bt.end, workEnd), Blocked(bt.labelText))] else [])
  }

  function ShownStudents(students: seq<StudentEntry>, day: Day, workStart: int, workEnd: int): seq<TimeSlot>
  {
    if students == [] then []
    else ShownStudents(students[..|students| - 1], day, workStart, workEnd)
         + ShownTimes(students[|students| - 1].schedule.blockedTimes, day, workStart, workEnd)
  }

  /** The entries the loop over days, students and blocked times appends, in that order. */
  function ShownBlocked(days: seq<Day>, students: seq<StudentEntry>, workStart: int, workEnd: int): seq<TimeSlot>
  {
    if days == [] then []
    else ShownBlocked(days[..|days| - 1], students, workStart, workEnd)
         + ShownStudents(students, days[|days| - 1], workStart, workEnd)
  }

  predicate ShowsAmong(times: seq<BlockedTime>, day: Day, workStart: int, workEnd: int, e: TimeSlot)
  {
    exists j :: 0 <= j < |times| && ShowsTime(times[j], day, workStart, workEnd, e)
  }

  predicate ShowsStudent(students: seq<StudentEntry>, day: Day, workStart: int, workEnd: int, e: TimeSlot)
  {
    exists k :: 0 <= k < |students| && ShowsAmong(students[k].schedule.blockedTimes, day, workStart, workEnd, e)
  }

  /** Some blocked time of some student is shown as e on some working day. */
  predicate Shows(days: seq<Day>, students: seq<StudentEntry>, workStart: int, workEnd: int, e: TimeSlot)
  {
    exists i :: 0 <= i < |days| && ShowsStudent(students, days[i], workStart, workEnd, e)
  }

  /** Being shown by a list of blocked times: by all but the last, or by the last. */
  lemma AmongLast(times: seq<BlockedTime>, day: Day, workStart: int, workEnd: int, e: TimeSlot)
    requires times != []
    ensures ShowsAmong(times, day, workStart, workEnd, e) <==>
      ShowsAmong(times[..|times| - 1], day, workStart, workEnd, e) || ShowsTime(times[|times| - 1], day, workStart, workEnd, e)
  {
    var n := |times| - 1;
    var init := times[..n];
    if ShowsAmong(init, day, workStart, workEnd, e) {
      var j :| 0 <= j < |init| && ShowsTime(init[j], day, workStart, workEnd, e);
      assert init[j] == times[j];
    }
    if ShowsAmong(times, day, workStart, workEnd, e) {
      var j :| 0 <= j < |times| && ShowsTime(times[j], day, workStart, workEnd, e);
      if j < n {
        assert init[j] == times[j];
      }
    }
  }

  lemma {:induction false} ShownTimesExact(times: seq<BlockedTime>, day: Day, workStart: int, workEnd: int, e: TimeSlot)
    ensures e in ShownTimes(times, day, workStart, workEnd) <==> ShowsAmong(times, day, workStart, workEnd, e)
  {
    if times != [] {
      ShownTimesExact(times[..|times| - 1], day, workStart, workEnd, e);
      AmongLast(times, day, workStart, workEnd, e);
    }
  }

  /** Being shown for a list of students: for all but the last, or for the last. */
  lemma StudentLast(students: seq<StudentEntry>, day: Day, workStart: int, workEnd: int, e: TimeSlot)
    requires students != []
    ensures ShowsStudent(students, day, workStart, workEnd, e) <==>
      ShowsStudent(students[..|students| - 1], day, workStart, workEnd, e) ||
      ShowsAmong(students[|students| - 1].schedule.blockedTimes, day, workStart, workEnd, e)
  {
    var n := |students| - 1;
    var init := students[..n];
    if ShowsStudent(init, day, workStart, workEnd, e) {
      var k :| 0 <= k < |init| && ShowsAmong(init[k].schedule.blockedTimes, day, workStart, workEnd, e);
      assert init[k] == students[k];
    }
    if ShowsStudent(students, day, workStart, workEnd, e) {
      var k :| 0 <= k < |students| && ShowsAmong(students[k].schedule.blockedTimes, day, workStart, workEnd, e);
      if k < n {
        assert init[k] == students[k];
      }
    }
  }

  lemma {:induction false} ShownStudentsExact(students: seq<StudentEntry>, day: Day, workStart: int, workEnd: int, e: TimeSlot)
    ensures e in ShownStudents(students, day, workStart, workEnd) <==> ShowsStudent(students, day, workStart, workEnd, e)
  {
    if students != [] {
      var n := |students| - 1;
      ShownStudentsExact(students[..n], day, workStart, workEnd, e);
      ShownTimesExact(students[n].schedule.blockedTimes, day, workStart, workEnd, e);
      StudentLast(students, day, workStart, workEnd, e);
    }
  }

  /** Being shown on a list of days: on all but the last, or on the last. */
  lemma DayLast(days: seq<Day>, students: seq<StudentEntry>, workStart: int, workEnd: int, e: TimeSlot)
    requires days != []
    ensures Shows(days, students, workStart, workEnd, e) <==>
      Shows(days[..|days| - 1], students, workStart, workEnd, e) || ShowsStudent(students, days[|days| - 1], workStart, workEnd, e)
  {
    var n := |days| - 1;
    var init := days[..n];
    if Shows(init, students, workStart, workEnd, e) {
      var i :| 0 <= i < |init| && ShowsStudent(students, init[i], workStart, workEnd, e);
      assert init[i] == days[i];
    }
    if Shows(days, students, workStart, workEnd, e) {
      var i :| 0 <= i < |days| && ShowsStudent(students, days[i], workStart, workEnd, e);
      if i < n {
        assert init[i] == days[i];
      }
    }
  }

  /** An entry is shown exactly when some student's blocked time reaches into the window on some working day. */
  lemma {:induction false} ShownBlockedExact(days: seq<Day>, students: seq<StudentEntry>, workStart: int, workEnd: int, e: TimeSlot)
    ensures e in ShownBlocked(days, students, workStart, workEnd) <==> Shows(days, students, workStart, workEnd, e)
  {
    if days != [] {
      var n := |days| - 1;
      var init := days[..n];
      ShownBlockedExact(init, students, workStart, workEnd, e);
      ShownStudentsExact(students, days[n], workStart, workEnd, e);
      assert ShownBlocked(days, students, workStart, workEnd)
          == ShownBlocked(init, students, workStart, workEnd) + ShownStudents(students, days[n], workStart, workEnd);
      DayLast(days, students, workStart, workEnd, e);
    }
  }

  /** Every shown entry is a labelled blocked entry of a working day, inside the working window. */
  lemma ShownInWindow(days: seq<Day>, students: seq<StudentEntry>, workStart: int, workEnd: int, e: TimeSlot)
    requires e in ShownBlocked(days, students, workStart, workEnd)
    ensures e.kind.Blocked? && e.day in days
    ensures workStart <= e.start && e.end <= workEnd
    ensures workStart < workEnd ==> e.start < workEnd && workStart < e.end
  {
    ShownBlockedExact(days, students, workStart, workEnd, e);
    var i :| 0 <= i < |days| && ShowsStudent(students, days[i], workStart, workEnd, e);
    var k :| 0 <= k < |students| && ShowsAmong(students[k].schedule.blockedTimes, days[i], workStart, workEnd, e);
    var j :| 0 <= j < |students[k].schedule.blockedTimes| &&
      ShowsTime(students[k].schedule.blockedTimes[j], days[i], workStart, workEnd, e);
  }

  method ShowTimes(times: seq<BlockedTime>, day: Day, workStart: int, workEnd: int, schedule: seq<TimeSlot>)
    returns (schedule': seq<TimeSlot>)
    ensures schedule' == schedule + ShownTimes(times, day, workStart, workEnd)
  {
    schedule' := schedule;
    for j := 0 to |times|
      invariant schedule' == schedule + ShownTimes(times[..j], day, workStart, workEnd)
    {
      var bt := times[j];
      assert times[..j + 1][..j] == times[..j] && times[..j + 1][j] == bt;
      if SameDay(bt.day, day) && bt.end > workStart && bt.start < workEnd {
        var entry := TimeSlot(day, Max(bt.start, workStart), Min(bt.end, workEnd), Blocked(bt.labelText));
        AppendAssoc(schedule, ShownTimes(times[..j], day, workStart, workEnd), [entry]);
        schedule' := schedule' + [entry];
      }
    }
    assert times[..|times|] == times;
  }

  method ShowStudents(students: seq<StudentEntry>, day: Day, workStart: int, workEnd: int, schedule: seq<TimeSlot>)
    returns (schedule': seq<TimeSlot>)
    ensures schedule' == schedule + ShownStudents(students, day, workStart, workEnd)
  {
    schedule' := schedule;
    for k := 0 to |students|
      invariant schedule' == schedule + ShownStudents(students[..k], day, workStart, workEnd)
    {
      assert students[..k + 1][..k] == students[..k] && students[..k + 1][k] == students[k];
      AppendAssoc(schedule, ShownStudents(students[..k], day, workStart, workEnd),
                  ShownTimes(students[k].schedule.blockedTimes, day, workStart, workEnd));
      schedule' := ShowTimes(students[k].schedule.blockedTimes, day, workStart, workEnd, schedule');
    }
    assert students[..|students|] == students;
  }

  method ShowBlocked(days: seq<Day>, students: seq<StudentEntry>, workStart: int, workEnd: int, schedule: seq<TimeSlot>)
    returns (schedule': seq<TimeSlot>)
    ensures schedule' == schedule + ShownBlocked(days, students, workStart, workEnd)
  {
    schedule' := schedule;
    for i := 0 to |days|
      invariant schedule' == schedule + ShownBlocked(days[..i], students, workStart, workEnd)
    {
      assert days[..i + 1][..i] == days[..i] && days[..i + 1][i] == days[i];
      AppendAssoc(schedule, ShownBlocked(days[..i], students, workStart, workEnd),
                  ShownStudents(students, days[i], workStart, workEnd));
      schedule' := ShowStudents(students, days[i], workStart, workEnd, schedule');
    }
    assert days[..|days|] == days;
  }

  // ---------------------------------------------------------------------------------
  // The final sort
  // ---------------------------------------------------------------------------------

  /** `day_order.get(day, 999)`: the comprehension keeps the last index of a repeated day. */
  function DayOrder(days: seq<Day>, day: Day): (r: int)
    ensures day in days ==> 0 <= r < |days| && days[r] == day && forall k :: r < k < |days| ==> days[k] != day
    ensures day !in days ==> r == 999
  {
    if days == [] then 999
    else if days[|days| - 1] == day then |days| - 1
    else
      var r := DayOrder(days[..|days| - 1], day);
      assert day in days ==> day in days[..|days| - 1] by {
        if day in days {
          var k :| 0 <= k < |days| && days[k] == day;
          assert days[..|days| - 1][k] == day;
        }
      }
      r
  }

  /** The key of the final sort: the day's position in the week, then the start minute. */
  function ScheduleKey(days: seq<Day>): TimeSlot -> Key
  {
    (s: TimeSlot) => (DayOrder(days, s.day), s.start)
  }

  /**
   * With the key sorted by, entries on an earlier working day come first, and on the same
   * day the earlier start comes first.
   */
  lemma SortedScheduleOrder(days: seq<Day>, schedule: seq<TimeSlot>, i: int, j: int)
    requires SortedBy(schedule, ScheduleKey(days)) && 0 <= i < j < |schedule|
    requires schedule[i].day in days && schedule[j].day in days
    ensures DayOrder(days, schedule[i].day) <= DayOrder(days, schedule[j].day)
    ensures schedule[i].day == schedule[j].day ==> schedule[i].start <= schedule[j].start
  {
    assert KeyLe(ScheduleKey(days)(schedule[i]), ScheduleKey(days)(schedule[j]));
  }

  // ---------------------------------------------------------------------------------
  // generate_schedule
  // ---------------------------------------------------------------------------------

  /** The entries placed before prep: lunch, the shown blocked times, the daily and the weekly sessions. */
  function BeforePrep(req: ScheduleRequest, daily: seq<TimeSlot>, weekly: seq<TimeSlot>): seq<TimeSlot>
  {
    var wh := req.workingHours;
    LunchEntries(wh.days, req.lunchTime) + ShownBlocked(wh.days, req.students, wh.startTime, wh.endTime) + daily + weekly
  }

  /** The prep entries and the prep conflicts; none when prep is not required. */
  function PrepOutcome(req: ScheduleRequest, blockedByDay: map<Day, seq<Piece>>, before: seq<TimeSlot>)
    : (seq<TimeSlot>, seq<Conflict>)
    requires forall d :: d in req.workingHours.days ==> d in blockedByDay
  {
    var wh := req.workingHours;
    if req.prepTimeRequired then PrepPlan(wh.days, wh.startTime, wh.endTime, blockedByDay, before) else ([], [])
  }

  /** Both passes in turn, the weekly one starting from what the daily one left. */
  method RunPasses(req: ScheduleRequest, avail: map<Day, seq<Piece>>)
    returns (t: Tally, daily: seq<TimeSlot>, weekly: seq<TimeSlot>)
    requires WellNamed(req.studentConfigs) && AllWellFormed(avail)
    ensures var d := PassRun(DailyPass, req, req.workingHours.days, avail, EmptyTally);
      var w := PassRun(WeeklyPass, req, req.workingHours.days, d.1, d.2);
      daily == d.0 && weekly == w.0 && t == w.2
    ensures t == TallyAfter(WeeklyPass, TallyAfter(DailyPass, EmptyTally, daily), weekly)
    ensures forall x, y :: Sessions(t, x, y) == SessionCount(daily, x, y) + SessionCount(weekly, x, y)
    ensures forall x, y :: WeeklyTotal(t, x, y) == SessionMinutes(daily, x, y) + SessionMinutes(weekly, x, y)
    ensures SessionsOk(DailyPass, req, daily) && SessionsOk(WeeklyPass, req, weekly)
    ensures OncePerDay(weekly) && MarksCover(weekly, t)
    ensures Disjoint(daily + weekly)
    ensures TallyOk(req.studentConfigs, t)
  {
    assert TallyOk(req.studentConfigs, EmptyTally);
    assert TimesOk([], avail);
    var avail1, t1;
    avail1, t1, daily := SchedulePass(DailyPass, req, avail, EmptyTally, []);
    assert [] + daily == daily;
    var avail2;
    avail2, t, weekly := SchedulePass(WeeklyPass, req, avail1, t1, daily);
    TallyAfterCounts(DailyPass, EmptyTally, daily);
    TallyAfterCounts(WeeklyPass, t1, weekly);
  }

  /** available_by_day and both passes over it: the sessions of generate_schedule. */
  method PlanSessions(req: ScheduleRequest, blockedByDay: map<Day, seq<Piece>>)
    returns (t: Tally, daily: seq<TimeSlot>, weekly: seq<TimeSlot>)
    requires WellNamed(req.studentConfigs)
    requires forall d :: d in req.workingHours.days ==> d in blockedByDay && blockedByDay[d] == DayBlocked(req, d)
    ensures AllWellFormed(AvailableByDay(req))
    ensures var d := PassRun(DailyPass, req, req.workingHours.days, AvailableByDay(req), EmptyTally);
      var w := PassRun(WeeklyPass, req, req.workingHours.days, d.1, d.2);
      daily == d.0 && weekly == w.0 && t == w.2
    ensures forall x, y :: Sessions(t, x, y) == SessionCount(daily, x, y) + SessionCount(weekly, x, y)
    ensures forall x, y :: WeeklyTotal(t, x, y) == SessionMinutes(daily, x, y) + SessionMinutes(weekly, x, y)
    ensures SessionsOk(DailyPass, req, daily) && SessionsOk(WeeklyPass, req, weekly)
    ensures OncePerDay(weekly) && Disjoint(daily + weekly) && TallyOk(req.studentConfigs, t)
  {
    var avail := BuildAvailableByDay(req, blockedByDay);
    t, daily, weekly := RunPasses(req, avail);
  }

  /** The response built from the sorted schedule and the conflicts. */
  function Response(schedule: seq<TimeSlot>, conflicts: seq<Conflict>): (r: ScheduleResponse)
    ensures r.schedule == schedule
    ensures r.success <==> conflicts == []
    ensures r.message == if r.success then "Schedule generated successfully" else "Schedule generated with conflicts"
    ensures r.conflicts.None? <==> conflicts == []
    ensures r.conflicts.Some? ==> r.conflicts.value == conflicts
  {
    var success := |conflicts| == 0;
    ScheduleResponse(schedule,
                     success,
                     if success then "Schedule generated successfully" else "Schedule generated with conflicts",
                     if conflicts != [] then Some(conflicts) else None)
  }

  /**
   * The end of generate_schedule: prep time when required, the requirement check, the sort
   * by day and start, and the response.
   */
  method Finish(req: ScheduleRequest, blockedByDay: map<Day, seq<Piece>>, before: seq<TimeSlot>, t: Tally)
    returns (response: ScheduleResponse, ghost conflicts: seq<Conflict>)
    requires forall d :: d in req.workingHours.days ==> d in blockedByDay
    ensures var prep := PrepOutcome(req, blockedByDay, before);
      multiset(response.schedule) == multiset(before + prep.0)
      && conflicts == prep.1 + RequirementConflicts(req.studentConfigs, req.workingHours.days, t)
    ensures SortedBy(response.schedule, ScheduleKey(req.workingHours.days))
    ensures response == Response(response.schedule, conflicts)
  {
    var wh := req.workingHours;
    var schedule := before;
    var found: seq<Conflict> := [];
    if req.prepTimeRequired {
      schedule, found := PlaceAllPrep(wh.days, wh.startTime, wh.endTime, blockedByDay, schedule, found);
    }
    ghost var prep := PrepOutcome(req, blockedByDay, before);
    assert schedule == before + prep.0 && found == prep.1;
    found := CheckRequirements(req.studentConfigs, wh.days, t, found);
    conflicts := found;
    var sorted := SortBy(schedule, ScheduleKey(wh.days));
    SortByCorrect(schedule, ScheduleKey(wh.days));
    response := Response(sorted, found);
  }

  /**
   * generate_schedule.  The ghost results expose what the response is made of: the
   * sessions of each pass, the final tallies, blocked_by_day, and the conflict list.
   */
  method GenerateSchedule(req: ScheduleRequest)
    returns (response: ScheduleResponse, ghost daily: seq<TimeSlot>, ghost weekly: seq<TimeSlot>, ghost t: Tally,
             ghost blockedByDay: map<Day, seq<Piece>>, ghost conflicts: seq<Conflict>)
    requires WellNamed(req.studentConfigs)
    ensures forall d :: d in req.workingHours.days ==> d in blockedByDay && blockedByDay[d] == DayBlocked(req, d)
    ensures AllWellFormed(AvailableByDay(req))
    ensures var d := PassRun(DailyPass, req, req.workingHours.days, AvailableByDay(req), EmptyTally);
      var w := PassRun(WeeklyPass, req, req.workingHours.days, d.1, d.2);
      daily == d.0 && weekly == w.0 && t == w.2
    ensures forall x, y :: Sessions(t, x, y) == SessionCount(daily, x, y) + SessionCount(weekly, x, y)
    ensures forall x, y :: WeeklyTotal(t, x, y) == SessionMinutes(daily, x, y) + SessionMinutes(weekly, x, y)
    ensures SessionsOk(DailyPass, req, daily) && SessionsOk(WeeklyPass, req, weekly)
    ensures OncePerDay(weekly) && Disjoint(daily + weekly) && TallyOk(req.studentConfigs, t)
    ensures var prep := PrepOutcome(req, blockedByDay, BeforePrep(req, daily, weekly));
      multiset(response.schedule) == multiset(BeforePrep(req, daily, weekly) + prep.0)
      && conflicts == prep.1 + RequirementConflicts(req.studentConfigs, req.workingHours.days, t)
    ensures SortedBy(response.schedule, ScheduleKey(req.workingHours.days))
    ensures response == Response(response.schedule, conflicts)
  {
    var wh := req.workingHours;
    var schedule := AddLunch(wh.days, req.lunchTime);
    var blocked := BuildBlockedByDay(req);
    blockedByDay := blocked;
    schedule := ShowBlocked(wh.days, req.students, wh.startTime, wh.endTime, schedule);
    var tally, sessionsDaily, sessionsWeekly := PlanSessions(req, blocked);
    t, daily, weekly := tally, sessionsDaily, sessionsWeekly;
    schedule := schedule + sessionsDaily + sessionsWeekly;
    assert schedule == BeforePrep(req, daily, weekly);
    response, conflicts := Finish(req, blocked, schedule, tally);
  }

  // ---------------------------------------------------------------------------------
  // What the response means
  // ---------------------------------------------------------------------------------

  /**
   * The response reports success exactly when every working day got its prep (if prep is
   * required) and every subject of every config got its minutes and sessions.
   */
  lemma SuccessMeansComplete(req: ScheduleRequest, blockedByDay: map<Day, seq<Piece>>, before: seq<TimeSlot>, t: Tally)
    requires forall d :: d in req.workingHours.days ==> d in blockedByDay
    ensures var wh := req.workingHours;
      PrepOutcome(req, blockedByDay, before).1 + RequirementConflicts(req.studentConfigs, wh.days, t) == [] <==>
        (req.prepTimeRequired ==>
           forall d :: d in wh.days ==> DayPrep(wh.startTime, wh.endTime, blockedByDay, before, d) != [])
        && RequirementsMet(req.studentConfigs, wh.days, t)
  {
    var wh := req.workingHours;
    NoConflictsIffMet(req.studentConfigs, wh.days, t);
    if req.prepTimeRequired {
      PrepPlanExact(wh.days, wh.startTime, wh.endTime, blockedByDay, before);
      var plan := PrepPlan(wh.days, wh.startTime, wh.endTime, blockedByDay, before);
      if plan.1 != [] {
        assert plan.1[0] in plan.1;
      }
      if exists d :: d in wh.days && DayPrep(wh.startTime, wh.endTime, blockedByDay, before, d) == [] {
        var d :| d in wh.days && DayPrep(wh.startTime, wh.endTime, blockedByDay, before, d) == [];
        assert PrepMissing(d) in plan.1;
      }
    }
  }

  /** When prep is required, each working day gets prep entries in the schedule or a conflict naming it. */
  lemma PrepOrConflict(req: ScheduleRequest, blockedByDay: map<Day, seq<Piece>>, before: seq<TimeSlot>, d: Day)
    requires forall d :: d in req.workingHours.days ==> d in blockedByDay
    requires req.prepTimeRequired && d in req.workingHours.days
    ensures var prep := PrepOutcome(req, blockedByDay, before);
      PrepMissing(d) in prep.1 || exists e :: e in prep.0 && e.day == d && e.kind == Prep
  {
    var wh := req.workingHours;
    PrepPlanExact(wh.days, wh.startTime, wh.endTime, blockedByDay, before);
    var placed := DayPrep(wh.startTime, wh.endTime, blockedByDay, before, d);
    PrepEntriesShape(d, PrepFree(wh.startTime, wh.endTime, blockedByDay[d], before, d));
    if placed != [] {
      assert placed[0] in placed;
    }
  }
}
