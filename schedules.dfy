/**
 * The data that generate_schedule reads and returns (the fields backend/scheduler.py
 * actually uses), the lookups it performs on the configurations, and its tracking
 * dictionaries.  Times are minutes since midnight; rendering them as "HH:MM" is
 * TimeText.MinutesToTime, whose round trip is proved there.
 */
module Schedules {
  import opened Wrappers
  import opened Students

  const SlotDuration := 30
  const LunchMinutes := 60

  /** `constraint_type`: "daily", "weekly", or anything else (which no pass schedules). */
  datatype ConstraintType = Daily | Weekly | OtherConstraint

  /**
   * A subject a student needs.  The optional integer fields are modelled as integers with
   * 0 standing for None: the source only ever tests their truthiness, and None and 0 are
   * both falsy.
   */
  datatype SubjectConfig = SubjectConfig(
    name: Name,
    constraintType: ConstraintType,
    dailyMinutes: int,
    weeklyDays: int,
    weeklyMinutesPerSession: int)

  datatype StudentConfig = StudentConfig(name: Name, subjects: seq<SubjectConfig>)

  datatype WorkingHours = WorkingHours(days: seq<Day>, startTime: int, endTime: int)

  datatype ScheduleRequest = ScheduleRequest(
    students: seq<StudentEntry>,
    studentConfigs: seq<StudentConfig>,
    workingHours: WorkingHours,
    lunchTime: int,
    prepTimeRequired: bool)

  /**
   * The `type` of a schedule entry with the fields that go with it.  A session with one
   * member is the source's `student=` form, one with several its `students=` form.
   */
  datatype SlotKind =
    | Session(members: seq<Name>, subject: Name)
    | Lunch
    | Prep
    | Blocked(labelText: Option<string>)

  datatype TimeSlot = TimeSlot(day: Day, start: int, end: int, kind: SlotKind)

  /** One reported conflict, carrying the values its message is formatted from. */
  datatype Conflict =
    | DailyShort(student: Name, subject: Name, day: Day, scheduled: int, needed: int)
    | WeeklySessionsShort(student: Name, subject: Name, scheduled: int, needed: int)
    | WeeklyMinutesShort(student: Name, subject: Name, scheduled: int, needed: int, sessions: int, perSession: int)
    | PrepMissing(day: Day)

  datatype ScheduleResponse = ScheduleResponse(
    schedule: seq<TimeSlot>,
    success: bool,
    message: string,
    conflicts: Option<seq<Conflict>>)

  predicate NoDup<T(==)>(s: seq<T>)
  {
    forall i, j :: 0 <= i < j < |s| ==> s[i] != s[j]
  }

  predicate DistinctConfigNames(configs: seq<StudentConfig>)
  {
    forall i, j :: 0 <= i < j < |configs| ==> configs[i].name != configs[j].name
  }

  predicate DistinctSubjectNames(subjects: seq<SubjectConfig>)
  {
    forall i, j :: 0 <= i < j < |subjects| ==> subjects[i].name != subjects[j].name
  }

  /** The restrictions under which the model is stated (see README, "Left out"). */
  predicate WellNamed(configs: seq<StudentConfig>)
  {
    DistinctConfigNames(configs) && forall k :: 0 <= k < |configs| ==> DistinctSubjectNames(configs[k].subjects)
  }

  /** `student_config_dict[name]`; the dictionary comprehension keeps the last config with the name. */
  function ConfigOf(configs: seq<StudentConfig>, name: Name): (r: Option<StudentConfig>)
    ensures r.None? <==> forall k :: 0 <= k < |configs| ==> configs[k].name != name
    ensures r.Some? ==> exists k :: 0 <= k < |configs| && configs[k] == r.value && r.value.name == name &&
                                    forall k' :: k < k' < |configs| ==> configs[k'].name != name
  {
    if configs == [] then None
    else if configs[|configs| - 1].name == name then Some(configs[|configs| - 1])
    else ConfigOf(configs[..|configs| - 1], name)
  }

  /** With distinct names the config found is the one at any index holding the name. */
  lemma ConfigOfDistinct(configs: seq<StudentConfig>, k: int)
    requires DistinctConfigNames(configs) && 0 <= k < |configs|
    ensures ConfigOf(configs, configs[k].name) == Some(configs[k])
  {
    var r := ConfigOf(configs, configs[k].name);
    var k' :| 0 <= k' < |configs| && configs[k'] == r.value && r.value.name == configs[k].name
      && forall k'' :: k' < k'' < |configs| ==> configs[k''].name != configs[k].name;
    assert k' == k;
  }

  /** The first subject with the name and the constraint type: the source's `next(...)` and `for ...: break`. */
  function FirstOf(subjects: seq<SubjectConfig>, subject: Name, t: ConstraintType): (r: Option<SubjectConfig>)
    ensures r.None? <==> forall k :: 0 <= k < |subjects| ==> !(subjects[k].name == subject && subjects[k].constraintType == t)
    ensures r.Some? ==> r.value in subjects && r.value.name == subject && r.value.constraintType == t
    ensures r.Some? ==> exists k :: 0 <= k < |subjects| && subjects[k] == r.value &&
                          forall j :: 0 <= j < k ==> !(subjects[j].name == subject && subjects[j].constraintType == t)
  {
    if subjects == [] then None
    else if subjects[0].name == subject && subjects[0].constraintType == t then Some(subjects[0])
    else
      var r := FirstOf(subjects[1..], subject, t);
      assert forall k :: 1 <= k < |subjects| ==> subjects[k] == subjects[1..][k - 1];
      r
  }

  /** A weekly constraint on the subject with a truthy `weekly_minutes_per_session`. */
  predicate WeeklyWithMinutes(s: SubjectConfig, subject: Name)
  {
    s.name == subject && s.constraintType == Weekly && s.weeklyMinutesPerSession != 0
  }

  /** The weekly pass's search for the session length also demands a truthy `weekly_minutes_per_session`. */
  function FirstWeeklyWithMinutes(subjects: seq<SubjectConfig>, subject: Name): (r: Option<SubjectConfig>)
    ensures r.None? <==> forall k :: 0 <= k < |subjects| ==> !WeeklyWithMinutes(subjects[k], subject)
    ensures r.Some? ==> r.value in subjects && WeeklyWithMinutes(r.value, subject)
    ensures r.Some? ==> exists k :: 0 <= k < |subjects| && subjects[k] == r.value &&
                          forall j :: 0 <= j < k ==> !WeeklyWithMinutes(subjects[j], subject)
  {
    if subjects == [] then None
    else if WeeklyWithMinutes(subjects[0], subject) then Some(subjects[0])
    else
      var r := FirstWeeklyWithMinutes(subjects[1..], subject);
      assert forall k :: 1 <= k < |subjects| ==> subjects[k] == subjects[1..][k - 1];
      r
  }

  /** In a config with distinct subject names, a subject name has at most one constraint type. */
  lemma OneTypePerName(subjects: seq<SubjectConfig>, subject: Name)
    requires DistinctSubjectNames(subjects)
    requires FirstOf(subjects, subject, Daily).Some?
    ensures FirstOf(subjects, subject, Weekly).None?
  {
    var d := FirstOf(subjects, subject, Daily).value;
    var i :| 0 <= i < |subjects| && subjects[i] == d;
    forall k | 0 <= k < |subjects| ensures !(subjects[k].name == subject && subjects[k].constraintType == Weekly) {
      if subjects[k].name == subject {
        assert k == i;
      }
    }
  }

  // ---------------------------------------------------------------------------------
  // The two passes and the tracking dictionaries
  // ---------------------------------------------------------------------------------

  /** The daily and the weekly pass of generate_schedule run the same code with these differences. */
  datatype Pass = DailyPass | WeeklyPass

  /**
   * The tracking dictionaries.  A key that is absent reads as 0, as the source initialises
   * every key with 0 and reads with `.get(day, 0)`.  `scheduledOn` holds
   * (student, day, subject) for weekly_subjects_by_day.
   */
  datatype Tally = Tally(
    minutesByDay: map<(Name, Name, Day), int>,
    weeklyMinutes: map<(Name, Name), int>,
    weeklySessions: map<(Name, Name), int>,
    scheduledOn: set<(Name, Day, Name)>)

  const EmptyTally := Tally(map[], map[], map[], {})

  function MinutesOn(t: Tally, student: Name, subject: Name, day: Day): int
  {
    if (student, subject, day) in t.minutesByDay then t.minutesByDay[(student, subject, day)] else 0
  }

  function WeeklyTotal(t: Tally, student: Name, subject: Name): int
  {
    if (student, subject) in t.weeklyMinutes then t.weeklyMinutes[(student, subject)] else 0
  }

  function Sessions(t: Tally, student: Name, subject: Name): int
  {
    if (student, subject) in t.weeklySessions then t.weeklySessions[(student, subject)] else 0
  }

  /** The subject takes part in the pass: the truthiness tests that build `subject_groups`. */
  predicate Governs(pass: Pass, s: SubjectConfig)
  {
    match pass
    case DailyPass => s.constraintType == Daily && s.dailyMinutes != 0
    case WeeklyPass => s.constraintType == Weekly && s.weeklyDays != 0 && s.weeklyMinutesPerSession != 0
  }

  /** A student is put in the subject's group at the start of a day when the subject is still short. */
  predicate Wants(pass: Pass, s: SubjectConfig, student: Name, t: Tally, day: Day)
  {
    Governs(pass, s) &&
    match pass
    case DailyPass => MinutesOn(t, student, s.name, day) < s.dailyMinutes
    case WeeklyPass => Sessions(t, student, s.name) < s.weeklyDays
  }

  /** `student_needs` and `sessions_needed`: the `next(..., 0)` over the student's config. */
  function PassNeed(pass: Pass, configs: seq<StudentConfig>, student: Name, subject: Name): int
  {
    match ConfigOf(configs, student)
    case None => 0
    case Some(c) =>
      match pass
      case DailyPass => (match FirstOf(c.subjects, subject, Daily) case Some(s) => s.dailyMinutes case None => 0)
      case WeeklyPass => (match FirstOf(c.subjects, subject, Weekly) case Some(s) => s.weeklyDays case None => 0)
  }

  /** What one student asks of a session's length; the group's `max_minutes` is the largest of these. */
  function PerSession(pass: Pass, configs: seq<StudentConfig>, student: Name, subject: Name): int
  {
    match ConfigOf(configs, student)
    case None => 0
    case Some(c) =>
      match pass
      case DailyPass => (match FirstOf(c.subjects, subject, Daily) case Some(s) => s.dailyMinutes case None => 0)
      case WeeklyPass =>
        (match FirstWeeklyWithMinutes(c.subjects, subject) case Some(s) => s.weeklyMinutesPerSession case None => 0)
  }

  /** The filter that forms `remaining_students` on every round of the `while True` loop. */
  predicate StillNeeds(pass: Pass, configs: seq<StudentConfig>, t: Tally, student: Name, subject: Name, day: Day)
  {
    match pass
    case DailyPass => MinutesOn(t, student, subject, day) < PassNeed(pass, configs, student, subject)
    case WeeklyPass =>
      Sessions(t, student, subject) < PassNeed(pass, configs, student, subject)
      && (student, day, subject) !in t.scheduledOn
  }

  /** The weekly subject (both fields truthy) whose sessions the weekly pass counts for the student. */
  function WeeklyGoverning(configs: seq<StudentConfig>, student: Name, subject: Name): Option<SubjectConfig>
  {
    match ConfigOf(configs, student)
    case None => None
    case Some(c) =>
      match FirstOf(c.subjects, subject, Weekly)
      case Some(s) => if s.weeklyDays != 0 && s.weeklyMinutesPerSession != 0 then Some(s) else None
      case None => None
  }
}
