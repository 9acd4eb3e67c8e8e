/**
 * The closing check of generate_schedule ("Check if we met all requirements"): for every
 * student config and every subject, the tallies are compared with what the subject asks
 * for and one conflict is reported per shortfall.
 */
module Requirements {
  import opened Students
  import opened Schedules

  /** The weekly subjects the check looks at: `weekly_days and weekly_minutes_per_session`. */
  predicate WeeklyCounted(s: SubjectConfig)
  {
    s.constraintType == Weekly && s.weeklyDays != 0 && s.weeklyMinutesPerSession != 0
  }

  /** The daily subjects the check looks at: `constraint_type == "daily" and daily_minutes`. */
  predicate DailyCounted(s: SubjectConfig)
  {
    s.constraintType == Daily && s.dailyMinutes != 0
  }

  // ---------------------------------------------------------------------------------
  // The conflicts in the order the loops report them
  // ---------------------------------------------------------------------------------

  /** One DailyShort per working day on which the student got fewer minutes than needed. */
  function DailyShortfalls(student: Name, s: SubjectConfig, days: seq<Day>, t: Tally): seq<Conflict>
  {
    if days == [] then []
    else
      var day := days[|days| - 1];
      var scheduled := MinutesOn(t, student, s.name, day);
      DailyShortfalls(student, s, days[..|days| - 1], t)
      + (if scheduled < s.dailyMinutes then [DailyShort(student, s.name, day, scheduled, s.dailyMinutes)] else [])
  }

  /** The sessions check, then the minutes check, of a weekly subject. */
  function WeeklyShortfalls(student: Name, s: SubjectConfig, t: Tally): seq<Conflict>
  {
    var sessions := Sessions(t, student, s.name);
    var minutes := WeeklyTotal(t, student, s.name);
    var needed := s.weeklyDays * s.weeklyMinutesPerSession;
    (if sessions < s.weeklyDays then [WeeklySessionsShort(student, s.name, sessions, s.weeklyDays)] else [])
    + (if minutes < needed then [WeeklyMinutesShort(student, s.name, minutes, needed, s.weeklyDays, s.weeklyMinutesPerSession)]
       else [])
  }

  function SubjectConflicts(student: Name, s: SubjectConfig, days: seq<Day>, t: Tally): seq<Conflict>
  {
    (if DailyCounted(s) then DailyShortfalls(student, s, days, t) else [])
    + (if WeeklyCounted(s) then WeeklyShortfalls(student, s, t) else [])
  }

  function ConfigConflicts(student: Name, subjects: seq<SubjectConfig>, days: seq<Day>, t: Tally): seq<Conflict>
  {
    if subjects == [] then []
    else ConfigConflicts(student, subjects[..|subjects| - 1], days, t)
         + SubjectConflicts(student, subjects[|subjects| - 1], days, t)
  }

  /** Every conflict the check appends, configs in order and subjects in order. */
  function RequirementConflicts(configs: seq<StudentConfig>, days: seq<Day>, t: Tally): seq<Conflict>
  {
    if configs == [] then []
    else
      var c := configs[|configs| - 1];
      RequirementConflicts(configs[..|configs| - 1], days, t) + ConfigConflicts(c.name, c.subjects, days, t)
  }

  // ---------------------------------------------------------------------------------
  // The reference: which conflicts a subject justifies, and when it is met
  // ---------------------------------------------------------------------------------

  /** Conflict c reports a genuine shortfall of subject s of the student, with the right figures. */
  predicate SubjectShort(student: Name, s: SubjectConfig, days: seq<Day>, t: Tally, c: Conflict)
  {
    match c
    case DailyShort(st, sub, day, scheduled, needed) =>
      DailyCounted(s) && st == student && sub == s.name && day in days
      && scheduled == MinutesOn(t, student, s.name, day) && needed == s.dailyMinutes && scheduled < needed
    case WeeklySessionsShort(st, sub, scheduled, needed) =>
      WeeklyCounted(s) && st == student && sub == s.name
      && scheduled == Sessions(t, student, s.name) && needed == s.weeklyDays && scheduled < needed
    case WeeklyMinutesShort(st, sub, scheduled, needed, sessions, perSession) =>
      WeeklyCounted(s) && st == student && sub == s.name && scheduled == WeeklyTotal(t, student, s.name)
      && sessions == s.weeklyDays && perSession == s.weeklyMinutesPerSession && needed == sessions * perSession
      && scheduled < needed
    case PrepMissing(_) => false
  }

  /** The subject got what it asks for on every day, or over the week. */
  predicate SubjectMet(student: Name, s: SubjectConfig, days: seq<Day>, t: Tally)
  {
    (DailyCounted(s) ==> forall day :: day in days ==> MinutesOn(t, student, s.name, day) >= s.dailyMinutes)
    && (WeeklyCounted(s) ==>
          Sessions(t, student, s.name) >= s.weeklyDays
          && WeeklyTotal(t, student, s.name) >= s.weeklyDays * s.weeklyMinutesPerSession)
  }

  predicate RequirementsMet(configs: seq<StudentConfig>, days: seq<Day>, t: Tally)
  {
    forall k, j :: 0 <= k < |configs| && 0 <= j < |configs[k].subjects| ==>
      SubjectMet(configs[k].name, configs[k].subjects[j], days, t)
  }

  lemma {:induction false} DailyShortfallsExact(student: Name, s: SubjectConfig, days: seq<Day>, t: Tally, c: Conflict)
    requires DailyCounted(s)
    ensures c in DailyShortfalls(student, s, days, t) <==> SubjectShort(student, s, days, t, c)
  {
    if days != [] {
      var init := days[..|days| - 1];
      DailyShortfallsExact(student, s, init, t, c);
      assert days == init + [days[|days| - 1]];
      if c.DailyShort? {
        assert c.day in days <==> c.day in init || c.day == days[|days| - 1];
      }
    }
  }

  lemma SubjectConflictsExact(student: Name, s: SubjectConfig, days: seq<Day>, t: Tally, c: Conflict)
    ensures c in SubjectConflicts(student, s, days, t) <==> SubjectShort(student, s, days, t, c)
  {
    if DailyCounted(s) {
      DailyShortfallsExact(student, s, days, t, c);
    }
  }

  /** Some subject of the list justifies c. */
  predicate ShortIn(student: Name, subjects: seq<SubjectConfig>, days: seq<Day>, t: Tally, c: Conflict)
  {
    exists j :: 0 <= j < |subjects| && SubjectShort(student, subjects[j], days, t, c)
  }

  /** Some subject of some config justifies c. */
  predicate Shortfall(configs: seq<StudentConfig>, days: seq<Day>, t: Tally, c: Conflict)
  {
    exists k :: 0 <= k < |configs| && ShortIn(configs[k].name, configs[k].subjects, days, t, c)
  }

  /** Short in a list of subjects: in all but the last, or in the last. */
  lemma ShortInLast(student: Name, subjects: seq<SubjectConfig>, days: seq<Day>, t: Tally, c: Conflict)
    requires subjects != []
    ensures ShortIn(student, subjects, days, t, c) <==>
      ShortIn(student, subjects[..|subjects| - 1], days, t, c) || SubjectShort(student, subjects[|subjects| - 1], days, t, c)
  {
    var n := |subjects| - 1;
    var init := subjects[..n];
    if ShortIn(student, init, days, t, c) {
      var j :| 0 <= j < |init| && SubjectShort(student, init[j], days, t, c);
      assert init[j] == subjects[j];
    }
    if ShortIn(student, subjects, days, t, c) {
      var j :| 0 <= j < |subjects| && SubjectShort(student, subjects[j], days, t, c);
      if j < n {
        assert init[j] == subjects[j];
      }
    }
  }

  lemma {:induction false} ConfigConflictsExact(student: Name, subjects: seq<SubjectConfig>, days: seq<Day>, t: Tally, c: Conflict)
    ensures c in ConfigConflicts(student, subjects, days, t) <==> ShortIn(student, subjects, days, t, c)
  {
    if subjects != [] {
      var n := |subjects| - 1;
      var init := subjects[..n];
      var last := subjects[n];
      ConfigConflictsExact(student, init, days, t, c);
      SubjectConflictsExact(student, last, days, t, c);
      assert ConfigConflicts(student, subjects, days, t)
          == ConfigConflicts(student, init, days, t) + SubjectConflicts(student, last, days, t);
      ShortInLast(student, subjects, days, t, c);
    }
  }

  /** A shortfall among a list of configurations: among all but the last, or in the last. */
  lemma ShortfallLast(configs: seq<StudentConfig>, days: seq<Day>, t: Tally, c: Conflict)
    requires configs != []
    ensures Shortfall(configs, days, t, c) <==>
      Shortfall(configs[..|configs| - 1], days, t, c) ||
      ShortIn(configs[|configs| - 1].name, configs[|configs| - 1].subjects, days, t, c)
  {
    var n := |configs| - 1;
    var init := configs[..n];
    if Shortfall(init, days, t, c) {
      var k :| 0 <= k < |init| && ShortIn(init[k].name, init[k].subjects, days, t, c);
      assert init[k] == configs[k];
    }
    if Shortfall(configs, days, t, c) {
      var k :| 0 <= k < |configs| && ShortIn(configs[k].name, configs[k].subjects, days, t, c);
      if k < n {
        assert init[k] == configs[k];
      }
    }
  }

  /** A conflict is reported exactly when it states a genuine shortfall (both directions). */
  lemma {:induction false} RequirementConflictsExact(configs: seq<StudentConfig>, days: seq<Day>, t: Tally, c: Conflict)
    ensures c in RequirementConflicts(configs, days, t) <==> Shortfall(configs, days, t, c)
  {
    if configs != [] {
      var n := |configs| - 1;
      var init := configs[..n];
      var last := configs[n];
      RequirementConflictsExact(init, days, t, c);
      ConfigConflictsExact(last.name, last.subjects, days, t, c);
      assert RequirementConflicts(configs, days, t)
          == RequirementConflicts(init, days, t) + ConfigConflicts(last.name, last.subjects, days, t);
      ShortfallLast(configs, days, t, c);
    }
  }

  /** The check never reports a missing prep hour; those come from the prep placement. */
  lemma NoPrepConflict(configs: seq<StudentConfig>, days: seq<Day>, t: Tally, day: Day)
    ensures PrepMissing(day) !in RequirementConflicts(configs, days, t)
  {
    RequirementConflictsExact(configs, days, t, PrepMissing(day));
  }

  /** The check reports nothing exactly when every subject of every config is met. */
  lemma NoConflictsIffMet(configs: seq<StudentConfig>, days: seq<Day>, t: Tally)
    ensures RequirementConflicts(configs, days, t) == [] <==> RequirementsMet(configs, days, t)
  {
    var r := RequirementConflicts(configs, days, t);
    if r != [] {
      RequirementConflictsExact(configs, days, t, r[0]);
      var k :| 0 <= k < |configs| && ShortIn(configs[k].name, configs[k].subjects, days, t, r[0]);
      var j :| 0 <= j < |configs[k].subjects| && SubjectShort(configs[k].name, configs[k].subjects[j], days, t, r[0]);
      assert !SubjectMet(configs[k].name, configs[k].subjects[j], days, t);
    }
    if !RequirementsMet(configs, days, t) {
      var k, j :| 0 <= k < |configs| && 0 <= j < |configs[k].subjects| &&
        !SubjectMet(configs[k].name, configs[k].subjects[j], days, t);
      var student, s := configs[k].name, configs[k].subjects[j];
      var c: Conflict;
      if DailyCounted(s) && exists day :: day in days && MinutesOn(t, student, s.name, day) < s.dailyMinutes {
        var day :| day in days && MinutesOn(t, student, s.name, day) < s.dailyMinutes;
        c := DailyShort(student, s.name, day, MinutesOn(t, student, s.name, day), s.dailyMinutes);
      } else if Sessions(t, student, s.name) < s.weeklyDays {
        c := WeeklySessionsShort(student, s.name, Sessions(t, student, s.name), s.weeklyDays);
      } else {
        c := WeeklyMinutesShort(student, s.name, WeeklyTotal(t, student, s.name),
          s.weeklyDays * s.weeklyMinutesPerSession, s.weeklyDays, s.weeklyMinutesPerSession);
      }
      assert SubjectShort(student, s, days, t, c);
      assert ShortIn(student, configs[k].subjects, days, t, c);
      RequirementConflictsExact(configs, days, t, c);
    }
  }

  // ---------------------------------------------------------------------------------
  // The loops
  // ---------------------------------------------------------------------------------

  /** The checks of one subject: the loop over the days, then the two weekly tests. */
  method CheckSubject(student: Name, s: SubjectConfig, days: seq<Day>, t: Tally, conflicts: seq<Conflict>)
    returns (conflicts': seq<Conflict>)
    ensures conflicts' == conflicts + SubjectConflicts(student, s, days, t)
  {
    conflicts' := conflicts;
    if s.constraintType == Daily && s.dailyMinutes != 0 {
      for i := 0 to |days|
        invariant conflicts' == conflicts + DailyShortfalls(student, s, days[..i], t)
      {
        assert days[..i + 1][..i] == days[..i] && days[..i + 1][i] == days[i];
        var scheduled := MinutesOn(t, student, s.name, days[i]);
        if scheduled < s.dailyMinutes {
          conflicts' := conflicts' + [DailyShort(student, s.name, days[i], scheduled, s.dailyMinutes)];
        }
      }
      assert days[..|days|] == days;
    }
    ghost var afterDaily := conflicts';
    if s.constraintType == Weekly && s.weeklyDays != 0 && s.weeklyMinutesPerSession != 0 {
      var sessions := Sessions(t, student, s.name);
      var minutes := WeeklyTotal(t, student, s.name);
      var neededMinutes := s.weeklyDays * s.weeklyMinutesPerSession;
      if sessions < s.weeklyDays {
        conflicts' := conflicts' + [WeeklySessionsShort(student, s.name, sessions, s.weeklyDays)];
      }
      if minutes < neededMinutes {
        conflicts' := conflicts'
          + [WeeklyMinutesShort(student, s.name, minutes, neededMinutes, s.weeklyDays, s.weeklyMinutesPerSession)];
      }
      assert conflicts' == afterDaily + WeeklyShortfalls(student, s, t);
    }
  }

  /** The loop over one config's subjects. */
  method CheckConfig(config: StudentConfig, days: seq<Day>, t: Tally, conflicts: seq<Conflict>)
    returns (conflicts': seq<Conflict>)
    ensures conflicts' == conflicts + ConfigConflicts(config.name, config.subjects, days, t)
  {
    conflicts' := conflicts;
    var subjects := config.subjects;
    for j := 0 to |subjects|
      invariant conflicts' == conflicts + ConfigConflicts(config.name, subjects[..j], days, t)
    {
      assert subjects[..j + 1][..j] == subjects[..j] && subjects[..j + 1][j] == subjects[j];
      conflicts' := CheckSubject(config.name, subjects[j], days, t, conflicts');
    }
    assert subjects[..|subjects|] == subjects;
  }

  /** The loop over the configs, appending to the conflicts found so far. */
  method CheckRequirements(configs: seq<StudentConfig>, days: seq<Day>, t: Tally, conflicts: seq<Conflict>)
    returns (conflicts': seq<Conflict>)
    ensures conflicts' == conflicts + RequirementConflicts(configs, days, t)
  {
    conflicts' := conflicts;
    for k := 0 to |configs|
      invariant conflicts' == conflicts + RequirementConflicts(configs[..k], days, t)
    {
      assert configs[..k + 1][..k] == configs[..k] && configs[..k + 1][k] == configs[k];
      conflicts' := CheckConfig(configs[k], days, t, conflicts');
    }
    assert configs[..|configs|] == configs;
  }
}
