/**
 * Students' own schedules and the overlap rules of backend/scheduler.py:
 * can_students_overlap, check_all_can_overlap and are_students_blocked_at_time.
 *
 * `request.students` is a dictionary from name to schedule; it is modelled as a list of
 * entries in insertion order, and a lookup takes the first entry with the name (a
 * dictionary never holds two).  Times are minutes since midnight.
 */
module Students {
  import opened Wrappers

  type Name = string
  type Day = string

  /** `str.lower()` on the ASCII letters. */
  function LowerChar(c: char): char
  {
    if 'A' <= c <= 'Z' then (c as int + 32) as char else c
  }

  function Lower(s: string): string
  {
    if s == [] then [] else [LowerChar(s[0])] + Lower(s[1..])
  }

  /** Day names are compared as `blocked_time.day.lower() == day.lower()`. */
  predicate SameDay(a: Day, b: Day)
  {
    Lower(a) == Lower(b)
  }

  /** Lower-casing twice changes nothing, so a lower-cased day matches the original. */
  lemma {:induction false} LowerIdempotent(s: string)
    ensures Lower(Lower(s)) == Lower(s)
    ensures SameDay(Lower(s), s)
  {
    if s != [] {
      LowerIdempotent(s[1..]);
      var l := Lower(s);
      assert l[0] == LowerChar(s[0]) && l[1..] == Lower(s[1..]);
    }
  }

  /** One blocked interval [start, end) of a student on a day, with an optional label. */
  datatype BlockedTime = BlockedTime(day: Day, start: int, end: int, labelText: Option<string>)

  /** `can_overlap` is optional in the source; None and the empty list behave alike (`or []`). */
  datatype StudentSchedule = StudentSchedule(blockedTimes: seq<BlockedTime>, canOverlap: seq<Name>)

  datatype StudentEntry = StudentEntry(name: Name, schedule: StudentSchedule)

  /** `student_schedules[name]`, None where `name not in student_schedules`. */
  function Lookup(students: seq<StudentEntry>, name: Name): (r: Option<StudentSchedule>)
    ensures r.None? <==> forall k :: 0 <= k < |students| ==> students[k].name != name
    ensures r.Some? ==> exists k :: 0 <= k < |students| && students[k].name == name && students[k].schedule == r.value
  {
    if students == [] then None
    else if students[0].name == name then Some(students[0].schedule)
    else
      var r := Lookup(students[1..], name);
      assert forall k :: 1 <= k < |students| ==> students[k] == students[1..][k - 1];
      r
  }

  /** can_students_overlap: both students are known and each lists the other. */
  predicate CanStudentsOverlap(a: Name, b: Name, students: seq<StudentEntry>)
  {
    match (Lookup(students, a), Lookup(students, b))
    case (Some(sa), Some(sb)) => b in sa.canOverlap && a in sb.canOverlap
    case _ => false
  }

  /** Every pair i < j of the list may share a session. */
  predicate AllPairsCompatible(names: seq<Name>, students: seq<StudentEntry>)
  {
    forall i, j :: 0 <= i < j < |names| ==> CanStudentsOverlap(names[i], names[j], students)
  }

  /** The answer check_all_can_overlap gives: true for fewer than two names. */
  predicate Compatible(names: seq<Name>, students: seq<StudentEntry>)
  {
    |names| < 2 || AllPairsCompatible(names, students)
  }

  lemma CanOverlapSymmetric(a: Name, b: Name, students: seq<StudentEntry>)
    ensures CanStudentsOverlap(a, b, students) == CanStudentsOverlap(b, a, students)
  {
  }

  lemma CanOverlapNeedsBoth(a: Name, b: Name, students: seq<StudentEntry>)
    requires Lookup(students, a).None? || Lookup(students, b).None?
    ensures !CanStudentsOverlap(a, b, students)
  {
  }

  /** check_all_can_overlap: nested loops over i < j, returning at the first failing pair. */
  method CheckAllCanOverlap(names: seq<Name>, students: seq<StudentEntry>) returns (ok: bool)
    ensures ok <==> Compatible(names, students)
  {
    if |names| < 2 {
      return true;
    }
    for i := 0 to |names|
      invariant forall i', j :: 0 <= i' < i && i' < j < |names| ==> CanStudentsOverlap(names[i'], names[j], students)
    {
      for j := i + 1 to |names|
        invariant forall j' :: i < j' < j ==> CanStudentsOverlap(names[i], names[j'], students)
      {
        if !CanStudentsOverlap(names[i], names[j], students) {
          return false;
        }
      }
    }
    return true;
  }

  /** Adding a name to a compatible group keeps it compatible exactly when the name suits every member. */
  lemma CompatibleExtend(group: seq<Name>, s: Name, students: seq<StudentEntry>)
    requires Compatible(group, students)
    ensures Compatible(group + [s], students) <==>
      forall i :: 0 <= i < |group| ==> CanStudentsOverlap(group[i], s, students)
  {
    var g := group + [s];
    if forall i :: 0 <= i < |group| ==> CanStudentsOverlap(group[i], s, students) {
      forall i, j | 0 <= i < j < |g| ensures CanStudentsOverlap(g[i], g[j], students) {
        if j < |group| {
          assert g[i] == group[i] && g[j] == group[j];
        } else {
          assert g[i] == group[i] && g[j] == s;
        }
      }
    }
    if Compatible(g, students) {
      forall i | 0 <= i < |group| ensures CanStudentsOverlap(group[i], s, students) {
        assert g[i] == group[i] && g[|group|] == s;
      }
    }
  }

  /** The half-open test `not (slot_end <= blocked_start or slot_start >= blocked_end)`. */
  predicate Overlaps(start1: int, end1: int, start2: int, end2: int)
  {
    !(end1 <= start2 || start1 >= end2)
  }

  /** Minute t lies in the half-open interval [start, end). */
  predicate Within(t: int, start: int, end: int)
  {
    start <= t < end
  }

  /** For non-empty intervals the test holds exactly when they share a minute. */
  lemma OverlapsMeansCommonMinute(start1: int, end1: int, start2: int, end2: int)
    requires start1 < end1 && start2 < end2
    ensures Overlaps(start1, end1, start2, end2) <==> exists t :: Within(t, start1, end1) && Within(t, start2, end2)
  {
    if Overlaps(start1, end1, start2, end2) {
      var t := Max(start1, start2);
      assert Within(t, start1, end1) && Within(t, start2, end2);
    }
  }

  predicate BlockedDuring(bt: BlockedTime, day: Day, start: int, end: int)
  {
    SameDay(bt.day, day) && Overlaps(start, end, bt.start, bt.end)
  }

  /** A known student has a blocked time on the day overlapping [start, end); unknown students never are. */
  predicate StudentBlocked(name: Name, day: Day, start: int, end: int, students: seq<StudentEntry>)
  {
    match Lookup(students, name)
    case Some(sch) => exists k :: 0 <= k < |sch.blockedTimes| && BlockedDuring(sch.blockedTimes[k], day, start, end)
    case None => false
  }

  /** are_students_blocked_at_time: true as soon as one named student has an overlapping blocked time. */
  method AreStudentsBlockedAtTime(names: seq<Name>, day: Day, start: int, end: int, students: seq<StudentEntry>)
    returns (blocked: bool)
    ensures blocked <==> exists k :: 0 <= k < |names| && StudentBlocked(names[k], day, start, end, students)
  {
    for i := 0 to |names|
      invariant forall k :: 0 <= k < i ==> !StudentBlocked(names[k], day, start, end, students)
    {
      var schedule := Lookup(students, names[i]);
      if schedule.None? {
        continue;
      }
      var times := schedule.value.blockedTimes;
      for j := 0 to |times|
        invariant forall k :: 0 <= k < j ==> !BlockedDuring(times[k], day, start, end)
      {
        if SameDay(times[j].day, day) && Overlaps(start, end, times[j].start, times[j].end) {
          return true;
        }
      }
    }
    return false;
  }
}
