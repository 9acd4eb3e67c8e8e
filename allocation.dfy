/**
 * The daily and the weekly pass of generate_schedule (backend/scheduler.py:297-563).
 * The source writes the two passes out as two copies of one loop nest; here they are one
 * family of methods with a Pass parameter, which selects the filters, the per-student
 * minutes and the way the tally is updated.
 *
 * For each working day and each subject in `subject_groups`, a `while True` loop forms
 * the students that still need the subject, scans every window of consecutive available
 * pieces long enough for the largest requirement and clear of lunch, builds a greedy
 * group of unblocked, pairwise compatible students for each window, commits the first
 * largest one, and drops the available pieces up to and past the ones it used.
 */
module Allocation {
  import opened Wrappers
  import opened Students
  import opened Grid
  import opened Schedules

  // ---------------------------------------------------------------------------------
  // subject_groups
  // ---------------------------------------------------------------------------------

  /** `subject_groups`: subject name to the students needing it, subjects in first-insertion order. */
  type Groups = seq<(Name, seq<Name>)>

  /** `if name not in groups: groups[name] = []` followed by `groups[name].append(student)`. */
  function AddTo(groups: Groups, subject: Name, student: Name): Groups
  {
    if groups == [] then [(subject, [student])]
    else if groups[0].0 == subject then [(subject, groups[0].1 + [student])] + groups[1..]
    else [groups[0]] + AddTo(groups[1..], subject, student)
  }

  /** The inner loop over one config's subjects. */
  function ConfigGroups(pass: Pass, groups: Groups, student: Name, subjects: seq<SubjectConfig>, t: Tally, day: Day): Groups
  {
    if subjects == [] then groups
    else
      var g := ConfigGroups(pass, groups, student, subjects[..|subjects| - 1], t, day);
      var s := subjects[|subjects| - 1];
      if Wants(pass, s, student, t, day) then AddTo(g, s.name, student) else g
  }

  function SubjectGroups(pass: Pass, configs: seq<StudentConfig>, t: Tally, day: Day): Groups
  {
    if configs == [] then []
    else
      var c := configs[|configs| - 1];
      ConfigGroups(pass, SubjectGroups(pass, configs[..|configs| - 1], t, day), c.name, c.subjects, t, day)
  }

  method CollectGroups(pass: Pass, configs: seq<StudentConfig>, t: Tally, day: Day) returns (groups: Groups)
    ensures groups == SubjectGroups(pass, configs, t, day)
  {
    groups := [];
    for i := 0 to |configs|
      invariant groups == SubjectGroups(pass, configs[..i], t, day)
    {
      var c := configs[i];
      ghost var base := groups;
      for j := 0 to |c.subjects|
        invariant groups == ConfigGroups(pass, base, c.name, c.subjects[..j], t, day)
      {
        var s := c.subjects[j];
        if Wants(pass, s, c.name, t, day) {
          groups := AddTo(groups, s.name, c.name);
        }
        assert c.subjects[..j + 1][..j] == c.subjects[..j];
      }
      assert c.subjects[..|c.subjects|] == c.subjects;
      assert configs[..i + 1][..i] == configs[..i];
    }
    assert configs[..|configs|] == configs;
  }

  predicate ListedUnder(groups: Groups, x: Name, subject: Name)
  {
    exists k :: 0 <= k < |groups| && groups[k].0 == subject && x in groups[k].1
  }

  predicate ListedAnywhere(groups: Groups, x: Name)
  {
    exists k :: 0 <= k < |groups| && x in groups[k].1
  }

  predicate GroupsNoDup(groups: Groups)
  {
    forall k :: 0 <= k < |groups| ==> NoDup(groups[k].1)
  }

  lemma NoDupAppend(s: seq<Name>, x: Name)
    requires NoDup(s) && x !in s
    ensures NoDup(s + [x])
  {
    var r := s + [x];
    forall i, j | 0 <= i < j < |r| ensures r[i] != r[j] {
      assert r[i] == s[i];
      if j < |s| {
        assert r[j] == s[j];
      }
    }
  }

  lemma {:induction false} AddToSound(groups: Groups, subject: Name, student: Name)
    requires GroupsNoDup(groups)
    requires !ListedUnder(groups, student, subject)
    ensures GroupsNoDup(AddTo(groups, subject, student))
    ensures forall k, x :: 0 <= k < |AddTo(groups, subject, student)| && x in AddTo(groups, subject, student)[k].1 ==>
              (x == student && AddTo(groups, subject, student)[k].0 == subject) ||
              ListedUnder(groups, x, AddTo(groups, subject, student)[k].0)
  {
    var r := AddTo(groups, subject, student);
    if groups == [] {
    } else if groups[0].0 == subject {
      assert student !in groups[0].1;
      NoDupAppend(groups[0].1, student);
      forall k | 0 <= k < |r| ensures NoDup(r[k].1) {
        if k > 0 {
          assert r[k] == groups[k];
        }
      }
      forall k, x | 0 <= k < |r| && x in r[k].1
        ensures (x == student && r[k].0 == subject) || ListedUnder(groups, x, r[k].0)
      {
        if k > 0 {
          assert r[k] == groups[k];
        } else if x != student {
          assert x in groups[0].1;
        }
      }
    } else {
      var tail := groups[1..];
      assert GroupsNoDup(tail) by {
        forall k | 0 <= k < |tail| ensures NoDup(tail[k].1) {
          assert tail[k] == groups[k + 1];
        }
      }
      forall k | 0 <= k < |tail| && tail[k].0 == subject ensures student !in tail[k].1 {
        assert groups[k + 1] == tail[k];
      }
      AddToSound(tail, subject, student);
      var rt := AddTo(tail, subject, student);
      assert r == [groups[0]] + rt;
      forall k | 0 <= k < |r| ensures NoDup(r[k].1) {
        if k > 0 {
          assert r[k] == rt[k - 1];
        }
      }
      forall k, x | 0 <= k < |r| && x in r[k].1
        ensures (x == student && r[k].0 == subject) || ListedUnder(groups, x, r[k].0)
      {
        if k == 0 {
          assert groups[0] == r[0];
        } else {
          assert r[k] == rt[k - 1];
          if !(x == student && r[k].0 == subject) {
            assert ListedUnder(tail, x, r[k].0);
            var k' :| 0 <= k' < |tail| && tail[k'].0 == r[k].0 && x in tail[k'].1;
            assert groups[k' + 1] == tail[k'];
          }
        }
      }
    }
  }

  /** The subjects of one config add the student at most once under each subject name. */
  lemma {:induction false} ConfigGroupsSound(pass: Pass, groups: Groups, student: Name, subjects: seq<SubjectConfig>, t: Tally, day: Day)
    requires DistinctSubjectNames(subjects)
    requires GroupsNoDup(groups)
    requires !ListedAnywhere(groups, student)
    ensures GroupsNoDup(ConfigGroups(pass, groups, student, subjects, t, day))
    ensures forall k, x :: (0 <= k < |ConfigGroups(pass, groups, student, subjects, t, day)| &&
                            x in ConfigGroups(pass, groups, student, subjects, t, day)[k].1) ==>
              (x == student && exists j :: 0 <= j < |subjects| && subjects[j].name == ConfigGroups(pass, groups, student, subjects, t, day)[k].0) ||
              ListedUnder(groups, x, ConfigGroups(pass, groups, student, subjects, t, day)[k].0)
  {
    if subjects != [] {
      var prefix := subjects[..|subjects| - 1];
      var s := subjects[|subjects| - 1];
      assert DistinctSubjectNames(prefix) by {
        forall i, j | 0 <= i < j < |prefix| ensures prefix[i].name != prefix[j].name {
          assert prefix[i] == subjects[i] && prefix[j] == subjects[j];
        }
      }
      ConfigGroupsSound(pass, groups, student, prefix, t, day);
      var g := ConfigGroups(pass, groups, student, prefix, t, day);
      var r := ConfigGroups(pass, groups, student, subjects, t, day);
      if Wants(pass, s, student, t, day) {
        forall j | 0 <= j < |prefix| ensures prefix[j].name != s.name {
          assert subjects[j] == prefix[j];
        }
        assert !ListedUnder(g, student, s.name);
        AddToSound(g, s.name, student);
        assert r == AddTo(g, s.name, student);
        forall k, x | 0 <= k < |r| && x in r[k].1
          ensures (x == student && exists j :: 0 <= j < |subjects| && subjects[j].name == r[k].0) || ListedUnder(groups, x, r[k].0)
        {
          if x == student && r[k].0 == s.name {
            assert subjects[|subjects| - 1].name == r[k].0;
          } else {
            assert ListedUnder(g, x, r[k].0);
            var k' :| 0 <= k' < |g| && g[k'].0 == r[k].0 && x in g[k'].1;
            if x == student && exists j :: 0 <= j < |prefix| && prefix[j].name == g[k'].0 {
              var j :| 0 <= j < |prefix| && prefix[j].name == g[k'].0;
              assert subjects[j] == prefix[j];
            }
          }
        }
      } else {
        assert r == g;
        forall k, x | 0 <= k < |r| && x in r[k].1
          ensures (x == student && exists j :: 0 <= j < |subjects| && subjects[j].name == r[k].0) || ListedUnder(groups, x, r[k].0)
        {
          if x == student && exists j :: 0 <= j < |prefix| && prefix[j].name == r[k].0 {
            var j :| 0 <= j < |prefix| && prefix[j].name == r[k].0;
            assert subjects[j] == prefix[j];
          }
        }
      }
    }
  }

  /** With distinct config and subject names no student appears twice in a subject's group, and every member is a configured student. */
  lemma {:induction false} SubjectGroupsSound(pass: Pass, configs: seq<StudentConfig>, t: Tally, day: Day)
    requires WellNamed(configs)
    ensures GroupsNoDup(SubjectGroups(pass, configs, t, day))
    ensures forall k, x :: 0 <= k < |SubjectGroups(pass, configs, t, day)| && x in SubjectGroups(pass, configs, t, day)[k].1 ==>
              exists i :: 0 <= i < |configs| && configs[i].name == x
  {
    if configs != [] {
      var prefix := configs[..|configs| - 1];
      var c := configs[|configs| - 1];
      assert WellNamed(prefix) by {
        forall i | 0 <= i < |prefix| ensures DistinctSubjectNames(prefix[i].subjects) {
          assert prefix[i] == configs[i];
        }
        forall i, j | 0 <= i < j < |prefix| ensures prefix[i].name != prefix[j].name {
          assert prefix[i] == configs[i] && prefix[j] == configs[j];
        }
      }
      SubjectGroupsSound(pass, prefix, t, day);
      var g := SubjectGroups(pass, prefix, t, day);
      forall i | 0 <= i < |prefix| ensures prefix[i].name != c.name {
        assert configs[i] == prefix[i];
      }
      ConfigGroupsSound(pass, g, c.name, c.subjects, t, day);
      var r := SubjectGroups(pass, configs, t, day);
      forall k, x | 0 <= k < |r| && x in r[k].1 ensures exists i :: 0 <= i < |configs| && configs[i].name == x {
        if x != c.name {
          assert ListedUnder(g, x, r[k].0);
          var k' :| 0 <= k' < |g| && g[k'].0 == r[k].0 && x in g[k'].1;
          var i :| 0 <= i < |prefix| && prefix[i].name == x;
          assert configs[i] == prefix[i];
        }
      }
    }
  }

  predicate HasKey(groups: Groups, subject: Name)
  {
    exists k :: 0 <= k < |groups| && groups[k].0 == subject
  }

  /** A dictionary: no subject name is a key twice. */
  predicate KeysDistinct(groups: Groups)
  {
    forall i, j :: 0 <= i < j < |groups| ==> groups[i].0 != groups[j].0
  }

  predicate NonEmptyLists(groups: Groups)
  {
    forall k :: 0 <= k < |groups| ==> groups[k].1 != []
  }

  /** One of the subjects has the name and is wanted by the student at the start of the day. */
  predicate WantsAmong(pass: Pass, subjects: seq<SubjectConfig>, student: Name, t: Tally, day: Day, subject: Name)
  {
    exists j :: 0 <= j < |subjects| && subjects[j].name == subject && Wants(pass, subjects[j], student, t, day)
  }

  /** A config of the student wants a subject of that name. */
  predicate Wanted(pass: Pass, configs: seq<StudentConfig>, t: Tally, day: Day, student: Name, subject: Name)
  {
    exists i :: 0 <= i < |configs| && configs[i].name == student && WantsAmong(pass, configs[i].subjects, student, t, day, subject)
  }

  lemma ListedCons(a: (Name, seq<Name>), r: Groups, x: Name, q: Name)
    ensures ListedUnder([a] + r, x, q) <==> (a.0 == q && x in a.1) || ListedUnder(r, x, q)
    ensures HasKey([a] + r, q) <==> a.0 == q || HasKey(r, q)
  {
    var c := [a] + r;
    assert c[0] == a;
    if ListedUnder(r, x, q) {
      var k :| 0 <= k < |r| && r[k].0 == q && x in r[k].1;
      assert c[k + 1] == r[k];
    }
    if ListedUnder(c, x, q) {
      var k :| 0 <= k < |c| && c[k].0 == q && x in c[k].1;
      if k > 0 {
        assert r[k - 1] == c[k];
      }
    }
    if HasKey(r, q) {
      var k :| 0 <= k < |r| && r[k].0 == q;
      assert c[k + 1] == r[k];
    }
    if HasKey(c, q) {
      var k :| 0 <= k < |c| && c[k].0 == q;
      if k > 0 {
        assert r[k - 1] == c[k];
      }
    }
  }

  /** `AddTo` files the student under the subject, adds the key if it is new, and changes nothing else. */
  lemma {:induction false} AddToExact(groups: Groups, subject: Name, student: Name)
    requires KeysDistinct(groups) && NonEmptyLists(groups)
    ensures KeysDistinct(AddTo(groups, subject, student)) && NonEmptyLists(AddTo(groups, subject, student))
    ensures forall x, q :: ListedUnder(AddTo(groups, subject, student), x, q) <==>
                           ListedUnder(groups, x, q) || (x == student && q == subject)
    ensures forall q :: HasKey(AddTo(groups, subject, student), q) <==> HasKey(groups, q) || q == subject
  {
    var r := AddTo(groups, subject, student);
    if groups == [] {
      assert r == [(subject, [student])] + [];
      forall x, q ensures ListedUnder(r, x, q) <==> x == student && q == subject {
        ListedCons((subject, [student]), [], x, q);
      }
      forall q ensures HasKey(r, q) <==> q == subject {
        ListedCons((subject, [student]), [], q, q);
      }
    } else {
      var h, tail := groups[0], groups[1..];
      assert groups == [h] + tail;
      assert KeysDistinct(tail) && NonEmptyLists(tail) by {
        forall i | 0 <= i < |tail| ensures tail[i] == groups[i + 1] { }
      }
      if h.0 == subject {
        var h' := (subject, h.1 + [student]);
        assert r == [h'] + tail;
        forall i, j | 0 <= i < j < |r| ensures r[i].0 != r[j].0 {
          assert r[j] == groups[j];
          if i > 0 {
            assert r[i] == groups[i];
          }
        }
        forall x, q ensures ListedUnder(r, x, q) <==> ListedUnder(groups, x, q) || (x == student && q == subject) {
          ListedCons(h', tail, x, q);
          ListedCons(h, tail, x, q);
        }
        forall q ensures HasKey(r, q) <==> HasKey(groups, q) || q == subject {
          ListedCons(h', tail, q, q);
          ListedCons(h, tail, q, q);
        }
      } else {
        AddToExact(tail, subject, student);
        var rt := AddTo(tail, subject, student);
        assert r == [h] + rt;
        forall j | 0 < j < |r| ensures r[0].0 != r[j].0 {
          assert rt[j - 1] == r[j];
          assert HasKey(rt, r[j].0);
          if HasKey(tail, r[j].0) {
            var k :| 0 <= k < |tail| && tail[k].0 == r[j].0;
            assert groups[k + 1] == tail[k];
          }
        }
        forall i, j | 0 < i < j < |r| ensures r[i].0 != r[j].0 {
          assert rt[i - 1] == r[i] && rt[j - 1] == r[j];
        }
        forall k | 0 <= k < |r| ensures r[k].1 != [] {
          if k > 0 {
            assert rt[k - 1] == r[k];
          }
        }
        forall x, q ensures ListedUnder(r, x, q) <==> ListedUnder(groups, x, q) || (x == student && q == subject) {
          ListedCons(h, rt, x, q);
          ListedCons(h, tail, x, q);
        }
        forall q ensures HasKey(r, q) <==> HasKey(groups, q) || q == subject {
          ListedCons(h, rt, q, q);
          ListedCons(h, tail, q, q);
        }
      }
    }
  }

  /** The loop over one config's subjects files the student under exactly the subjects it wants. */
  lemma {:induction false} ConfigGroupsExact(pass: Pass, groups: Groups, student: Name, subjects: seq<SubjectConfig>, t: Tally, day: Day)
    requires KeysDistinct(groups) && NonEmptyLists(groups)
    ensures var r := ConfigGroups(pass, groups, student, subjects, t, day);
      KeysDistinct(r) && NonEmptyLists(r) &&
      forall x, q :: ListedUnder(r, x, q) <==> ListedUnder(groups, x, q) || (x == student && WantsAmong(pass, subjects, student, t, day, q))
  {
    if subjects != [] {
      var prefix := subjects[..|subjects| - 1];
      var s := subjects[|subjects| - 1];
      ConfigGroupsExact(pass, groups, student, prefix, t, day);
      var g := ConfigGroups(pass, groups, student, prefix, t, day);
      var r := ConfigGroups(pass, groups, student, subjects, t, day);
      if Wants(pass, s, student, t, day) {
        AddToExact(g, s.name, student);
      }
      forall q ensures WantsAmong(pass, subjects, student, t, day, q) <==>
                       WantsAmong(pass, prefix, student, t, day, q) || (s.name == q && Wants(pass, s, student, t, day))
      {
        if WantsAmong(pass, prefix, student, t, day, q) {
          var j :| 0 <= j < |prefix| && prefix[j].name == q && Wants(pass, prefix[j], student, t, day);
          assert subjects[j] == prefix[j];
        }
        if WantsAmong(pass, subjects, student, t, day, q) {
          var j :| 0 <= j < |subjects| && subjects[j].name == q && Wants(pass, subjects[j], student, t, day);
          if j < |prefix| {
            assert subjects[j] == prefix[j];
          }
        }
      }
    }
  }

  lemma WantedLast(pass: Pass, configs: seq<StudentConfig>, t: Tally, day: Day, x: Name, q: Name)
    requires configs != []
    ensures var c := configs[|configs| - 1];
      Wanted(pass, configs, t, day, x, q) <==>
      Wanted(pass, configs[..|configs| - 1], t, day, x, q) || (c.name == x && WantsAmong(pass, c.subjects, x, t, day, q))
  {
    var prefix := configs[..|configs| - 1];
    if Wanted(pass, prefix, t, day, x, q) {
      var i :| 0 <= i < |prefix| && prefix[i].name == x && WantsAmong(pass, prefix[i].subjects, x, t, day, q);
      assert configs[i] == prefix[i];
    }
    if Wanted(pass, configs, t, day, x, q) {
      var i :| 0 <= i < |configs| && configs[i].name == x && WantsAmong(pass, configs[i].subjects, x, t, day, q);
      if i < |prefix| {
        assert configs[i] == prefix[i];
      }
    }
  }

  /**
   * `subject_groups` lists every subject some student wants, once, and under each subject
   * exactly the students who want it.
   */
  lemma {:induction false} SubjectGroupsExact(pass: Pass, configs: seq<StudentConfig>, t: Tally, day: Day)
    ensures var g := SubjectGroups(pass, configs, t, day);
      KeysDistinct(g) && NonEmptyLists(g) &&
      (forall x, q :: ListedUnder(g, x, q) <==> Wanted(pass, configs, t, day, x, q)) &&
      (forall k, x :: 0 <= k < |g| ==> (x in g[k].1 <==> Wanted(pass, configs, t, day, x, g[k].0)))
  {
    var g := SubjectGroups(pass, configs, t, day);
    if configs != [] {
      var prefix := configs[..|configs| - 1];
      var c := configs[|configs| - 1];
      SubjectGroupsExact(pass, prefix, t, day);
      ConfigGroupsExact(pass, SubjectGroups(pass, prefix, t, day), c.name, c.subjects, t, day);
      forall x, q ensures ListedUnder(g, x, q) <==> Wanted(pass, configs, t, day, x, q) {
        WantedLast(pass, configs, t, day, x, q);
      }
    }
    forall k, x | 0 <= k < |g| ensures x in g[k].1 <==> Wanted(pass, configs, t, day, x, g[k].0) {
      if ListedUnder(g, x, g[k].0) {
        var k' :| 0 <= k' < |g| && g[k'].0 == g[k].0 && x in g[k'].1;
        assert k' == k;
      }
    }
  }

  // ---------------------------------------------------------------------------------
  // remaining_students and max_minutes
  // ---------------------------------------------------------------------------------

  function Remaining(pass: Pass, needing: seq<Name>, configs: seq<StudentConfig>, t: Tally, subject: Name, day: Day): seq<Name>
  {
    if needing == [] then []
    else
      var r := Remaining(pass, needing[..|needing| - 1], configs, t, subject, day);
      var x := needing[|needing| - 1];
      if StillNeeds(pass, configs, t, x, subject, day) then r + [x] else r
  }

  method RemainingStudents(pass: Pass, needing: seq<Name>, configs: seq<StudentConfig>, t: Tally, subject: Name, day: Day)
    returns (remaining: seq<Name>)
    ensures remaining == Remaining(pass, needing, configs, t, subject, day)
  {
    remaining := [];
    for i := 0 to |needing|
      invariant remaining == Remaining(pass, needing[..i], configs, t, subject, day)
    {
      assert needing[..i + 1][..i] == needing[..i];
      if StillNeeds(pass, configs, t, needing[i], subject, day) {
        remaining := remaining + [needing[i]];
      }
    }
    assert needing[..|needing|] == needing;
  }

  /** The remaining students are exactly those of the group that still need the subject, each once. */
  lemma {:induction false} RemainingSound(pass: Pass, needing: seq<Name>, configs: seq<StudentConfig>, t: Tally, subject: Name, day: Day)
    ensures forall x :: x in Remaining(pass, needing, configs, t, subject, day) <==>
                        x in needing && StillNeeds(pass, configs, t, x, subject, day)
    ensures NoDup(needing) ==> NoDup(Remaining(pass, needing, configs, t, subject, day))
  {
    if needing != [] {
      var prefix := needing[..|needing| - 1];
      var x := needing[|needing| - 1];
      RemainingSound(pass, prefix, configs, t, subject, day);
      assert needing == prefix + [x];
      if NoDup(needing) {
        assert NoDup(prefix) by {
          forall i, j | 0 <= i < j < |prefix| ensures prefix[i] != prefix[j] {
            assert prefix[i] == needing[i] && prefix[j] == needing[j];
          }
        }
        forall i | 0 <= i < |prefix| ensures prefix[i] != x {
          assert needing[i] == prefix[i];
        }
        if StillNeeds(pass, configs, t, x, subject, day) {
          NoDupAppend(Remaining(pass, prefix, configs, t, subject, day), x);
        }
      }
    }
  }

  /** `max_minutes`: the largest per-session requirement among the remaining students, and 0 for none. */
  function MaxNeed(pass: Pass, configs: seq<StudentConfig>, remaining: seq<Name>, subject: Name): (m: int)
    ensures m >= 0
    ensures forall x :: x in remaining ==> PerSession(pass, configs, x, subject) <= m
    ensures m == 0 || exists x :: x in remaining && PerSession(pass, configs, x, subject) == m
  {
    if remaining == [] then 0
    else
      var prefix := remaining[..|remaining| - 1];
      var x := remaining[|remaining| - 1];
      assert remaining == prefix + [x];
      Max(MaxNeed(pass, configs, prefix, subject), PerSession(pass, configs, x, subject))
  }

  /** The loop that computes `max_minutes`, taking the first matching subject of each student's config. */
  method MaxMinutes(pass: Pass, remaining: seq<Name>, configs: seq<StudentConfig>, subject: Name) returns (m: int)
    ensures m == MaxNeed(pass, configs, remaining, subject)
  {
    m := 0;
    for i := 0 to |remaining|
      invariant m == MaxNeed(pass, configs, remaining[..i], subject)
    {
      assert remaining[..i + 1][..i] == remaining[..i] && remaining[..i + 1][i] == remaining[i];
      var config := ConfigOf(configs, remaining[i]);
      if config.Some? {
        var found := match pass
          case DailyPass => FirstOf(config.value.subjects, subject, Daily)
          case WeeklyPass => FirstWeeklyWithMinutes(config.value.subjects, subject);
        if found.Some? {
          var minutes := match pass
            case DailyPass => found.value.dailyMinutes
            case WeeklyPass => found.value.weeklyMinutesPerSession;
          m := Max(m, minutes);
        }
      }
    }
    assert remaining[..|remaining|] == remaining;
  }

  /** `int((x + slot_duration - 1) / slot_duration)`: true division truncated toward zero. */
  function CeilSlots(x: int): int
  {
    var n := x + SlotDuration - 1;
    if n >= 0 then n / SlotDuration else -((-n) / SlotDuration)
  }

  /** `slots_needed`, raised to 1 when it comes out as 0. */
  function SlotsNeeded(maxMinutes: int): (r: int)
    ensures maxMinutes >= 0 ==> r >= 1
  {
    if CeilSlots(maxMinutes) == 0 then 1 else CeilSlots(maxMinutes)
  }

  /** A window at least as long as the requirement spans at least `slots_needed` slots, so `slots_used >= slots_needed`. */
  lemma UsedCoversNeeded(maxMinutes: int, actual: int)
    requires 0 <= maxMinutes <= actual && actual > 0
    ensures CeilSlots(actual) >= SlotsNeeded(maxMinutes)
  {
  }

  /** For a positive number of minutes CeilSlots is the number of 30-minute slots that holds them. */
  lemma CeilSlotsBounds(x: int)
    requires x > 0
    ensures CeilSlots(x) >= 1
    ensures SlotDuration * (CeilSlots(x) - 1) < x <= SlotDuration * CeilSlots(x)
  {
  }

  // ---------------------------------------------------------------------------------
  // the greedy group and the window scan
  // ---------------------------------------------------------------------------------

  /**
   * `potential_group`: walk the candidates in order, skip a student blocked during
   * [start, end), and add one who can overlap with everyone chosen so far.
   */
  function GreedyGroup(candidates: seq<Name>, day: Day, start: int, end: int, students: seq<StudentEntry>): seq<Name>
  {
    if candidates == [] then []
    else
      var g := GreedyGroup(candidates[..|candidates| - 1], day, start, end, students);
      var s := candidates[|candidates| - 1];
      if StudentBlocked(s, day, start, end, students) then g
      else if Compatible(g + [s], students) then g + [s]
      else g
  }

  method GreedyGroupAt(candidates: seq<Name>, day: Day, start: int, end: int, students: seq<StudentEntry>)
    returns (group: seq<Name>)
    ensures group == GreedyGroup(candidates, day, start, end, students)
  {
    group := [];
    for i := 0 to |candidates|
      invariant group == GreedyGroup(candidates[..i], day, start, end, students)
    {
      assert candidates[..i + 1][..i] == candidates[..i];
      var s := candidates[i];
      var blocked := AreStudentsBlockedAtTime([s], day, start, end, students);
      assert [s][0] == s;
      if blocked {
        continue;
      }
      var ok := CheckAllCanOverlap(group + [s], students);
      if ok {
        group := group + [s];
      }
    }
    assert candidates[..|candidates|] == candidates;
  }

  /** The greedy group holds only unblocked candidates and is pairwise compatible. */
  lemma {:induction false} GreedyGroupMembers(candidates: seq<Name>, day: Day, start: int, end: int, students: seq<StudentEntry>)
    ensures forall x :: x in GreedyGroup(candidates, day, start, end, students) ==>
                        x in candidates && !StudentBlocked(x, day, start, end, students)
    ensures Compatible(GreedyGroup(candidates, day, start, end, students), students)
  {
    if candidates != [] {
      var prefix := candidates[..|candidates| - 1];
      GreedyGroupMembers(prefix, day, start, end, students);
      assert candidates == prefix + [candidates[|candidates| - 1]];
    }
  }

  /** Candidates listed once give a group listing each member once. */
  lemma {:induction false} GreedyGroupNoDup(candidates: seq<Name>, day: Day, start: int, end: int, students: seq<StudentEntry>)
    requires NoDup(candidates)
    ensures NoDup(GreedyGroup(candidates, day, start, end, students))
  {
    if candidates != [] {
      var prefix := candidates[..|candidates| - 1];
      var s := candidates[|candidates| - 1];
      assert NoDup(prefix) by {
        forall i, j | 0 <= i < j < |prefix| ensures prefix[i] != prefix[j] {
          assert prefix[i] == candidates[i] && prefix[j] == candidates[j];
        }
      }
      GreedyGroupNoDup(prefix, day, start, end, students);
      GreedyGroupMembers(prefix, day, start, end, students);
      var g := GreedyGroup(prefix, day, start, end, students);
      forall i | 0 <= i < |prefix| ensures prefix[i] != s {
        assert candidates[i] == prefix[i];
      }
      if !StudentBlocked(s, day, start, end, students) && Compatible(g + [s], students) {
        NoDupAppend(g, s);
      }
    }
  }

  /** The group is empty only when every candidate is blocked during the window. */
  lemma {:induction false} GreedyGroupNonEmpty(candidates: seq<Name>, day: Day, start: int, end: int, students: seq<StudentEntry>)
    ensures GreedyGroup(candidates, day, start, end, students) != [] <==>
            exists x :: x in candidates && !StudentBlocked(x, day, start, end, students)
  {
    GreedyGroupMembers(candidates, day, start, end, students);
    if candidates != [] {
      var prefix := candidates[..|candidates| - 1];
      var s := candidates[|candidates| - 1];
      GreedyGroupNonEmpty(prefix, day, start, end, students);
      assert candidates == prefix + [s];
      var g := GreedyGroup(prefix, day, start, end, students);
      if !StudentBlocked(s, day, start, end, students) && g == [] {
        assert Compatible([s], students);
        assert g + [s] == [s];
      }
    }
  }

  /**
   * The greedy group cannot be extended: every unblocked candidate it leaves out cannot
   * share a session with some member of the group.
   */
  lemma {:induction false} GreedyGroupMaximal(candidates: seq<Name>, day: Day, start: int, end: int, students: seq<StudentEntry>)
    ensures var g := GreedyGroup(candidates, day, start, end, students);
      forall x :: x in candidates && !StudentBlocked(x, day, start, end, students) && x !in g ==>
        exists m :: m in g && !CanStudentsOverlap(m, x, students)
  {
    if candidates != [] {
      var prefix := candidates[..|candidates| - 1];
      var s := candidates[|candidates| - 1];
      GreedyGroupMaximal(prefix, day, start, end, students);
      GreedyGroupMembers(prefix, day, start, end, students);
      var g := GreedyGroup(prefix, day, start, end, students);
      var whole := GreedyGroup(candidates, day, start, end, students);
      assert candidates == prefix + [s];
      assert forall m :: m in g ==> m in whole;
      forall x | x in candidates && !StudentBlocked(x, day, start, end, students) && x !in whole
        ensures exists m :: m in whole && !CanStudentsOverlap(m, x, students)
      {
        if x == s {
          assert !Compatible(g + [s], students);
          CompatibleExtend(g, s, students);
          var i :| 0 <= i < |g| && !CanStudentsOverlap(g[i], s, students);
          assert g[i] in whole;
        } else {
          assert x in prefix && x !in g;
        }
      }
    }
  }

  /** The window of `need` pieces starting at piece i: long enough and clear of lunch. */
  predicate WindowFits(slots: seq<Piece>, i: int, need: int, maxMinutes: int, lunch: int)
    requires need >= 1 && 0 <= i && i + need <= |slots|
  {
    var start := slots[i].0;
    var end := slots[i + need - 1].1;
    end - start >= maxMinutes && !Overlaps(start, end, lunch, lunch + LunchMinutes)
  }

  function GroupAt(slots: seq<Piece>, i: int, need: int, candidates: seq<Name>, day: Day, students: seq<StudentEntry>): seq<Name>
    requires need >= 1 && 0 <= i && i + need <= |slots|
  {
    GreedyGroup(candidates, day, slots[i].0, slots[i + need - 1].1, students)
  }

  /**
   * The scan over the windows that start before piece i: the first window whose group is
   * non-empty and larger than the group of every fitting window before it, if there is one.
   */
  function BestUpTo(slots: seq<Piece>, need: int, maxMinutes: int, lunch: int,
                    candidates: seq<Name>, day: Day, students: seq<StudentEntry>, i: int): (r: Option<(int, seq<Name>)>)
    requires need >= 1 && 0 <= i && i + need - 1 <= |slots|
    ensures r.Some? ==> 0 <= r.value.0 < i && WindowFits(slots, r.value.0, need, maxMinutes, lunch)
    ensures r.Some? ==> r.value.1 == GroupAt(slots, r.value.0, need, candidates, day, students) && r.value.1 != []
    decreases i
  {
    if i == 0 then None
    else
      var prev := BestUpTo(slots, need, maxMinutes, lunch, candidates, day, students, i - 1);
      if WindowFits(slots, i - 1, need, maxMinutes, lunch) then
        var g := GroupAt(slots, i - 1, need, candidates, day, students);
        if g != [] && (prev.None? || |g| > |prev.value.1|) then Some((i - 1, g)) else prev
      else prev
  }

  /** The window the scan over `range(len(available_slots) - slots_needed + 1)` commits, with its group. */
  function BestWindow(slots: seq<Piece>, need: int, maxMinutes: int, lunch: int,
                      candidates: seq<Name>, day: Day, students: seq<StudentEntry>): (r: Option<(int, seq<Name>)>)
    requires need >= 1
    ensures r.Some? ==> 0 <= r.value.0 && r.value.0 + need <= |slots| && WindowFits(slots, r.value.0, need, maxMinutes, lunch)
    ensures r.Some? ==> r.value.1 == GroupAt(slots, r.value.0, need, candidates, day, students) && r.value.1 != []
  {
    if |slots| - need + 1 <= 0 then None
    else BestUpTo(slots, need, maxMinutes, lunch, candidates, day, students, |slots| - need + 1)
  }

  /** The scan keeps the first largest group: earlier fitting windows have smaller groups, later ones no larger. */
  lemma {:induction false} BestUpToMeaning(slots: seq<Piece>, need: int, maxMinutes: int, lunch: int,
                                           candidates: seq<Name>, day: Day, students: seq<StudentEntry>, i: int)
    requires need >= 1 && 0 <= i && i + need - 1 <= |slots|
    ensures var r := BestUpTo(slots, need, maxMinutes, lunch, candidates, day, students, i);
      (r.Some? ==> forall j :: 0 <= j < r.value.0 && WindowFits(slots, j, need, maxMinutes, lunch) ==>
                     |GroupAt(slots, j, need, candidates, day, students)| < |r.value.1|) &&
      (r.Some? ==> forall j :: r.value.0 < j < i && WindowFits(slots, j, need, maxMinutes, lunch) ==>
                     |GroupAt(slots, j, need, candidates, day, students)| <= |r.value.1|) &&
      (r.None? ==> forall j :: 0 <= j < i && WindowFits(slots, j, need, maxMinutes, lunch) ==>
                     GroupAt(slots, j, need, candidates, day, students) == [])
  {
    if i > 0 {
      BestUpToMeaning(slots, need, maxMinutes, lunch, candidates, day, students, i - 1);
    }
  }

  /**
   * The committed window is the first fitting window whose group is largest, and nothing is
   * committed exactly when every fitting window has an empty group.
   */
  lemma BestWindowMeaning(slots: seq<Piece>, need: int, maxMinutes: int, lunch: int,
                          candidates: seq<Name>, day: Day, students: seq<StudentEntry>)
    requires need >= 1
    ensures var r := BestWindow(slots, need, maxMinutes, lunch, candidates, day, students);
      (r.Some? ==> forall j :: 0 <= j < r.value.0 && WindowFits(slots, j, need, maxMinutes, lunch) ==>
                     |GroupAt(slots, j, need, candidates, day, students)| < |r.value.1|) &&
      (r.Some? ==> forall j :: r.value.0 < j && j + need <= |slots| && WindowFits(slots, j, need, maxMinutes, lunch) ==>
                     |GroupAt(slots, j, need, candidates, day, students)| <= |r.value.1|) &&
      (r.None? <==> forall j :: 0 <= j && j + need <= |slots| && WindowFits(slots, j, need, maxMinutes, lunch) ==>
                     GroupAt(slots, j, need, candidates, day, students) == [])
  {
    if |slots| - need + 1 > 0 {
      BestUpToMeaning(slots, need, maxMinutes, lunch, candidates, day, students, |slots| - need + 1);
    }
  }

  /** The scan over `range(len(available_slots) - slots_needed + 1)`, with GreedyGroupAt for each fitting window. */
  method FindBestWindow(slots: seq<Piece>, need: int, maxMinutes: int, lunch: int,
                        candidates: seq<Name>, day: Day, students: seq<StudentEntry>)
    returns (found: bool, best: int, group: seq<Name>)
    requires need >= 1
    ensures (if found then Some((best, group)) else None) == BestWindow(slots, need, maxMinutes, lunch, candidates, day, students)
  {
    found, best, group := false, 0, [];
    var count := |slots| - need + 1;
    if count <= 0 {
      return;
    }
    for i := 0 to count
      invariant (if found then Some((best, group)) else None) ==
                BestUpTo(slots, need, maxMinutes, lunch, candidates, day, students, i)
    {
      var start := slots[i].0;
      var end := slots[i + need - 1].1;
      var actual := end - start;
      if actual < maxMinutes {
        continue;
      }
      if Overlaps(start, end, lunch, lunch + LunchMinutes) {
        continue;
      }
      var potential := GreedyGroupAt(candidates, day, start, end, students);
      if potential != [] && (!found || |potential| > |group|) {
        found, best, group := true, i, potential;
      }
    }
  }

  // ---------------------------------------------------------------------------------
  // committing a session
  // ---------------------------------------------------------------------------------

  /**
   * The tracking update for one member.  The daily pass assigns the day's minutes, the
   * weekly pass adds to them and marks the subject as taken on the day; both add to the
   * weekly minutes and count one more session.
   */
  function Record(pass: Pass, t: Tally, student: Name, subject: Name, day: Day, actual: int): Tally
  {
    Tally(t.minutesByDay[(student, subject, day) := if pass == DailyPass then actual else MinutesOn(t, student, subject, day) + actual],
          t.weeklyMinutes[(student, subject) := WeeklyTotal(t, student, subject) + actual],
          t.weeklySessions[(student, subject) := Sessions(t, student, subject) + 1],
          if pass == WeeklyPass then t.scheduledOn + {(student, day, subject)} else t.scheduledOn)
  }

  function Recorded(pass: Pass, t: Tally, group: seq<Name>, subject: Name, day: Day, actual: int): Tally
  {
    if group == [] then t
    else Record(pass, Recorded(pass, t, group[..|group| - 1], subject, day, actual), group[|group| - 1], subject, day, actual)
  }

  /** The loop `for student in best_group:` over the tracking dictionaries. */
  method RecordSession(pass: Pass, t: Tally, group: seq<Name>, subject: Name, day: Day, actual: int) returns (r: Tally)
    ensures r == Recorded(pass, t, group, subject, day, actual)
  {
    var minutesByDay, weeklyMinutes, weeklySessions, scheduledOn := t.minutesByDay, t.weeklyMinutes, t.weeklySessions, t.scheduledOn;
    for i := 0 to |group|
      invariant Tally(minutesByDay, weeklyMinutes, weeklySessions, scheduledOn) == Recorded(pass, t, group[..i], subject, day, actual)
    {
      assert group[..i + 1][..i] == group[..i];
      var before := Tally(minutesByDay, weeklyMinutes, weeklySessions, scheduledOn);
      var student := group[i];
      // the daily pass assigns the day's minutes, the weekly pass adds to them
      var minutes := if pass == DailyPass then actual else MinutesOn(before, student, subject, day) + actual;
      minutesByDay := minutesByDay[(student, subject, day) := minutes];
      weeklyMinutes := weeklyMinutes[(student, subject) := WeeklyTotal(before, student, subject) + actual];
      weeklySessions := weeklySessions[(student, subject) := Sessions(before, student, subject) + 1];
      if pass == WeeklyPass {
        scheduledOn := scheduledOn + {(student, day, subject)};
      }
      assert Tally(minutesByDay, weeklyMinutes, weeklySessions, scheduledOn) == Record(pass, before, student, subject, day, actual);
    }
    assert group[..|group|] == group;
    r := Tally(minutesByDay, weeklyMinutes, weeklySessions, scheduledOn);
  }

    /** Splitting a duplicate-free group at its last member. */
  lemma LastApart(group: seq<Name>)
    requires NoDup(group) && group != []
    ensures NoDup(group[..|group| - 1])
    ensures group[|group| - 1] !in group[..|group| - 1]
    ensures forall x :: x in group <==> x in group[..|group| - 1] || x == group[|group| - 1]
  {
    var prefix := group[..|group| - 1];
    var s := group[|group| - 1];
    assert group == prefix + [s];
    forall i, j | 0 <= i < j < |prefix| ensures prefix[i] != prefix[j] {
      assert prefix[i] == group[i] && prefix[j] == group[j];
    }
    forall i | 0 <= i < |prefix| ensures prefix[i] != s {
      assert group[i] == prefix[i];
    }
  }

  /** Each member of the group gains one session of the subject; nothing else changes. */
  lemma {:induction false} RecordedSessions(pass: Pass, t: Tally, group: seq<Name>, subject: Name, day: Day, actual: int)
    requires NoDup(group)
    ensures forall x, y :: Sessions(Recorded(pass, t, group, subject, day, actual), x, y) ==
                           Sessions(t, x, y) + (if x in group && y == subject then 1 else 0)
  {
    if group != [] {
      var prefix, s := group[..|group| - 1], group[|group| - 1];
      LastApart(group);
      RecordedSessions(pass, t, prefix, subject, day, actual);
      var r := Recorded(pass, t, group, subject, day, actual);
      assert r == Record(pass, Recorded(pass, t, prefix, subject, day, actual), s, subject, day, actual);
    }
  }

  /** Each member of the group gains the session's minutes in its weekly total; nothing else changes. */
  lemma {:induction false} RecordedWeekly(pass: Pass, t: Tally, group: seq<Name>, subject: Name, day: Day, actual: int)
    requires NoDup(group)
    ensures forall x, y :: WeeklyTotal(Recorded(pass, t, group, subject, day, actual), x, y) ==
                           WeeklyTotal(t, x, y) + (if x in group && y == subject then actual else 0)
  {
    if group != [] {
      var prefix, s := group[..|group| - 1], group[|group| - 1];
      LastApart(group);
      RecordedWeekly(pass, t, prefix, subject, day, actual);
      var r := Recorded(pass, t, group, subject, day, actual);
      assert r == Record(pass, Recorded(pass, t, prefix, subject, day, actual), s, subject, day, actual);
    }
  }

  /** The day's minutes: set to the session's length by the daily pass, increased by it by the weekly pass. */
  lemma {:induction false} RecordedMinutes(pass: Pass, t: Tally, group: seq<Name>, subject: Name, day: Day, actual: int)
    requires NoDup(group)
    ensures forall x, y, d :: MinutesOn(Recorded(pass, t, group, subject, day, actual), x, y, d) ==
                              if x in group && y == subject && d == day then
                                (if pass == DailyPass then actual else MinutesOn(t, x, y, d) + actual)
                              else MinutesOn(t, x, y, d)
  {
    if group != [] {
      var prefix, s := group[..|group| - 1], group[|group| - 1];
      LastApart(group);
      RecordedMinutes(pass, t, prefix, subject, day, actual);
      var t0 := Recorded(pass, t, prefix, subject, day, actual);
      var r := Recorded(pass, t, group, subject, day, actual);
      assert r == Record(pass, t0, s, subject, day, actual);
      forall x, y, d
        ensures MinutesOn(r, x, y, d) ==
                if x in group && y == subject && d == day then
                  (if pass == DailyPass then actual else MinutesOn(t, x, y, d) + actual)
                else MinutesOn(t, x, y, d)
      {
        if x == s && y == subject && d == day {
          assert MinutesOn(t0, x, y, d) == MinutesOn(t, x, y, d);
        } else {
          assert MinutesOn(r, x, y, d) == MinutesOn(t0, x, y, d);
        }
      }
    }
  }

  /** The weekly pass marks every member as having the subject on the day; the daily pass marks nothing. */
  lemma {:induction false} RecordedMarks(pass: Pass, t: Tally, group: seq<Name>, subject: Name, day: Day, actual: int)
    ensures Recorded(pass, t, group, subject, day, actual).scheduledOn ==
            if pass == WeeklyPass then t.scheduledOn + (set x | x in group :: (x, day, subject)) else t.scheduledOn
  {
    if group != [] {
      var prefix, s := group[..|group| - 1], group[|group| - 1];
      assert group == prefix + [s];
      RecordedMarks(pass, t, prefix, subject, day, actual);
      if pass == WeeklyPass {
        assert (set x | x in group :: (x, day, subject)) == (set x | x in prefix :: (x, day, subject)) + {(s, day, subject)};
      }
    }
  }

  /** What recording a session does to every tracking dictionary. */
  lemma RecordedEffect(pass: Pass, t: Tally, group: seq<Name>, subject: Name, day: Day, actual: int)
    requires NoDup(group)
    ensures forall x, y :: Sessions(Recorded(pass, t, group, subject, day, actual), x, y) ==
                           Sessions(t, x, y) + (if x in group && y == subject then 1 else 0)
    ensures forall x, y :: WeeklyTotal(Recorded(pass, t, group, subject, day, actual), x, y) ==
                           WeeklyTotal(t, x, y) + (if x in group && y == subject then actual else 0)
    ensures forall x, y, d :: MinutesOn(Recorded(pass, t, group, subject, day, actual), x, y, d) ==
                              if x in group && y == subject && d == day then
                                (if pass == DailyPass then actual else MinutesOn(t, x, y, d) + actual)
                              else MinutesOn(t, x, y, d)
    ensures Recorded(pass, t, group, subject, day, actual).scheduledOn ==
            if pass == WeeklyPass then t.scheduledOn + (set x | x in group :: (x, day, subject)) else t.scheduledOn
  {
    RecordedSessions(pass, t, group, subject, day, actual);
    RecordedWeekly(pass, t, group, subject, day, actual);
    RecordedMinutes(pass, t, group, subject, day, actual);
    RecordedMarks(pass, t, group, subject, day, actual);
  }

  // ---------------------------------------------------------------------------------
  // the passes as functions of their inputs
  // ---------------------------------------------------------------------------------

  /**
   * One round of the `while True` loop for one subject on one day: None when it stops
   * (nobody still needs the subject, the day has no piece left, or no window has a group),
   * otherwise the session it appends and the number of pieces it drops, `best + slots_used`
   * capped at the number of pieces.
   */
  function SubjectStep(pass: Pass, req: ScheduleRequest, day: Day, subject: Name, needing: seq<Name>,
                       slots: seq<Piece>, t: Tally): (r: Option<(int, int, seq<Name>, int)>)
    requires WellFormed(slots)
    ensures r.Some? ==> r.value.0 < r.value.1 && r.value.2 != [] &&
                        0 < r.value.3 <= |slots| && WellFormed(slots[r.value.3..])
  {
    var remaining := Remaining(pass, needing, req.studentConfigs, t, subject, day);
    if remaining == [] || slots == [] then None
    else
      var m := MaxNeed(pass, req.studentConfigs, remaining, subject);
      CommitOf(slots, SlotsNeeded(m), BestWindow(slots, SlotsNeeded(m), m, req.lunchTime, remaining, day, req.students))
  }

  /**
   * The commit branch of a round, from the window the scan found: the session runs from the
   * start of the window's first piece to the end of its last, and the round drops
   * `best + slots_used` pieces, capped at the number of pieces.
   */
  function CommitOf(slots: seq<Piece>, need: int, w: Option<(int, seq<Name>)>): (r: Option<(int, int, seq<Name>, int)>)
    requires WellFormed(slots) && need >= 1
    requires w.Some? ==> 0 <= w.value.0 && w.value.0 + need <= |slots| && w.value.1 != []
    ensures r.Some? <==> w.Some?
    ensures r.Some? ==> r.value.0 < r.value.1 && r.value.2 != [] &&
                        0 < r.value.3 <= |slots| && WellFormed(slots[r.value.3..])
  {
    if w.None? then None
    else
      var best, group := w.value.0, w.value.1;
      var start, end := slots[best].0, slots[best + need - 1].1;
      WellFormedSuffix(slots, CutIndex(slots, best, need));
      Some((start, end, group, CutIndex(slots, best, need)))
  }

  /** `best + slots_used`, capped at the number of pieces: the pieces before it are gone once window `best` is committed. */
  function CutIndex(slots: seq<Piece>, best: int, need: int): (r: int)
    requires WellFormed(slots) && need >= 1 && 0 <= best && best + need <= |slots|
    ensures best < r <= |slots|
  {
    WindowPositive(slots, best, need);
    Min(best + CeilSlots(slots[best + need - 1].1 - slots[best].0), |slots|)
  }

  /**
   * The whole loop for one subject on one day: the sessions it appends, the pieces left and
   * the tally after them.  The tally is the old one with the sessions recorded in order, and
   * the loop ends only in one of its three stopping states.
   */
  function SubjectRun(pass: Pass, req: ScheduleRequest, day: Day, subject: Name, needing: seq<Name>,
                      slots: seq<Piece>, t: Tally): (r: (seq<TimeSlot>, seq<Piece>, Tally))
    requires WellFormed(slots)
    ensures WellFormed(r.1) && |r.1| <= |slots|
    ensures r.2 == TallyAfter(pass, t, r.0)
    ensures Stopped(pass, req, day, subject, needing, r.1, r.2)
    decreases |slots|, 1
  {
    var step := SubjectStep(pass, req, day, subject, needing, slots, t);
    if step.None? then
      StepNoneStopped(pass, req, day, subject, needing, slots, t);
      ([], slots, t)
    else SubjectRunFrom(pass, req, day, subject, needing, slots, t, step.value.0, step.value.1, step.value.2, step.value.3)
  }

  /**
   * The loop after a round that commits the session of `group` from `start` to `end` and
   * drops `cut` pieces: that session, then the loop from the pieces after the cut.
   */
  function SubjectRunFrom(pass: Pass, req: ScheduleRequest, day: Day, subject: Name, needing: seq<Name>,
                          slots: seq<Piece>, t: Tally, start: int, end: int, group: seq<Name>, cut: int)
    : (r: (seq<TimeSlot>, seq<Piece>, Tally))
    requires WellFormed(slots) && 0 < cut <= |slots| && WellFormed(slots[cut..])
    ensures WellFormed(r.1) && |r.1| <= |slots|
    ensures r.2 == TallyAfter(pass, t, r.0)
    ensures Stopped(pass, req, day, subject, needing, r.1, r.2)
    decreases |slots|, 0
  {
    var next := SubjectRun(pass, req, day, subject, needing, slots[cut..],
                           Recorded(pass, t, group, subject, day, end - start));
    TallyAfterSession(pass, t, day, start, end, group, subject, next.0);
    ([TimeSlot(day, start, end, Session(group, subject))] + next.0, next.1, next.2)
  }

  /** Unfolding the loop by one round, without looking inside the round. */
  lemma SubjectRunUnfold(pass: Pass, req: ScheduleRequest, day: Day, subject: Name, needing: seq<Name>,
                         slots: seq<Piece>, t: Tally)
    requires WellFormed(slots)
    ensures var step := SubjectStep(pass, req, day, subject, needing, slots, t);
      SubjectRun(pass, req, day, subject, needing, slots, t) ==
      if step.None? then ([], slots, t)
      else SubjectRunFrom(pass, req, day, subject, needing, slots, t, step.value.0, step.value.1, step.value.2, step.value.3)
  {
  }

  /** The loop `for subject, needing in subject_groups.items():` of one day. */
  function GroupsRun(pass: Pass, req: ScheduleRequest, day: Day, groups: Groups,
                     slots: seq<Piece>, t: Tally): (r: (seq<TimeSlot>, seq<Piece>, Tally))
    requires WellFormed(slots)
    ensures WellFormed(r.1)
    ensures r.2 == TallyAfter(pass, t, r.0)
  {
    if groups == [] then ([], slots, t)
    else
      var p := GroupsRun(pass, req, day, groups[..|groups| - 1], slots, t);
      var g := groups[|groups| - 1];
      if g.1 == [] then p
      else
        var s := SubjectRun(pass, req, day, g.0, g.1, p.1, p.2);
        TallyAfterConcat(pass, t, p.0, s.0);
        (p.0 + s.0, s.1, s.2)
  }

  /** The loop over the working days: each day's groups are collected from the tally as the day starts. */
  function PassRun(pass: Pass, req: ScheduleRequest, days: seq<Day>, avail: map<Day, seq<Piece>>, t: Tally)
    : (r: (seq<TimeSlot>, map<Day, seq<Piece>>, Tally))
    requires AllWellFormed(avail)
    ensures AllWellFormed(r.1) && r.1.Keys == avail.Keys
    ensures r.2 == TallyAfter(pass, t, r.0)
  {
    if days == [] then ([], avail, t)
    else
      var p := PassRun(pass, req, days[..|days| - 1], avail, t);
      var day := days[|days| - 1];
      if day !in p.1 then p
      else
        var g := GroupsRun(pass, req, day, SubjectGroups(pass, req.studentConfigs, p.2, day), p.1[day], p.2);
        TallyAfterConcat(pass, t, p.0, g.0);
        (p.0 + g.0, p.1[day := g.1], g.2)
  }
  /** One more subject of the day's loop `for subject, needing in subject_groups.items():`. */
  lemma GroupsRunStep(pass: Pass, req: ScheduleRequest, day: Day, groups: Groups, k: int, slots: seq<Piece>, t: Tally)
    requires 0 <= k < |groups| && WellFormed(slots)
    ensures var q, r := GroupsRun(pass, req, day, groups[..k], slots, t), GroupsRun(pass, req, day, groups[..k + 1], slots, t);
      if groups[k].1 == [] then r.0 == q.0 && r.1 == q.1 && r.2 == q.2
      else
        var s := SubjectRun(pass, req, day, groups[k].0, groups[k].1, q.1, q.2);
        r.0 == q.0 + s.0 && r.1 == s.1 && r.2 == s.2
  {
    assert groups[..k + 1][..k] == groups[..k];
  }

  /** One more day of the loop `for day in request.working_hours.days:`. */
  lemma PassRunStep(pass: Pass, req: ScheduleRequest, days: seq<Day>, i: int, avail: map<Day, seq<Piece>>, t: Tally)
    requires 0 <= i < |days| && AllWellFormed(avail)
    ensures var p, r := PassRun(pass, req, days[..i], avail, t), PassRun(pass, req, days[..i + 1], avail, t);
      if days[i] !in p.1 then r.0 == p.0 && r.1 == p.1 && r.2 == p.2
      else
        var g := GroupsRun(pass, req, days[i], SubjectGroups(pass, req.studentConfigs, p.2, days[i]), p.1[days[i]], p.2);
        r.0 == p.0 + g.0 && r.1 == p.1[days[i] := g.1] && r.2 == g.2
  {
    assert days[..i + 1][..i] == days[..i];
  }


  /** The tracking dictionaries after recording the sessions one after the other. */
  function TallyAfter(pass: Pass, t: Tally, sessions: seq<TimeSlot>): Tally
    decreases |sessions|
  {
    if sessions == [] then t
    else
      var e := sessions[0];
      var t1 := if e.kind.Session? then Recorded(pass, t, e.kind.members, e.kind.subject, e.day, e.end - e.start) else t;
      TallyAfter(pass, t1, sessions[1..])
  }

  predicate Attends(e: TimeSlot, student: Name, subject: Name)
  {
    e.kind.Session? && student in e.kind.members && e.kind.subject == subject
  }

  /** The number of the sessions the student attends for the subject. */
  function SessionCount(sessions: seq<TimeSlot>, student: Name, subject: Name): nat
  {
    if sessions == [] then 0
    else (if Attends(sessions[0], student, subject) then 1 else 0) + SessionCount(sessions[1..], student, subject)
  }

  /** The minutes of the sessions the student attends for the subject. */
  function SessionMinutes(sessions: seq<TimeSlot>, student: Name, subject: Name): int
  {
    if sessions == [] then 0
    else (if Attends(sessions[0], student, subject) then sessions[0].end - sessions[0].start else 0) +
         SessionMinutes(sessions[1..], student, subject)
  }

  lemma {:induction false} TallyAfterConcat(pass: Pass, t: Tally, a: seq<TimeSlot>, b: seq<TimeSlot>)
    ensures TallyAfter(pass, t, a + b) == TallyAfter(pass, TallyAfter(pass, t, a), b)
    decreases |a|
  {
    if a == [] {
      assert a + b == b;
    } else {
      var e := a[0];
      var t1 := if e.kind.Session? then Recorded(pass, t, e.kind.members, e.kind.subject, e.day, e.end - e.start) else t;
      assert (a + b)[0] == e && (a + b)[1..] == a[1..] + b;
      TallyAfterConcat(pass, t1, a[1..], b);
    }
  }

  lemma TallyAfterSession(pass: Pass, t: Tally, day: Day, start: int, end: int, group: seq<Name>, subject: Name,
                          rest: seq<TimeSlot>)
    ensures TallyAfter(pass, t, [TimeSlot(day, start, end, Session(group, subject))] + rest) ==
            TallyAfter(pass, Recorded(pass, t, group, subject, day, end - start), rest)
  {
    var e := TimeSlot(day, start, end, Session(group, subject));
    assert ([e] + rest)[0] == e && ([e] + rest)[1..] == rest;
  }

  /**
   * Recording sessions whose groups list each member once adds, for every student and
   * subject, one session per session attended and its minutes to the weekly total.
   */
  lemma {:induction false} TallyAfterCounts(pass: Pass, t: Tally, sessions: seq<TimeSlot>)
    requires forall e :: e in sessions && e.kind.Session? ==> NoDup(e.kind.members)
    ensures forall x, y :: Sessions(TallyAfter(pass, t, sessions), x, y) == Sessions(t, x, y) + SessionCount(sessions, x, y)
    ensures forall x, y :: WeeklyTotal(TallyAfter(pass, t, sessions), x, y) == WeeklyTotal(t, x, y) + SessionMinutes(sessions, x, y)
    decreases |sessions|
  {
    if sessions != [] {
      var e := sessions[0];
      var t1 := if e.kind.Session? then Recorded(pass, t, e.kind.members, e.kind.subject, e.day, e.end - e.start) else t;
      assert e in sessions;
      if e.kind.Session? {
        RecordedSessions(pass, t, e.kind.members, e.kind.subject, e.day, e.end - e.start);
        RecordedWeekly(pass, t, e.kind.members, e.kind.subject, e.day, e.end - e.start);
      }
      assert forall f :: f in sessions[1..] ==> f in sessions;
      TallyAfterCounts(pass, t1, sessions[1..]);
    }
  }

  /** Nobody needs the subject any more, the day has no piece left, or every fitting window has an empty group. */
  predicate Stopped(pass: Pass, req: ScheduleRequest, day: Day, subject: Name, needing: seq<Name>, slots: seq<Piece>, t: Tally)
  {
    var remaining := Remaining(pass, needing, req.studentConfigs, t, subject, day);
    var m := MaxNeed(pass, req.studentConfigs, remaining, subject);
    var need := SlotsNeeded(m);
    remaining == [] || slots == [] ||
    forall i :: 0 <= i && i + need <= |slots| && WindowFits(slots, i, need, m, req.lunchTime) ==>
      GroupAt(slots, i, need, remaining, day, req.students) == []
  }

  /** A round that commits nothing is in one of the three stopping states. */
  lemma StepNoneStopped(pass: Pass, req: ScheduleRequest, day: Day, subject: Name, needing: seq<Name>,
                        slots: seq<Piece>, t: Tally)
    requires WellFormed(slots) && SubjectStep(pass, req, day, subject, needing, slots, t).None?
    ensures Stopped(pass, req, day, subject, needing, slots, t)
  {
    var remaining := Remaining(pass, needing, req.studentConfigs, t, subject, day);
    var m := MaxNeed(pass, req.studentConfigs, remaining, subject);
    BestWindowMeaning(slots, SlotsNeeded(m), m, req.lunchTime, remaining, day, req.students);
  }

  /** A round in which nobody still needs the subject, or the day has no piece left, or no window has a group, stops. */
  lemma StepStops(pass: Pass, req: ScheduleRequest, day: Day, subject: Name, needing: seq<Name>,
                  slots: seq<Piece>, t: Tally, remaining: seq<Name>, m: int)
    requires WellFormed(slots) && remaining == Remaining(pass, needing, req.studentConfigs, t, subject, day)
    requires m == MaxNeed(pass, req.studentConfigs, remaining, subject)
    requires remaining == [] || slots == [] ||
             BestWindow(slots, SlotsNeeded(m), m, req.lunchTime, remaining, day, req.students).None?
    ensures SubjectStep(pass, req, day, subject, needing, slots, t).None?
  {
  }

  /**
   * A round whose scan found window `best` with `group` commits the session from the start of
   * the window's first piece (`start`) to the end of its last (`end`) and drops the pieces
   * before `best + slots_used`, capped (`cut`).
   */
  lemma StepCommits(pass: Pass, req: ScheduleRequest, day: Day, subject: Name, needing: seq<Name>,
                    slots: seq<Piece>, t: Tally, remaining: seq<Name>, m: int, need: int, best: int, group: seq<Name>,
                    start: int, end: int, cut: int)
    requires WellFormed(slots) && remaining == Remaining(pass, needing, req.studentConfigs, t, subject, day)
    requires remaining != [] && slots != [] && m == MaxNeed(pass, req.studentConfigs, remaining, subject)
    requires need == SlotsNeeded(m) && BestWindow(slots, need, m, req.lunchTime, remaining, day, req.students) == Some((best, group))
    requires 0 <= best && best + need <= |slots|
    requires start == slots[best].0 && end == slots[best + need - 1].1 && cut == CutIndex(slots, best, need)
    ensures SubjectStep(pass, req, day, subject, needing, slots, t) == Some((start, end, group, cut))
  {
    CommitOfWindow(slots, need, best, group);
  }

  /** Committing window `best`: the session spans the window's pieces and the cut is `best + slots_used`, capped. */
  lemma CommitOfWindow(slots: seq<Piece>, need: int, best: int, group: seq<Name>)
    requires WellFormed(slots) && need >= 1 && 0 <= best && best + need <= |slots| && group != []
    ensures CommitOf(slots, need, Some((best, group))) ==
            Some((slots[best].0, slots[best + need - 1].1, group, CutIndex(slots, best, need)))
  {
  }

  /** The loop from a round that commits: that round's session, then the loop from what it leaves. */
  lemma RunAfterStep(pass: Pass, req: ScheduleRequest, day: Day, subject: Name, needing: seq<Name>,
                     slots: seq<Piece>, t: Tally, start: int, end: int, group: seq<Name>, cut: int)
    requires WellFormed(slots) && SubjectStep(pass, req, day, subject, needing, slots, t) == Some((start, end, group, cut))
    ensures 0 < cut <= |slots| && WellFormed(slots[cut..])
    ensures var r, f := SubjectRun(pass, req, day, subject, needing, slots, t),
                        SubjectRunFrom(pass, req, day, subject, needing, slots, t, start, end, group, cut);
      r.0 == f.0 && r.1 == f.1 && r.2 == f.2
  {
    SubjectRunUnfold(pass, req, day, subject, needing, slots, t);
  }

  /** The loop after a committed session: that session, then the loop from the pieces after the cut with the session recorded. */
  lemma RunFromUnfold(pass: Pass, req: ScheduleRequest, day: Day, subject: Name, needing: seq<Name>,
                      slots: seq<Piece>, t: Tally, start: int, end: int, group: seq<Name>, cut: int)
    requires WellFormed(slots) && 0 < cut <= |slots| && WellFormed(slots[cut..])
    ensures var next := SubjectRun(pass, req, day, subject, needing, slots[cut..], Recorded(pass, t, group, subject, day, end - start));
      var r := SubjectRunFrom(pass, req, day, subject, needing, slots, t, start, end, group, cut);
      r.0 == [TimeSlot(day, start, end, Session(group, subject))] + next.0 && r.1 == next.1 && r.2 == next.2
  {
  }

  /**
   * A committing round is one round of the loop: the loop from `slots` is the committed
   * session followed by the loop from the pieces after the cut, with that session recorded.
   */
  lemma CommitRound(pass: Pass, req: ScheduleRequest, day: Day, subject: Name, needing: seq<Name>,
                    slots: seq<Piece>, t: Tally, start: int, end: int, group: seq<Name>, cut: int)
    requires WellFormed(slots) && SubjectStep(pass, req, day, subject, needing, slots, t) == Some((start, end, group, cut))
    ensures 0 < cut <= |slots| && WellFormed(slots[cut..])
    ensures var before, after := SubjectRun(pass, req, day, subject, needing, slots, t),
                                 SubjectRun(pass, req, day, subject, needing, slots[cut..], Recorded(pass, t, group, subject, day, end - start));
      before.0 == [TimeSlot(day, start, end, Session(group, subject))] + after.0 &&
      before.1 == after.1 && before.2 == after.2
  {
    RunAfterStep(pass, req, day, subject, needing, slots, t, start, end, group, cut);
    RunFromUnfold(pass, req, day, subject, needing, slots, t, start, end, group, cut);
  }

  /**
   * The loop of ScheduleSubject keeps `full == added + rest`, where `rest` is what SubjectRun
   * still has to do from the current pieces and tally: a round that commits, and leaves
   * `slots'` and `t'`, moves one session from `rest` to `added`.
   */
  lemma StepKeepsSplit(pass: Pass, req: ScheduleRequest, day: Day, subject: Name, needing: seq<Name>,
                       slots: seq<Piece>, t: Tally, start: int, end: int, group: seq<Name>, cut: int,
                       slots': seq<Piece>, t': Tally, full: (seq<TimeSlot>, seq<Piece>, Tally), added: seq<TimeSlot>)
    requires WellFormed(slots) && SubjectStep(pass, req, day, subject, needing, slots, t) == Some((start, end, group, cut))
    requires t' == Recorded(pass, t, group, subject, day, end - start) && slots' == slots[cut..]
    requires var cur := SubjectRun(pass, req, day, subject, needing, slots, t);
      full.0 == added + cur.0 && full.1 == cur.1 && full.2 == cur.2
    ensures WellFormed(slots')
    ensures var cur := SubjectRun(pass, req, day, subject, needing, slots', t');
      full.0 == (added + [TimeSlot(day, start, end, Session(group, subject))]) + cur.0 &&
      full.1 == cur.1 && full.2 == cur.2
  {
    CommitRound(pass, req, day, subject, needing, slots, t, start, end, group, cut);
    AppendAssoc(added, [TimeSlot(day, start, end, Session(group, subject))], SubjectRun(pass, req, day, subject, needing, slots', t').0);
  }

  /** When the loop of ScheduleSubject stops, `added` is all SubjectRun commits. */
  lemma StopKeepsSplit(pass: Pass, req: ScheduleRequest, day: Day, subject: Name, needing: seq<Name>,
                       slots: seq<Piece>, t: Tally, full: (seq<TimeSlot>, seq<Piece>, Tally), added: seq<TimeSlot>)
    requires WellFormed(slots) && SubjectStep(pass, req, day, subject, needing, slots, t).None?
    requires var cur := SubjectRun(pass, req, day, subject, needing, slots, t);
      full.0 == added + cur.0 && full.1 == cur.1 && full.2 == cur.2
    ensures full.0 == added && full.1 == slots && full.2 == t
    ensures Stopped(pass, req, day, subject, needing, slots, t)
  {
    SubjectRunUnfold(pass, req, day, subject, needing, slots, t);
    assert added + [] == added;
  }

  // ---------------------------------------------------------------------------------
  // what the passes keep true
  // ---------------------------------------------------------------------------------

  /**
   * A committed session: a non-empty group, each member once, holding the subject during a non-empty window
   * clear of lunch, no member blocked then, all members pairwise compatible, and at least
   * as long as every member's requirement.
   */
  ghost predicate SessionOk(pass: Pass, req: ScheduleRequest, e: TimeSlot)
  {
    e.kind.Session? && e.kind.members != [] && NoDup(e.kind.members) && e.start < e.end &&
    !Overlaps(e.start, e.end, req.lunchTime, req.lunchTime + LunchMinutes) &&
    Compatible(e.kind.members, req.students) &&
    (forall x :: x in e.kind.members ==> !StudentBlocked(x, e.day, e.start, e.end, req.students)) &&
    (forall x :: x in e.kind.members ==> PerSession(pass, req.studentConfigs, x, e.kind.subject) <= e.end - e.start)
  }

  ghost predicate SessionsOk(pass: Pass, req: ScheduleRequest, sessions: seq<TimeSlot>)
  {
    forall e :: e in sessions ==> SessionOk(pass, req, e)
  }

  /** Every member of a weekly session is marked as having the subject on that day. */
  ghost predicate MarksCover(sessions: seq<TimeSlot>, t: Tally)
  {
    forall e, x :: e in sessions && e.kind.Session? && x in e.kind.members ==> (x, e.day, e.kind.subject) in t.scheduledOn
  }

  /** No student is in two sessions of the same subject on the same day. */
  ghost predicate OncePerDay(sessions: seq<TimeSlot>)
  {
    forall i, j, x :: (0 <= i < j < |sessions| && sessions[i].kind.Session? && sessions[j].kind.Session? &&
                       sessions[i].day == sessions[j].day && sessions[i].kind.subject == sessions[j].kind.subject &&
                       x in sessions[i].kind.members) ==> x !in sessions[j].kind.members
  }

  /** Minutes never go negative, and no weekly subject gets more sessions than its `weekly_days`. */
  ghost predicate TallyOk(configs: seq<StudentConfig>, t: Tally)
  {
    (forall x, y, d :: MinutesOn(t, x, y, d) >= 0) &&
    (forall x, y :: WeeklyGoverning(configs, x, y).Some? ==>
                    Sessions(t, x, y) <= Max(0, WeeklyGoverning(configs, x, y).value.weeklyDays))
  }

  ghost predicate AllWellFormed(avail: map<Day, seq<Piece>>)
  {
    forall d :: d in avail ==> WellFormed(avail[d])
  }

  ghost predicate PassInv(pass: Pass, req: ScheduleRequest, avail: map<Day, seq<Piece>>, t: Tally, sessions: seq<TimeSlot>)
  {
    AllWellFormed(avail) && TallyOk(req.studentConfigs, t) && SessionsOk(pass, req, sessions) &&
    (pass == WeeklyPass ==> MarksCover(sessions, t) && OncePerDay(sessions))
  }

  /** Sessions on the same day never overlap in time. */
  ghost predicate Disjoint(sessions: seq<TimeSlot>)
  {
    forall i, j :: 0 <= i < j < |sessions| && sessions[i].day == sessions[j].day ==>
      !Overlaps(sessions[i].start, sessions[i].end, sessions[j].start, sessions[j].end)
  }

  /** No piece starts before minute t. */
  predicate NotBefore(ps: seq<Piece>, t: int)
  {
    forall p :: p in ps ==> t <= p.0
  }

  /** Every session ends before every piece still available on its day. */
  ghost predicate AheadOf(sessions: seq<TimeSlot>, avail: map<Day, seq<Piece>>)
  {
    forall e :: e in sessions && e.day in avail ==> NotBefore(avail[e.day], e.end)
  }

  ghost predicate TimesOk(sessions: seq<TimeSlot>, avail: map<Day, seq<Piece>>)
  {
    Disjoint(sessions) && AheadOf(sessions, avail)
  }

  /**
   * Dropping the pieces up to `best + used`, with `used >= need`, removes the window the
   * new session occupies and everything before it, so the sessions stay disjoint and
   * ahead of what is left.
   */
  lemma CommitTimes(all: seq<TimeSlot>, avail: map<Day, seq<Piece>>, day: Day, best: int, need: int, used: int,
                    e: TimeSlot)
    requires TimesOk(all, avail) && day in avail && WellFormed(avail[day])
    requires need >= 1 && 0 <= best && best + need <= |avail[day]| && used >= need
    requires e.day == day && e.start == avail[day][best].0 && e.end == avail[day][best + need - 1].1
    ensures TimesOk(all + [e], avail[day := avail[day][Min(best + used, |avail[day]|)..]])
  {
    var slots := avail[day];
    var k := Min(best + used, |slots|);
    var avail' := avail[day := slots[k..]];
    var s := all + [e];
    assert slots[best] in slots;
    forall i, j | 0 <= i < j < |s| && s[i].day == s[j].day
      ensures !Overlaps(s[i].start, s[i].end, s[j].start, s[j].end)
    {
      assert s[i] == all[i];
      if j < |all| {
        assert s[j] == all[j];
      } else {
        assert all[i] in all;
      }
    }
    forall f: TimeSlot | f in s && f.day in avail' ensures NotBefore(avail'[f.day], f.end) {
      forall p: Piece | p in avail'[f.day] ensures f.end <= p.0 {
        if f.day == day {
          var m :| 0 <= m < |slots[k..]| && slots[k..][m] == p;
          assert slots[k + m] == p;
          if f == e {
            assert best + need - 1 < k + m;
          } else {
            assert f in all;
            assert p in slots;
          }
        } else {
          assert f in all;
        }
      }
    }
  }

  lemma WellFormedSuffix(ps: seq<Piece>, k: int)
    requires WellFormed(ps) && 0 <= k <= |ps|
    ensures WellFormed(ps[k..])
  {
    var s := ps[k..];
    forall i, j | 0 <= i < j < |s| ensures s[i].1 <= s[j].0 {
      assert s[i] == ps[k + i] && s[j] == ps[k + j];
    }
    forall p | p in s ensures p.0 < p.1 {
      var i :| 0 <= i < |s| && s[i] == p;
      assert ps[k + i] == p;
    }
  }

  /** A window over well-formed pieces is non-empty, so at least one piece is dropped after it. */
  lemma WindowPositive(slots: seq<Piece>, best: int, need: int)
    requires WellFormed(slots) && need >= 1 && 0 <= best && best + need <= |slots|
    ensures slots[best].0 < slots[best + need - 1].1
    ensures CeilSlots(slots[best + need - 1].1 - slots[best].0) >= 1
  {
    assert slots[best] in slots && slots[best + need - 1] in slots;
    CeilSlotsBounds(slots[best + need - 1].1 - slots[best].0);
  }

  /** The session a commit appends satisfies SessionOk. */
  lemma CommitSessionOk(pass: Pass, req: ScheduleRequest, day: Day, subject: Name, remaining: seq<Name>, maxMinutes: int,
                        slots: seq<Piece>, need: int, best: int, group: seq<Name>)
    requires WellFormed(slots) && NoDup(group)
    requires forall x :: x in remaining ==> PerSession(pass, req.studentConfigs, x, subject) <= maxMinutes
    requires need >= 1 && 0 <= best && best + need <= |slots| && WindowFits(slots, best, need, maxMinutes, req.lunchTime)
    requires group == GroupAt(slots, best, need, remaining, day, req.students) && group != []
    ensures SessionOk(pass, req, TimeSlot(day, slots[best].0, slots[best + need - 1].1, Session(group, subject)))
  {
    WindowPositive(slots, best, need);
    GreedyGroupMembers(remaining, day, slots[best].0, slots[best + need - 1].1, req.students);
  }

  /** Committing keeps minutes non-negative and keeps every weekly subject within its `weekly_days`. */
  lemma CommitTallyOk(pass: Pass, req: ScheduleRequest, day: Day, subject: Name, needing: seq<Name>, t: Tally,
                      group: seq<Name>, actual: int)
    requires WellNamed(req.studentConfigs) && TallyOk(req.studentConfigs, t) && actual > 0
    requires NoDup(group)
    requires forall x :: x in group ==> StillNeeds(pass, req.studentConfigs, t, x, subject, day)
    ensures TallyOk(req.studentConfigs, Recorded(pass, t, group, subject, day, actual))
  {
    var configs := req.studentConfigs;
    var r := Recorded(pass, t, group, subject, day, actual);
    RecordedEffect(pass, t, group, subject, day, actual);
    forall x, y | WeeklyGoverning(configs, x, y).Some?
      ensures Sessions(r, x, y) <= Max(0, WeeklyGoverning(configs, x, y).value.weeklyDays)
    {
      if x in group && y == subject {
        var c := ConfigOf(configs, x).value;
        var k :| 0 <= k < |configs| && configs[k] == c && c.name == x;
        if pass == DailyPass {
          assert MinutesOn(t, x, y, day) >= 0;
          assert FirstOf(c.subjects, y, Daily).Some?;
          OneTypePerName(c.subjects, y);
          assert false;
        }
      }
    }
  }

  /** Committing in the weekly pass keeps the marks complete and the subject once per day per student. */
  lemma CommitMarks(req: ScheduleRequest, day: Day, subject: Name, t: Tally, sessions: seq<TimeSlot>,
                    group: seq<Name>, start: int, end: int, actual: int)
    requires MarksCover(sessions, t) && OncePerDay(sessions)
    requires NoDup(group)
    requires forall x :: x in group ==> StillNeeds(WeeklyPass, req.studentConfigs, t, x, subject, day)
    ensures var r := Recorded(WeeklyPass, t, group, subject, day, actual);
            var s := sessions + [TimeSlot(day, start, end, Session(group, subject))];
            MarksCover(s, r) && OncePerDay(s)
  {
    var r := Recorded(WeeklyPass, t, group, subject, day, actual);
    var e := TimeSlot(day, start, end, Session(group, subject));
    var s := sessions + [e];
    RecordedEffect(WeeklyPass, t, group, subject, day, actual);
    forall f, x | f in s && f.kind.Session? && x in f.kind.members ensures (x, f.day, f.kind.subject) in r.scheduledOn {
      if f != e {
        assert f in sessions;
      }
    }
    forall i, j, x | 0 <= i < j < |s| && s[i].kind.Session? && s[j].kind.Session? &&
                     s[i].day == s[j].day && s[i].kind.subject == s[j].kind.subject && x in s[i].kind.members
      ensures x !in s[j].kind.members
    {
      assert s[i] == sessions[i];
      if j < |sessions| {
        assert s[j] == sessions[j];
      } else {
        assert s[j] == e;
        assert sessions[i] in sessions;
      }
    }
  }

  /** Replacing a day's pieces twice is replacing them once with the second value. */
  lemma SameAfterReplace(avail: map<Day, seq<Piece>>, day: Day)
    requires day in avail
    ensures avail[day := avail[day]] == avail
  {
  }

  lemma ReplaceTwice(avail: map<Day, seq<Piece>>, base: map<Day, seq<Piece>>, day: Day, pieces: seq<Piece>)
    requires day in avail && avail == base[day := avail[day]]
    ensures avail[day := pieces] == base[day := pieces]
  {
  }

  lemma ReplaceKeepsWellFormed(avail: map<Day, seq<Piece>>, day: Day, pieces: seq<Piece>)
    requires AllWellFormed(avail) && WellFormed(pieces)
    ensures AllWellFormed(avail[day := pieces])
  {
  }

  lemma AppendKeepsSessionsOk(pass: Pass, req: ScheduleRequest, sessions: seq<TimeSlot>, e: TimeSlot)
    requires SessionsOk(pass, req, sessions) && SessionOk(pass, req, e)
    ensures SessionsOk(pass, req, sessions + [e])
  {
    forall f | f in sessions + [e] ensures SessionOk(pass, req, f) {
      if f != e {
        assert f in sessions;
      }
    }
  }

  /** Every member of the committed group still needed the subject, and each is listed once. */
  lemma GroupStillNeeds(pass: Pass, needing: seq<Name>, configs: seq<StudentConfig>, t: Tally, subject: Name, day: Day,
                        start: int, end: int, students: seq<StudentEntry>)
    requires NoDup(needing)
    ensures var group := GreedyGroup(Remaining(pass, needing, configs, t, subject, day), day, start, end, students);
            NoDup(group) && forall x :: x in group ==> StillNeeds(pass, configs, t, x, subject, day)
  {
    var remaining := Remaining(pass, needing, configs, t, subject, day);
    RemainingSound(pass, needing, configs, t, subject, day);
    GreedyGroupMembers(remaining, day, start, end, students);
    GreedyGroupNoDup(remaining, day, start, end, students);
  }

  /** One commit of the `while True` loop keeps the pass invariant and drops at least one available piece. */
  lemma CommitKeeps(pass: Pass, req: ScheduleRequest, day: Day, subject: Name, needing: seq<Name>,
                    avail: map<Day, seq<Piece>>, t: Tally, sessions: seq<TimeSlot>,
                    remaining: seq<Name>, maxMinutes: int, need: int, best: int, group: seq<Name>, start: int, end: int)
    requires WellNamed(req.studentConfigs)
    requires day in avail && NoDup(needing)
    requires PassInv(pass, req, avail, t, sessions)
    requires remaining == Remaining(pass, needing, req.studentConfigs, t, subject, day)
    requires forall x :: x in remaining ==> PerSession(pass, req.studentConfigs, x, subject) <= maxMinutes
    requires need >= 1 && 0 <= best && best + need <= |avail[day]|
    requires WindowFits(avail[day], best, need, maxMinutes, req.lunchTime)
    requires group == GroupAt(avail[day], best, need, remaining, day, req.students) && group != []
    requires start == avail[day][best].0 && end == avail[day][best + need - 1].1
    ensures CeilSlots(end - start) >= 1
    ensures TallyOk(req.studentConfigs, Recorded(pass, t, group, subject, day, end - start))
    ensures SessionsOk(pass, req, sessions + [TimeSlot(day, start, end, Session(group, subject))])
    ensures pass == WeeklyPass ==>
              MarksCover(sessions + [TimeSlot(day, start, end, Session(group, subject))], Recorded(pass, t, group, subject, day, end - start)) &&
              OncePerDay(sessions + [TimeSlot(day, start, end, Session(group, subject))])
  {
    var slots := avail[day];
    var actual := end - start;
    GroupStillNeeds(pass, needing, req.studentConfigs, t, subject, day, start, end, req.students);
    WindowPositive(slots, best, need);
    CommitSessionOk(pass, req, day, subject, remaining, maxMinutes, slots, need, best, group);
    AppendKeepsSessionsOk(pass, req, sessions, TimeSlot(day, start, end, Session(group, subject)));
    CommitTallyOk(pass, req, day, subject, needing, t, group, actual);
    if pass == WeeklyPass {
      CommitMarks(req, day, subject, t, sessions, group, start, end, actual);
    }
  }

  /** Dropping the pieces before `best + used` keeps every day's pieces well formed and shortens the day. */
  lemma CommitSlots(avail: map<Day, seq<Piece>>, day: Day, best: int, used: int)
    requires AllWellFormed(avail) && day in avail && 0 <= best < |avail[day]| && used >= 1
    ensures AllWellFormed(avail[day := avail[day][Min(best + used, |avail[day]|)..]])
    ensures |avail[day][Min(best + used, |avail[day]|)..]| < |avail[day]|
  {
    var k := Min(best + used, |avail[day]|);
    WellFormedSuffix(avail[day], k);
    ReplaceKeepsWellFormed(avail, day, avail[day][k..]);
  }

  /** Appending the session and updating the tracking dictionaries for every member of the group. */
  method RecordCommit(pass: Pass, req: ScheduleRequest, day: Day, subject: Name, needing: seq<Name>,
                      avail: map<Day, seq<Piece>>, t: Tally, sessions: seq<TimeSlot>,
                      remaining: seq<Name>, maxMinutes: int, need: int, best: int, group: seq<Name>, start: int, end: int)
    returns (t': Tally, sessions': seq<TimeSlot>)
    requires WellNamed(req.studentConfigs)
    requires day in avail && NoDup(needing)
    requires PassInv(pass, req, avail, t, sessions)
    requires remaining == Remaining(pass, needing, req.studentConfigs, t, subject, day)
    requires forall x :: x in remaining ==> PerSession(pass, req.studentConfigs, x, subject) <= maxMinutes
    requires need >= 1 && 0 <= best && best + need <= |avail[day]|
    requires WindowFits(avail[day], best, need, maxMinutes, req.lunchTime)
    requires group == GroupAt(avail[day], best, need, remaining, day, req.students) && group != []
    requires start == avail[day][best].0 && end == avail[day][best + need - 1].1
    ensures sessions' == sessions + [TimeSlot(day, start, end, Session(group, subject))]
    ensures t' == Recorded(pass, t, group, subject, day, end - start)
    ensures TallyOk(req.studentConfigs, t') && SessionsOk(pass, req, sessions')
    ensures pass == WeeklyPass ==> MarksCover(sessions', t') && OncePerDay(sessions')
  {
    CommitKeeps(pass, req, day, subject, needing, avail, t, sessions, remaining, maxMinutes, need, best, group, start, end);
    sessions' := sessions + [TimeSlot(day, start, end, Session(group, subject))];
    t' := RecordSession(pass, t, group, subject, day, end - start);
  }

  /** Dropping the available pieces of the day up to `best + slots_used`. */
  method DropWindow(avail: map<Day, seq<Piece>>, day: Day, best: int, need: int, used: int,
                    ghost all: seq<TimeSlot>, ghost e: TimeSlot)
    returns (avail': map<Day, seq<Piece>>)
    requires AllWellFormed(avail) && TimesOk(all, avail) && day in avail
    requires need >= 1 && 0 <= best && best + need <= |avail[day]| && used >= need
    requires e.day == day && e.start == avail[day][best].0 && e.end == avail[day][best + need - 1].1
    requires used == CeilSlots(e.end - e.start)
    ensures avail' == avail[day := avail[day][CutIndex(avail[day], best, need)..]]
    ensures day in avail' && avail'.Keys == avail.Keys && |avail'[day]| < |avail[day]|
    ensures AllWellFormed(avail') && TimesOk(all + [e], avail')
  {
    CommitSlots(avail, day, best, used);
    CommitTimes(all, avail, day, best, need, used, e);
    avail' := avail[day := avail[day][Min(best + used, |avail[day]|)..]];
  }

  /**
   * The commit branch of the `while True` loop: append the session, update the tracking
   * dictionaries for every member, and drop the available pieces up to `best + slots_used`.
   */
  method CommitBest(pass: Pass, req: ScheduleRequest, day: Day, subject: Name, needing: seq<Name>,
                    avail: map<Day, seq<Piece>>, t: Tally, sessions: seq<TimeSlot>, ghost prior: seq<TimeSlot>,
                    remaining: seq<Name>, maxMinutes: int, need: int, best: int, group: seq<Name>, start: int, end: int)
    returns (avail': map<Day, seq<Piece>>, t': Tally, sessions': seq<TimeSlot>)
    requires WellNamed(req.studentConfigs)
    requires day in avail && NoDup(needing)
    requires PassInv(pass, req, avail, t, sessions) && TimesOk(prior + sessions, avail)
    requires remaining == Remaining(pass, needing, req.studentConfigs, t, subject, day)
    requires maxMinutes >= 0 && forall x :: x in remaining ==> PerSession(pass, req.studentConfigs, x, subject) <= maxMinutes
    requires need == SlotsNeeded(maxMinutes) && 0 <= best && best + need <= |avail[day]|
    requires WindowFits(avail[day], best, need, maxMinutes, req.lunchTime)
    requires group == GroupAt(avail[day], best, need, remaining, day, req.students) && group != []
    requires start == avail[day][best].0 && end == avail[day][best + need - 1].1
    ensures sessions' == sessions + [TimeSlot(day, start, end, Session(group, subject))]
    ensures t' == Recorded(pass, t, group, subject, day, end - start)
    ensures avail' == avail[day := avail[day][CutIndex(avail[day], best, need)..]]
    ensures day in avail' && avail'.Keys == avail.Keys && |avail'[day]| < |avail[day]|
    ensures AllWellFormed(avail') && TallyOk(req.studentConfigs, t') && SessionsOk(pass, req, sessions')
    ensures pass == WeeklyPass ==> MarksCover(sessions', t') && OncePerDay(sessions')
    ensures TimesOk(prior + sessions', avail')
  {
    WindowPositive(avail[day], best, need);
    UsedCoversNeeded(maxMinutes, end - start);
    var used := CeilSlots(end - start);
    t', sessions' := RecordCommit(pass, req, day, subject, needing, avail, t, sessions, remaining, maxMinutes, need, best, group, start, end);
    ghost var session := TimeSlot(day, start, end, Session(group, subject));
    avail' := DropWindow(avail, day, best, need, used, prior + sessions, session);
    assert prior + sessions' == (prior + sessions) + [session];
  }

  /**
   * The search half of one round of the `while True` loop: who still needs the subject, the
   * largest requirement among them and the best window.  It finds a window exactly when
   * SubjectStep commits, and then returns the session SubjectStep commits.
   */
  method NextWindow(pass: Pass, req: ScheduleRequest, day: Day, subject: Name, needing: seq<Name>,
                    slots: seq<Piece>, t: Tally)
    returns (found: bool, remaining: seq<Name>, maxMinutes: int, need: int, best: int, group: seq<Name>,
             start: int, end: int, cut: int)
    requires WellFormed(slots)
    ensures found <==> SubjectStep(pass, req, day, subject, needing, slots, t).Some?
    ensures found ==> SubjectStep(pass, req, day, subject, needing, slots, t) == Some((start, end, group, cut))
    ensures found ==> remaining == Remaining(pass, needing, req.studentConfigs, t, subject, day) &&
                      maxMinutes == MaxNeed(pass, req.studentConfigs, remaining, subject) &&
                      need == SlotsNeeded(maxMinutes) && 0 <= best && best + need <= |slots| &&
                      WindowFits(slots, best, need, maxMinutes, req.lunchTime) &&
                      group == GroupAt(slots, best, need, remaining, day, req.students) && group != [] &&
                      start == slots[best].0 && end == slots[best + need - 1].1 && cut == CutIndex(slots, best, need)
  {
    found, maxMinutes, need, best, group, start, end, cut := false, 0, 1, 0, [], 0, 0, 0;
    remaining := RemainingStudents(pass, needing, req.studentConfigs, t, subject, day);
    if remaining != [] {
      maxMinutes := MaxMinutes(pass, remaining, req.studentConfigs, subject);
      need := SlotsNeeded(maxMinutes);
      if slots != [] {
        found, best, group := FindBestWindow(slots, need, maxMinutes, req.lunchTime, remaining, day, req.students);
      }
    }
    if !found {
      StepStops(pass, req, day, subject, needing, slots, t, remaining, MaxNeed(pass, req.studentConfigs, remaining, subject));
    } else {
      start, end, cut := slots[best].0, slots[best + need - 1].1, CutIndex(slots, best, need);
      StepCommits(pass, req, day, subject, needing, slots, t, remaining, maxMinutes, need, best, group, start, end, cut);
    }
  }

  /**
   * The `while True` loop for one subject on one day: it appends to the sessions and
   * changes the day's pieces and the tally exactly as SubjectRun says, so it stops only when
   * nobody still needs the subject, the day has no piece left, or no window has a group.
   */
  method ScheduleSubject(pass: Pass, req: ScheduleRequest, day: Day, subject: Name, needing: seq<Name>,
                         avail: map<Day, seq<Piece>>, t: Tally, sessions: seq<TimeSlot>, ghost prior: seq<TimeSlot>)
    returns (avail': map<Day, seq<Piece>>, t': Tally, sessions': seq<TimeSlot>)
    requires WellNamed(req.studentConfigs)
    requires day in avail && NoDup(needing)
    requires PassInv(pass, req, avail, t, sessions) && TimesOk(prior + sessions, avail)
    ensures var r := SubjectRun(pass, req, day, subject, needing, avail[day], t);
      sessions' == sessions + r.0 && avail' == avail[day := r.1] && t' == r.2
    ensures Stopped(pass, req, day, subject, needing, avail'[day], t')
    ensures PassInv(pass, req, avail', t', sessions') && TimesOk(prior + sessions', avail')
    ensures avail'.Keys == avail.Keys
  {
    avail', t', sessions' := avail, t, sessions;
    ghost var added: seq<TimeSlot> := [];
    ghost var full := SubjectRun(pass, req, day, subject, needing, avail[day], t);
    assert [] + full.0 == full.0;
    while true
      invariant day in avail' && avail'.Keys == avail.Keys && avail' == avail[day := avail'[day]]
      invariant PassInv(pass, req, avail', t', sessions') && TimesOk(prior + sessions', avail')
      invariant sessions' == sessions + added
      invariant var cur := SubjectRun(pass, req, day, subject, needing, avail'[day], t');
        full.0 == added + cur.0 && full.1 == cur.1 && full.2 == cur.2
      decreases |avail'[day]|
    {
      var slots := avail'[day];
      var found, remaining, maxMinutes, need, best, group, start, end, cut :=
        NextWindow(pass, req, day, subject, needing, slots, t');
      if !found {
        break;
      }
      ghost var t0 := t';
      ReplaceTwice(avail', avail, day, slots[cut..]);
      avail', t', sessions' := CommitBest(pass, req, day, subject, needing, avail', t', sessions', prior,
                                          remaining, maxMinutes, need, best, group, start, end);
      StepKeepsSplit(pass, req, day, subject, needing, slots, t0, start, end, group, cut, avail'[day], t', full, added);
      ghost var e := TimeSlot(day, start, end, Session(group, subject));
      AppendAssoc(sessions, added, [e]);
      added := added + [e];
    }
    StopKeepsSplit(pass, req, day, subject, needing, avail'[day], t', full, added);
  }

  /**
   * The loop `for subject, needing in subject_groups.items():` of one day: the subjects'
   * loops one after the other, exactly as GroupsRun says.
   */
  method ScheduleDay(pass: Pass, req: ScheduleRequest, day: Day, avail: map<Day, seq<Piece>>, t: Tally,
                     sessions: seq<TimeSlot>, ghost prior: seq<TimeSlot>)
    returns (avail': map<Day, seq<Piece>>, t': Tally, sessions': seq<TimeSlot>)
    requires WellNamed(req.studentConfigs) && day in avail
    requires PassInv(pass, req, avail, t, sessions) && TimesOk(prior + sessions, avail)
    ensures var g := GroupsRun(pass, req, day, SubjectGroups(pass, req.studentConfigs, t, day), avail[day], t);
      sessions' == sessions + g.0 && avail' == avail[day := g.1] && t' == g.2
    ensures PassInv(pass, req, avail', t', sessions') && TimesOk(prior + sessions', avail')
    ensures avail'.Keys == avail.Keys
  {
    avail', t', sessions' := avail, t, sessions;
    var groups := CollectGroups(pass, req.studentConfigs, t, day);
    SubjectGroupsSound(pass, req.studentConfigs, t, day);
    SameAfterReplace(avail, day);
    assert sessions + [] == sessions;
    assert groups[..0] == [];
    for k := 0 to |groups|
      invariant PassInv(pass, req, avail', t', sessions') && avail'.Keys == avail.Keys && day in avail'
      invariant TimesOk(prior + sessions', avail')
      invariant var g := GroupsRun(pass, req, day, groups[..k], avail[day], t);
        sessions' == sessions + g.0 && avail' == avail[day := g.1] && t' == g.2
    {
      GroupsRunStep(pass, req, day, groups, k, avail[day], t);
      var subject, needing := groups[k].0, groups[k].1;
      if needing == [] {
        continue;
      }
      ghost var before := avail';
      ghost var q := GroupsRun(pass, req, day, groups[..k], avail[day], t);
      avail', t', sessions' := ScheduleSubject(pass, req, day, subject, needing, avail', t', sessions', prior);
      ReplaceTwice(before, avail, day, avail'[day]);
      AppendAssoc(sessions, q.0, SubjectRun(pass, req, day, subject, needing, before[day], q.2).0);
    }
    assert groups[..|groups|] == groups;
  }

  /**
   * One pass over the working days, exactly as PassRun says.  Every session it commits
   * satisfies SessionOk; in the weekly pass no student gets a subject twice on a day; the
   * tally stays within the weekly caps.
   */
  method SchedulePass(pass: Pass, req: ScheduleRequest, avail: map<Day, seq<Piece>>, t: Tally, ghost prior: seq<TimeSlot>)
    returns (avail': map<Day, seq<Piece>>, t': Tally, sessions: seq<TimeSlot>)
    requires WellNamed(req.studentConfigs)
    requires AllWellFormed(avail) && TallyOk(req.studentConfigs, t) && TimesOk(prior, avail)
    ensures var r := PassRun(pass, req, req.workingHours.days, avail, t);
      sessions == r.0 && avail' == r.1 && t' == r.2
    ensures PassInv(pass, req, avail', t', sessions) && TimesOk(prior + sessions, avail')
    ensures avail'.Keys == avail.Keys
  {
    avail', t', sessions := avail, t, [];
    assert prior + sessions == prior;
    var days := req.workingHours.days;
    for i := 0 to |days|
      invariant PassInv(pass, req, avail', t', sessions) && avail'.Keys == avail.Keys
      invariant TimesOk(prior + sessions, avail')
      invariant var p := PassRun(pass, req, days[..i], avail, t);
        sessions == p.0 && avail' == p.1 && t' == p.2
    {
      PassRunStep(pass, req, days, i, avail, t);
      var day := days[i];
      if day !in avail' {
        continue;
      }
      avail', t', sessions := ScheduleDay(pass, req, day, avail', t', sessions, prior);
    }
    assert days[..|days|] == days;
  }


}
