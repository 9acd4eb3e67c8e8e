# Tutoring schedule generator — a verified model of its core

The backend of this application builds a weekly timetable for a group of students.
Each student has a schedule of blocked times and a list of classmates they may share a
session with. Each student also has a configuration of subjects: a subject needs either
some minutes every day or some sessions per week. `generate_schedule` in
`backend/scheduler.py` does the following:

- fixes an hour of lunch on every working day;
- cuts the working window of each day into 30-minute pieces that no student's blocked
  time touches;
- fills those pieces greedily, first with the daily subjects and then with the weekly
  ones. For each subject it scans the windows and keeps the first one whose group is
  largest. A window's group is built greedily: the unblocked students in order, each one
  added when it is compatible with those already in. Such a group cannot be extended, but
  it need not be the largest compatible group. With candidates a, b and c, where a is
  compatible with nobody and b and c are compatible, the group is [a];
- optionally places an hour of preparation time per day;
- reports every requirement it could not meet, and returns the entries sorted by day
  and start time.

`backend/schedule_storage.py` keeps one JSON file per student. Its pure parts are
modelled here:

- `sanitize_filename`;
- the name filter of `list_schedule_files`;
- the change detection of `reload_schedules`.

## Modules

- `Wrappers`: `Option`, `Max`, `Min` and an associativity lemma.
- `TimeText`: "HH:MM" text and minutes. The round trip is proved for every integer.
- `Sorting`: one insertion sort, used for both sorts of the source. It is proved sorted and a permutation.
- `Students`: the students' schedules, the day comparison through lower case, and the overlap rules.
- `Grid`: the blocked pieces of a day and the free pieces of a day, written as loops. Each loop is proved equal to a recursive function, and what those functions cover is proved as lemmas.
- `Schedules`: the request, the schedule entries, the conflicts, the configuration lookups and the tracking dictionaries (`Tally`).
- `Allocation`: the two passes. They are one parameterised method family, because the source's two blocks differ only in their filters and their tally updates.
- `Requirements`: the closing requirement check.
- `Prep`: the prep placement.
- `Scheduler`: `generate_schedule` from end to end.
- `ScheduleStorage`: the storage functions listed above.

Times are integers (minutes since midnight) throughout the scheduler. A day name is
compared with `Lower(a) == Lower(b)` where the source calls `.lower()`. Python
dictionaries that are only read become association lists or Dafny maps.

Some of the source's behaviour is modelled as written, and lemmas exhibit it:

- The prep fallback can put a half hour of prep inside lunch: `Prep.PrepFallbackOverlapsLunch`.
- The lunch pieces are not clipped to the working window. When lunch lies after the end of the window, the free pieces run past the window's end: `Grid.LunchAfterHours`.
- A session spans whole pieces. So it is at least as long as every member needs, and not exactly that long.
- A window is judged by its first start and its last end; nothing checks that its pieces are contiguous.
- Committing a session drops every piece before the window, as well as the window itself.
- Each day's free pieces come from all students' blocked times together.

## Model

| member | source | states |
|---|---|---|
| TimeText.TimeRoundTrip | backend/scheduler.py:26-36 | time_to_minutes(minutes_to_time(m)) == m for every integer m, negative ones included (floor division and `:02d` padding) |
| TimeText.InRangeOnRenderedTimes | backend/scheduler.py:39-44 | on rendered times, is_time_in_range is the half-open test start <= t < end |
| TimeText.NoColonRefused | backend/scheduler.py:26-29 | text without a colon is refused, where the unpacking of `split(':')` raises |
| TimeText.Pad2Parses | backend/scheduler.py:36 | every `:02d` rendering holds no colon and reads back as the same integer |
| TimeText.MinutesToTime | backend/scheduler.py:32-36 | for 0 <= m < 1440 the text is five characters: two digits, a colon, two digits |
| Students.LowerIdempotent | backend/scheduler.py:59 | lower-casing twice is lower-casing once, so a lower-cased day matches the original |
| Students.Lookup | backend/scheduler.py:121-125 | None exactly when no entry has the name; otherwise the schedule of an entry with that name |
| Students.CanOverlapSymmetric | backend/scheduler.py:119-131 | can_students_overlap(a, b) == can_students_overlap(b, a) |
| Students.CanOverlapNeedsBoth | backend/scheduler.py:121-122 | can_students_overlap is false when either student is unknown |
| Students.CheckAllCanOverlap | backend/scheduler.py:134-145 | true exactly when there are fewer than two names or every pair i < j may overlap |
| Students.CompatibleExtend | backend/scheduler.py:378-379 | adding a name to a compatible group keeps it compatible exactly when the name suits every member |
| Students.OverlapsMeansCommonMinute | backend/scheduler.py:166-167 | for non-empty intervals the overlap test holds exactly when they share a minute |
| Students.AreStudentsBlockedAtTime | backend/scheduler.py:148-170 | true exactly when some named, known student has a blocked time on the day that overlaps [start, end) |
| Sorting.SortByCorrect | backend/scheduler.py:91 | the sort returns a permutation of its input, ordered by key |
| Sorting.SortBySorted | backend/scheduler.py:579 | sorting an already sorted list changes nothing |
| Sorting.SortByMembers | backend/scheduler.py:91 | sorting neither loses nor invents elements |
| Grid.AppendChopped | backend/scheduler.py:70-74 | the chopping loop appends exactly the pieces of [start, end) |
| Grid.ChopShape | backend/scheduler.py:70-74 | the pieces are contiguous and ascending, at most d long, start at `start` and end at `end`, and are empty exactly when start >= end |
| Grid.ChopCovers | backend/scheduler.py:70-74 | the pieces cover exactly the minutes of [start, end) |
| Grid.AppendTimes | backend/scheduler.py:58-74 | the loop over one student's blocked times appends the pieces of each time in order |
| Grid.GetBlockedSlotsForDay | backend/scheduler.py:47-76 | the result is the pieces of every student's blocked times on the day, clipped and chopped, in dictionary order |
| Grid.BlockedPiecesBounded | backend/scheduler.py:63-74 | every blocked piece lies inside the working window and has 0 < length <= slot_duration |
| Grid.BlockPiecesTile | backend/scheduler.py:63-74 | one blocked time's pieces tile its clipped interval contiguously and cover exactly its minutes |
| Grid.BlockOutsideWindow | backend/scheduler.py:59-67 | a blocked time on another day, or wholly outside the window, yields no piece |
| Grid.AppendGap | backend/scheduler.py:98-104 | the gap loop appends the pieces of [current, limit) and ends at max(current, limit) |
| Grid.GenerateAvailableSlots | backend/scheduler.py:79-116 | the loop computes Available: the gaps left by the blocked pieces sorted by start |
| Grid.AvailableShape | backend/scheduler.py:93-116 | for any blocked pieces, the free pieces are ascending, disjoint, non-empty, at most d long and start no earlier than the window's start |
| Grid.AvailableCorrect | backend/scheduler.py:90-116 | when every blocked piece starts no later than the window's end, the free pieces lie in the window and cover exactly the window minus the blocked minutes |
| Grid.GapsCover | backend/scheduler.py:96-114 | walking blocked pieces sorted by start, none starting after the window's end, leaves exactly the minutes from `current` to the window's end that no piece covers |
| Grid.SortedCoversSame | backend/scheduler.py:91 | sorting the blocked pieces does not change the minutes they cover |
| Grid.LunchAfterHours | backend/scheduler.py:229-238 | with lunch after the working window, the free pieces are those of [work start, lunch): they run past the window's end |
| Schedules.ConfigOf | backend/scheduler.py:183 | the dictionary comprehension keeps the last config with the name; None when there is none |
| Schedules.ConfigOfDistinct | backend/scheduler.py:183 | with distinct names, the config found for a name is the one holding it |
| Schedules.FirstOf | backend/scheduler.py:325-326 | `next(...)`: None exactly when no subject has the name and the type; otherwise a subject with both, at an index before which none has both |
| Schedules.FirstWeeklyWithMinutes | backend/scheduler.py:469-472 | the `for ... break` search: None exactly when no weekly subject has the name and a truthy minutes-per-session value; otherwise the first one that has |
| Schedules.OneTypePerName | backend/scheduler.py:325-326 | with distinct subject names, a daily subject has no weekly namesake |
| Allocation.CollectGroups | backend/scheduler.py:302-312 | the grouping loop builds SubjectGroups, whose contents SubjectGroupsExact states; the same code in both passes (also lines 432-442) |
| Allocation.SubjectGroupsSound | backend/scheduler.py:304-312 | no student appears twice in a subject's group, and every member is a configured student |
| Allocation.SubjectGroupsExact | backend/scheduler.py:302-312 | every subject some student still wants on the day is a key once, with a non-empty list; a student is listed under a subject exactly when their config wants it (weekly pass: lines 432-442) |
| Allocation.ConfigGroupsExact | backend/scheduler.py:306-312 | the loop over one config's subjects files the student under exactly the subjects it wants, and the keys stay distinct |
| Allocation.AddToExact | backend/scheduler.py:310-312 | creating the key when missing and appending files the student under that subject and changes nothing else |
| Allocation.RemainingStudents | backend/scheduler.py:322-328 | the loop filters the group by what the pass still needs (lines 453-461 in the weekly pass) |
| Allocation.RemainingSound | backend/scheduler.py:322-328 | remaining students are exactly the group members who still need the subject (weekly: sessions short and not yet scheduled that day), each once |
| Allocation.MaxMinutes | backend/scheduler.py:333-339 | the loop computes MaxNeed (weekly pass: lines 467-472) |
| Allocation.MaxNeed | backend/scheduler.py:333-339 | max_minutes is non-negative, at least every remaining student's per-session requirement, and equal to one of them unless it is 0 |
| Allocation.SlotsNeeded | backend/scheduler.py:345-347 | slots_needed is at least 1 for any non-negative requirement |
| Allocation.CeilSlotsBounds | backend/scheduler.py:345 | `int((x + 29) / 30)` truncating toward zero is the number of 30-minute slots holding x > 0 minutes |
| Allocation.UsedCoversNeeded | backend/scheduler.py:419 | a window at least as long as the requirement spans at least slots_needed slots, so slots_used >= slots_needed |
| Allocation.GreedyGroupAt | backend/scheduler.py:371-379 | the loop computes the greedy group of unblocked, compatible candidates in order |
| Allocation.GreedyGroupMembers | backend/scheduler.py:371-379 | every member is an unblocked candidate, and the group is pairwise compatible |
| Allocation.GreedyGroupNoDup | backend/scheduler.py:371-379 | candidates listed once give a group listing each member once |
| Allocation.GreedyGroupNonEmpty | backend/scheduler.py:371-379 | the group is empty exactly when every candidate is blocked during the window |
| Allocation.GreedyGroupMaximal | backend/scheduler.py:371-379 | every unblocked candidate left out of the group conflicts with some member: the group cannot be extended |
| Allocation.FindBestWindow | backend/scheduler.py:350-385 | when found, the window fits and is clear of lunch, its group is non-empty, every earlier fitting window has a strictly smaller group and every later one no larger; when not found, every fitting window has an empty group |
| Allocation.BestUpToMeaning | backend/scheduler.py:354-385 | after the windows before i, the kept window's group is strictly larger than that of every earlier fitting window and no smaller than any later one scanned; nothing kept means every scanned fitting window had an empty group |
| Allocation.BestWindowMeaning | backend/scheduler.py:350-388 | over all windows: the first fitting window with a largest group is kept, and nothing is kept exactly when every fitting window has an empty group |
| Allocation.RecordSession | backend/scheduler.py:413-416 | the tally update for every member of the group equals Recorded |
| Allocation.RecordedSessions | backend/scheduler.py:416 | each member gains one session of the subject; no other count changes |
| Allocation.RecordedWeekly | backend/scheduler.py:415 | each member gains the session's minutes in its weekly total; nothing else changes |
| Allocation.RecordedMinutes | backend/scheduler.py:547-549 | the day's minutes are set to the length by the daily pass (line 414) and increased by it in the weekly pass |
| Allocation.RecordedMarks | backend/scheduler.py:552-555 | the weekly pass marks every member as having the subject on the day; the daily pass marks nothing |
| Allocation.RecordedEffect | backend/scheduler.py:412-416 | for every student and subject: members gain one session and the session's minutes, the day's minutes are set (daily) or increased (weekly, lines 547-549), weekly marks are added (lines 552-555); nothing else changes |
| Allocation.CommitTimes | backend/scheduler.py:418-421 | dropping the pieces up to best + slots_used keeps the sessions of a day disjoint and ahead of what is left |
| Allocation.CommitKeeps | backend/scheduler.py:387-421 | one commit keeps the tallies sound, appends a session clear of lunch, unblocked, compatible and long enough, and keeps the weekly once-per-day rule |
| Allocation.RecordCommit | backend/scheduler.py:387-416 | appends the entry for the best window and group, updates the tally to Recorded, and keeps the pass invariant |
| Allocation.DropWindow | backend/scheduler.py:418-421 | the day's pieces become the suffix after best + slots_used and get shorter; the other days are untouched |
| Allocation.CommitBest | backend/scheduler.py:387-421 | appends exactly the entry for the window and group, sets the tally to Recorded with the window's length, and makes the day's pieces the suffix from `best + slots_used` (capped), other days untouched; the pass invariant and disjointness are kept |
| Allocation.ScheduleSubject | backend/scheduler.py:320-424 | the `while True` loop for one subject appends exactly SubjectRun's sessions and leaves SubjectRun's pieces and tally; it stops only when nobody still needs the subject, the day has no piece, or every fitting window has an empty group; the pass invariant is kept |
| Allocation.SubjectStep | backend/scheduler.py:320-421 | one round: a committed session has start < end and a non-empty group, and the round drops at least one piece and at most all of them |
| Allocation.CommitOf | backend/scheduler.py:388-421 | a round commits exactly when the scan found a window; the session and the cut are well formed |
| Allocation.CommitOfWindow | backend/scheduler.py:387-421 | committing window best gives the session from the start of its first piece to the end of its last, and cuts at `best + slots_used`, capped |
| Allocation.CutIndex | backend/scheduler.py:419-420 | `best + slots_used`, capped at the number of pieces, lies after best and within the pieces |
| Allocation.SubjectRun | backend/scheduler.py:320-424 | the whole loop for one subject: well-formed pieces left, no more than before; the tally is the old one with the sessions recorded in order; it ends in a stopping state |
| Allocation.SubjectRunFrom | backend/scheduler.py:387-424 | the loop after a committed round keeps the same three properties |
| Allocation.SubjectRunUnfold | backend/scheduler.py:320-424 | the loop is empty when the round commits nothing, and otherwise continues from the round's commit |
| Allocation.RunAfterStep | backend/scheduler.py:387-424 | after a committing round, the loop is that round's continuation |
| Allocation.RunFromUnfold | backend/scheduler.py:387-424 | the continuation is the committed session followed by the loop from the pieces after the cut, with the session recorded |
| Allocation.CommitRound | backend/scheduler.py:320-424 | the loop from a committing round is its session followed by the loop from the pieces after the cut with the session recorded |
| Allocation.StepNoneStopped | backend/scheduler.py:330-343 | a round that commits nothing is in one of the three stopping states (also lines 422-424) |
| Allocation.StepStops | backend/scheduler.py:330-343 | each `break` (nobody remaining, no piece left, or no window with a group at lines 422-424) makes the round commit nothing |
| Allocation.StepCommits | backend/scheduler.py:387-421 | a round whose scan found window best with its group commits exactly that window's session and cut |
| Allocation.StepKeepsSplit | backend/scheduler.py:320-421 | a committing round moves its session from what the loop still has to do to what it has done |
| Allocation.StopKeepsSplit | backend/scheduler.py:320-424 | when a round commits nothing, what the loop has done is all of SubjectRun, and the loop is in a stopping state |
| Allocation.NextWindow | backend/scheduler.py:322-385 | finds a window exactly when the round commits, and then returns that commit's remaining students, max_minutes, slots_needed, window, group, times and cut |
| Allocation.GroupsRun | backend/scheduler.py:315-424 | the day's loop over the subjects keeps the pieces well formed, and its tally is the old one with its sessions recorded |
| Allocation.GroupsRunStep | backend/scheduler.py:315-317 | one more subject: nothing when its list is empty, otherwise its loop's sessions appended from the pieces and tally left so far |
| Allocation.ScheduleDay | backend/scheduler.py:302-424 | the day's loop appends exactly GroupsRun's sessions over `subject_groups` collected from the tally at the start of the day, and leaves GroupsRun's pieces and tally |
| Allocation.PassRun | backend/scheduler.py:297-424 | a pass keeps the days with pieces and keeps them well formed, and its tally is the old one with its sessions recorded |
| Allocation.PassRunStep | backend/scheduler.py:297-315 | one more day: nothing when it is not in available_by_day, otherwise the day's groups collected from the tally so far and run |
| Allocation.TallyAfterConcat | backend/scheduler.py:412-416 | recording a + b is recording a, then b |
| Allocation.TallyAfterSession | backend/scheduler.py:412-416 | recording a session first is Recorded with its members, subject, day and length |
| Allocation.TallyAfterCounts | backend/scheduler.py:412-416 | for every student and subject, the session count grows by the sessions they attend and the weekly minutes by those sessions' lengths (weekly pass: lines 545-551) |
| Allocation.SchedulePass | backend/scheduler.py:297-424 | a whole pass (the daily one, or the weekly one at lines 427-563) produces exactly PassRun's sessions, pieces and tally; every session clear of lunch, unblocked, compatible and long enough; no minutes negative and no weekly subject over weekly_days sessions; weekly subjects at most once per day per student; sessions on a day disjoint |
| Requirements.DailyShortfallsExact | backend/scheduler.py:642-649 | one daily conflict exactly for each working day whose minutes fall short, with the figures the message shows |
| Requirements.SubjectConflictsExact | backend/scheduler.py:640-670 | a subject reports exactly its daily shortfalls, or its weekly sessions and weekly minutes shortfalls |
| Requirements.ConfigConflictsExact | backend/scheduler.py:640-670 | a config's conflicts are exactly the shortfalls of its subjects |
| Requirements.RequirementConflictsExact | backend/scheduler.py:637-670 | a conflict is reported exactly when it states a genuine shortfall (both directions) |
| Requirements.NoPrepConflict | backend/scheduler.py:637-670 | the requirement check never reports a missing prep hour |
| Requirements.NoConflictsIffMet | backend/scheduler.py:637-670 | no requirement conflict exactly when every daily and weekly requirement is met |
| Requirements.CheckSubject | backend/scheduler.py:640-670 | the loop for one subject appends exactly SubjectConflicts |
| Requirements.CheckConfig | backend/scheduler.py:637-670 | the loop over one config's subjects appends exactly ConfigConflicts |
| Requirements.CheckRequirements | backend/scheduler.py:637-670 | the loop over all configs appends exactly RequirementConflicts |
| Prep.SessionPiecesExact | backend/scheduler.py:570-574 | a piece is collected exactly when a session entry of that day has those times |
| Prep.SessionPiecesIgnores | backend/scheduler.py:570-574 | entries that are not sessions (earlier prep entries among them) do not change what is collected |
| Prep.PrepSortRedundant | backend/scheduler.py:577-588 | the extra sort before generate_available_slots changes nothing |
| Prep.FirstHourFrom | backend/scheduler.py:592-597 | the first index with two touching pieces spanning an hour, and no such index before it |
| Prep.PrepEntriesShape | backend/scheduler.py:590-631 | no entry exactly when neither rule applies; otherwise one hour-long entry or two touching half hours, all Prep on the day |
| Prep.PrepHourCovered | backend/scheduler.py:592-609 | the hour placed lies within the free pieces |
| Prep.PrepHourClear | backend/scheduler.py:566-609 | the hour placed is inside the window, outside every blocked piece and outside every session of the day |
| Prep.PrepFallbackOverlapsLunch | backend/scheduler.py:611-631 | an input where the fallback puts its second half hour inside lunch |
| Prep.PlacePrep | backend/scheduler.py:590-631 | the search with `break` and the fallback give PrepEntries |
| Prep.PrepForDay | backend/scheduler.py:568-631 | one day's prep is placed in the pieces left by lunch, blocked times and the day's sessions |
| Prep.PrepPlanExact | backend/scheduler.py:566-634 | a day gets PrepMissing exactly when nothing can be placed on it; the entries are exactly those placed for the working days |
| Prep.PrepPlanOnlyPrep | backend/scheduler.py:566-634 | prep placement adds nothing but Prep entries |
| Prep.PrepPlanStep | backend/scheduler.py:567-634 | one more day adds its entries, or adds its conflict when nothing fits |
| Prep.PrepStep | backend/scheduler.py:567-634 | the body of the loop over days keeps the schedule and the conflicts equal to those of the plan so far |
| Prep.PlaceAllPrep | backend/scheduler.py:565-634 | the loop over the days appends exactly the plan's entries and conflicts |
| Scheduler.LunchEntriesExact | backend/scheduler.py:198-208 | one lunch entry [lunch, lunch + 60) per working day and nothing else |
| Scheduler.AddLunch | backend/scheduler.py:201-208 | the loop produces LunchEntries |
| Scheduler.LunchBlocked | backend/scheduler.py:229-238 | every lunch minute is blocked on every day |
| Scheduler.BuildBlockedByDay | backend/scheduler.py:219-238 | keys are the working days; each holds the students' pieces followed by the lunch pieces |
| Scheduler.BuildAvailableByDay | backend/scheduler.py:266-274 | the loop builds AvailableByDay: keys are the working days, each holding Available over that day's blocked pieces, well formed |
| Scheduler.ShownTimesExact | backend/scheduler.py:244-263 | an entry is shown for a list of blocked times exactly when one of them reaches into the window |
| Scheduler.ShownStudentsExact | backend/scheduler.py:243-263 | an entry is shown for the students exactly when one of their blocked times reaches into the window |
| Scheduler.ShownBlockedExact | backend/scheduler.py:241-263 | an entry is shown exactly when a student's blocked time reaches into the window on a working day |
| Scheduler.ShownInWindow | backend/scheduler.py:252-263 | a shown entry is a labelled blocked entry of a working day, clipped to the window |
| Scheduler.ShowTimes | backend/scheduler.py:244-263 | the loop over one student's times appends ShownTimes |
| Scheduler.ShowStudents | backend/scheduler.py:243-263 | the loop over students appends ShownStudents |
| Scheduler.ShowBlocked | backend/scheduler.py:241-263 | the loop over days appends ShownBlocked |
| Scheduler.DayOrder | backend/scheduler.py:673-675 | the last index of the day in the working days, or 999 when absent |
| Scheduler.SortedScheduleOrder | backend/scheduler.py:672-677 | in the sorted schedule, entries of working days come in day order, and in start order within a day |
| Scheduler.RunPasses | backend/scheduler.py:293-563 | the daily pass from empty tallies, then the weekly pass from what it left, exactly as PassRun says; each student's session count and weekly minutes are those of the sessions of both passes; sessions sound, weekly ones once per day, all disjoint |
| Scheduler.PlanSessions | backend/scheduler.py:266-563 | available_by_day then both passes: the sessions and tally of PassRun from AvailableByDay and empty tallies, with the same counts and soundness |
| Scheduler.Response | backend/scheduler.py:679-686 | success exactly when there is no conflict; the message follows success; conflicts is None exactly when empty |
| Scheduler.Finish | backend/scheduler.py:565-686 | the schedule with the prep entries (when required) sorted by day and start, as a permutation; conflicts are the prep conflicts then the requirement conflicts; the response is built from them |
| Scheduler.GenerateSchedule | backend/scheduler.py:173-686 | the sessions are both passes run from AvailableByDay and empty tallies, and the tally the conflicts come from counts exactly those sessions; the sorted response holds the lunch, the blocked entries, both passes' sessions and the prep entries; conflicts are the prep conflicts then the requirement conflicts |
| Scheduler.SuccessMeansComplete | backend/scheduler.py:633-679 | success exactly when every working day got prep (when required) and every requirement is met |
| Scheduler.PrepOrConflict | backend/scheduler.py:611-634 | with prep required, every working day gets prep entries or a prep conflict |
| ScheduleStorage.ReplaceAll | backend/schedule_storage.py:82 | `str.replace` of one character: same length, and that character replaced at every position |
| ScheduleStorage.ReplaceEachAt | backend/schedule_storage.py:79-82 | after the loop over the invalid characters, exactly those characters have become `_` |
| ScheduleStorage.StripLeft | backend/schedule_storage.py:84 | removes exactly the leading spaces and dots |
| ScheduleStorage.StripRight | backend/schedule_storage.py:84 | removes exactly the trailing spaces and dots |
| ScheduleStorage.StripShape | backend/schedule_storage.py:84 | strip keeps a slice that does not start or end with a space or dot, and removes only spaces and dots |
| ScheduleStorage.SanitizeClean | backend/schedule_storage.py:76-87 | the result has none of `<>:"/\|?*`, no space, no leading or trailing dot, and is no longer than the input |
| ScheduleStorage.SanitizeKeepsClean | backend/schedule_storage.py:76-87 | a clean name is left unchanged |
| ScheduleStorage.SanitizeFixedPoints | backend/schedule_storage.py:76-87 | the names left unchanged are exactly the clean ones |
| ScheduleStorage.SanitizeIdempotent | backend/schedule_storage.py:76-87 | sanitizing twice is sanitizing once |
| ScheduleStorage.SanitizeFilename | backend/schedule_storage.py:76-87 | the loop, strip and replace compute Sanitize |
| ScheduleStorage.ListedFilesExact | backend/schedule_storage.py:104-116 | a file is listed exactly when a directory entry passes the tests; its name is the student name plus ".json", and never `.logs`, the config file or a hidden name |
| ScheduleStorage.ListScheduleFiles | backend/schedule_storage.py:96-123 | a missing directory gives no file; otherwise the filtered entries in listing order |
| ScheduleStorage.Metadata | backend/schedule_storage.py:357 | the metadata has a key exactly for each listed student name |
| ScheduleStorage.MetadataLatest | backend/schedule_storage.py:357 | the time recorded for a name is that of the last file carrying it |
| ScheduleStorage.KeyOrder | backend/schedule_storage.py:357 | the dict's key order lists each name once, exactly the metadata's keys |
| ScheduleStorage.KeyOrderFirstSeen | backend/schedule_storage.py:357 | a name listed earlier occurs in a file before every file carrying a name listed later: keys come in order of first insertion |
| ScheduleStorage.ChangeSetsMeaning | backend/schedule_storage.py:366-382 | with a non-empty previous map: new, modified and deleted are the set differences and the changed common names, pairwise disjoint; otherwise everything is new |
| ScheduleStorage.UnchangedSame | backend/schedule_storage.py:372-379 | a current name that is neither new nor modified has the same time as before |
| ScheduleStorage.SetToList | backend/schedule_storage.py:371-374 | `list(set)` lists every element once |
| ScheduleStorage.DetectChanges | backend/schedule_storage.py:366-382 | the three lists hold each name of the three change sets once; with no previous state, new is the metadata's key list as given |
| ScheduleStorage.ReloadChanges | backend/schedule_storage.py:356-382 | the metadata of the listed files and its three change lists against the last known map; with no previous state, new lists the names in the dict's key order |

## Left out

- Reading the schedules from disk is not modelled. This covers `load_all_schedules`, the statistics of the files, the clock and `os.path.isfile`; the directory listing is a parameter, and each entry carries what `isfile` and `stat` report.
- list_schedule_files: the `OSError` branch of `os.stat` is not modelled, and modification times are integers; they are only compared for equality.
- Malformed time text makes `time_to_minutes` raise inside generate_schedule. TimeText models the parse with an `Option`, but the scheduler's request already holds minutes.
- `parse_time` and `format_time` are not modelled; the engine does not use them.
- `student_priority` (backend/scheduler.py:277-291) is computed and never used, so it is not modelled.
- Scheduler.GenerateSchedule requires distinct config names and distinct subject names inside a config. With duplicates, the source's tracking dictionaries merge entries or raise `KeyError`; those paths are not modelled.
- Conflicts are a datatype carrying the figures of each message, not the formatted strings.
- Blocked times and lunch have start and end minutes; the lunch entry's start text and the labels' formatting are not modelled separately.
- `.lower()` is modelled on ASCII letters only.
- TimeText.ParseInt: Python's `int()` also accepts surrounding whitespace, underscores between digits and non-ASCII digits, so `time_to_minutes(" 9:30")` is 570 in the source. The model refuses such text with None.
- Session entries carry one `members` list. The source writes `student=best_group[0]` for a one-member group and `students=best_group` otherwise (backend/scheduler.py:391-410 and 524-543). The model does not tell these two output shapes apart.
- The ceiling at backend/scheduler.py:345, 419, 478 and 558 goes through a float division truncated by `int()`. It is modelled as integer division truncated toward zero (CeilSlots). This is the same value for every integer, since nothing here exceeds the precision of a float.
- DetectChanges: with a previous map, the order of `new`, `deleted` and `modified` follows set iteration and is left open; each name is listed once. With no previous map, `new` follows the dict's key order, which ReloadChanges states.
- The order of `dict.items()` on `subject_groups` is insertion order, as modelled.
- Scheduler.GenerateSchedule: the final order is stated as sorted plus a permutation of the entries. That the sort is stable is implied by the insertion sort but not stated as a lemma.
- Scheduler.ShownInWindow: states that the entry starts before the window's end and ends after its start only when the window is non-empty; the source does not guarantee that.
