/**
 * The day grid of backend/scheduler.py: get_blocked_slots_for_day and
 * generate_available_slots.  A piece is a half-open interval [start, end) of minutes;
 * every interval is cut into pieces of at most `slotDuration` minutes by the same loop
 * `while current < end: piece_end = min(current + slot_duration, end); ...`, which is Chop.
 */
module Grid {
  import opened Wrappers
  import opened Sorting
  import opened Students

  type Piece = (int, int)

  /** [a, b) cut into consecutive pieces of length `d`, the last one possibly shorter. */
  function Chop(a: int, b: int, d: int): seq<Piece>
    requires d > 0
    decreases b - a
  {
    if a >= b then [] else [(a, Min(a + d, b))] + Chop(Min(a + d, b), b, d)
  }

  predicate InPiece(t: int, p: Piece)
  {
    Within(t, p.0, p.1)
  }

  /** Minute t lies in one of the pieces. */
  predicate Covers(ps: seq<Piece>, t: int)
  {
    exists p :: p in ps && InPiece(t, p)
  }

  /** Every piece is non-empty, lies inside [lo, hi] and is at most d long. */
  predicate Bounded(ps: seq<Piece>, lo: int, hi: int, d: int)
  {
    forall p :: p in ps ==> lo <= p.0 < p.1 <= hi && p.1 - p.0 <= d
  }

  /** Each piece ends where the next one begins. */
  predicate Contiguous(ps: seq<Piece>)
  {
    forall i :: 0 <= i < |ps| - 1 ==> ps[i].1 == ps[i + 1].0
  }

  /** Every piece ends before a later one starts: the pieces are disjoint and in order. */
  predicate Ascending(ps: seq<Piece>)
  {
    forall i, j :: 0 <= i < j < |ps| ==> ps[i].1 <= ps[j].0
  }

  predicate Positive(ps: seq<Piece>)
  {
    forall p :: p in ps ==> p.0 < p.1
  }

  predicate WellFormed(ps: seq<Piece>)
  {
    Positive(ps) && Ascending(ps)
  }

  lemma CoversConcat(a: seq<Piece>, b: seq<Piece>, t: int)
    ensures Covers(a + b, t) <==> Covers(a, t) || Covers(b, t)
  {
    if Covers(a + b, t) {
      var p :| p in a + b && InPiece(t, p);
      assert p in a || p in b;
    }
    if Covers(a, t) {
      var p :| p in a && InPiece(t, p);
      assert p in a + b;
    }
    if Covers(b, t) {
      var p :| p in b && InPiece(t, p);
      assert p in a + b;
    }
  }

  lemma AscendingConcat(a: seq<Piece>, b: seq<Piece>)
    requires Ascending(a) && Ascending(b)
    requires forall p, q :: p in a && q in b ==> p.1 <= q.0
    ensures Ascending(a + b)
  {
    var c := a + b;
    forall i, j | 0 <= i < j < |c| ensures c[i].1 <= c[j].0 {
      if j < |a| {
        assert c[i] == a[i] && c[j] == a[j];
      } else if i >= |a| {
        assert c[i] == b[i - |a|] && c[j] == b[j - |a|];
      } else {
        assert c[i] == a[i] && c[j] == b[j - |a|];
        assert a[i] in a && b[j - |a|] in b;
      }
    }
  }

  /** Chop cuts [a, b) into contiguous pieces of at most d minutes, in order, starting at a and ending at b. */
  lemma {:induction false} ChopShape(a: int, b: int, d: int)
    requires d > 0
    ensures Bounded(Chop(a, b, d), a, b, d)
    ensures Contiguous(Chop(a, b, d)) && Ascending(Chop(a, b, d))
    ensures Chop(a, b, d) == [] <==> a >= b
    ensures Chop(a, b, d) != [] ==> Chop(a, b, d)[0].0 == a && Chop(a, b, d)[|Chop(a, b, d)| - 1].1 == b
    decreases b - a
  {
    if a < b {
      var m := Min(a + d, b);
      ChopShape(m, b, d);
      var rest := Chop(m, b, d);
      var c := [(a, m)] + rest;
      assert c == Chop(a, b, d);
      forall p | p in c ensures a <= p.0 < p.1 <= b && p.1 - p.0 <= d {
        if p != (a, m) {
          assert p in rest;
        }
      }
      forall i | 0 <= i < |c| - 1 ensures c[i].1 == c[i + 1].0 {
        assert c[i + 1] == rest[i];
        if i > 0 {
          assert c[i] == rest[i - 1];
        }
      }
      forall p, q | p in [(a, m)] && q in rest ensures p.1 <= q.0 {
      }
      AscendingConcat([(a, m)], rest);
    }
  }

  /** The pieces of Chop cover exactly the minutes of [a, b). */
  lemma {:induction false} ChopCovers(a: int, b: int, d: int)
    requires d > 0
    ensures forall t :: Covers(Chop(a, b, d), t) <==> a <= t < b
    decreases b - a
  {
    if a < b {
      var m := Min(a + d, b);
      ChopCovers(m, b, d);
      forall t ensures Covers(Chop(a, b, d), t) <==> a <= t < b {
        CoversConcat([(a, m)], Chop(m, b, d), t);
        assert Covers([(a, m)], t) <==> a <= t < m by {
          if a <= t < m {
            assert (a, m) in [(a, m)] && InPiece(t, (a, m));
          }
        }
      }
    } else {
      forall t ensures !Covers(Chop(a, b, d), t) {
      }
    }
  }

  // ---------------------------------------------------------------------------------
  // get_blocked_slots_for_day
  // ---------------------------------------------------------------------------------

  /** The pieces of one blocked time on `day`: clipped to the working window, then chopped. */
  function BlockPieces(bt: BlockedTime, day: Day, workStart: int, workEnd: int, d: int): seq<Piece>
    requires d > 0
  {
    if SameDay(bt.day, day) then Chop(Max(bt.start, workStart), Min(bt.end, workEnd), d) else []
  }

  function TimesPieces(times: seq<BlockedTime>, day: Day, workStart: int, workEnd: int, d: int): seq<Piece>
    requires d > 0
  {
    if times == [] then []
    else TimesPieces(times[..|times| - 1], day, workStart, workEnd, d)
         + BlockPieces(times[|times| - 1], day, workStart, workEnd, d)
  }

  /** All students' blocked pieces for the day, students in order and each student's times in order. */
  function BlockedPieces(students: seq<StudentEntry>, day: Day, workStart: int, workEnd: int, d: int): seq<Piece>
    requires d > 0
  {
    if students == [] then []
    else BlockedPieces(students[..|students| - 1], day, workStart, workEnd, d)
         + TimesPieces(students[|students| - 1].schedule.blockedTimes, day, workStart, workEnd, d)
  }

  /** The loop `while current < end: slot_end = min(current + d, end); append; current = slot_end`. */
  method AppendChopped(pieces: seq<Piece>, start: int, end: int, d: int) returns (r: seq<Piece>)
    requires d > 0
    ensures r == pieces + Chop(start, end, d)
  {
    r := pieces;
    var current := start;
    while current < end
      invariant r + Chop(current, end, d) == pieces + Chop(start, end, d)
      decreases end - current
    {
      var slotEnd := Min(current + d, end);
      r := r + [(current, slotEnd)];
      current := slotEnd;
    }
  }

  /** The loop over one student's blocked times. */
  method AppendTimes(pieces: seq<Piece>, times: seq<BlockedTime>, day: Day, workStart: int, workEnd: int, d: int)
    returns (r: seq<Piece>)
    requires d > 0
    ensures r == pieces + TimesPieces(times, day, workStart, workEnd, d)
  {
    r := pieces;
    for j := 0 to |times|
      invariant r == pieces + TimesPieces(times[..j], day, workStart, workEnd, d)
    {
      var bt := times[j];
      assert times[..j + 1][..j] == times[..j] && times[..j + 1][j] == bt;
      assert TimesPieces(times[..j + 1], day, workStart, workEnd, d)
          == TimesPieces(times[..j], day, workStart, workEnd, d) + BlockPieces(bt, day, workStart, workEnd, d);
      if SameDay(bt.day, day) {
        r := AppendChopped(r, Max(bt.start, workStart), Min(bt.end, workEnd), d);
      } else {
        assert BlockPieces(bt, day, workStart, workEnd, d) == [];
      }
    }
    assert times[..|times|] == times;
  }

  method GetBlockedSlotsForDay(day: Day, students: seq<StudentEntry>, workStart: int, workEnd: int, slotDuration: int)
    returns (pieces: seq<Piece>)
    requires slotDuration > 0
    ensures pieces == BlockedPieces(students, day, workStart, workEnd, slotDuration)
  {
    pieces := [];
    for i := 0 to |students|
      invariant pieces == BlockedPieces(students[..i], day, workStart, workEnd, slotDuration)
    {
      assert students[..i + 1][..i] == students[..i] && students[..i + 1][i] == students[i];
      pieces := AppendTimes(pieces, students[i].schedule.blockedTimes, day, workStart, workEnd, slotDuration);
    }
    assert students[..|students|] == students;
  }

  lemma TimesPiecesBounded(times: seq<BlockedTime>, day: Day, workStart: int, workEnd: int, d: int)
    requires d > 0
    ensures Bounded(TimesPieces(times, day, workStart, workEnd, d), workStart, workEnd, d)
  {
    if times != [] {
      var bt := times[|times| - 1];
      TimesPiecesBounded(times[..|times| - 1], day, workStart, workEnd, d);
      ChopShape(Max(bt.start, workStart), Min(bt.end, workEnd), d);
    }
  }

  /** Every blocked piece lies inside the working window, is non-empty and at most d minutes long. */
  lemma {:induction false} BlockedPiecesBounded(students: seq<StudentEntry>, day: Day, workStart: int, workEnd: int, d: int)
    requires d > 0
    ensures Bounded(BlockedPieces(students, day, workStart, workEnd, d), workStart, workEnd, d)
  {
    if students != [] {
      BlockedPiecesBounded(students[..|students| - 1], day, workStart, workEnd, d);
      TimesPiecesBounded(students[|students| - 1].schedule.blockedTimes, day, workStart, workEnd, d);
    }
  }

  /**
   * The pieces of one blocked time tile its clipped interval [max(start, work start),
   * min(end, work end)) contiguously, and cover exactly its minutes.
   */
  lemma BlockPiecesTile(bt: BlockedTime, day: Day, workStart: int, workEnd: int, d: int)
    requires d > 0 && SameDay(bt.day, day)
    ensures var ps := BlockPieces(bt, day, workStart, workEnd, d);
      Contiguous(ps) &&
      (ps != [] ==> ps[0].0 == Max(bt.start, workStart) && ps[|ps| - 1].1 == Min(bt.end, workEnd)) &&
      (forall t :: Covers(ps, t) <==> Max(bt.start, workStart) <= t < Min(bt.end, workEnd))
  {
    ChopShape(Max(bt.start, workStart), Min(bt.end, workEnd), d);
    ChopCovers(Max(bt.start, workStart), Min(bt.end, workEnd), d);
  }

  /** A blocked time on another day, or wholly outside the working window, yields no piece. */
  lemma BlockOutsideWindow(bt: BlockedTime, day: Day, workStart: int, workEnd: int, d: int)
    requires d > 0
    requires !SameDay(bt.day, day) || bt.end <= workStart || bt.start >= workEnd
    ensures BlockPieces(bt, day, workStart, workEnd, d) == []
  {
    ChopShape(Max(bt.start, workStart), Min(bt.end, workEnd), d);
  }

  // ---------------------------------------------------------------------------------
  // generate_available_slots
  // ---------------------------------------------------------------------------------

  /** `key=lambda x: x[0]`; the constant second component leaves ties in input order. */
  function StartKey(p: Piece): Key
  {
    (p.0, 0)
  }

  /**
   * The free pieces from `current` on, walking the blocked pieces in the given order:
   * chop the gap before a blocked piece that starts later, then move past that piece.
   */
  function Gaps(current: int, blocked: seq<Piece>, workEnd: int, d: int): seq<Piece>
    requires d > 0
    decreases |blocked|
  {
    if blocked == [] then Chop(current, workEnd, d)
    else
      var reached := if current < blocked[0].0 then blocked[0].0 else current;
      (if current < blocked[0].0 then Chop(current, blocked[0].0, d) else [])
      + Gaps(Max(reached, blocked[0].1), blocked[1..], workEnd, d)
  }

  /** generate_available_slots on times already converted to minutes. */
  function Available(workStart: int, workEnd: int, blocked: seq<Piece>, d: int): seq<Piece>
    requires d > 0
  {
    Gaps(workStart, SortBy(blocked, StartKey), workEnd, d)
  }

  /**
   * The loop that fills a gap: `while current < limit: slot_end = min(current + d, limit);
   * if slot_end > current: append; current = slot_end`.
   */
  method AppendGap(available: seq<Piece>, current: int, limit: int, d: int) returns (r: seq<Piece>, reached: int)
    requires d > 0
    ensures r == available + Chop(current, limit, d)
    ensures reached == if current < limit then limit else current
  {
    r, reached := available, current;
    while reached < limit
      invariant current <= reached && (current < limit ==> reached <= limit) && (current >= limit ==> reached == current)
      invariant r + Chop(reached, limit, d) == available + Chop(current, limit, d)
      decreases limit - reached
    {
      var slotEnd := Min(reached + d, limit);
      assert Chop(reached, limit, d) == [(reached, slotEnd)] + Chop(slotEnd, limit, d);
      if slotEnd > reached {
        r := r + [(reached, slotEnd)];
      }
      reached := slotEnd;
    }
    assert Chop(reached, limit, d) == [];
  }

  /** The first step of Gaps: the gap up to the first blocked piece, then the gaps after it. */
  lemma GapsUnfold(current: int, blocked: seq<Piece>, workEnd: int, d: int)
    requires d > 0 && blocked != []
    ensures Gaps(current, blocked, workEnd, d)
      == Chop(current, blocked[0].0, d) + Gaps(Max(if current < blocked[0].0 then blocked[0].0 else current, blocked[0].1), blocked[1..], workEnd, d)
  {
    if current >= blocked[0].0 {
      assert Chop(current, blocked[0].0, d) == [];
    }
  }

  method GenerateAvailableSlots(workStart: int, workEnd: int, blocked: seq<Piece>, slotDuration: int)
    returns (available: seq<Piece>)
    requires slotDuration > 0
    ensures available == Available(workStart, workEnd, blocked, slotDuration)
  {
    var sorted := SortBy(blocked, StartKey);
    available := [];
    var current := workStart;
    for k := 0 to |sorted|
      invariant available + Gaps(current, sorted[k..], workEnd, slotDuration) == Gaps(workStart, sorted, workEnd, slotDuration)
    {
      var blockedStart, blockedEnd := sorted[k].0, sorted[k].1;
      assert sorted[k..][0] == sorted[k] && sorted[k..][1..] == sorted[k + 1..];
      ghost var before, from := available, current;
      ghost var gap := Chop(from, blockedStart, slotDuration);
      available, current := AppendGap(available, current, blockedStart, slotDuration);
      current := Max(current, blockedEnd);
      ghost var rest := Gaps(current, sorted[k + 1..], workEnd, slotDuration);
      GapsUnfold(from, sorted[k..], workEnd, slotDuration);
      AppendAssoc(before, gap, rest);
    }
    assert sorted[|sorted|..] == [];
    available, current := AppendGap(available, current, workEnd, slotDuration);
  }

  /** Whatever the blocked pieces, the free pieces are non-empty, in order, disjoint, at most d long and start no earlier than `current`. */
  lemma {:induction false} GapsShape(current: int, blocked: seq<Piece>, workEnd: int, d: int)
    requires d > 0
    ensures WellFormed(Gaps(current, blocked, workEnd, d))
    ensures forall p :: p in Gaps(current, blocked, workEnd, d) ==> current <= p.0 && p.1 - p.0 <= d
    decreases |blocked|
  {
    if blocked == [] {
      ChopShape(current, workEnd, d);
    } else {
      var bs, be := blocked[0].0, blocked[0].1;
      var reached := if current < bs then bs else current;
      var next := Max(reached, be);
      var head := if current < bs then Chop(current, bs, d) else [];
      GapsShape(next, blocked[1..], workEnd, d);
      ChopShape(current, bs, d);
      var tail := Gaps(next, blocked[1..], workEnd, d);
      assert Gaps(current, blocked, workEnd, d) == head + tail;
      forall p, q | p in head && q in tail ensures p.1 <= q.0 {
      }
      AscendingConcat(head, tail);
    }
  }

  /** One step of GapsCover, for one minute t: the gap before the first blocked piece, then the rest. */
  lemma GapsCoverAt(current: int, blocked: seq<Piece>, workEnd: int, d: int, t: int)
    requires d > 0 && blocked != []
    requires forall q :: q in blocked[1..] ==> blocked[0].0 <= q.0
    requires blocked[0].0 <= workEnd
    requires var next := Max(if current < blocked[0].0 then blocked[0].0 else current, blocked[0].1);
      Covers(Gaps(next, blocked[1..], workEnd, d), t) <==> next <= t < workEnd && !Covers(blocked[1..], t)
    ensures Covers(Gaps(current, blocked, workEnd, d), t) <==> current <= t < workEnd && !Covers(blocked, t)
  {
    var bs, be := blocked[0].0, blocked[0].1;
    var next := Max(if current < bs then bs else current, be);
    var head := if current < bs then Chop(current, bs, d) else [];
    var rest := blocked[1..];
    var tail := Gaps(next, rest, workEnd, d);
    ChopCovers(current, bs, d);
    assert Gaps(current, blocked, workEnd, d) == head + tail;
    assert blocked == [blocked[0]] + rest;
    CoversConcat(head, tail, t);
    CoversConcat([blocked[0]], rest, t);
    assert Covers([blocked[0]], t) <==> bs <= t < be by {
      if bs <= t < be {
        assert blocked[0] in [blocked[0]] && InPiece(t, blocked[0]);
      }
    }
    if t < bs {
      forall q | q in rest ensures !InPiece(t, q) {
      }
    }
  }

  /**
   * When the blocked pieces are sorted by start and none starts after the end of the
   * working window, the free pieces from `current` cover exactly the minutes of
   * [current, workEnd) that no blocked piece covers.
   */
  lemma {:induction false} GapsCover(current: int, blocked: seq<Piece>, workEnd: int, d: int)
    requires d > 0
    requires SortedBy(blocked, StartKey)
    requires forall p :: p in blocked ==> p.0 <= workEnd
    ensures forall t :: Covers(Gaps(current, blocked, workEnd, d), t) <==> current <= t < workEnd && !Covers(blocked, t)
    decreases |blocked|
  {
    if blocked == [] {
      ChopCovers(current, workEnd, d);
    } else {
      var next := Max(if current < blocked[0].0 then blocked[0].0 else current, blocked[0].1);
      SortedTail(blocked, StartKey);
      forall p | p in blocked[1..] ensures p.0 <= workEnd {
        assert p in blocked;
      }
      GapsCover(next, blocked[1..], workEnd, d);
      assert blocked[0] in blocked;
      forall t ensures Covers(Gaps(current, blocked, workEnd, d), t) <==> current <= t < workEnd && !Covers(blocked, t) {
        GapsCoverAt(current, blocked, workEnd, d, t);
      }
    }
  }

  /** Sorting the blocked pieces changes nothing about which minutes they cover. */
  lemma SortedCoversSame(blocked: seq<Piece>, t: int)
    ensures Covers(SortBy(blocked, StartKey), t) <==> Covers(blocked, t)
  {
    var sorted := SortBy(blocked, StartKey);
    if Covers(sorted, t) {
      var p :| p in sorted && InPiece(t, p);
      SortByMembers(blocked, StartKey, p);
    }
    if Covers(blocked, t) {
      var p :| p in blocked && InPiece(t, p);
      SortByMembers(blocked, StartKey, p);
    }
  }

  /** For every set of blocked pieces the free pieces are well formed, at most d long and start in the window. */
  lemma AvailableShape(workStart: int, workEnd: int, blocked: seq<Piece>, d: int)
    requires d > 0
    ensures WellFormed(Available(workStart, workEnd, blocked, d))
    ensures forall p :: p in Available(workStart, workEnd, blocked, d) ==> workStart <= p.0 && p.1 - p.0 <= d
  {
    GapsShape(workStart, SortBy(blocked, StartKey), workEnd, d);
  }

  /**
   * generate_available_slots, when no blocked piece starts after the working window ends:
   * the free pieces are in order, disjoint, non-empty, at most d long, inside the window,
   * and their union is the window minus the union of the blocked pieces.
   */
  lemma AvailableCorrect(workStart: int, workEnd: int, blocked: seq<Piece>, d: int)
    requires d > 0
    requires forall p :: p in blocked ==> p.0 <= workEnd
    ensures WellFormed(Available(workStart, workEnd, blocked, d))
    ensures Bounded(Available(workStart, workEnd, blocked, d), workStart, workEnd, d)
    ensures forall t :: Covers(Available(workStart, workEnd, blocked, d), t) <==> workStart <= t < workEnd && !Covers(blocked, t)
  {
    var sorted := SortBy(blocked, StartKey);
    SortByCorrect(blocked, StartKey);
    forall p | p in sorted ensures p.0 <= workEnd {
      SortByMembers(blocked, StartKey, p);
    }
    AvailableShape(workStart, workEnd, blocked, d);
    GapsCover(workStart, sorted, workEnd, d);
    var avail := Available(workStart, workEnd, blocked, d);
    forall t ensures Covers(avail, t) <==> workStart <= t < workEnd && !Covers(blocked, t) {
      SortedCoversSame(blocked, t);
    }
    forall p | p in avail ensures p.1 <= workEnd {
      assert InPiece(p.1 - 1, p);
      assert Covers(avail, p.1 - 1);
    }
  }

  /**
   * The lunch hour's pieces are not clipped to the working window.  When the window ends
   * before lunch, the free pieces are those of [workStart, lunch): they run past the end
   * of the window, up to the start of lunch.
   */
  lemma LunchAfterHours(workStart: int, workEnd: int, lunch: int)
    requires workStart < lunch && workEnd <= lunch
    ensures Available(workStart, workEnd, Chop(lunch, lunch + 60, 30), 30) == Chop(workStart, lunch, 30)
    ensures Covers(Available(workStart, workEnd, Chop(lunch, lunch + 60, 30), 30), lunch - 1)
  {
    var pieces := [(lunch, lunch + 30), (lunch + 30, lunch + 60)];
    assert Chop(lunch + 30, lunch + 60, 30) == [(lunch + 30, lunch + 60)] + Chop(lunch + 60, lunch + 60, 30);
    assert Chop(lunch, lunch + 60, 30) == pieces;
    assert SortBy(pieces, StartKey) == pieces by {
      assert pieces[1..] == [(lunch + 30, lunch + 60)];
      assert SortBy(pieces[1..], StartKey) == [(lunch + 30, lunch + 60)];
    }
    assert Gaps(lunch + 60, [], workEnd, 30) == [];
    assert Gaps(lunch + 30, pieces[1..], workEnd, 30) == [];
    assert Gaps(workStart, pieces, workEnd, 30) == Chop(workStart, lunch, 30) + Gaps(lunch + 30, pieces[1..], workEnd, 30);
    ChopCovers(workStart, lunch, 30);
  }
}
