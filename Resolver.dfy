/**
  `is_duplicate_lesson(lessons, new_lesson)`: scans a day's lessons in order and stops at the
  first entry of the same subject that either starts at the same time (an exact duplicate) or
  overlaps the new lesson. At that entry it rejects the new lesson, unless the new lesson is
  strictly shorter, in which case it removes the entry from the list and accepts.
*/
module Resolver {
  import opened Options
  import opened Text
  import opened Clock
  import opened Schedule

  /** Both times of the lesson can be read by `time_to_minutes`. */
  predicate Readable(l: Lesson) {
    TimeToMinutes(l.start).Some? && TimeToMinutes(l.ende).Some?
  }

  /** `time_to_minutes(l["start"])`. */
  function StartOf(l: Lesson): nat
    requires Readable(l)
  {
    TimeToMinutes(l.start).value
  }

  /** `time_to_minutes(l["ende"])`. */
  function EndOf(l: Lesson): nat
    requires Readable(l)
  {
    TimeToMinutes(l.ende).value
  }


  /**
    The scan can look at entry `e` without raising: `e` has another subject, or the new
    lesson's start (the exact-duplicate test needs no conversion), or else all four times
    `time_to_minutes` converts are readable.
  */
  predicate Examinable(e: Lesson, n: Lesson) {
    e.fach == n.fach && e.start != n.start ==> Readable(e) && Readable(n)
  }

  /** `not (new_end <= lesson_start or new_start >= lesson_end)`. */
  predicate Overlaps(e: Lesson, n: Lesson)
    requires Readable(e) && Readable(n)
  {
    !(EndOf(n) <= StartOf(e) || StartOf(n) >= EndOf(e))
  }

  /** The entry stops the scan: same subject, and the same start or an overlap. */
  predicate Conflicts(e: Lesson, n: Lesson)
    requires Examinable(e, n)
  {
    e.fach == n.fach && (e.start == n.start || Overlaps(e, n))
  }

  /**
    The scan of `s` raises no ValueError: every entry it reaches, up to and including the
    one where it stops, is examinable. Entries after the stop are never converted.
  */
  predicate ConvertibleFor(s: seq<Lesson>, n: Lesson)
    decreases |s|
  {
    s == [] || (Examinable(s[0], n) && (Conflicts(s[0], n) || ConvertibleFor(s[1..], n)))
  }

  /** `end - start` in minutes; negative for an inverted interval, which nothing rules out. */
  function Duration(l: Lesson): int
    requires Readable(l)
  {
    EndOf(l) - StartOf(l)
  }

  /** The position where the scan of `s` stops, if it stops. */
  function FirstConflict(s: seq<Lesson>, n: Lesson): (r: Option<nat>)
    requires ConvertibleFor(s, n)
    ensures r.Some? ==> r.value < |s| && Examinable(s[r.value], n) && Conflicts(s[r.value], n)
    ensures r.Some? ==> PassesPrefix(s, n, r.value)
    ensures r.None? ==> PassesPrefix(s, n, |s|)
    decreases |s|
  {
    if s == [] then None
    else if Conflicts(s[0], n) then Some(0)
    else
      assert forall j :: 1 <= j < |s| ==> s[1..][j - 1] == s[j];
      match FirstConflict(s[1..], n)
      case None => None
      case Some(i) => Some(i + 1)
  }

  /** The scan passes the first `i` entries: it can look at each and none stops it. */
  predicate PassesPrefix(s: seq<Lesson>, n: Lesson, i: nat)
    requires i <= |s|
  {
    forall j :: 0 <= j < i ==> Examinable(s[j], n) && !Conflicts(s[j], n)
  }

  /** A stop position in `s[i..]`, as a position in `s`. */
  function Shift(r: Option<nat>, i: nat): Option<nat> {
    match r
    case None => None
    case Some(k) => Some(k + i)
  }

  /** Past a prefix the scan passes, the rest alone decides whether it raises and where it stops. */
  lemma {:induction false} PassesTo(s: seq<Lesson>, n: Lesson, i: nat)
    requires i <= |s| && PassesPrefix(s, n, i)
    ensures ConvertibleFor(s, n) == ConvertibleFor(s[i..], n)
    ensures ConvertibleFor(s, n) ==> FirstConflict(s, n) == Shift(FirstConflict(s[i..], n), i)
    decreases i
  {
    if i == 0 {
      assert s[i..] == s;
    } else {
      var t := s[1..];
      assert forall j :: 0 <= j < i - 1 ==> t[j] == s[j + 1];
      assert Examinable(s[0], n) && !Conflicts(s[0], n);
      PassesTo(t, n, i - 1);
      assert t[i - 1..] == s[i..];
    }
  }

  /** The list has lost exactly its entry at `i`; all others keep their order. */
  predicate RemovedAt(s: seq<Lesson>, t: seq<Lesson>, i: nat) {
    i < |s| && t == s[..i] + s[i + 1..]
  }

  /**
    What `is_duplicate_lesson` does: it returns its decision and leaves the list behind, or
    `time_to_minutes` raises ValueError, before anything was removed.
  */
  datatype Outcome = Decided(duplicate: bool, remaining: seq<Lesson>) | ValueError

  /** The decision and the list after `is_duplicate_lesson(s, n)`, or its ValueError. */
  function Resolve(s: seq<Lesson>, n: Lesson): (o: Outcome)
    ensures o.ValueError? <==> !ConvertibleFor(s, n)
    ensures o.Decided? && o.duplicate ==> o.remaining == s
    ensures o.Decided? && !o.duplicate ==> o.remaining == s || exists i: nat :: RemovedAt(s, o.remaining, i)
  {
    if !ConvertibleFor(s, n) then ValueError
    else
      match FirstConflict(s, n)
      case None => Decided(false, s)
      case Some(i) =>
        if s[i].start == n.start then Decided(true, s)
        else if Duration(n) < Duration(s[i]) then
          RemoveFirstAt(s, i);
          assert RemovedAt(s, RemoveFirst(s, s[i]), i);
          Decided(false, RemoveFirst(s, s[i]))
        else Decided(true, s)
  }

  /**
    `is_duplicate_lesson` on the shared list: the scan, the early returns, and the in-place
    `lessons.remove(lesson)`. The result is the boolean returned, or None when
    `time_to_minutes` raises ValueError.
  */
  method IsDuplicateLesson(lessons: LessonList, newLesson: Lesson) returns (r: Option<bool>)
    modifies lessons
    ensures r.None? ==> Resolve(old(lessons.items), newLesson) == ValueError && lessons.items == old(lessons.items)
    ensures r.Some? ==> Resolve(old(lessons.items), newLesson) == Decided(r.value, lessons.items)
  {
    var i := 0;
    while i < |lessons.items|
      invariant i <= |lessons.items|
      invariant lessons.items == old(lessons.items)
      invariant PassesPrefix(lessons.items, newLesson, i)
    {
      var lesson := lessons.items[i];
      // exact duplicate: same subject and same start
      if lesson.fach == newLesson.fach && lesson.start == newLesson.start {
        ResolveExactDuplicate(lessons.items, newLesson, i);
        return Some(true);
      }
      if lesson.fach == newLesson.fach {
        var lessonStart := TimeToMinutes(lesson.start);
        var lessonEnd := TimeToMinutes(lesson.ende);
        var newStart := TimeToMinutes(newLesson.start);
        var newEnd := TimeToMinutes(newLesson.ende);
        if lessonStart.None? || lessonEnd.None? || newStart.None? || newEnd.None? {
          // `time_to_minutes` raises ValueError
          ResolveRaises(lessons.items, newLesson, i);
          return None;
        }
        if !(newEnd.value <= lessonStart.value || newStart.value >= lessonEnd.value) {
          var existingDuration := lessonEnd.value as int - lessonStart.value as int;
          var newDuration := newEnd.value as int - newStart.value as int;
          if newDuration < existingDuration {
            ResolveEvicts(lessons.items, newLesson, i);
            lessons.Remove(lesson);
            return Some(false);
          } else {
            ResolveKeepsExisting(lessons.items, newLesson, i);
            return Some(true);
          }
        }
      }
      i := i + 1;
    }
    ResolveNoConflict(lessons.items, newLesson);
    return Some(false);
  }

  /** Appending a lesson unless `is_duplicate_lesson` rejects it: one step of the grid walk. */
  function Admit(s: seq<Lesson>, n: Lesson): seq<Lesson>
    requires ConvertibleFor(s, n)
  {
    var o := Resolve(s, n);
    if o.duplicate then o.remaining else o.remaining + [n]
  }

  /**
    Exact duplicate: when the scan reaches an entry with the new lesson's subject and start,
    the new lesson is rejected and the list is left as it was, whatever the times are.
  */
  lemma ResolveExactDuplicate(s: seq<Lesson>, n: Lesson, i: nat)
    requires i < |s| && PassesPrefix(s, n, i)
    requires s[i].fach == n.fach && s[i].start == n.start
    ensures Resolve(s, n) == Decided(true, s)
  {
    PassesTo(s, n, i);
    assert s[i..][0] == s[i];
  }

  /**
    ValueError: when the scan reaches an entry with the subject and another start, and a
    time of that entry or of the new lesson cannot be read, `time_to_minutes` raises.
  */
  lemma ResolveRaises(s: seq<Lesson>, n: Lesson, i: nat)
    requires i < |s| && PassesPrefix(s, n, i)
    requires s[i].fach == n.fach && s[i].start != n.start && !(Readable(s[i]) && Readable(n))
    ensures Resolve(s, n) == ValueError
  {
    PassesTo(s, n, i);
    assert s[i..][0] == s[i];
  }

  /**
    Eviction: when the scan reaches an entry with the subject and another start that
    overlaps and is strictly longer than the new lesson, exactly that entry is removed, the
    others keep their order, and the new lesson is accepted.
  */
  lemma ResolveEvicts(s: seq<Lesson>, n: Lesson, i: nat)
    requires i < |s| && PassesPrefix(s, n, i)
    requires s[i].fach == n.fach && s[i].start != n.start
    requires Readable(s[i]) && Readable(n) && Overlaps(s[i], n) && Duration(n) < Duration(s[i])
    ensures Resolve(s, n) == Decided(false, s[..i] + s[i + 1..])
    ensures RemoveFirst(s, s[i]) == s[..i] + s[i + 1..]
    ensures multiset(s) == multiset(Resolve(s, n).remaining) + multiset{s[i]}
  {
    PassesTo(s, n, i);
    assert s[i..][0] == s[i];
    assert FirstConflict(s, n) == Some(i);
    RemoveFirstAt(s, i);
    RemovedAtMultiset(s, i);
  }

  lemma RemovedAtMultiset(s: seq<Lesson>, i: nat)
    requires i < |s|
    ensures multiset(s) == multiset(s[..i] + s[i + 1..]) + multiset{s[i]}
  {
    assert s == s[..i] + [s[i]] + s[i + 1..];
  }

  /**
    No eviction: when the scan reaches an entry with the subject and another start that
    overlaps and is not longer than the new lesson, the new lesson is rejected and the list
    is left as it was.
  */
  lemma ResolveKeepsExisting(s: seq<Lesson>, n: Lesson, i: nat)
    requires i < |s| && PassesPrefix(s, n, i)
    requires s[i].fach == n.fach && s[i].start != n.start
    requires Readable(s[i]) && Readable(n) && Overlaps(s[i], n) && Duration(n) >= Duration(s[i])
    ensures Resolve(s, n) == Decided(true, s)
  {
    PassesTo(s, n, i);
    assert s[i..][0] == s[i];
  }

  /** When the scan passes every entry the lesson is accepted and the list is left as it was. */
  lemma ResolveNoConflict(s: seq<Lesson>, n: Lesson)
    requires PassesPrefix(s, n, |s|)
    ensures Resolve(s, n) == Decided(false, s)
  {
    PassesTo(s, n, |s|);
    assert s[|s|..] == [];
  }

  /** Where the scan raises: an entry it reaches that has the subject, another start, and unreadable times. */
  predicate RaisesAt(s: seq<Lesson>, n: Lesson, i: nat) {
    i < |s| && PassesPrefix(s, n, i) && !Examinable(s[i], n)
  }

  /** `is_duplicate_lesson` raises exactly when its scan reaches such an entry. */
  lemma {:induction false} ValueErrorExactly(s: seq<Lesson>, n: Lesson)
    ensures Resolve(s, n) == ValueError <==> exists i :: RaisesAt(s, n, i)
    decreases |s|
  {
    if exists i :: RaisesAt(s, n, i) {
      var i :| RaisesAt(s, n, i);
      ResolveRaises(s, n, i);
    } else if s != [] && !ConvertibleFor(s, n) {
      assert Examinable(s[0], n) by {
        assert !RaisesAt(s, n, 0);
      }
      assert !Conflicts(s[0], n);
      var t := s[1..];
      ValueErrorExactly(t, n);
      var k: nat :| RaisesAt(t, n, k);
      assert forall j :: 0 <= j < k ==> t[j] == s[j + 1];
      assert s[k + 1] == t[k];
      assert RaisesAt(s, n, k + 1);
    }
  }

  /**
    The exact-duplicate test converts nothing: Math 08:00 with an unreadable end is enough to
    reject a new Math 08:00-09:00 without a ValueError.
  */
  lemma SameStartNeedsNoTimes()
    ensures var e := Lesson("Math", "08:00", "xx");
            Resolve([e], Lesson("Math", "08:00", "09:00")) == Decided(true, [e])
  {
    var e := Lesson("Math", "08:00", "xx");
    ResolveExactDuplicate([e], Lesson("Math", "08:00", "09:00"), 0);
  }

  /** The entry where the scan of `s` stops, if it stops. */
  function ConflictEntry(s: seq<Lesson>, n: Lesson): Option<Lesson>
    requires ConvertibleFor(s, n)
  {
    match FirstConflict(s, n)
    case None => None
    case Some(k) => Some(s[k])
  }

  lemma {:induction false} InsertKeepsConflictEntry(s: seq<Lesson>, e: Lesson, n: Lesson, i: nat)
    requires i <= |s| && Examinable(e, n) && !Conflicts(e, n)
    ensures ConvertibleFor(s[..i] + [e] + s[i..], n) == ConvertibleFor(s, n)
    ensures ConvertibleFor(s, n) ==> ConflictEntry(s[..i] + [e] + s[i..], n) == ConflictEntry(s, n)
    decreases i
  {
    var t := s[..i] + [e] + s[i..];
    if i == 0 {
      assert t[0] == e && t[1..] == s;
      if ConvertibleFor(s, n) {
        ConflictEntryCons(t, n);
      }
    } else {
      var s' := s[1..];
      assert t[0] == s[0] && t[1..] == s'[..i - 1] + [e] + s'[i - 1..];
      InsertKeepsConflictEntry(s', e, n, i - 1);
      if ConvertibleFor(s, n) {
        ConflictEntryCons(s, n);
        ConflictEntryCons(t, n);
      }
    }
  }

  /** The scan looks at the first entry, and only when it does not stop there, at the rest. */
  lemma ConflictEntryCons(s: seq<Lesson>, n: Lesson)
    requires s != [] && ConvertibleFor(s, n)
    ensures Examinable(s[0], n)
    ensures !Conflicts(s[0], n) ==> ConvertibleFor(s[1..], n)
    ensures ConflictEntry(s, n) == if Conflicts(s[0], n) then Some(s[0]) else ConflictEntry(s[1..], n)
  {
  }

  /**
    Entries that do not conflict with the new lesson (another subject, or the same subject
    at a disjoint time with another start) never change whether the scan raises or what it
    decides, wherever they stand.
  */
  lemma NonConflictingEntryIrrelevant(s: seq<Lesson>, e: Lesson, n: Lesson, i: nat)
    requires i <= |s| && Examinable(e, n) && !Conflicts(e, n)
    ensures Resolve(s[..i] + [e] + s[i..], n).ValueError? == Resolve(s, n).ValueError?
    ensures Resolve(s, n).Decided? ==> Resolve(s[..i] + [e] + s[i..], n).duplicate == Resolve(s, n).duplicate
  {
    InsertKeepsConflictEntry(s, e, n, i);
  }

  /** A day's list whose lessons all have readable times. */
  predicate AllReadable(s: seq<Lesson>) {
    forall e <- s :: Readable(e)
  }

  /** Admitting a readable lesson keeps every lesson readable, and keeps or adds only that one. */
  lemma AdmitKeepsReadable(s: seq<Lesson>, n: Lesson)
    requires AllReadable(s) && Readable(n)
    ensures ConvertibleFor(s, n)
    ensures AllReadable(Admit(s, n))
    ensures forall x <- Admit(s, n) :: x in s || x == n
  {
    ReadableConvertible(s, n);
    match FirstConflict(s, n)
    case None =>
    case Some(i) =>
      if s[i].start != n.start && Duration(n) < Duration(s[i]) {
        RemoveFirstAt(s, i);
        assert forall x <- s[..i] + s[i + 1..] :: x in s;
      }
  }

  /** With every time readable, the scan never raises. */
  lemma {:induction false} ReadableConvertible(s: seq<Lesson>, n: Lesson)
    requires AllReadable(s) && Readable(n)
    ensures ConvertibleFor(s, n)
    decreases |s|
  {
    if s != [] {
      assert forall x <- s[1..] :: x in s;
      ReadableConvertible(s[1..], n);
    }
  }

  /**
    The scan stops at the FIRST conflict, so it does not keep a subject's lessons disjoint:
    with Math 08:00-10:00 and Math 10:00-10:30 listed, Math 09:50-10:20 evicts the first and
    is appended although it overlaps the second.
  */
  lemma FirstConflictOnlyLeavesOverlap()
    ensures var a := Lesson("Math", "08:00", "10:00");
            var b := Lesson("Math", "10:00", "10:30");
            var n := Lesson("Math", "09:50", "10:20");
            && AllReadable([a, b]) && Readable(n) && ConvertibleFor([a, b], n)
            && Admit([a, b], n) == [b, n]
            && Overlaps(b, n)
  {
    var a := Lesson("Math", "08:00", "10:00");
    var b := Lesson("Math", "10:00", "10:30");
    var n := Lesson("Math", "09:50", "10:20");
    MorningMinutes();
    assert Conflicts(a, n);
    assert FirstConflict([a, b], n) == Some(0);
    assert Duration(n) == 30 && Duration(a) == 120;
    assert RemoveFirst([a, b], a) == [b];
  }

  /**
    A shorter lesson with the SAME start as a listed one of its subject is not taken as the
    more specific reading: the same-start test comes first and rejects it.
  */
  lemma SameStartShorterIsRejected()
    ensures var e := Lesson("Math", "08:00", "09:45");
            var n := Lesson("Math", "08:00", "09:00");
            && AllReadable([e]) && Readable(n)
            && Resolve([e], n) == Decided(true, [e])
  {
    ClockTextMinutes("08:00");
    ClockTextMinutes("09:45");
    ClockTextMinutes("09:00");
    assert TimeToMinutes("08:00") == Some(480) && TimeToMinutes("09:45") == Some(585);
    assert TimeToMinutes("09:00") == Some(540);
    var e := Lesson("Math", "08:00", "09:45");
    var n := Lesson("Math", "08:00", "09:00");
    ResolveExactDuplicate([e], n, 0);
  }

  /**
    Stopping at the first conflict also lets an exact duplicate through: with Math 08:00-10:00
    listed before Math 07:00-07:30, Math 07:00-08:20 evicts the first and is appended next
    to the second, which has its subject and its start.
  */
  lemma SameStartCanCoexist()
    ensures var x := Lesson("Math", "08:00", "10:00");
            var y := Lesson("Math", "07:00", "07:30");
            var n := Lesson("Math", "07:00", "08:20");
            && AllReadable([x, y]) && Readable(n) && ConvertibleFor([x, y], n)
            && Admit([x, y], n) == [y, n]
            && y.fach == n.fach && y.start == n.start
  {
    var x := Lesson("Math", "08:00", "10:00");
    var y := Lesson("Math", "07:00", "07:30");
    var n := Lesson("Math", "07:00", "08:20");
    EarlyMinutes();
    assert Conflicts(x, n);
    assert FirstConflict([x, y], n) == Some(0);
    assert Duration(n) == 80 && Duration(x) == 120;
    assert RemoveFirst([x, y], x) == [y];
  }

  /** The minutes of the times in `FirstConflictOnlyLeavesOverlap`. */
  lemma MorningMinutes()
    ensures TimeToMinutes("08:00") == Some(480) && TimeToMinutes("10:00") == Some(600)
    ensures TimeToMinutes("10:30") == Some(630) && TimeToMinutes("09:50") == Some(590)
    ensures TimeToMinutes("10:20") == Some(620)
  {
    ClockTextMinutes("08:00");
    ClockTextMinutes("10:00");
    ClockTextMinutes("10:30");
    ClockTextMinutes("09:50");
    ClockTextMinutes("10:20");
  }

  /** The minutes of the times in `SameStartCanCoexist`. */
  lemma EarlyMinutes()
    ensures TimeToMinutes("08:00") == Some(480) && TimeToMinutes("10:00") == Some(600)
    ensures TimeToMinutes("07:00") == Some(420) && TimeToMinutes("07:30") == Some(450)
    ensures TimeToMinutes("08:20") == Some(500)
  {
    ClockTextMinutes("08:00");
    ClockTextMinutes("10:00");
    ClockTextMinutes("07:00");
    ClockTextMinutes("07:30");
    ClockTextMinutes("08:20");
  }
}
