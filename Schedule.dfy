/**
  The timetable's entities: a lesson (`{"fach", "start", "ende"}`), the five weekdays the
  parser fills, and the per-day lesson list, which the parser mutates in place.
*/
module Schedule {

  /** One lesson: subject name, start and end as `HH:MM`-shaped texts. */
  datatype Lesson = Lesson(fach: string, start: string, ende: string)

  /** The five keys of the timetable dictionary, in its order. */
  datatype Weekday = Montag | Dienstag | Mittwoch | Donnerstag | Freitag

  /** The parsed timetable: every weekday mapped to its lessons in insertion order. */
  type Timetable = map<Weekday, seq<Lesson>>

  predicate HasAllDays(tt: Timetable) {
    Montag in tt && Dienstag in tt && Mittwoch in tt && Donnerstag in tt && Freitag in tt
  }

  /** A timetable with all five days has every weekday. */
  lemma DayPresent(tt: Timetable, d: Weekday)
    requires HasAllDays(tt)
    ensures d in tt
  {
    match d
    case Montag =>
    case Dienstag =>
    case Mittwoch =>
    case Donnerstag =>
    case Freitag =>
  }

  /** The timetable the parser starts from: all five days, no lessons. */
  function EmptyTimetable(): (tt: Timetable)
    ensures HasAllDays(tt) && forall d :: d in tt ==> tt[d] == []
  {
    map[Montag := [], Dienstag := [], Mittwoch := [], Donnerstag := [], Freitag := []]
  }

  /** `list.remove(x)`: the first element equal to `x` is taken out. */
  function RemoveFirst(s: seq<Lesson>, x: Lesson): (r: seq<Lesson>)
    ensures x in s ==> |r| == |s| - 1
    ensures x !in s ==> r == s
  {
    if s == [] then []
    else if s[0] == x then s[1..]
    else [s[0]] + RemoveFirst(s[1..], x)
  }

  /** Removing `s[i]` when no earlier element equals it deletes exactly position `i`. */
  lemma {:induction false} RemoveFirstAt(s: seq<Lesson>, i: nat)
    requires i < |s|
    requires forall j :: 0 <= j < i ==> s[j] != s[i]
    ensures RemoveFirst(s, s[i]) == s[..i] + s[i + 1..]
  {
    if i > 0 {
      var rest := s[1..];
      assert rest[i - 1] == s[i];
      forall j | 0 <= j < i - 1 ensures rest[j] != rest[i - 1] {
        assert rest[j] == s[j + 1];
      }
      RemoveFirstAt(rest, i - 1);
      calc {
        RemoveFirst(s, s[i]);
        { assert s[0] != s[i]; }
        [s[0]] + RemoveFirst(rest, s[i]);
        [s[0]] + (rest[..i - 1] + rest[i..]);
        { assert rest[..i - 1] == s[1..i] && rest[i..] == s[i + 1..]; }
        [s[0]] + (s[1..i] + s[i + 1..]);
        { assert [s[0]] + s[1..i] == s[..i]; }
        s[..i] + s[i + 1..];
      }
    }
  }

  /**
    A Python list of lessons, shared by reference: `timetable[day]` is handed to
    `is_duplicate_lesson`, which may remove an entry from it, and the caller appends to it.
  */
  class LessonList {
    var items: seq<Lesson>

    constructor ()
      ensures items == []
    {
      items := [];
    }

    /** `list.append(x)`. */
    method Append(x: Lesson)
      modifies this
      ensures items == old(items) + [x]
    {
      items := items + [x];
    }

    /** `list.remove(x)`; Python raises ValueError when `x` is absent, which callers rule out. */
    method Remove(x: Lesson)
      requires x in items
      modifies this
      ensures items == RemoveFirst(old(items), x)
    {
      items := RemoveFirst(items, x);
    }
  }
}
