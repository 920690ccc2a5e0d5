/**
  `parse_timetable_pdf` once the first table of the first page has been extracted: the header
  row names the weekday columns, every later row is read cell by cell in those columns, and
  each lesson found is admitted to its day's list through `is_duplicate_lesson`.
*/
module GridWalk {
  import opened Options
  import opened Text
  import opened Clock
  import opened Patterns
  import opened Schedule
  import opened Resolver

  /** A table cell as extracted: text, or None for an empty cell. */
  type Cell = Option<string>
  type Row = seq<Cell>
  type Table = seq<Row>

  // ---------------------------------------------------------------------------------------
  // The header row

  /** The keys of `weekday_mapping`, the abbreviation searched for in a header cell. */
  function Short(d: Weekday): string {
    match d
    case Montag => "Mo"
    case Dienstag => "Di"
    case Mittwoch => "Mi"
    case Donnerstag => "Do"
    case Freitag => "Fr"
  }

  /** The position of `d` in `weekday_mapping`, which is also the order the header test tries. */
  function Rank(d: Weekday): nat {
    match d
    case Montag => 0
    case Dienstag => 1
    case Mittwoch => 2
    case Donnerstag => 3
    case Freitag => 4
  }

  /** `weekday_mapping.items()` in iteration order. */
  const Mapping: seq<Weekday> := [Montag, Dienstag, Mittwoch, Donnerstag, Freitag]

  /** The first of `Mapping[k..]` whose abbreviation occurs in `cell`. */
  function DayFrom(cell: string, k: nat): Option<Weekday>
    decreases |Mapping| - k
  {
    if k >= |Mapping| then None
    else if Contains(cell, Short(Mapping[k])) then Some(Mapping[k])
    else DayFrom(cell, k + 1)
  }

  /** The inner loop over `weekday_mapping` with its `break`: the day a header cell names. */
  function DayOf(cell: string): Option<Weekday> {
    DayFrom(cell, 0)
  }

  lemma {:induction false} DayFromSpec(cell: string, k: nat, d: Weekday)
    requires k <= |Mapping|
    ensures DayFrom(cell, k) == Some(d) <==>
              k <= Rank(d) && Contains(cell, Short(d))
              && forall e :: k <= Rank(e) < Rank(d) ==> !Contains(cell, Short(e))
    decreases |Mapping| - k
  {
    assert forall e :: Mapping[Rank(e)] == e;
    if k < |Mapping| {
      DayFromSpec(cell, k + 1, d);
    }
  }

  /**
    A header cell names day `d` exactly when it contains `d`'s abbreviation and none of the
    abbreviations tried before it: "Mo" before "Di" before "Mi" before "Do" before "Fr".
  */
  lemma DayOfSpec(cell: string, d: Weekday)
    ensures DayOf(cell) == Some(d) <==>
              Contains(cell, Short(d)) && forall e :: Rank(e) < Rank(d) ==> !Contains(cell, Short(e))
  {
    DayFromSpec(cell, 0, d);
  }

  /** The entry `day_columns[idx]` gets from header cell `idx`, if any. */
  function ColumnEntry(header: Row, idx: nat): seq<(nat, Weekday)>
    requires idx < |header|
  {
    if Truthy(header[idx]) && DayOf(header[idx].value).Some? then [(idx, DayOf(header[idx].value).value)]
    else []
  }

  /** `day_columns` in insertion order, as built from the cells of `header`. */
  function DayColumns(header: Row): seq<(nat, Weekday)> {
    if header == [] then [] else DayColumns(header[..|header| - 1]) + ColumnEntry(header, |header| - 1)
  }

  /** The header loop: `for idx, cell in enumerate(header_row)`. */
  method ClassifyHeader(header: Row) returns (dayColumns: seq<(nat, Weekday)>)
    ensures dayColumns == DayColumns(header)
  {
    dayColumns := [];
    var idx := 0;
    while idx < |header|
      invariant idx <= |header|
      invariant dayColumns == DayColumns(header[..idx])
    {
      var cell := header[idx];
      if cell.Some? && cell.value != [] {
        var day := DayOf(cell.value);
        if day.Some? {
          dayColumns := dayColumns + [(idx, day.value)];
        }
      }
      assert header[..idx + 1][..idx] == header[..idx];
      assert ColumnEntry(header[..idx + 1], idx) == ColumnEntry(header, idx);
      idx := idx + 1;
    }
    assert header[..idx] == header;
  }

  /** Columns listed strictly left to right, so each at most once. */
  predicate Increasing(cols: seq<(nat, Weekday)>) {
    forall j, k :: 0 <= j < k < |cols| ==> cols[j].0 < cols[k].0
  }

  /**
    `day_columns` holds column `c` with day `d` exactly when header cell `c` is non-empty and
    names `d`; its columns are listed once each, left to right.
  */
  lemma {:induction false} DayColumnsSpec(header: Row)
    ensures forall c: nat, d :: (c, d) in DayColumns(header) <==>
              c < |header| && Truthy(header[c]) && DayOf(header[c].value) == Some(d)
    ensures Increasing(DayColumns(header))
    ensures forall j :: 0 <= j < |DayColumns(header)| ==> DayColumns(header)[j].0 < |header|
  {
    if header != [] {
      var front := header[..|header| - 1];
      DayColumnsSpec(front);
      assert forall c :: 0 <= c < |front| ==> front[c] == header[c];
      var fc, e := DayColumns(front), ColumnEntry(header, |header| - 1);
      assert DayColumns(header) == fc + e;
      assert forall k :: 0 <= k < |e| ==> e[k].0 == |front|;
      var cols := fc + e;
      assert Increasing(fc);
      forall j, k | 0 <= j < k < |cols| ensures cols[j].0 < cols[k].0 {
        assert |e| <= 1;
        assert cols[j] == fc[j];
        if k >= |fc| {
          assert cols[k] == e[k - |fc|];
          assert fc[j].0 < |front|;
          assert e[k - |fc|].0 == |front|;
        } else {
          assert cols[k] == fc[k];
          assert fc[j].0 < fc[k].0;
        }
      }
    }
  }

  // ---------------------------------------------------------------------------------------
  // One cell

  /**
    Second tier: the cell of the NEXT row in the same column, stripped, when it is exactly a
    time range. Only that one row is looked at.
  */
  function NextRowTimes(table: Table, r: nat, c: nat): (times: Option<(string, string)>)
    requires r < |table|
    ensures times.Some? ==> IsClockText(times.value.0) && IsClockText(times.value.1)
  {
    if r + 1 < |table| && c < |table[r + 1]| && Truthy(table[r + 1][c]) then
      var timeCell := Strip(table[r + 1][c].value);
      if IsExactRange(timeCell) then Some((RangeAt(timeCell).value.start, RangeAt(timeCell).value.ende))
      else None
    else None
  }

  /**
    Third tier: the first `HH:MM` in column 1 of the row, when that cell contains a colon,
    with the end 90 minutes later.
  */
  function ColumnOneTimes(row: Row): (times: Option<(string, string)>)
    ensures times.Some? ==> IsClockText(times.value.0) && IsClockText(times.value.1)
  {
    var timeCell := if |row| > 1 then row[1] else None;
    if Truthy(timeCell) && ':' in timeCell.value then
      match SearchClock(timeCell.value)
      case Some((_, start)) => Some((start, CalculateEndTime(start, DefaultDuration)))
      case None => None
    else None
  }

  /** The times of a subject cell with stripped text `text`: the first tier that finds any. */
  function TierTimes(table: Table, r: nat, c: nat, text: string): (times: Option<(string, string)>)
    requires r < |table|
    ensures times.Some? ==> IsClockText(times.value.0) && IsClockText(times.value.1)
  {
    match SearchRange(text)
    case Some((_, m)) => Some((m.start, m.ende))
    case None =>
      match NextRowTimes(table, r, c)
      case Some(times) => Some(times)
      case None => ColumnOneTimes(table[r])
  }

  /** Both times have the `HH:MM` shape. */
  predicate ClockLesson(l: Lesson) {
    IsClockText(l.start) && IsClockText(l.ende)
  }

  /**
    The lesson the cell in row `r`, column `c` yields: its subject when the stripped cell
    starts like `Name - ...`, with the times of the first tier that finds any.
  */
  function CellLesson(table: Table, r: nat, c: nat): (l: Option<Lesson>)
    requires r < |table|
    ensures l.Some? ==> ClockLesson(l.value)
  {
    var row := table[r];
    if c < |row| && row[c].Some? && Strip(row[c].value) != [] then
      var text := Strip(row[c].value);
      match DashSubject(text)
      case None => None
      case Some(subject) =>
        match TierTimes(table, r, c, text)
        case None => None
        case Some((start, ende)) => Some(Lesson(subject, start, ende))
    else None
  }

  /**
    The part of the column loop's body that reads one cell: the subject test, then the time
    tiers, then the check that both times were found.
  */
  method ReadCell(table: Table, rowIdx: nat, colIdx: nat) returns (lesson: Option<Lesson>)
    requires rowIdx < |table|
    ensures lesson == CellLesson(table, rowIdx, colIdx)
  {
    var row := table[rowIdx];
    lesson := None;
    if colIdx < |row| {
      var cell := row[colIdx];
      if cell.Some? && Strip(cell.value) != [] {
        var cellText := Strip(cell.value);
        var subjectMatch := DashSubject(cellText);
        if subjectMatch.Some? {
          var startTime, endTime := FindTimes(table, rowIdx, colIdx, cellText);
          if startTime.Some? && startTime.value != [] && endTime.Some? && endTime.value != [] {
            lesson := Some(Lesson(subjectMatch.value, startTime.value, endTime.value));
          }
        }
      }
    }
  }

  /**
    The three time tiers of one subject cell with stripped text `cellText`, each tried only
    while no start time has been found.
  */
  method FindTimes(table: Table, rowIdx: nat, colIdx: nat, cellText: string)
    returns (startTime: Option<string>, endTime: Option<string>)
    requires rowIdx < |table|
    ensures startTime.Some? == endTime.Some?
    ensures startTime.Some? ==> TierTimes(table, rowIdx, colIdx, cellText) == Some((startTime.value, endTime.value))
    ensures startTime.None? ==> TierTimes(table, rowIdx, colIdx, cellText) == None
  {
    startTime, endTime := None, None;
    var row := table[rowIdx];
    // first tier: a range in the same cell
    var timeInCell := SearchRange(cellText);
    if timeInCell.Some? {
      startTime := Some(timeInCell.value.1.start);
      endTime := Some(timeInCell.value.1.ende);
    }
    // second tier: the next row's cell is exactly a range
    if startTime.None? && rowIdx + 1 < |table| {
      var nextRow := table[rowIdx + 1];
      if colIdx < |nextRow| && nextRow[colIdx].Some? && nextRow[colIdx].value != [] {
        var timeCell := Strip(nextRow[colIdx].value);
        if IsExactRange(timeCell) {
          startTime := Some(RangeAt(timeCell).value.start);
          endTime := Some(RangeAt(timeCell).value.ende);
        }
      }
    }
    // third tier: the first HH:MM in column 1, plus 90 minutes
    if startTime.None? {
      var timeCell := if |row| > 1 then row[1] else None;
      if timeCell.Some? && timeCell.value != [] && ':' in timeCell.value {
        var timeMatch := SearchClock(timeCell.value);
        if timeMatch.Some? {
          startTime := Some(timeMatch.value.1);
          endTime := Some(CalculateEndTime(timeMatch.value.1, DefaultDuration));
        }
      }
    }
  }

  // ---------------------------------------------------------------------------------------
  // The walk

  /** Every lesson of a day has `HH:MM` times. */
  predicate ClockDay(s: seq<Lesson>) {
    forall k :: 0 <= k < |s| ==> ClockLesson(s[k])
  }

  /** Every lesson of every day has `HH:MM` times. */
  predicate ClockTimetable(tt: Timetable) {
    forall d :: d in tt ==> ClockDay(tt[d])
  }

  lemma ClockLessonReadable(l: Lesson)
    requires ClockLesson(l)
    ensures Readable(l)
  {
    ClockTextMinutes(l.start);
    ClockTextMinutes(l.ende);
  }

  /** Admitting an `HH:MM` lesson to a day of `HH:MM` lessons: the times `is_duplicate_lesson` converts are readable. */
  lemma ClockDayConvertible(s: seq<Lesson>, l: Lesson)
    requires ClockDay(s) && ClockLesson(l)
    ensures ConvertibleFor(s, l)
    ensures ClockDay(Admit(s, l))
    ensures forall x <- Admit(s, l) :: x in s || x == l
  {
    forall x | x in s ensures Readable(x) {
      ClockLessonReadable(x);
    }
    ClockLessonReadable(l);
    AdmitKeepsReadable(s, l);
  }

  /** The lesson `l` admitted to day `d` by `is_duplicate_lesson` and the append it guards. */
  function AdmitTo(tt: Timetable, d: Weekday, l: Lesson): (next: Timetable)
    requires HasAllDays(tt) && ClockTimetable(tt) && ClockLesson(l)
    ensures HasAllDays(next) && ClockTimetable(next)
  {
    DayPresent(tt, d);
    ClockDayConvertible(tt[d], l);
    var next := tt[d := Admit(tt[d], l)];
    assert ClockTimetable(next) by {
      forall e | e in next ensures ClockDay(next[e]) {
        if e != d {
          assert next[e] == tt[e];
        }
      }
    }
    next
  }

  /** One cell of the walk: its lesson, if any, is admitted to the column's day. */
  function WalkCell(tt: Timetable, table: Table, r: nat, col: (nat, Weekday)): (next: Timetable)
    requires r < |table| && HasAllDays(tt) && ClockTimetable(tt)
    ensures HasAllDays(next) && ClockTimetable(next)
  {
    match CellLesson(table, r, col.0)
    case None => tt
    case Some(l) => AdmitTo(tt, col.1, l)
  }

  /** The column loop of row `r` over the first `|cols|` weekday columns. */
  function WalkColumns(tt: Timetable, table: Table, r: nat, cols: seq<(nat, Weekday)>): (next: Timetable)
    requires r < |table| && HasAllDays(tt) && ClockTimetable(tt)
    ensures HasAllDays(next) && ClockTimetable(next)
  {
    if cols == [] then tt
    else WalkCell(WalkColumns(tt, table, r, cols[..|cols| - 1]), table, r, cols[|cols| - 1])
  }

  /** The timetable after the row loop has read rows `1 .. n - 1`. */
  function WalkRows(table: Table, cols: seq<(nat, Weekday)>, n: nat): (tt: Timetable)
    requires n <= |table|
    ensures HasAllDays(tt) && ClockTimetable(tt)
  {
    if n <= 1 then EmptyTimetable() else WalkColumns(WalkRows(table, cols, n - 1), table, n - 1, cols)
  }

  /**
    `parse_timetable_pdf` given the tables of the first page: None when there is no table
    (`if not tables`) or the first one has no header row (the `IndexError` of `table[0]` is
    caught and turned into None); otherwise the five days after the walk.
  */
  function ParseTimetable(tables: seq<Table>): Option<Timetable> {
    if tables == [] || tables[0] == [] then None
    else Some(WalkRows(tables[0], DayColumns(tables[0][0]), |tables[0]|))
  }

  /** The per-day lists the walk mutates, read out as a timetable. */
  function Snapshot(lists: map<Weekday, LessonList>): Timetable
    reads lists.Values
  {
    map d | d in lists :: lists[d].items
  }

  /** The five lists are five different objects: no two days share a list. */
  predicate Separate(lists: map<Weekday, LessonList>) {
    forall d, e :: d in lists && e in lists && d != e ==> lists[d] != lists[e]
  }

  /** `timetable = {"Montag": [], ...}`: five fresh, separate, empty lists. */
  method NewTimetable() returns (lists: map<Weekday, LessonList>)
    ensures lists.Keys == EmptyTimetable().Keys && Separate(lists)
    ensures fresh(lists.Values)
    ensures Snapshot(lists) == EmptyTimetable()
  {
    var mo := new LessonList();
    var di := new LessonList();
    var mi := new LessonList();
    var don := new LessonList();
    var fr := new LessonList();
    lists := map[Montag := mo, Dienstag := di, Mittwoch := mi, Donnerstag := don, Freitag := fr];
  }

  /**
    `parse_timetable_pdf` over the extracted tables: the header, then the row loop and the
    column loop, admitting each cell's lesson to the day's shared list in place.
  */
  method ParseTimetablePdf(tables: seq<Table>) returns (result: Option<Timetable>)
    ensures result == ParseTimetable(tables)
  {
    if |tables| == 0 {
      return None;
    }
    var table := tables[0];
    if |table| == 0 {
      return None;
    }
    var timetable := NewTimetable();
    var dayColumns := ClassifyHeader(table[0]);
    var rowIdx := 1;
    while rowIdx < |table|
      invariant 1 <= rowIdx <= |table|
      invariant timetable.Keys == EmptyTimetable().Keys && Separate(timetable)
      invariant fresh(timetable.Values)
      invariant Snapshot(timetable) == WalkRows(table, dayColumns, rowIdx)
    {
      WalkRow(timetable, table, rowIdx, dayColumns);
      rowIdx := rowIdx + 1;
    }
    result := Some(Snapshot(timetable));
  }

  /** The column loop of one row: every weekday column's cell, left to right. */
  method WalkRow(timetable: map<Weekday, LessonList>, table: Table, rowIdx: nat, dayColumns: seq<(nat, Weekday)>)
    requires rowIdx < |table|
    requires timetable.Keys == EmptyTimetable().Keys && Separate(timetable)
    requires ClockTimetable(Snapshot(timetable))
    modifies timetable.Values
    ensures Snapshot(timetable) == WalkColumns(old(Snapshot(timetable)), table, rowIdx, dayColumns)
  {
    ghost var atRowStart := Snapshot(timetable);
    var k := 0;
    while k < |dayColumns|
      invariant k <= |dayColumns|
      invariant Snapshot(timetable) == WalkColumns(atRowStart, table, rowIdx, dayColumns[..k])
    {
      VisitCell(timetable, table, rowIdx, dayColumns[k]);
      assert dayColumns[..k + 1][..k] == dayColumns[..k];
      k := k + 1;
    }
    assert dayColumns[..k] == dayColumns;
  }

  /**
    One step of the column loop: read the cell, and append its lesson to the day's list
    unless `is_duplicate_lesson` rejects it (having possibly removed an entry first).
  */
  method VisitCell(timetable: map<Weekday, LessonList>, table: Table, rowIdx: nat, col: (nat, Weekday))
    requires rowIdx < |table|
    requires timetable.Keys == EmptyTimetable().Keys && Separate(timetable)
    requires ClockTimetable(Snapshot(timetable))
    modifies timetable.Values
    ensures Snapshot(timetable) == WalkCell(old(Snapshot(timetable)), table, rowIdx, col)
  {
    var colIdx, fullDay := col.0, col.1;
    var lesson := ReadCell(table, rowIdx, colIdx);
    if lesson.Some? {
      AddLesson(timetable, fullDay, lesson.value);
    }
  }

  /** `if not is_duplicate_lesson(timetable[full_day], lesson): timetable[full_day].append(lesson)`. */
  method AddLesson(timetable: map<Weekday, LessonList>, fullDay: Weekday, l: Lesson)
    requires timetable.Keys == EmptyTimetable().Keys && Separate(timetable)
    requires ClockTimetable(Snapshot(timetable)) && ClockLesson(l)
    modifies timetable.Values
    ensures Snapshot(timetable) == AdmitTo(old(Snapshot(timetable)), fullDay, l)
  {
    ghost var before := Snapshot(timetable);
    assert HasAllDays(before);
    DayPresent(before, fullDay);
    var dayList := timetable[fullDay];
    assert dayList.items == before[fullDay];
    ClockDayConvertible(dayList.items, l);
    var verdict := IsDuplicateLesson(dayList, l);
    if verdict == Some(false) {
      dayList.Append(l);
    }
    assert dayList.items == Admit(before[fullDay], l);
    AdmitUpdatesOneDay(timetable, before, fullDay);
  }

  /** Changing one day's list changes the snapshot at that day only. */
  lemma AdmitUpdatesOneDay(lists: map<Weekday, LessonList>, before: Timetable, day: Weekday)
    requires day in lists && before.Keys == lists.Keys
    requires forall d :: d in lists && d != day ==> lists[d].items == before[d]
    ensures Snapshot(lists) == before[day := lists[day].items]
  {
  }

  // ---------------------------------------------------------------------------------------
  // Properties of the walk

  /**
    The second tier reads the cell right below: it is non-empty, stripped it is exactly a time
    range, and the times are its first and its last five characters.
  */
  lemma NextRowTimesSpec(table: Table, r: nat, c: nat, times: (string, string))
    requires r < |table| && NextRowTimes(table, r, c) == Some(times)
    ensures r + 1 < |table| && c < |table[r + 1]| && Truthy(table[r + 1][c])
    ensures var below := Strip(table[r + 1][c].value);
            IsExactRange(below) && 11 <= |below| && times == (below[..5], below[|below| - 5..])
  {
    var below := Strip(table[r + 1][c].value);
    assert times.0 == RangeAt(below).value.start && times.1 == RangeAt(below).value.ende;
    ExactRangeEnds(below);
  }

  /**
    The third tier reads column 1 of the same row: it contains a colon, the start is its first
    `HH:MM`, and the end is 90 minutes later on the clock, or `"12:00"` when the start is no
    clock time (`"25:00"` has the shape but `strptime` refuses it).
  */
  lemma ColumnOneTimesSpec(row: Row, times: (string, string))
    requires ColumnOneTimes(row) == Some(times)
    ensures 1 < |row| && Truthy(row[1]) && ':' in row[1].value
    ensures SearchClock(row[1].value).Some? && SearchClock(row[1].value).value.1 == times.0
    ensures IsClockText(times.0) && IsClockText(times.1)
    ensures ParseClock(times.0).Some? ==>
              TimeToMinutes(times.1) == Some((ParseClock(times.0).value + DefaultDuration) % MinutesPerDay)
    ensures ParseClock(times.0).None? ==> times.1 == "12:00"
  {
  }

  /**
    The tiers in order of precedence. A lesson needs a non-blank cell whose stripped text
    yields a subject; its times are the first range in the cell itself, and only when there
    is none those of the next row's cell, and only when that finds none those of column 1.
  */
  lemma CellLessonTiers(table: Table, r: nat, c: nat, l: Lesson)
    requires r < |table| && CellLesson(table, r, c) == Some(l)
    ensures c < |table[r]| && Truthy(table[r][c])
    ensures DashSubject(Strip(table[r][c].value)) == Some(l.fach)
    ensures SearchRange(Strip(table[r][c].value)).Some? ==>
              var m := SearchRange(Strip(table[r][c].value)).value.1;
              l.start == m.start && l.ende == m.ende
    ensures SearchRange(Strip(table[r][c].value)).None? ==>
              NextRowTimes(table, r, c) == Some((l.start, l.ende))
              || (NextRowTimes(table, r, c).None? && ColumnOneTimes(table[r]) == Some((l.start, l.ende)))
  {
  }

  /**
    A cell yields a lesson exactly when it is non-blank, its stripped text yields a subject,
    and at least one tier finds times.
  */
  lemma CellLessonExists(table: Table, r: nat, c: nat)
    requires r < |table|
    ensures CellLesson(table, r, c).Some? <==>
              c < |table[r]| && Truthy(table[r][c]) && Strip(table[r][c].value) != []
              && DashSubject(Strip(table[r][c].value)).Some?
              && (SearchRange(Strip(table[r][c].value)).Some? || NextRowTimes(table, r, c).Some?
                  || ColumnOneTimes(table[r]).Some?)
  {
  }

  /**
    The lookahead is exactly one row: two tables that agree on rows `r` and `r + 1` give cell
    `(r, c)` the same lesson, so a time range two rows below is never seen.
  */
  lemma OneRowLookahead(table: Table, other: Table, r: nat, c: nat)
    requires r < |table| && r < |other| && other[r] == table[r]
    requires r + 1 < |table| <==> r + 1 < |other|
    requires r + 1 < |table| ==> other[r + 1] == table[r + 1]
    ensures CellLesson(other, r, c) == CellLesson(table, r, c)
  {
    if c < |table[r]| && table[r][c].Some? && Strip(table[r][c].value) != [] {
      var text := Strip(table[r][c].value);
      assert NextRowTimes(other, r, c) == NextRowTimes(table, r, c);
      assert TierTimes(other, r, c, text) == TierTimes(table, r, c, text);
    }
  }

  /** Without weekday columns nothing is ever read: every day stays empty. */
  lemma {:induction false} NoColumnsNoLessons(table: Table, n: nat)
    requires n <= |table|
    ensures WalkRows(table, [], n) == EmptyTimetable()
  {
    if n > 1 {
      NoColumnsNoLessons(table, n - 1);
    }
  }

  /**
    A header row none of whose non-empty cells names a weekday gives the empty timetable,
    whatever the other rows hold.
  */
  lemma NoWeekdayHeader(tables: seq<Table>)
    requires tables != [] && tables[0] != []
    requires forall c :: 0 <= c < |tables[0][0]| && Truthy(tables[0][0][c]) ==> DayOf(tables[0][0][c].value).None?
    ensures ParseTimetable(tables) == Some(EmptyTimetable())
  {
    var header := tables[0][0];
    DayColumnsSpec(header);
    if DayColumns(header) != [] {
      assert DayColumns(header)[0] in DayColumns(header);
    }
    NoColumnsNoLessons(tables[0], |tables[0]|);
  }

  /** Only the first table and its first row decide whether there is a timetable at all. */
  lemma ParseTimetableFails(tables: seq<Table>)
    ensures ParseTimetable(tables).None? <==> tables == [] || tables[0] == []
    ensures ParseTimetable(tables).Some? ==> HasAllDays(ParseTimetable(tables).value)
  {
  }

  /** Cell `(r, c)` of the table is in a column that names `d` and yields `l`. */
  ghost predicate FromColumn(table: Table, cols: seq<(nat, Weekday)>, r: nat, d: Weekday, l: Lesson)
    requires r < |table|
  {
    exists c :: (c, d) in cols && CellLesson(table, r, c) == Some(l)
  }

  /** Some row `1 .. n - 1` holds a cell in a column that names `d` and yields `l`. */
  ghost predicate FromRows(table: Table, cols: seq<(nat, Weekday)>, n: nat, d: Weekday, l: Lesson)
    requires n <= |table|
  {
    exists r :: 1 <= r < n && FromColumn(table, cols, r, d, l)
  }

  /** Every lesson a day holds after one cell was there before or is that cell's lesson. */
  lemma WalkCellProvenance(tt: Timetable, table: Table, r: nat, col: (nat, Weekday), d: Weekday, l: Lesson)
    requires r < |table| && HasAllDays(tt) && ClockTimetable(tt)
    requires d in WalkCell(tt, table, r, col) && l in WalkCell(tt, table, r, col)[d]
    ensures (d in tt && l in tt[d]) || (d == col.1 && CellLesson(table, r, col.0) == Some(l))
  {
    match CellLesson(table, r, col.0)
    case None =>
    case Some(n) =>
      DayPresent(tt, col.1);
      ClockDayConvertible(tt[col.1], n);
  }

  /** Every lesson a day holds after a row was there before or comes from that row. */
  lemma {:induction false} WalkColumnsProvenance(tt: Timetable, table: Table, r: nat, cols: seq<(nat, Weekday)>,
                                                 d: Weekday, l: Lesson)
    requires r < |table| && HasAllDays(tt) && ClockTimetable(tt)
    requires d in WalkColumns(tt, table, r, cols) && l in WalkColumns(tt, table, r, cols)[d]
    ensures (d in tt && l in tt[d]) || FromColumn(table, cols, r, d, l)
  {
    if cols != [] {
      var front := cols[..|cols| - 1];
      var col := cols[|cols| - 1];
      var mid := WalkColumns(tt, table, r, front);
      WalkCellProvenance(mid, table, r, col, d, l);
      if d in mid && l in mid[d] {
        WalkColumnsProvenance(tt, table, r, front, d, l);
        if FromColumn(table, front, r, d, l) {
          var c :| (c, d) in front && CellLesson(table, r, c) == Some(l);
          assert (c, d) in cols;
        }
      } else {
        assert col in cols;
      }
    }
  }

  /** Every lesson of the walk over rows `1 .. n - 1` comes from a cell of those rows. */
  lemma {:induction false} WalkRowsProvenance(table: Table, cols: seq<(nat, Weekday)>, n: nat, d: Weekday, l: Lesson)
    requires n <= |table|
    requires d in WalkRows(table, cols, n) && l in WalkRows(table, cols, n)[d]
    ensures FromRows(table, cols, n, d, l)
  {
    if n > 1 {
      var before := WalkRows(table, cols, n - 1);
      WalkColumnsProvenance(before, table, n - 1, cols, d, l);
      if d in before && l in before[d] {
        WalkRowsProvenance(table, cols, n - 1, d, l);
        var r :| 1 <= r < n - 1 && FromColumn(table, cols, r, d, l);
      }
    }
  }

  /**
    Nothing is invented: every lesson filed under day `d` was read from a cell below the
    header, in a column whose header cell names `d`.
  */
  lemma ParseTimetableProvenance(tables: seq<Table>, tt: Timetable, d: Weekday, l: Lesson)
    requires ParseTimetable(tables) == Some(tt) && d in tt && l in tt[d]
    ensures tables != [] && tables[0] != []
    ensures ReadFromColumnOf(tables[0], d, l)
  {
    WalkProvenance(tables[0], d, l);
  }

  /** The walk over one table files `l` under `d` only if a cell of a `d` column yields it. */
  lemma WalkProvenance(table: Table, d: Weekday, l: Lesson)
    requires table != []
    requires d in WalkRows(table, DayColumns(table[0]), |table|)
    requires l in WalkRows(table, DayColumns(table[0]), |table|)[d]
    ensures ReadFromColumnOf(table, d, l)
  {
    var cols := DayColumns(table[0]);
    WalkRowsProvenance(table, cols, |table|, d, l);
    var r :| 1 <= r < |table| && FromColumn(table, cols, r, d, l);
    var c :| (c, d) in cols && CellLesson(table, r, c) == Some(l);
    DayColumnMember(table[0], c, d);
  }

  /** Some cell below the header, in a column whose header cell names `d`, yields `l`. */
  ghost predicate ReadFromColumnOf(table: Table, d: Weekday, l: Lesson)
    requires table != []
  {
    exists r, c :: 1 <= r < |table| && 0 <= c < |table[0]| && Truthy(table[0][c])
                   && DayOf(table[0][c].value) == Some(d) && CellLesson(table, r, c) == Some(l)
  }

  /** An entry of `day_columns` is a non-empty header cell naming its day. */
  lemma DayColumnMember(header: Row, c: nat, d: Weekday)
    requires (c, d) in DayColumns(header)
    ensures c < |header| && Truthy(header[c]) && DayOf(header[c].value) == Some(d)
  {
    DayColumnsSpec(header);
  }
}
