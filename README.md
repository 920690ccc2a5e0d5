# Timetable PDF parser, modelled in Dafny

This project models the parsing core of a school-timetable importer (`pdf_parser.py`). The importer takes the first table that a PDF table extractor finds on a timetable's first page. From that table it builds a dictionary holding five weekday lists, Montag to Freitag, of lessons. Each lesson is a `{"fach", "start", "ende"}` record. The core consists of:

- **the grid walk** of `parse_timetable_pdf`:
  - The header row maps columns to weekdays by the first of `Mo`, `Di`, `Mi`, `Do`, `Fr` that occurs in a cell.
  - Every data row is visited in the weekday columns.
  - A cell whose stripped text matches `^([A-ZÄÖÜa-zäöü&\d\s]+?)\s*[\(\!]*\s*[-–]` names a subject.
  - The lesson's times come from the first of three tiers that finds any: a time range in the same cell; the cell right below, when it is exactly a time range; or the first `HH:MM` of column 1 of the row, with the end 90 minutes later.
  - The lesson is appended to its day only if `is_duplicate_lesson` does not reject it.
- **`is_duplicate_lesson`**, which scans the day's list in order and decides at the FIRST entry of the same subject that has the same start or overlaps. The same start means reject. An overlap means that either the new lesson is strictly shorter, in which case the entry is removed from the shared list in place and the new lesson accepted, or the new lesson is rejected.
- **`time_to_minutes`** and **`calculate_end_time`** (`strptime`, then the clock time `duration` minutes later, then `strftime`; `"12:00"` when the start is not a `%H:%M` time).
- **`parse_lesson_cell`** (the cell's first time range, or a default start plus 90 minutes, and a subject read from the rest of the cell) and **`parse_lesson_cell_multi`** (a line-by-line state machine that collects a subject code and the time ranges that follow it, and gives only the last subject the default start).

Modules, in dependency order:

- `Options`: an option type.
- `Text`: `strip`, `split`, `in` and `isdigit` on strings.
- `Clock`:
  - `time_to_minutes`, as a left-to-right automaton proved equal to the `split(':')` / `int` reading;
  - `strptime` and `strftime` for `%H:%M`;
  - `calculate_end_time`.
- `Patterns`: each regular expression of the core, as an explicit matcher. Lemmas prove which match `re.search` picks (the leftmost) and what the lazy subject group and the greedy code group capture. `re.sub` is defined by its leftmost-match rule and proved equal to a left-to-right deleting scan.
- `Schedule`:
  - lessons and weekdays;
  - the `LessonList` class, which stands for the Python list that is shared and mutated in place.
- `Resolver`: `is_duplicate_lesson`, as a method on a `LessonList` proved against the function `Resolve`.
- `CellParser`: both cell parsers.
  - The loop of `parse_lesson_cell_multi` is a method proved against a fold (`ScanFrom`) of the one-line step `StepLine`.
- `GridWalk`:
  - the header loop;
  - the three time tiers;
  - `parse_timetable_pdf` as nested loops over the mutable day lists, proved against the pure walk `ParseTimetable`;
  - the walk's provenance and no-exception properties.

### Behaviour worth knowing

The code has these properties, each stated in a lemma:

- **Lookahead.** The walk looks exactly one row ahead. A subject whose time stands two rows further down gets no time from there (`GridWalk.OneRowLookahead`, `GridWalk.CellLessonTiers`).
- **Subject forms.** The walk reads a subject only from the `Name - ...` form, with digits allowed in the name. A cell holding just a short code such as `En` yields nothing, and a one-character name such as `M - ...` is accepted (`GridWalk.CellLessonExists`).
- **Time checks.** The walk does not check that times are clock times. `99:99` passes the `\d{2}:\d{2}` patterns, and a non-clock start makes `calculate_end_time` answer `"12:00"` (`GridWalk.ColumnOneTimesSpec`, `Clock.EndTimeOfNonClock`).
- **Overlaps.** Overlap resolution stops at the first conflict, so a day's lessons of one subject are not kept disjoint:
  - an evicting lesson can overlap a later entry (`Resolver.FirstConflictOnlyLeavesOverlap`);
  - an exact same-subject, same-start duplicate can be admitted (`Resolver.SameStartCanCoexist`).
- **Same start.** A strictly shorter lesson with the same start as a listed one is rejected, because the same-start test comes before the duration test. The same-start test reads no times, so it rejects even when a listed end is unreadable (`Resolver.SameStartNeedsNoTimes`) (`Resolver.SameStartShorterIsRejected`).

## Model

| member | source | states |
|---|---|---|
| Clock.ReadableTimeSplits | pdf_parser.py:328-330 | the reference reading (digits, one colon, digits) is exactly `split(':')` giving two digit strings, and its value is `int(h) * 60 + int(m)` |
| Clock.TimeToMinutesReadsSplit | pdf_parser.py:328-330 | `TimeToMinutes` succeeds iff `time_str.split(':')` has two all-digit parts, and then returns `int(h) * 60 + int(m)`; otherwise it is the ValueError case |
| Clock.ClockTextMinutes | pdf_parser.py:328-330 | an `HH:MM` text is readable and its minutes are `HH * 60 + MM` |
| Clock.HourMinuteBounds | pdf_parser.py:301 | the hour and minute texts that `%H:%M` accepts are below 24 and 60 |
| Clock.ParseClock | pdf_parser.py:301 | `strptime(s, "%H:%M")` yields a time of day below 1440 minutes, or fails |
| Clock.FormatClock | pdf_parser.py:303 | `strftime("%H:%M")` always writes a zero-padded `HH:MM` text |
| Clock.FormatClockRoundTrip | pdf_parser.py:301-303 | parsing what was formatted gives the time back, by `strptime` and by `time_to_minutes` alike |
| Clock.ParseClockInverse | pdf_parser.py:301-303 | a zero-padded `HH:MM` that `strptime` accepts is exactly what `strftime` writes for its time |
| Clock.CalculateEndTime | pdf_parser.py:289-305 | the result is always an `HH:MM` text. For a valid start it is the clock time `duration` minutes later, modulo a day, by both readers. Otherwise it is `"12:00"` |
| Clock.CalculateEndTimeCompose | pdf_parser.py:289-305 | adding `a` then `b` minutes equals adding `a + b` minutes |
| Clock.EndTimeOfMorningLesson | pdf_parser.py:289-305 | `08:00` plus 90 minutes is `09:30` |
| Clock.EndTimeWrapsAtMidnight | pdf_parser.py:289-305 | `23:00` plus 90 minutes wraps to `00:30` |
| Clock.EndTimeOfNonClock | pdf_parser.py:300-305 | a start `strptime` refuses (`99:99`) gives the fallback `12:00` |
| Patterns.RangeAt | pdf_parser.py:86 | a time-range match at the start of a text captures its first five characters and the five before the match end, both `HH:MM`, in at least 11 characters |
| Patterns.FindFirstIsLeftmost | pdf_parser.py:86 | `re.search` reports the leftmost position where the pattern matches; no earlier position matches |
| Patterns.ExactRangeEnds | pdf_parser.py:96 | a text that is exactly a time range has its start as its first and its end as its last five characters |
| Patterns.ClockAt | pdf_parser.py:105 | a `(\d{2}):(\d{2})` match captures the first five characters as an `HH:MM` text |
| Patterns.RemoveRanges | pdf_parser.py:258 | `re.sub` keeps the text before the leftmost range, deletes that range and goes on behind it; the text comes back unchanged when no range occurs, and at least 11 characters shorter when one does |
| Patterns.RemoveRangesHere | pdf_parser.py:258 | where a range starts, `re.search` reports it at position 0 and `re.sub` deletes exactly it before going on |
| Patterns.RemoveRangesSkip | pdf_parser.py:258 | where no range starts, `re.sub` keeps the first character and goes on with the rest: with `RemoveRangesHere`, `re.sub` is the left-to-right scan that deletes each range where it starts |
| Patterns.LazyNameEndIsLeast | pdf_parser.py:77-79 | the lazy `+?` group ends at the least position where a name run is followed by the dash part |
| Patterns.DashSubjectIsLeastMatch | pdf_parser.py:77-80 | the subject pattern matches iff some name end works, and the subject is the stripped name up to the least such end |
| Patterns.CodeSubject | pdf_parser.py:160 | the code pattern captures a non-empty prefix of the line made of code characters only |
| Patterns.CodeSubjectIsOnlyMatch | pdf_parser.py:160 | the code pattern matches iff some non-empty run of code characters at the line start is followed by spaces and a dash; then the capture is that run, and there is only one such run: the whole leading run of code characters |
| Schedule.EmptyTimetable | pdf_parser.py:21-27 | the timetable starts with all five weekdays and no lessons |
| Schedule.RemoveFirst | pdf_parser.py:346 | `list.remove` shortens a list holding `x` by one. A list without `x` is left alone: that is the model's total extension, since Python raises ValueError there, and `LessonList.Remove` requires `x` to be in the list, so no caller reaches it |
| Schedule.RemoveFirstAt | pdf_parser.py:346 | removing the entry at `i`, when no earlier entry equals it, leaves exactly the others in their order |
| Schedule.LessonList.constructor | pdf_parser.py:21-27 | a day's list starts empty |
| Schedule.LessonList.Append | pdf_parser.py:123 | `append` adds the lesson at the end and changes nothing else |
| Schedule.LessonList.Remove | pdf_parser.py:346 | `remove` takes out the first equal entry, in place |
| Resolver.FirstConflict | pdf_parser.py:319-338 | the scan stops at the first entry of the same subject with the same start or an overlapping interval; no earlier entry is such a conflict; when it runs through, none is |
| Resolver.Resolve | pdf_parser.py:319-352 | the call raises ValueError iff the scan reaches an entry whose times it must convert and cannot; a rejection leaves the list unchanged; an acceptance leaves it unchanged or with exactly one entry removed, the others in order |
| Resolver.IsDuplicateLesson | pdf_parser.py:308-352 | the in-place scan returns the decision of `Resolve` and leaves the list that `Resolve` describes; where `Resolve` is ValueError it returns None and has changed nothing |
| Resolver.ResolveExactDuplicate | pdf_parser.py:320-323 | when the scan, past entries it passes, reaches one with the subject and start, the new lesson is rejected and the list kept, whatever the times |
| Resolver.ResolveRaises | pdf_parser.py:325-334 | when the scan reaches an entry with the subject and another start and a time of it or of the new lesson is unreadable, the call raises ValueError |
| Resolver.ValueErrorExactly | pdf_parser.py:319-334 | the call raises ValueError exactly when the scan reaches such an entry |
| Resolver.SameStartNeedsNoTimes | pdf_parser.py:320-323 | `[Math 08:00-xx]` rejects Math 08:00-09:00 without converting any time |
| Resolver.ResolveEvicts | pdf_parser.py:338-347 | when the scan reaches an entry with the subject and another start that overlaps and is strictly longer, exactly it is removed, the others in order, and the new lesson is accepted; as multisets the list lost just that entry |
| Resolver.ResolveKeepsExisting | pdf_parser.py:338-350 | when the scan reaches such an entry that is not longer, the new lesson is rejected and the list kept |
| Resolver.ResolveNoConflict | pdf_parser.py:319-352 | when the scan passes every entry, the lesson is accepted and the list kept |
| Resolver.InsertKeepsConflictEntry | pdf_parser.py:319-338 | inserting a non-conflicting entry anywhere does not change where the scan stops |
| Resolver.NonConflictingEntryIrrelevant | pdf_parser.py:319-352 | entries that do not conflict with the new lesson never change the decision, wherever they stand |
| Resolver.AdmitKeepsReadable | pdf_parser.py:122-123 | admitting a readable lesson keeps every lesson readable and adds nothing but that lesson |
| Resolver.FirstConflictOnlyLeavesOverlap | pdf_parser.py:319-350 | Math 09:50-10:20 evicts Math 08:00-10:00 and is appended although it overlaps the listed Math 10:00-10:30 |
| Resolver.SameStartShorterIsRejected | pdf_parser.py:320-323 | Math 08:00-09:00 is rejected next to Math 08:00-09:45: the same-start test precedes the duration test |
| Resolver.SameStartCanCoexist | pdf_parser.py:319-350 | Math 07:00-08:20 evicts Math 08:00-10:00 and is appended beside Math 07:00-07:30, which has its subject and start |
| CellParser.SubjectPart | pdf_parser.py:268-272 | the part the subject is cut from is a prefix of the text: when the text starts with a word character, the maximal run of `[A-ZÄÖÜa-zäöü&\s]` characters at its start; otherwise its first line, up to the first line break or the end |
| CellParser.SubjectOf | pdf_parser.py:268-272 | the subject has no surrounding whitespace |
| CellParser.SubjectOccurs | pdf_parser.py:268-272 | the subject occurs in the text it is read from |
| CellParser.SubjectIsStrippedPiece | pdf_parser.py:268-272 | the subject is its own `strip()` and `subject in text` holds |
| CellParser.ParseLessonCell | pdf_parser.py:232-286 | every lesson returned has a subject of at least two characters that is not all digits |
| CellParser.ParseLessonCellAccepts | pdf_parser.py:243-276 | a lesson comes back iff the cell is not blank, a range is in it or a default start is given, and the subject passes the filter |
| CellParser.ParseLessonCellTimes | pdf_parser.py:250-265 | the times are the first range's, both `HH:MM`, or else the default start and 90 minutes after it |
| CellParser.ParseLessonCellSubject | pdf_parser.py:257-272 | the subject is stripped and occurs in the cell text with its ranges removed, or in the cell text itself |
| CellParser.LessonsOf | pdf_parser.py:182-191 | one lesson per collected time pair, in order, each with the subject and that pair's times |
| CellParser.AppendLessons | pdf_parser.py:182-191 | the inner append loop adds exactly those lessons at the end |
| CellParser.NoSubjectLineNoState | pdf_parser.py:165-202 | lines none of which starts with a subject code leave the loop's state as it started |
| CellParser.NoSubjectLineNoLessons | pdf_parser.py:145-229 | a cell without a subject-code line yields no lesson, default start or not |
| CellParser.LeadingTimeLinesIgnored | pdf_parser.py:165-174 | time lines ahead of the first subject line are dropped, whatever follows them |
| CellParser.TimeLineStep | pdf_parser.py:167-174 | a line that is exactly a time range adds its times to a current subject |
| CellParser.TimeLinesCollect | pdf_parser.py:165-174 | consecutive time lines add their times, in order, to the current subject |
| CellParser.SubjectLineStarts | pdf_parser.py:177-195 | a subject line without a range starts that subject with no times |
| CellParser.SubjectCollectsTimes | pdf_parser.py:165-202 | a subject line followed by time lines leaves that subject with exactly those times, in order |
| CellParser.ScanFromAppend | pdf_parser.py:165-202 | running the loop over two runs of lines is running it over the first, then over the second from where it stopped |
| CellParser.SubjectBlockFrom | pdf_parser.py:177-195 | from any state, a subject line without a range stores the previous subject with its times and makes its code current, collecting the times of the time lines after it |
| CellParser.TwoSubjectBlocks | pdf_parser.py:165-216 | two subjects, each followed by its time lines (the second by at least one), yield the first subject's lessons and then the second's, each in line order |
| CellParser.OneLessonPerTimeLine | pdf_parser.py:165-216 | such a cell yields one lesson per time line, in line order, with the subject and that line's times |
| CellParser.OnlyLastSubjectGetsDefault | pdf_parser.py:177-227 | of two subject lines without times only the second is stored, with the default start and 90 minutes |
| CellParser.CodeNameIsStripped | pdf_parser.py:194 | `strip()` leaves a subject code unchanged |
| CellParser.FlushKeepsWellFormed | pdf_parser.py:181-191 | storing a subject adds lessons with a code subject and `HH:MM` times |
| CellParser.StepLineKeepsWellFormed | pdf_parser.py:165-202 | one turn of the loop keeps subjects codes and collected times `HH:MM` |
| CellParser.ScanFromWellFormed | pdf_parser.py:165-202 | the whole loop keeps that invariant |
| CellParser.FinishWellFormed | pdf_parser.py:204-227 | the final step adds lessons with `HH:MM` times, except that a last default lesson carries the default start and 90 minutes |
| CellParser.MultiCellLessonsWellFormed | pdf_parser.py:133-229 | every lesson returned has a subject code and `HH:MM` times from the cell, except a last one with the default start and 90 minutes |
| CellParser.ScanLine | pdf_parser.py:166-202 | one turn of the loop updates the three variables as `StepLine` says |
| CellParser.ScanLines | pdf_parser.py:162-202 | the loop leaves the state the fold `Scan` computes |
| CellParser.ParseLessonCellMulti | pdf_parser.py:133-229 | the function returns exactly `MultiCellLessons` |
| GridWalk.DayFromSpec | pdf_parser.py:54-60 | trying the abbreviations from position `k` finds `d` iff `d`'s occurs and no earlier one does |
| GridWalk.DayOfSpec | pdf_parser.py:54-60 | a header cell names the first weekday, in mapping order, whose abbreviation occurs in it |
| GridWalk.ClassifyHeader | pdf_parser.py:45-60 | the header loop builds exactly `DayColumns` |
| GridWalk.DayColumnsSpec | pdf_parser.py:45-60 | column `c` maps to `d` iff header cell `c` is non-empty and names `d`; columns appear once each, left to right, within the header |
| GridWalk.DayColumnMember | pdf_parser.py:54-58 | every mapped column is a non-empty header cell naming its day |
| GridWalk.NextRowTimes | pdf_parser.py:91-99 | the second tier yields `HH:MM` texts or nothing |
| GridWalk.ColumnOneTimes | pdf_parser.py:101-108 | the third tier yields `HH:MM` texts or nothing |
| GridWalk.TierTimes | pdf_parser.py:85-108 | the three tiers together yield `HH:MM` texts or nothing |
| GridWalk.CellLesson | pdf_parser.py:69-120 | every lesson a cell yields has `HH:MM` times |
| GridWalk.FindTimes | pdf_parser.py:82-108 | start and end are found together, and exactly when the tiers find times, and then they are the tiers' times |
| GridWalk.ReadCell | pdf_parser.py:69-120 | the cell visit builds exactly the lesson `CellLesson` describes |
| GridWalk.ClockDayConvertible | pdf_parser.py:122-123 | with `HH:MM` times everywhere, `is_duplicate_lesson` never fails converting, admitting keeps all times `HH:MM`, and adds only the new lesson |
| GridWalk.AdmitTo | pdf_parser.py:122-123 | admitting to one day keeps all five days and all times `HH:MM` |
| GridWalk.WalkCell | pdf_parser.py:69-123 | one cell visit keeps all five days and all times `HH:MM` |
| GridWalk.WalkColumns | pdf_parser.py:68-123 | the column loop keeps that |
| GridWalk.WalkRows | pdf_parser.py:64-123 | the row loop yields all five days with `HH:MM` times throughout |
| GridWalk.NewTimetable | pdf_parser.py:21-27 | five fresh, separate, empty day lists |
| GridWalk.ParseTimetablePdf | pdf_parser.py:29-126 | the method returns exactly `ParseTimetable` of the extracted tables |
| GridWalk.WalkRow | pdf_parser.py:64-124 | one row of the nested loops changes the day lists as `WalkColumns` says |
| GridWalk.VisitCell | pdf_parser.py:69-124 | one cell visit changes the day lists as `WalkCell` says |
| GridWalk.AddLesson | pdf_parser.py:122-123 | the check-then-append changes the day's list as `Admit` says and no other day |
| GridWalk.AdmitUpdatesOneDay | pdf_parser.py:122-123 | changing one day's list changes the timetable at that day only |
| GridWalk.NextRowTimesSpec | pdf_parser.py:91-99 | the second tier reads the non-empty cell right below, which stripped is exactly a range; the times are its first and last five characters |
| GridWalk.ColumnOneTimesSpec | pdf_parser.py:101-108 | the third tier reads column 1 of the row. That cell contains a colon and the start is its first `HH:MM`. The end is 90 minutes later, modulo a day, or `12:00` when `strptime` refuses the start |
| GridWalk.CellLessonTiers | pdf_parser.py:72-111 | a lesson needs a non-empty cell whose stripped text gives the subject. Its times come from the cell's first range. Only without one do they come from the row below, and only without that from column 1 |
| GridWalk.CellLessonExists | pdf_parser.py:69-111 | a cell yields a lesson iff it is non-blank, the subject pattern matches, and some tier finds times |
| GridWalk.OneRowLookahead | pdf_parser.py:91-99 | a cell's lesson depends on its own row and the next only: rows further down never matter |
| GridWalk.NoColumnsNoLessons | pdf_parser.py:64-69 | without weekday columns the walk adds nothing |
| GridWalk.NoWeekdayHeader | pdf_parser.py:45-69 | a header naming no weekday gives the empty timetable, not a failure |
| GridWalk.ParseTimetableFails | pdf_parser.py:34-41 | the result is None iff there is no table or the first table has no row; otherwise all five days are present |
| GridWalk.WalkCellProvenance | pdf_parser.py:69-123 | after a cell visit every lesson was there before or is that cell's lesson in that column's day |
| GridWalk.WalkColumnsProvenance | pdf_parser.py:68-123 | after a row, every lesson was there before or comes from one of its weekday columns |
| GridWalk.WalkRowsProvenance | pdf_parser.py:64-123 | every lesson of the walk comes from some row's weekday column |
| GridWalk.WalkProvenance | pdf_parser.py:64-123 | every lesson under day `d` is the lesson of a data cell whose header cell names `d` |
| GridWalk.ParseTimetableProvenance | pdf_parser.py:29-126 | every lesson of the parsed timetable is read from a data cell in a column whose header names its day |

## Left out

- The PDF itself: opening it with pdfplumber, taking the first page and extracting its tables. The model starts from the list of extracted tables, each a list of rows of optional cell texts. A PDF without pages is not modelled.
- `print` output, `display_parsed_timetable` and the `__main__` block; `export.py`, `main.py` and `gui.py` are not part of this model.
- The `"ressourcen"` field of each lesson: it is always two empty lists and no operation reads it.
- The unused `all_times = re.findall(...)` in `parse_lesson_cell_multi`: it has no effect on the result.
- The `except Exception` handler of `parse_timetable_pdf`: in the model the only exception the walk reaches is `table[0]` on an empty table, modelled as the None result. Cells are strings or None, so `str(cell)` is the identity.
- An unreadable time in `is_duplicate_lesson` raises ValueError, which `Resolver.IsDuplicateLesson` reports as a None result. The `except` handler would then turn the whole parse into None. The grid walk only ever supplies `HH:MM` times, so the walk never reaches that path (`GridWalk.ClockDayConvertible`). `Resolver.Admit` and the walk are therefore stated for lists where no conversion fails.
- Clock.TimeToMinutes: reads ASCII digits only. It does not model the leniency of `int()` towards surrounding whitespace, a sign, underscores or non-ASCII digits. Likewise `\d` and `isdigit()` are ASCII only throughout.
- Clock.CalculateEndTime: models `fromtimestamp(start.timestamp() + 60 * duration)` as the start's minutes plus `duration`, modulo 1440. It ignores local-time effects of the 1900-01-01 epoch date (daylight-saving or historical offset changes).
- The `day_columns` dictionary is a sequence of (column, day) pairs in increasing column order, which is the dictionary's insertion order.
- Splits of source functions into helpers:
  - `ScanLine` is the loop body of `parse_lesson_cell_multi`.
  - `FindTimes`, `WalkRow`, `VisitCell` and `AddLesson` are parts of the nested loop of `parse_timetable_pdf`.
  - Each is a method with its own contract. The Python has one function each.
