/**
  The two cell readers: `parse_lesson_cell`, which reads at most one lesson from a cell,
  and `parse_lesson_cell_multi`, which walks a cell line by line and reads one lesson per
  time range listed under a subject code.
*/
module CellParser {
  import opened Options
  import opened Text
  import opened Clock
  import opened Patterns
  import opened Schedule

  /** `not cell_text or cell_text.strip() == ''`: no cell, or only whitespace in it. */
  predicate Blank(cellText: Option<string>) {
    cellText.None? || Strip(cellText.value) == []
  }

  /** A subject name the filter `len(subject) < 2 or subject.isdigit()` lets through. */
  predicate ValidSubject(subject: string) {
    |subject| >= 2 && !IsDigits(subject)
  }

  /** The text the subject is read from: the cell with every time range deleted, or the cell itself. */
  function SubjectText(text: string): string {
    if SearchRange(text).Some? then Strip(RemoveRanges(text)) else text
  }

  /**
    The part of `t` the subject is cut from: the match of `^([A-ZÄÖÜa-zäöü&\s]+)` when there
    is one, otherwise `t.split('\n')[0]`.
  */
  function SubjectPart(t: string): (part: string)
    ensures |part| <= |t| && part == t[..|part|]
    ensures t != [] && IsWordChar(t[0]) ==>
              part != [] && (forall i :: 0 <= i < |part| ==> IsWordChar(part[i]))
              && (|part| < |t| ==> !IsWordChar(t[|part|]))
    ensures !(t != [] && IsWordChar(t[0])) ==> '\n' !in part && (|part| < |t| ==> t[|part|] == '\n')
  {
    var n := RunLength(t, IsWordChar);
    if n > 0 then t[..n] else FirstLine(t)
  }

  /** The subject name `parse_lesson_cell` reads from `t`: its subject part, stripped. */
  function SubjectOf(t: string): (r: string)
    ensures r != [] ==> !IsSpace(r[0]) && !IsSpace(r[|r| - 1])
  {
    Strip(SubjectPart(t))
  }

  /** The subject name is a piece of the text it is read from. */
  lemma SubjectOccurs(t: string)
    ensures exists i :: OccursAt(t, SubjectOf(t), i)
  {
    var part := SubjectPart(t);
    var i := |part| - |StripLeft(part)|;
    StripOccurs(part);
    assert OccursAt(t, part, 0);
    OccursWithin(t, part, Strip(part), 0, i);
    assert SubjectOf(t) == Strip(part);
    assert OccursAt(t, SubjectOf(t), i);
  }

  /**
    The times `parse_lesson_cell` gives a lesson of the stripped cell `text`: those of the
    first time range in it; without one, the default start and 90 minutes after it.
  */
  function CellTimes(text: string, defaultStart: Option<string>): Option<(string, string)> {
    match SearchRange(text)
    case Some((_, m)) => Some((m.start, m.ende))
    case None =>
      if Truthy(defaultStart) then Some((defaultStart.value, CalculateEndTime(defaultStart.value, DefaultDuration)))
      else None
  }

  /**
    `parse_lesson_cell(cell_text, default_start_time)`: a lesson with the cell's times and
    the subject read from the rest of the cell, or None.
  */
  function ParseLessonCell(cellText: Option<string>, defaultStart: Option<string>): (r: Option<Lesson>)
    ensures r.Some? ==> ValidSubject(r.value.fach)
  {
    if Blank(cellText) then None
    else
      var text := Strip(cellText.value);
      match CellTimes(text, defaultStart)
      case None => None
      case Some((start, ende)) =>
        var subject := SubjectOf(SubjectText(text));
        if ValidSubject(subject) then Some(Lesson(subject, start, ende)) else None
  }

  /**
    A cell yields a lesson exactly when it is not blank, it has a time range or a default
    start is given, and the subject read from it is at least two characters long and not
    all digits.
  */
  lemma ParseLessonCellAccepts(cellText: Option<string>, defaultStart: Option<string>)
    ensures ParseLessonCell(cellText, defaultStart).Some? <==>
              && !Blank(cellText)
              && (SearchRange(Strip(cellText.value)).Some? || Truthy(defaultStart))
              && ValidSubject(SubjectOf(SubjectText(Strip(cellText.value))))
  {
  }

  /**
    The lesson's times are the two times of the first range in the cell, both `HH:MM`
    shaped; a cell without a range takes the default start and ends 90 minutes later.
  */
  lemma ParseLessonCellTimes(cellText: Option<string>, defaultStart: Option<string>, l: Lesson)
    requires ParseLessonCell(cellText, defaultStart) == Some(l)
    ensures cellText.Some?
    ensures match SearchRange(Strip(cellText.value))
            case Some((_, m)) => l.start == m.start && l.ende == m.ende && IsClockText(l.start) && IsClockText(l.ende)
            case None =>
              Truthy(defaultStart) && l.start == defaultStart.value
              && l.ende == CalculateEndTime(defaultStart.value, DefaultDuration)
  {
  }

  /**
    The subject has no surrounding whitespace and is a piece of the text it was read from:
    the cell with its time ranges deleted, or the whole cell.
  */
  lemma ParseLessonCellSubject(cellText: Option<string>, defaultStart: Option<string>, l: Lesson)
    requires ParseLessonCell(cellText, defaultStart) == Some(l)
    ensures cellText.Some?
    ensures Strip(l.fach) == l.fach
    ensures Contains(SubjectText(Strip(cellText.value)), l.fach)
  {
    ParseLessonCellFach(cellText, defaultStart, l);
    SubjectIsStrippedPiece(SubjectText(Strip(cellText.value)));
  }

  lemma ParseLessonCellFach(cellText: Option<string>, defaultStart: Option<string>, l: Lesson)
    requires ParseLessonCell(cellText, defaultStart) == Some(l)
    ensures cellText.Some? && l.fach == SubjectOf(SubjectText(Strip(cellText.value)))
  {
  }

  lemma SubjectIsStrippedPiece(t: string)
    ensures Strip(SubjectOf(t)) == SubjectOf(t) && Contains(t, SubjectOf(t))
  {
    StripOfStripped(SubjectOf(t));
    SubjectOccurs(t);
    ContainsAt(t, SubjectOf(t));
  }

  // ---------------------------------------------------------------------------------------
  // parse_lesson_cell_multi

  /** A `(start_time, end_time)` pair collected for the current subject. */
  datatype Span = Span(start: string, ende: string)

  /** The loop's variables: `lessons`, `current_subject`, `current_times`. */
  datatype ScanState = ScanState(lessons: seq<Lesson>, current: Option<string>, times: seq<Span>)

  const Initial := ScanState([], None, [])

  /** `[line.strip() for line in parts if line.strip()]`. */
  function NonBlankLines(parts: seq<string>): seq<string>
  {
    if parts == [] then []
    else
      var l := Strip(parts[0]);
      (if l != [] then [l] else []) + NonBlankLines(parts[1..])
  }

  /** The non-blank, stripped lines of a cell. */
  function CellLines(text: string): seq<string> {
    NonBlankLines(Split(text, '\n'))
  }

  /** The first time range of `line`, as the two captured times. */
  function RangeSpan(line: string): Option<Span> {
    match SearchRange(line)
    case Some((_, m)) => Some(Span(m.start, m.ende))
    case None => None
  }

  /** One lesson per collected time pair, in order, all with `subject`. */
  function LessonsOf(subject: string, times: seq<Span>): (r: seq<Lesson>)
    ensures |r| == |times|
    ensures forall k :: 0 <= k < |r| ==> r[k] == Lesson(subject, times[k].start, times[k].ende)
  {
    if times == [] then []
    else
      var last := times[|times| - 1];
      LessonsOf(subject, times[..|times| - 1]) + [Lesson(subject, last.start, last.ende)]
  }

  /** The subject collected so far is stored when it is set and has times. */
  function Flush(st: ScanState): seq<Lesson> {
    if Truthy(st.current) && st.times != [] then st.lessons + LessonsOf(st.current.value, st.times)
    else st.lessons
  }

  /**
    The body of the `for line in lines` loop: a line that is exactly a time range adds its
    times to the current subject (if any); a line that starts with a subject code stores the
    previous subject and starts a new one, with the line's own range if it has one; any other
    line is skipped.
  */
  function StepLine(st: ScanState, line: string): ScanState {
    if IsExactRange(line) then
      match RangeSpan(line)
      case Some(span) => if Truthy(st.current) then st.(times := st.times + [span]) else st
      case None => st
    else
      match CodeSubject(line)
      case Some(code) =>
        ScanState(Flush(st), Some(Strip(code)), match RangeSpan(line) case Some(span) => [span] case None => [])
      case None => st
  }

  /** The state after the loop has run over `lines`, starting from the state `st`. */
  function ScanFrom(st: ScanState, lines: seq<string>): ScanState
    decreases |lines|
  {
    if lines == [] then st else ScanFrom(StepLine(st, lines[0]), lines[1..])
  }

  /** The state after the loop has run over `lines`. */
  function Scan(lines: seq<string>): ScanState {
    ScanFrom(Initial, lines)
  }

  /** Running the loop from line `i` on is one `StepLine`, then running it from line `i + 1` on. */
  lemma ScanFromNext(st: ScanState, lines: seq<string>, i: nat)
    requires i < |lines|
    ensures ScanFrom(st, lines[i..]) == ScanFrom(StepLine(st, lines[i]), lines[i + 1..])
  {
    assert lines[i..][1..] == lines[i + 1..];
  }

  /**
    After the loop: the last subject is stored with its times, or, when it has none and a
    default start is given, once with the default start and 90 minutes after it.
  */
  function Finish(st: ScanState, defaultStart: Option<string>): seq<Lesson> {
    if Truthy(st.current) then
      if st.times != [] then st.lessons + LessonsOf(st.current.value, st.times)
      else if Truthy(defaultStart) then
        st.lessons + [Lesson(st.current.value, defaultStart.value, CalculateEndTime(defaultStart.value, DefaultDuration))]
      else st.lessons
    else st.lessons
  }

  /** What `parse_lesson_cell_multi(cell_text, default_start_time)` returns. */
  function MultiCellLessons(cellText: Option<string>, defaultStart: Option<string>): seq<Lesson> {
    if Blank(cellText) then [] else Finish(Scan(CellLines(Strip(cellText.value))), defaultStart)
  }

  /** `for start_time, end_time in current_times: lessons.append(...)`. */
  method AppendLessons(lessons: seq<Lesson>, subject: string, times: seq<Span>) returns (r: seq<Lesson>)
    ensures r == lessons + LessonsOf(subject, times)
  {
    r := lessons;
    var j := 0;
    while j < |times|
      invariant j <= |times|
      invariant r == lessons + LessonsOf(subject, times[..j])
    {
      assert times[..j + 1][..j] == times[..j];
      r := r + [Lesson(subject, times[j].start, times[j].ende)];
      j := j + 1;
    }
    assert times[..j] == times;
  }

  /** Lines before the first subject line change nothing: without a subject, time lines are dropped. */
  lemma {:induction false} NoSubjectLineNoState(lines: seq<string>)
    requires forall k :: 0 <= k < |lines| ==> CodeSubject(lines[k]).None? || IsExactRange(lines[k])
    ensures Scan(lines) == Initial
  {
    if lines != [] {
      assert StepLine(Initial, lines[0]) == Initial;
      var rest := lines[1..];
      assert forall k :: 0 <= k < |rest| ==> rest[k] == lines[k + 1];
      NoSubjectLineNoState(rest);
    }
  }

  /** A cell none of whose lines starts with a subject code yields no lesson, default or not. */
  lemma NoSubjectLineNoLessons(cellText: Option<string>, defaultStart: Option<string>)
    requires !Blank(cellText)
    requires var lines := CellLines(Strip(cellText.value));
             forall k :: 0 <= k < |lines| ==> CodeSubject(lines[k]).None? || IsExactRange(lines[k])
    ensures MultiCellLessons(cellText, defaultStart) == []
  {
    NoSubjectLineNoState(CellLines(Strip(cellText.value)));
  }

  /** Lines ahead of the first subject line are dropped, whatever follows them. */
  lemma {:induction false} LeadingTimeLinesIgnored(pre: seq<string>, rest: seq<string>)
    requires forall k :: 0 <= k < |pre| ==> CodeSubject(pre[k]).None? || IsExactRange(pre[k])
    ensures Scan(pre + rest) == Scan(rest)
  {
    if pre == [] {
      assert pre + rest == rest;
    } else {
      var tail := pre[1..];
      assert (pre + rest)[0] == pre[0] && (pre + rest)[1..] == tail + rest;
      assert StepLine(Initial, pre[0]) == Initial;
      assert forall k :: 0 <= k < |tail| ==> tail[k] == pre[k + 1];
      LeadingTimeLinesIgnored(tail, rest);
    }
  }

  /** A line that is exactly a time range adds its times to a current subject. */
  lemma TimeLineStep(st: ScanState, line: string, span: Span)
    requires Truthy(st.current)
    requires IsExactRange(line) && RangeSpan(line) == Some(span)
    ensures StepLine(st, line) == st.(times := st.times + [span])
  {
  }

  /**
    Lines that are each exactly a time range add their times, in order, to the subject
    current before them.
  */
  lemma {:induction false} TimeLinesCollect(st: ScanState, ts: seq<string>, spans: seq<Span>)
    requires Truthy(st.current) && TimeLines(ts, spans)
    ensures ScanFrom(st, ts) == st.(times := st.times + spans)
    decreases |ts|
  {
    if ts != [] {
      TimeLinesTail(ts, spans);
      TimeLineStep(st, ts[0], spans[0]);
      TimeLinesCollect(st.(times := st.times + [spans[0]]), ts[1..], spans[1..]);
      AppendFirstThenRest(st.times, spans);
    }
  }

  /** Each of the lines `ts` is exactly a time range, with the times `spans[k]`. */
  predicate TimeLines(ts: seq<string>, spans: seq<Span>) {
    |spans| == |ts| && forall k :: 0 <= k < |ts| ==> IsExactRange(ts[k]) && RangeSpan(ts[k]) == Some(spans[k])
  }

  lemma TimeLinesTail(ts: seq<string>, spans: seq<Span>)
    requires TimeLines(ts, spans) && ts != []
    ensures IsExactRange(ts[0]) && RangeSpan(ts[0]) == Some(spans[0])
    ensures TimeLines(ts[1..], spans[1..])
  {
    assert forall k :: 0 <= k < |ts| - 1 ==> ts[1..][k] == ts[k + 1] && spans[1..][k] == spans[k + 1];
  }

  lemma AppendFirstThenRest<T>(a: seq<T>, s: seq<T>)
    requires s != []
    ensures a + [s[0]] + s[1..] == a + s
  {
    assert [s[0]] + s[1..] == s;
  }

  /** A subject line without a range starts that subject with no times. */
  lemma SubjectLineStarts(a: string)
    requires CodeSubject(a).Some? && !IsExactRange(a) && RangeSpan(a).None?
    ensures StepLine(Initial, a) == ScanState([], CodeSubject(a), [])
  {
    CodeNameIsStripped(CodeSubject(a).value);
  }

  /**
    A subject line without a range of its own, followed by lines that are each exactly a
    time range, leaves that subject current with the ranges' times collected in order.
  */
  lemma SubjectCollectsTimes(a: string, ts: seq<string>, spans: seq<Span>)
    requires CodeSubject(a).Some? && !IsExactRange(a) && RangeSpan(a).None?
    requires |spans| == |ts|
    requires forall k :: 0 <= k < |ts| ==> IsExactRange(ts[k]) && RangeSpan(ts[k]) == Some(spans[k])
    ensures Scan([a] + ts) == ScanState([], CodeSubject(a), spans)
  {
    var lines := [a] + ts;
    assert lines[0] == a && lines[1..] == ts;
    SubjectLineStarts(a);
    assert TimeLines(ts, spans);
    TimeLinesCollect(ScanState([], CodeSubject(a), []), ts, spans);
  }

  /** Running the loop over `x + y` is running it over `x`, then over `y` from where it stopped. */
  lemma {:induction false} ScanFromAppend(st: ScanState, x: seq<string>, y: seq<string>)
    ensures ScanFrom(st, x + y) == ScanFrom(ScanFrom(st, x), y)
    decreases |x|
  {
    if x == [] {
      assert x + y == y;
    } else {
      assert (x + y)[0] == x[0] && (x + y)[1..] == x[1..] + y;
      ScanFromAppend(StepLine(st, x[0]), x[1..], y);
    }
  }

  /**
    Whatever came before, a subject line without a range stores the previous subject with
    its times (`Flush`) and makes its own code current, collecting the times of the time
    lines that follow it.
  */
  lemma SubjectBlockFrom(st: ScanState, a: string, ts: seq<string>, spans: seq<Span>)
    requires CodeSubject(a).Some? && !IsExactRange(a) && RangeSpan(a).None?
    requires TimeLines(ts, spans)
    ensures ScanFrom(st, [a] + ts) == ScanState(Flush(st), CodeSubject(a), spans)
  {
    var lines := [a] + ts;
    assert lines[0] == a && lines[1..] == ts;
    CodeNameIsStripped(CodeSubject(a).value);
    assert StepLine(st, a) == ScanState(Flush(st), CodeSubject(a), []);
    TimeLinesCollect(ScanState(Flush(st), CodeSubject(a), []), ts, spans);
  }

  /**
    Two subjects, each on a line of its own followed by its time lines, the second with at
    least one: the first subject's lessons, then the second's, each in the order of its
    lines; the default start plays no part.
  */
  lemma TwoSubjectBlocks(a: string, ts: seq<string>, sa: seq<Span>, b: string, us: seq<string>, sb: seq<Span>, defaultStart: Option<string>)
    requires CodeSubject(a).Some? && !IsExactRange(a) && RangeSpan(a).None? && TimeLines(ts, sa)
    requires CodeSubject(b).Some? && !IsExactRange(b) && RangeSpan(b).None? && TimeLines(us, sb) && us != []
    ensures Finish(Scan([a] + ts + [b] + us), defaultStart)
            == LessonsOf(CodeSubject(a).value, sa) + LessonsOf(CodeSubject(b).value, sb)
  {
    var first, second := [a] + ts, [b] + us;
    assert [a] + ts + [b] + us == first + second;
    ScanFromAppend(Initial, first, second);
    SubjectBlockFrom(Initial, a, ts, sa);
    var st := ScanState([], CodeSubject(a), sa);
    assert Flush(st) == LessonsOf(CodeSubject(a).value, sa);
    SubjectBlockFrom(st, b, us, sb);
  }

  /**
    Such a subject yields one lesson per time line, in the order of the lines, each with the
    subject and that line's times.
  */
  lemma OneLessonPerTimeLine(a: string, ts: seq<string>, spans: seq<Span>, defaultStart: Option<string>)
    requires CodeSubject(a).Some? && !IsExactRange(a) && RangeSpan(a).None?
    requires |spans| == |ts| && ts != []
    requires forall k :: 0 <= k < |ts| ==> IsExactRange(ts[k]) && RangeSpan(ts[k]) == Some(spans[k])
    ensures var r := Finish(Scan([a] + ts), defaultStart);
            |r| == |ts| && forall k :: 0 <= k < |r| ==> r[k] == Lesson(CodeSubject(a).value, spans[k].start, spans[k].ende)
  {
    SubjectCollectsTimes(a, ts, spans);
  }

  /**
    Only the LAST subject falls back to the default start: of two subject lines without
    times, the first is dropped and the second gets the default start and 90 minutes.
  */
  lemma OnlyLastSubjectGetsDefault(a: string, b: string, defaultStart: Option<string>)
    requires CodeSubject(a).Some? && !IsExactRange(a) && SearchRange(a).None?
    requires CodeSubject(b).Some? && !IsExactRange(b) && SearchRange(b).None?
    requires Truthy(defaultStart)
    ensures Finish(Scan([a, b]), defaultStart)
            == [Lesson(CodeSubject(b).value, defaultStart.value, CalculateEndTime(defaultStart.value, DefaultDuration))]
  {
    var first := ScanState([], Some(Strip(CodeSubject(a).value)), []);
    CodeNameIsStripped(CodeSubject(b).value);
    var second := ScanState([], Some(CodeSubject(b).value), []);
    calc {
      Scan([a, b]);
      { assert [a, b][0] == a && [a, b][1..] == [b]; }
      ScanFrom(StepLine(Initial, a), [b]);
      ScanFrom(first, [b]);
      { assert [b][1..] == []; }
      ScanFrom(StepLine(first, b), []);
      second;
    }
  }

  /** A non-empty run of `[A-ZÄÖÜa-zäöü&\d]` characters. */
  predicate IsCode(s: string) {
    s != [] && forall i :: 0 <= i < |s| ==> IsCodeChar(s[i])
  }

  lemma CodeNameIsStripped(s: string)
    requires IsCode(s)
    ensures Strip(s) == s
  {
    StripOfStripped(s);
  }

  /** `HH:MM`-shaped times. */
  predicate ClockSpan(start: string, ende: string) {
    IsClockText(start) && IsClockText(ende)
  }

  /** What the loop keeps true: subjects are codes, all collected times are `HH:MM` shaped. */
  predicate WellFormedState(st: ScanState) {
    && (forall k :: 0 <= k < |st.lessons| ==>
          IsCode(st.lessons[k].fach) && ClockSpan(st.lessons[k].start, st.lessons[k].ende))
    && (forall k :: 0 <= k < |st.times| ==> ClockSpan(st.times[k].start, st.times[k].ende))
    && (st.current.Some? ==> IsCode(st.current.value))
  }

  lemma RangeSpanIsClock(line: string)
    ensures RangeSpan(line).Some? ==> ClockSpan(RangeSpan(line).value.start, RangeSpan(line).value.ende)
  {
  }

  lemma StepLineKeepsWellFormed(st: ScanState, line: string)
    requires WellFormedState(st)
    ensures WellFormedState(StepLine(st, line))
  {
    RangeSpanIsClock(line);
    if IsExactRange(line) {
      if RangeSpan(line).Some? && Truthy(st.current) {
        AddTimeKeepsWellFormed(st, RangeSpan(line).value);
      }
    } else if CodeSubject(line).Some? {
      CodeNameIsStripped(CodeSubject(line).value);
      FlushKeepsWellFormed(st);
      var times := match RangeSpan(line) case Some(span) => [span] case None => [];
      assert StepLine(st, line) == ScanState(Flush(st), CodeSubject(line), times);
    }
  }

  lemma AddTimeKeepsWellFormed(st: ScanState, span: Span)
    requires WellFormedState(st) && ClockSpan(span.start, span.ende)
    ensures WellFormedState(st.(times := st.times + [span]))
  {
    var times := st.times + [span];
    assert forall k :: 0 <= k < |times| ==> times[k] == if k < |st.times| then st.times[k] else span;
  }

  lemma FlushKeepsWellFormed(st: ScanState)
    requires WellFormedState(st)
    ensures forall k :: 0 <= k < |Flush(st)| ==> IsCode(Flush(st)[k].fach) && ClockSpan(Flush(st)[k].start, Flush(st)[k].ende)
  {
    if Truthy(st.current) && st.times != [] {
      var added := LessonsOf(st.current.value, st.times);
      assert forall k :: 0 <= k < |added| ==> IsCode(added[k].fach) && ClockSpan(added[k].start, added[k].ende);
    }
  }

  lemma {:induction false} ScanFromWellFormed(st: ScanState, lines: seq<string>)
    requires WellFormedState(st)
    ensures WellFormedState(ScanFrom(st, lines))
    decreases |lines|
  {
    if lines != [] {
      StepLineKeepsWellFormed(st, lines[0]);
      ScanFromWellFormed(StepLine(st, lines[0]), lines[1..]);
    }
  }

  /**
    Each lesson has a subject code for its subject and `HH:MM` times taken from the cell,
    except that the last one may instead carry the default start and the end 90 minutes
    after it.
  */
  predicate WellFormedLessons(r: seq<Lesson>, defaultStart: Option<string>) {
    forall k :: 0 <= k < |r| ==>
      && IsCode(r[k].fach)
      && (|| ClockSpan(r[k].start, r[k].ende)
          || (k == |r| - 1 && Truthy(defaultStart) && r[k].start == defaultStart.value
              && r[k].ende == CalculateEndTime(defaultStart.value, DefaultDuration)))
  }

  lemma FinishWellFormed(st: ScanState, defaultStart: Option<string>)
    requires WellFormedState(st)
    ensures WellFormedLessons(Finish(st, defaultStart), defaultStart)
  {
    if Truthy(st.current) && st.times != [] {
      assert Finish(st, defaultStart) == Flush(st);
      FlushKeepsWellFormed(st);
    }
  }

  /** Every lesson `parse_lesson_cell_multi` returns is well formed in that sense. */
  lemma MultiCellLessonsWellFormed(cellText: Option<string>, defaultStart: Option<string>)
    ensures WellFormedLessons(MultiCellLessons(cellText, defaultStart), defaultStart)
  {
    if !Blank(cellText) {
      var lines := CellLines(Strip(cellText.value));
      ScanFromWellFormed(Initial, lines);
      FinishWellFormed(Scan(lines), defaultStart);
    }
  }

  /**
    The `for line in lines` loop of `parse_lesson_cell_multi`, with its three variables
    starting empty.
  */
  method ScanLines(lines: seq<string>) returns (lessons: seq<Lesson>, currentSubject: Option<string>, currentTimes: seq<Span>)
    ensures ScanState(lessons, currentSubject, currentTimes) == Scan(lines)
  {
    lessons := [];
    currentSubject := None;
    currentTimes := [];
    var i := 0;
    assert lines[0..] == lines;
    while i < |lines|
      invariant i <= |lines|
      invariant ScanFrom(ScanState(lessons, currentSubject, currentTimes), lines[i..]) == Scan(lines)
    {
      ScanFromNext(ScanState(lessons, currentSubject, currentTimes), lines, i);
      lessons, currentSubject, currentTimes := ScanLine(lessons, currentSubject, currentTimes, lines[i]);
      i := i + 1;
    }
  }

  /** One turn of the `for line in lines` loop. */
  method ScanLine(lessons: seq<Lesson>, currentSubject: Option<string>, currentTimes: seq<Span>, line: string)
    returns (lessons': seq<Lesson>, currentSubject': Option<string>, currentTimes': seq<Span>)
    ensures ScanState(lessons', currentSubject', currentTimes') == StepLine(ScanState(lessons, currentSubject, currentTimes), line)
  {
    lessons', currentSubject', currentTimes' := lessons, currentSubject, currentTimes;
    if IsExactRange(line) {
      // a line holding only a time range: the times of the current subject
      var timeMatch := RangeSpan(line);
      if timeMatch.Some? && Truthy(currentSubject) {
        currentTimes' := currentTimes + [timeMatch.value];
      }
    } else {
      var subjectMatch := CodeSubject(line);
      if subjectMatch.Some? {
        // a new subject: store the previous one if it has times
        if Truthy(currentSubject) && currentTimes != [] {
          lessons' := AppendLessons(lessons, currentSubject.value, currentTimes);
        }
        currentSubject' := Some(Strip(subjectMatch.value));
        currentTimes' := [];
        var timeMatch := RangeSpan(line);
        if timeMatch.Some? {
          currentTimes' := [timeMatch.value];
        }
      }
    }
  }

  /** `parse_lesson_cell_multi`: the blank check, the line loop, then the last subject. */
  method ParseLessonCellMulti(cellText: Option<string>, defaultStart: Option<string>) returns (lessons: seq<Lesson>)
    ensures lessons == MultiCellLessons(cellText, defaultStart)
  {
    if cellText.None? || Strip(cellText.value) == [] {
      return [];
    }
    var text := Strip(cellText.value);
    var lines := CellLines(text);
    var currentSubject: Option<string>, currentTimes: seq<Span>;
    lessons, currentSubject, currentTimes := ScanLines(lines);
    if Truthy(currentSubject) {
      if currentTimes != [] {
        lessons := AppendLessons(lessons, currentSubject.value, currentTimes);
      } else if Truthy(defaultStart) {
        lessons := lessons + [Lesson(currentSubject.value, defaultStart.value, CalculateEndTime(defaultStart.value, DefaultDuration))];
      }
    }
  }
}
