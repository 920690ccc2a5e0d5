/**
  The regular expressions of the parser, written out as functions over characters.
  Each function matches at the START of its argument (Python's `re.match`); `FindFirst`
  adds the leftmost-position scan of `re.search`. None of the patterns can match the
  empty string, and their `\s*` runs are followed by a character that `\s` does not
  match, so greedy consumption never needs to backtrack; the comments say where.
*/
module Patterns {
  import opened Options
  import opened Text
  import opened Clock

  /** `[-–]`: a hyphen-minus or an en dash. */
  predicate IsDash(c: char) {
    c == '-' || c == '\U{2013}'
  }

  /** A match of `(\d{2}):(\d{2})\s*[-–]\s*(\d{2}):(\d{2})`: the two captured times and its length. */
  datatype RangeMatch = RangeMatch(start: string, ende: string, len: nat)

  /**
    The time-range pattern matched at the start of `t`. Both `\s*` runs stop at a
    non-space, and neither a dash nor a digit is a space, so taking them greedily is exact.
  */
  function RangeAt(t: string): (r: Option<RangeMatch>)
    ensures r.Some? ==> 11 <= r.value.len <= |t|
    ensures r.Some? ==> r.value.start == t[..5] && r.value.ende == t[r.value.len - 5..r.value.len]
    ensures r.Some? ==> IsClockText(r.value.start) && IsClockText(r.value.ende)
  {
    if |t| >= 5 && IsClockText(t[..5]) then
      var i := SkipSpaces(t, 5);
      if i < |t| && IsDash(t[i]) then
        var j := SkipSpaces(t, i + 1);
        if j + 5 <= |t| && IsClockText(t[j..j + 5]) then Some(RangeMatch(t[..5], t[j..j + 5], j + 5))
        else None
      else None
    else None
  }

  /**
    `re.search`: the leftmost position `i` (0 <= i <= |t|) where `at` matches `t[i..]`,
    with that match (see `FindFirstIsLeftmost`).
  */
  function FindFirst<M>(t: string, at: string -> Option<M>): (r: Option<(nat, M)>)
    ensures r.Some? ==> r.value.0 <= |t| && at(t[r.value.0..]) == Some(r.value.1)
    decreases |t|
  {
    match at(t)
    case Some(m) => assert t[0..] == t; Some((0, m))
    case None =>
      if t == [] then None
      else
        match FindFirst(t[1..], at)
        case None => None
        case Some((i, m)) => assert t[1..][i..] == t[i + 1..]; Some((i + 1, m))
  }

  /** `FindFirst` reports a match at the leftmost position where there is one, and only then None. */
  lemma {:induction false} FindFirstIsLeftmost<M>(t: string, at: string -> Option<M>)
    ensures var r := FindFirst(t, at);
            && (r.Some? ==> forall j :: 0 <= j < r.value.0 ==> at(t[j..]).None?)
            && (r.None? ==> forall j :: 0 <= j <= |t| ==> at(t[j..]).None?)
    decreases |t|
  {
    if at(t).None? && t != [] {
      FindFirstIsLeftmost(t[1..], at);
      assert forall j :: 1 <= j <= |t| ==> t[1..][j - 1..] == t[j..];
      assert t[0..] == t;
    }
  }

  /** `re.search(time_pattern, t)`. */
  function SearchRange(t: string): Option<(nat, RangeMatch)> {
    FindFirst(t, RangeAt)
  }

  /**
    `re.match(r'^(\d{2}):(\d{2})\s*[-–]\s*(\d{2}):(\d{2})$', t)` on a stripped `t`: the range
    pattern matches and consumes all of `t` (`$` could also match before a final newline,
    which a stripped text never has).
  */
  predicate IsExactRange(t: string) {
    RangeAt(t).Some? && RangeAt(t).value.len == |t|
  }

  /** A whole-string range is read off its first and its last five characters. */
  lemma ExactRangeEnds(t: string)
    requires IsExactRange(t)
    ensures 11 <= |t| && RangeAt(t).value.start == t[..5] && RangeAt(t).value.ende == t[|t| - 5..]
  {
    assert t[|t| - 5..|t|] == t[|t| - 5..];
  }

  /** `(\d{2}):(\d{2})` matched at the start of `t`; the captured `HH:MM`. */
  function ClockAt(t: string): (r: Option<string>)
    ensures r.Some? ==> |t| >= 5 && IsClockText(r.value) && r.value == t[..5]
  {
    if |t| >= 5 && IsClockText(t[..5]) then Some(t[..5]) else None
  }

  /** `re.search(r'(\d{2}):(\d{2})', t)`. */
  function SearchClock(t: string): Option<(nat, string)> {
    FindFirst(t, ClockAt)
  }

  /**
    `re.sub(time_pattern, '', t)`: the leftmost time range is found, the text before it is
    kept, the range is deleted and the replacement carries on behind it, so the deleted
    ranges never overlap and the text between them is kept.
  */
  function RemoveRanges(t: string): (r: string)
    ensures |r| <= |t|
    ensures SearchRange(t).Some? ==> |r| <= |t| - 11
    decreases |t|
  {
    match SearchRange(t)
    case None => t
    case Some((i, m)) => t[..i] + RemoveRanges(t[i + m.len..])
  }

  /** Where a range starts, `re.search` finds it there and `re.sub` deletes it. */
  lemma RemoveRangesHere(t: string)
    requires RangeAt(t).Some?
    ensures SearchRange(t) == Some((0, RangeAt(t).value))
    ensures RemoveRanges(t) == RemoveRanges(t[RangeAt(t).value.len..])
  {
    assert t[..0] == [];
  }

  /**
    Where no range starts, `re.sub` keeps the character: together with `RemoveRangesHere`
    and `RemoveRanges("") == ""`, `re.sub` is the left-to-right scan that deletes a range
    wherever one starts and keeps every other character.
  */
  lemma RemoveRangesSkip(t: string)
    requires t != [] && RangeAt(t).None?
    ensures RemoveRanges(t) == [t[0]] + RemoveRanges(t[1..])
  {
    var u := t[1..];
    match SearchRange(u)
    case None =>
      assert SearchRange(t).None?;
      assert t == [t[0]] + u;
    case Some((i, m)) =>
      var rest := RemoveRanges(t[i + 1 + m.len..]);
      assert RemoveRanges(t) == t[..i + 1] + rest by {
        assert SearchRange(t) == Some((i + 1, m));
      }
      assert RemoveRanges(u) == u[..i] + rest by {
        assert u[i + m.len..] == t[i + 1 + m.len..];
      }
      HeadSplice(t, i + 1, RemoveRanges(t), RemoveRanges(u), rest);
  }

  /** Keeping the first `i` elements of `t` is keeping its head and the first `i - 1` of its tail. */
  lemma HeadSplice<T>(t: seq<T>, i: nat, r: seq<T>, ru: seq<T>, rest: seq<T>)
    requires 1 <= i <= |t|
    requires r == t[..i] + rest && ru == t[1..][..i - 1] + rest
    ensures r == [t[0]] + ru
  {
    assert t[..i] == [t[0]] + t[1..][..i - 1];
  }

  /** `[A-ZÄÖÜa-zäöü&\d\s]`: the characters of a subject name in the grid walk. */
  predicate IsNameChar(c: char) {
    IsLetter(c) || c == '&' || IsDigit(c) || IsSpace(c)
  }

  /** `[\(\!]`. */
  predicate IsOpener(c: char) {
    c == '(' || c == '!'
  }

  /**
    `\s*[\(\!]*\s*[-–]` matched at the start of `t`, as the automaton of the pattern: in the
    first space run, in the opener run, in the second space run. The three character
    classes and the dashes are disjoint, so each character has at most one way forward.
  */
  predicate DashFollows(t: string) {
    t != [] && ((IsSpace(t[0]) && DashFollows(t[1..])) || (IsOpener(t[0]) && DashAfterOpeners(t[1..])) || IsDash(t[0]))
  }

  predicate DashAfterOpeners(t: string) {
    t != [] && ((IsOpener(t[0]) && DashAfterOpeners(t[1..])) || (IsSpace(t[0]) && DashAfterSpaces(t[1..])) || IsDash(t[0]))
  }

  predicate DashAfterSpaces(t: string) {
    t != [] && ((IsSpace(t[0]) && DashAfterSpaces(t[1..])) || IsDash(t[0]))
  }

  /** `t[..k]` consists of name characters only. */
  predicate NamePrefix(t: string, k: nat) {
    k <= |t| && forall i :: 0 <= i < k ==> IsNameChar(t[i])
  }

  /** The group `[...]+?` may end at `k`: `t[..k]` is a non-empty run of name characters and the dash part follows. */
  predicate NameEndsAt(t: string, k: nat) {
    1 <= k && NamePrefix(t, k) && DashFollows(t[k..])
  }

  /** The lazy quantifier `+?`: try the ends `k`, `k + 1`, ... and stop at the first that works. */
  function LazyNameEnd(t: string, k: nat): (e: Option<nat>)
    requires 1 <= k
    ensures e.Some? ==> k <= e.value <= |t|
    decreases |t| + 1 - k
  {
    if k > |t| then None
    else if !IsNameChar(t[k - 1]) then None
    else if DashFollows(t[k..]) then Some(k)
    else LazyNameEnd(t, k + 1)
  }

  /** Trying the ends in increasing order finds the least end at which the pattern matches. */
  lemma {:induction false} LazyNameEndIsLeast(t: string, k: nat)
    requires 1 <= k && (k - 1 <= |t| ==> NamePrefix(t, k - 1))
    ensures LazyNameEnd(t, k).Some? ==> k <= LazyNameEnd(t, k).value && NameEndsAt(t, LazyNameEnd(t, k).value)
    ensures LazyNameEnd(t, k).Some? ==> forall k' :: k <= k' < LazyNameEnd(t, k).value ==> !NameEndsAt(t, k')
    ensures LazyNameEnd(t, k).None? ==> forall k' :: k <= k' ==> !NameEndsAt(t, k')
    decreases |t| + 1 - k
  {
    if k > |t| {
      assert forall k' :: k <= k' ==> !NamePrefix(t, k');
    } else if !IsNameChar(t[k - 1]) {
      NamePrefixStops(t, k);
    } else if DashFollows(t[k..]) {
    } else {
      assert NamePrefix(t, k) && !NameEndsAt(t, k);
      LazyNameEndIsLeast(t, k + 1);
    }
  }

  /** No name run extends over a character outside the class. */
  lemma NamePrefixStops(t: string, k: nat)
    requires 1 <= k <= |t| && !IsNameChar(t[k - 1])
    ensures forall k' :: k <= k' ==> !NamePrefix(t, k')
  {
  }

  /**
    The grid walk's subject: `re.match(r'^([A-ZÄÖÜa-zäöü&\d\s]+?)\s*[\(\!]*\s*[-–]', t)`,
    then `group(1).strip()`.
  */
  function DashSubject(t: string): Option<string>
  {
    match LazyNameEnd(t, 1)
    case Some(k) => Some(Strip(t[..k]))
    case None => None
  }

  /**
    The pattern matches exactly when some end of the name part works, and the subject is
    the stripped name part up to the LEAST such end (the lazy `+?`).
  */
  lemma DashSubjectIsLeastMatch(t: string)
    ensures DashSubject(t).Some? <==> exists k: nat :: NameEndsAt(t, k)
    ensures DashSubject(t).Some? ==>
              exists k: nat :: NameEndsAt(t, k) && DashSubject(t).value == Strip(t[..k])
                               && forall k' :: 1 <= k' < k ==> !NameEndsAt(t, k')
  {
    LazyNameEndIsLeast(t, 1);
  }

  /** `[A-ZÄÖÜa-zäöü&\d]`: the characters of a subject code in a multi-subject cell. */
  predicate IsCodeChar(c: char) {
    IsLetter(c) || c == '&' || IsDigit(c)
  }

  /**
    `re.match(r'^([A-ZÄÖÜa-zäöü&\d]+)\s*[-–]', line)`, then `group(1).strip()`. The greedy
    group need not backtrack: a shorter group would leave a code character, which is neither
    a space nor a dash.
  */
  function CodeSubject(line: string): (r: Option<string>)
    ensures r.Some? ==> r.value != [] && forall i :: 0 <= i < |r.value| ==> IsCodeChar(r.value[i])
    ensures r.Some? ==> |r.value| <= |line| && r.value == line[..|r.value|]
  {
    var n := RunLength(line, IsCodeChar);
    var k := SkipSpaces(line, n);
    if n >= 1 && k < |line| && IsDash(line[k]) then Some(line[..n]) else None
  }

  /** `^([A-ZÄÖÜa-zäöü&\d]+)\s*[-–]` matches `line` with its group ending at `k`. */
  predicate CodeMatchAt(line: string, k: nat) {
    1 <= k <= |line| && (forall i :: 0 <= i < k ==> IsCodeChar(line[i])) && DashAfterSpaces(line[k..])
  }

  /** `\s*[-–]` matches at `i` exactly when the first non-space at or after `i` is a dash. */
  lemma {:induction false} DashAfterSpacesSkip(t: string, i: nat)
    requires i <= |t|
    ensures DashAfterSpaces(t[i..]) <==> SkipSpaces(t, i) < |t| && IsDash(t[SkipSpaces(t, i)])
    decreases |t| - i
  {
    if i < |t| {
      assert t[i..][0] == t[i] && t[i..][1..] == t[i + 1..];
      if IsSpace(t[i]) {
        DashAfterSpacesSkip(t, i + 1);
      }
    }
  }

  /**
    The code pattern matches with at most one end of its group, the whole leading run of
    code characters, so the greedy group never backtracks: `CodeSubject` is that match.
  */
  lemma CodeSubjectIsOnlyMatch(line: string)
    ensures CodeSubject(line).Some? <==> exists k: nat :: CodeMatchAt(line, k)
    ensures forall k: nat :: CodeMatchAt(line, k) ==> CodeSubject(line) == Some(line[..k])
  {
    var n := RunLength(line, IsCodeChar);
    DashAfterSpacesSkip(line, n);
    forall k: nat | CodeMatchAt(line, k)
      ensures k == n
    {
      if k < n {
        DashAfterSpacesSkip(line, k);
      }
    }
    if CodeSubject(line).Some? {
      assert CodeMatchAt(line, n);
    }
  }

  /** `[A-ZÄÖÜa-zäöü&\s]`: the characters of a subject in a single-lesson cell. */
  predicate IsWordChar(c: char) {
    IsLetter(c) || c == '&' || IsSpace(c)
  }
}
