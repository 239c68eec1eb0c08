/**
  `parseAndCheckHours` (archived widget): reads an opening-hours cell such as
  `"10:00~19:00"` and says whether the partner is open at a given minute of the day.
  The clock is a parameter: `now` is `getHours() * 60 + getMinutes()`.
 */
module Hours {
  import opened Wrappers
  import opened Text

  /** The four numbers of `(\d{1,2}):(\d{2})\s*[~\-–]\s*(\d{1,2}):(\d{2})`. */
  datatype TimeRange = TimeRange(openHour: nat, openMinute: nat, closeHour: nat, closeMinute: nat)

  function Opens(t: TimeRange): int {
    t.openHour * 60 + t.openMinute
  }

  function Closes(t: TimeRange): int {
    t.closeHour * 60 + t.closeMinute
  }

  /** The range separators `~`, `-` and the en dash. */
  predicate IsDash(c: char) {
    c == '~' || c == '-' || c == '\U{2013}'
  }

  /** How many digits `\d{1,2}:` takes at `i`: 2 or 1, or 0 when it cannot match there. */
  function HourLen(s: string, i: nat): (n: nat)
    ensures n <= 2
    ensures n > 0 ==> i + n < |s| && s[i + n] == ':' && forall k :: i <= k < i + n ==> IsDigit(s[k])
    ensures n == 0 ==> !(i + 1 < |s| && IsDigit(s[i]) && s[i + 1] == ':')
    ensures n == 0 ==> !(i + 2 < |s| && IsDigit(s[i]) && IsDigit(s[i + 1]) && s[i + 2] == ':')
  {
    if i + 2 < |s| && IsDigit(s[i]) && IsDigit(s[i + 1]) && s[i + 2] == ':' then 2
    else if i + 1 < |s| && IsDigit(s[i]) && s[i + 1] == ':' then 1
    else 0
  }

  predicate TwoDigits(s: string, j: nat) {
    j + 1 < |s| && IsDigit(s[j]) && IsDigit(s[j + 1])
  }

  /** At most two digits read as at most 99. */
  lemma SmallValue(s: string)
    requires |s| <= 2 && forall i :: 0 <= i < |s| ==> IsDigit(s[i])
    ensures DigitsValue(s) <= 99
  {
    if |s| == 2 {
      assert s[..1][..0] == [];
    }
  }

  /** A clock reading `\d{1,2}:\d{2}` taken at `i`: its hour, its minute and the position after it. */
  datatype Clock = Clock(hour: nat, minute: nat, end: nat)

  /** `\d{1,2}:\d{2}` matched starting exactly at `i`, preferring two hour digits. */
  function ClockAt(s: string, i: nat): (r: Option<Clock>)
    ensures r.Some? ==> i < |s| && IsDigit(s[i]) && r.value.end <= |s|
    ensures r.Some? ==> r.value.hour <= 99 && r.value.minute <= 99
  {
    var h := HourLen(s, i);
    if h == 0 then None
    else
      var a := i + h + 1;
      if !TwoDigits(s, a) then None
      else
        SmallValue(s[i..i + h]);
        SmallValue(s[a..a + 2]);
        Some(Clock(DigitsValue(s[i..i + h]), DigitsValue(s[a..a + 2]), a + 2))
  }

  /** `\s*` at `i`: the first position at or after `i` that is not white space. */
  function SkipSpaces(s: string, i: nat): (j: nat)
    requires i <= |s|
    ensures i <= j <= |s|
    ensures forall k :: i <= k < j ==> IsSpace(s[k])
    ensures j < |s| ==> !IsSpace(s[j])
  {
    var n := PrefixWhile(s[i..], IsSpace);
    assert forall k :: i <= k < i + n ==> s[i..][k - i] == s[k];
    i + n
  }

  /** The pattern matched starting exactly at `i`, with the numbers it captures. */
  function MatchAt(s: string, i: nat): (r: Option<TimeRange>)
    ensures r.Some? ==> i < |s| && IsDigit(s[i])
    ensures r.Some? ==> r.value.openHour <= 99 && r.value.openMinute <= 99 && r.value.closeHour <= 99 && r.value.closeMinute <= 99
  {
    var open := ClockAt(s, i);
    if open.None? then None
    else
      var c := SkipSpaces(s, open.value.end);
      if c == |s| || !IsDash(s[c]) then None
      else
        var close := ClockAt(s, SkipSpaces(s, c + 1));
        if close.None? then None
        else Some(TimeRange(open.value.hour, open.value.minute, close.value.hour, close.value.minute))
  }

  /** The pattern needs a digit to start, so it matches nowhere past the end. */
  lemma NoMatchPastEnd(s: string, from: nat)
    requires from >= |s|
    ensures forall i :: from <= i ==> MatchAt(s, i).None?
  {
    forall i | from <= i ensures MatchAt(s, i).None? {
      assert HourLen(s, i) == 0;
    }
  }

  /** `String.prototype.match` without the global flag: the leftmost position, at or after `from`, where the pattern matches. */
  function FirstMatch(s: string, from: nat): (r: Option<(nat, TimeRange)>)
    ensures r.None? <==> forall i :: from <= i ==> MatchAt(s, i).None?
    ensures r.Some? ==> from <= r.value.0 && MatchAt(s, r.value.0) == Some(r.value.1)
    ensures r.Some? ==> forall i :: from <= i < r.value.0 ==> MatchAt(s, i).None?
    decreases |s| - from
  {
    if from >= |s| then
      NoMatchPastEnd(s, from);
      None
    else if MatchAt(s, from).Some? then Some((from, MatchAt(s, from).value))
    else FirstMatch(s, from + 1)
  }

  /** The pattern matches at `i` and at no earlier position: the match `String.prototype.match` reports. */
  predicate Leftmost(s: string, i: nat) {
    MatchAt(s, i).Some? && forall j :: 0 <= j < i ==> MatchAt(s, j).None?
  }

  /** The search from the start finds the leftmost match. */
  lemma FirstMatchIsLeftmost(s: string)
    ensures forall i: nat :: Leftmost(s, i) ==> FirstMatch(s, 0) == Some((i, MatchAt(s, i).value))
  {
    forall i: nat | Leftmost(s, i) ensures FirstMatch(s, 0) == Some((i, MatchAt(s, i).value)) {
      FirstMatchAt(s, i);
    }
  }

  /** One leftmost position is the one the search from the start reports. */
  lemma FirstMatchAt(s: string, i: nat)
    requires Leftmost(s, i)
    ensures FirstMatch(s, 0) == Some((i, MatchAt(s, i).value))
  {
    assert FirstMatch(s, 0).Some?;
  }

  /** The closure keywords 휴업 (closed for a break) and 폐점 (closed for good). */
  predicate ClosedNotice(s: string) {
    Includes(s, "휴업") || Includes(s, "폐점")
  }

  /**
    `parseAndCheckHours(hoursStr)`: `None` for a blank cell or one without a time
    range; `Some(false)` for a closure notice, whatever else the cell says; otherwise
    whether `now` lies in the half-open range from opening to closing.
   */
  function ParseAndCheckHours(s: string, now: int): (r: Option<bool>)
    ensures AllSpace(s) ==> r.None?
    ensures !AllSpace(s) && ClosedNotice(s) ==> r == Some(false)
    ensures !AllSpace(s) && !ClosedNotice(s) ==> (r.None? <==> forall i :: MatchAt(s, i).None?)
    ensures r == Some(true) ==> !ClosedNotice(s) && exists i :: MatchAt(s, i).Some? && Opens(MatchAt(s, i).value) <= now < Closes(MatchAt(s, i).value)
    ensures !AllSpace(s) && !ClosedNotice(s) ==>
              forall i :: Leftmost(s, i) ==> r == Some(Opens(MatchAt(s, i).value) <= now < Closes(MatchAt(s, i).value))
  {
    TrimEmptyIffAllSpace(s);
    if Trim(s) == [] then None
    else if ClosedNotice(s) then Some(false)
    else RangeDecides(s, now)
  }

  /** The first time range in the text decides: open from its opening minute up to, not including, its closing minute. */
  function RangeDecides(s: string, now: int): (r: Option<bool>)
    ensures r.None? <==> forall i :: MatchAt(s, i).None?
    ensures forall i :: Leftmost(s, i) ==> r == Some(Opens(MatchAt(s, i).value) <= now < Closes(MatchAt(s, i).value))
    ensures r == Some(true) ==> exists i :: MatchAt(s, i).Some? && Opens(MatchAt(s, i).value) <= now < Closes(MatchAt(s, i).value)
  {
    FirstMatchIsLeftmost(s);
    var m := FirstMatch(s, 0);
    if m.None? then None
    else Some(now >= Opens(m.value.1) && now < Closes(m.value.1))
  }

  /** A range that closes no later than it opens (an overnight range) is never open. */
  lemma OvernightNeverOpen(s: string, now: int)
    requires !AllSpace(s) && !ClosedNotice(s)
    requires forall i :: MatchAt(s, i).Some? ==> Closes(MatchAt(s, i).value) <= Opens(MatchAt(s, i).value)
    ensures ParseAndCheckHours(s, now) != Some(true)
  {
  }

  /** The two-digit rendering `HH` of a number below 100. */
  function Pad2(n: nat): (r: string)
    requires n < 100
    ensures |r| == 2 && IsDigit(r[0]) && IsDigit(r[1])
    ensures DigitsValue(r) == n
  {
    var r := [(n / 10 + '0' as int) as char, (n % 10 + '0' as int) as char];
    assert r[..1] == [r[0]] && [r[0]][..0] == [];
    assert DigitsValue(r[..1]) == n / 10;
    r
  }

  /** The cell `HH:MM~HH:MM`. */
  function Format(t: TimeRange): (s: string)
    requires t.openHour < 100 && t.openMinute < 100 && t.closeHour < 100 && t.closeMinute < 100
    ensures |s| == 11
  {
    Pad2(t.openHour) + ":" + Pad2(t.openMinute) + "~" + Pad2(t.closeHour) + ":" + Pad2(t.closeMinute)
  }

  /** A string made only of ASCII characters contains no Hangul word. */
  lemma NoHangul(s: string, w: string)
    requires forall i :: 0 <= i < |s| ==> s[i] < '\U{0080}'
    requires |w| > 0 && w[0] >= '\U{0080}'
    ensures !Includes(s, w)
  {
    forall i | 0 <= i <= |s| ensures !OccursAt(s, w, i) {
      if i + |w| <= |s| {
        assert s[i..i + |w|][0] == s[i];
      }
    }
  }

  /** A written-out range is neither blank nor a closure notice. */
  lemma FormatIsPlain(t: TimeRange)
    requires t.openHour < 100 && t.openMinute < 100 && t.closeHour < 100 && t.closeMinute < 100
    ensures !AllSpace(Format(t)) && !ClosedNotice(Format(t))
  {
    var s := Format(t);
    assert s[0] == Pad2(t.openHour)[0];
    assert forall i :: 0 <= i < |s| ==> s[i] < '\U{0080}';
    NoHangul(s, "휴업");
    NoHangul(s, "폐점");
  }

  /** Two padded numbers around a colon read back as that clock. */
  lemma ClockOfPadded(s: string, i: nat, hour: nat, minute: nat)
    requires hour < 100 && minute < 100 && i + 5 <= |s|
    requires s[i..i + 2] == Pad2(hour) && s[i + 2] == ':' && s[i + 3..i + 5] == Pad2(minute)
    ensures ClockAt(s, i) == Some(Clock(hour, minute, i + 5))
  {
    assert s[i] == s[i..i + 2][0] && s[i + 1] == s[i..i + 2][1];
    assert s[i + 3] == s[i + 3..i + 5][0] && s[i + 4] == s[i + 3..i + 5][1];
    assert HourLen(s, i) == 2;
  }

  /** Where the pieces of a written-out range sit. */
  lemma FormatPieces(t: TimeRange)
    requires t.openHour < 100 && t.openMinute < 100 && t.closeHour < 100 && t.closeMinute < 100
    ensures Format(t)[0..2] == Pad2(t.openHour) && Format(t)[2] == ':'
    ensures Format(t)[3..5] == Pad2(t.openMinute) && Format(t)[5] == '~'
    ensures Format(t)[6..8] == Pad2(t.closeHour) && Format(t)[8] == ':'
    ensures Format(t)[9..11] == Pad2(t.closeMinute)
  {
  }

  /** The pattern matches a written-out range at its first character, with its own numbers. */
  lemma MatchFormat(t: TimeRange)
    requires t.openHour < 100 && t.openMinute < 100 && t.closeHour < 100 && t.closeMinute < 100
    ensures MatchAt(Format(t), 0) == Some(t)
  {
    var s := Format(t);
    FormatPieces(t);
    assert ClockAt(s, 0) == Some(Clock(t.openHour, t.openMinute, 5)) by {
      ClockOfPadded(s, 0, t.openHour, t.openMinute);
    }
    assert ClockAt(s, 6) == Some(Clock(t.closeHour, t.closeMinute, 11)) by {
      ClockOfPadded(s, 6, t.closeHour, t.closeMinute);
    }
    assert SkipSpaces(s, 5) == 5;
    assert SkipSpaces(s, 6) == 6 by {
      assert Pad2(t.closeHour)[0] == s[6];
    }
  }

  /** Reading a written-out range gives back its numbers, and so the open test on them. */
  lemma ParseFormat(t: TimeRange, now: int)
    requires t.openHour < 100 && t.openMinute < 100 && t.closeHour < 100 && t.closeMinute < 100
    ensures ParseAndCheckHours(Format(t), now) == Some(Opens(t) <= now < Closes(t))
  {
    FormatIsPlain(t);
    MatchFormat(t);
    TrimEmptyIffAllSpace(Format(t));
    assert FirstMatch(Format(t), 0) == Some((0, t));
  }
}
