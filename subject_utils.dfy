/** The subject and schedule helpers of the timetable front end: parsing of schedule and
    credit strings, formatting, search filters, time-conflict detection, credit totals,
    filter-option lists, grid placement and the semester filter. Times are minutes since
    midnight, days 0 (월, Monday) to 6 (일, Sunday). */
module SubjectUtils {
  import opened Common
  import opened Text

  /** One weekly meeting of a subject. */
  datatype Schedule = Schedule(day: int, startTime: int, endTime: int)

  /** A subject of the catalogue. `semester` is the `개설학기` field of the original record
      the subject was built from (`None` when that record has none). Fields the helpers
      never read (lecture type, section, classroom, capacities, note) are not modelled. */
  datatype Subject = Subject(
    id: string,
    code: string,
    name: string,
    department: string,
    professor: string,
    credits: real,
    category: string,
    schedules: seq<Schedule>,
    isEnglish: bool,
    semester: Option<string>)

  // ---------------------------------------------------------------------------------
  // Clock times

  /** `parseTimeToMinutes`: 0 for a blank string, otherwise hours * 60 + minutes of the
      first two `:`-separated fields; `None` stands for the NaN JavaScript produces when a
      field is missing or not a number. */
  function ParseTimeToMinutes(s: string): Option<int>
  {
    if IsBlank(s) then Some(0)
    else
      var parts := Split(s, ':');
      if |parts| < 2 then None
      else match (JsNumber(parts[0]), JsNumber(parts[1]))
        case (Some(h), Some(m)) => Some(h * 60 + m)
        case _ => None
  }

  /** JavaScript's `%`: the remainder takes the sign of the dividend. */
  function JsRem(a: int, b: int): int
    requires b > 0
  {
    if a >= 0 then a % b else -((-a) % b)
  }

  /** `formatMinutesToTime`: `HH:MM`, each field zero-padded to two characters. */
  function FormatMinutesToTime(m: int): string
  {
    PadStart2(IntToString(m / 60)) + ":" + PadStart2(IntToString(JsRem(m, 60)))
  }

  /** A non-negative time renders as an hour field of at least two digits, `:`, and a
      two-digit minute field; under 100 hours it is exactly `HH:MM`. */
  lemma FormatShape(m: int)
    requires m >= 0
    ensures var r := FormatMinutesToTime(m);
      |r| >= 5 && r[|r| - 3] == ':'
      && AllDigits(r[..|r| - 3]) && AllDigits(r[|r| - 2..])
      && DigitsValue(r[..|r| - 3]) == m / 60 && DigitsValue(r[|r| - 2..]) == m % 60
      && (m < 6000 ==> |r| == 5)
  {
    var q, rem := m / 60, m % 60;
    assert JsRem(m, 60) == rem;
    assert IntToString(q) == NatToString(q);
    assert IntToString(rem) == NatToString(rem);
    var h := PadStart2(NatToString(q));
    var mm := PadStart2(NatToString(rem));
    PaddedReadsBack(q);
    PaddedReadsBack(rem);
    var r := FormatMinutesToTime(m);
    assert r == h + ":" + mm;
    assert |mm| == 2;
    assert r[..|r| - 3] == h;
    assert r[|r| - 2..] == mm;
    assert m < 6000 ==> q < 100;
  }

  /** `"h:m"` with decimal fields parses to `h * 60 + m` (an empty minute field counts as 0,
      as `Number("")` does). */
  lemma ParseTimeOfDigits(a: string, b: string)
    requires a != [] && AllDigits(a) && AllDigits(b)
    ensures var r := ParseTimeToMinutes(a + ":" + b); r.Some? && r.value == DigitsValue(a) * 60 + DigitsValue(b)
  {
    var s := a + ":" + b;
    assert ':' !in a && ':' !in b;
    SplitPair(a, b, ':');
    assert a + [':'] + b == s;
    DigitNotBlank(s, a[0]);
    DigitsNumber(a);
    DigitsNumber(b);
  }

  /** A string that starts with a digit is not blank. */
  lemma DigitNotBlank(s: string, c: char)
    requires s != [] && s[0] == c && IsDigit(c)
    ensures !IsBlank(s)
  {
    assert !IsJsWhitespace(s[0]);
  }

  lemma DigitsNumber(a: string)
    requires AllDigits(a)
    ensures JsNumber(a) == Some(DigitsValue(a))
  {
    if a != [] {
      assert IsDigit(a[0]) && IsDigit(a[|a| - 1]);
      TrimKeepsUnpadded(a);
    }
  }

  /** Formatting and parsing are inverse on non-negative times. */
  lemma ParseFormatRoundTrip(m: int)
    requires m >= 0
    ensures ParseTimeToMinutes(FormatMinutesToTime(m)) == Some(m)
  {
    FormatShape(m);
    ParseOfFields(FormatMinutesToTime(m), m);
  }

  lemma ParseOfFields(r: string, m: int)
    requires |r| >= 5 && r[|r| - 3] == ':' && AllDigits(r[..|r| - 3]) && AllDigits(r[|r| - 2..])
    requires DigitsValue(r[..|r| - 3]) == m / 60 && DigitsValue(r[|r| - 2..]) == m % 60
    ensures ParseTimeToMinutes(r) == Some(m)
  {
    var hours, minutes := r[..|r| - 3], r[|r| - 2..];
    assert r == hours + ":" + minutes by {
      assert r == r[..|r| - 3] + [r[|r| - 3]] + r[|r| - 2..];
    }
    ParseTimeOfDigits(hours, minutes);
  }

  lemma ParseBlankTime(s: string)
    requires forall i :: 0 <= i < |s| ==> IsJsWhitespace(s[i])
    ensures ParseTimeToMinutes(s) == Some(0)
  {
  }

  // ---------------------------------------------------------------------------------
  // Days

  const DayChars: string := "월화수목금토일"

  /** `getDayString`: the day's character, or the empty string outside 0..6. */
  function GetDayString(day: int): string
  {
    if 0 <= day < 7 then [DayChars[day]] else ""
  }

  /** The anchored matcher for `[월화수목금토일]`: the day number of the character at `i`. */
  function DayAt(s: string, i: nat): Option<int>
  {
    if i < |s| && s[i] in DayChars then Some(IndexOf(DayChars, s[i])) else None
  }

  lemma DayCharsDistinct()
    ensures NoDuplicates(DayChars)
  {
  }

  /** A day's character reads back as that day. */
  lemma DayRoundTrip(day: int)
    requires 0 <= day < 7
    ensures GetDayString(day) != "" && DayAt(GetDayString(day), 0) == Some(day)
  {
    DayCharsDistinct();
  }

  // ---------------------------------------------------------------------------------
  // Schedule lines

  /** The anchored matcher for `\d{1,2}:\d{2}` at `i`: the time in minutes and where the
      match ends. The two-digit hour is tried first, as the greedy `\d{1,2}` does; the
      one-digit hour is the backtracking alternative and needs `:` right after it, so at
      most one alternative can succeed. */
  function ClockAt(s: string, i: nat): Option<(int, nat)>
  {
    if i + 5 <= |s| && IsDigit(s[i]) && IsDigit(s[i + 1]) && s[i + 2] == ':'
      && IsDigit(s[i + 3]) && IsDigit(s[i + 4])
    then Some(((DigitValue(s[i]) * 10 + DigitValue(s[i + 1])) * 60
               + DigitValue(s[i + 3]) * 10 + DigitValue(s[i + 4]), i + 5))
    else if i + 4 <= |s| && IsDigit(s[i]) && s[i + 1] == ':' && IsDigit(s[i + 2]) && IsDigit(s[i + 3])
    then Some((DigitValue(s[i]) * 60 + DigitValue(s[i + 2]) * 10 + DigitValue(s[i + 3]), i + 4))
    else None
  }

  /** The anchored matcher for `(\d{1,2}):(\d{2})~(\d{1,2}):(\d{2})` at `i`: start and end
      in minutes. */
  function TimeRangeAt(s: string, i: nat): Option<(int, int)>
  {
    match ClockAt(s, i)
    case None => None
    case Some((a, p)) =>
      if p < |s| && s[p] == '~' then
        match ClockAt(s, p + 1)
        case None => None
        case Some((b, _)) => Some((a, b))
      else None
  }

  /** The schedule one line describes: the first day character anywhere in the line and the
      leftmost time range; `None` when either is missing. */
  function ScheduleOfLine(line: string): Option<Schedule>
  {
    var d := FirstDay(line);
    var t := FirstTimeRange(line);
    if d.Some? && t.Some? then Some(Schedule(d.value, t.value.0, t.value.1)) else None
  }

  /** `line.match(/[월화수목금토일]/)`, as a day number. */
  function FirstDay(line: string): Option<int>
  {
    match FindFrom(line, 0, DayAt)
    case None => None
    case Some((_, d)) => Some(d)
  }

  /** `line.match(/(\d{1,2}):(\d{2})~(\d{1,2}):(\d{2})/)`, as start and end minutes. */
  function FirstTimeRange(line: string): Option<(int, int)>
  {
    match FindFrom(line, 0, TimeRangeAt)
    case None => None
    case Some((_, t)) => Some(t)
  }

  /** The first day character decides the day; there is one exactly when the line holds a
      day character. */
  lemma FirstDaySpec(line: string)
    ensures FirstDay(line).Some? <==> exists i :: 0 <= i < |line| && line[i] in DayChars
    ensures FirstDay(line).Some? ==> (0 <= FirstDay(line).value < 7
      && exists i :: 0 <= i < |line| && line[i] == DayChars[FirstDay(line).value]
           && forall k :: 0 <= k < i ==> line[k] !in DayChars)
  {
    FindFromSpec(line, 0, DayAt);
    DayCharsDistinct();
    match FindFrom(line, 0, DayAt)
    case None =>
      forall i | 0 <= i < |line| ensures line[i] !in DayChars {
        assert DayAt(line, i).None?;
      }
    case Some((j, d)) =>
      assert line[j] in DayChars && d == IndexOf(DayChars, line[j]);
      forall k | 0 <= k < j ensures line[k] !in DayChars {
        assert DayAt(line, k).None?;
      }
  }

  /** A clock value is at most 99:99. */
  lemma ClockAtBounds(s: string, i: nat)
    ensures ClockAt(s, i).Some? ==> 0 <= ClockAt(s, i).value.0 <= 99 * 60 + 99
  {
  }

  /** The leftmost time range decides the times, both at most 99:99. */
  lemma FirstTimeRangeSpec(line: string)
    ensures FirstTimeRange(line).Some? <==> exists i :: 0 <= i <= |line| && TimeRangeAt(line, i).Some?
    ensures FirstTimeRange(line).Some? ==>
      (exists i :: 0 <= i <= |line| && TimeRangeAt(line, i) == FirstTimeRange(line)
         && forall k :: 0 <= k < i ==> TimeRangeAt(line, k).None?)
      && 0 <= FirstTimeRange(line).value.0 <= 99 * 60 + 99
      && 0 <= FirstTimeRange(line).value.1 <= 99 * 60 + 99
  {
    FindFromSpec(line, 0, TimeRangeAt);
    match FindFrom(line, 0, TimeRangeAt)
    case None =>
    case Some((j, t)) =>
      ClockAtBounds(line, j);
      var p := ClockAt(line, j).value.1;
      ClockAtBounds(line, p + 1);
  }

  /** The schedules of a sequence of lines, line by line, skipping lines without one. */
  function LineSchedules(lines: seq<string>): seq<Schedule>
    decreases |lines|
  {
    if lines == [] then []
    else
      LineSchedules(lines[..|lines| - 1])
      + match ScheduleOfLine(lines[|lines| - 1]) case Some(sch) => [sch] case None => []
  }

  /** What `parseSchedule` returns. */
  function SchedulesOf(s: string): seq<Schedule>
  {
    if IsBlank(s) then [] else LineSchedules(Split(s, '\n'))
  }

  /** `parseSchedule`: one pass over the `\n`-separated lines, pushing the schedule of
      every line that has a day character and a time range. */
  method ParseSchedule(s: string) returns (schedules: seq<Schedule>)
    ensures schedules == SchedulesOf(s)
  {
    if IsBlank(s) {
      return [];
    }
    schedules := [];
    var lines := Split(s, '\n');
    for i := 0 to |lines|
      invariant schedules == LineSchedules(lines[..i])
    {
      assert lines[..i + 1][..i] == lines[..i];
      var sch := ScheduleOfLine(lines[i]);
      if sch.Some? {
        schedules := schedules + [sch.value];
      }
    }
    assert lines[..|lines|] == lines;
  }

  /** A line yields a schedule exactly when it holds a day character and a time range; the
      schedule takes the first day character and the leftmost range, so the day is in
      0..6 and both times are at most 99:99. */
  lemma ScheduleOfLineSpec(line: string)
    ensures ScheduleOfLine(line).Some? <==>
      (exists i :: 0 <= i < |line| && line[i] in DayChars)
      && (exists i :: 0 <= i <= |line| && TimeRangeAt(line, i).Some?)
    ensures ScheduleOfLine(line).Some? ==>
      var sch := ScheduleOfLine(line).value;
      0 <= sch.day < 7
      && (exists i :: 0 <= i < |line| && line[i] == DayChars[sch.day]
            && forall k :: 0 <= k < i ==> line[k] !in DayChars)
      && (exists i :: 0 <= i <= |line| && TimeRangeAt(line, i) == Some((sch.startTime, sch.endTime))
            && forall k :: 0 <= k < i ==> TimeRangeAt(line, k).None?)
      && 0 <= sch.startTime <= 99 * 60 + 99 && 0 <= sch.endTime <= 99 * 60 + 99
  {
    FirstDaySpec(line);
    FirstTimeRangeSpec(line);
  }

  /** Every line yields at most one schedule. */
  lemma {:induction false} LineSchedulesBound(lines: seq<string>)
    ensures |LineSchedules(lines)| <= |lines|
    decreases |lines|
  {
    if lines != [] { LineSchedulesBound(lines[..|lines| - 1]); }
  }

  /** Every parsed schedule has a day in 0..6. */
  lemma {:induction false} LineSchedulesDays(lines: seq<string>)
    ensures forall k :: 0 <= k < |LineSchedules(lines)| ==> 0 <= LineSchedules(lines)[k].day < 7
    decreases |lines|
  {
    if lines != [] {
      LineSchedulesDays(lines[..|lines| - 1]);
      ScheduleOfLineSpec(lines[|lines| - 1]);
    }
  }

  /** What `parseSchedule` promises: nothing for blank input, at most one schedule per
      line, and only days 0..6. */
  lemma SchedulesOfSpec(s: string)
    ensures (forall i :: 0 <= i < |s| ==> IsJsWhitespace(s[i])) ==> SchedulesOf(s) == []
    ensures |SchedulesOf(s)| <= |Split(s, '\n')|
    ensures forall k :: 0 <= k < |SchedulesOf(s)| ==> 0 <= SchedulesOf(s)[k].day < 7
  {
        LineSchedulesBound(Split(s, '\n'));
    LineSchedulesDays(Split(s, '\n'));
  }

  /** `t` is the five-character clock `HH:MM` of the time `m`. */
  predicate ClockText(t: string, m: int)
  {
    |t| == 5 && IsDigit(t[0]) && IsDigit(t[1]) && t[2] == ':' && IsDigit(t[3]) && IsDigit(t[4])
    && (DigitValue(t[0]) * 10 + DigitValue(t[1])) * 60 + DigitValue(t[3]) * 10 + DigitValue(t[4]) == m
  }

  /** Below 100 hours, `FormatMinutesToTime` writes the five-character clock of the time. */
  lemma FormatIsClockText(m: int)
    requires 0 <= m < 6000
    ensures ClockText(FormatMinutesToTime(m), m)
  {
    FormatShape(m);
    ClockOfFields(FormatMinutesToTime(m), m);
  }

  lemma ClockOfFields(t: string, m: int)
    requires |t| == 5 && t[2] == ':' && AllDigits(t[..2]) && AllDigits(t[3..])
    requires DigitsValue(t[..2]) == m / 60 && DigitsValue(t[3..]) == m % 60
    ensures ClockText(t, m)
  {
    var hh, mm := t[..2], t[3..];
    assert hh[..1] == [t[0]] && hh[1] == t[1];
    assert mm[..1] == [t[3]] && mm[1] == t[4];
    assert IsDigit(hh[0]) && IsDigit(hh[1]) && IsDigit(mm[0]) && IsDigit(mm[1]);
    assert DigitsValue(hh) == DigitValue(t[0]) * 10 + DigitValue(t[1]);
    assert DigitsValue(mm) == DigitValue(t[3]) * 10 + DigitValue(t[4]);
  }

  /** `formatScheduleString`: every schedule as `day HH:MM~HH:MM`, joined with `, `. */
  function FormatScheduleString(schedules: seq<Schedule>): string
  {
    Join(seq(|schedules|, i requires 0 <= i < |schedules| => FormattedLine(schedules[i])), ", ")
  }

  /** The text `FormatScheduleString` writes for one schedule. */
  function FormattedLine(sch: Schedule): string
  {
    LineOf(sch.day, FormatMinutesToTime(sch.startTime), FormatMinutesToTime(sch.endTime))
  }

  function LineOf(day: int, t1: string, t2: string): string
  {
    GetDayString(day) + " " + t1 + "~" + t2
  }

  /** The characters of a line built by `LineOf`. */
  lemma LineOfShape(day: int, t1: string, t2: string, a: int, b: int)
    requires 0 <= day < 7 && ClockText(t1, a) && ClockText(t2, b)
    ensures var line := LineOf(day, t1, t2);
      |line| == 13 && line[0] == DayChars[day] && line[1] == ' ' && line[7] == '~'
      && line[2] == t1[0] && line[3] == t1[1] && line[4] == t1[2] && line[5] == t1[3] && line[6] == t1[4]
      && line[8] == t2[0] && line[9] == t2[1] && line[10] == t2[2] && line[11] == t2[3] && line[12] == t2[4]
  {
  }

  lemma LineDayReadsBack(day: int, t1: string, t2: string, a: int, b: int)
    requires 0 <= day < 7 && ClockText(t1, a) && ClockText(t2, b)
    ensures FirstDay(LineOf(day, t1, t2)) == Some(day)
  {
    LineOfShape(day, t1, t2, a, b);
    DayCharsDistinct();
    assert DayAt(LineOf(day, t1, t2), 0) == Some(day);
  }

  lemma LineTimeReadsBack(day: int, t1: string, t2: string, a: int, b: int)
    requires 0 <= day < 7 && ClockText(t1, a) && ClockText(t2, b)
    ensures FirstTimeRange(LineOf(day, t1, t2)) == Some((a, b))
  {
    var line := LineOf(day, t1, t2);
    LineOfShape(day, t1, t2, a, b);
    assert ClockAt(line, 2) == Some((a, 7));
    assert ClockAt(line, 8) == Some((b, 13));
    assert TimeRangeAt(line, 2) == Some((a, b));
    assert FindFrom(line, 2, TimeRangeAt) == Some((2, (a, b)));
    assert !IsDigit(line[1]) && TimeRangeAt(line, 1).None?;
    assert FindFrom(line, 1, TimeRangeAt) == Some((2, (a, b)));
    assert !IsDigit(line[0]) && TimeRangeAt(line, 0).None?;
    assert FindFrom(line, 0, TimeRangeAt) == Some((2, (a, b)));
  }

  /** A line made of a day character, a space and two clocks around `~` reads back as
      that day and those times. */
  lemma LineReadsBack(day: int, t1: string, t2: string, a: int, b: int)
    requires 0 <= day < 7 && ClockText(t1, a) && ClockText(t2, b)
    ensures SchedulesOf(LineOf(day, t1, t2)) == [Schedule(day, a, b)]
  {
    var line := LineOf(day, t1, t2);
    LineDayReadsBack(day, t1, t2, a, b);
    LineTimeReadsBack(day, t1, t2, a, b);
    LineOfSingle(day, t1, t2, a, b);
    OneLineSchedules(line);
  }

  /** A line built by `LineOf` is one non-blank line. */
  lemma LineOfSingle(day: int, t1: string, t2: string, a: int, b: int)
    requires 0 <= day < 7 && ClockText(t1, a) && ClockText(t2, b)
    ensures '\n' !in LineOf(day, t1, t2) && !IsBlank(LineOf(day, t1, t2))
  {
    var line := LineOf(day, t1, t2);
    LineOfShape(day, t1, t2, a, b);
    assert '\n' !in t1 && '\n' !in t2;
    assert line == [DayChars[day]] + " " + t1 + "~" + t2;
    assert !IsJsWhitespace(line[0]);
  }

  /** A string without a line break that is not blank is parsed as one line. */
  lemma OneLineSchedules(line: string)
    requires '\n' !in line && !IsBlank(line)
    ensures SchedulesOf(line) == match ScheduleOfLine(line) case Some(sch) => [sch] case None => []
  {
    SplitWithoutSeparator(line, '\n');
    var lines: seq<string> := [line];
    assert lines[..0] == [] && lines[0] == line;
    assert LineSchedules(lines) == [] + match ScheduleOfLine(line) case Some(sch) => [sch] case None => [];
    assert SchedulesOf(line) == LineSchedules(lines);
  }

  /** A single schedule survives formatting and parsing unchanged. */
  lemma FormatParseRoundTrip(sch: Schedule)
    requires 0 <= sch.day < 7
    requires 0 <= sch.startTime < 6000 && 0 <= sch.endTime < 6000
    ensures SchedulesOf(FormatScheduleString([sch])) == [sch]
  {
    assert FormatScheduleString([sch]) == FormattedLine(sch);
    FormatIsClockText(sch.startTime);
    FormatIsClockText(sch.endTime);
    LineReadsBack(sch.day, FormatMinutesToTime(sch.startTime), FormatMinutesToTime(sch.endTime), sch.startTime, sch.endTime);
  }

  // ---------------------------------------------------------------------------------
  // Credits

  /** The anchored matcher for a run of at least one decimal digit starting at `i`: where
      the run ends. The run is maximal, as greedy `\d+` takes it; backtracking never helps
      because every pattern element that follows needs a non-digit. */
  function DigitRunEnd(s: string, i: nat): nat
    requires i <= |s|
    ensures i <= DigitRunEnd(s, i) <= |s|
    decreases |s| - i
  {
    if i < |s| && IsDigit(s[i]) then DigitRunEnd(s, i + 1) else i
  }

  lemma {:induction false} DigitRunEndSpec(s: string, i: nat)
    requires i <= |s|
    ensures var e := DigitRunEnd(s, i);
      AllDigits(s[i..e]) && (e < |s| ==> !IsDigit(s[e]))
    decreases |s| - i
  {
    if i < |s| && IsDigit(s[i]) {
      DigitRunEndSpec(s, i + 1);
      var e := DigitRunEnd(s, i);
      assert s[i..e] == [s[i]] + s[i + 1..e];
    }
  }

  /** The value of the decimal digit string `s[i..e]` as a `real`. */
  function DigitsReal(s: string, i: nat, e: nat): real
    requires i <= e <= |s|
    decreases e - i
  {
    if i == e || !IsDigit(s[e - 1]) then 0.0
    else DigitsReal(s, i, e - 1) * 10.0 + DigitValue(s[e - 1]) as real
  }

  function Pow10(n: nat): real
    ensures Pow10(n) >= 1.0
  {
    if n == 0 then 1.0 else 10.0 * Pow10(n - 1)
  }

  /** The anchored matcher for `\d+\.\d+` at `i`: its value (what `parseFloat` gives for
      it) and where it ends. */
  function DecimalAt(s: string, i: nat): Option<(real, nat)>
  {
    if i >= |s| then None
    else
      var a := DigitRunEnd(s, i);
      if a == i || a >= |s| || s[a] != '.' then None
      else
        var b := DigitRunEnd(s, a + 1);
        if b == a + 1 then None
        else Some((DigitsReal(s, i, a) + DigitsReal(s, a + 1, b) / Pow10(b - a - 1), b))
  }

  /** The end of the (maximal) white-space run at `i`, as greedy `\s*` takes it. */
  function SpaceRunEnd(s: string, i: nat): nat
    requires i <= |s|
    ensures i <= SpaceRunEnd(s, i) <= |s|
    decreases |s| - i
  {
    if i < |s| && IsJsWhitespace(s[i]) then SpaceRunEnd(s, i + 1) else i
  }

  /** The anchored matcher for `\s*:\s*` at `i`: where it ends. */
  function ColonAt(s: string, i: nat): Option<nat>
  {
    if i > |s| then None
    else
      var c := SpaceRunEnd(s, i);
      if c < |s| && s[c] == ':' then Some(SpaceRunEnd(s, c + 1)) else None
  }

  /** The anchored matcher for `(\d+\.\d+)\s*:\s*(\d+\.\d+)\s*:\s*(\d+\.\d+)` at `i`: the
      value of the third group. */
  function CreditsAt(s: string, i: nat): Option<real>
  {
    match DecimalAt(s, i)
    case None => None
    case Some((_, p)) =>
      match ColonAt(s, p)
      case None => None
      case Some(q) =>
        match DecimalAt(s, q)
        case None => None
        case Some((_, u)) =>
          match ColonAt(s, u)
          case None => None
          case Some(v) =>
            match DecimalAt(s, v)
            case None => None
            case Some((c, _)) => Some(c)
  }

  /** `parseCredits`: the third number of the leftmost `a : b : c` triple, 0 when the input
      is blank or holds none. */
  function ParseCredits(s: string): real
  {
    if IsBlank(s) then 0.0
    else match FindFrom(s, 0, CreditsAt)
      case Some((_, c)) => c
      case None => 0.0
  }

  /** 0 for blank input and when no triple matches anywhere; otherwise the third number of
      the leftmost match, which is never negative. */
  lemma ParseCreditsSpec(s: string)
    ensures (forall i :: 0 <= i < |s| ==> IsJsWhitespace(s[i])) ==> ParseCredits(s) == 0.0
    ensures !IsBlank(s) && (forall i :: 0 <= i <= |s| ==> CreditsAt(s, i).None?) ==> ParseCredits(s) == 0.0
    ensures !IsBlank(s) && (exists i :: 0 <= i <= |s| && CreditsAt(s, i).Some?) ==>
      exists i :: 0 <= i <= |s| && CreditsAt(s, i) == Some(ParseCredits(s))
        && forall k :: 0 <= k < i ==> CreditsAt(s, k).None?
  {
        FindFromSpec(s, 0, CreditsAt);
  }

  lemma CreditsExampleFirst(s: string)
    requires s == "3.0 : 0.0 : 3.0"
    ensures DecimalAt(s, 0) == Some((3.0, 3)) && ColonAt(s, 3) == Some(6)
  {
    assert DigitRunEnd(s, 1) == 1 && DigitRunEnd(s, 0) == 1;
    assert DigitRunEnd(s, 3) == 3 && DigitRunEnd(s, 2) == 3;
    assert SpaceRunEnd(s, 4) == 4 && SpaceRunEnd(s, 3) == 4;
    assert SpaceRunEnd(s, 6) == 6 && SpaceRunEnd(s, 5) == 6;
    assert DigitsReal(s, 0, 1) == 3.0 && DigitsReal(s, 2, 3) == 0.0;
  }

  lemma CreditsExampleSecond(s: string)
    requires s == "3.0 : 0.0 : 3.0"
    ensures DecimalAt(s, 6) == Some((0.0, 9)) && ColonAt(s, 9) == Some(12)
  {
    assert DigitRunEnd(s, 7) == 7 && DigitRunEnd(s, 6) == 7;
    assert DigitRunEnd(s, 9) == 9 && DigitRunEnd(s, 8) == 9;
    assert SpaceRunEnd(s, 10) == 10 && SpaceRunEnd(s, 9) == 10;
    assert SpaceRunEnd(s, 12) == 12 && SpaceRunEnd(s, 11) == 12;
    assert DigitsReal(s, 6, 7) == 0.0 && DigitsReal(s, 8, 9) == 0.0;
  }

  lemma CreditsExampleThird(s: string)
    requires s == "3.0 : 0.0 : 3.0"
    ensures DecimalAt(s, 12) == Some((3.0, 15))
  {
    assert DigitRunEnd(s, 13) == 13 && DigitRunEnd(s, 12) == 13;
    assert DigitRunEnd(s, 15) == 15 && DigitRunEnd(s, 14) == 15;
    assert DigitsReal(s, 12, 13) == 3.0 && DigitsReal(s, 14, 15) == 0.0;
  }

  /** The catalogue's `강 : 실 : 학` string `"3.0 : 0.0 : 3.0"` carries 3 credits. */
  lemma CreditsExample()
    ensures ParseCredits("3.0 : 0.0 : 3.0") == 3.0
  {
    var s := "3.0 : 0.0 : 3.0";
    CreditsExampleFirst(s);
    CreditsExampleSecond(s);
    CreditsExampleThird(s);
    CreditsAtOf(s, 0, 3, 6, 9, 12, 3.0, 0.0, 3.0, 15);
    CreditsAtStart(s);
  }

  /** The triple matcher put together from its three numbers and two colons. */
  lemma CreditsAtOf(s: string, i: nat, p: nat, q: nat, u: nat, v: nat, x: real, y: real, c: real, w: nat)
    requires DecimalAt(s, i) == Some((x, p)) && ColonAt(s, p) == Some(q)
    requires DecimalAt(s, q) == Some((y, u)) && ColonAt(s, u) == Some(v)
    requires DecimalAt(s, v) == Some((c, w))
    ensures CreditsAt(s, i) == Some(c)
  {
  }

  lemma CreditsAtStart(s: string)
    requires s != [] && IsDigit(s[0]) && CreditsAt(s, 0).Some?
    ensures ParseCredits(s) == CreditsAt(s, 0).value
  {
    assert !IsJsWhitespace(s[0]);
  }

  // ---------------------------------------------------------------------------------
  // Search

  /** The optional filters of `searchSubjects`; an absent or empty department or category
      filter, like `'All'`, lets everything through. */
  datatype SearchFilters = SearchFilters(department: Option<string>, category: Option<string>, isEnglish: Option<bool>)

  predicate FieldFilterPasses(filter: Option<string>, value: string)
  {
    filter.None? || filter.value == "" || filter.value == "All" || value == filter.value
  }

  /** The query occurs, ignoring case, in the code, the name or the professor. */
  predicate QueryMatches(s: Subject, query: string)
  {
    query == ""
    || Contains(ToLower(s.code), ToLower(query))
    || Contains(ToLower(s.name), ToLower(query))
    || Contains(ToLower(s.professor), ToLower(query))
  }

  predicate MatchesSearch(s: Subject, query: string, filters: SearchFilters)
  {
    QueryMatches(s, query)
    && FieldFilterPasses(filters.department, s.department)
    && FieldFilterPasses(filters.category, s.category)
    && (filters.isEnglish.None? || s.isEnglish == filters.isEnglish.value)
  }

  /** `searchSubjects`: the subjects passing every filter, in their original order. */
  function SearchSubjects(subjects: seq<Subject>, query: string, filters: SearchFilters): (r: seq<Subject>)
    ensures IsSubsequence(r, subjects)
    ensures forall k :: 0 <= k < |r| ==> MatchesSearch(r[k], query, filters)
    ensures forall k :: 0 <= k < |subjects| && MatchesSearch(subjects[k], query, filters) ==> subjects[k] in r
    ensures forall s :: multiset(r)[s] == if MatchesSearch(s, query, filters) then multiset(subjects)[s] else 0
  {
    FilterMultiplicity(subjects, s => MatchesSearch(s, query, filters));
    Filter(subjects, s => MatchesSearch(s, query, filters))
  }

  /** With an empty query and no effective filter the search returns its input. */
  lemma SearchWithoutFilters(subjects: seq<Subject>, filters: SearchFilters)
    requires filters.department in {None, Some(""), Some("All")}
    requires filters.category in {None, Some(""), Some("All")}
    requires filters.isEnglish.None?
    ensures SearchSubjects(subjects, "", filters) == subjects
  {
    FilterAll(subjects, s => MatchesSearch(s, "", filters));
  }

  // ---------------------------------------------------------------------------------
  // Conflicts

  /** `hasTimeConflict`: same day and overlapping half-open intervals. */
  predicate HasTimeConflict(a: Schedule, b: Schedule)
  {
    a.day == b.day && !(a.endTime <= b.startTime || a.startTime >= b.endTime)
  }

  /** Conflict is symmetric, needs the same day, and intervals that only touch do not
      conflict; for well-formed intervals it means sharing a minute. */
  lemma TimeConflictSpec(a: Schedule, b: Schedule)
    ensures HasTimeConflict(a, b) == HasTimeConflict(b, a)
    ensures a.day != b.day ==> !HasTimeConflict(a, b)
    ensures a.endTime == b.startTime ==> !HasTimeConflict(a, b)
    ensures a.startTime < a.endTime && b.startTime < b.endTime ==>
      (HasTimeConflict(a, b) <==> a.day == b.day && exists t :: Covers(a, t) && Covers(b, t))
  {
    if a.day == b.day && a.startTime < a.endTime && b.startTime < b.endTime && HasTimeConflict(a, b) {
      var t := if a.startTime < b.startTime then b.startTime else a.startTime;
      assert Covers(a, t) && Covers(b, t);
    }
  }

  /** The meeting occupies minute `t`. */
  predicate Covers(sch: Schedule, t: int)
  {
    sch.startTime <= t < sch.endTime
  }

  /** Some schedule of `a` conflicts with some schedule of `b`. */
  predicate SubjectsConflict(a: Subject, b: Subject)
  {
    exists i, j :: 0 <= i < |a.schedules| && 0 <= j < |b.schedules|
      && HasTimeConflict(a.schedules[i], b.schedules[j])
  }

  lemma SubjectsConflictSymmetric(a: Subject, b: Subject)
    ensures SubjectsConflict(a, b) <==> SubjectsConflict(b, a)
  {
    if SubjectsConflict(a, b) {
      var i, j :| 0 <= i < |a.schedules| && 0 <= j < |b.schedules| && HasTimeConflict(a.schedules[i], b.schedules[j]);
      assert HasTimeConflict(b.schedules[j], a.schedules[i]);
    }
    if SubjectsConflict(b, a) {
      var j, i :| 0 <= j < |b.schedules| && 0 <= i < |a.schedules| && HasTimeConflict(b.schedules[j], a.schedules[i]);
      assert HasTimeConflict(a.schedules[i], b.schedules[j]);
    }
  }

  /** `hasSubjectConflict`: the nested loop over both schedule lists, returning as soon as
      a conflicting pair is found. */
  method HasSubjectConflict(a: Subject, b: Subject) returns (r: bool)
    ensures r <==> SubjectsConflict(a, b)
  {
    for i := 0 to |a.schedules|
      invariant forall i', j :: 0 <= i' < i && 0 <= j < |b.schedules| ==> !HasTimeConflict(a.schedules[i'], b.schedules[j])
    {
      for j := 0 to |b.schedules|
        invariant forall j' :: 0 <= j' < j ==> !HasTimeConflict(a.schedules[i], b.schedules[j'])
      {
        if HasTimeConflict(a.schedules[i], b.schedules[j]) {
          return true;
        }
      }
    }
    return false;
  }

  /** The names of `subjects`, in order. */
  function Names(subjects: seq<Subject>): seq<string>
  {
    seq(|subjects|, i requires 0 <= i < |subjects| => subjects[i].name)
  }

  datatype ConflictReport = ConflictReport(hasConflict: bool, conflictingSubjects: seq<Subject>)

  /** `checkConflictsWithSelectedSubjects`. */
  function CheckConflicts(subject: Subject, selected: seq<Subject>): (r: ConflictReport)
    ensures r.hasConflict <==> r.conflictingSubjects != []
    ensures r.hasConflict <==> exists k :: 0 <= k < |selected| && SubjectsConflict(subject, selected[k])
    ensures IsSubsequence(r.conflictingSubjects, selected)
    ensures forall k :: 0 <= k < |r.conflictingSubjects| ==> SubjectsConflict(subject, r.conflictingSubjects[k])
    ensures forall k :: 0 <= k < |selected| && SubjectsConflict(subject, selected[k]) ==> selected[k] in r.conflictingSubjects
    ensures forall s :: multiset(r.conflictingSubjects)[s] == if SubjectsConflict(subject, s) then multiset(selected)[s] else 0
  {
    FilterMultiplicity(selected, s => SubjectsConflict(subject, s));
    var c := Filter(selected, s => SubjectsConflict(subject, s));
    assert c != [] ==> c[0] in selected;
    ConflictReport(|c| > 0, c)
  }

  // ---------------------------------------------------------------------------------
  // Credits total, filter options, grid position, semester filter

  /** `calculateTotalCredits`. */
  function TotalCredits(subjects: seq<Subject>): real
  {
    SumBy(subjects, (s: Subject) => s.credits)
  }

  /** The total of no subjects is 0, adding a subject adds its credits, and the order of
      the subjects does not matter. */
  lemma TotalCreditsSpec(a: seq<Subject>, b: seq<Subject>, x: Subject)
    ensures TotalCredits([]) == 0.0
    ensures TotalCredits(a + [x]) == TotalCredits(a) + x.credits
    ensures TotalCredits(a + b) == TotalCredits(a) + TotalCredits(b)
    ensures multiset(a) == multiset(b) ==> TotalCredits(a) == TotalCredits(b)
  {
    assert (a + [x])[..|a + [x]| - 1] == a;
    SumByAppend(a, b, (s: Subject) => s.credits);
    if multiset(a) == multiset(b) { SumByPermutation(a, b, (s: Subject) => s.credits); }
  }

  function Departments(subjects: seq<Subject>): seq<string>
  {
    seq(|subjects|, i requires 0 <= i < |subjects| => subjects[i].department)
  }

  function Categories(subjects: seq<Subject>): seq<string>
  {
    seq(|subjects|, i requires 0 <= i < |subjects| => subjects[i].category)
  }

  /** `getFilterOptions`: one pass pushing every department and category not yet listed
      onto lists that start as `['All']`. */
  method GetFilterOptions(subjects: seq<Subject>) returns (departments: seq<string>, categories: seq<string>)
    ensures departments == DedupInto(["All"], Departments(subjects))
    ensures categories == DedupInto(["All"], Categories(subjects))
  {
    departments, categories := ["All"], ["All"];
    var ds, cs := Departments(subjects), Categories(subjects);
    for i := 0 to |subjects|
      invariant DedupInto(departments, ds[i..]) == DedupInto(["All"], ds)
      invariant DedupInto(categories, cs[i..]) == DedupInto(["All"], cs)
    {
      assert ds[i..][0] == subjects[i].department && ds[i..][1..] == ds[i + 1..];
      assert cs[i..][0] == subjects[i].category && cs[i..][1..] == cs[i + 1..];
      if subjects[i].department !in departments {
        departments := departments + [subjects[i].department];
      }
      if subjects[i].category !in categories {
        categories := categories + [subjects[i].category];
      }
    }
    assert ds[|subjects|..] == [] && cs[|subjects|..] == [];
    assert ds[0..] == ds && cs[0..] == cs;
  }

  /** An option list starts with `'All'`, has no repeats, lists exactly `'All'` and the
      given values, and lists the values after `'All'` in order of first occurrence. */
  lemma FilterOptionsSpec(values: seq<string>)
    ensures var r := DedupInto(["All"], values);
      |r| >= 1 && r[0] == "All" && NoDuplicates(r)
      && (forall v :: v in r <==> v == "All" || v in values)
      && IsSubsequence(r[1..], values)
      && forall i, j :: 1 <= i < j < |r| ==> IndexOf(values, r[i]) < IndexOf(values, r[j])
  {
    DedupIntoPrefix(["All"], values);
    DedupIntoNoDuplicates(["All"], values);
    DedupIntoElements(["All"], values);
    DedupIntoOrder(["All"], values);
    DedupIntoFirstOrder(["All"], values);
    var r := DedupInto(["All"], values);
    assert r[0] == r[..1][0];
  }

  /** The placement of a schedule on the 30-minute grid whose first row is 9:00. */
  datatype GridPosition = GridPosition(column: int, startRow: int, span: int)

  /** `getSchedulePosition`: `Math.floor` and `Math.ceil` of divisions by 30. */
  function SchedulePosition(sch: Schedule): (r: GridPosition)
    ensures r.column == sch.day + 2
    ensures (r.startRow - 2) * 30 <= sch.startTime - 540 < (r.startRow - 1) * 30
    ensures (r.span - 1) * 30 < sch.endTime - sch.startTime <= r.span * 30
  {
    GridPosition(sch.day + 2, (sch.startTime - 540) / 30 + 2, -((sch.startTime - sch.endTime) / 30))
  }

  /** The CSS texts `gridColumn` and `gridRow` built from a position. */
  function GridColumnText(p: GridPosition): string { IntToString(p.column) }

  function GridRowText(p: GridPosition): string { IntToString(p.startRow) + " / span " + IntToString(p.span) }

  /** The semester labels the filter knows, mapped to the catalogue's Korean names. */
  const SemesterMap: map<string, string> :=
    map["Spring 2025" := "봄학기", "Summer 2025" := "여름학기", "Fall 2025" := "가을학기", "Winter 2025" := "겨울학기"]

  /** The Korean semester name for a term, `'봄학기'` for an unknown term. */
  function KoreanSemester(term: string): string
  {
    if term in SemesterMap then SemesterMap[term] else "봄학기"
  }

  predicate OffersInSemester(s: Subject, term: string)
  {
    match s.semester
    case None => true
    case Some(x) => x == "" || x == KoreanSemester(term)
  }

  /** `filterSubjectsBySemester`. */
  function FilterBySemester(subjects: seq<Subject>, term: string): (r: seq<Subject>)
    ensures IsSubsequence(r, subjects)
    ensures forall k :: 0 <= k < |r| ==> OffersInSemester(r[k], term)
    ensures forall k :: 0 <= k < |subjects| && OffersInSemester(subjects[k], term) ==> subjects[k] in r
    ensures forall s :: multiset(r)[s] == if OffersInSemester(s, term) then multiset(subjects)[s] else 0
  {
    FilterMultiplicity(subjects, s => OffersInSemester(s, term));
    Filter(subjects, s => OffersInSemester(s, term))
  }

  /** Subjects without a recorded semester are always kept, and an unknown term selects
      the spring semester. */
  lemma FilterBySemesterSpec(subjects: seq<Subject>, term: string)
    ensures forall k :: 0 <= k < |subjects| && subjects[k].semester.None? ==> subjects[k] in FilterBySemester(subjects, term)
    ensures term !in SemesterMap ==> FilterBySemester(subjects, term) == FilterBySemester(subjects, "Spring 2025")
  {
    if term !in SemesterMap {
      assert forall s :: OffersInSemester(s, term) == OffersInSemester(s, "Spring 2025");
      FilterSame(subjects, s => OffersInSemester(s, term), s => OffersInSemester(s, "Spring 2025"));
    }
  }
}
