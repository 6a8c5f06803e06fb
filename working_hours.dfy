/** parseWorkingHoursString of the site-settings page: free text describing
    opening hours in, seven day records (Monday to Sunday) out.  It never fails:
    input that is not a string, or that says nothing usable about a day, falls
    back to a fixed default table. */
module WorkingHours {
  import opened Wrappers
  import opened JsText
  import opened TimeRange

  /** One entry of the schedule; `startTime` and `endTime` are "HH:MM" texts. */
  datatype DayRecord = DayRecord(day: string, title: string, startTime: string, endTime: string, isOpen: bool)

  /** The argument: a string, or any other JavaScript value (null, undefined, a
      number, an object, ...). */
  datatype Input = Text(s: string) | NotAString

  const DayNames: seq<string> :=
    ["Monday", "Tuesday", "Wednesday", "Thursday", "Friday", "Saturday", "Sunday"]

  /** Monday to Friday 09:00-17:00 open, Saturday 10:00-14:00 open, Sunday
      closed. */
  const DefaultWorkingHours: seq<DayRecord> := [
    DayRecord("Monday", "Monday", "09:00", "17:00", true),
    DayRecord("Tuesday", "Tuesday", "09:00", "17:00", true),
    DayRecord("Wednesday", "Wednesday", "09:00", "17:00", true),
    DayRecord("Thursday", "Thursday", "09:00", "17:00", true),
    DayRecord("Friday", "Friday", "09:00", "17:00", true),
    DayRecord("Saturday", "Saturday", "10:00", "14:00", true),
    DayRecord("Sunday", "Sunday", "00:00", "00:00", false)
  ]

  /** `table.find(d => d.day === day)`: the first record for `day`. */
  function FindDay(table: seq<DayRecord>, day: string): (r: Option<DayRecord>)
    ensures r.Some? ==> r.value in table && r.value.day == day
    ensures r.None? ==> forall k :: 0 <= k < |table| ==> table[k].day != day
    ensures forall k :: 0 <= k < |table| && table[k].day == day && (forall j :: 0 <= j < k ==> table[j].day != day)
              ==> r == Some(table[k])
  {
    if table == [] then None
    else if table[0].day == day then Some(table[0])
    else
      var rest := table[1..];
      var r := FindDay(rest, day);
      assert forall k :: 1 <= k < |table| ==> table[k] == rest[k - 1];
      r
  }

  /** The default entry of every day is found in the default table, so the
      `|| {...}` alternative after it is never taken. */
  lemma DefaultFound(i: int)
    requires 0 <= i < 7
    ensures FindDay(DefaultWorkingHours, DayNames[i]) == Some(DefaultWorkingHours[i])
  {
    assert forall j :: 0 <= j < 7 ==> DefaultWorkingHours[j].day == DayNames[j];
    assert forall j, k :: 0 <= j < k < 7 ==> DayNames[j] != DayNames[k];
  }

  /** `seg` is the text `[^\n]*` takes from the first occurrence of `day`,
      ignoring case. */
  ghost predicate IsDaySegment(s: string, day: string, seg: string) {
    exists i :: IsFirstOccurrence(IgnoreCase, s, day, i) && IsLineFrom(s, i, seg)
  }

  /** `s.match(new RegExp(day + "[^\\n]*", "i"))`: from the first occurrence of
      the day name to the next line feed. */
  function DaySegment(s: string, day: string): (r: Option<string>)
    ensures r.None? <==> !Contains(IgnoreCase, s, day)
    ensures r.Some? ==> IsDaySegment(s, day, r.value)
  {
    var i := IndexOf(IgnoreCase, s, day);
    if i < 0 then None
    else
      LineEndIsLine(s, i);
      Some(s[i..LineEnd(s, i)])
  }

  lemma DaySegmentUnique(s: string, day: string, seg: string)
    requires IsDaySegment(s, day, seg)
    ensures DaySegment(s, day) == Some(seg)
  {
    var i :| IsFirstOccurrence(IgnoreCase, s, day, i) && IsLineFrom(s, i, seg);
    var r := DaySegment(s, day);
    var j := IndexOf(IgnoreCase, s, day);
    FirstOccurrenceUnique(IgnoreCase, s, day, i, j);
    LineEndIsLine(s, i);
    LineFromUnique(s, i, seg, r.value);
  }

  /** The 12-hour adjustment as the code states it, with `marker` "AM" for the
      start hour and "PM" for the end hour: the hour is raised only when the
      line contains "pm" in any case, and the first upper-case `marker` comes
      after the first occurrence of the hour's own decimal text. */
  function AdjustHour(line: string, hour: nat, marker: string): (h: nat)
    ensures h == hour || (hour < 12 && h == hour + 12 && h <= 23)
    ensures h != hour ==> Contains(IgnoreCase, line, "PM")
    ensures h != hour ==> IndexOf(Exact, line, marker) > IndexOf(Exact, line, ToDecimal(hour))
    ensures (Contains(IgnoreCase, line, "PM") && hour < 12
      && IndexOf(Exact, line, marker) > IndexOf(Exact, line, ToDecimal(hour))) ==> h == hour + 12
    ensures !Contains(Exact, line, marker) ==> h == hour
  {
    if Test(IgnoreCase, line, "PM") && hour < 12 && IndexOf(Exact, line, marker) > IndexOf(Exact, line, ToDecimal(hour))
    then hour + 12
    else hour
  }

  datatype Meridiem = AM | PM

  /** The marker `\s*(?:AM|PM)?` reads right after a time that ends at `i`. */
  function MarkerAfter(line: string, i: nat): (r: Option<Meridiem>)
    requires i <= |line|
    ensures r.Some? ==> MeridiemAt(line, SkipSpaces(line, i))
    ensures r.None? <==> !MeridiemAt(line, SkipSpaces(line, i))
    ensures r == Some(AM) <==> OccursAt(IgnoreCase, line, "AM", SkipSpaces(line, i))
    ensures r == Some(PM) <==> OccursAt(IgnoreCase, line, "PM", SkipSpaces(line, i))
  {
    var a := SkipSpaces(line, i);
    if OccursAt(IgnoreCase, line, "AM", a) then
      assert SameChar(IgnoreCase, line[a + 0], "AM"[0]) && FoldCase("AM"[0]) == 'A';
      assert !SameChar(IgnoreCase, line[a + 0], "PM"[0]) && !OccursAt(IgnoreCase, line, "PM", a);
      Some(AM)
    else if OccursAt(IgnoreCase, line, "PM", a) then Some(PM)
    else None
  }

  /** The corrected reading of one hour from the marker after its own time. */
  predicate FollowsOwnMarker(hour: nat, mark: Option<Meridiem>, h: nat) {
    (mark == Some(PM) && hour < 12 ==> h == hour + 12)
    && (mark == Some(AM) && hour == 12 ==> h == 0)
    && (!(mark == Some(PM) && hour < 12) && !(mark == Some(AM) && hour == 12) ==> h == hour)
  }

  /** A 12-hour clock hour with its own marker, on the 24-hour clock. */
  function ToTwentyFour(hour: nat, marker: Option<Meridiem>): (h: nat)
    ensures FollowsOwnMarker(hour, marker, h)
    ensures h == hour || h <= 23
  {
    match marker
    case Some(PM) => if hour < 12 then hour + 12 else hour
    case Some(AM) => if hour == 12 then 0 else hour
    case None => hour
  }

  /** Which 12-hour adjustment to apply: the one the code makes (AsWritten), or
      the corrected one in which every time follows its own AM/PM marker
      (OwnMarker). */
  datatype HourRule = AsWritten | OwnMarker

  /** The start hour on the 24-hour clock, as `rule` reads it. */
  function StartHourValue(rule: HourRule, line: string, m: RangeMatch): (h: nat)
    requires MatchAt(line, m.at) == Some(m)
    ensures h <= 99
  {
    ShortDecimal(StartHour(line, m));
    var hour := ParseDecimal(StartHour(line, m));
    match rule
    case AsWritten => AdjustHour(line, hour, "AM")
    case OwnMarker => ToTwentyFour(hour, MarkerAfter(line, StartTimeEnd(line, m)))
  }

  /** The end hour on the 24-hour clock, as `rule` reads it. */
  function EndHourValue(rule: HourRule, line: string, m: RangeMatch): (h: nat)
    requires MatchAt(line, m.at) == Some(m)
    ensures h <= 99
  {
    ShortDecimal(EndHour(line, m));
    var hour := ParseDecimal(EndHour(line, m));
    match rule
    case AsWritten => AdjustHour(line, hour, "PM")
    case OwnMarker => ToTwentyFour(hour, MarkerAfter(line, EndTimeEnd(line, m)))
  }

  /** "HH:MM": two digits, a colon, two digits. */
  predicate IsClockText(t: string) {
    |t| == 5 && IsDigit(t[0]) && IsDigit(t[1]) && t[2] == ':' && IsDigit(t[3]) && IsDigit(t[4])
  }

  /** The hour a clock text shows. */
  function ClockHour(t: string): nat
    requires IsClockText(t)
  {
    ParseDecimal(t[..2])
  }

  /** `${hour.toString().padStart(2, '0')}:${minute}`: for an hour below 100,
      two digits, a colon and the minute text. */
  function FormatTime(hour: nat, minute: string): (t: string)
    ensures hour <= 99 ==> |t| == 3 + |minute| && IsDigit(t[0]) && IsDigit(t[1]) && t[2] == ':' && t[3..] == minute
  {
    var p := PadStart(ToDecimal(hour), 2, '0');
    assert hour <= 99 ==> |p| == 2 && IsDigit(p[0]) && IsDigit(p[1]) by {
      if hour <= 99 {
        ShortDecimalLength(hour);
      }
    }
    p + ":" + minute
  }

  /** A time of at most two hour digits is formatted as "HH:MM" that shows
      that hour and keeps the minute text. */
  lemma FormatTimeShape(hour: nat, minute: string)
    requires hour <= 99 && IsMinuteText(minute)
    ensures var t := FormatTime(hour, minute); IsClockText(t) && ClockHour(t) == hour && t[3..] == minute
  {
    var d := ToDecimal(hour);
    ShortDecimalLength(hour);
    ParseToDecimal(hour);
    var p := PadStart(d, 2, '0');
    if |d| == 1 {
      assert p == ['0', d[0]];
      assert p[..2] == ['0', d[0]];
      TwoDigitValue(p);
      assert ParseDecimal(d) == DigitValue(d[0]);
    } else {
      assert p == d;
    }
    var t := p + ":" + minute;
    assert t[..2] == p;
  }

  /** One day of the schedule: lines 66-130 for the day named `day`. */
  function ParseDay(rule: HourRule, s: string, day: string): (r: DayRecord)
    ensures r.day == day && r.title == day
  {
    var fallback :=
      match FindDay(DefaultWorkingHours, day)
      case Some(d) => d
      case None => DayRecord(day, day, "09:00", "17:00", day != "Sunday");
    match DaySegment(s, day)
    case None => fallback
    case Some(line) =>
      if Test(IgnoreCase, line, "closed") then DayRecord(day, day, "00:00", "00:00", false)
      else
        match FirstMatch(line)
        case None => fallback
        case Some(m) =>
          DayRecord(day, day,
            FormatTime(StartHourValue(rule, line, m), StartMinute(line, m)),
            FormatTime(EndHourValue(rule, line, m), EndMinute(line, m)),
            true)
  }

  /** The schedule under a given adjustment rule. */
  function ParseWith(rule: HourRule, input: Input): (r: seq<DayRecord>)
    ensures |r| == 7
    ensures forall i :: 0 <= i < 7 ==> r[i].day == DayNames[i] && r[i].title == DayNames[i]
    ensures input.NotAString? || input.s == "" ==> r == DefaultWorkingHours
  {
    match input
    case NotAString => DefaultWorkingHours
    case Text(s) =>
      if s == "" then DefaultWorkingHours
      else seq(7, i requires 0 <= i < 7 => ParseDay(rule, s, DayNames[i]))
  }

  /** parseWorkingHoursString, as written. */
  function Parse(input: Input): (r: seq<DayRecord>)
    ensures |r| == 7
    ensures forall i :: 0 <= i < 7 ==> r[i].day == DayNames[i] && r[i].title == DayNames[i]
    ensures input.NotAString? || input.s == "" ==> r == DefaultWorkingHours
  {
    ParseWith(AsWritten, input)
  }

  /** parseWorkingHoursString with the AM/PM adjustment corrected. */
  function ParseIntended(input: Input): (r: seq<DayRecord>)
    ensures |r| == 7
    ensures forall i :: 0 <= i < 7 ==> r[i].day == DayNames[i] && r[i].title == DayNames[i]
    ensures input.NotAString? || input.s == "" ==> r == DefaultWorkingHours
  {
    ParseWith(OwnMarker, input)
  }

  /** A record of a day that has a segment, for a non-empty input. */
  lemma ParseWithDay(rule: HourRule, s: string, i: int)
    requires 0 <= i < 7 && s != ""
    ensures ParseWith(rule, Text(s))[i] == ParseDay(rule, s, DayNames[i])
  {
  }

  /** A day whose name does not occur in the input, in any case, keeps its
      default entry. */
  lemma AbsentDayIsDefault(rule: HourRule, s: string, i: int)
    requires 0 <= i < 7 && !Contains(IgnoreCase, s, DayNames[i])
    ensures ParseWith(rule, Text(s))[i] == DefaultWorkingHours[i]
  {
    if s != "" {
      DefaultFound(i);
      ParseWithDay(rule, s, i);
    }
  }

  /** "closed" anywhere in a day's segment, in any case, closes that day, even
      when the segment also holds a time range. */
  lemma ClosedWins(rule: HourRule, s: string, i: int, seg: string)
    requires 0 <= i < 7 && IsDaySegment(s, DayNames[i], seg) && Contains(IgnoreCase, seg, "closed")
    ensures ParseWith(rule, Text(s))[i] == DayRecord(DayNames[i], DayNames[i], "00:00", "00:00", false)
  {
    DaySegmentUnique(s, DayNames[i], seg);
    assert s != "";
    ParseWithDay(rule, s, i);
  }

  /** A day whose segment has neither "closed" nor a time range keeps its
      default entry. */
  lemma NoRangeIsDefault(rule: HourRule, s: string, i: int, seg: string)
    requires 0 <= i < 7 && IsDaySegment(s, DayNames[i], seg) && !Contains(IgnoreCase, seg, "closed")
    requires forall q: nat, m :: !MatchesPatternAt(seg, q, m)
    ensures ParseWith(rule, Text(s))[i] == DefaultWorkingHours[i]
  {
    assert DaySegment(s, DayNames[i]) == Some(seg) by {
      DaySegmentUnique(s, DayNames[i], seg);
    }
    NoMatchNoFirst(seg);
    FallbackDay(rule, s, i, seg);
    assert s != "";
    ParseWithDay(rule, s, i);
  }

  lemma NoMatchNoFirst(seg: string)
    requires forall q: nat, m :: !MatchesPatternAt(seg, q, m)
    ensures FirstMatch(seg) == None
  {
    FirstMatchIsLeftmost(seg);
  }

  lemma FallbackDay(rule: HourRule, s: string, i: int, seg: string)
    requires 0 <= i < 7 && DaySegment(s, DayNames[i]) == Some(seg)
    requires !Contains(IgnoreCase, seg, "closed") && FirstMatch(seg) == None
    ensures ParseDay(rule, s, DayNames[i]) == DefaultWorkingHours[i]
  {
    DefaultFound(i);
  }

  /** `seg` holds a leftmost match `m` of the time pattern. */
  ghost predicate IsLeftmostMatch(seg: string, m: RangeMatch) {
    MatchesPatternAt(seg, m.at, m) && forall q: nat, m' :: q < m.at ==> !MatchesPatternAt(seg, q, m')
  }

  lemma LeftmostMatchIsFirst(seg: string, m: RangeMatch)
    requires IsLeftmostMatch(seg, m)
    ensures FirstMatch(seg) == Some(m)
  {
    FirstMatchIsLeftmost(seg);
    MatchAtComplete(seg, m.at, m);
    var r := FirstMatch(seg);
    assert r.Some?;
    assert r.value.at == m.at;
  }

  /** The record of a day whose segment is not closed and holds the range `m`
      first. */
  lemma ParseDayRange(rule: HourRule, s: string, day: string, seg: string, m: RangeMatch)
    requires DaySegment(s, day) == Some(seg) && !Contains(IgnoreCase, seg, "closed")
    requires FirstMatch(seg) == Some(m)
    ensures ParseDay(rule, s, day) == DayRecord(day, day,
      FormatTime(StartHourValue(rule, seg, m), StartMinute(seg, m)),
      FormatTime(EndHourValue(rule, seg, m), EndMinute(seg, m)),
      true)
  {
  }

  /** A one-digit hour gets a '0' in front; a two-digit hour stays as it was. */
  function TwoDigitHour(h: string): string {
    if |h| == 1 then "0" + h else h
  }

  lemma FormatCapturedHour(h: string, minute: string)
    requires IsHourText(h)
    ensures FormatTime(ParseDecimal(h), minute) == TwoDigitHour(h) + ":" + minute
  {
    ShortDecimal(h);
  }

  /** Without "PM" in the line, in any case, neither hour is adjusted. */
  lemma NoPmNoAdjustment(seg: string, m: RangeMatch)
    requires MatchAt(seg, m.at) == Some(m) && !Contains(IgnoreCase, seg, "PM")
    ensures StartHourValue(AsWritten, seg, m) == ParseDecimal(StartHour(seg, m))
    ensures EndHourValue(AsWritten, seg, m) == ParseDecimal(EndHour(seg, m))
  {
  }

  /** The record of a day whose segment holds the range `m` first and no
      "closed" and no "PM". */
  lemma ParseDayWithoutPm(s: string, day: string, seg: string, m: RangeMatch)
    requires DaySegment(s, day) == Some(seg)
    requires !Contains(IgnoreCase, seg, "closed") && !Contains(IgnoreCase, seg, "PM")
    requires FirstMatch(seg) == Some(m)
    ensures ParseDay(AsWritten, s, day) == DayRecord(day, day,
      TwoDigitHour(StartHour(seg, m)) + ":" + StartMinute(seg, m),
      TwoDigitHour(EndHour(seg, m)) + ":" + EndMinute(seg, m),
      true)
  {
    ParseDayRange(AsWritten, s, day, seg, m);
    NoPmNoAdjustment(seg, m);
    FormatCapturedHour(StartHour(seg, m), StartMinute(seg, m));
    FormatCapturedHour(EndHour(seg, m), EndMinute(seg, m));
  }

  /** Without "PM" in the segment, in any case, the captures of the leftmost
      range are copied: hours padded to two digits, minutes verbatim, and the
      day is open. */
  lemma RangeWithoutPm(s: string, i: int, seg: string, m: RangeMatch)
    requires 0 <= i < 7 && IsDaySegment(s, DayNames[i], seg)
    requires !Contains(IgnoreCase, seg, "closed") && !Contains(IgnoreCase, seg, "PM")
    requires FirstMatch(seg) == Some(m)
    ensures Parse(Text(s))[i] == DayRecord(DayNames[i], DayNames[i],
      TwoDigitHour(StartHour(seg, m)) + ":" + StartMinute(seg, m),
      TwoDigitHour(EndHour(seg, m)) + ":" + EndMinute(seg, m),
      true)
  {
    DaySegmentUnique(s, DayNames[i], seg);
    assert s != "";
    ParseWithDay(AsWritten, s, i);
    ParseDayWithoutPm(s, DayNames[i], seg, m);
  }

  lemma DefaultTimesWellFormed()
    ensures forall d :: d in DefaultWorkingHours ==> IsClockText(d.startTime) && IsClockText(d.endTime)
  {
    assert IsClockText("09:00") && IsClockText("17:00") && IsClockText("10:00") && IsClockText("14:00");
    assert IsClockText("00:00");
  }

  lemma MatchedTimesWellFormed(rule: HourRule, line: string, m: RangeMatch)
    requires MatchAt(line, m.at) == Some(m)
    ensures IsClockText(FormatTime(StartHourValue(rule, line, m), StartMinute(line, m)))
    ensures IsClockText(FormatTime(EndHourValue(rule, line, m), EndMinute(line, m)))
  {
    ShortDecimal(StartHour(line, m));
    ShortDecimal(EndHour(line, m));
    FormatTimeShape(StartHourValue(rule, line, m), StartMinute(line, m));
    FormatTimeShape(EndHourValue(rule, line, m), EndMinute(line, m));
  }

  lemma ParseDayTimesWellFormed(rule: HourRule, s: string, day: string)
    ensures IsClockText(ParseDay(rule, s, day).startTime) && IsClockText(ParseDay(rule, s, day).endTime)
  {
    DefaultTimesWellFormed();
    var seg := DaySegment(s, day);
    if seg.Some? && !Test(IgnoreCase, seg.value, "closed") && FirstMatch(seg.value).Some? {
      MatchedTimesWellFormed(rule, seg.value, FirstMatch(seg.value).value);
    }
  }

  /** Every time the parser emits, under either rule, is "HH:MM". */
  lemma TimesWellFormed(rule: HourRule, input: Input, i: int)
    requires 0 <= i < 7
    ensures IsClockText(ParseWith(rule, input)[i].startTime)
    ensures IsClockText(ParseWith(rule, input)[i].endTime)
  {
    if input.Text? && input.s != "" {
      ParseWithDay(rule, input.s, i);
      ParseDayTimesWellFormed(rule, input.s, DayNames[i]);
    } else {
      DefaultTimesWellFormed();
    }
  }

  /** A day whose segment is not closed and holds a range is open, its minutes
      are copied, and each hour is either the captured one or that plus 12,
      the latter only below 12, only with "PM" in the segment, and only when
      the first "AM" (start) or "PM" (end), in upper case, comes after the
      first occurrence of the hour's own decimal text. */
  lemma MatchedDayAdjustment(s: string, i: int, seg: string, m: RangeMatch)
    requires 0 <= i < 7 && IsDaySegment(s, DayNames[i], seg) && !Contains(IgnoreCase, seg, "closed")
    requires FirstMatch(seg) == Some(m)
    ensures var r := Parse(Text(s))[i];
      var h := ParseDecimal(StartHour(seg, m));
      r.isOpen && IsClockText(r.startTime) && r.startTime[3..] == StartMinute(seg, m)
      && (ClockHour(r.startTime) == h || (h < 12 && ClockHour(r.startTime) == h + 12))
      && (ClockHour(r.startTime) != h ==>
            Contains(IgnoreCase, seg, "PM") && IndexOf(Exact, seg, "AM") > IndexOf(Exact, seg, ToDecimal(h)))
      && (Contains(IgnoreCase, seg, "PM") && h < 12 && IndexOf(Exact, seg, "AM") > IndexOf(Exact, seg, ToDecimal(h)) ==>
            ClockHour(r.startTime) == h + 12)
    ensures var r := Parse(Text(s))[i];
      var h := ParseDecimal(EndHour(seg, m));
      IsClockText(r.endTime) && r.endTime[3..] == EndMinute(seg, m)
      && (ClockHour(r.endTime) == h || (h < 12 && ClockHour(r.endTime) == h + 12))
      && (ClockHour(r.endTime) != h ==>
            Contains(IgnoreCase, seg, "PM") && IndexOf(Exact, seg, "PM") > IndexOf(Exact, seg, ToDecimal(h)))
      && (Contains(IgnoreCase, seg, "PM") && h < 12 && IndexOf(Exact, seg, "PM") > IndexOf(Exact, seg, ToDecimal(h)) ==>
            ClockHour(r.endTime) == h + 12)
  {
    DaySegmentUnique(s, DayNames[i], seg);
    assert s != "";
    ParseWithDay(AsWritten, s, i);
    ParseDayRange(AsWritten, s, DayNames[i], seg, m);
    ShortDecimal(StartHour(seg, m));
    ShortDecimal(EndHour(seg, m));
    FormatTimeShape(StartHourValue(AsWritten, seg, m), StartMinute(seg, m));
    FormatTimeShape(EndHourValue(AsWritten, seg, m), EndMinute(seg, m));
  }

  lemma IntendedHourValues(line: string, m: RangeMatch)
    requires MatchAt(line, m.at) == Some(m)
    ensures FollowsOwnMarker(ParseDecimal(StartHour(line, m)), MarkerAfter(line, StartTimeEnd(line, m)),
      StartHourValue(OwnMarker, line, m))
    ensures FollowsOwnMarker(ParseDecimal(EndHour(line, m)), MarkerAfter(line, EndTimeEnd(line, m)),
      EndHourValue(OwnMarker, line, m))
  {
  }

  /** Under the corrected rule each hour follows the marker written right
      after its own time: "PM" below 12 adds 12, "AM" at 12 gives 0, and
      otherwise the captured hour stays; the minutes are copied and the day is
      open. */
  lemma IntendedDayHours(s: string, i: int, seg: string, m: RangeMatch)
    requires 0 <= i < 7 && IsDaySegment(s, DayNames[i], seg) && !Contains(IgnoreCase, seg, "closed")
    requires FirstMatch(seg) == Some(m)
    ensures var r := ParseIntended(Text(s))[i];
      r.isOpen && IsClockText(r.startTime) && r.startTime[3..] == StartMinute(seg, m)
      && FollowsOwnMarker(ParseDecimal(StartHour(seg, m)), MarkerAfter(seg, StartTimeEnd(seg, m)), ClockHour(r.startTime))
    ensures var r := ParseIntended(Text(s))[i];
      IsClockText(r.endTime) && r.endTime[3..] == EndMinute(seg, m)
      && FollowsOwnMarker(ParseDecimal(EndHour(seg, m)), MarkerAfter(seg, EndTimeEnd(seg, m)), ClockHour(r.endTime))
  {
    DaySegmentUnique(s, DayNames[i], seg);
    assert s != "";
    ParseWithDay(OwnMarker, s, i);
    ParseDayRange(OwnMarker, s, DayNames[i], seg, m);
    IntendedHourValues(seg, m);
    FormatTimeShape(StartHourValue(OwnMarker, seg, m), StartMinute(seg, m));
    FormatTimeShape(EndHourValue(OwnMarker, seg, m), EndMinute(seg, m));
  }
}
