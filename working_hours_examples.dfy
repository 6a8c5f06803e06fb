/** Worked inputs for the working-hours parser, each proved from the general
    lemmas of WorkingHours. */
module WorkingHoursExamples {
  import opened Wrappers
  import opened JsText
  import opened TimeRange
  import opened WorkingHours

  /** `day` starts `s`, and `s` is one line: the whole of `s` is the day's
      segment. */
  lemma WholeLineSegment(s: string, day: string)
    requires OccursAt(IgnoreCase, s, day, 0) && '\n' !in s
    ensures IsDaySegment(s, day, s)
  {
    assert IsFirstOccurrence(IgnoreCase, s, day, 0);
    LineEndIsLine(s, 0);
    assert s[0..|s|] == s;
    LineEndAt(s, 0, |s|);
  }

  /** No match of the time pattern starts before `p` when no digit does. */
  lemma NoMatchBefore(seg: string, p: nat)
    requires p <= |seg| && forall c | c in seg[..p] :: !IsDigit(c)
    ensures forall q: nat, m' :: q < p ==> !MatchesPatternAt(seg, q, m')
  {
    forall q: nat, m' | q < p ensures !MatchesPatternAt(seg, q, m') {
      assert seg[q] in seg[..p];
    }
  }

  const ClosedLine := "Monday: Closed"

  lemma ClosedLineFacts()
    ensures IsDaySegment(ClosedLine, "Monday", ClosedLine)
    ensures Contains(IgnoreCase, ClosedLine, "closed")
  {
    var s := ClosedLine;
    assert OccursAt(IgnoreCase, s, "Monday", 0);
    WholeLineSegment(s, "Monday");
    assert forall k :: 0 <= k < 6 ==> SameChar(IgnoreCase, s[8 + k], "closed"[k]);
    assert OccursAt(IgnoreCase, s, "closed", 8);
  }

  /** "Monday: Closed" closes Monday. */
  lemma MondayClosed()
    ensures Parse(Text(ClosedLine))[0] == DayRecord("Monday", "Monday", "00:00", "00:00", false)
  {
    ClosedLineFacts();
    ClosedWins(AsWritten, ClosedLine, 0, ClosedLine);
  }

  const WeekendLine := "Saturday 10:00 - 14:00, Sunday: Closed"

  lemma WeekendLineSegment()
    ensures IsDaySegment(WeekendLine, "Saturday", WeekendLine)
  {
    assert OccursAt(IgnoreCase, WeekendLine, "Saturday", 0);
    WholeLineSegment(WeekendLine, "Saturday");
  }

  lemma WeekendLineClosed()
    ensures Contains(IgnoreCase, WeekendLine, "closed")
  {
    assert forall k :: 0 <= k < 6 ==> SameChar(IgnoreCase, WeekendLine[32 + k], "closed"[k]);
    assert OccursAt(IgnoreCase, WeekendLine, "closed", 32);
  }

  /** Two days on one line: Saturday's segment runs to the end of the line and
      so takes in Sunday's "Closed", and Saturday comes out closed although it
      lists a range. */
  lemma SaturdayTakesSundaysClosed()
    ensures Parse(Text(WeekendLine))[5] == DayRecord("Saturday", "Saturday", "00:00", "00:00", false)
  {
    WeekendLineSegment();
    WeekendLineClosed();
    ClosedWins(AsWritten, WeekendLine, 5, WeekendLine);
  }

  /** `day` occurs first at `i`, and the line runs from there to `j`. */
  lemma SegmentBetween(s: string, day: string, i: nat, j: nat)
    requires 0 < |day| && OccursAt(IgnoreCase, s, day, i)
    requires forall c | c in s[..i] :: !SameChar(IgnoreCase, c, day[0])
    requires i <= j <= |s| && '\n' !in s[i..j] && (j < |s| ==> s[j] == '\n')
    ensures IsDaySegment(s, day, s[i..j])
  {
    IndexOfAt(IgnoreCase, s, day, i);
    LineEndIsLine(s, i);
    LineEndAt(s, i, j);
  }

  /** The leftmost range of a line "<day> HH:MM - HH:MM" with no marker. */
  lemma PlainRange(seg: string, p: nat)
    requires p + 13 == |seg| && forall c | c in seg[..p] :: !IsDigit(c)
    requires TimeTextAt(seg, p, 2) && seg[p + 5] == ' ' && seg[p + 6] == '-' && seg[p + 7] == ' '
    requires TimeTextAt(seg, p + 8, 2)
    ensures FirstMatch(seg) == Some(RangeMatch(p, 2, p + 8, 2))
  {
    var m := RangeMatch(p, 2, p + 8, 2);
    assert SeparatorSplit(seg, p + 5, p + 5, p + 5, p + 6, p + 8);
    assert MatchesPatternAt(seg, p, m);
    NoMatchBefore(seg, p);
    LeftmostMatchIsFirst(seg, m);
  }

  /** A day line "<name> HH:MM - HH:MM" without "closed" or "PM": both times
      are copied as they stand. */
  lemma PlainLineRecord(s: string, i: int, seg: string, p: nat)
    requires 0 <= i < 7 && IsDaySegment(s, DayNames[i], seg)
    requires forall c | c in seg :: !SameChar(IgnoreCase, c, 'c')
    requires forall c | c in seg :: !SameChar(IgnoreCase, c, 'P')
    requires p + 13 == |seg| && forall c | c in seg[..p] :: !IsDigit(c)
    requires TimeTextAt(seg, p, 2) && TimeTextAt(seg, p + 8, 2)
    requires seg[p + 5] == ' ' && seg[p + 6] == '-' && seg[p + 7] == ' '
    ensures Parse(Text(s))[i] == DayRecord(DayNames[i], DayNames[i], seg[p..p + 5], seg[p + 8..p + 13], true)
  {
    var m := RangeMatch(p, 2, p + 8, 2);
    assert !Contains(IgnoreCase, seg, "closed") && !Contains(IgnoreCase, seg, "PM") by {
      AbsentFirstChar(IgnoreCase, seg, "closed");
      AbsentFirstChar(IgnoreCase, seg, "PM");
    }
    assert FirstMatch(seg) == Some(m) by {
      PlainRange(seg, p);
    }
    RangeWithoutPm(s, i, seg, m);
    PlainCaptures(seg, p);
  }

  /** The captures of the range at `p` put back together are the two times. */
  lemma PlainCaptures(seg: string, p: nat)
    requires FirstMatch(seg) == Some(RangeMatch(p, 2, p + 8, 2))
    ensures var m := RangeMatch(p, 2, p + 8, 2);
      TwoDigitHour(StartHour(seg, m)) + ":" + StartMinute(seg, m) == seg[p..p + 5]
      && TwoDigitHour(EndHour(seg, m)) + ":" + EndMinute(seg, m) == seg[p + 8..p + 13]
  {
    var m := RangeMatch(p, 2, p + 8, 2);
    assert MatchAt(seg, p) == Some(m);
    ClockCopied(seg, p);
    ClockCopied(seg, p + 8);
  }

  /** PlainLineRecord with the day name and the two times given by value. */
  lemma PlainDay(s: string, i: int, seg: string, p: nat, day: string, start: string, end: string)
    requires 0 <= i < 7 && DayNames[i] == day && IsDaySegment(s, day, seg)
    requires forall c | c in seg :: !SameChar(IgnoreCase, c, 'c')
    requires forall c | c in seg :: !SameChar(IgnoreCase, c, 'P')
    requires p + 13 == |seg| && forall c | c in seg[..p] :: !IsDigit(c)
    requires TimeTextAt(seg, p, 2) && TimeTextAt(seg, p + 8, 2)
    requires seg[p + 5] == ' ' && seg[p + 6] == '-' && seg[p + 7] == ' '
    requires seg[p..p + 5] == start && seg[p + 8..p + 13] == end
    ensures Parse(Text(s))[i] == DayRecord(day, day, start, end, true)
  {
    PlainLineRecord(s, i, seg, p);
  }

  /** A two-digit "HH:MM" at `p` is copied as it stands. */
  lemma ClockCopied(seg: string, p: nat)
    requires TimeTextAt(seg, p, 2)
    ensures TwoDigitHour(seg[p..p + 2]) + ":" + seg[p + 3..p + 5] == seg[p..p + 5]
  {
  }

  const TwoLines := "Monday 09:00 - 17:00\nTuesday 10:00 - 15:00"

  lemma MondaySegment()
    ensures IsDaySegment(TwoLines, "Monday", "Monday 09:00 - 17:00")
  {
    MondayOccurs();
    MondayLine();
    SegmentBetween(TwoLines, "Monday", 0, 20);
  }

  lemma MondayOccurs()
    ensures OccursAt(IgnoreCase, TwoLines, "Monday", 0) && TwoLines[..0] == []
  {
    assert forall k :: 0 <= k < 6 ==> SameChar(IgnoreCase, TwoLines[k], "Monday"[k]);
  }

  lemma MondayLine()
    ensures TwoLines[0..20] == "Monday 09:00 - 17:00" && '\n' !in TwoLines[0..20] && TwoLines[20] == '\n'
  {
    assert TwoLines[0..20] == "Monday 09:00 - 17:00";
  }

  lemma TuesdaySegment()
    ensures IsDaySegment(TwoLines, "Tuesday", "Tuesday 10:00 - 15:00")
  {
    TuesdayOccurs();
    TuesdayIsFirst();
    TuesdayLine();
    SegmentBetween(TwoLines, "Tuesday", 21, 42);
  }

  lemma TuesdayOccurs()
    ensures OccursAt(IgnoreCase, TwoLines, "Tuesday", 21)
  {
    assert forall k :: 0 <= k < 7 ==> SameChar(IgnoreCase, TwoLines[21 + k], "Tuesday"[k]);
  }

  lemma TuesdayIsFirst()
    ensures forall c | c in TwoLines[..21] :: !SameChar(IgnoreCase, c, 'T')
  {
    assert TwoLines[..21] == "Monday 09:00 - 17:00\n";
  }

  lemma TuesdayLine()
    ensures TwoLines[21..42] == "Tuesday 10:00 - 15:00" && '\n' !in TwoLines[21..42] && |TwoLines| == 42
  {
    assert TwoLines[21..42] == "Tuesday 10:00 - 15:00";
  }

  lemma MondayLineLetters()
    ensures forall c | c in "Monday 09:00 - 17:00" :: !SameChar(IgnoreCase, c, 'c')
    ensures forall c | c in "Monday 09:00 - 17:00" :: !SameChar(IgnoreCase, c, 'P')
  {
  }

  lemma MondayLineDigits()
    ensures forall c | c in "Monday 09:00 - 17:00"[..7] :: !IsDigit(c)
    ensures TimeTextAt("Monday 09:00 - 17:00", 7, 2) && TimeTextAt("Monday 09:00 - 17:00", 15, 2)
  {
    assert "Monday 09:00 - 17:00"[..7] == "Monday ";
  }

  lemma TuesdayLineLetters()
    ensures forall c | c in "Tuesday 10:00 - 15:00" :: !SameChar(IgnoreCase, c, 'c')
    ensures forall c | c in "Tuesday 10:00 - 15:00" :: !SameChar(IgnoreCase, c, 'P')
  {
  }

  lemma TuesdayLineDigits()
    ensures forall c | c in "Tuesday 10:00 - 15:00"[..8] :: !IsDigit(c)
    ensures TimeTextAt("Tuesday 10:00 - 15:00", 8, 2) && TimeTextAt("Tuesday 10:00 - 15:00", 16, 2)
  {
    assert "Tuesday 10:00 - 15:00"[..8] == "Tuesday ";
  }

  /** "Monday 09:00 - 17:00\nTuesday 10:00 - 15:00": each day reads its own
      line. */
  lemma TwoLinesMonday()
    ensures Parse(Text(TwoLines))[0] == DayRecord("Monday", "Monday", "09:00", "17:00", true)
  {
    var seg := "Monday 09:00 - 17:00";
    MondaySegment();
    MondayLineLetters();
    MondayLineDigits();
    MondayTimes();
    PlainDay(TwoLines, 0, seg, 7, "Monday", "09:00", "17:00");
  }

  lemma MondayTimes()
    ensures "Monday 09:00 - 17:00"[7..12] == "09:00" && "Monday 09:00 - 17:00"[15..20] == "17:00"
  {
  }

  lemma TwoLinesTuesday()
    ensures Parse(Text(TwoLines))[1] == DayRecord("Tuesday", "Tuesday", "10:00", "15:00", true)
  {
    var seg := "Tuesday 10:00 - 15:00";
    TuesdaySegment();
    TuesdayLineLetters();
    TuesdayLineDigits();
    TuesdayTimes();
    PlainDay(TwoLines, 1, seg, 8, "Tuesday", "10:00", "15:00");
  }

  lemma TuesdayTimes()
    ensures "Tuesday 10:00 - 15:00"[8..13] == "10:00" && "Tuesday 10:00 - 15:00"[16..21] == "15:00"
  {
  }

  /** A line in the 12-hour format the parser's own comment names. */
  const MarkedLine := "Monday 9:00 AM - 5:00 PM"

  const MarkedRange := RangeMatch(7, 1, 17, 1)

  lemma MarkedLineSegment()
    ensures IsDaySegment(MarkedLine, "Monday", MarkedLine)
  {
    assert OccursAt(IgnoreCase, MarkedLine, "Monday", 0);
    WholeLineSegment(MarkedLine, "Monday");
  }

  lemma MarkedLineLetters()
    ensures forall c | c in MarkedLine :: !SameChar(IgnoreCase, c, 'c')
  {
  }

  lemma MarkedLineOpen()
    ensures !Contains(IgnoreCase, MarkedLine, "closed")
  {
    MarkedLineLetters();
    AbsentFirstChar(IgnoreCase, MarkedLine, "closed");
  }

  lemma MarkedLinePrefix()
    ensures forall c | c in MarkedLine[..7] :: !IsDigit(c)
  {
    assert MarkedLine[..7] == "Monday ";
  }

  lemma MarkedLineTimes()
    ensures TimeTextAt(MarkedLine, 7, 1) && TimeTextAt(MarkedLine, 17, 1)
  {
  }

  lemma MarkedLineSeparator()
    ensures SeparatorSplit(MarkedLine, 11, 12, 14, 15, 17)
  {
    assert OccursAt(IgnoreCase, MarkedLine, "AM", 12);
    assert SpacesBetween(MarkedLine, 11, 12) && SpacesBetween(MarkedLine, 14, 15);
    assert SpacesBetween(MarkedLine, 16, 17);
  }

  lemma MarkedLineRange()
    ensures FirstMatch(MarkedLine) == Some(MarkedRange)
  {
    MarkedLinePrefix();
    MarkedLineTimes();
    MarkedLineSeparator();
    assert MatchesPatternAt(MarkedLine, 7, MarkedRange);
    NoMatchBefore(MarkedLine, 7);
    LeftmostMatchIsFirst(MarkedLine, MarkedRange);
  }

  lemma MarkedCaptures()
    ensures MatchAt(MarkedLine, 7) == Some(MarkedRange)
    ensures StartHour(MarkedLine, MarkedRange) == "9" && EndHour(MarkedLine, MarkedRange) == "5"
    ensures StartMinute(MarkedLine, MarkedRange) == "00" && EndMinute(MarkedLine, MarkedRange) == "00"
  {
    MarkedLineRange();
    MarkedSlices();
  }

  lemma MarkedSlices()
    ensures MarkedLine[7..8] == "9" && MarkedLine[17..18] == "5"
    ensures MarkedLine[9..11] == "00" && MarkedLine[19..21] == "00"
  {
  }

  /** The record of Monday under either rule, in terms of the hours the rule
      computes. */
  lemma MarkedLineRecord(rule: HourRule)
    ensures MatchAt(MarkedLine, 7) == Some(MarkedRange)
    ensures ParseWith(rule, Text(MarkedLine))[0] == DayRecord("Monday", "Monday",
      FormatTime(StartHourValue(rule, MarkedLine, MarkedRange), "00"),
      FormatTime(EndHourValue(rule, MarkedLine, MarkedRange), "00"),
      true)
  {
    MarkedLineSegment();
    MarkedLineOpen();
    MarkedLineRange();
    MarkedCaptures();
    DaySegmentUnique(MarkedLine, "Monday", MarkedLine);
    ParseWithDay(rule, MarkedLine, 0);
    ParseDayRange(rule, MarkedLine, "Monday", MarkedLine, MarkedRange);
  }

  /** The first upper-case "AM", "PM", "9" and "5" of the line. */
  lemma FirstAm()
    ensures IndexOf(Exact, MarkedLine, "AM") == 12
  {
    assert OccursAt(Exact, MarkedLine, "AM", 12);
    assert MarkedLine[..12] == "Monday 9:00 ";
    IndexOfAt(Exact, MarkedLine, "AM", 12);
  }

  lemma FirstPm()
    ensures IndexOf(Exact, MarkedLine, "PM") == 22 && Contains(IgnoreCase, MarkedLine, "PM")
  {
    assert OccursAt(Exact, MarkedLine, "PM", 22);
    assert OccursAt(IgnoreCase, MarkedLine, "PM", 22);
    assert MarkedLine[..22] == "Monday 9:00 AM - 5:00 ";
    IndexOfAt(Exact, MarkedLine, "PM", 22);
  }

  lemma FirstNine()
    ensures IndexOf(Exact, MarkedLine, ToDecimal(9)) == 7
  {
    assert ToDecimal(9) == "9";
    assert OccursAt(Exact, MarkedLine, "9", 7);
    assert MarkedLine[..7] == "Monday ";
    IndexOfAt(Exact, MarkedLine, "9", 7);
  }

  lemma FirstFive()
    ensures IndexOf(Exact, MarkedLine, ToDecimal(5)) == 17
  {
    assert ToDecimal(5) == "5";
    assert OccursAt(Exact, MarkedLine, "5", 17);
    assert MarkedLine[..17] == "Monday 9:00 AM - ";
    IndexOfAt(Exact, MarkedLine, "5", 17);
  }

  /** As written, the start hour 9 is moved to 21: the line has "PM", and its
      first "AM" (index 12) lies after its first "9" (index 7). */
  lemma MarkedLineAsWrittenHours()
    ensures MatchAt(MarkedLine, 7) == Some(MarkedRange)
    ensures StartHourValue(AsWritten, MarkedLine, MarkedRange) == 21
    ensures EndHourValue(AsWritten, MarkedLine, MarkedRange) == 17
  {
    MarkedCaptures();
    FirstAm();
    FirstPm();
    FirstNine();
    FirstFive();
  }

  lemma MarkerOfStart()
    ensures MarkerAfter(MarkedLine, 11) == Some(AM)
  {
    assert !IsSpace(MarkedLine[12]) && SpacesBetween(MarkedLine, 11, 12);
    SkipSpacesUnique(MarkedLine, 11, 12);
    assert OccursAt(IgnoreCase, MarkedLine, "AM", 12);
  }

  lemma MarkerOfEnd()
    ensures MarkerAfter(MarkedLine, 21) == Some(PM)
  {
    assert !IsSpace(MarkedLine[22]) && SpacesBetween(MarkedLine, 21, 22);
    SkipSpacesUnique(MarkedLine, 21, 22);
    assert !SameChar(IgnoreCase, MarkedLine[22 + 0], "AM"[0]);
    assert OccursAt(IgnoreCase, MarkedLine, "PM", 22);
  }

  /** Under the corrected rule "9:00 AM" stays 9 and "5:00 PM" becomes 17. */
  lemma MarkedLineIntendedHours()
    ensures MatchAt(MarkedLine, 7) == Some(MarkedRange)
    ensures StartHourValue(OwnMarker, MarkedLine, MarkedRange) == 9
    ensures EndHourValue(OwnMarker, MarkedLine, MarkedRange) == 17
  {
    MarkedCaptures();
    MarkerOfStart();
    MarkerOfEnd();
  }

  lemma FormatTwoDigits(a: nat, b: nat, minute: string)
    requires 1 <= a < 10 && b < 10
    ensures FormatTime(a * 10 + b, minute) == [DigitChar(a), DigitChar(b), ':'] + minute
  {
    TwoDigitDecimal(a, b);
  }

  lemma FormatOneDigit(d: nat, minute: string)
    requires d < 10
    ensures FormatTime(d, minute) == ['0', DigitChar(d), ':'] + minute
  {
    assert ToDecimal(d) == [DigitChar(d)];
    PadOneDigit(DigitChar(d));
  }

  lemma ClockTexts()
    ensures FormatTime(21, "00") == "21:00" && FormatTime(17, "00") == "17:00" && FormatTime(9, "00") == "09:00"
  {
    FormatTwoDigits(2, 1, "00");
    FormatTwoDigits(1, 7, "00");
    FormatOneDigit(9, "00");
  }

  /** As written, "Monday 9:00 AM - 5:00 PM" opens Monday at 21:00. */
  lemma MorningStartMisread()
    ensures Parse(Text(MarkedLine))[0] == DayRecord("Monday", "Monday", "21:00", "17:00", true)
  {
    MarkedLineRecord(AsWritten);
    MarkedLineAsWrittenHours();
    ClockTexts();
  }

  /** With each time read against its own marker, Monday runs 09:00-17:00. */
  lemma MorningStartIntended()
    ensures ParseIntended(Text(MarkedLine))[0] == DayRecord("Monday", "Monday", "09:00", "17:00", true)
  {
    MarkedLineRecord(OwnMarker);
    MarkedLineIntendedHours();
    ClockTexts();
  }
}
