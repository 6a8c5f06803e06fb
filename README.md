# Settings-page helpers of the Letsheat admin front end

This project models the pure logic of the admin settings page
(`app/admin/settings/page.js`) and proves properties of it. There are three parts.

- **The working-hours parser** (`parseWorkingHoursString`). It turns a
  free-text "business hours" string into seven day records, Monday to Sunday.
  Each record has `day`, `title`, `startTime`, `endTime` and `isOpen`.
  - A day's segment runs from the first case-insensitive occurrence of its
    name up to the next line feed.
  - "closed" in the segment, in any case, closes the day.
  - Otherwise the segment is searched for a time range: two `H:MM`/`HH:MM`
    times around a hyphen, each optionally followed by AM/PM.
  - The hours then go through the page's 12-hour adjustment and are padded to
    two digits.
  - Everything else falls back to the default table.
- **The link editors.** They add or remove a link in a footer column, and add
  or remove a child link of a navigation link, keeping its `hasChildren` mark.
  It also covers the "new column" and "new main link" appenders.
- **`classNames`.**

Modules:

- `Wrappers`: the Option type.
- `JsText`: the parts of JavaScript's string library the parser uses:
  - `indexOf` and regex `test`, with and without the `i` flag;
  - `[^\n]*`;
  - `String(n)`, `parseInt` and `padStart`.
- `TimeRange`: the time-range regular expression, written out as a matcher.
  `MatchAtCorrect` proves it equal to a declarative reading of the pattern.
- `WorkingHours`: the parser and its properties.
- `WorkingHoursExamples`: worked inputs.
- `SettingsLinks`: the link editors and `classNames`.

The parser is written once, as `ParseWith(rule, input)`, and takes one of two
hour rules:

- **`Parse`** uses `AsWritten`, the adjustment exactly as the code states it.
- **`ParseIntended`** uses `OwnMarker`, in which each time follows the AM/PM
  marker written after it (see Findings).

Two points of `page.js` are easy to misread, and the model follows the code in
both:

- **The adjustment rule** (lines 99-106):
  - it applies only when the line contains "pm" in any case;
  - it adds 12 to a start hour below 12 when `line.indexOf('AM') > line.indexOf(startHour)`, where the number is searched for as its decimal text;
  - it adds 12 to an end hour below 12 when the same test holds with `'PM'`;
  - both `indexOf` calls are case-sensitive.
  It looks at the first marker in the line, not at the marker written after
  each time.
- **A day's segment runs to the end of its line** (lines 70-75). For
  "Saturday: 10:00 - 14:00, Sunday: Closed", Saturday's segment contains
  "Closed", so Saturday comes out closed. This is proved in
  `WorkingHoursExamples.SaturdayTakesSundaysClosed`, on the same text without
  the first colon.

## Model

| member | source | states |
|---|---|---|
| JsText.IndexOfFrom | app/admin/settings/page.js:100 | the result is the leftmost occurrence at or after the start position, or -1 when there is none |
| JsText.SameCharIgnoreCase | app/admin/settings/page.js:70-75 | under the `i` flag two characters match exactly when they are equal or are one ASCII letter in its two cases |
| JsText.IndexOf | app/admin/settings/page.js:100-103 | `indexOf`: -1 exactly when the pattern does not occur, otherwise its first occurrence |
| JsText.Test | app/admin/settings/page.js:75 | a regex `test` of a fixed word is true exactly when the word occurs |
| JsText.FirstOccurrenceUnique | app/admin/settings/page.js:71 | the first occurrence of a pattern is unique |
| JsText.IndexOfAt | app/admin/settings/page.js:100 | an occurrence with no earlier character that matches the pattern's first character is what `indexOf` returns |
| JsText.AbsentFirstChar | app/admin/settings/page.js:75 | a pattern whose first character matches nothing in the text does not occur in it |
| JsText.LineEnd | app/admin/settings/page.js:70 | `[^\n]*` stops at the first line feed at or after the start, or at the end, and crosses no line feed |
| JsText.LineEndIsLine | app/admin/settings/page.js:70-74 | the text from a position to LineEnd is that position's line |
| JsText.LineEndAt | app/admin/settings/page.js:70 | a stretch without a line feed that ends at one, or at the end, is exactly where LineEnd stops |
| JsText.LineFromUnique | app/admin/settings/page.js:70 | a position has one line |
| JsText.DigitValue | app/admin/settings/page.js:95 | a digit's value is below 10 and is written back as the same digit |
| JsText.DigitIsNotSpace | app/admin/settings/page.js:88 | `\d` and `\s` share no character, so the spaces around a time never swallow a digit |
| JsText.ToDecimal | app/admin/settings/page.js:108-110 | `String(n)` is one or more digits, and has no leading zero unless it is "0" |
| JsText.ParseToDecimal | app/admin/settings/page.js:95-110 | `parseInt(String(n)) == n` |
| JsText.ParseDecimal | app/admin/settings/page.js:95-96 | `parseInt` of digits with a non-zero first digit is at least 1 |
| JsText.DecimalOfParse | app/admin/settings/page.js:95-110 | `String(parseInt(s)) == s` for digits without a leading zero, the other half of the round trip |
| JsText.TwoDigitValue | app/admin/settings/page.js:95 | the value of two digits is ten times the first plus the second |
| JsText.TwoDigitDecimal | app/admin/settings/page.js:109 | a number from 10 to 99 is written as its two digits |
| JsText.ShortDecimalLength | app/admin/settings/page.js:109 | a number up to 99 is written with at most two digits |
| JsText.PadOneDigit | app/admin/settings/page.js:109 | `padStart(2, '0')` puts a '0' before one digit |
| JsText.ShortDecimal | app/admin/settings/page.js:95-110 | for one or two captured digits, `parseInt` gives at most 99, and `padStart(2,'0')` of its `toString()` is the text with a '0' before a single digit, and unchanged for two digits |
| JsText.LeadingZeroDecimal | app/admin/settings/page.js:95-110 | a captured "0d" comes back as "0d" after `parseInt`, `toString` and `padStart` |
| JsText.Repeat | app/admin/settings/page.js:109 | the fill has the requested length and is all the fill character |
| JsText.PadStart | app/admin/settings/page.js:109-110 | a text at least as wide as the width is unchanged; otherwise the result has the width, ends with the text and begins with fill characters |
| TimeRange.MeridiemStartsWithLetter | app/admin/settings/page.js:88 | an AM/PM marker starts with A or P in either case |
| TimeRange.SkipSpaces | app/admin/settings/page.js:88 | greedy `\s*` consumes only white space and stops before a non-space or at the end |
| TimeRange.SkipSpacesUnique | app/admin/settings/page.js:88 | a run of white space ending at a non-space is exactly what SkipSpaces consumes |
| TimeRange.HourDigits | app/admin/settings/page.js:88 | greedy `\d{1,2}:\d{2}`: two hour digits when they fit, else one, else no time |
| TimeRange.HourDigitsComplete | app/admin/settings/page.js:88 | any time at a position is the one HourDigits finds there |
| TimeRange.HyphenPos | app/admin/settings/page.js:88 | the hyphen is looked for at or after the separator start |
| TimeRange.SeparatorEnd | app/admin/settings/page.js:88 | the separator (optional spaces and AM or PM, then a hyphen between optional spaces) ends after its start and before a non-space |
| TimeRange.SeparatorEndSound | app/admin/settings/page.js:88 | what SeparatorEnd finds is a separator |
| TimeRange.HyphenPosComplete | app/admin/settings/page.js:88 | the hyphen of any separator is where HyphenPos looks |
| TimeRange.SeparatorEndComplete | app/admin/settings/page.js:88 | any separator followed by a non-space is the one SeparatorEnd finds |
| TimeRange.MatchAt | app/admin/settings/page.js:88 | a match found at a position starts there; nothing matches past the end |
| TimeRange.MatchAtSound | app/admin/settings/page.js:88 | what MatchAt returns is a match of the pattern |
| TimeRange.MatchAtComplete | app/admin/settings/page.js:88 | every match of the pattern at a position is what MatchAt returns |
| TimeRange.MatchAtCorrect | app/admin/settings/page.js:88 | MatchAt returns a layout exactly when the pattern, read declaratively, matches with that layout |
| TimeRange.FirstMatchFrom | app/admin/settings/page.js:89 | a result is a match that MatchAt finds at a position at or after the start |
| TimeRange.NoMatchBeforeFirst | app/admin/settings/page.js:89 | no match starts between the start and the match FirstMatchFrom returns, nor anywhere after the start when it returns none |
| TimeRange.FirstMatch | app/admin/settings/page.js:89 | `line.match(timeRegex)`: the leftmost match, or none when no position matches |
| TimeRange.FirstMatchIsLeftmost | app/admin/settings/page.js:89 | FirstMatch is a match of the pattern and no match starts further left; none means the pattern matches nowhere |
| TimeRange.StartHour | app/admin/settings/page.js:92 | the first capture group is one or two digits |
| TimeRange.StartMinute | app/admin/settings/page.js:92 | the second capture group is two digits |
| TimeRange.EndHour | app/admin/settings/page.js:92 | the third capture group is one or two digits |
| TimeRange.EndMinute | app/admin/settings/page.js:92 | the fourth capture group is two digits |
| TimeRange.StartTimeEnd | app/admin/settings/page.js:88 | the start time ends inside the line |
| TimeRange.EndTimeEnd | app/admin/settings/page.js:88 | the end time ends inside the line |
| WorkingHours.FindDay | app/admin/settings/page.js:67 | `find`: the first record with that day, or none when no record has it |
| WorkingHours.DefaultFound | app/admin/settings/page.js:67-129 | each day's default record is found by its name in the default table, so the fallback record built after it is never used |
| WorkingHours.DaySegment | app/admin/settings/page.js:70-74 | none exactly when the day name does not occur in any case; otherwise the line from its first occurrence |
| WorkingHours.DaySegmentUnique | app/admin/settings/page.js:70-74 | any text that is the day's segment is what DaySegment returns |
| WorkingHours.AdjustHour | app/admin/settings/page.js:99-106 | the hour is raised by exactly 12 if and only if the line contains "pm" in any case, the hour is below 12, and the first upper-case marker ("AM" for the start, "PM" for the end) comes after the first occurrence of the hour's digits; otherwise it is kept |
| WorkingHours.MarkerAfter | app/admin/settings/page.js:88 | after the optional spaces that follow a time: AM exactly when "AM" stands there in either case, PM exactly when "PM" does, and none exactly when neither does |
| WorkingHours.ToTwentyFour | app/admin/settings/page.js:94-106 | corrected rule: PM below 12 adds 12, 12 AM is 0, and every other hour and marker keeps the hour |
| WorkingHours.StartHourValue | app/admin/settings/page.js:95-102 | the start hour after either rule is at most 99 |
| WorkingHours.EndHourValue | app/admin/settings/page.js:96-105 | the end hour after either rule is at most 99 |
| WorkingHours.FormatTimeShape | app/admin/settings/page.js:108-110 | for an hour up to 99 and a two-digit minute, the text is "HH:MM", shows that hour and keeps the minute text |
| WorkingHours.FormatTime | app/admin/settings/page.js:109-110 | for an hour below 100: two digits, a colon, then the minute text unchanged |
| WorkingHours.ParseDay | app/admin/settings/page.js:66-130 | every record carries its own day as `day` and `title` |
| WorkingHours.ParseWith | app/admin/settings/page.js:50-133 | seven records, Monday to Sunday in order, with `title == day`; the default table for a non-string or empty input |
| WorkingHours.Parse | app/admin/settings/page.js:50-133 | parseWorkingHoursString as written: seven records in day order, and the default table for a non-string or empty input |
| WorkingHours.ParseIntended | app/admin/settings/page.js:50-133 | the same shape, under the corrected hour rule |
| WorkingHours.AbsentDayIsDefault | app/admin/settings/page.js:73-129 | a day whose name does not occur in any case gets its default record |
| WorkingHours.ClosedWins | app/admin/settings/page.js:75-85 | "closed" in the day's segment, in any case, gives the closed 00:00-00:00 record, even if the segment holds a range |
| WorkingHours.NoRangeIsDefault | app/admin/settings/page.js:89-129 | a segment with neither "closed" nor a match of the time pattern gives the default record |
| WorkingHours.LeftmostMatchIsFirst | app/admin/settings/page.js:89 | a match with none further left is what `line.match` returns |
| WorkingHours.FormatCapturedHour | app/admin/settings/page.js:95-110 | a captured hour that goes through `parseInt` and `padStart` unadjusted comes back as its digits, zero-padded to two |
| WorkingHours.NoPmNoAdjustment | app/admin/settings/page.js:99 | without "pm" in the line, in any case, neither hour is adjusted |
| WorkingHours.ParseDayWithoutPm | app/admin/settings/page.js:91-118 | without "closed" and "pm", the day's record is open and copies the captures, with hours padded to two digits |
| WorkingHours.RangeWithoutPm | app/admin/settings/page.js:91-118 | the same, stated for the day's record in the schedule |
| WorkingHours.MatchedDayAdjustment | app/admin/settings/page.js:95-118 | a day with a range is open and "HH:MM" with its minutes copied; each hour is the captured one plus 12 if and only if "pm" is in the line, the hour is below 12 and the first "AM" (start) or "PM" (end) comes after the first occurrence of the hour's digits, and is the captured one otherwise |
| WorkingHours.IntendedHourValues | app/admin/settings/page.js:94-106 | under the corrected rule each hour follows the marker after its own time |
| WorkingHours.IntendedDayHours | app/admin/settings/page.js:94-118 | with the corrected rule, a day with a range is open, copies its minutes, and has each hour set by the marker after that time |
| WorkingHours.DefaultTimesWellFormed | app/admin/settings/page.js:52-58 | every default time is "HH:MM" |
| WorkingHours.MatchedTimesWellFormed | app/admin/settings/page.js:108-110 | the adjusted times of a match are "HH:MM" under either rule |
| WorkingHours.ParseDayTimesWellFormed | app/admin/settings/page.js:66-130 | every day record's times are "HH:MM" |
| WorkingHours.TimesWellFormed | app/admin/settings/page.js:50-133 | every time in the schedule is "HH:MM", for every input and either rule |
| WorkingHoursExamples.MondayClosed | app/admin/settings/page.js:75-85 | "Monday: Closed" closes Monday |
| WorkingHoursExamples.SaturdayTakesSundaysClosed | app/admin/settings/page.js:70-85 | "Saturday 10:00 - 14:00, Sunday: Closed" closes Saturday |
| WorkingHoursExamples.TwoLinesMonday | app/admin/settings/page.js:70-118 | "Monday 09:00 - 17:00\nTuesday 10:00 - 15:00" opens Monday 09:00-17:00 |
| WorkingHoursExamples.TwoLinesTuesday | app/admin/settings/page.js:70-118 | the same input opens Tuesday 10:00-15:00, from its own line |
| WorkingHoursExamples.PlainLineRecord | app/admin/settings/page.js:88-118 | a segment "<name> HH:MM - HH:MM" with no "closed" or "PM" gives both times as they stand |
| WorkingHoursExamples.MorningStartMisread | app/admin/settings/page.js:99-102 | as written, "Monday 9:00 AM - 5:00 PM" gives Monday 21:00-17:00 |
| WorkingHoursExamples.MorningStartIntended | app/admin/settings/page.js:94-106 | with the corrected rule the same line gives Monday 09:00-17:00 |
| SettingsLinks.WithoutIndex | app/admin/settings/page.js:504 | `filter((_, i) => i !== k)` is the list with the element at `k` cut out, and the list itself when `k` is out of range |
| SettingsLinks.WithoutIndexElements | app/admin/settings/page.js:504 | one element fewer; elements before `k` stay in place and the later ones move up by one |
| SettingsLinks.AddFooterColumn | app/admin/settings/page.js:489-493 | the columns are kept and a "New Column" with one blank link is appended |
| SettingsLinks.AddFooterLink | app/admin/settings/page.js:495-500 | the heading is kept, the old links are kept in order, and one blank link is appended |
| SettingsLinks.RemoveFooterLink | app/admin/settings/page.js:502-507 | no result, where the original throws on `filter`, exactly when the links are undefined; otherwise the heading is kept and the links lose the element at the index |
| SettingsLinks.RemoveAddedFooterLink | app/admin/settings/page.js:495-507 | adding a link and removing the last one gives back the column's links |
| SettingsLinks.RemoveFooterLinkLength | app/admin/settings/page.js:502-507 | an index in range removes exactly one link; one out of range removes nothing |
| SettingsLinks.AddMainLink | app/admin/settings/page.js:1597-1604 | the links are kept and one link with no children is appended |
| SettingsLinks.AddChildLink | app/admin/settings/page.js:1606-1618 | title and href are kept, the old children in order plus the new child link, and the mark set |
| SettingsLinks.RemoveChildLink | app/admin/settings/page.js:1621-1630 | no result, where the original throws on `filter`, exactly when the children are undefined; otherwise the child at the index is cut out, and the mark stays only if it was set and children remain |
| SettingsLinks.AddChildMarkAgrees | app/admin/settings/page.js:1617-1618 | after an add, the mark agrees with the children |
| SettingsLinks.RemoveChildKeepsMark | app/admin/settings/page.js:1621-1630 | a remove keeps an agreeing mark agreeing |
| SettingsLinks.RemoveOnlyChild | app/admin/settings/page.js:1623-1629 | removing the only child leaves no children and clears the mark |
| SettingsLinks.RemoveAddedChild | app/admin/settings/page.js:1606-1630 | adding and then removing the last child gives back the children; the mark is set again exactly when children were there before |
| SettingsLinks.KeptClasses | app/admin/settings/page.js:166 | `filter(Boolean)` keeps every non-empty string argument and nothing else, and never more than there are arguments |
| SettingsLinks.Split | app/admin/settings/page.js:166 | splitting gives at least one piece |
| SettingsLinks.KeptSingle | app/admin/settings/page.js:166 | `filter(Boolean)` of one argument keeps it exactly when it is a non-empty string |
| SettingsLinks.KeptConcat | app/admin/settings/page.js:166 | `filter` goes argument by argument: the names kept from two argument lists, in order, are those of the first then those of the second |
| SettingsLinks.Join | app/admin/settings/page.js:166 | `join` is empty exactly when there is no part or a single empty part, and begins with the first part |
| SettingsLinks.ClassNames | app/admin/settings/page.js:165-167 | the class string is empty exactly when no argument is a non-empty string |
| SettingsLinks.SplitPiece | app/admin/settings/page.js:166 | a text without a separator splits into itself |
| SettingsLinks.SplitAfterPiece | app/admin/settings/page.js:166 | a piece, then a separator, then the rest splits into the piece followed by the split of the rest |
| SettingsLinks.SplitJoin | app/admin/settings/page.js:166 | splitting a `join` on its separator gives back the pieces, when there is at least one and none contains the separator |
| SettingsLinks.ClassNamesSplit | app/admin/settings/page.js:165-167 | the class string holds the kept names in order, one space apart |

## Left out

- The React components, the form library (`watch`, `setValue`, `useFieldArray`), the HTTP calls, the Redux store and the icon map are not modelled. `EnhancedFileUpload` is not modelled either. They are rendering and I/O.
- `app/admin/pages/AdminPagesMain.jsx` and `app/loading.js` are not part of this model. They hold no logic.
- Looking up the column or parent link by index in the form store is not modelled. The editors take the record itself. A bad index, which would make the original throw on `undefined`, is therefore not represented.
- `{...currentColumn, links}` copies every field of the stored column, including any the form library adds. The model's column has only `heading` and `links`.
- Inputs that are not strings (null, undefined, numbers, objects) are one case, `NotAString`. The parser treats them all alike.
- Strings are sequences of Unicode characters; JavaScript indexes UTF-16 code units. The parser only compares `indexOf` results with each other and with -1. The mapping between the two kinds of index keeps that order, so the comparisons come out the same.
- Case-insensitive matching is folded on ASCII only. Every pattern the parser uses ("closed", "AM", "PM", the day names) is ASCII. Under the `i` flag, no non-ASCII character canonicalises to an ASCII letter, so this is exact for these patterns.
- `SettingsLinks.ClassNames`: truthy arguments that are not strings (numbers, `true`, objects) are left out; only strings and falsy values are modelled.
- The indices given to the remove editors are integers. A non-integer JavaScript number matches no index and removes nothing, the same as an out-of-range integer.

## Findings

| source | as written | input that shows it | evidently intended | confidence | as-written member | corrected member |
|---|---|---|---|---|---|---|
| app/admin/settings/page.js:99-102 | a start hour below 12 gets +12 when the line contains "pm" anywhere and the first "AM" comes after the first occurrence of the hour's digits, so a morning start is pushed into the evening | "Monday 9:00 AM - 5:00 PM": "AM" at index 12 lies after "9" at index 7, and Monday comes out 21:00-17:00 | each time follows its own trailing marker, as the format "9:00 AM - 5:00 PM" in the comment at line 87 suggests: Monday 09:00-17:00 | high; not executed | WorkingHoursExamples.MorningStartMisread | WorkingHours.ParseIntended (its hour rule is proved in WorkingHours.IntendedDayHours; on this input, WorkingHoursExamples.MorningStartIntended) |
