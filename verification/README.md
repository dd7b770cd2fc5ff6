# A verified model of NWNX2's core logic

This project models the parts of NWNX2 whose correctness rests on arithmetic, on in-place
changes of memory or on the order of events, and proves what they promise:

- **Dates** (`src/ODBC2/sqlite/date.c`): the `DateTime` structure with its lazy `valid*` flags,
  the conversions between calendar dates and Julian day numbers, the parsers, the modifiers,
  `datetime()` and `strftime()`. `Gregorian` is an independent reference: the leap-year rule, the
  month lengths, and counting one day at a time from 0000-01-01. `JulianDay` and `DateTime` carry
  the formulas of the C code; `TimeOfDay`, `DateTextRoundTrip`, `ParsedInstants`, `ShiftLaws`,
  `MonthLaws`, `WeekdayLaws`, `StartOfLaws`, `ClockLaws`, `StrftimeLaws` and `StrftimeTexts` tie them to
  the reference, and `ModifierTexts` says which text asks for which modifier. `DateStamps` says what a
  structure can hold between two modifiers: an instant, or a date, a time or both read from a text that
  no instant has been computed from. The laws of the modifiers and conversions are about all of these.
  `DateFunctions` joins everything end to end.
- **Hooks** (`src/NWNXdll/hook_funcs.cpp`): patching a jump over a function and building the bridge
  back, on a flat memory of bytes with addresses modulo 2^32 (`HookFuncs`), and any sequence of
  such hooks (`HookHistory`).
- **Profiler** (`src/Profiler/hash.cpp`, `src/Profiler/HookRunScript.cpp`): the string hash
  (`JenkinsHash`), the chained table on the heap against a finite map (`HashTable`), the flat
  call-stack machine against the call tree (`CallProfile`), and the real hooks with their shared
  records (`Profiler`).
- **Name fixing** (`src/ODBC2/sqlite/attach.c`): the four mutually recursive walkers, which assign
  database names in place and stop at the first conflict (`FixPass`), and which references they reach
  (`FixCoverage`).
- **Launcher** (`src/NWNX2/cmdlineargs.h`, `src/NWNX2/NWNX2.cpp`, the watchdogs and the dialog's
  message handlers): the in-place tokenizer (`CmdLine`), the rewriting of the command line
  (`Launcher`), and the two watchdog threads with the dialog as interleaved steps (`Watchdogs`,
  `WatchdogRuns`).

Code that updates fields, arrays or linked nodes in place is modelled by classes and methods;
each method is proved against a function of the old state, and the lemmas are about those
functions. The watchdog threads are a transition system, one step per observable action.
`CInt`, `CText` and `Words` hold C's truncating division and casts, zero-terminated strings and
32-bit words. What the date functions ask of their surroundings, the clock, the value and length of
the number at the head of a text and the offset of local time, is a parameter (`DateText.Host`), and
the results hold whatever it answers.

## Where the code falls short

The model follows the code. Where the code does less than its comments say, the lemma or method named
here gives the exact condition, or an input or a run that shows it.

- `computeYMD` gives 0300-02-29 for 0300-03-01, and is right on every other day from 0000-01-01
  on: before year 400 the century quotient is negative and truncates toward zero
  (`JulianDay.BadDate`, `JulianDay.DateOfCountsDays`).
- The wrong day reaches further. `+1 month` and `-1 month` takes 0300-02-01, a day that every month has,
  to 0300-01-29 (`MonthLaws.MonthForthAndBackFails`), and `start of month` takes an instant on
  0300-03-01 to 0300-02-01 (`StartOfLaws.StartOfUnitOfInstant`). By how many days two month shifts miss
  the direct one, and when a shift forth and back cancels, is stated exactly for all stamps and shifts
  (`MonthLaws.MonthShiftsAdd`, `MonthLaws.MonthsForthAndBack`): apart from the two texts of that day and
  from 24:00, a shift is undone when the month between has the day.
- A text `YYYY-MM-DD` without a time prints through `datetime()` as noon, because `computeHMS`
  reads `rJD` without looking at `validJD` (`DateTextRoundTrip.DateOnlyPrintsNoon`). For the same reason
  `weekday` takes such a date to noon, and it drops the time zone of a text that has one: the same time
  of day is kept exactly by instants on the millisecond grid and by clock times without a zone
  (`WeekdayLaws.WeekdayStarts`).
- A text with a day past the month's end, or with 24:00, is printed by `datetime()` as it stands, and
  as the date it names after its instant was computed (`DateTextRoundTrip.DatetimeFixedPoint`). The
  modifiers do not all agree on that instant. A shift by months or years counts 24:00 twice: with
  `+0 months` the text 2000-01-01 24:00:00, which is 2 January, becomes 3 January
  (`MonthLaws.MonthShiftOfText`, `MonthLaws.MidnightCountsTwice`). `start of` goes by the date as it is
  written: 2001-02-30, which is 2 March, starts its month on 1 February
  (`StartOfLaws.StartOfUnitOfText`, `StartOfLaws.StartOfMonthFails`).
- `utc` undoes `localtime` only when local time is as far ahead at its first guess as at the instant
  (`ClockLaws.UtcUndoesLocaltime`); half an hour before the end of summer time it is not
  (`ClockLaws.UtcMissesLocaltime`).
- The modifier `+24:00` shifts by nothing (`ClockLaws.ClockShift`).
- `%s` is one second too large before 1970 (`StrftimeLaws.UnixSecondsPrinted`).
- `%j` is one day short for an instant that rounding to the millisecond moves forward, except on
  1 January, and for a time of 24:00 read from a text, where it can print `000`
  (`StrftimeLaws.DayOfYearPrinted`). `%W` is then one less in a year that starts with a Monday
  (`StrftimeLaws.WeekOfYearPrinted`).
- `%S` prints 60 in the last half second of a minute (`StrftimeLaws.SecondsPrinted`,
  `StrftimeLaws.SixtySeconds`); it is documented as 00 to 59.
- strftime prints a text with 24:00 as the next day at 24:00, which names the day after that. With
  `%Y-%m-%d %H:%M:%f` the printed text names the same instant exactly on the millisecond grid and before
  24:00 (`StrftimeTexts.InstantSurvivesPrinting`).
- `start of week` is documented at `src/ODBC2/sqlite/date.c:447` but is an error in the code
  (`StartOfLaws.StartOfWeekFails`).
- A bridge asks the heap for 15 bytes and writes 15 plus the alignment (`src/NWNXdll/hook_funcs.cpp:110-116`,
  `165`), so the request is enough exactly without alignment (`HookFuncs.RequestSuffices`). The hooks
  here require a block as long as what is written.
- The hash adds the number of bytes left, not the length of the key, in `c += len`
  (`src/Profiler/hash.cpp:115`, `JenkinsHash.AddTail`). `insert` returns the new data, not NULL, for a new key
  (`src/Profiler/hash.cpp:139-143`, `161`, `192`, `HashTable.HashTable.Insert`).
- The comment on the walkers of `attach.c` says "all table references"; `GROUP BY` and `ORDER BY`
  are not visited (`src/ODBC2/sqlite/attach.c:263-277`, `FixPass.ClausesNotVisited`).
- The comment on `ParseCmdLine` shows quoted tokens without their quotes; the code keeps them
  (`src/NWNX2/cmdlineargs.h:41-60`, `CmdLine.TokenizeJoined`). A kept token that is a quote without a close merges with what
  the launcher adds; a module name like that still reads back, because it ends the line
  (`Launcher.ReadsBackExactly`).
- The same comment says that a token which begins with a quote ends at the *next* quote before a space. The
  opening quote counts too, so a quoted text that starts with a space is split behind its first quote
  (`CmdLine.QuotedText`).
- The two watchdogs can put each other to sleep for good: both report that they are checking, the
  process watchdog restarts the server without reporting that it is done, and nobody wakes either
  (`WatchdogRuns.BothCanFallAsleep`, `WatchdogRuns.AsleepForGood`).

## Model

| member | source | states |
|---|---|---|
| JulianDay.NextDayIsNextNumber | src/ODBC2/sqlite/date.c:216-248 | The next calendar day, by the leap-year rule and the month lengths, has the next day number. |
| JulianDay.DayNumberCountsDays | src/ODBC2/sqlite/date.c:216-248 | The day number of the date n days after 0000-01-01 is 1721060 + n. |
| JulianDay.DayNumberOfValid | src/ODBC2/sqlite/date.c:216-248 | Every valid date is reached by counting days, at exactly its day number. |
| JulianDay.DayPastMonthEnd | src/ODBC2/sqlite/date.c:216-248 | A day past the month's end, up to 56, has the number of the right day of the next month; that day comes back exactly when the text was not 0300-02-29. |
| JulianDay.DateOfDayNumber | src/ODBC2/sqlite/date.c:335-356 | Date to day number and back is the identity exactly for the valid dates other than 0300-03-01. |
| JulianDay.DateOfCountsDays | src/ODBC2/sqlite/date.c:335-356 | From 0000-01-01 on the computed date is the counted one exactly when the day is not 1830692. |
| JulianDay.DayNumberOfDate | src/ODBC2/sqlite/date.c:335-356 | Day number to date and back is the identity for every day number from 1721060 on. |
| JulianDay.ExactlyTheseComeBack | src/ODBC2/sqlite/date.c:335-356 | With days past the month's end included, a date comes back from its day number exactly if its month has the day and it is not 0300-03-01, or it is 0300-02-29. |
| JulianDay.BadDate | src/ODBC2/sqlite/date.c:343-353 | The one failing input: 0300-03-01 comes back as 0300-02-29. |
| DateTime.DateTime.ComputeJD | src/ODBC2/sqlite/date.c:216-248 | The floating-point formula, flags, time of day and time zone leave the structure AfterJD, whose day number is an exact integer quotient. |
| DateTime.DateTime.ComputeYMD | src/ODBC2/sqlite/date.c:335-356 | The chain of casts leaves the structure AfterYMD with the date of the day number; 2000-01-01 without one. |
| DateTime.DateTime.ComputeHMS | src/ODBC2/sqlite/date.c:361-374 | The time of day is that of the instant rounded to milliseconds, split by division. |
| DateTime.DateTime.ComputeYMD_HMS | src/ODBC2/sqlite/date.c:379-382 | Both breakdowns, each only if its flag is not set. |
| DateTime.DateTime.ClearYMD_HMS_TZ | src/ODBC2/sqlite/date.c:387-391 | Three flags fall and nothing else changes. |
| DateTime.CenturyCast | src/ODBC2/sqlite/date.c:344-344 | The cast of the century quotient is an integer division toward zero, for negative values too. |
| TimeOfDay.HMSOfInstant | src/ODBC2/sqlite/date.c:361-374 | The broken-down time is within half a millisecond of the instant, and is a clock time exactly when rounding does not reach midnight. |
| TimeOfDay.JDOfClock | src/ODBC2/sqlite/date.c:240-247 | A date and clock time become the instant at that millisecond of that day. |
| TimeOfDay.ClockRoundTrip | src/ODBC2/sqlite/date.c:216-248 | Every clock time on the millisecond grid survives the day number exactly, and every date but 0300-03-01. |
| TimeOfDay.BreakAndRebuild | src/ODBC2/sqlite/date.c:361-374 | Breaking an instant down and rebuilding it moves it by at most half a millisecond, and not at all exactly on the grid. |
| DateText.GetDigits | src/ODBC2/sqlite/date.c:89-121 | The numbers read are those of the fields up to the first with too few digits, a value out of bounds or a wrong following character. |
| DateText.ReadNumber | src/ODBC2/sqlite/date.c:105-112 | Succeeds exactly when N digits stand there, and gives the number they write. |
| DateText.ParseTimezone | src/ODBC2/sqlite/date.c:145-165 | Sign, offset and trailing characters decide the outcome; a missing zone is no error. |
| DateText.ParseHhMmSs | src/ODBC2/sqlite/date.c:174-208 | The fields set, including those set before an error, and the decimal fraction of a second. |
| DateText.ParseFraction | src/ODBC2/sqlite/date.c:187-196 | The loop reads the digits as one decimal fraction. |
| DateText.ParseYyyyMmDd | src/ODBC2/sqlite/date.c:262-292 | Date, optional time and the immediate conversion when a time zone was given. |
| DateText.ParseDateOrTime | src/ODBC2/sqlite/date.c:310-330 | Date, time, the word now and a number are tried in order on one structure, with what a failed form has left in it. |
| DateText.CheckNumber | src/ODBC2/sqlite/util.c:532-556 | Decides whether the whole text is digits with an optional sign, fraction and exponent. |
| DateText.Print | src/ODBC2/sqlite/date.c:684-697 | The printed text of the broken-down instant. |
| DateTextRoundTrip.ParsePrinted | src/ODBC2/sqlite/date.c:262-292 | What is printed reads back as the same six numbers with no time zone, for all years 0-9999. |
| DateTextRoundTrip.ParsePrintedTime | src/ODBC2/sqlite/date.c:174-208 | A printed time reads back as itself. |
| DateTextRoundTrip.ParsedIsPrinted | src/ODBC2/sqlite/date.c:262-292 | A text of this shape that is accepted is the print of what was read: the form is unique. |
| DateTextRoundTrip.DatetimeFixedPoint | src/ODBC2/sqlite/date.c:684-697 | datetime() maps every text of its form to itself; through a day number exactly the texts before 24:00 whose date comes back. |
| DateTextRoundTrip.DateOnlyPrintsNoon | src/ODBC2/sqlite/date.c:361-374 | Every date without a time prints noon; after computeJD alone midnight of that date, exactly for the dates that come back (through weekday it is noon, see WeekdayLaws.WeekdayStarts). |
| DateTextRoundTrip.PrintedCutsSeconds | src/ODBC2/sqlite/date.c:684-697 | Of any structure the printed text reads back as its date, hour and minute, and its second without the fraction. |
| ParsedInstants.ParseZone | src/ODBC2/sqlite/date.c:145-165 | A printed offset of up to 14:59 reads back as its minutes, with its sign. |
| ParsedInstants.ZoneForms | src/ODBC2/sqlite/date.c:145-165 | Behind a time exactly nothing, or a sign with up to 14 hours and 59 minutes, is accepted, with spaces around. |
| ParsedInstants.ZonedText | src/ODBC2/sqlite/date.c:240-246 | A zone behind any printed date and time moves its instant by that many minutes, later for a plus. |
| ParsedInstants.TimeForms | src/ODBC2/sqlite/date.c:174-208 | A time is accepted exactly in the forms HH:MM, HH:MM:SS and HH:MM:SS.F up to 24:59:59, with a zone or without. |
| ParsedInstants.DateForms | src/ODBC2/sqlite/date.c:262-292 | A date is accepted exactly as YYYY-MM-DD, with a minus or without, and a time or nothing behind it. |
| ParsedInstants.DateThenTime | src/ODBC2/sqlite/date.c:273-291 | A date, a space and any accepted time read as that date and that time. |
| ParsedInstants.MinusYear | src/ODBC2/sqlite/date.c:265-287 | A minus before a date negates the year and nothing else. |
| ParsedInstants.NowIsTheClock | src/ODBC2/sqlite/date.c:316-323 | The word now, in any case, is the instant of the clock, and an error exactly if that cannot be read. |
| ParsedInstants.NumberIsTheInstant | src/ODBC2/sqlite/date.c:324-328 | Every number is the Julian day number with its value. |
| ParsedInstants.NumberForms | src/ODBC2/sqlite/util.c:532-556 | The numbers are exactly the texts of a sign, digits, a point with digits and an exponent, where all but the first digits may be missing. |
| DateModifiers.ParseModifier | src/ODBC2/sqlite/date.c:456-636 | From the text: lower-casing, recognition, and for each modifier the structure and return code, on error paths too. |
| DateModifiers.LowerCopy | src/ODBC2/sqlite/date.c:461-465 | The copy is the first 29 characters in lower case. |
| DateModifiers.ParseShift | src/ODBC2/sqlite/date.c:567-629 | A text that starts with a sign or digit is a clock shift if a colon follows its number, and otherwise a number of units. |
| DateModifiers.ToUniversal | src/ODBC2/sqlite/date.c:492-500 | The offset is taken twice: at the local time and at the first guess. |
| ClockLaws.CaseIgnored | src/ODBC2/sqlite/date.c:461-465 | Texts that differ only in case are the same modifier. |
| ClockLaws.UtcUndoesLocaltime | src/ODBC2/sqlite/date.c:473-500 | For every stamp, utc undoes localtime exactly when the offset at the first guess is that at the instant. |
| ClockLaws.UtcMissesLocaltime | src/ODBC2/sqlite/date.c:492-500 | A failing instant: half an hour before summer time ends utc comes out one hour late. |
| ModifierTexts.LocalTexts | src/ODBC2/sqlite/date.c:473-500 | The text localtime adds the offset at the instant, and the text utc then gives the instant back exactly when the offset at its first guess is the same. |
| ModifierTexts.UnixepochText | src/ODBC2/sqlite/date.c:488-491 | The text unixepoch makes of a number that many seconds since 1970, and is an error exactly without a number. |
| ModifierTexts.WeekdayText | src/ODBC2/sqlite/date.c:511-512 | weekday and a number is accepted exactly for one of 0 to 6. |
| ModifierTexts.StartOfText | src/ODBC2/sqlite/date.c:534-553 | start of and a word is accepted exactly for day, month and year. |
| ModifierTexts.UnitText | src/ODBC2/sqlite/date.c:567-595 | A number, any spaces and a word shift by that number of that unit. |
| ModifierTexts.PluralText | src/ODBC2/sqlite/date.c:596-596 | The text with the plural of a unit does the same as that with the singular. |
| ModifierTexts.SignedTimeText | src/ODBC2/sqlite/date.c:569-591 | +HH:MM:SS, and the same without a sign, adds that time of day less whole days, and -HH:MM:SS takes it away. |
| ModifierTexts.LongTextIsCut | src/ODBC2/sqlite/date.c:460-465 | Of a long text only the first 29 characters count. |
| ModifierTexts.OnlyTheseTexts | src/ODBC2/sqlite/date.c:466-635 | No text of another form is accepted. |
| ShiftLaws.UnitShift | src/ODBC2/sqlite/date.c:597-606 | r seconds, minutes, hours or days move every stamp by exactly r, 60 r, 3600 r or 86400 r seconds. |
| ShiftLaws.DaysShift | src/ODBC2/sqlite/date.c:599-600 | n days move the date by n steps of one day in the calendar, forwards or backwards, and keep the time of day. |
| ShiftLaws.PluralShift | src/ODBC2/sqlite/date.c:596-596 | A unit and its plural shift alike. |
| ShiftLaws.OnlyUnitsShift | src/ODBC2/sqlite/date.c:595-627 | A shift is accepted exactly for the six units and their plurals. |
| ShiftLaws.FractionalShift | src/ODBC2/sqlite/date.c:608-624 | Of a fractional number of months each rest is thirty days; of a fractional number of years the rest is dropped. |
| DateModifiers.ShiftMonths | src/ODBC2/sqlite/date.c:607-619 | Month arithmetic with a truncating carry, and thirty days per fractional month. |
| DateModifiers.ShiftByClock | src/ODBC2/sqlite/date.c:569-591 | A time of day parsed on a zeroed structure is added or subtracted. |
| MonthLaws.MonthShift | src/ODBC2/sqlite/date.c:592-619 | For every stamp, a whole shift k, of any sign, keeps the day of the month and lands where 12 Y + M has grown by exactly k; it adds the clock time, or the instant's time to the millisecond, to that day. |
| MonthLaws.MonthShiftOfText | src/ODBC2/sqlite/date.c:592-619 | A shift of a date and time read from a text is the shift of the instant that it names exactly on the grid and before 24:00; from 24:00 on it is one day more. |
| MonthLaws.MidnightCountsTwice | src/ODBC2/sqlite/date.c:592-619 | The failing input: 2000-01-01 24:00:00 with no months added is 3 January. |
| MonthLaws.TwoShifts | src/ODBC2/sqlite/date.c:607-619 | The instant after two shifts of any stamp, with the days by which it misses the direct shift and the carried time. |
| MonthLaws.MonthShiftsAdd | src/ODBC2/sqlite/date.c:607-619 | For every stamp, exactly when two shifts are one shift by the sum, and by how many days they differ on the grid. |
| MonthLaws.MonthsForthAndBack | src/ODBC2/sqlite/date.c:607-619 | For every stamp, exactly when shifting forth and back gives the named instant: on the grid, before 24:00, the month between has the day and the day between is not 0300-03-01 (unless from a 1 March of a common year), or the day between is 0300-02-29, or the instant is on 0300-03-01. |
| MonthLaws.MonthForthAndBackFails | src/ODBC2/sqlite/date.c:607-619 | The failing input on a day that every month has: from 0300-02-01 one month forth and back is 0300-01-29. |
| MonthLaws.YearsAreMonths | src/ODBC2/sqlite/date.c:620-624 | For every stamp k years are 12 k months. |
| WeekdayLaws.WeekdayShift | src/ODBC2/sqlite/date.c:511-525 | For every stamp, weekday n goes forward from its start by the least number of whole days, 0 to 6, to weekday n, and by none exactly if it is that day. |
| WeekdayLaws.WeekdayStarts | src/ODBC2/sqlite/date.c:507-517 | That start is the named instant exactly for instants on the grid and clock times without a zone; an instant is rounded, a zone lost, and a date without a time taken to noon. |
| WeekdayLaws.WeekdayFormula | src/ODBC2/sqlite/date.c:518-519 | The remainder by 7 counts the days of the week one at a time. |
| WeekdayLaws.WeekdayAnchor | src/ODBC2/sqlite/date.c:29-29 | 2000-01-01 is day 2451545 and a Saturday. |
| StartOfLaws.StartOfUnitOfInstant | src/ODBC2/sqlite/date.c:534-553 | From an instant, start of gives midnight of the first day of the unit exactly unless the unit is the month and the instant on 0300-03-01, and then 0300-02-01; never later than the instant. |
| StartOfLaws.StartOfUnitOfDate | src/ODBC2/sqlite/date.c:534-553 | From a date and time read from a text it gives the first day of the unit of the written date. |
| StartOfLaws.StartOfUnitOfText | src/ODBC2/sqlite/date.c:534-553 | That is the first day of the unit that contains the named instant exactly when neither a day past the month's end nor 24:00 nor the zone carries it into another unit. |
| StartOfLaws.DaysOverIs | src/ODBC2/sqlite/date.c:240-246 | Time and zone carry a written date by at most one day, and without a zone exactly from 24:00 on. |
| StartOfLaws.StartOfMonthFails | src/ODBC2/sqlite/date.c:542-544 | The failing input: 2001-02-30 is 2 March, and its month starts on 1 February. |
| StartOfLaws.StartOfWeekFails | src/ODBC2/sqlite/date.c:534-553 | The documented start of week is an error. |
| ClockLaws.ClockShift | src/ODBC2/sqlite/date.c:569-591 | Every text of a time, with any fraction and zone, shifts by the time it names less whole days; any other text is an error. |
| ClockLaws.PrintedClockShift | src/ODBC2/sqlite/date.c:174-208 | HH:MM, HH:MM:SS and HH:MM:SS.FFF shift by what they say. |
| Strftime.FirstPass | src/ODBC2/sqlite/date.c:767-799 | The buffer size is one more than the widths set aside, or an error at the first unknown conversion. |
| Strftime.SecondPass | src/ODBC2/sqlite/date.c:808-858 | For every structure whose fields fit the widths of the format's conversions, the second pass writes the rendered text within the measured buffer and leaves room for the terminator. |
| Strftime.PieceFits | src/ODBC2/sqlite/date.c:814-854 | From year 0000 on, as far as day numbers fit an int, no conversion prints more than was set aside, and those that advance by a constant print exactly that much. |
| Strftime.RenderedFits | src/ODBC2/sqlite/date.c:767-858 | For every accepted format whose conversions fit, the text is no longer than the first pass measured. |
| Strftime.UnixSecondsWidth | src/ODBC2/sqlite/date.c:846-850 | As far as day numbers fit an int %s prints at most 16 characters. |
| Strftime.Strftime | src/ODBC2/sqlite/date.c:756-863 | The result is NULL for a bad format and the rendered text otherwise, in a buffer that is not overrun as long as the conversions used fit their widths. |
| StrftimeLaws.DayOfYearPrinted | src/ODBC2/sqlite/date.c:824-840 | For every stamp %j is the day of the year, and one less exactly for a clock time from 24:00 on or an instant that rounding moves forward after 1 January. |
| StrftimeLaws.WeekOfYearPrinted | src/ODBC2/sqlite/date.c:832-836 | For every stamp %W is 0 to 53 and the number of Mondays from 1 January through the date, and one less exactly when %j is short in a year that starts with a Monday. |
| StrftimeLaws.MondaysFormula | src/ODBC2/sqlite/date.c:834-835 | The quotient by 7 counts Mondays. |
| StrftimeLaws.WeekdayPrinted | src/ODBC2/sqlite/date.c:852-852 | For every stamp %w is the calendar's day of the week at any time of day. |
| StrftimeLaws.SecondsPrinted | src/ODBC2/sqlite/date.c:851-851 | %S is 0 to 60, and 60 exactly in the last half second of a minute. |
| StrftimeLaws.SixtySeconds | src/ODBC2/sqlite/date.c:851-851 | The text 12:00:59.6 prints 60. |
| StrftimeLaws.UnixSecondsPrinted | src/ODBC2/sqlite/date.c:847-847 | %s is the nearest second since 1970 from half a second before it on, and one more exactly before that, unless halfway between two seconds. |
| StrftimeLaws.UnixSecondsBack | src/ODBC2/sqlite/date.c:488-490 | unixepoch and %s undo each other from 1970 on, and differ by one second before. |
| StrftimeLaws.UnixEpochAnchor | src/ODBC2/sqlite/date.c:28-28 | 1970-01-01 is day 2440588. |
| StrftimeTexts.AcceptedFormats | src/ODBC2/sqlite/date.c:767-799 | A format is accepted exactly if each per cent sign in it stands before a documented letter. |
| StrftimeTexts.MinuteReadsBack | src/ODBC2/sqlite/date.c:814-853 | What %Y-%m-%d %H:%M prints reads back as the same year, month, day, hour and minute, for years 0-9999. |
| StrftimeTexts.TimeReadsBack | src/ODBC2/sqlite/date.c:815-845 | What %H:%M:%f prints reads back as the same time, cut to the millisecond. |
| StrftimeTexts.InstantSurvivesPrinting | src/ODBC2/sqlite/date.c:806-858 | For every stamp up to year 9999 what %Y-%m-%d %H:%M:%f prints names the same instant exactly on the millisecond grid and before 24:00. |
| StrftimeTexts.DayOfYearText | src/ODBC2/sqlite/date.c:824-840 | %j prints three digits, whose value is the day of the year, less one exactly if a day is missing. |
| StrftimeTexts.WeekOfYearText | src/ODBC2/sqlite/date.c:823-836 | %W prints two digits, whose value is the number of Mondays so far, less one exactly if a day is missing in a year that starts with a Monday. |
| StrftimeTexts.WeekdayText | src/ODBC2/sqlite/date.c:852-852 | %w prints one digit, the day of the week. |
| StrftimeTexts.UnixSecondsText | src/ODBC2/sqlite/date.c:846-850 | %s prints the nearest second since 1970 with its sign, and one more exactly before it, unless halfway. |
| StrftimeTexts.SecondsText | src/ODBC2/sqlite/date.c:851-851 | %S prints two digits, the second to the nearest, and 60 exactly in the last half second. |
| StrftimeTexts.OtherTexts | src/ODBC2/sqlite/date.c:843-854 | %Y prints the year, of any length; %J and %% print the day number and a per cent sign. |
| DateFunctions.IsDate | src/ODBC2/sqlite/date.c:644-654 | The text and then each modifier in order; the first error or NULL ends it. |
| DateFunctions.DatedAppend | src/ODBC2/sqlite/date.c:644-654 | Without modifiers the stamp is the parsed text, and a last modifier acts on exactly what those before it give; an error or NULL anywhere is an error of the whole. |
| DateFunctions.MonthsForthAndBackByText | src/ODBC2/sqlite/date.c:644-654 | Behind any date text and any modifiers the texts +k months and -k months are accepted, and give back the instant exactly on the grid and if its day comes back. |
| DateFunctions.ModifierKeepsUsable | src/ODBC2/sqlite/date.c:456-636 | Every accepted modifier leaves either an instant alone or a date and time without one. |
| DateFunctions.DatedIsUsable | src/ODBC2/sqlite/date.c:644-654 | For every text and every list of modifiers the flags are in one of those two shapes. |
| StrftimeLaws.UsableIsReady | src/ODBC2/sqlite/date.c:806-807 | Whatever isDate accepts from year 0000 on, as far as day numbers fit an int, has all printed fields in range. |
| DateFunctions.StrftimeFits | src/ODBC2/sqlite/date.c:756-863 | For every date text, modifiers and format, the conversions of a date from year 0000 on, as far as day numbers fit an int, fit their widths and the output the measured buffer. |
| DateFunctions.StrftimeFunc | src/ODBC2/sqlite/date.c:756-863 | The whole function, as long as the conversions used fit their widths: NULL for an error in the arguments or the format, or the rendered text of the modified date. |
| HookFuncs.JumpReaches | src/NWNXdll/hook_funcs.cpp:36-36 | A written jump leads to its destination modulo 2^32, whatever the distance. |
| HookFuncs.Memory.MakeJmp | src/NWNXdll/hook_funcs.cpp:15-44 | The old bytes are saved, a jump and nops replace them, and no other byte changes. |
| HookFuncs.Memory.CreateStackFrame | src/NWNXdll/hook_funcs.cpp:49-96 | The overlapping 32-bit stores leave the five frame bytes and zeros. |
| HookFuncs.Memory.CreateGeneralBridge | src/NWNXdll/hook_funcs.cpp:100-171 | The block holds frame, saved bytes and jump back, and nothing else changes. |
| HookFuncs.Memory.HookFunction | src/NWNXdll/hook_funcs.cpp:185-223 | Target patched and bridge built from the bytes that the target had. |
| HookFuncs.RequestSuffices | src/NWNXdll/hook_funcs.cpp:110-124 | The 15 bytes requested hold the bridge exactly for library functions and without alignment. |
| HookFuncs.Memory.InterpretAddress | src/NWNXdll/hook_funcs.cpp:270-305 | Shifting and adding decodes the address that the bridge's jump goes to. |
| HookFuncs.ShiftedBytes | src/NWNXdll/hook_funcs.cpp:295-298 | The four shifts and additions modulo 2^32 read a little-endian word. |
| HookHistory.RunElsewhere | src/NWNXdll/hook_funcs.cpp:185-223 | Any sequence of independent hooks leaves every byte outside patches and bridges alone. |
| HookHistory.RunKeepsHooks | src/NWNXdll/hook_funcs.cpp:185-223 | After any such sequence each target holds its jump and each block the bridge made from the original bytes. |
| HookHistory.HooksConnect | src/NWNXdll/hook_funcs.cpp:185-305 | Each target leads to its filter and each bridge to the byte after the patch. |
| HookHistory.BridgeRunsOriginal | src/NWNXdll/hook_funcs.cpp:143-168 | Byte for byte, what is met after a bridge's frame is the function as it was before any hook. |
| HookHistory.WrittenBytes | src/NWNXdll/hook_funcs.cpp:15-96 | After any hooks each target holds E9 and nops from its sixth byte on, and each bridge starts with the five instructions for its kind. |
| JenkinsHash.MixIsBijection | src/Profiler/hash.cpp:81-92 | mix has a two-sided inverse on triples of 32-bit words. |
| JenkinsHash.MixInRounds | src/Profiler/hash.cpp:81-92 | The list of lines is three rounds of three lines with the nine shift distances. |
| JenkinsHash.ShortHash | src/Profiler/hash.cpp:94-135 | The hash of at most eleven bytes, written out from the golden ratio, the initial value, the bytes and their number. |
| JenkinsHash.FirstBlock | src/Profiler/hash.cpp:106-113 | A longer key adds its first twelve bytes as three words, mixes them and goes on. |
| Words.XorBit | src/Profiler/hash.cpp:83-91 | Each bit of an exclusive or is one exactly if that bit of just one operand is. |
| JenkinsHash.ComputeHash | src/Profiler/hash.cpp:94-135 | The loop over blocks and the tail compute the recursively defined hash. |
| JenkinsHash.AddTail | src/Profiler/hash.cpp:115-131 | The falling-through cases add one padded block whose ninth byte is the tail's length. |
| JenkinsHash.TailsKeptApart | src/Profiler/hash.cpp:94-135 | Keys that first differ after the last block boundary end in different triples, for every initial value; all keys of at most 11 bytes are such. |
| JenkinsHash.BlocksKeptApart | src/Profiler/hash.cpp:94-135 | Keys that differ in exactly one block of twelve bytes end in different triples. |
| HashTable.HashTable.constructor | src/Profiler/hash.cpp:36-52 | An empty table of the given size. |
| HashTable.HashTable.Lookup | src/Profiler/hash.cpp:198-209 | The map's value for the key, or none. |
| HashTable.HashTable.Insert | src/Profiler/hash.cpp:144-193 | The map gains or replaces the binding; the result is the old data, or the new for a new key. |
| HashTable.HashTable.Delete | src/Profiler/hash.cpp:214-262 | The map loses the key and nothing else; the result is its data, or none. |
| HashTable.HashTable.Enumerate | src/Profiler/hash.cpp:300-309 | Every binding is visited exactly once, and nothing else is. |
| HashTable.HashTable.OnePlace | src/Profiler/hash.cpp:144-193 | A key stands in one position of one chain, the one its hash names. |
| HashTable.HashTable.ChainOfHash | src/Profiler/hash.cpp:146-146 | The chain of a key is its hash with initial value 42 modulo the size. |
| HashTable.HashTable.Unlink | src/Profiler/hash.cpp:232-254 | Taking out the first or a later node keeps every chain linked and removes just that key. |
| Profiler.Profiler.constructor | src/Profiler/HookRunScript.cpp:748-756 | No calls, an empty stack and an empty table. |
| Profiler.Profiler.MyRunScript | src/Profiler/HookRunScript.cpp:154-177 | Pushes the name cut to 16 characters, or marks an empty script. |
| Profiler.Profiler.MyRunScriptPart | src/Profiler/HookRunScript.cpp:179-204 | Pushes the marked name cut to 15 characters. |
| Profiler.Profiler.MyCrossArea | src/Profiler/HookRunScript.cpp:295-323 | Pushes the marked tag cut to 15 characters. |
| Profiler.Profiler.MyPathfind | src/Profiler/HookRunScript.cpp:408-437 | Pushes the marked tag cut to 15 characters. |
| Profiler.Profiler.StopTimer | src/Profiler/HookRunScript.cpp:112-152 | Counts one call and its time in the table and pops it, with or without a flush; nothing for an empty script. |
| Profiler.Profiler.Count | src/Profiler/HookRunScript.cpp:127-141 | The shared record of that one name changes, or a new one is made; all others stay. |
| Profiler.Profiler.FlushStatistics | src/Profiler/HookRunScript.cpp:96-96 | A flush changes no figure and clears every update mark. |
| CallProfile.EventsAreBracketed | src/Profiler/HookRunScript.cpp:112-204 | The events of nested calls never leave the stack of 128 and end where they began. |
| CallProfile.RunMeasuresCalls | src/Profiler/HookRunScript.cpp:112-204 | Over the events of any calls nested at most 128 deep the flat machine's table is the fold over the call tree, and the stack is as before. |
| CallProfile.TallyByName | src/Profiler/HookRunScript.cpp:127-140 | That fold holds, for every name, how often and how long it ran anywhere in the tree, modulo 2^32. |
| CallProfile.ElapsedBounds | src/Profiler/HookRunScript.cpp:123-123 | For readings in order and less than 2^32 microseconds apart the time is the whole number of microseconds between them. |
| CallProfile.ExitBooksTime | src/Profiler/HookRunScript.cpp:112-152 | An exit adds one call and the whole microseconds since its entry to the name on top of the stack, and leaves every other name alone. |
| CallProfile.ElapsedAdds | src/Profiler/HookRunScript.cpp:123-123 | The times of two adjoining intervals add up to that of the whole, up to one microsecond. |
| CallProfile.SessionTimes | src/Profiler/HookRunScript.cpp:112-152 | Over a session whose figures fit 32 bits the table holds, for each name, its calls and the time spent under it, short by less than a microsecond a call. |
| CallProfile.FlushDueMeans | src/Profiler/HookRunScript.cpp:143-148 | Statistics are due exactly 10.001 seconds after the last ones, within 2^32 milliseconds. |
| CallProfile.RunConserves | src/Profiler/HookRunScript.cpp:112-204 | At every point of every bracketed run the script counter is the calls in the table plus the calls on the stack, modulo 2^32. |
| FixPass.FixSrcList | src/ODBC2/sqlite/attach.c:235-258 | Names and result are those of the pass over the list's references in order. |
| FixPass.FixSelect | src/ODBC2/sqlite/attach.c:259-279 | Names and result are those of the pass over the statement and its prior ones. |
| FixPass.FixExpr | src/ODBC2/sqlite/attach.c:280-297 | Names and result are those of the pass over the expression, right before left. |
| FixPass.FixExprList | src/ODBC2/sqlite/attach.c:298-311 | Names and result are those of the pass over the expressions. |
| FixPass.FixTriggerStep | src/ODBC2/sqlite/attach.c:312-329 | Names and result are those of the pass over the steps. |
| FixPass.ClausesNotVisited | src/ODBC2/sqlite/attach.c:263-277 | The references visited do not depend on GROUP BY and ORDER BY. |
| FixPass.FixMeaning | src/ODBC2/sqlite/attach.c:222-233 | Fails exactly when some visited reference names another database; fills in exactly the missing names before the first such one. |
| FixPass.FixedNames | src/ODBC2/sqlite/attach.c:222-233 | After success every visited reference names the database up to case, and explicit names are untouched. |
| FixPass.FixTwice | src/ODBC2/sqlite/attach.c:235-329 | A second pass gives the same answer and changes nothing. |
| FixCoverage.ReachedInSelect | src/ODBC2/sqlite/attach.c:235-311 | The references reached in a select statement are exactly the tables outside GROUP BY and ORDER BY, at any depth. |
| FixCoverage.ReachedInSteps | src/ODBC2/sqlite/attach.c:312-329 | Those reached in a trigger likewise. |
| FixCoverage.SelectOrder | src/ODBC2/sqlite/attach.c:263-277 | A conflict stops only what comes behind it: columns, FROM, WHERE, HAVING and prior statements are visited in this order. |
| FixCoverage.ExprOrder | src/ODBC2/sqlite/attach.c:284-295 | In an expression the select statement, the list, the right and then the left operand. |
| FixCoverage.ItemOrder | src/ODBC2/sqlite/attach.c:244-255 | In a FROM-clause item its own name, the subquery and the ON clause. |
| FixCoverage.StepOrder | src/ODBC2/sqlite/attach.c:316-327 | In a trigger step the select statement, the WHERE clause and the list. |
| CText.SameNameExactly | src/ODBC2/sqlite/util.c:509-515 | Two names are the same exactly if they differ at most by the case of letters A-Z. |
| CmdLine.CmdLineArgs.constructor | src/NWNX2/cmdlineargs.h:13-27 | The strings at the stored positions are the tokens, and only whitespace is overwritten. |
| CmdLine.CmdLineArgs.Parse | src/NWNX2/cmdlineargs.h:44-94 | The in-place loop stays in its buffer and leaves exactly the tokens of the text. |
| CmdLine.CmdLineArgs.NextToken | src/NWNX2/cmdlineargs.h:54-92 | One turn stores one position and writes one terminator, behind the token. |
| CmdLine.TokenizeJoined | src/NWNX2/cmdlineargs.h:36-43 | Well-formed tokens joined by single spaces come back exactly, and so does a last one whose quote lacks its close. |
| CmdLine.TokensAreLast | src/NWNX2/cmdlineargs.h:62-92 | Of any text, every token that is not empty is one that reads back at the end of a line. |
| CmdLine.OnlyLastIllFormed | src/NWNX2/cmdlineargs.h:36-43 | Of any text, every token but perhaps the last is well formed. |
| CmdLine.QuotedText | src/NWNX2/cmdlineargs.h:57-83 | Quotes keep a text without quotes together, with all its spaces, exactly unless it starts with a space. |
| CmdLine.NothingLost | src/NWNX2/cmdlineargs.h:44-94 | Any text is its tokens in order with only whitespace around them. |
| Launcher.App.ParseNWNCmdLine | src/NWNX2/NWNX2.cpp:125-207 | The fields and the new line are those of the token list. |
| Launcher.App.Apply | src/NWNX2/NWNX2.cpp:131-189 | What each switch sets. |
| Launcher.KeptTokens | src/NWNX2/NWNX2.cpp:178-194 | Only input tokens that are not consumed switches stay. |
| Launcher.SettingsAreLast | src/NWNX2/NWNX2.cpp:129-189 | Each setting is the last value behind its own switch, in any case, or the default; -publicserver 0 and -gamespywatchdog share one, and the old protocol can only be switched on. |
| Launcher.NamesDiffer | src/NWNX2/NWNX2.cpp:131-185 | A token is a switch exactly if it has its name in any case; no token is two. |
| Launcher.ParseAppend | src/NWNX2/NWNX2.cpp:129-195 | Token by token: what stays stands one behind the other, and the settings go on from where they are. |
| Launcher.WhatStays | src/NWNX2/NWNX2.cpp:131-194 | Of the launcher's own switches and their values nothing stays; any other token does, -publicserver and its value too. |
| Launcher.AtoiReads | src/NWNX2/NWNX2.cpp:133-133 | atoi reads the digits behind whitespace and a sign and stops at what follows. |
| Launcher.AtoiOfItoa | src/NWNX2/NWNX2.cpp:197-200 | A printed port reads back as itself. |
| Launcher.LineIsJoined | src/NWNX2/NWNX2.cpp:197-206 | The line is the passed tokens joined by single spaces. |
| Launcher.NormalForm | src/NWNX2/NWNX2.cpp:125-207 | Every readable line tokenizes to the unconsumed tokens and the launcher's own, and rewriting it again gives the same line, exactly unless an empty module name has overridden a default one. |
| Launcher.ReadsBackExactly | src/NWNX2/NWNX2.cpp:191-206 | The line reads back exactly when every kept token is well formed and the module name is empty or one token, whose quote may lack its close. |
| Watchdogs.ProcessStepAccounted | src/NWNX2/watchdogprocess.cpp:46-76 | Each step of the process watchdog keeps the restart account, one restart ahead before it posts. |
| Watchdogs.GamespyStepAccounted | src/NWNX2/watchdoggamespy.cpp:63-128 | Each step of the gamespy watchdog keeps the account, one post ahead before it restarts. |
| Watchdogs.UiStepAccounted | src/NWNX2/NWNX2Dlg.cpp:239-279 | Handling a message moves it from the queue to its counter. |
| Watchdogs.RestartsAccounted | src/NWNX2/watchdogprocess.cpp:46-76 | In every interleaving restarts are the counters plus the queued messages, up to the two one-step windows; kills are lockups. |
| Watchdogs.RestartsHaveCauses | src/NWNX2/watchdogprocess.cpp:54-61 | In every interleaving the process watchdog restarts the server no more often than it was down at first, died or was killed by the gamespy watchdog, and that one restarts it without a kill no more often than it was down or died. |
| Watchdogs.HealthyServerStaysUp | src/NWNX2/watchdoggamespy.cpp:107-120 | A server that is up and never dies is restarted by nobody but a gamespy watchdog that has killed it. |
| Watchdogs.StoppedThreadsLeave | src/NWNX2/watchdogprocess.cpp:70-74 | In every interleaving a thread told to stop leaves, after at most 7 steps of its own, or 11 for the gamespy watchdog. |
| WatchdogRuns.GamespyStepTracks | src/NWNX2/watchdoggamespy.cpp:63-128 | The thread's retry count and state tell what its history tells. |
| WatchdogRuns.RestartsOnTime | src/NWNX2/watchdoggamespy.cpp:63-121 | In every interleaving a restart comes exactly on the (limit + 1)-th consecutive unanswered poll, and only once per silence. |
| WatchdogRuns.AnswerBetweenRestarts | src/NWNX2/watchdoggamespy.cpp:63-121 | Between any two gamespy restarts the server answered. |
| WatchdogRuns.SleepIsAligned | src/NWNX2/NWNX2Dlg.cpp:257-279 | In every interleaving each sleep flag, once the queue is handled, is the other watchdog's last report. |
| WatchdogRuns.LeavingWakesTheOther | src/NWNX2/watchdogprocess.cpp:70-74 | A thread that has left never leaves the other one asleep. |
| WatchdogRuns.AsleepWhenBothCheck | src/NWNX2/NWNX2Dlg.cpp:257-279 | At rest both are asleep exactly when both last reported checking. |
| WatchdogRuns.AsleepForGood | src/NWNX2/watchdoggamespy.cpp:63-70 | Once both are asleep, no run without a stop ever restarts the server. |
| WatchdogRuns.BothCanFallAsleep | src/NWNX2/watchdogprocess.cpp:54-61 | From every start of both, with every retry limit, some run puts both to sleep. |

## Left out

- Floating-point rounding: doubles are exact reals and their constants exact rationals, so a `(int)` cast near a whole number can differ from the C code's.
- Overflow of `int`: in date fields and day numbers, in `atoi`, in the six characters of the port buffer and the fixed size of the launcher's `cmdline`.
- Negative years and instants before 0000-01-01: `src/ODBC2/sqlite/date.c:31-34` gives 0000-9999 as the range; the parser's minus sign is modelled, the laws start at year 0.
- DateText.ParseDateOrTime: takes the time of the clock and the values that `sqlite3AtoF` reads as answers from outside.
- DateModifiers.ParseModifier: takes the offset of local time as a function of the structure, and what `sqlite3AtoF` reads at the head of a text as an answer from outside; `localtimeOffset`, `localtime` of the C library and `sqlite3AtoF` are not part of this model.
- ModifierTexts.UnitText: and the other laws of texts with a number hold for texts whose number ends where that answer says it does.
- DateFunctions.StrftimeFunc: requires that the conversions used fit the widths set aside for them, which is proved from year 0000 on as far as day numbers fit an int; what earlier dates print is not covered.
- Strftime.Strftime: requires the same of the structure.
- Strftime.SecondPass: requires the same of the structure.
- StartOfLaws.StartOfUnitOfText: requires the written date to lie in year 0000 or later.
- `julianday`, `date`, `time` and `current_*`: the same steps as `datetime` with fewer fields.
- Strftime.Piece: takes the text of `%.16g` as a parameter of at most 51 characters.
- `VirtualProtect` and `HeapAlloc` failures, the naked assembly procedures, instructions other than the near jump, and hooking one target twice: relative jumps among saved bytes are not relocated.
- HookFuncs.Memory.MakeJmp: takes the save buffer as separate from the patched memory.
- HashTable.HashTable.Delete: does not model `free` of the node, which is merely no longer reachable.
- Allocation failure in the hash table, and `free_table`, which reads a node after it was released.
- Profiler runs with empty tags or nesting beyond 128: single steps cover them, the call-tree results do not.
- Profiler.Profiler.FlushStatistics: leaves out the printing, the log file and the running totals that are only printed.
- GROUP BY and ORDER BY of a select: not visited by the walkers, so no result covers the references in them; `sqlite3FixInit`, error messages and running out of memory while a name is copied.
- Launcher.App.ParseNWNCmdLine: requires a token behind every switch that reads one; the C code reads past the end of the list otherwise.
- Starting a watchdog thread again before the old one has left, real time, sockets, process creation, and liveness beyond the sleeping pair.
- Changing the retry limit while a thread runs.
- Plugin classes, `CVisibility`, `HookChat`, `CHashTable`, signature scanners, INI reading, logging, `auth.c`, `legacy.c`, the MySQL headers and the rest of the dialog: thin wrappers or easy members.
