# ffead-cpp: arithmetic, parsing and scheduling, proved

A Dafny model of eight self-contained parts of the ffead-cpp framework, written as the code is, quirks
included, and proofs of what that code does for every input.

| file | what it models |
|---|---|
| `Text.dfy` | the leftmost searches, replacements and splits of `StringUtil` |
| `Decimal.dfy` | how `CastUtil` prints an int and reads one back |
| `Calendar.dfy` | the day number of a date and back, the leap rules, the weekday formula |
| `Dates.dfy` | the `Date` class: constructors, `setTime`, comparison, the carry chain of `update*` down to the date fields |
| `DateFormats.dfy`, `Templates.dfy` | the `DateFormat` class, and its round trip over token templates |
| `FieldTexts.dfy`, `PartialTemplates.dfy` | what `parse` does with fields that read differently at two places, and with missing ones |
| `Cron.dfy`, `CronRuns.dfy` | the `CronTimer` odometer over minute and hour, its date fields, and whole runs of the timer |
| `Interpreter.dfy`, `Brackets.dfy` | `CppInterpreter::handleAssignment<int>` and `evalBrackets<int>` |
| `Limbs.dfy`, `Bigints.dfy` | base-10^8 limbs and the `Bigint` class |
| `Bigdecimals.dfy` | the `Bigdecimal` class |
| `UrlCodec.dfy` | `CryptoHandler::urlEncode` and `urlDecode` |
| `Routes.dfy` | the REST route selection of `ControllerHandler::handle` |

Each class method and each loop is proved equal to a function on values; the theorems are lemmas about
those functions. C++ exceptions are the `Throw` case of a `Result`. `dafny verify dfyconfig.toml` checks
the project.

## What the proofs say about the code

- The day-number conversions are inverse on the code's own calendar (leap rule applied to year - 1900),
  with one correction of the year estimate. A Gregorian date from 1 March 1900 on survives the
  constructor except 29 February of a year divisible by 400, which becomes 1 March. Before that day, dates
  outside February and all of 1900 survive, and a February day survives exactly when it is not too late for
  the drift of its year. No earlier 29 February does, and 28 February of the year 5 makes the constructor throw.
- The weekday formula of `setDayName` is the Gregorian weekday exactly from year 1 on; that of `getDayName`,
  which adds the length of one month only, exactly in January, February and November (in the year 0, in June).
- `setTime` accepts hour 24 and minute and second 60; from 1 March 1900 on `<` and `==` compare the moments
  these carry over to. Before that day the second count is below zero and is taken for a number near 2^63, so
  that 28 February 1900 is not before 1 March 1900. Adding hours conserves such a time; adding minutes or
  seconds does so exactly when no carry passes a minute 60 or a second 60, which is counted twice: a minute
  added to 10:60 gives 12:01.
- `updateDays` writes the minute that the clock shows into the month. A step of one day is right exactly when it
  does not start in December, that minute is the number of the next day's month, and it is not the end of a
  February of which the code has the length wrong. In December it lands a year late.
- A template with no `+` or `-` among its literals round-trips. One with such a literal parses back only
  if what the code takes for the time zone is a number. The framework's own format
  `yyyy-mm-dd hh:mi:ss`, with which it serializes dates (src/modules/xmlserialize/XMLSerialize.cpp:613
  and 714), therefore never parses what it printed. An offset other than zero is printed behind the text and
  looked for in the template: without signs in the template, it comes back only if it is printed with a plus and
  the literals in front of it are blank or part of its number; the logger's format refuses every such date.
- A field that reads differently at two places of a text is refused with its own message. A missing year, day or
  month is refused; a missing time field is taken from the clock by way of a character code, so that a template
  without hours reads back only in the hour after midnight.
- A `CronTimer` reads the clock once when it starts and then after each second of sleep. Read at least once a
  minute, it fires in every due minute, and once in each, exactly when the first of the later readings still shows
  the minute it was started in, that minute is due, and no due minute on the way is blocked. Started at
  10:00:59 it waits for 10:00 ever after.
- The blocked minutes are: those with a listed value below 10 (`isValid` looks for "05" in ",5,"); those where
  a list has no other value to go to or holds the value twice; with every minute, those that end an hour before
  one that is not due; and the last of a day, unless the day step that follows it is right. No schedule gets
  past a day of December, none whose last minute is past 12 gets past any midnight, and every minute of every
  hour ends at 23:59 of its first day. A minute list that leads back to the same value leaves the time
  as it is; an hour list that does sends the last minute of the hour back to the first minute of that same hour.
- `handleAssignment` yields the value of the expression, or divides by zero, or fails on subtracting a
  term below zero, and says which, exactly.
- Same-sign `Bigint` addition and subtraction are modular; the conditions under which they are exact are
  given for every operand. `compare` looks at the limb count and the top limb only. One-limb `multiply` is
  10^8 short where the partial product first outgrows a limb by a line that fits in one (8000000 times 13);
  of unlike signs it is right only if the first numeral is longer (-5 times 12 is -420).
- `Bigdecimal` loses zeros: "1.50" reads as .15. The round trip holds exactly for texts without zeros at
  their ends. A number prints as its value exactly when that does not end in a zero behind the point and has
  digits enough, or without fraction digits when the point belongs at its end: 0.5 and 0.5 print ".1",
  "12." and "988." print "10.00".
- `urlDecode(urlEncode(s))` is `s` exactly when `s` holds none of nineteen of the twenty codes as text;
  "%25" itself does no harm. `urlEncode` is injective on all strings.
- A path parameter is bound to the value put into the URL exactly when its segment has text in front of
  the brace or none behind it. Values bound by rejected routes under other names stay in the map.

## Model

| member | source | states |
|---|---|---|
| Text.ReplaceAll | src/StringUtil.cpp:74-83 | the splice loop yields the left-to-right, non-overlapping replacement of every occurrence |
| Text.ReplacedShorter | src/StringUtil.cpp:74-83 | a replacement by something shorter never lengthens, and shortens exactly the strings it hits |
| Text.Split | src/StringUtil.cpp:159-188 | for every delimiter but the empty one, the cutting loop yields the pieces between its occurrences |
| Text.PiecesLack | src/StringUtil.cpp:159-188 | no piece holds the delimiter |
| Text.JoinPieces | src/StringUtil.cpp:159-188 | joining the pieces of any string gives the string back |
| Text.PiecesJoin | src/StringUtil.cpp:159-188 | splitting joined pieces that all lack one of the delimiter's characters gives the pieces back |
| Text.ToUpperExactly | src/StringUtil.cpp:34-44 | each of the 26 small letters turns into its capital, and every other character stays |
| Decimal.CastPrinted | include/CastUtil.h:374-420 | every integer printed is read back as itself |
| Decimal.ValToStr | include/CastUtil.h:113-137 | a numeral without leading zeros is the one printed for its value |
| Decimal.CastDoubleMinus | include/CastUtil.h:400-409 | a numeral with two minus signs is refused |
| Decimal.CastExactly | include/CastUtil.h:400-409 | the cast reads a text without NUL as a number if and only if it is blanks, at most one sign and digits of that value, or empty and the number 0; else its exception |
| Decimal.CastCut | include/CastUtil.h:400-409 | what stands behind a NUL is not looked at |
| Calendar.EstimateIsClose | src/Date.cpp:384-392 | for every year and day in it the year estimate is right or one high, and the corrected year is right |
| Calendar.GetFromDays | src/Date.cpp:352-358 | every day number from zero on is the number of its date, which is valid in the code's calendar; the estimate is never low and at most one high |
| Calendar.FromGetDays | src/Date.cpp:384-404 | every date valid in the code's calendar from 1 March 1900 on comes back from its day number |
| Calendar.GetDaysNext | src/Date.cpp:352-358 | the next date has the next day number |
| Calendar.FromDaysIsNthDay | src/Date.cpp:384-404 | the closed form is the n-fold successor of 1 March 1900 |
| Calendar.GetDaysMonotone | src/Date.cpp:352-358 | later dates have larger day numbers |
| Calendar.GregorianDrift | src/Date.cpp:352-358 | between any two dates from the epoch on, the Gregorian day count differs from the code's by the difference of two lags, each 1 in the first 300 March-based years of 400 and 0 in the last 100 |
| Calendar.DaysBeforeYearClosed | src/Date.cpp:538-573 | the day-by-day Gregorian count before a year equals the usual closed form |
| Calendar.OrdinalNext | src/Date.cpp:466-498 | the Gregorian ordinal used as reference advances by one per valid date |
| Calendar.Normalized | src/Date.cpp:588-596 | every accepted date from the epoch on is unchanged by the constructor's conversion, if and only if it is not 29 February of a year divisible by 400, which becomes 1 March |
| Calendar.NormalizedBeforeEpoch | src/Date.cpp:352-404 | before 1 March 1900 an accepted date is unchanged if and only if it is not in February, or in 1900, or the drift of its year leaves room for its day; any other becomes the day counted from 1 March of its year, which may be the first, the zeroth or the one before |
| Calendar.NormalizedExactly | src/Date.cpp:352-404 | what the conversion makes of every accepted date, and which it keeps, if and only if |
| Calendar.LeapDaysLost | src/Date.cpp:352-404 | every accepted 29 February before 1900 becomes 1 March |
| Calendar.LostInFebruary | src/Date.cpp:352-404 | 28 February of the year 5 becomes a day number below zero |
| Calendar.WeekdayIsOrdinal | src/Date.cpp:538-573 | the weekday formula is the Gregorian ordinal modulo 7 if and only if the year is at least 1 |
| Calendar.WeekdaysAdvance | src/Date.cpp:538-573 | successive valid dates get successive weekdays, across month, leap and century ends |
| Calendar.WeekdaysRepeat | src/Date.cpp:538-573 | weekdays repeat after 400 years |
| Dates.StableDates | src/Date.cpp:466-498 | which accepted dates the constructors keep, for every year, if and only if |
| Dates.MadeFromEpoch | src/Date.cpp:588-596 | the fields of a date made from accepted numbers, weekday included, with the one exception |
| Dates.MadeExactly | src/Date.cpp:588-596 | for all accepted numbers: the fields of the date the conversion yields, weekday included, or the exception of the weekday's cast when its day is below zero |
| Dates.MadeOnWeekday | src/Date.cpp:538-573 | for every accepted date from the year 1 on that can be made, the weekday given is "SUN" to "SAT" if and only if the Gregorian ordinal of the date made is 0 to 6 modulo 7 |
| Dates.MadeReads | src/Date.cpp:588-596 | the fields of a made date read back as the date the conversion yields, with the name of its month, the clock's time and a zero offset |
| Dates.MadeRefuses | src/Date.cpp:466-498 | the constructor throws "Invalid date" if and only if the year is below zero or the Gregorian calendar has no such day |
| Dates.MadeByNameExactly | src/Date.cpp:575-587 | the constructor from a name throws "Invalid month" if and only if the name, in any case, is none of the twelve; with one of them it does what the other does with the number of that month |
| Dates.MonthByNameOnly | src/Date.cpp:147-152 | without a month text the month is the one its name stands for, in any case |
| Dates.TimedExactly | src/Date.cpp:626-634 | `setTime` throws "Invalid Time" if and only if the hour is not 0 to 24 or the minute or second not 0 to 60; else the fields read as the three numbers and the date stays |
| Dates.FebruaryThrows | src/Date.cpp:588-596 | 28 February of the year 5 is accepted and makes the constructor throw |
| Dates.MadeByNameAgrees | src/Date.cpp:575-587 | making a date by month name and by month number is the same |
| Dates.SetterReadsBack | src/Date.cpp:155-235 | the text every setter writes has at least two characters, is all digits and reads back as the number, for numbers from zero up; below zero no cast reads it |
| Dates.GetMonFdTwo | src/Date.cpp:42-58 | the search over both spellings finds the name of the month the setter wrote, and "-1" for any other number |
| Dates.GetDayNameExactly | src/Date.cpp:501-535 | for every accepted date, the weekday of `getDayName` is that of the Gregorian ordinal if and only if the month is January, February or November, and in the year 0 if and only if it is June |
| Dates.GetDayNameSays | src/Date.cpp:501-535 | no name for what is no date; else, from the year 1 on, the name of a weekday that lies 0 to 6 days past the Gregorian one, by the month |
| Dates.KeyIsSeconds | src/Date.cpp:376-382 | the comparison key of every date from the year 0 on is its seconds since the epoch as an unsigned 64-bit number, reduced once more; these are the seconds themselves if and only if they are not below zero |
| Dates.WrappedOrder | src/Date.cpp:759-766 | which two counts of seconds the wrapped keys rank, and identify, as the counts themselves, if and only if: on one side of the epoch always, across it only within two seconds |
| Dates.OperatorsExactly | src/Date.cpp:759-790 | `<` and `==` on all dates from the year 0 on and all times `setTime` takes never throw; their answers, and when these are those of the second counts, if and only if |
| Dates.BeforeIsAfter | src/Date.cpp:759-774 | every moment more than two seconds before the epoch is ranked after every moment from it on |
| Dates.FebruaryNotBefore | src/Date.cpp:759-774 | 28 February 1900 is not before 1 March 1900 |
| Dates.OrderIsLexicographic | src/Date.cpp:352-382 | from 1 March 1900 on, on in-range times, the seconds are ordered as year, month, day, hour, minute, second, with no two alike |
| Dates.CarriedSeconds | src/Date.cpp:352-382 | from 1 March 1900 on, every time `setTime` takes has the seconds of the in-range moment it carries over to |
| Dates.OperatorsCarry | src/Date.cpp:759-790 | on all dates from 1 March 1900 on and all times `setTime` takes, `<` and `==` never throw and compare the carried moments, whatever the time zones |
| Dates.SameIsEqualExactly | src/Date.cpp:784-790 | from 1 March 1900 on `==` is equality of the six fields if and only if carrying does not identify two different moments; on in-range times it always is |
| Dates.OperatorsAreLexicographic | src/Date.cpp:759-790 | from 1 March 1900 on, on in-range times, `<`, `==` and `>` are exactly the order of the six fields, whatever the time zones |
| Dates.HourTwentyFourCollides | src/Date.cpp:626-634 | hour 24, which `setTime` takes, is the same moment as midnight of the next day |
| Dates.AddHoursConserves | src/Date.cpp:703-719 | hours are conserved and fields stay in range if and only if the sum with the hour field is not negative |
| Dates.AddMinutesConserves | src/Date.cpp:685-701 | the same for minutes, through the carry into hours and days |
| Dates.AddSecondsConserves | src/Date.cpp:670-683 | old seconds of day plus the amount equal new seconds of day plus 86400 per day handed to `updateDays`, if and only if the sum with the second field is not negative |
| Dates.AddHoursFromSetTime | src/Date.cpp:703-719 | from every time `setTime` takes, hours are conserved and hour and minute come into range, if and only if the sum with hour and minute is not negative |
| Dates.AddMinutesFromSetTime | src/Date.cpp:685-701 | from every time `setTime` takes, minutes are conserved if and only if the sum is not negative and no carry passes minute 60; if one does, an hour is gained |
| Dates.AddSecondsFromSetTime | src/Date.cpp:670-683 | from every time `setTime` takes, seconds are conserved if and only if the sum is not negative and no carry passes second 60 or minute 60; else a minute, an hour or both are gained |
| Dates.TotalIsInjective | src/Date.cpp:670-719 | the total determines the fields |
| Dates.DayStepExactly | src/Date.cpp:721-732 | for every accepted date from 1 March 1900 on, a step of one day leads to the next Gregorian day if and only if the month is not December, the minute the clock shows meanwhile is the number of the next day's month, and it is not from 28 or 29 February of a year whose leap rule the code has wrong |
| Dates.DecemberStep | src/Date.cpp:721-732 | a step of one day in December lands a year late |
| Dates.AprilStep | src/Date.cpp:721-732 | on 3 April 2024 a step of one day leads to the 4th of the month whose number is the minute |
| Dates.StepInEra | src/Date.cpp:721-732 | from 1901 on a day step never throws, and its fields read back as the numbers it computes, which are from 1901 on again |
| Dates.RestampedExactly | src/Date.cpp:721-732 | a day step goes through if and only if day and year found read back; what the fields then read as, and what is already written when one of them does not |
| Dates.Date.Make | src/Date.cpp:588-596 | the constructor from numbers makes exactly the fields specified, or throws |
| Dates.Date.MakeByName | src/Date.cpp:575-587 | the same for the constructor from a month name |
| Dates.Date.EstimateDate | src/Date.cpp:384-404 | the estimate-and-correct conversion computes the closed form |
| Dates.Date.FromDayNumber | src/Date.cpp:384-404 | a new date object holding the converted day, for every day number, with the name `getDayName` gives it |
| Dates.Date.WeekdayIndex | src/Date.cpp:538-573 | from year 1 on the additions one after the other come to the Gregorian ordinal modulo 7 |
| Dates.Date.GetMm | src/Date.cpp:210-213 | the cast of whatever the text is; the minute itself when the setter wrote it |
| Dates.Date.SetDayName | src/Date.cpp:538-573 | the weekday name written is that of the formula, or the fields do not cast |
| Dates.Date.SetTime | src/Date.cpp:626-634 | what `setTime` writes and when it throws |
| Dates.Date.LessThan | src/Date.cpp:768-774 | whether the moment the one date carries to is before that of the other, for all dates from 1 March 1900 on and times the setters write; for any other fields the order of the keys, or the exception of the first cast that fails |
| Dates.Date.EqualTo | src/Date.cpp:784-790 | the same for whether they carry to the same moment |
| Dates.Date.UpdateDays | src/Date.cpp:721-732 | the day and year of the date reached, the clock's minute for the month, and which cast throws with what already written |
| Dates.Date.UpdateHours | src/Date.cpp:703-719 | the hour and minute fields, and the date fields after the days handed on |
| Dates.Date.UpdateMinutes | src/Date.cpp:685-701 | the minute and second fields, and the hour and date fields after what is handed on |
| Dates.Date.UpdateSeconds | src/Date.cpp:670-683 | the second field, and all others after what is handed on |
| DateFormats.DateFormat.Format | src/DateFormat.cpp:40-62 | the chain of replacements in its order |
| DateFormats.DateFormat.CutOut | src/DateFormat.cpp:69-82 | one block of the cutting loops: every occurrence compared and cut from both strings |
| DateFormats.DateFormat.Cuts | src/DateFormat.cpp:69-203 | all blocks in their order |
| DateFormats.DateFormat.Build | src/DateFormat.cpp:212-251 | which constructor is called with which fields, and when none is |
| DateFormats.DateFormat.Parse | src/DateFormat.cpp:64-281 | the whole of `parse` |
| DateFormats.CastFloatExactly | include/CastUtil.h:382-391 | when the cast of a time zone text is 0, a reading of strtod, or the exception |
| Templates.FormatShows | src/DateFormat.cpp:40-62 | on every token template the replacements show each field at its places and touch nothing else |
| Templates.CutAllShow | src/DateFormat.cpp:69-203 | on a printed date the cuts read back every field and keep template and text aligned |
| Templates.ParsePrinted | src/DateFormat.cpp:40-281 | for every template, every date of a four-digit year that the constructors keep, and every time `setTime` takes, with a zero offset: parsing the printed text gives it back up to what is taken for the time zone |
| Templates.RoundTrip | src/DateFormat.cpp:40-281 | for every template without signs among its literals, and the same dates and times, parse(format(d)) is d, weekday check included |
| Templates.WeekdayCheckedExactly | src/DateFormat.cpp:265-271 | for every template with a weekday, every such date and every three characters in the weekday's places: "Invalid Day(ddd) specified" if and only if these are not the name of the date's Gregorian weekday, in any case; else the date comes back |
| FieldTexts.CutAllPlaces | src/DateFormat.cpp:69-203 | whatever stands in the places of a template with a year: the cuts succeed if and only if no field looked for reads differently at two places; else the first of them in the order of the cuts decides the message; and what every field is then read as |
| FieldTexts.DifferingRefused | src/DateFormat.cpp:64-203 | `parse` refuses every such text with that message |
| PartialTemplates.MissingDateFields | src/DateFormat.cpp:213-251 | a date printed on a template without year or day is refused with "Invalid Date year/day specified", and on one with both but no month with "Invalid Date month specified" |
| PartialTemplates.MissingTimeFields | src/DateFormat.cpp:272-280 | on a template with a date, without signs and without some time fields, the date comes back with 0 for a missing field when the clock shows 0, with 0 to 9 when it shows 48 to 57, and is refused when it shows anything else |
| Templates.ReadableExactly | src/DateFormat.cpp:204-281 | with signs, the parse succeeds if and only if the left-over time zone text is empty or a number |
| Templates.ReadableByLiterals | src/DateFormat.cpp:204-259 | that text is read off the template's literals alone |
| Templates.IsoNeverParses | src/modules/xmlserialize/XMLSerialize.cpp:714 | no date of a four-digit year that the constructors keep, with a zero offset, parses back from the template the framework serializes dates with |
| Templates.LoggedRoundTrips | src/DLogger.cpp:74 | every such date and time, printed with the logger's template dd/mm/yyyy hh:mi:ss, reads back as itself |
| Templates.ParseTail | src/DateFormat.cpp:64-281 | with any text behind a printed date, date and time still come back, with the offset made of what is taken for the time zone, or the exception |
| Templates.OffsetByLiterals | src/DateFormat.cpp:40-281 | for every offset: what is printed, and the outcome of parsing it, read off the template's literals and the text printed for the offset |
| Templates.OffsetRoundTrip | src/DateFormat.cpp:52-60 | on a template without signs a date with a nonzero offset comes back if and only if a plus is printed for it and the literals followed by that text read as the offset; which exception otherwise |
| Templates.LoggedLosesOffset | src/DLogger.cpp:74 | no date with a nonzero offset reads back from the logger's template |
| Cron.UnreadableGate | include/CronTimer.h:108-149 | an empty field text never opens the gate, and one that is no number throws |
| Cron.GateOpensExactly | include/CronTimer.h:108-149 | a field's gate opens if and only if the value is the one waited for and a member, and for a list at least 10 |
| Cron.BoundsExactly | include/CronTimer.h:160-175 | the first and last value the correction works with, for each form of field |
| Cron.FieldStep | include/CronTimer.h:206-285 | unless a list is stuck at the value, one field's increment is the next member, or wraps from the last one to the first |
| Cron.FiredIs | include/CronTimer.h:306-324 | the three outcomes of a firing when no field that has to move is stuck: next minute, first minute of the next hour, first time of the next day |
| Cron.FiringIsSuccessor | include/CronTimer.h:306-324 | for every parsed minute field but "every" and every parsed hour field, a firing moves the time of day and the count of days to the least admissible later ones if and only if the minute list does not lead back to the same value and, at the last minute, neither does the hour list |
| CronRuns.TurnExactly | include/CronTimer.h:287-333 | when the clock shows the due minute waited for, a turn of the loop leads to what it shows in the very next due minute, date included, if and only if that minute is not blocked: readable, not stuck, and, when it ends a day, one from which the day step is right |
| CronRuns.RunSkipsNothing | include/CronTimer.h:287-333 | from one due minute the turns come to a later one, each turn to the very next due minute, if and only if no due minute from the first to before the last is blocked |
| CronRuns.PunctualExactly | include/CronTimer.h:287-333 | for every start, all later readings at least once a minute, and whatever minute is shown at the day steps: the timer has fired in every due minute up to one the clock has reached if and only if it was started in the minute of the first reading, that minute is due, it and the last can be read, and no due minute in between is blocked |
| CronRuns.FiresWhenDue | include/CronTimer.h:287-333 | it fires in due minutes only, and never again in one that is not blocked |
| CronRuns.FiresAtAll | include/CronTimer.h:289-305 | the timer ever fires if and only if the first reading after the start still shows the minute of the start, and that is due and readable |
| CronRuns.TenOClockPasses | include/CronTimer.h:289-292 | every minute of every hour, started at 10:00:59 and first read at 10:01, never fires |
| CronRuns.KeepsExactly | include/CronTimer.h:287-333 | on which schedules nothing but the end of a day ever blocks, if and only if: with every minute, every hour and no list; else lists of at least two values, none below 10 and none twice |
| CronRuns.PunctualUntilMidnight | include/CronTimer.h:287-333 | on such a schedule a timer has fired in every due minute if and only if it started on time in one and the day step was right at every midnight passed |
| CronRuns.PunctualForADay | src/Date.cpp:728 | when the last minute of the hour is past 12, if and only if it has passed no midnight |
| CronRuns.NeverForEver | include/CronTimer.h:287-333 | for every schedule, start, clock and day steps there is a due minute up to which the timer does not keep firing |
| CronRuns.AprilStops | src/Date.cpp:721-732 | every minute of every hour on 3 April 2024: the month becomes 59 after 23:59 and no reading opens the gate again |
| CronRuns.OctoberNext | src/Date.cpp:721-732 | the first ten minutes of every hour: after 23:10 on 3 April 2024 the timer waits for 4 October |
| CronRuns.MinuteFiveStops | include/CronTimer.h:139-142 | on minutes 5 and 20 a timer started at minute 5 never fires |
| CronRuns.HourTenGoesBack | include/CronTimer.h:231-248 | on hour 10 alone the last minute of that hour goes back to its first, which the clock has passed |
| Cron.EveryMinuteExactly | include/CronTimer.h:206-285 | with every minute admissible a firing is the successor, and is admissible at all, if and only if the hour does not end or the next hour is admissible |
| Cron.MinuteSticks | include/CronTimer.h:231-248 | a minute list that leads back to the same value leaves the time unchanged |
| Cron.HourSticks | include/CronTimer.h:231-248 | an hour list that does sends the last minute of the hour back to the first minute of that hour |
| Cron.CronTimer.RangeOf | include/CronTimer.h:160-175 | the first and last value of a field |
| Cron.CronTimer.CorrectMinute | include/CronTimer.h:179-183 | a minute at or past the last goes to the first |
| Cron.CronTimer.CorrectHour | include/CronTimer.h:184-189 | the same for the hour, then the minute |
| Cron.CronTimer.TryDay | include/CronTimer.h:263-275 | the day step, with the fields of the date, and the correction of hour and minute |
| Cron.CronTimer.Amount | include/CronTimer.h:208-252 | the amount a field is moved by |
| Cron.CronTimer.TryMinute | include/CronTimer.h:206-285 | the minute increment and whether it is the last one needed |
| Cron.CronTimer.TryHour | include/CronTimer.h:206-285 | the hour increment, with its correction |
| Cron.CronTimer.Fire | include/CronTimer.h:306-324 | the chain of increments, on the time and date fields of the date object |
| Cron.CronTimer.Gate | include/CronTimer.h:293-305 | the five tests on year, month, day, hour and minute open the gate when the clock shows the date waited for and both fields admit its time |
| Cron.CronTimer.Poll | include/CronTimer.h:287-333 | one turn of the loop: the gate, then the increments, on every field |
| Interpreter.DivisionRewrite | include/CppInterpreter.h:140-174 | rewriting the leftmost division keeps the reading of the whole expression |
| Interpreter.MultiplicationRewrite | include/CppInterpreter.h:177-211 | rewriting the leftmost multiplication, once no division is left, keeps the total |
| Interpreter.AdditionStep | include/CppInterpreter.h:247-297 | rewriting the first addition or subtraction keeps the value |
| Interpreter.DivisionPass | include/CppInterpreter.h:140-174 | the first pass ends with no division left and the same reading, or a divisor is zero |
| Interpreter.MultiplicationPass | include/CppInterpreter.h:177-211 | the second pass never fails and keeps the total |
| Interpreter.AdditionPass | include/CppInterpreter.h:247-297 | the third pass ends in the value, or fails exactly on a subtracted term below zero |
| Interpreter.NonNegativeSubtracts | include/CppInterpreter.h:268-283 | with literals from zero up no cast of an operand with a minus in front fails |
| Interpreter.ReducedIsValue | include/CppInterpreter.h:133-302 | the result for every well-formed token list: its value, or which exception |
| Interpreter.TruncDivExactly | include/CppInterpreter.h:148 | the quotient of the code is the number that leaves a remainder smaller than the divisor, zero or of the dividend's sign, if and only if |
| Interpreter.DivisionExactly | include/CppInterpreter.h:140-174 | between two literals a division yields a number if and only if it is that quotient |
| Interpreter.ProductExactly | include/CppInterpreter.h:177-211 | between two literals a multiplication yields the product and nothing else |
| Interpreter.SumExactly | include/CppInterpreter.h:247-267 | between two literals an addition yields the sum and nothing else |
| Interpreter.DifferenceExactly | include/CppInterpreter.h:268-283 | between two literals a subtraction yields the difference if and only if the second is not below zero; else the cast fails |
| Interpreter.Scan | include/CppInterpreter.h:143-165 | one sweep rewrites the leftmost operator of its level and nothing else |
| Interpreter.Splice | include/CppInterpreter.h:149-157 | the three copying loops build the list around a rewritten operator |
| Interpreter.Pass | include/CppInterpreter.h:140-174 | the inner endless loop ends and computes the pass |
| Interpreter.HandleAssignment | include/CppInterpreter.h:133-302 | the outer loop ends and computes the reduction |
| Brackets.PlugMeaning | include/CppInterpreter.h:97-132 | with each bracket replaced by its result an expression reads the same |
| Brackets.BracketedIsValue | include/CppInterpreter.h:97-132 | a bracketed expression reduces to its value, or to the exception of its leftmost failing bracket, or to that of what is around the brackets |
| Brackets.EvalBrackets | include/CppInterpreter.h:97-132 | the token loop computes that |
| Limbs.AddValue | src/Bigint.cpp:198-223 | the carry loop's result and its dropped carry make up the sum |
| Limbs.SumModulo | src/Bigint.cpp:198-223 | limbs stay in range; the result is the sum modulo 10^8 to the larger limb count, exact if and only if the sum fits |
| Limbs.DifferenceModulo | src/Bigint.cpp:225-272 | the borrow loop: the difference modulo 10^8 to the limb count, exact if and only if nothing is borrowed at the end |
| Limbs.NormalUnique | src/Bigint.cpp:47-90 | a value has one normal form |
| Bigints.CompareExactly | src/Bigint.cpp:532-568 | when `compare` ranks two numbers as their values, if and only if |
| Bigints.CompareHeads | src/Bigint.cpp:532-568 | what `compare` says of any two numbers, two negative ones included: the sign, else which magnitude is larger when everything below the top limb of the longer is cut off |
| Bigints.SubtractedModulo | src/Bigint.cpp:225-272 | same-sign subtraction modulo the limb count of the operand not ranked smaller, with its sign |
| Bigints.SubtractExactly | src/Bigint.cpp:225-272 | same-sign subtraction is exact, sign included, if and only if: for positive operands, not when the first is smaller with the same limb count and top limb; for negative ones, the first has at least the magnitude of the second |
| Bigints.AddAllModulo | src/Bigint.cpp:92-100 | over any run of same-sign additions the value stays congruent to the true sum modulo 10^8 to the initial limb count |
| Bigints.CreatedValue | src/Bigint.cpp:47-90 | every signed numeral is read as the normalized number of its value |
| Bigints.TrimExactly | src/StringUtil.cpp:223-256 | spaces around a text are cut off; a text of spaces alone stays |
| Bigints.CreatedPadded | src/Bigint.cpp:47-62 | spaces around a number make no difference |
| Bigints.MinusRefused | src/Bigint.cpp:51-58 | `create` throws "Invalid -" if and only if a minus sign stands elsewhere than in front; every other refusal is "Invalid Bigint value" |
| Bigints.ForeignRefused | src/Bigint.cpp:68-86 | a text with a character that stands in no numeral is refused |
| Bigints.PrintedIsNumeral | src/Bigint.cpp:570-596 | a normalized number prints as the numeral of its value |
| Bigints.PrintAfterParse | src/Bigint.cpp:47-90 | printing what was read is the canonical form: no leading zeros, no "-0" |
| Bigints.ParseAfterPrint | src/Bigint.cpp:570-596 | reading what was printed gives every normalized number back |
| Bigints.MultiplyExactly | src/Bigint.cpp:274-357 | for one-limb factors of any sign: exact if and only if a factor is zero, or both of these hold: the signs agree or the first numeral is longer; and no carry is lost, that is, the line at which the partial product first reaches 10^8 (if any) reaches it by itself. A lost carry makes the product exactly 10^8 short |
| Bigints.LostCarryExample | src/Bigint.cpp:274-347 | 8000000 times 13 is 4000000 |
| Bigints.UnlikeSignsExample | src/Bigint.cpp:289-296 | -5 times 12 is -420 |
| Bigints.Bigint.Create | src/Bigint.cpp:47-90 | the object's state after `create`, and its exceptions |
| Bigints.Bigint.ToString | src/Bigint.cpp:570-596 | the printing loop |
| Bigints.Bigint.AddDigits | src/Bigint.cpp:198-223 | one column of the addition stays within a 32-bit int |
| Bigints.Bigint.Ripple | src/Bigint.cpp:198-223 | the carry loop computes the limb addition |
| Bigints.Bigint.SubDigits | src/Bigint.cpp:244-262 | one column of the subtraction stays within a 32-bit int |
| Bigints.Bigint.Borrow | src/Bigint.cpp:225-272 | the borrow loop computes the limb subtraction |
| Bigints.Bigint.SumLines | src/Bigint.cpp:274-347 | the loop over the digits adds up the lines |
| Bigints.Bigint.CutLimbs | src/Bigint.cpp:68-86 | the loop cuts eight characters at a time from the right, or throws |
| Bigints.Bigint.Add | src/Bigint.cpp:92-100 | the object's state after a same-sign `add` |
| Bigints.Bigint.Subtract | src/Bigint.cpp:225-272 | the object's state after a same-sign `subtract` |
| Bigints.Bigint.Multiply | src/Bigint.cpp:274-357 | the object's state after `multiply` of one-limb numbers of any sign |
| Bigints.Bigint.CheckAndSetIfZero | src/Bigint.cpp:509-525 | no positive limb means zero with a plus |
| Bigdecimals.CreatedPointed | src/Bigdecimal.cpp:40-103 | what becomes of a text with a point: the digits left, the scale, or the exception |
| Bigdecimals.CreatedExactly | src/Bigdecimal.cpp:40-103 | such a text is refused if and only if all its digits are zeros, and is read as its value at its scale if and only if it does not end in a zero |
| Bigdecimals.CreateRefuses | src/Bigdecimal.cpp:44-77 | `create` throws "Invalid -" if and only if a minus sign stands elsewhere than in front, and "Invalid decimal Number" if and only if not so and there are two points |
| Bigdecimals.PointedRoundTrip | src/Bigdecimal.cpp:365-400 | printing what was read gives the text back if and only if it is canonical |
| Bigdecimals.WholeRoundTrip | src/Bigdecimal.cpp:365-400 | the same for texts without a point |
| Bigdecimals.AlignedOperand | src/Bigdecimal.cpp:123-138 | padded, stripped of its point and read as a whole number, an operand is the value it shows, shifted |
| Bigdecimals.AddExactly | src/Bigdecimal.cpp:123-142 | same-sign addition throws if and only if an operand does not print; it is exact if and only if neither operand ends in a zero behind the point and the aligned addition has no outgoing carry |
| Bigdecimals.PrintsExactly | src/Bigdecimal.cpp:365-400 | a number prints as its value at its scale if and only if, with fraction digits, the value does not end in a zero and has at least that many digits, or, without, no point is placed or it is placed at the end |
| Bigdecimals.SumPrintsExactly | src/Bigdecimal.cpp:123-142 | a sum prints as the exact sum if and only if neither operand ends in a zero behind its point, no carry goes out, and the exact sum does not end in a zero and has digits enough, or, without fraction digits, the first operand has no point or has it right behind as many digits as the sum |
| Bigdecimals.HalfAndHalf | src/Bigdecimal.cpp:390-394 | 0.5 and 0.5 make 1.0, which prints as ".1" |
| Bigdecimals.PointStaysBehind | src/Bigdecimal.cpp:395-398 | "12." and "988." make 1000, which prints as "10.00" |
| Bigdecimals.AddTexts | src/Bigdecimal.cpp:123-142 | for canonical texts, with or without a point, the sum is exact if and only if no carry goes out, and prints so if and only if also that condition on the exact sum and the place of the first point holds |
| Bigdecimals.Bigdecimal.Create | src/Bigdecimal.cpp:40-121 | the object's state after `create`, and its exceptions |
| Bigdecimals.Bigdecimal.Print | src/Bigdecimal.cpp:365-400 | the printing loop and where the point goes |
| Bigdecimals.Bigdecimal.Sum | src/Bigdecimal.cpp:123-142 | the body of `add`, from the printed texts to the summed limbs |
| Bigdecimals.Bigdecimal.CheckAndSetIfZero | src/Bigdecimal.cpp:105-121 | no positive limb means zero with a plus |
| Bigdecimals.Bigdecimal.Add | src/Bigdecimal.cpp:123-142 | the object's state after a same-sign `add` |
| UrlCodec.CodeIsHex | src/CryptoHandler.cpp:204-265 | each code is the character's number in upper-case hexadecimal, as in section 2.1 of RFC 3986 |
| UrlCodec.PassShow | src/CryptoHandler.cpp:176-194 | a pass over an encoded string undoes one character's escapes and does to the rest what it would do to the original |
| UrlCodec.FirstPass | src/CryptoHandler.cpp:175 | the first pass turns back exactly the escaped percent signs |
| UrlCodec.DecodedEncoded | src/CryptoHandler.cpp:172-196 | decoding an encoded string is the nineteen later passes over the original |
| UrlCodec.RoundTrip | src/CryptoHandler.cpp:172-272 | decoding gives back an encoded string if and only if the string holds none of the codes but "%25" |
| UrlCodec.UnescapedEncoded | src/CryptoHandler.cpp:198-272 | a one-pass decoder undoes the encoding for every string |
| UrlCodec.EncodedInjective | src/CryptoHandler.cpp:198-272 | no two strings have the same encoding |
| UrlCodec.PassesAgree | src/CryptoHandler.cpp:172-196 | when the twenty passes and one pass agree on an encoded string, if and only if |
| UrlCodec.EncodedClean | src/CryptoHandler.cpp:198-272 | of the escaped characters only the percent sign occurs in an encoded string, and it begins a code |
| UrlCodec.UrlEncode | src/CryptoHandler.cpp:198-272 | the switch and the loop around it compute the encoding |
| UrlCodec.Escape | src/CryptoHandler.cpp:204-269 | the switch yields each character's code, or the character |
| UrlCodec.UrlDecode | src/CryptoHandler.cpp:172-196 | the twenty lines are the twenty passes in their order |
| Routes.ExtractedFilled | src/ControllerHandler.cpp:136-150 | a parameter reads back what was put in if and only if its segment has a prefix or no suffix |
| Routes.ExtractionThrows | src/ControllerHandler.cpp:144-149 | when reading a parameter throws, if and only if |
| Routes.ParamParts | src/ControllerHandler.cpp:134-142 | `pre{name}suf` is a parameter unless it is `{}`, with that name, prefix and suffix |
| Routes.ReversedParts | src/ControllerHandler.cpp:134-142 | with the closing brace in front the name is all behind the opening one, and what is in front and behind overlaps |
| Routes.ExtractedBehind | src/ControllerHandler.cpp:144-149 | with a prefix, the value is what follows its first occurrence, as long as the segment is without prefix and suffix, or all of it when that is below zero |
| Routes.ExtractedWhole | src/ControllerHandler.cpp:143-150 | without a prefix the value is the whole segment, suffix included |
| Routes.WalkFits | src/ControllerHandler.cpp:127-162 | comparing segments throws or tells whether the template fits, exactly |
| Routes.WalkTakes | src/ControllerHandler.cpp:150 | the comparison adds its bindings to those already in the map |
| Routes.TakenLast | src/ControllerHandler.cpp:136-150 | the last parameter of a name decides its value |
| Routes.ChoiceIsDue | src/ControllerHandler.cpp:101-191 | the search throws if and only if a route throws before any fits, and else gives the verdict the first fitting route calls for |
| Routes.VerdictExactly | src/ControllerHandler.cpp:164-190 | a verdict is given if and only if it is due |
| Routes.StatusExactly | src/ControllerHandler.cpp:164-190 | which status the search leaves: invalid method if and only if it ends there; not found if and only if it does not and the first entry of the table does not fit, even when a later one is selected |
| Routes.ChoiceValues | src/ControllerHandler.cpp:99-191 | the map after the search: what rejected routes left, overlaid by the selected route's own values |
| Routes.SelectedValue | src/ControllerHandler.cpp:136-150 | every parameter of the selected route holds the value of its own segment, whatever rejected routes bound |
| Routes.SelectedWritten | src/ControllerHandler.cpp:136-150 | the same by the name that stands in the braces |
| Routes.NothingLeftOver | src/ControllerHandler.cpp:99 | when nothing of rejected routes stays in the map, if and only if |
| Routes.FilledUrl | src/ControllerHandler.cpp:94-191 | a URL made from a template selects it unless an earlier one fits or throws, and binds each parameter to the value put in if and only if it has a prefix or no suffix |
| Routes.WrittenUrl | src/ControllerHandler.cpp:94-191 | the same for paths written out: `pre{name}suf` segments and plain ones joined by slashes, values put in for the braces; `name` is bound, to the value put in if and only if `pre` is not empty or `suf` is |
| Routes.MatchSegments | src/ControllerHandler.cpp:130-161 | the inner loop |
| Routes.Select | src/ControllerHandler.cpp:94-191 | the outer loop, and the status it leaves in the response |

## Left out

- `Dates.Date.UpdateHours`: whole amounts, on time fields that hold what the setters wrote, a date from 1901 on whose fields read, and a clock that shows a minute; `updateMonths`, `updateYears` and the `add*Get` functions are not modelled.
- `Dates.Date.UpdateMinutes`: the same.
- `Dates.Date.UpdateSeconds`: the same.
- `CronRuns.PunctualExactly`: the clock does not go back and skips no minute, as it would where daylight saving time begins or ends; a minute has one reading at a day step, as it has one day step at most.
- `Dates.OperatorsCarry`: before 1 March 1900 the second count of a date is the code's own, whose order among the earlier dates is not related to the calendar's.
- `Decimal.CastPrinted`: integers are unbounded, so that `strtol` saturates at a long and the cast cuts to 32 bits is not modelled; no C++ int is affected.
- Date fields of two-digit years, `Date()` from the system clock, "ns", fractional amounts: the clock's reading is a parameter, amounts are whole numbers.
- Overflow of the C++ integer types in `setDayName` (years beyond about five million) and in `handleAssignment`: numbers are unbounded there; where the code's types matter to a claim (limb columns, the comparison key) they are modelled.
- The offset text `showFloat` prints and the `strtod` of a time zone are function parameters; only how the code uses them is modelled.
- The text parser of a cron expression, its day, month and year fields, which are "every" here, step widths of zero and ranges that start behind the last value, which it lets through.
- `Brackets.EvalBrackets`: brackets of depth one over integer literals; nested brackets and variables are not modelled.
- Templates in which two fields stand side by side.
- Floating-point instantiations of `handleAssignment`, and malformed token lists, on which the loop never ends.
- Mixed-sign `add` and `subtract` of `Bigint` and `Bigdecimal`: the two call each other without end.
- `Bigint::multiply` of more than one limb, `divide`, `decompose`, and `Bigdecimal::multiply`, `divide` and `compare`: heuristics on digit strings with no stated meaning.
- `StringUtil::trim` on texts with tabs or line breaks at their ends: only spaces are trimmed here.
- In the route search: building the table from the configuration, calling the selected function, and multi-byte upper-casing; method names are compared over ASCII.
- Sockets, process forking, signals, dynamic loading, logging, compression, OpenSSL and the code generators: input, output and foreign calls.
