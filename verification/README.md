# Daily note viewer: date keys and calendar

The viewer is a single script, `app.js`, that shows one image per day. It
names each day by a text key `YYYY-MM-DD`. It lets the reader step back and
forth by one day, but never before a configured start day. It also lists
every day from the start day to today in an archive. This project models the
script's date core:

- `pad`, `toKey`, `parseKey` and `addDays`;
- the part of `loadNote` that decides what is shown: the clamp to the start
  day, the key, the "Today" label, the disabled "next" button and the image
  path;
- the days and keys `buildArchive` lists;
- the navigation handlers that feed `loadNote`.

The model is split into modules:

- `Wrappers` holds `Option`. `None` stands for `NaN` or an Invalid Date.
- `Decimal` spells numbers as `String(n)`, `Number(s)` and `padStart` do.
- `Calendar` holds proleptic Gregorian civil dates. It defines JavaScript's
  `new Date(y, m, d)` normalisation (`Normalize`, `NewDate`) and
  `setDate`-based day arithmetic (`AddDays`). Everything is checked against
  an independent closed-form day count (`DayNumber`).
- `DateKey` holds `split("-")`, `toKey` and `parseKey`, with the round trip
  and injectivity of keys.
- `KeyOrder` shows that string order on keys is chronological order.
- `Viewer` holds the settings, `loadNote`, the navigation handlers and
  `buildArchive`.

The current moment is a parameter `today`, a whole day. Every date is a
local calendar day.

## Model

| member | source | states |
|---|---|---|
| Decimal.Pad | app.js:13 | `pad(n)` is at least two characters long, and exactly two characters exactly when `n < 100` |
| Decimal.PadSpells | app.js:13 | `pad(n)` is all digits and `Number` reads it back as `n` |
| Decimal.PadIsPadStart | app.js:13 | the two-case definition of `pad` equals `String(n).padStart(2, "0")` for every `n` |
| Decimal.PadInjective | app.js:13 | different numbers pad to different strings |
| Decimal.NatToString | app.js:13-20 | `String(n)` of a non-negative integer: the decimal digits of `n`, most significant first, at least one character; `Decimal.NatToStringSpells`, `Decimal.NumberOfString` and `Decimal.NatToStringInjective` state that it is a digit string without superfluous leading zero, that `Number` reads it back and that it is injective |
| Decimal.NatToStringSpells | app.js:17-20 | `String(n)` of a non-negative integer is a digit string of value `n` with no superfluous leading zero |
| Decimal.NumberOfString | app.js:25 | `Number(String(n)) == n` |
| Decimal.IntToString | app.js:20 | the year's spelling starts with a minus sign exactly for negative years |
| Decimal.NatToStringInjective | app.js:17-20 | different non-negative numbers are spelled differently |
| Decimal.IntToStringInjective | app.js:17-20 | different years are spelled differently |
| Decimal.ToNumber | app.js:25 | `Number` of a piece gives a number exactly when the piece is a digit string; any other piece gives `None` (`NaN`) |
| Decimal.PadStart | app.js:13 | `padStart` keeps the string as its suffix, fills the front with the filler and reaches the requested width |
| Calendar.DaysInMonth | app.js:29-33 | month lengths are 28 to 31, and 29 exactly for February of a Gregorian leap year |
| Calendar.Next | app.js:29-33 | the following calendar day is a valid date one day later |
| Calendar.Prev | app.js:29-33 | the preceding calendar day is a valid date one day earlier |
| Calendar.NextPrevInverse | app.js:29-33 | stepping one day forward and one back, in either order, returns the same day |
| Calendar.RolloverExamples | app.js:29-33 | leap days, month ends and year ends roll over as the Gregorian calendar requires, including 1900 (not leap) and 2000 (leap) |
| Calendar.Shift | app.js:29-33 | moving day by day `n` times gives a valid date exactly `n` days later |
| Calendar.Normalize | app.js:26 | `new Date(y, mi, dt)` gives a valid date, and an in-range month and day are kept as given |
| Calendar.NormalizeCounts | app.js:26 | for any month index and day, the result lies `dt - 1` days after the 1st of the month that `mi` names, with whole years carried out of `mi` |
| Calendar.NewDate | app.js:26 | the `Date` constructor keeps an in-range date unchanged, except that years 0..99 become 1900..1999 |
| Calendar.AddDays | app.js:29-33 | `addDays(d, n)` is a valid date exactly `n` days after `d` |
| Calendar.AddDaysZero | app.js:29-33 | `addDays(d, 0) == d` |
| Calendar.AddDaysInverse | app.js:29-33 | `addDays(addDays(d, n), -n) == d` |
| Calendar.AddDaysAdd | app.js:29-33 | `addDays(addDays(d, m), n) == addDays(d, m + n)` |
| Calendar.AddDaysOne | app.js:29-33 | `addDays` by 1 and by -1 are the next and previous calendar day |
| Calendar.AddDaysLater | app.js:29-33 | `addDays(d, n)` is later than `d` exactly when `n > 0` |
| Calendar.AddDaysReaches | app.js:29-33 | every valid day is reached from every other by `addDays` with the difference of their day counts |
| Calendar.Before | app.js:64 | the `<` the script applies to two dates (and, negated, the `<=` of the archive loop at line 125): year, then month, then day compared in turn; `Calendar.BeforeIffEarlier`, `Calendar.BeforeTotal` and `Calendar.BeforeTransitive` state that it agrees with comparing day counts and is a strict total order |
| Calendar.BeforeIffEarlier | app.js:64 | comparing two days field by field agrees with comparing their day counts |
| Calendar.BeforeTotal | app.js:64 | two days are equal or one is before the other, never both ways |
| Calendar.BeforeTransitive | app.js:64 | "before" and "not before" are transitive |
| Calendar.DayNumberInjective | app.js:29-33 | different valid days have different day counts |
| DateKey.Split | app.js:25 | `key.split("-")`: the pieces between separators, in order, always at least one; `DateKey.SplitJoinsBack` and `DateKey.SplitJoin` state that joining the pieces gives the input back, that no piece holds the separator, and that splitting a join of such pieces gives the pieces back |
| DateKey.SplitJoinsBack | app.js:25 | joining the pieces `split` returns with the separator gives the input back, and no piece contains the separator |
| DateKey.SplitJoin | app.js:25 | splitting pieces that hold no separator, once joined, gives the pieces back |
| DateKey.ToKey | app.js:15-21 | `toKey(d)` writes the year's spelling, a dash, the padded month, a dash and the padded day; `DateKey.KeyShape`, `DateKey.SplitKey`, `DateKey.ParseToKey` and `DateKey.ToKeyInjective` state where its dashes fall, what `split` recovers from it, what `parseKey` reads back and that different days get different keys |
| DateKey.KeyShape | app.js:15-21 | a key has dashes 6 and 3 characters from the end; for years 1000..9999 it is 10 characters long with dashes at positions 4 and 7 |
| DateKey.SplitKey | app.js:15-21 | for non-negative years, splitting a key at `-` gives exactly the year's spelling, the padded month and the padded day |
| DateKey.KeyReadsBack | app.js:23-27 | for non-negative years, `parseKey(toKey(d))` is `new Date(year, month - 1, day)` |
| DateKey.ParseKey | app.js:23-27 | `parseKey` gives a valid date exactly when the key has at least three dash-separated pieces and the first three are digit strings |
| DateKey.ParseToKey | app.js:23-27 | `parseKey(toKey(d)) == d` for every year from 100 on |
| DateKey.ParseToKeyTwoDigitYear | app.js:23-27 | for years 0..99, `parseKey(toKey(d))` is the same month and day in year 1900 plus the year, whenever that day exists |
| DateKey.TwoDigitYearsCovered | app.js:23-27 | in years 0..99 only the leap day of the year 0 lacks a counterpart in the 1900s |
| DateKey.TwoDigitLeapDay | app.js:23-27 | the key `0-02-29` of the leap day of the year 0 reads back as 1900-03-01, because 1900 is not a leap year |
| DateKey.KeyReadsBackNegative | app.js:15-27 | for a negative year, the key's empty first piece reads as 0: `parseKey(toKey(d))` is `new Date(0, -year - 1, month)` |
| DateKey.SplitNegativeKey | app.js:15-26 | a key for a negative year splits into an empty piece, the year's digits, the padded month and the padded day |
| DateKey.ParseToKeyNegativeYear | app.js:15-27 | a key for a negative year parses, but never back to its own day |
| DateKey.NegativeYearExample | app.js:15-27 | the key `-5-03-04` reads back as 1900-05-03 |
| DateKey.ToKeyInjective | app.js:15-21 | different days have different keys |
| KeyOrder.LexAppend | app.js:15-21 | behind equally long heads, string order is decided by the heads, and the tails break ties |
| KeyOrder.LexDigits | app.js:13 | equally long digit strings compare as text exactly as their values compare, and are equal exactly when their values are |
| KeyOrder.KeyFields | app.js:15-21 | two keys compare as text by year, then month, then day |
| KeyOrder.YearOrder | app.js:17-20 | four-digit years compare as text as they compare as numbers |
| KeyOrder.PadOrder | app.js:18-19 | padded months and days compare as text as they compare as numbers |
| KeyOrder.KeyOrderIsDayOrder | app.js:15-21 | for years 1000..9999, one key is less than another as text exactly when its day is earlier |
| Viewer.AppConfig | app.js:3-9 | the start day parsed from `"2026-02-20"` is 20 February 2026; the extension is `jpg` and the folder is `notes` |
| Viewer.StartDateParses | app.js:42 | `START_DATE` is the key of 2026-02-20 and parses back to that day |
| Viewer.Clamp | app.js:63-64 | the clamped day is the requested day or the start day, and it is before neither |
| Viewer.LoadNote | app.js:62-95 | the shown day is never before the start day. A day from the start on is shown as requested; an earlier day shows the start day. The key is the shown day's key. The status is "Today" and "next" is disabled exactly when the shown day is today. The image source is folder, `/`, key, `.`, extension |
| Viewer.LoadNoteIdempotent | app.js:62-95 | loading the day a view shows gives the same view again |
| Viewer.NotePathsDistinct | app.js:76 | views of different days load different image files |
| Viewer.SelectKey | app.js:129-130 | choosing a key gives a view exactly when the key parses |
| Viewer.Navigate | app.js:97-110 | each handler shows a valid day. "previous" and the left arrow key load the day before, clamped to the start day. An enabled "next" and the right arrow key load the day after, clamped. "today" loads today, clamped. A click on a disabled "next" button changes nothing; any other input leaves exactly the view `loadNote` builds for the day shown (status, note path and "next" flag included), a day no earlier than the start day |
| Viewer.PreviousStaysInRange | app.js:98 | "previous" from a day between the start day and today stays between them |
| Viewer.NextStaysInRange | app.js:92-99 | "next", when not disabled, from a day between the start day and today moves to the following day and stays no later than today |
| Viewer.ArrowRightPassesToday | app.js:109 | on today's note, where "next" is disabled, the right arrow key still shows tomorrow |
| Viewer.LoadNoteInRange | app.js:62-95 | loading a day no later than today, when the start day is no later than today, shows a day between the two with "next" disabled exactly on today |
| Viewer.NavigationStaysInRange | app.js:92-110 | when the right arrow key is guarded like the "next" button, every input keeps the shown day between the start day and today, with "next" disabled exactly on today |
| Viewer.NavigateGuarded | app.js:92-110 | the corrected handlers: when "next" is disabled the right arrow key changes nothing; otherwise it loads the following day, clamped; every other input acts as written; whatever changes, the result is the view `loadNote` builds for the day shown |
| Viewer.ArchiveDays | app.js:119-136 | every day the archive loop visits is a valid date |
| Viewer.ArchiveCons | app.js:125-134 | a non-empty archive starts with a day no later than today, followed by the archive from the next day |
| Viewer.BuildArchive | app.js:119-136 | the loop appends exactly the keys of the archive days, in the order it visits them |
| Viewer.ArchiveLength | app.js:125-134 | the archive from `d` has one entry per day from `d` to today, and none when `d` is after today |
| Viewer.ArchiveDayAt | app.js:123-134 | entry `k` is the day `k` days after the start day |
| Viewer.ArchiveEnds | app.js:122-125 | the archive is empty exactly when the start day is after today; otherwise it starts with the start day and ends with today |
| Viewer.ArchiveLast | app.js:122-125 | a non-empty archive ends with today |
| Viewer.ArchiveConsecutive | app.js:134 | each entry is `addDays(previous entry, 1)` |
| Viewer.ArchiveAscending | app.js:125-134 | entries are in strictly increasing chronological order |
| Viewer.ArchiveComplete | app.js:122-135 | a day is listed exactly when it is neither before the start day nor after today |
| Viewer.ArchiveKeysDistinct | app.js:126 | no two archive buttons carry the same key |
| Viewer.ArchiveKeysAscending | app.js:126-133 | for years 1000..9999 the buttons' keys are in strictly increasing text order |
| Viewer.ArchiveSelectionLoadsEntry | app.js:126-130 | from year 100 on, the button for an entry parses its key back to that day and loads it; the view shows that day and that key |

## Left out

- The page itself is not modelled: element lookups, text and style updates, the image's `onerror`/`onload` handlers, the help message and the archive panel toggle. None of these affects which day or key is chosen.
- `formatPretty` is not modelled. It depends on the browser's locale.
- Time of day, time zones and daylight-saving shifts are not modelled. Every `Date` is a whole local day, and `today` is a parameter.
- `todayKey` is computed once when the page loads. A page left open past midnight keeps the old key. The model takes one `today` for the whole session.
- `Decimal.ToNumber` is weaker than `Number`: whitespace, signs, decimal points, exponents and hexadecimal give `None` here, while JavaScript accepts some of them. Keys that `toKey` produces never contain them.
- `DateKey.ParseToKeyTwoDigitYear` requires that the day exist in the 1900s. That excludes only 0000-02-29, because the year 0 is a leap year and 1900 is not (`DateKey.TwoDigitYearsCovered`). Its key `0-02-29` reads back as 1900-03-01 (`DateKey.TwoDigitLeapDay`).
- `DateKey.ParseToKey` requires years from 100 on. For years 0..99 the `Date` constructor moves the day into the 1900s, which `DateKey.ParseToKeyTwoDigitYear` states. For negative years the key starts with `-`, so `split` yields an empty first piece, which `Number` reads as 0. The year's digits are then read as the month and the month as the day, so the key reads back as a day from 1900 on (`DateKey.KeyReadsBackNegative`, `DateKey.ParseToKeyNegativeYear`).
- `KeyOrder.KeyOrderIsDayOrder` and `Viewer.ArchiveKeysAscending` are limited to years 1000..9999. Outside that range years are spelled with a different number of digits, and text order and day order differ.
- The range limit of JavaScript time values (±100,000,000 days from 1970) is not modelled. Integers are unbounded.
- Missing images: on a missing image, `onerror` only shows a message and removes the image source (app.js:81-86). No earlier day is loaded, and the model has no such step.

## Findings

| source | as written | input that shows it | evidently intended | confidence | as-written member | corrected member |
|---|---|---|---|---|---|---|
| app.js:109 | the right arrow key calls `loadNote(addDays(current, 1))` without checking the disabled "next" button | on today's note, press the right arrow key: tomorrow's note is shown | the viewer never shows a day after today; the right arrow key obeys the same guard as the "next" button (app.js:92-93) | medium, not executed | Viewer.ArrowRightPassesToday | Viewer.NavigationStaysInRange |
