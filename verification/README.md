# Prayer-time countdown — a Dafny model

This project models the deterministic rules inside the browser script of a
prayer-time page (jadwal sholat). The page loads one day's schedule of the
five daily prayers (Subuh, Dzuhur, Ashar, Maghrib, Isya) for a city. Once a
second it picks the next prayer, shows the time left as `HH:MM:SS` and
highlights that prayer's card. It also lets the user search for a city or
detect one from the device's position, falling back to Jakarta.

Time is modelled in integer milliseconds. "Now" is the offset from local
midnight of today (`0 <= now < MsPerDay`). A schedule entry `HH:MM` falls at
`HH * MsPerHour + MM * MsPerMinute` today. The following date's entry falls
one day (`MsPerDay`) later. JavaScript semantics are written out where they
matter:

- `%` truncates toward zero (`Countdown.JsRem`).
- `Math.floor` of a quotient is `Countdown.FloorDiv`.
- `String(n)` puts a minus sign before negative numbers (`Decimal.JsString`).
- `padStart(2, '0')` is `Decimal.PadStart`.
- `trim()` uses the ECMAScript whitespace and line-terminator set (`Location.IsWhitespace`).
- `||` on strings treats `""` as false (`Location.Truthy`).
- `split(' ')[0]` is `Location.FirstToken`.

Inputs from the outside world become parameters:

- the clock reading is `now`;
- the local date is `Fetcher.CalendarDate`;
- the geolocation answer is `Location.Geolocation`;
- the reverse-geocoding reply is a `Wrappers.Reply` of an optional `Location.Address`;
- the city search service is a function from query to reply.

Modules:

- `Wrappers` holds `Option` and `Reply`.
- `Decimal` covers decimal text and padding.
- `Clock` covers time-of-day arithmetic and the `HH:MM` text.
- `Schedule` covers next-prayer selection.
- `Countdown` covers splitting the difference and rendering it.
- `Highlight` covers the card classes.
- `Fetcher` covers the date in the schedule request path.
- `Location` covers the search guard, the derived query and the city fallback.
- `Scheduler` covers one tick of the countdown.

A worked example, schedule 04:30, 12:00, 15:15, 18:00, 19:15:

- At 17:59:59 the tick shows Maghrib and `00:00:01`.
- At 19:15:01 it wraps to the following date's Subuh and shows `09:14:59`: 4:44:59 to midnight plus 4:30.

## Model

| member | source | states |
|---|---|---|
| `Decimal.Show` | script.js:151 | `String(n)` of a natural number is a non-empty digit string that reads back as `n`, starts with '0' only for zero, and has one character exactly when `n < 10` |
| `Decimal.JsString` | script.js:151 | `String(n)` is the digits of `n` for `n >= 0`, and a minus sign followed by the digits of `-n` for negative `n` |
| `Decimal.PadStart` | script.js:151 | `padStart(width, fill)` yields `max(|s|, width)` characters that end with `s`, every added character being `fill` |
| `Decimal.FieldIsPadStart` | script.js:151 | the displayed field equals `String(n).padStart(2, '0')` for every integer `n` |
| `Decimal.FieldOfNat` | script.js:151 | a non-negative field has at least two digits and reads back as `n`; below 10 it is exactly '0' followed by the digit; from 10 on it is unpadded; below 100 it has exactly two characters |
| `Decimal.TwoDigitField` | script.js:59-60 | every two-digit text is the padded field of its own value, so padding loses nothing |
| `Clock.TodayAt` | script.js:116-117 | an entry's moment today lies within the day on a whole minute, and its hour and minute can be read back from it by division |
| `Clock.TomorrowAt` | script.js:127-128 | the same time of day on the following date lies within the second day, exactly one day after today's moment |
| `Clock.TodayAtOrder` | script.js:119 | comparing entries' moments compares hour, then minute; two entries fall at the same moment only when equal |
| `Clock.ParseFormatClock` | script.js:116 | formatting a valid time of day as `HH:MM` and splitting it at ':' gives the time of day back |
| `Clock.FormatParseClock` | script.js:116 | splitting a well-formed `HH:MM` text and formatting the parts again gives the text back |
| `Schedule.Entries` | script.js:102-108 | the schedule lists five entries named Subuh, Dzuhur, Ashar, Maghrib, Isya in that order, each paired with that prayer's own time; no name appears twice; every entry's time is valid exactly when the day's schedule is |
| `Schedule.FirstUpcomingFrom` | script.js:115-123 | the scan from a position returns the first entry strictly later than now, with every earlier scanned entry at or before now, or nothing when none is later |
| `Schedule.SelectNext` | script.js:115-130 | the target is strictly after now and at most one day after it; if some entry is later today it is the earliest-listed such entry at its moment today; otherwise it is the first entry at its time on the following date |
| `Schedule.ScanForNext` | script.js:115-130 | the `for … of` loop with `break` followed by the wrap computes exactly the selection `SelectNext` specifies |
| `Schedule.SelectedIndex` | script.js:119-129 | the chosen name belongs to a listed entry: the first upcoming one, or the first entry when all have passed |
| `Schedule.NextPrayer` | script.js:102-130 | for a day's schedule the next prayer is one of the five names, strictly in the future and within a day; unless every prayer has passed, it is the earliest-listed entry still ahead today, at its moment today; after every prayer has passed it is Subuh at Subuh's time tomorrow; before Subuh it is today's Subuh |
| `Schedule.ChronologicalSelection` | script.js:115-130 | on a schedule in increasing time order, the wrap happens exactly when now is at or after the last entry; entry `i` is chosen exactly when its predecessor has passed and it has not |
| `Countdown.JsRem` | script.js:147-148 | JavaScript `%`: the dividend is the truncated quotient times the divisor plus the remainder, and the remainder has the dividend's sign and is smaller than the divisor in magnitude |
| `Countdown.FloorDiv` | script.js:146-148 | `Math.floor(a / b)` is the greatest `q` with `q * b <= a` |
| `Countdown.Decompose` | script.js:144-148 | for a non-negative difference, 0 <= minutes < 60, 0 <= seconds < 60, hours >= 0, and the fields account for the difference up to less than one second; for a negative difference every field is at or below zero |
| `Countdown.DecomposeMillis` | script.js:146-148 | the decomposition is the inverse of `hours*3600000 + minutes*60000 + seconds*1000` plus sub-second milliseconds for every in-range span |
| `Countdown.Render` | script.js:151 | each field takes at least two characters, so the text has at least eight; negative hours put a minus sign first |
| `Countdown.CountdownText` | script.js:144-151 | a negative difference shows a minus sign first; a difference under 100 hours shows eight characters `HH:MM:SS` of digits whose fields, read back as hours, minutes and seconds, account for the difference up to less than one second |
| `Countdown.RenderReadsBack` | script.js:151 | a span under 100 hours renders as eight characters `HH:MM:SS` whose three fields read back as hours, minutes and seconds |
| `Highlight.Mark` | script.js:160-164 | one card carries the highlight class exactly when its `data-prayer` equals the name; its attribute and other classes are unchanged |
| `Highlight.HighlightCards` | script.js:158-165 | after the pass, card `i` is highlighted exactly when its `data-prayer` equals the chosen name; the number of cards, their attributes and all other classes are unchanged |
| `Highlight.HighlightIdempotent` | script.js:158-165 | repeating the pass with the same name, as every tick does, changes nothing |
| `Highlight.HighlightOverrides` | script.js:158-165 | a pass for a new name fully replaces the previous pass: no stale highlight survives |
| `Highlight.ExactlyOneHighlighted` | script.js:158-165 | when cards carry distinct `data-prayer` names and one matches, exactly that card is highlighted |
| `Fetcher.DatePath` | script.js:57-60 | the date path is the year, '/', two-digit month, '/', two-digit day; the month text reads back as `getMonth() + 1` (so 01–12) and the day text as `getDate()` |
| `Fetcher.SchedulePath` | script.js:62 | the schedule request path is `/sholat/jadwal/`, the city identifier, '/', then the date path, each recoverable at its position |
| `Location.TrimStart` | script.js:172 | the result is a suffix of the input, everything removed is whitespace, and it does not start with whitespace |
| `Location.TrimEnd` | script.js:172 | the result is a prefix of the input, everything removed is whitespace, and it does not end with whitespace |
| `Location.Trim` | script.js:172 | the input is whitespace, then the result, then whitespace, and the result has no whitespace at either end |
| `Location.TrimIgnoresPadding` | script.js:172 | adding whitespace on either side of a text does not change its trimmed form |
| `Location.TrimIdempotent` | script.js:172 | trimming twice is trimming once |
| `Location.Utf16Length` | script.js:173 | a text's `length` lies between its character count and twice it, and equals the character count exactly when no character is outside the Basic Multilingual Plane |
| `Location.Utf16LengthAppend` | script.js:173 | `length` adds up over concatenation, and one character counts one unit in the Basic Multilingual Plane and two outside it; with the empty text at zero this fixes `length` of every text |
| `Location.SearchQuery` | script.js:172-176 | no request is made exactly when the trimmed input's `length` (UTF-16 units) is below 3; otherwise the query is the trimmed input |
| `Location.TwoSupplementaryPass` | script.js:172-179 | two characters outside the Basic Multilingual Plane have a `length` of four and are searched for |
| `Location.BmpGuard` | script.js:172-176 | for a trimmed text of Basic Multilingual Plane characters, the search happens exactly when it has at least three characters |
| `Location.SearchQueryIgnoresPadding` | script.js:172-176 | whitespace typed around the input never changes whether a search happens or what is searched for |
| `Location.Locality` | script.js:225 | the locality is never empty: the city when it is a non-empty string, else the state when it is, else the "Lokasi Tidak Dikenal" placeholder |
| `Location.FirstToken` | script.js:228 | `split(' ')[0]` is the longest prefix without a space: a prefix of the input that contains no space and is followed by a space or by the end |
| `Location.FirstTokenOfWords` | script.js:228 | the first token of a space-free word, alone or followed by a space and more text, is that word |
| `Location.LocationQuery` | script.js:225-228 | the derived search query is the longest space-free prefix of the locality: it is followed by a space or by the end of the locality |
| `Location.ResolveCity` | script.js:231-238 | the city is the first candidate when the list is present and non-empty, and ('1301', 'Kota Jakarta') otherwise |
| `Location.DetectCity` | script.js:216-254 | for every combination of answers from the browser and the two services, detection ends with a city to load; the user is warned exactly when geolocation is unavailable or denied, the reverse lookup fails or has no address, the search throws, or it returns no candidate; a warning always comes with Jakarta; otherwise the city is the first candidate for the query derived from the address |
| `Scheduler.RemainingWithinADay` | script.js:144-146 | the time left until the chosen prayer decomposes into in-range fields with at most 24 hours |
| `Scheduler.Tick` | script.js:110-151 | one tick publishes the chosen prayer's name and the countdown text of a strictly positive remaining time; the text has eight characters whose fields read back as the decomposition, hours at most 24; exactly the cards named for that prayer are highlighted |
| `Scheduler.MaghribIsNext` | script.js:115-123 | on the sample schedule, at any moment from Ashar up to Maghrib the next prayer is Maghrib at 18:00 today |
| `Scheduler.SubuhTomorrowAfterIsya` | script.js:126-130 | on the sample schedule, from Isya to midnight the next prayer is Subuh at 04:30 on the following date |
| `Scheduler.OneSecondBeforeMaghrib` | script.js:110-151 | on the sample schedule at 17:59:59 the tick shows Maghrib and `00:00:01` |
| `Scheduler.JustAfterIsya` | script.js:110-151 | on the sample schedule at 19:15:01 the tick shows Subuh and `09:14:59` |
| `Scheduler.TickAsWritten` | script.js:142-151 | with the source's second clock reading, earlier or later than the first, the name and highlight still come from the moment of selection |
| `Scheduler.StaleReadingShowsNegative` | script.js:143-151 | if the clock passes the target between the two readings, the countdown as written shows `-1:-1:-1` |
| `Scheduler.MinusOneMillisecond` | script.js:146-151 | a difference of -1 ms renders as `-1:-1:-1` under JavaScript's floor and truncating remainder |
| `Scheduler.AsWrittenWithOneReading` | script.js:143-144 | when both clock readings agree, the tick as written is the corrected tick |

## Left out

- DOM reads and writes, `alert` and `console.error`. Only the highlight rule and the published name and text are modelled; an alert is the `warned` flag of `Location.DetectCity`.
- `fetch`, the schedule service, the city search service, reverse geocoding and `navigator.geolocation` are I/O. Their answers are parameters, and the coordinates are not modelled.
- The response-envelope check in `getPrayerTimes` (script.js:63-78) is not modelled. It is a status test on the reply, followed by an alert and a "Gagal Memuat" label on failure.
- `updateUIPrayerTimes` (script.js:86-93) only copies text into the page.
- `displaySearchResults` and the click handler that loads a chosen result (script.js:193-211) only build and clear DOM nodes.
- `setInterval`, `clearInterval` and the replacement of the single countdown timer (script.js:100, 110, 135) are left out. The asynchronous ticking itself is not modelled; one tick is `Scheduler.Tick`.
- `startLiveClock` and `displayCurrentDate` (script.js:34-48) use the browser's locale formatting.
- Calendar details of the JavaScript `Date` are not modelled: month and day overflow of `getDate() + 1`, daylight-saving shifts and time zones. "Tomorrow" is exactly `MsPerDay` later.
- The search query is put into the request URL without encoding. Only the guard and the trimmed query are modelled, not the URL text.
- Clock.ParseClock: only canonical `HH:MM` texts (two digits each, hour below 24, minute below 60) are modelled. The source does not validate, and JavaScript's number conversion of other texts (which can yield an invalid date that never compares as later) is not modelled.
- Location.DetectCity: an answer that never arrives is not modelled. `getCurrentPosition` is called without a timeout (script.js:219), and neither `fetch` (script.js:223, 228) has one, so an unanswered permission prompt or a hung request leaves the page without a city; every answer in the model arrives.
- Location.DetectCity: the reply of the city search is modelled as a present or missing list of candidates. A `data` field that is neither is not modelled.
- Fetcher.DatePath: `getMonth()` and `getDate()` are taken as valid (0–11 and 1–31). The date-range rule of a real calendar (for example 30 days in April) is not checked.

## Findings

| source | as written | input that shows it | evidently intended | confidence | as-written member | corrected member |
|---|---|---|---|---|---|---|
| script.js:111-144 | the next prayer is chosen with one clock reading (line 111), but the remaining time subtracts a second reading (line 143) | Maghrib at 18:00; first reading 17:59:59.999, second reading 18:00:00.001; the difference is -1 ms and the countdown reads `-1:-1:-1` | the remaining time is measured from the moment used for the choice, so it is always positive | low (not executed; needs the clock to cross the target's millisecond within one tick) | `Scheduler.StaleReadingShowsNegative` | `Scheduler.Tick` |
