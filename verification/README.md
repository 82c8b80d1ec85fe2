# Parking booking job: decision core

This project models the decision logic of the scheduled parking booking job
(`parking.py`) and proves properties of it in Dafny. Each run of the job works
out which day to book, logs in, and searches two office locations for free
parking spaces. It then books the first one it can. It keeps two "forbidden"
spaces in reserve and tries one of them only when nothing else could be
booked, and it retries until its time budget runs out.

Modules, one per concern of the job:

- `Options`: optional values, and the rule that a string setting (an
  environment variable, the login token) counts as set only when it is
  present and non-empty (Python truthiness).
- `Decimal`: decimal digit strings. They are used for the zero-filled date
  fields and for Python's `str` of a numeric resource id.
- `Calendar`: the proleptic Gregorian calendar of Python's `datetime.date`.
  A day is an ordinal (0001-01-01 is day 1). The weekday counts from
  Monday = 0. The text form is the `full-date` of section 5.6 of RFC 3339.
- `TargetDate`: `get_target_date`.
- `Spaces`: the booking window strings, the request fields built from them,
  and the free-space extraction of `get_available_spaces` on a decoded
  response.
- `Selection`: one iteration of the booking loop. The first pass covers
  non-forbidden spaces in location order, then list order. After that comes
  at most one forbidden space.
- `Handler`: `lambda_handler`. This covers its early returns, the order of its
  calls to the booking service, and the retry loop.

The booking service is replaced by oracles:

- the login reply is an optional token;
- each search reply is a function from location to `SearchReply`;
- each booking attempt is a function from space id to success.

`random.choice` is a chosen index `pick` into the forbidden candidates; every
proved property holds for every index. Today's date, the manual override and
the password are parameters. The loop's stop test is an abstract per-iteration
flag `timeUp`. The inputs list exactly the iterations the time budget allows,
so `timeUp` is set on the last one only.

## Model

| member | source | states |
|---|---|---|
| `Decimal.IntToString` | parking.py:97 | `str` of a numeric id: a minus sign exactly for negative ids, followed by digits with no leading zero whose value is the id's magnitude |
| `Decimal.NatToStringCanonical` | parking.py:97 | any digit string without a leading zero is exactly the text of its value, so `str` of a number is its one shortest decimal text |
| `Decimal.IntToStringInjective` | parking.py:97 | two different numeric ids never give the same text, so stringifying keeps ids apart |
| `Calendar.FromOrdinal` | parking.py:44 | every day number from 1 to 3652059 names a valid date (years 1 to 9999), and that date's ordinal is the number again |
| `Calendar.OrdinalRoundTrip` | parking.py:44 | every valid date, converted to its day number and back, is unchanged, so day numbers and dates correspond one to one |
| `Calendar.FindYearBounded` | parking.py:44 | the year found for any day number from 1 to 3652059 is at most 9999, so every such day is a date Python can hold |
| `Calendar.WeekdayAnchoredOnMonday` | parking.py:34 | the weekday advances by one per day modulo 7, and Monday is 0 (0001-01-01 and 2024-01-01 are Mondays) |
| `Calendar.Weekday` | parking.py:34 | the weekday lies in 0..6 and is Monday (0) exactly on the days 1, 8, 15, ... counted from 0001-01-01 |
| `Calendar.ParseFormat` | parking.py:46 | the `YYYY-MM-DD` text of a valid date reads back as an RFC 3339 full-date equal to that date |
| `Calendar.FormatParse` | parking.py:46 | any text that reads as a full-date is exactly the formatted text of the date it names |
| `Calendar.FormatFullDate` | parking.py:46 | the text is ten characters: four digits, a dash, two digits, a dash, two digits |
| `TargetDate.DaysAhead` | parking.py:36-42 | there is no distance exactly for Saturday and Sunday (and for values outside 0..6); otherwise the distance is 2 or 4 and lands on a working day |
| `TargetDate.TargetDay` | parking.py:36-44 | no day is produced exactly on Saturday and Sunday; otherwise the booked day lies 1 to 4 days after today |
| `TargetDate.TargetDayWeekday` | parking.py:36-44 | Mon books Wed, Tue Thu, Wed Fri, Thu the next Mon, Fri the next Tue, so the booked day is always a working day |
| `TargetDate.TargetIsSecondWorkingDay` | parking.py:36-44 | compared with an independent count of working days, the booked day is exactly the second working day after today |
| `TargetDate.GetTargetDate` | parking.py:29-46 | a set override is returned verbatim; without one, the result is Weekend exactly on Sat/Sun, an overflow exactly when the day passes 9999-12-31, and otherwise a full-date text that reads back as the booked day |
| `TargetDate.TargetDateIsWorkingDay` | parking.py:33-46 | without an override, the produced date text names a working day |
| `TargetDate.EmptyOverrideIgnored` | parking.py:30 | an empty override behaves like no override |
| `Spaces.BookingWindow` | parking.py:74-75 | both window ends begin with the target date and have the same length, 12 characters more than the date |
| `Spaces.WindowRoundTrip` | parking.py:74-75 | the date is recovered from the window: the start carries `T08:00+01:00` and the end `T18:00+01:00` after one and the same date |
| `Spaces.WindowDateExact` | parking.py:116-117 | any window that carries the two fixed times after a common date is exactly the booking window of that date |
| `Spaces.SameWindowEverywhere` | parking.py:116-122 | search and booking for one date send the same window, both as the top-level fields and as the single `dates` entry, and that window carries the date |
| `Spaces.SearchRequestFor` | parking.py:74-85 | a search is a `parking` search in language `pl`, and its window, at the top level and as the one `dates` entry, reads back as the target date |
| `Spaces.BookingRequestFor` | parking.py:116-130 | a booking's window reads back as the target date and is also the one `dates` entry; its resource list is the space id in brackets, and the extras are empty |
| `Spaces.IdText` | parking.py:97 | a string id is used as it is; a numeric id becomes its decimal text, with a minus sign exactly when it is negative, and a non-negative one has no leading zero and reads back as the number |
| `Spaces.IsFree` | parking.py:97 | a resource is free exactly when its status is present and equals `free`; a missing status is not free |
| `Spaces.FreeIds` | parking.py:97 | the extraction fails (the `KeyError` path) exactly when some free resource has no id, and otherwise lists at most one id per resource |
| `Spaces.AvailableSpaces` | parking.py:87-108 | a failed request, a location missing from the response, or a missing resource list gives the empty list; otherwise the result is the free-id extraction of that location's resources, or the empty list on the `KeyError` path |
| `Spaces.FreeIdsAppend` | parking.py:97 | extracting from a concatenation concatenates the extractions, so input order is kept |
| `Spaces.FreeIdsExact` | parking.py:97 | the extracted list is exactly, position by position, the stringified ids at the increasing positions of the free resources |
| `Spaces.FreeIdsMembership` | parking.py:97 | a text is listed exactly when some resource with status `free` has it as its stringified id |
| `Selection.InLocation` | parking.py:187-188 | one location's candidates are exactly its non-forbidden spaces, each tagged with that location |
| `Selection.InLocationSingle` | parking.py:187-188 | a single space is offered, tagged with its location, exactly when it is not forbidden |
| `Selection.InLocationAppend` | parking.py:187-188 | within a location the candidates of a concatenated list are the concatenated candidates, so list order is kept |
| `Selection.FilterForbidden` | parking.py:195 | exactly the forbidden spaces of a list are kept |
| `Selection.Preferred` | parking.py:186-188 | no forbidden space ever appears in the first-pass order |
| `Selection.ForbiddenCandidates` | parking.py:193-195 | every forbidden candidate is one of the forbidden ids |
| `Selection.PreferredAppend` | parking.py:186-187 | earlier locations' candidates all come before later locations' candidates |
| `Selection.PreferredMembership` | parking.py:186-188 | a (space, location) pair is offered in the first pass exactly when the space is not forbidden and was found at that location |
| `Selection.ForbiddenCandidatesMembership` | parking.py:193-195 | a space is a forbidden candidate exactly when it is forbidden and was found at some location |
| `Selection.CandidatesPartitionFound` | parking.py:186-195 | every space found is offered exactly once, either in the first pass or among the forbidden candidates |
| `Selection.FirstPass` | parking.py:186-191 | candidates are tried in order; all tries but the last failed; a booking happens exactly when some candidate succeeds, and it is the last one tried; otherwise every candidate was tried |
| `Selection.RunRound` | parking.py:185-200 | only the last attempt can be forbidden or succeed; a first-pass booking happens exactly when some preferred space succeeds, and it is the first preferred candidate (space and location) that succeeds; otherwise every preferred candidate was tried in order, then, if forbidden spaces were found, exactly the one at `pick`, and the round books it exactly when that attempt succeeds; with none found the round books nothing |
| `Selection.RoundFollowsPreferredOrder` | parking.py:186-190 | the non-forbidden spaces tried are the first-pass candidates, in order, from the first one on |
| `Selection.ForbiddenIsLastResort` | parking.py:193-199 | a forbidden attempt is the last, comes after every first-pass candidate failed, is drawn from the forbidden spaces found, and is the only one in the iteration |
| `Handler.Gather` | parking.py:181-183 | availability is gathered once per location, in the order of the location list, and each entry holds that location's extracted free spaces |
| `Handler.BookedBody` | parking.py:190-199 | only an iteration that booked nothing gets the 404 body; a booking's body names the space and its location, and a forbidden booking's body ends with the space |
| `Handler.RoundCalls` | parking.py:181-198 | an iteration first searches each location in list order, then makes one booking call per space tried, in order, and the k-th booking call asks for exactly the k-th space tried |
| `Handler.Loop` | parking.py:180-209 | the loop always returns a response, either 200 or 404 with the "no available spaces" body |
| `Handler.LoopFailsOnlyIfEveryRoundFails` | parking.py:202-209 | the loop answers 404 exactly when no iteration the time budget allows booked anything |
| `Handler.RoundCallsUseWindow` | parking.py:183-198 | every search and booking call of an iteration asks for the booking window of the target date |
| `Handler.LoopCallsUseWindow` | parking.py:180-206 | every call made by the loop, across all iterations, asks for the window of the target date |
| `Handler.LoopStopsAtFirstBooking` | parking.py:189-206 | a 200 from the loop reports the booking of the first iteration that booked, and the calls made are exactly those of the iterations up to it, so no later iteration runs; a 404 made the calls of every iteration |
| `Handler.NumericForbiddenIdsMatch` | parking.py:177-188 | the forbidden ids are recognised whether the service reports them as numbers (`str(2592)`) or as strings |
| `Handler.HandleRequest` | parking.py:150-209 | a missing password gives 500 with no calls; the weekend gives 200 with no calls; a date overflow escapes before any call; a failed login gives 500 after the login call alone; after a successful login the answer is the booking loop's, and the calls are the login followed by the loop's calls; statuses are 200, 404 or 500 |
| `Handler.HandlerFailsOnlyIfEveryRoundFails` | parking.py:150-209 | the handler answers 404 exactly when the password, the target date and the login token are all present and no iteration the time budget allows booked anything |
| `Handler.HandlerReportsFirstBooking` | parking.py:173-206 | after a successful login, a 200 reports the booking of the first iteration that booked, and the calls are the login followed by those of the iterations up to it |
| `Handler.PasswordCheckedFirst` | parking.py:151-153 | without a password, the date, override, login and loop inputs make no difference to the outcome |
| `Handler.LoginThenTargetWindow` | parking.py:173-189 | the login is the first call to the service, and every later call asks for the window of the target date |

## Left out

- HTTP is not modelled: `requests.Session`, headers, `raise_for_status` and the service URLs. Network I/O is replaced by the oracles described above.
- JSON encoding and decoding is not modelled (`json.dumps` of the `dates` list, `response.json()`). The decoded search response is a typed value, and `dates` is kept as a list of windows.
- `login` is reduced to its result, an optional token. Its request and the `accessToken` lookup are network and JSON handling.
- Payload fields that are fixed strings or pass-through settings are not modelled: `emailAddress`, `plateNumber`, `app`, `os`, and the bearer token header. They carry no decision logic.
- Logging, and the environment reads at import time, are replaced by parameters.
- Wall-clock time is abstracted to the `timeUp` flag: `time.time`, `time.sleep`, the context's remaining time, and the 60000 ms default. These are real time and floating point.
- `random.choice` is modelled as any index into the candidates. No distribution is modelled.
- Booking attempts within one iteration are one function of the space id. When the same id is tried twice in an iteration (found at both locations, or twice in one list), the model gives both tries the same answer. In the job these are two separate requests whose results can differ.
- `Spaces.AvailableSpaces`: a malformed response where an object is expected is not modelled. Such a response raises `AttributeError`, which escapes the handler. The typed response cannot express it.
- `Spaces.IdText`: only number and string ids are modelled. `str` of a float, boolean or null id is not.
- `Spaces.IsFree`: a non-string `status` is represented by a string other than `"free"`. That gives the same comparison result.
- `Calendar.FormatFullDate`: always zero-fills the year to four digits. `strftime("%Y")` on glibc leaves years below 1000 unpadded, and the job never runs in such a year.
- `TargetDate.GetTargetDate`: `today` ranges over the ordinals Python's `date` can hold, 1 to 3652059.
- The `__main__` entry point and the deployment automation are not part of this model.
