# Attendify calendar engine in Dafny

This project models the part of Attendify that keeps its two kinds of calendar
records consistent, and proves properties of that model.

**Holidays** are single-day entries of type GLOBAL, CUTI_BERSAMA, PERSONAL or
PIKET. The `/api/holidays` handlers do the following:
- turn the submitted instant into a `YYYY-MM-DD` day key in the fixed UTC+7
  (WIB) zone;
- re-anchor the stored `date` to 12:00 UTC of that key;
- derive `isDeductible` and the owner from the type;
- refuse a second entry with the same (dateString, type, owner);
- list the entries of a month that the requester may see;
- delete an entry only when the requester is allowed to.

**Adjustments** are named closed ranges of day keys, each with a
non-negative number of reduction minutes. The
`/api/adjustments` handlers do the following:
- list the ranges that meet a month, whose last day comes from
  `new Date(year, month, 0)`;
- refuse a new range that overlaps a stored one;
- delete by id.

Modules:
- `Wrappers`: options, results and the response record.
- `JsString`: the two string orders (the store's, by code point, and
  JavaScript's `<`, by UTF-16 code unit), `trim`, `split`, `padStart`.
- `JsNumber`: `String(n)`, `Number(s)` on digit strings, two-digit padding.
- `EcmaTime`: the day arithmetic of ECMA-262 section 21.4.1: DayFromYear,
  MakeDay, MakeDate, TimeClip's range, and civil dates from day numbers and
  back.
- `DateKeys`: ISO 8601 calendar-date keys (ISO 8601:2004 section 4.1.2.2).
  For four-digit years their string order is proved to be date order.
- `Seqs`: the store's `find` and `findOne` scans and ascending sort.
- `HolidayModel` and `AdjustmentModel`: the two Mongoose schemas. Each
  collection is a class whose `records` sequence and `nextId` counter are
  reassigned by `create` and `findByIdAndDelete`. The schema's validators,
  together with its unique index where there is one, form the class
  invariant.
- `HolidayRoute` and `AdjustmentRoute`: the handlers. Each handler is a
  method over the collection object and is proved equal to a function that
  gives the response and the collection afterwards. The lemmas state what
  those functions guarantee.

The server's time zone is a parameter: its `getTimezoneOffset` value in
minutes. The authenticated user is an optional id.

## Model

| member | source | states |
|---|---|---|
| JsString.LexLtIsNotGe | app/api/adjustments/route.ts:44-45 | in the store's code-point order (the `$lte`/`$gte` here and at lines 91-92), `a < b` is exactly not `b <= a`: the order is total |
| JsString.TrimIdempotent | models/Adjustment.ts:4 | trimming a name twice, once in the route and again in the schema, gives the once-trimmed name |
| JsString.SplitJoin | app/api/holidays/route.ts:108 | splitting on `-` pieces joined with `-`, none of which holds a `-`, gives the pieces back |
| JsNumber.Pad2Numeral | app/api/holidays/route.ts:36-37 | `String(n).padStart(2, '0')` for n below 100 is two digits that read back as n |
| EcmaTime.CivilRoundTrip | app/api/holidays/route.ts:35-37 | the calendar fields read from a date's day number are that date |
| EcmaTime.DaysFromCivilOrder | app/api/adjustments/route.ts:42-45 | day numbers are ordered as (year, month, day) triples |
| EcmaTime.MakeDayDateZero | app/api/adjustments/route.ts:37 | date 0 of zero-based month m, December included, is the last day of one-based month m, leap years included |
| DateKeys.KeyOrderIsChronological | app/api/adjustments/route.ts:42-45 | for four-digit years, the string order of `YYYY-MM-DD` keys is the order of their dates |
| DateKeys.DateKeyInjective | models/Holiday.ts:5 | distinct dates with four-digit years have distinct keys |
| DateKeys.MonthRangeExact | app/api/holidays/route.ts:56-63 | a key lies between day 1 and any day from the month's length to 99 of month m exactly when its date is in month m |
| Seqs.SelectAll | app/api/holidays/route.ts:62-70 | the `find` scan returns exactly the documents that pass, in stored order |
| Seqs.SelectFirst | app/api/adjustments/route.ts:90-93 | the `findOne` scan returns the first document that passes, or none when none does |
| Seqs.SortByKey | app/api/adjustments/route.ts:46 | `.sort({ field: 1 })` returns a permutation of its input, ordered by the field |
| Seqs.FilterKeepsPairwise | models/Holiday.ts:13 | removing documents keeps any property that holds of every pair |
| HolidayModel.CreateKeepsWellFormed | models/Holiday.ts:3-13 | create fails validation exactly when a required field is missing, the trimmed name is empty or the type is outside the enum. It fails on the unique index exactly when an admitted document's key is already stored. Otherwise it stores the trimmed document under the next id and keeps every stored document conforming and every (dateString, type, userId) unique |
| HolidayModel.FilterKeepsWellFormed | models/Holiday.ts:12-13 | deleting documents keeps the schema invariant and the uniqueness of index keys |
| HolidayModel.HolidayCollection.constructor | models/Holiday.ts:3-13 | an empty collection satisfies the invariant |
| HolidayModel.HolidayCollection.Find | app/api/holidays/route.ts:62 | `find` returns the matching documents in stored order and changes nothing |
| HolidayModel.HolidayCollection.FindOne | app/api/holidays/route.ts:121-125 | `findOne` returns the first matching document, or none exactly when none matches |
| HolidayModel.HolidayCollection.Create | app/api/holidays/route.ts:134 | `create` appends exactly the created document, on success only, and keeps the invariant |
| HolidayModel.HolidayCollection.FindByIdAndDelete | app/api/holidays/route.ts:182 | `findByIdAndDelete` removes the documents with that id and nothing else, and keeps the invariant |
| HolidayRoute.ToDateStringIsWibDate | app/api/holidays/route.ts:29-39 | `toDateString` of an instant whose WIB-shifted value is within TimeClip's range is the zero-padded key of the UTC date of the instant plus 7 hours |
| HolidayRoute.ToDateStringIgnoresServerZone | app/api/holidays/route.ts:29-39 | the server's own offset cancels out: any two server zones give the same key for an instant whose WIB-shifted value is within TimeClip's range in both |
| HolidayRoute.NoonAnchor | app/api/holidays/route.ts:108-109 | `Date.UTC(y, m - 1, d, 12)` of the split key is a valid time value whenever it is not Invalid Date |
| HolidayRoute.NoonAnchorRoundTrip | app/api/holidays/route.ts:105-109 | the noon anchor of a date's key is 12:00 UTC of that date, and `toDateString` of the anchor gives the key back in any server zone |
| HolidayRoute.ToDateStringThenAnchor | app/api/holidays/route.ts:105-109 | for instants whose WIB year is 100 to 9999, the stored `date` is 12:00 UTC of the instant's WIB date and prints back as its `dateString` |
| HolidayRoute.EffectiveOwner | app/api/holidays/route.ts:117 | the owner is set exactly for PERSONAL and PIKET, and then it is the requester |
| HolidayRoute.ParseType | app/api/holidays/route.ts:100-102 | a type string is accepted exactly when it names one of the four types, and the parsed type spells that string |
| HolidayRoute.ParseTypeName | app/api/holidays/route.ts:100 | every one of the four type names is accepted as its own type |
| HolidayRoute.GetResponse | app/api/holidays/route.ts:46-72 | 401 exactly without a requester, 200 otherwise, and then the answer is sorted by dateString and is a permutation of the selected entries |
| HolidayRoute.MonthBoundsAreKeys | app/api/holidays/route.ts:56-59 | the bounds are the keys of day 1 and of day 31 of the month |
| HolidayRoute.MonthBoundsSelectMonth | app/api/holidays/route.ts:56-63 | for four-digit years, a key lies within the fixed `-01`..`-31` bounds exactly when its date is in the requested month |
| HolidayRoute.GetListsVisibleEntriesOfMonth | app/api/holidays/route.ts:61-70 | an entry is listed exactly when it is stored, in the month, and either GLOBAL or CUTI_BERSAMA or owned by the requester |
| HolidayRoute.Get | app/api/holidays/route.ts:42-72 | the GET handler over the collection answers as `GetResponse` |
| HolidayRoute.CreateResponse | app/api/holidays/route.ts:120-145 | after the duplicate lookup and the create, the status is 201, 409 or 500, and the collection grows by the one returned entry exactly on 201 |
| HolidayRoute.PostResponse | app/api/holidays/route.ts:88-152 | POST answers 201, 400, 401, 409 or 500, and writes exactly the returned entry on 201 and nothing otherwise |
| HolidayRoute.PostRejectsBadRequests | app/api/holidays/route.ts:88-102 | 401 exactly without a requester; 400 "Missing required fields" exactly when date, name or type is missing or falsy (an empty date string included); 400 "Invalid type" exactly when the type is none of the four |
| HolidayRoute.PostAppliesTypePolicy | app/api/holidays/route.ts:105-118 | a created entry has the next id, the WIB key of the date, the noon anchor of that key, the trimmed name, `isDeductible` forced true for GLOBAL and CUTI_BERSAMA, false for PIKET, the supplied flag or true for PERSONAL, and the requester as owner exactly for PERSONAL and PIKET |
| HolidayRoute.PostConflictsOnDuplicates | app/api/holidays/route.ts:120-132 | POST answers 409 exactly when an entry with the same (dateString, type, effective owner) is stored, with the message `A <label> already exists on <dateString>.` |
| HolidayRoute.PostKeepsCollectionWellFormed | app/api/holidays/route.ts:120-136 | every POST leaves the collection well-formed: at most one entry per (dateString, type, owner) |
| HolidayRoute.AcceptableRequestIsAdmitted | app/api/holidays/route.ts:105-118 | for a date with a four-digit WIB year and a non-blank name, the data handed to `create` passes every validator but the enum and clashes with nothing |
| HolidayRoute.PrintableDateHasAnchor | app/api/holidays/route.ts:105-109 | such a date has a non-empty key and a valid noon anchor |
| HolidayRoute.EnumDecidesCreate | models/Holiday.ts:3-7 | for such data, the schema's enum alone decides between 201 and 500 |
| HolidayRoute.CutiBersamaFailsWithSchemaAsWritten | models/Holiday.ts:7 | with the enum as written, a CUTI_BERSAMA entry the route accepts ends in 500 and nothing is stored |
| HolidayRoute.RouteTypesStoredWithCorrectedSchema | app/api/holidays/route.ts:100-136 | with the enum listing all four types, every such request is stored: 201 and one more entry |
| HolidayRoute.Post | app/api/holidays/route.ts:84-153 | the POST handler over the collection answers and writes as `PostResponse`, and keeps the invariant |
| HolidayRoute.DeleteResponse | app/api/holidays/route.ts:160-184 | DELETE answers 200, 400, 401, 403 or 404, 401 exactly without a requester, and changes nothing unless it answers 200 |
| HolidayRoute.DeleteRemovesOnlyPermittedRecord | app/api/holidays/route.ts:172-184 | for a stored entry: 403 exactly when it is PERSONAL or PIKET and owned by someone else; otherwise 200, and exactly that entry is removed |
| HolidayRoute.DeleteRejectsMissingOrUnknownId | app/api/holidays/route.ts:166-175 | 400 exactly when the id is missing, 404 exactly when no entry has it |
| HolidayRoute.Delete | app/api/holidays/route.ts:156-184 | the DELETE handler over the collection answers and removes as `DeleteResponse`, and keeps the invariant |
| AdjustmentModel.CreateKeepsWellFormed | models/Adjustment.ts:3-8 | create succeeds exactly when the trimmed name is non-empty, both dates are given and the minutes are at least 0; it then stores the trimmed document under the next id and keeps the invariant |
| AdjustmentModel.FilterKeepsWellFormed | models/Adjustment.ts:3-8 | deleting documents keeps the invariant |
| AdjustmentModel.AdjustmentCollection.constructor | models/Adjustment.ts:3-13 | an empty collection satisfies the invariant |
| AdjustmentModel.AdjustmentCollection.Find | app/api/adjustments/route.ts:43-46 | `find` returns the matching documents in stored order |
| AdjustmentModel.AdjustmentCollection.FindOne | app/api/adjustments/route.ts:90-93 | `findOne` returns the first matching document in insertion order, or none exactly when none matches |
| AdjustmentModel.AdjustmentCollection.Create | app/api/adjustments/route.ts:101-106 | `create` appends exactly the created document, on success only, and keeps the invariant |
| AdjustmentModel.AdjustmentCollection.FindByIdAndDelete | app/api/adjustments/route.ts:140 | `findByIdAndDelete` removes the documents with that id and nothing else |
| AdjustmentRoute.OverlapIsSharedKey | app/api/adjustments/route.ts:89-93 | for non-empty ranges, the `start <= otherEnd && end >= otherStart` test holds exactly when some key lies in both ranges, and it is symmetric |
| AdjustmentRoute.KeyOverlapIsDayOverlap | app/api/adjustments/route.ts:41-45 | for keys with four-digit years, the string overlap test is overlap of the ranges of days |
| AdjustmentRoute.LastDayIsMonthLength | app/api/adjustments/route.ts:37 | `new Date(year, month, 0).getDate()` is the number of days of the month, leap-aware, in any server zone |
| AdjustmentRoute.MonthBoundsAreKeys | app/api/adjustments/route.ts:36-39 | for four-digit years, the bounds are the keys of the first and of the true last day of the month |
| AdjustmentRoute.GetResponse | app/api/adjustments/route.ts:25-48 | 401 exactly without a requester, 200 otherwise, and then the answer is sorted by startDate and is a permutation of the ranges meeting the bounds |
| AdjustmentRoute.GetListsRangesMeetingBounds | app/api/adjustments/route.ts:41-46 | a range is listed exactly when it is stored, starts no later than the month's end and ends no earlier than its start |
| AdjustmentRoute.MeetingBoundsIsSharingADay | app/api/adjustments/route.ts:35-46 | for four-digit years, meeting the bounds is sharing at least one day with the month |
| AdjustmentRoute.GetListsRangesMeetingMonth | app/api/adjustments/route.ts:35-46 | a range of dates is listed exactly when it is stored and shares a day with the requested month |
| AdjustmentRoute.Get | app/api/adjustments/route.ts:21-48 | the GET handler over the collection answers as `GetResponse` |
| AdjustmentRoute.PostResponse | app/api/adjustments/route.ts:63-108 | POST answers 201, 400, 401, 409 or 500, 401 exactly without a requester, and writes exactly the returned range on 201 and nothing otherwise; 201 comes only for a range that does not end before it starts by JavaScript's `>` and overlaps no stored range, and the stored document is what `create` makes of the trimmed name, the dates and the minutes |
| AdjustmentRoute.StoreUnlessOverlapping | app/api/adjustments/route.ts:89-106 | after the field checks: 409 or 500 leave the store as it was; 201 appends the created document, and only when no stored range overlaps the request |
| AdjustmentRoute.PostRejectsBadRequests | app/api/adjustments/route.ts:71-87 | the three 400 answers come exactly for a missing field, then an end before the start by JavaScript's `startDate > endDate` (UTF-16 code units), then negative minutes; zero minutes pass |
| AdjustmentRoute.PostConflictsOnOverlap | app/api/adjustments/route.ts:89-99 | a well-formed request gets 409 exactly when some stored range overlaps it, touching at an end day included; the message names the first such range in insertion order |
| AdjustmentRoute.PostCreatesRequestedRange | app/api/adjustments/route.ts:101-108 | a well-formed request that overlaps nothing is stored as asked, with the next id, the trimmed name, the dates as given and the minutes, and answers 201. It answers 500 only for a blank name |
| AdjustmentRoute.PostKeepsScheduled | app/api/adjustments/route.ts:89-106 | if no stored range ends before it starts by the route's check and no two overlap in the store's order, that still holds after any POST |
| AdjustmentRoute.ScheduledRangesAreOrdered | app/api/adjustments/route.ts:77-93 | for dates without characters above U+FFFF, such as date keys, a range the route's check admits is ordered in the store's order too |
| AdjustmentRoute.PostStoresRangeInvertedForStore | app/api/adjustments/route.ts:77-108 | a range from U+1F600 to U+FF21 passes the route's check and is stored with 201, though in the store's order it ends before it starts |
| JsString.JsLessThanInBmp | app/api/adjustments/route.ts:77 | on strings without characters above U+FFFF, JavaScript's `<` is code point order |
| JsString.JsLessThanAboveBmp | app/api/adjustments/route.ts:77 | above U+FFFF the two orders differ: U+FF21 precedes U+1F600 by code point but follows it by code unit |
| AdjustmentRoute.PostKeepsWellFormed | app/api/adjustments/route.ts:101-106 | every POST keeps the schema invariant |
| AdjustmentRoute.Post | app/api/adjustments/route.ts:59-108 | the POST handler over the collection answers and writes as `PostResponse`, and keeps the invariant |
| AdjustmentRoute.DeleteResponse | app/api/adjustments/route.ts:123-142 | DELETE answers 200, 400, 401 or 404, 401 exactly without a requester, and changes nothing unless it answers 200 |
| AdjustmentRoute.DeleteRemovesExactlyOne | app/api/adjustments/route.ts:131-142 | 400 exactly for a missing id, 404 exactly for an unknown one; on 200 exactly the range with that id is removed, whoever asks |
| AdjustmentRoute.DeleteKeepsScheduled | app/api/adjustments/route.ts:140 | deleting keeps every stored range ordered by the route's check and no two overlapping |
| AdjustmentRoute.Delete | app/api/adjustments/route.ts:119-142 | the DELETE handler over the collection answers and removes as `DeleteResponse`, and keeps the invariant |

## Left out

- Authentication (the JWT cookie and `verifyToken`) and the database connection: the requester is an optional user id given to each handler.
- The clock and query parsing: year and month are integers given to GET. `parseInt` failures (NaN) are not modelled.
- Parsing of the submitted `date` by `new Date(...)`: a falsy `date` (absent, `null`, `""`, `0`, `false`) arrives as None, which `!date` refuses with 400; any other value arrives as what `new Date` made of it, Invalid Date or a time value.
- Daylight-saving time: the server's zone is one fixed offset in minutes.
- Mongo ObjectIds are numbers from a counter. An id that cannot be cast to an ObjectId makes the store throw, answering 500; this is not modelled.
- JSON bodies are typed. `reductionMinutes` is an integer, so `Number(...)` of a string, `null` or a fraction is not modelled, and neither are non-string names or dates.
- Concurrent requests: handlers run one at a time. The store's duplicate-key error (code 11000) is modelled, but only a concurrent insert between the route's lookup and its create could reach it.
- The error `details`, `console.error` and the `createdAt`/`updatedAt` timestamps.
- The schema defaults for `isDeductible` and `userId`: the route always sets both fields, so they never apply.
- The order among entries with equal sort keys: the answer is stated to be sorted and a permutation of the selection, as the store promises no more.
- HolidayRoute.MonthBoundsSelectMonth: stated for four-digit years only; for other years string order is not date order.
- HolidayRoute.GetListsVisibleEntriesOfMonth: stated for keys of dates with four-digit years only, for the same reason.
- HolidayRoute.NoonAnchorRoundTrip: stated for years 100 to 9999 and server offsets within a day of UTC. Below 100 the round trip really fails: `Date.UTC` reads years 0 to 99 as 1900 to 1999, so the key "50-03-10" is anchored at noon of 1950-03-10 and prints back as "1950-03-10".
- HolidayRoute.CutiBersamaFailsWithSchemaAsWritten: stated for dates whose WIB year has four digits and for non-blank names.
- AdjustmentRoute.LastDayIsMonthLength: stated for four-digit years; `LastDayLabel` also models years 0 to 99, which `new Date` reads as 1900 to 1999 while the key keeps the year as given.
- PostConflictsOnOverlap: the store does not say which match `findOne` returns when several stored ranges overlap the request (an index scan on (startDate, endDate) may return a later-inserted one); the model names the earliest inserted, so the range named in the 409 message is the model's choice.
- AdjustmentModel.AdjustmentCollection.FindOne: returns the first match in insertion order, one of the matches the store may return.
- AdjustmentRoute.GetListsRangesMeetingMonth: stated for ranges whose keys are keys of dates with four-digit years; other strings are compared as strings.

## Findings

| source | as written | input that shows it | evidently intended | confidence | as-written member | corrected member |
|---|---|---|---|---|---|---|
| models/Holiday.ts:7 | the schema enum lists GLOBAL, PERSONAL and PIKET, while app/api/holidays/route.ts:100 accepts CUTI_BERSAMA too | POST with type CUTI_BERSAMA, a valid date and a non-blank name: the route accepts it, the store's validator refuses it, and the answer is 500 | the enum lists all four types, so the entry is stored with 201 | not executed | HolidayRoute.CutiBersamaFailsWithSchemaAsWritten | HolidayRoute.RouteTypesStoredWithCorrectedSchema |
