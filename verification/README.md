# Slot availability and booking admission, in Dafny

The application is an online booking service for barbershops and beauty salons
that work in the Europe/Lisbon time zone. A customer picks a store by its slug,
then a staff member, a service and a date. The availability endpoint lists the
free start times of that day. The booking endpoint checks a chosen start again
and inserts the appointment. During onboarding, an owner names the store, and
the store's public slug is derived from that name.

The model covers four parts of the code.

- **The time layer** (`Tz`):
  - Instants are whole minutes since the epoch.
  - The zone's UTC offset is a function `off: int -> int` passed in by the caller.
  - `Date.UTC` is written out as proleptic-Gregorian day arithmetic.
  - The conversion from a Lisbon wall time to an instant is the code's two passes: `guess - off(guess - off(guess))`.
  - The day window runs from local 00:00 to local 23:59.
- **The slot generator** (`Availability`):
  - It validates the query parameters.
  - It keeps the open shifts and builds the busy spans (each appointment plus its buffer snapshot) and the blocked spans.
  - It walks each shift from the shift start in steps, keeping the admissible starts.
  - It renders the kept starts as local `HH:MM`, de-duplicated and sorted.
- **Booking admission** (`Validators`, `Booking`):
  - The validators (`isValidDate`, `isValidHHMM`, `normalizePhone`, `isValidPhone`, `toHHMM`).
  - The short-circuiting check chain with the code's messages.
  - The store, staff and service lookups.
  - The lead, open-shift, appointment and block checks, in order.
  - The inserted row and the reply.
- **Slug derivation** (`Onboarding`): `slugify`, the slug chosen and cut to 60 characters in the first step, the checks before saving, and the clamp on the step parameter.

Supporting modules:

- `Results`: option and response types, with the HTTP status codes.
- `JsText`: `trim`, `split`, `join` and the integer reading of `Number`.
- `Data`: the table rows and filtered queries.
- `Sorting`: string order by character code (the code-unit order of `sort` inside the Basic Multilingual Plane), and sorting with de-duplication.
- `Agreement`: proofs relating the two endpoints.

## How the code is modelled

- **Database reads.** Each database read is a `Table` input: either its rows or an `Unreachable(message)`, which the routes answer with 500.
  - A query is a `Filter` by the predicate its `.eq`/`.gte`/`.lt`/`.lte` calls spell out.
  - This keeps visible that neither appointment query looks at the status.
  - It also keeps visible the block windows: the availability query uses `lte` at the window end and the booking query uses `lt`.
- **Conversion errors.** A date or clock field that `Number` cannot read makes `Date.UTC` give NaN. The zone formatter then throws a RangeError ("Invalid time value"), and the route's `catch` turns it into 500. The model returns `None` from the conversion and `Fail(500, "Invalid time value")` from the route.
- **Weekdays.**
  - The availability route uses the UTC weekday of the local noon instant, computed.
  - The booking route uses the server's local `getDay()` at midnight, which is an input. The model does not know the server's zone.
  - That input can be NaN (`None`) for a date that still converts, such as month 13. The database then refuses the `day_of_week` filter, and the booking route answers 500 (`NaNWeekdayFails`).
  - `NoonWeekdayOfDate` shows that the availability weekday is the date's own weekday when the offset is fixed and at most 12 hours.
- **The grid.** The booking route tests the minute past the hour (`Number(time.slice(3, 5)) % step`). The generator's grid starts at the shift start. `Agreement.GridAgrees` and `Agreement.GridDiverges` state when the two agree and show a case where they do not.
- **The day window.** It ends at local 23:59, not at the next local midnight. The model follows the code. `Agreement.LastMinuteUnseen` and `Agreement.LastMinuteDoubleBooking` state what this means for an appointment that starts at 23:59.
- **Offered labels.** The list offers local `HH:MM` labels, and a client books one by sending it back as the time. `Agreement.OfferedLabelBooks` shows that a label books its start when the offset is fixed. `Agreement.FallBackLabelLater` shows that, on a fall-back day, the label of a start in the repeated hour converts to the later instant.

## Model

| member | source | states |
|---|---|---|
| Results.AllSome | src/app/api/availability/route.ts:169-171 | All values are present exactly when every element is, and the result lists them in order. |
| JsText.LeadingSpacesMaximal | src/app/api/availability/route.ts:63 | The count of leading white space is maximal: the next character is not white space. |
| JsText.TrailingSpacesMaximal | src/app/api/availability/route.ts:63 | The count of trailing white space is maximal. |
| JsText.TrimSpec | src/app/api/availability/route.ts:63-65 | `trim` gives a contiguous slice of the input with no white space at either end, and it is empty exactly when the input is all white space. |
| JsText.TrimEmptyIff | src/app/api/book/route.ts:80-86 | A trimmed field is empty exactly when the input is all white space; this is what the `!field` checks see. |
| JsText.TrimIdempotent | src/app/api/book/route.ts:80-86 | Trimming twice is trimming once. |
| JsText.Trim | src/app/api/availability/route.ts:63-65 | No contract of its own: `TrimSpec`, `TrimEmptyIff` and `TrimIdempotent` state what trimming gives. |
| JsText.IsSpace | src/app/api/availability/route.ts:63 | No contract of its own: the white space `trim` strips; `LeadingSpacesMaximal` and `TrimSpec` state its use. |
| JsText.JsNumberOfDigits | src/app/api/availability/route.ts:67-70 | `Number` of a non-empty digit string is its decimal value. |
| JsText.JsNumber | src/app/api/availability/route.ts:67-70 | No contract of its own: `JsNumberOfDigits` and `NatToStringRoundTrip` state what it reads. |
| JsText.NatToString | src/app/api/book/route.ts:124 | A number shown in a template literal is a non-empty digit string. |
| JsText.NatToStringRoundTrip | src/app/api/book/route.ts:124 | Reading back a shown number gives the number. |
| JsText.Pad2 | src/lib/tz.ts:6-13 | A two-digit rendering has two digits and reads back as its value. |
| JsText.IndexOfFirst | src/lib/tz.ts:35-36 | The separator position found is the first one. |
| JsText.Split | src/lib/tz.ts:35-36 | `split` always gives at least one piece. |
| JsText.SplitPiecesFree | src/lib/tz.ts:35-36 | No piece of a split contains the separator. |
| JsText.JoinSplit | src/lib/tz.ts:35-36 | Joining the pieces of a split with the separator gives back the input. |
| JsText.SplitJoin | src/lib/tz.ts:35-36 | Pieces free of the separator come back unchanged from splitting their join. |
| Tz.LocalToUtc | src/lib/tz.ts:34-48 | The conversion gives an instant exactly when the date and the clock both read. |
| Tz.LocalToUtcAt | src/lib/tz.ts:34-48 | Once the date and the clock are read, the result is the two passes from the naive UTC guess. |
| Tz.TwoPass | src/lib/tz.ts:38-47 | No contract of its own: `TwoPassConstant`, `TwoPassRoundTrip` and `TwoPassFindsWallTime` state what the two passes find. |
| Tz.ParseDate | src/lib/tz.ts:35 | No contract of its own: `ValidDateReads` states how a pattern-valid date reads. |
| Tz.ParseClock | src/lib/tz.ts:36 | No contract of its own: `ParseClockOfDigits` and `PaddedClockReadsBack` state how a clock reads. |
| Tz.MakeDay | src/lib/tz.ts:39 | No contract of its own: `CivilEpoch`, `CivilNextMonth`, `CivilDayOffset` and `MakeDayCarriesYears` state the day numbering. |
| Tz.DateUtc | src/lib/tz.ts:39 | No contract of its own: `DateUtcMinute` states that it falls on the given minute of the day. |
| Tz.FullYear | src/lib/tz.ts:39 | No contract of its own: the two-digit year rule of `Date.UTC`, used by the day numbering that `CivilEpoch` anchors. |
| Tz.DateUtcMinute | src/lib/tz.ts:39 | The naive UTC guess of a date at a minute of the day falls on that minute of the day. |
| Tz.TwoPassConstant | src/lib/tz.ts:38-47 | With a fixed offset `k`, the conversion is the guess minus `k`. |
| Tz.TwoPassRoundTrip | src/lib/tz.ts:41-47 | When the offset at the result equals the second-pass offset, the result plus its offset is the guess. |
| Tz.TwoPassFindsWallTime | src/lib/tz.ts:38-47 | Across a single offset change, a wall time that some instant shows is found again by the two passes. |
| Tz.DayRangeUtc | src/lib/tz.ts:51-55 | The day window exists exactly when the date reads. |
| Tz.DayRangeAt | src/lib/tz.ts:51-55 | The window runs from the conversion of the date at 00:00 to its conversion at 23:59. |
| Tz.DayWindowConstant | src/lib/tz.ts:51-55 | With a fixed offset, the window starts at the day's first minute less the offset and is 1439 minutes long. |
| Tz.MidnightClock | src/lib/tz.ts:52 | "00:00" reads as minute 0. |
| Tz.LastMinuteClock | src/lib/tz.ts:53 | "23:59" reads as minute 1439. |
| Tz.NoonClock | src/app/api/availability/route.ts:105 | "12:00" reads as minute 720. |
| Tz.AddMinutes | src/lib/tz.ts:57-59 | Adding moves an instant by exactly the minutes given: forward for a positive count, not at all for zero. |
| Tz.AddMinutesComposes | src/lib/tz.ts:57-59 | Adding `x` and then `y` is adding `x + y`. |
| Tz.AddMinutesMonotone | src/lib/tz.ts:57-59 | Adding the same minutes keeps the order of two instants. |
| Tz.Overlaps | src/lib/tz.ts:61-63 | Touching spans do not overlap. A non-empty span contained in another overlaps it. Two non-empty spans overlap exactly when they share a minute. |
| Tz.CommonMinute | src/lib/tz.ts:61-63 | The later start is a minute common to two overlapping non-empty spans. |
| Tz.OverlapsSymmetric | src/lib/tz.ts:61-63 | The overlap test is symmetric in its two spans. |
| Tz.UtcWeekday | src/app/api/availability/route.ts:106 | `getUTCDay` lies in 0..6. |
| Tz.NoonWeekdayIsCivil | src/app/api/availability/route.ts:104-106 | With a fixed offset of at most 12 hours, the UTC weekday of local noon is the civil weekday of the date. |
| Tz.CivilEpoch | src/lib/tz.ts:39 | The day arithmetic puts 1970-01-01 at day 0. |
| Tz.CivilNextMonth | src/lib/tz.ts:39 | Consecutive months are as many days apart as the Gregorian month length. |
| Tz.FebruaryLength | src/lib/tz.ts:39 | February has 29 days in a leap year and 28 otherwise. |
| Tz.MarchYearLength | src/lib/tz.ts:39 | The March-to-March year has 366 days exactly when it holds a leap day. |
| Tz.CivilNextYear | src/lib/tz.ts:39 | December has 31 days, and then the year rolls over. |
| Tz.CivilDayOffset | src/lib/tz.ts:39 | The day of the month is a plain offset, so out-of-range days roll into the next or previous month. |
| Tz.MakeDayCarriesYears | src/lib/tz.ts:39 | A month index of 12 or more carries into the next year, as `Date.UTC` does. |
| Tz.FormatHHMM | src/app/api/availability/route.ts:190-195 | The zero-padded `HH:MM` of a minute of the day is five characters with a colon, and it reads back as that minute. |
| Tz.LocalHHMM | src/app/api/availability/route.ts:190-195 | The local rendering of an instant reads back as the instant's local minute of the day. |
| Tz.LocalHHMMAt | src/app/api/book/route.ts:280-285 | An instant whose local minute of the day is known renders as that minute's `HH:MM`. |
| Tz.ParseClockOfDigits | src/lib/tz.ts:36 | `HH:MM` built from two digit strings reads as hours times 60 plus minutes. |
| Tz.SplitAtColon | src/lib/tz.ts:36 | Digit strings around one colon split into those two strings. |
| Tz.PaddedClockReadsBack | src/lib/tz.ts:36 | Zero-padded hours and minutes read back as their minute of the day. |
| Data.Filter | src/app/api/availability/route.ts:109-114 | A query keeps exactly the rows that satisfy its conditions. |
| Data.FilterNone | src/app/api/availability/route.ts:118-125 | When no row satisfies the conditions, the query returns nothing. |
| Data.FilterAppendRejected | src/app/api/book/route.ts:216-222 | A row the conditions reject adds nothing to the query result. |
| Data.Select | src/app/api/availability/route.ts:109-116 | A readable table gives its matching rows. An unreachable one gives 500 with the client's message. |
| Data.MaybeSingle | src/app/api/availability/route.ts:90-94 | `maybeSingle` gives no row, one row (the first), or an error for several. |
| Data.LookupOne | src/app/api/availability/route.ts:90-97 | The lookup succeeds exactly when one row matches, and then returns that row. No match gives 404 with the route's message. |
| Data.ToHHMM | src/app/api/availability/route.ts:48-50 | Text of five or more characters is cut to its first five. Shorter text is kept. |
| Data.ToHHMMIdempotent | src/app/api/book/route.ts:43-45 | Cutting twice is cutting once. |
| Data.ShiftOf | src/app/api/availability/route.ts:120-123 | A shift's times are prefixes of the row's times. |
| Data.OpenShifts | src/app/api/availability/route.ts:118-125 | The open shifts are empty exactly when no row is open. |
| Data.OpenShiftsFromOpenRows | src/app/api/availability/route.ts:118-123 | The open shifts are exactly the cut shifts of the open rows. |
| Data.ShiftSpan | src/app/api/availability/route.ts:170-171 | A shift converts exactly when both its start and its end convert on the date. |
| Data.ShiftSpans | src/app/api/book/route.ts:205-209 | One conversion per shift, in order. |
| Data.BusyRange | src/app/api/availability/route.ts:138-143 | The busy span starts at the appointment start and ends at its end plus the buffer snapshot, with a null snapshot counting as 0. |
| Data.BusyOf | src/app/api/availability/route.ts:138-143 | One busy span per appointment, in order. |
| Data.BlockedOf | src/app/api/availability/route.ts:156-159 | One blocked span per block, with the block's own start and end. |
| Data.BusyIgnoresStatus | src/app/api/availability/route.ts:128-134 | Changing an appointment's status leaves the busy spans unchanged, so a cancelled row still occupies its time. |
| Data.FilterBusyIgnoresStatus | src/app/api/book/route.ts:216-222 | The same holds after a query whose conditions do not mention the status. |
| Data.BusyOfConcat | src/app/api/availability/route.ts:138-143 | Busy spans of two lists of rows are the spans of each, in order. |
| Data.HitsBusyIff | src/app/api/availability/route.ts:180-182 | A span meets a busy span exactly when it overlaps some appointment extended by its buffer. |
| Data.HitsBlockedIff | src/app/api/availability/route.ts:185-187 | A span meets a blocked span exactly when it overlaps some block. |
| Data.HitsAny | src/app/api/availability/route.ts:180-187 | No contract of its own: `HitsBusyIff` and `HitsBlockedIff` state when a span meets the busy or blocked spans. |
| Data.AppointmentInDay | src/app/api/availability/route.ts:128-134 | No contract of its own: the appointment query's condition; `LastMinuteUnseen` states the window end it misses. |
| Data.BlockInDay | src/app/api/availability/route.ts:145-152 | No contract of its own: the block query's condition; `BlockWindows` states how the two routes' windows differ. |
| Data.HoursOf | src/app/api/availability/route.ts:109-114 | No contract of its own: the hours query's condition; `ClosedDayNoSlots` and `ClosedDay` state its outcomes. |
| Data.ClosedHours | src/app/api/availability/route.ts:117-125 | When every matching working-hour row is closed, the rows give no open shift. |
| Validators.ValidDateReads | src/app/api/book/route.ts:47-49 | A date that passes the pattern reads as its year, month and day digit groups. |
| Validators.IsValidDate | src/app/api/book/route.ts:47-49 | No contract of its own: the date pattern; `ValidDateReads` states what a date that passes it reads as. |
| Validators.IsValidHHMM | src/app/api/book/route.ts:51-53 | No contract of its own: the time pattern; `ValidHHMMIff` states exactly which texts pass it. |
| Validators.ClockIsValid | src/app/api/book/route.ts:51-53 | Every zero-padded time from 00:00 to 23:59 passes the pattern. |
| Validators.ValidIsFormatted | src/app/api/book/route.ts:51-53 | A time that passes the pattern is the zero-padded rendering of the minute it names. |
| Validators.ValidHHMMIff | src/app/api/book/route.ts:51-53 | The pattern accepts exactly the renderings of minutes 0 to 1439. |
| Validators.ValidHHMMReads | src/app/api/book/route.ts:51-53 | A valid time reads, through the clock parsing of the conversion, as the minute it names. |
| Validators.ValidMinuteReads | src/app/api/book/route.ts:122 | `Number(time.slice(3, 5))` of a valid time is its minute past the hour. |
| Validators.CollapseTidy | src/app/api/book/route.ts:56-58 | After white-space runs are collapsed, the only white space left is single plain spaces. |
| Validators.CollapseOfTidy | src/app/api/book/route.ts:56-58 | Text that is already tidy is left unchanged. |
| Validators.Collapse | src/app/api/book/route.ts:57 | No contract of its own: `CollapseTidy`, `CollapseOfTidy` and `CollapseKeepsText` state what collapsing gives. |
| Validators.NormalizePhone | src/app/api/book/route.ts:56-58 | No contract of its own: `NormalizePhoneTidy`, `NormalizePhoneIdempotent` and `NormalizePhoneKeepsText` state what it gives. |
| Validators.IsValidPhone | src/app/api/book/route.ts:59-62 | No contract of its own: `NormalizePhoneKeepsValidity` states that normalising does not change its verdict. |
| Validators.NormalizePhoneTidy | src/app/api/book/route.ts:56-58 | A normalised phone has no white space at either end and only single plain spaces inside. |
| Validators.NormalizePhoneIdempotent | src/app/api/book/route.ts:56-58 | Normalising twice is normalising once. |
| Validators.CollapseKeepsText | src/app/api/book/route.ts:57 | Collapsing keeps every non-space character, in order. |
| Validators.TrimKeepsText | src/app/api/book/route.ts:57 | Trimming drops only white space. |
| Validators.NormalizePhoneKeepsText | src/app/api/book/route.ts:56-58 | Normalising keeps every non-space character, in order. |
| Validators.KeepCharsNested | src/app/api/book/route.ts:59-62 | Keeping with a weaker test first does not change what the stricter test keeps. |
| Validators.NormalizePhoneKeepsValidity | src/app/api/book/route.ts:56-62 | Normalising never changes whether the phone check passes, because the check counts only digits and `+`. |
| Sorting.StrLessIrreflexive | src/app/api/availability/route.ts:206 | No string sorts before itself. |
| Sorting.StrLessTransitive | src/app/api/availability/route.ts:206 | The character-code order is transitive. |
| Sorting.StrLessTotal | src/app/api/availability/route.ts:206 | Any two different strings are ordered one way or the other. |
| Sorting.StrLessAsymmetric | src/app/api/availability/route.ts:206 | Two strings are never each before the other. |
| Sorting.StrLess | src/app/api/availability/route.ts:206 | No contract of its own: `sort`'s default order, by character code, which is its code-unit order inside the Basic Multilingual Plane; `StrLessIrreflexive`, `StrLessTransitive` and `StrLessTotal` state that it is a strict total order. |
| Sorting.Insert | src/app/api/availability/route.ts:206 | Inserting into a strictly sorted list keeps it strictly sorted and adds exactly the new element. |
| Sorting.SortUnique | src/app/api/availability/route.ts:206 | `Array.from(new Set(xs)).sort()` is strictly sorted and holds exactly the elements of `xs`. |
| Sorting.SortedUnique | src/app/api/availability/route.ts:206 | Two strictly sorted lists with the same elements are equal. |
| Sorting.SortUniqueSetOnly | src/app/api/availability/route.ts:206 | The result depends only on which labels occur, not on their order or repeats. |
| Sorting.SortUniqueOfSorted | src/app/api/availability/route.ts:206 | A list already strictly sorted is left as it is. |
| Sorting.HHMMOrder | src/app/api/availability/route.ts:190-206 | Sorting zero-padded `HH:MM` labels as text orders their minutes chronologically. |
| Sorting.ClockOrder | src/app/api/availability/route.ts:190-206 | Zero-padded hour-and-minute labels sort as text exactly as their minutes of the day sort. |
| Sorting.Pad2Order | src/app/api/availability/route.ts:190-206 | Two-digit renderings sort as text exactly as their values sort. |
| Availability.ParseQuery | src/app/api/availability/route.ts:63-87 | A failure is a 400. A success has non-empty identifiers and date, a positive service length and step, and a lead and buffer that are not negative. |
| Availability.ParseQueryTrims | src/app/api/availability/route.ts:63-65 | The identifiers and the date carried on have no surrounding white space. |
| Availability.ParseQueryDefaults | src/app/api/availability/route.ts:67-70 | Absent numbers default to a 30-minute service, a 15-minute step, 120 minutes' lead and no buffer. |
| Availability.TextParam | src/app/api/availability/route.ts:63-65 | No contract of its own: a missing parameter is empty, a given one trimmed; `ParseQueryTrims` and `MissingSlugFirst` state its use. |
| Availability.NumberParam | src/app/api/availability/route.ts:67-70 | No contract of its own: `Number` of the parameter or of its default text; `ParseQueryDefaults` states the defaults. |
| Availability.MissingSlugFirst | src/app/api/availability/route.ts:72 | "Missing slug" is the answer exactly when the slug is blank or absent, whatever else the query holds. |
| Availability.InvalidQueryIgnoresDatabase | src/app/api/availability/route.ts:72-87 | An invalid query is answered with its 400 before any lookup, whatever the database holds. |
| Availability.UnknownStore | src/app/api/availability/route.ts:90-97 | A slug that no store has gives 404 "Store not found". |
| Availability.UnreadableDateFails | src/app/api/availability/route.ts:101-212 | A date that does not read gives 500 "Invalid time value". |
| Availability.NoonWeekday | src/app/api/availability/route.ts:105-106 | The weekday exists exactly when the date reads, and it lies in 0..6. |
| Availability.NoonWeekdayOfDate | src/app/api/availability/route.ts:104-106 | With a fixed offset of at most 12 hours, the weekday read is the date's own. |
| Availability.ClosedDayNoSlots | src/app/api/availability/route.ts:118-125 | A staff member with no open shift that day gets an empty list, not an error. |
| Availability.Keep | src/app/api/availability/route.ts:177-189 | No contract of its own: the walk's filter is `Admits`; `WalkMembers` and `SpanStartsMembers` state what the filter lets through. |
| Availability.WalkAscending | src/app/api/availability/route.ts:173-203 | A shift's walk gives strictly increasing starts, from the shift start on and before the shift end. |
| Availability.Walk | src/app/api/availability/route.ts:173-203 | No contract of its own: `WalkAscending` and `WalkMembers` state what the walk yields. |
| Availability.Admits | src/app/api/availability/route.ts:177-189 | No contract of its own: the admission test; `OfferedStartIsFree` states what an admitted start satisfies. |
| Availability.GridStep | src/app/api/availability/route.ts:202 | An instant is on the grid from the cursor exactly when it is the cursor or on the grid from the next cursor. |
| Availability.WalkMembers | src/app/api/availability/route.ts:173-203 | A start is walked and kept exactly when it lies in the shift, is a whole number of steps from the shift start, and is admitted. |
| Availability.StartsMembers | src/app/api/availability/route.ts:169-204 | The starts of all shifts are the starts of each shift. |
| Availability.Starts | src/app/api/availability/route.ts:169-204 | No contract of its own: `StartsMembers` and `StartsMeaning` state which starts it collects. |
| Availability.SpanStartsMembers | src/app/api/availability/route.ts:169-204 | A shift offers exactly the starts on its grid that the admission test accepts. |
| Availability.StartsMeaning | src/app/api/availability/route.ts:169-204 | A start is collected exactly when some shift offers it. |
| Availability.OfferedStartIsFree | src/app/api/availability/route.ts:162-189 | An offered start leaves room for the service and buffer before the shift end, respects the lead, and overlaps no appointment (buffer included) and no block. |
| Availability.CollectWalk | src/app/api/availability/route.ts:173-203 | The inner `while` loop collects exactly the walk's admitted starts. |
| Availability.CollectStarts | src/app/api/availability/route.ts:169-204 | The outer loop collects exactly the admitted starts of every shift, shift by shift. |
| Availability.Labels | src/app/api/availability/route.ts:190-197 | One local `HH:MM` label per collected start, in order. |
| Availability.Offer | src/app/api/availability/route.ts:206 | The answer is strictly sorted and holds exactly the labels of the collected starts. |
| Availability.DayChecks | src/app/api/availability/route.ts:138-165 | No contract of its own: the checks the day's rows feed; `OfferedStartIsFree` and `DaySlotsMembers` state what an offered start satisfies. |
| Availability.DaySlotsAt | src/app/api/availability/route.ts:128-208 | Once the day's appointments, blocks and shift spans are read, the answer is the offer of the shifts' starts. |
| Availability.DaySlotsMembers | src/app/api/availability/route.ts:128-208 | A label is in the answer exactly when some shift offers a start that renders as it, checked against the day's appointments and blocks. |
| Availability.Slots | src/app/api/availability/route.ts:59-213 | A successful answer is strictly sorted. |
| Availability.StoreSlots | src/app/api/availability/route.ts:99-208 | A successful answer, after the store lookup, is strictly sorted. |
| Availability.ShiftSlots | src/app/api/availability/route.ts:107-208 | A successful answer, once the day window and the weekday are known, is strictly sorted. |
| Availability.DaySlots | src/app/api/availability/route.ts:127-208 | A successful answer, after the hours are read, is strictly sorted. |
| Booking.Read | src/app/api/book/route.ts:80-91 | A missing buffer, lead or step defaults to 0, 120 or 15 minutes; a given one is taken as is. |
| Booking.ReadTidy | src/app/api/book/route.ts:80-87 | The read text fields have no surrounding white space, and the phone has no white-space runs. |
| Booking.ReadPhoneVerdict | src/app/api/book/route.ts:87-119 | The phone check on the normalised phone gives the same verdict as on the text the customer typed. |
| Booking.Check | src/app/api/book/route.ts:94-125 | A failure is a 400; a success passes the request on unchanged. |
| Booking.CheckAccepts | src/app/api/book/route.ts:94-125 | The checks pass exactly the acceptable requests: identifiers present, valid date and time, buffer and lead not negative, step in 1..60, a name of 1 to 80 characters, a valid phone, and the minute past the hour on the step grid. |
| Booking.Validate | src/app/api/book/route.ts:80-125 | A failure is a 400; a success is the request as read from the body. |
| Booking.InvalidBodyIgnoresDatabase | src/app/api/book/route.ts:94-125 | A request the checks refuse gets the same 400 whatever the database, zone, clock or insert would do. |
| Booking.ValidConverts | src/app/api/book/route.ts:164-175 | A valid date and time always convert, so the start and the day window are instants. |
| Booking.WallGuessMinute | src/lib/tz.ts:39 | The naive guess of a valid date and time falls on the requested minute of the day. |
| Booking.LocalTimeEchoes | src/app/api/book/route.ts:280-285 | When the second pass keeps the offset, the reply's local time is the requested time. |
| Booking.FixedOffsetEcho | src/app/api/book/route.ts:164-285 | With a fixed offset, the converted start renders as the requested time. |
| Booking.ChangeEcho | src/app/api/book/route.ts:164-285 | Across one offset change, a requested time that some instant shows renders back as itself. |
| Booking.WallTimeEchoes | src/app/api/book/route.ts:164-285 | Across one offset change, a wall time that some instant shows is found and rendered back. |
| Booking.StoreBySlug | src/app/api/book/route.ts:127-132 | No contract of its own: the store query's condition; `UnknownStore` and `LookupsSucceed` state its outcomes. |
| Booking.StaffOfStore | src/app/api/book/route.ts:138-143 | No contract of its own: the staff query's condition; `StaffElsewhere` states that it is scoped to the found store. |
| Booking.ServiceOfStore | src/app/api/book/route.ts:149-154 | No contract of its own: the service query's condition; `LookupsSucceed` and `RequestOk` state its outcomes. |
| Data.HoursOn | src/app/api/book/route.ts:184-189 | No contract of its own: the hours query's condition on store, staff member and weekday, shared with the availability route; `ClosedDay` and `OutsideShifts` state its outcomes. |
| Booking.HoursQuery | src/app/api/book/route.ts:181-191 | No contract of its own: a weekday the server cannot read (NaN) makes the query fail; `NaNWeekdayFails` states the 500. |
| Booking.AppointmentsOfDay | src/app/api/book/route.ts:216-222 | No contract of its own: the appointment query's condition, with no status test; `StatusIgnored` and `LastMinuteDoubleBooking` state its consequences. |
| Booking.BlocksOfDay | src/app/api/book/route.ts:238-244 | No contract of its own: the block query's condition; `BlockWindows` relates it to the availability query's. |
| Booking.OccupiedEnd | src/app/api/book/route.ts:165-166 | No contract of its own: the end of the service plus the buffer; `ReserveBookable` states that the booked row ends the buffer before it. |
| Booking.FirstFit | src/app/api/book/route.ts:205-209 | `true` means some shift holds the span. `false` means every shift converted and none holds it. |
| Booking.FirstFitOfSpans | src/app/api/book/route.ts:205-209 | When every shift converts, the answer is whether some shift holds the span. |
| Booking.FirstFitConverts | src/app/api/book/route.ts:205-209 | The search throws only when a shift does not convert. |
| Booking.NoShiftFits | src/app/api/book/route.ts:205-213 | When every open shift converts and none holds the span, the search says false. |
| Booking.SomeShiftFits | src/app/api/book/route.ts:200-209 | When every open shift converts and one holds the span, there is an open shift and the search says true. |
| Booking.TooSoon | src/app/api/book/route.ts:168-172 | A start before now plus the lead is refused with 400, naming the lead. |
| Booking.ClosedDay | src/app/api/book/route.ts:193-202 | With no open shift that day, the answer is 400 "closed". |
| Booking.NaNWeekdayFails | src/app/api/book/route.ts:181-191 | When the weekday is NaN while the date still converts, the answer is a 500, with the refused filter's message when the table is reachable. |
| Booking.OutsideShifts | src/app/api/book/route.ts:204-213 | When shifts are open but none holds the occupied span, the answer is 400 "outside the working period". |
| Booking.ScheduleOk | src/app/api/book/route.ts:163-213 | A scheduled booking had a converted start past the lead, in an open shift, and went through the conflict checks and the insert. |
| Booking.ScheduleReachesReserve | src/app/api/book/route.ts:163-213 | Past the lead, with an open shift that holds the span, scheduling hands over to the conflict checks. |
| Booking.ScheduleSucceeds | src/app/api/book/route.ts:163-277 | A start past the lead, held by an open shift, clear of the day's appointments and blocks, with a row inserted, is booked. |
| Booking.TakenBeforeBlocked | src/app/api/book/route.ts:226-235 | An overlapping appointment of the day gives 409 "taken", whatever the blocks. |
| Booking.BlockedSpan | src/app/api/book/route.ts:238-255 | With the appointments clear, an overlapping block of the day gives 409 "blocked". |
| Booking.ReserveOk | src/app/api/book/route.ts:215-277 | Reaching the insert means the occupied span is clear of the day's appointments and blocks. |
| Booking.ReserveClear | src/app/api/book/route.ts:215-277 | A span clear of the day's appointments and blocks goes on to the insert. |
| Booking.ReserveSameBusy | src/app/api/book/route.ts:226-235 | The conflict checks see the appointments only through their busy spans. |
| Booking.StatusIgnored | src/app/api/book/route.ts:216-222 | Changing an appointment's status leaves the booking decision unchanged, so cancelled rows still block. |
| Booking.InsertOk | src/app/api/book/route.ts:259-305 | The row stored holds the request's fields, starts at the start, and ends after the service length with no buffer. The buffer goes in the snapshot. The reply repeats the row and the found names. |
| Booking.InsertFails | src/app/api/book/route.ts:276-277 | A failed insert gives 500 with the client's message, or the fixed one when no row comes back. |
| Booking.LookupsSucceed | src/app/api/book/route.ts:127-157 | A query that keeps exactly one row makes its lookup return that row. |
| Booking.UnknownStore | src/app/api/book/route.ts:127-135 | A slug that no store has gives 404 "store not found". |
| Booking.StaffElsewhere | src/app/api/book/route.ts:138-146 | A staff member of another store gives 404: the lookup is scoped to the slug's store. |
| Booking.RequestSucceeds | src/app/api/book/route.ts:127-161 | Found rows with a service length in 1..480 go on to the schedule checks, whose verdict is the answer. |
| Booking.RequestOk | src/app/api/book/route.ts:127-161 | A booking past the lookups had its store, staff member and service found, and a usable duration. |
| Booking.ScheduleBookable | src/app/api/book/route.ts:163-277 | What the schedule checks let through for found rows is a booking of the request. |
| Booking.ReserveBookable | src/app/api/book/route.ts:215-277 | A start past the lead and in an open shift that clears the conflict checks and the insert is a booking. |
| Booking.ReserveBookedFrom | src/app/api/book/route.ts:257-277 | The row a reservation stores starts at the requested instant, under the rows found, inside the open shift and clear of the day's conflicts. |
| Booking.RequestBookable | src/app/api/book/route.ts:127-277 | Every booking the lookups and the schedule checks let through is a booking of the request, with the id the insert returned. |
| Booking.BookOk | src/app/api/book/route.ts:80-305 | The handler books only acceptable requests, and only as a booking of the request. |
| Booking.BookSucceeds | src/app/api/book/route.ts:80-305 | An acceptable request is booked when each lookup finds one row, the duration is usable, the start converts past the lead into an open shift, the day is clear, and the insert returns a row. |
| Booking.BookEchoesTime | src/app/api/book/route.ts:280-300 | With a fixed offset, the reply's local time is the requested time. |
| Booking.Book | src/app/api/book/route.ts:64-311 | No contract of its own: `BookOk`, `BookSucceeds`, `InvalidBodyIgnoresDatabase` and `UnknownStore` state what it answers. |
| Booking.BookRequest | src/app/api/book/route.ts:127-161 | No contract of its own: `RequestOk`, `RequestBookable`, `RequestSucceeds` and `StaffElsewhere` state what it answers. |
| Booking.Schedule | src/app/api/book/route.ts:163-213 | No contract of its own: `ScheduleOk`, `ScheduleSucceeds`, `TooSoon`, `ClosedDay`, `NaNWeekdayFails` and `OutsideShifts` state what it answers. |
| Booking.Reserve | src/app/api/book/route.ts:215-255 | No contract of its own: `ReserveOk`, `ReserveClear`, `TakenBeforeBlocked` and `BlockedSpan` state what it answers. |
| Booking.Insert | src/app/api/book/route.ts:257-305 | No contract of its own: `InsertOk` and `InsertFails` state what it answers. |
| Booking.Acceptable | src/app/api/book/route.ts:94-125 | No contract of its own: the checks' verdict stated directly; `CheckAccepts` proves the check chain passes exactly these requests. |
| Booking.OnGrid | src/app/api/book/route.ts:121-125 | No contract of its own: the minute test; `ValidMinuteReads`, `GridAgrees` and `GridDiverges` state what it accepts. |
| Agreement.OfferedStartBooks | src/app/api/availability/route.ts:169-198 | A start the availability list offers for a shift passes every schedule check of the booking route for the same request. |
| Agreement.LabelConverts | src/app/api/availability/route.ts:190-197 | With a fixed offset, the label shown for a start whose local time falls on the date converts back, on that date, to the start. |
| Agreement.OfferedLabelBooks | src/app/api/book/route.ts:164-213 | With a fixed offset, the offered label sent back as the requested time converts to the offered start and passes every schedule check. |
| Agreement.FallBackLabelLater | src/lib/tz.ts:38-47 | On a fall-back day, the label of a start half an hour before the change converts to the instant half an hour after it. |
| Agreement.ClockConvertsTo | src/lib/tz.ts:34-48 | A date and clock that read convert to the result of the two passes from their naive guess. |
| Agreement.FixedTwoPassOnDay | src/lib/tz.ts:38-47 | With a fixed offset, the two passes from the date at an instant's local minute, on the date the instant falls on, give that instant. |
| Agreement.FallBackTwoPass | src/lib/tz.ts:38-47 | Across a one-hour fall-back change, the instants half an hour either side show the same wall time, and the two passes from it give the later one. |
| Agreement.OfferedInShift | src/app/api/book/route.ts:204-209 | An offered start lies in an open shift that the booking route reads, and every such shift converts. |
| Agreement.OfferedClear | src/app/api/book/route.ts:215-255 | A span clear of what the availability route reads is clear of what the booking route reads. |
| Agreement.BlockWindows | src/app/api/book/route.ts:243-244 | The booking block query keeps a subset of the availability one; they differ exactly on a block that starts at the window end. |
| Agreement.GridAgrees | src/app/api/book/route.ts:121-125 | When the step divides an hour and the shift starts on the grid, a start a whole number of steps from the shift start is on the hour-based grid. |
| Agreement.GridDiverges | src/app/api/book/route.ts:121-125 | With a 45-minute step and a 09:00-18:00 shift, the list offers 10:30, which the booking check refuses, and never offers 10:00, which the check accepts. |
| Agreement.LastMinuteUnseen | src/lib/tz.ts:51-55 | An appointment starting at local 23:59 is outside the day window of its own date. |
| Agreement.LastMinuteDoubleBooking | src/app/api/book/route.ts:216-222 | Adding an appointment that starts at the window end leaves that day's booking decisions unchanged. |
| Onboarding.WordLengthMaximal | src/app/onboarding/OnboardingClient.tsx:20 | The word length is the longest prefix of `[a-z0-9]`. |
| Onboarding.GapLengthMaximal | src/app/onboarding/OnboardingClient.tsx:20 | The gap length is the longest prefix of other characters. |
| Onboarding.Slugify | src/app/onboarding/OnboardingClient.tsx:14-22 | The result is a slug: only `a-z`, `0-9` and `-`, no dash at either end, no two dashes in a row. |
| Onboarding.SlugifyIsWords | src/app/onboarding/OnboardingClient.tsx:14-22 | `slugify` is the words of the prepared text joined by single dashes. |
| Onboarding.Prepared | src/app/onboarding/OnboardingClient.tsx:15-19 | No contract of its own: lower-casing, trimming, decomposition and mark removal; `SlugPrepared` states that a slug passes through unchanged. |
| Onboarding.StripMarks | src/app/onboarding/OnboardingClient.tsx:19 | No contract of its own: `SlugPrepared` states that it leaves a slug unchanged. |
| Onboarding.Dashes | src/app/onboarding/OnboardingClient.tsx:20 | No contract of its own: `DashesOfWordStart` and `SlugOfText` state what the replacement gives. |
| Onboarding.TrimDashes | src/app/onboarding/OnboardingClient.tsx:21 | No contract of its own: `SlugOfText` states that it leaves exactly the words joined by dashes. |
| Onboarding.Words | src/app/onboarding/OnboardingClient.tsx:20 | No contract of its own: `WordsAreWords`, `WordsEmptyIff` and `WordsOfHyphenate` state what the split cuts. |
| Onboarding.SlugOfText | src/app/onboarding/OnboardingClient.tsx:20-21 | Replacing runs by dashes and then dropping the edge dashes gives exactly the words joined by dashes. |
| Onboarding.DashesOfWordStart | src/app/onboarding/OnboardingClient.tsx:20 | On text that starts with a word, the replacement gives the joined words, with one trailing dash when the text ends in a gap. |
| Onboarding.WordsAreWords | src/app/onboarding/OnboardingClient.tsx:20 | Every piece the word split cuts is a non-empty run of `[a-z0-9]`. |
| Onboarding.WordsEmptyIff | src/app/onboarding/OnboardingClient.tsx:20 | There are no words exactly when the text has no letter or digit. |
| Onboarding.HyphenateIsSlug | src/app/onboarding/OnboardingClient.tsx:20-21 | Words joined by dashes are a slug. |
| Onboarding.HyphenateEnds | src/app/onboarding/OnboardingClient.tsx:21 | Joined words start and end with a letter or digit. |
| Onboarding.WordsOfHyphenate | src/app/onboarding/OnboardingClient.tsx:20-21 | Splitting words joined by dashes gives back those words. |
| Onboarding.SlugPrepared | src/app/onboarding/OnboardingClient.tsx:16-19 | On a slug, lower-casing, trimming, decomposition and mark removal change nothing. |
| Onboarding.SlugifyIdempotent | src/app/onboarding/OnboardingClient.tsx:14-22 | Slugifying a slug gives it back, so slugifying the field on every edit is stable. |
| Onboarding.SlugifyEmptyIff | src/app/onboarding/OnboardingClient.tsx:14-22 | `slugify` gives the empty string exactly when the prepared text has no letter or digit. |
| Onboarding.FinalSlug | src/app/onboarding/OnboardingClient.tsx:47 | The chosen slug has at most 60 characters. It is a prefix of the trimmed own slug when one is given, and of the slug of the name otherwise. |
| Onboarding.DerivedSlugPrefix | src/app/onboarding/OnboardingClient.tsx:47 | A derived and cut slug keeps the slug alphabet, has no leading dash and no two dashes in a row. |
| Onboarding.CutSlugEndsInDash | src/app/onboarding/OnboardingClient.tsx:47 | A name made of a 59-letter word and a second word yields a slug that ends in a dash. |
| Onboarding.TwoWords | src/app/onboarding/OnboardingClient.tsx:20 | Two words with one separator between them split back into those two words. |
| Onboarding.SaveStepOne | src/app/onboarding/OnboardingClient.tsx:45-58 | An empty trimmed name is refused first; then an empty chosen slug is refused. A saved store has a name and a slug of 1 to 60 characters. |
| Onboarding.SaveStepOneIff | src/app/onboarding/OnboardingClient.tsx:45-79 | The step saves exactly when the trimmed name is non-empty and either an own slug is given or the name has a letter or digit. The saved store holds the trimmed name, the business type, the chosen slug, and the trimmed city or none. |
| Onboarding.ClampStep | src/app/onboarding/OnboardingClient.tsx:28-31 | The step lies in 1..6. A step in range is kept, a lower one becomes 1, a higher one becomes 6. |
| Onboarding.StepOf | src/app/onboarding/OnboardingClient.tsx:28-31 | A readable step parameter (or none, read as "1") gives a step in 1..6; an unreadable one gives NaN. |
| Onboarding.PageShown | src/app/onboarding/OnboardingClient.tsx:284-433 | Steps 1 to 5 show their own page; anything else, NaN included, shows the last page. |
| Onboarding.StepDefaults | src/app/onboarding/OnboardingClient.tsx:28-433 | Without a step parameter the first page shows; an unreadable one shows the last. |

## Left out

- `tzOffsetMinutes` and `Intl.DateTimeFormat` (src/lib/tz.ts:5-31) are calls into ICU. The offset is the parameter `off`, and rendering a local time is formatting of the local minute of the day.
- Offsets that are not whole minutes (local mean time before 1912) and sub-minute instants are not modelled, because instants are whole minutes.
- The clipping of `Date` values to about ±8.64e15 ms (TimeClip) is not modelled, because integers are unbounded.
- `Number` is modelled on trimmed decimal digit strings with an optional sign, with an empty string read as 0. Fractions, exponents, hexadecimal, `Infinity` and other float forms are not modelled; any other text reads as NaN.
- Numbers in the JSON body and in the rows are integers, because floating point is not modelled. A non-number JSON value is an absent field; the body's `Number.isFinite` default is modelled only on that basis.
- A body that is not JSON, or whose fields are not strings, is not modelled; the route would answer it with 500.
- `new Date()` (now) and the server's local `getDay()` in the booking route are parameters, because they depend on the clock and the server's zone.
- Lengths and slices are counted in Dafny characters, not UTF-16 code units. For the 80-character name limit and the 60-character slug cut this differs only for text outside the Basic Multilingual Plane.
- Sorting.StrLess: compares Unicode scalar values, not UTF-16 code units. The two orders differ only when a character above U+FFFF meets one in U+E000–U+FFFF: `sort` puts the first one earlier (its lead surrogate is below U+E000), the model puts it later. The offered labels are ASCII, so the slot list is not affected.
- Availability.Walk: steps are whole minutes, so the walk always ends. In the source a fractional step such as `stepMinutes=0.00001` passes the check at src/app/api/availability/route.ts:78-80 (`Number.isFinite` and `> 0`). `addMinutes` then adds 0.6 ms, which `new Date` truncates away, so `cursor` never moves and the `while (cursor < blockEndUtc)` loop never ends on a day with an open shift: the request hangs. The model reads "0.00001" as NaN and answers 400 "Invalid stepMinutes".
- `toLowerCase` and `normalize("NFD")` are parameters (`Unicode`), since their tables are large. `AsciiFaithful` pins them on ASCII text, which is what idempotence of `slugify` needs. Mark removal (U+0300 to U+036F) is modelled exactly.
- The check-then-insert race between concurrent bookings is not modelled. Each request runs alone against a fixed database.
- The `.or(...)` filter interpolates the staff id into a filter string. That text-level injection is not modelled: the filter is "store-wide or this staff member".
- The database's own defaults and constraints are not modelled (for example, the default status of an inserted row and unique keys). The inserted row is given status `Confirmed`.
- `toISOString` in the day queries is not modelled; the queries compare instants directly.
- In onboarding, the session check and the `upsert` (OnboardingClient.tsx:60-79) are not modelled, nor are the React state and the rendering of each page. `SaveStepOne` stops at the store to be saved.
- The remaining pages, shells and components, and the public staff and services routes, are UI or thin database wrappers.
- The response headers (`Cache-Control`) and the JSON shapes of the replies are not modelled. A reply is a status with a message, or the value.
- Booking.BookEchoesTime: proved only for a fixed offset, with `ChangeEcho` for a single offset change. For a wall time that falls in a spring-forward gap, the reply shows a different time; the model does not state what it shows.
- Booking.HoursQuery: a NaN weekday is answered with PostgreSQL's refusal of the text "NaN" for an integer `day_of_week` column. The table schema is not part of this model, so the exact message is an assumption; that the answer is a 500 is not.
- Agreement.OfferedStartBooks: states that the offered instant books, not that its label does. The label converts back to the offered start with a fixed offset (`OfferedLabelBooks`). On a fall-back day, the label of a start in the repeated hour converts to the later instant (`FallBackLabelLater`), so the booking is then not the start the list offered.
