# Omyra EMS — a verified model of the intern-management core

Omyra EMS is a small intern-management application: an Express/MongoDB back
end and a Next.js front end. Administrators register interns, approve them,
record holidays and monthly working-hour overrides, assign daily tasks and
read attendance reports. Interns log in, mark their timesheet day by day,
edit their profile and follow their tasks.

This Dafny project models the parts of that system that decide something:

- **Back end.** The route handlers are methods of one `Backend.Store` class.
  Its `seq` fields hold the interns, the attendance records, the holidays and
  the monthly overrides. Each handler returns the HTTP status it answers
  with and changes the collections as the handler does.
  - `Models` holds the Mongoose schemas and what passes validation.
  - `Auth` holds the two middlewares.
  - `InternIds` holds the `OM<month><year><seq>` identifier scheme.
  - `WorkingHours` holds the default monthly hours: weekdays that are not
    holidays, times 8.
  - `Calendar` holds JavaScript's day arithmetic, following section 21.4.1
    of ECMA-262 (day numbers, `WeekDay`, days in a month, the
    `YYYY-MM-DD` rendering).
- **Front end.** There is one module per page, plus two shared modules:
  - `Records` holds the folds over attendance several pages share.
  - `FormRows` holds the education/experience row objects that the
    registration and profile forms edit in place.

  Pure `filter`/`map`/`reduce` code becomes functions. Loops that update
  variables become methods with loop invariants:
  - the intern dashboard's `forEach`;
  - the admin dashboard's per-day buckets;
  - the report join.

  State the forms mutate in place becomes classes.
- **Shared library.** `Seqs`, `Strings`, `Assoc` and `Wrappers` are small
  libraries:
  - filters, sums, sorting, `find`;
  - ASCII case mapping, `split`, decimal digits, `padStart`, code-point
    string order;
  - insertion-ordered dictionaries that stand for JavaScript objects
    used as maps;
  - `Option`. A missing JSON field is `None` throughout.

Hashing (`bcrypt`), token signing and checking (`jsonwebtoken`), the current
time, fresh database ids and user confirmations are parameters of the
operations that use them.

Some behaviours of the code as written are proved rather than corrected,
because the model follows the code (none of them was executed):

- `InternIds.RolloverRepeats`: once the greatest ID of a month ends in
  "999", the next ID ends in "1000", which sorts below it, so every later
  registration generates that same ID and the unique index answers 500.
- `Backend.PatchWithoutDateDeletes`: a holiday PATCH without a date drops
  the date from the conflict filter and deletes some other holiday.
- `Backend.NewInternLogin`: a freshly registered intern has no status and
  cannot log in until approved.
- `Models.TaskFromRequestInvalid`: `POST /admin/tasks` never sets the
  `internId` the task schema requires.
- `Roadmap.ChartAndTimelineDisagree`: with an "in progress" status record
  ahead of a "completed" one, the chart counts the task as completed while
  its timeline line reads "in progress".
- `WorkingHoursPage.ZeroAnswerStored`: the working-hours page sends the
  prompt's answer as a string, so "0" passes the server's `!hours` guard
  and is stored as an override of 0 hours.
- The `sendMail` argument mismatch recorded under "## Left out".

## Model

| member | source | states |
|---|---|---|
| Models.NewIntern | Backend/models/Intern.js:15-18 | a new record takes role "intern", `profileUpdated` false, `dateOfJoining` now and no status, and carries the generated ID and the given password hash |
| Models.NewInternValid | Backend/models/Intern.js:4-36 | a registration record passes validation iff every required field is non-empty, dob is present, the designation is one of the nine values, every education row has degree/duration/institute/grade and every experience row company/duration/role (`ValidIntern`, with `ValidEducation` and `ValidExperience` for the rows) |
| Models.TaskFromRequest | Backend/routes/adminRoutes.js:506-523 | the task `POST /admin/tasks` builds never carries an `internId` |
| Models.TaskFromRequestInvalid | Backend/models/Task.js:6 | so no task created through that route passes validation, `internId` being required |
| Models.TaskDesignationOptional | Backend/models/Task.js:5-9 | a task without a designation can be valid; a designation outside the nine makes it invalid (`ValidTask` is the task schema's validity) |
| Auth.Token | Backend/middleware/authMiddleware.js:5 | the token is the second space-separated word of the header; it is never the empty string |
| Auth.TokenOfBearer | Backend/middleware/authMiddleware.js:5 | `scheme + " " + token` yields the token when neither part holds a space |
| Auth.TokenSingleWord | Backend/middleware/authMiddleware.js:5-6 | a one-word header such as "Bearer" carries no token |
| Auth.TokenEmptySecondWord | Backend/middleware/authMiddleware.js:5-6 | "Bearer " and "Bearer  abc" (two spaces) carry no token either |
| Auth.Authenticate | Backend/middleware/authMiddleware.js:4-13 | no token gives 403 "Access Denied: No Token Provided"; a rejected token gives 403 "Invalid Token"; the request continues exactly when the token verifies, and then with the decoded payload |
| Auth.Authorize | Backend/middleware/authMiddleware.js:17-22 | without a user the middleware throws; a role outside the list gives 403; otherwise the request continues with the same user |
| Auth.Request.constructor | Backend/middleware/authMiddleware.js:4 | a request starts with no user, no status and no `next` call |
| Auth.Request.AuthenticateJWT | Backend/middleware/authMiddleware.js:4-13 | on rejection the status and message are set, `req.user` is untouched and `next` is not called; on success `req.user` is the payload and `next` is called exactly once |
| InternIds.MaxString | Backend/routes/adminRoutes.js:152 | the greatest ID in code-point order (the database's order on UTF-8 strings): a member of the list that every other member precedes |
| InternIds.PresentIds | Backend/routes/adminRoutes.js:152 | the IDs that records actually hold |
| InternIds.LastInternId | Backend/routes/adminRoutes.js:152 | `findOne().sort({ internId: -1 })`: some record's ID, not below any other record's ID, and none exactly when no record has one |
| InternIds.NextSequence | Backend/routes/adminRoutes.js:153-158 | without a last ID the sequence is 1 |
| InternIds.SequenceText | Backend/routes/adminRoutes.js:160 | the sequence text is at least three characters long ("NaN" for a failed parse) |
| InternIds.MakeInternId | Backend/routes/adminRoutes.js:160 | the ID starts with "OM" |
| InternIds.GenerateInternId | Backend/routes/adminRoutes.js:150-160 | the generated ID is "OM", the unpadded month and the year, followed by at least three sequence characters |
| InternIds.Pad3 | Backend/routes/adminRoutes.js:160 | a sequence below 1000 is written as three digits that read back as it |
| InternIds.FirstInternId | Backend/routes/internRoutes.js:31-41 | with no ID in the store the first ID is `OM<month><year>001` |
| InternIds.NextAfterDigits | Backend/routes/adminRoutes.js:155-157 | three trailing digits worth v continue the sequence at v + 1 |
| InternIds.NextOfParsed | Backend/routes/adminRoutes.js:155-157 | a last ID whose final three characters parse to v gives v + 1 |
| InternIds.SequenceSuccessor | Backend/routes/adminRoutes.js:155-160 | below 999 the next sequence is the successor, padded to three digits |
| InternIds.SequenceAfter999 | Backend/routes/adminRoutes.js:155-160 | after "…999" comes "…1000" |
| InternIds.SequenceAfter1000 | Backend/routes/adminRoutes.js:155-160 | after "…1000" comes "…001", because the last three characters are "000" |
| InternIds.SequenceNotANumber | Backend/routes/adminRoutes.js:156 | three non-digit final characters give NaN, and the ID ends in "NaN" |
| InternIds.LastInternIdKeeps | Backend/routes/adminRoutes.js:152 | storing an ID below the greatest one leaves the greatest one in place |
| InternIds.RolloverRepeats | Backend/routes/adminRoutes.js:152-160 | once the greatest ID of a month ends in 999, the generated "…1000" sorts below it, so the next registration generates the same ID again |
| Backend.FindByEmail | Backend/routes/internRoutes.js:25 | with an email: none iff no intern has it, else an intern holding it; without one Mongoose drops the filter and the first intern, if any, is found |
| Backend.FindById | Backend/routes/adminRoutes.js:227 | none iff no intern has the `_id`, else the intern with it |
| Backend.ReplaceUnique | Backend/routes/internRoutes.js:137-143 | replacing a record by one with the same `_id` whose email and ID no other record holds keeps the unique indexes (`ReplaceIntern` puts the new record at the position of that `_id`) |
| Backend.Login | Backend/routes/internRoutes.js:86-108 | 404 iff no intern has the email; a successful login needs a matching password and status "approved", and its token payload is that intern's `_id` and role; "not approved" needs a matching password |
| Backend.WrongPasswordFirst | Backend/routes/internRoutes.js:92-93 | a wrong password gives 401 "Invalid credentials" whatever the approval status |
| Backend.UnapprovedRefused | Backend/routes/internRoutes.js:96-98 | a right password on an account that is not approved gives 401 |
| Backend.AppendUnique | Backend/models/Intern.js:7-11 | adding a record with a new `_id`, email and ID keeps email and internId unique (`UniqueInterns` is the pair of unique indexes; `Collides` is an index rejecting the new record) |
| Backend.ApplyProfile | Backend/routes/internRoutes.js:137-141 | each of the ten body fields that is present overwrites the record; `_id`, internId, password, role, status, date of joining and `profileUpdated` never change |
| Backend.ApplyProfileEmpty | Backend/routes/internRoutes.js:137-141 | an empty body changes nothing |
| Backend.ApplyProfileIdempotent | Backend/routes/internRoutes.js:137-141 | the same update applied twice is the update applied once |
| Backend.FindOverride | Backend/routes/adminRoutes.js:439 | the override for (month, year) when one exists, none iff there is none |
| Backend.WorkingHoursReply | Backend/routes/adminRoutes.js:431-468 | 400 iff the month or year query is missing or empty; otherwise 500 iff either fails the `Number` cast; otherwise an override's hours are returned as stored, or the hours are a multiple of 8, at most 8 × the days of the month |
| Backend.NumericQueryAnswered | Backend/routes/adminRoutes.js:431-439 | a query built from numbers, as the pages build it, is always answered with hours |
| Backend.NonNumericQueryFails | Backend/routes/adminRoutes.js:434-439 | a truthy non-numeric month such as "abc" passes the guard and fails the cast (500) |
| Backend.OverrideIgnoresHolidays | Backend/routes/adminRoutes.js:439-442 | with an override the reply is the same whatever the holidays are |
| Backend.DefaultReplyBounds | Backend/routes/adminRoutes.js:445-461 | without override or holidays a month yields 160 to 184 hours |
| Backend.MonthZeroIsDecember | Backend/routes/adminRoutes.js:434-445 | month "0" passes the guard and the cast, and the `Date` constructor reads it as December of the previous year |
| Backend.Upsert | Backend/routes/adminRoutes.js:480-484 | the new override is present and the collection grows by at most one |
| Backend.UpsertFinds | Backend/routes/adminRoutes.js:480-484 | after the upsert the lookup for (month, year) finds exactly the new hours |
| Backend.UpsertOthers | Backend/routes/adminRoutes.js:480-484 | the lookup for every other (month, year) is unchanged |
| Backend.UpsertElements | Backend/routes/adminRoutes.js:480-484 | every override after the upsert is the new one or an old one |
| Backend.UpsertUnique | Backend/routes/adminRoutes.js:480-484 | the upsert keeps at most one override per (month, year) |
| Backend.CastNumberOfString | Backend/models/MonthlyHours.js:8 | casting a string to the `Number` path `hours` reads back any integer `String(n)` wrote |
| Backend.CastNumberRejects | Backend/models/MonthlyHours.js:8 | a string with a non-digit after the sign position is a cast error |
| Backend.PutHoursOutcome | Backend/routes/adminRoutes.js:473-489 | 400 exactly when month, year or hours is falsy (missing, 0 or ""); otherwise a JSON number is stored as it is, and a string is stored as its cast or is a cast error |
| Backend.ZeroStringStored | Backend/routes/adminRoutes.js:474-482 | the string "0" is truthy, passes the guard and is stored as 0 hours |
| Backend.NonNumericStringFails | Backend/routes/adminRoutes.js:474-482 | a truthy non-numeric string passes the guard and fails the cast |
| Backend.AttendanceOf | Backend/routes/attendanceRoutes.js:40-47 | exactly the records with that internId, in store order |
| Backend.AppendAttendanceUnique | Backend/routes/attendanceRoutes.js:20-33 | adding a record whose (internId, date) is new keeps one record per pair (`UniqueAttendance`) |
| Backend.OrNA | Backend/routes/adminRoutes.js:88-90 | a missing or empty field is shown as "N/A", any other as it is |
| Backend.ReportRowOf | Backend/routes/adminRoutes.js:72-94 | names and designation or "N/A", and exactly the records that carry the intern's `_id` or internId, in store order (`BelongsTo`; an intern without an internId would match by `_id` only, which the required internId rules out) |
| Backend.ConflictingHoliday | Backend/routes/adminRoutes.js:394-396 | some other holiday on the new date, none iff there is none; without a date the filter drops the date and any other holiday matches |
| Backend.RemoveHoliday | Backend/routes/adminRoutes.js:397 | exactly the holidays with another id, in order |
| Backend.SetHoliday | Backend/routes/adminRoutes.js:402-406 | the holiday with the id takes the name and date that are given; every other holiday is unchanged |
| Backend.SendEmailReply | Backend/routes/adminRoutes.js:648-666 | 400 iff subject or message is empty or there are no recipients; otherwise the route computes a list holding the email of every chosen intern and of no other intern |
| Backend.Store.constructor | Backend/routes/adminRoutes.js:3-10 | the database starts empty; `Store.Valid` holds of it and every handler keeps it: unique email and internId, distinct `_id`s and one attendance record per (internId, date) |
| Backend.Store.Register | Backend/routes/adminRoutes.js:128-201 | taken email: 400 with no change; otherwise the next ID is generated and hashed as the password. Then 201 with exactly one record added and its ID returned as the plain password, or 500 with no change when validation or a unique index rejects it |
| Backend.Store.UpdateProfile | Backend/routes/internRoutes.js:122-150 | unknown `_id`: 404; an email of another intern: 500, no change; otherwise the record is replaced by the updated one and nothing else changes |
| Backend.Store.UpdateStatus | Backend/routes/adminRoutes.js:222-258 | unknown `_id`: 404; otherwise the status is set when the record still validates (200), else 500 with no change |
| Backend.Store.DeleteIntern | Backend/routes/adminRoutes.js:207-220 | unknown `_id`: 404 and nothing changes; otherwise the intern goes, with exactly the attendance records keyed by that `_id` |
| Backend.Store.MarkAttendance | Backend/routes/attendanceRoutes.js:7-37 | a day after today gives 400 first (a missing date counts as now); then any record matching `{ internId, date }`, with a missing key dropped, gives 400; a missing or empty internId or a missing date fails validation (500); otherwise exactly one record is added |
| Backend.FoundExists | Backend/routes/attendanceRoutes.js:20 | with both keys present the lookup finds exactly an existing (internId, date) pair; with either key missing it also finds that record |
| Backend.Store.PutWorkingHours | Backend/routes/adminRoutes.js:473-491 | a falsy month, year or hours gives 400 and a failed cast of `hours` gives 500, both with no change; otherwise the override is upserted with the cast hours (200) (`PutHoursOutcome`) |
| Backend.Store.AddHoliday | Backend/routes/adminRoutes.js:375-386 | the holiday is appended (201) |
| Backend.Store.PatchHoliday | Backend/routes/adminRoutes.js:389-415 | the conflicting holiday is deleted first; then the target is updated (200), or 404 with the deletion already done |
| Backend.Store.DeleteHoliday | Backend/routes/adminRoutes.js:419-429 | unknown id: 404 and no change; otherwise exactly that holiday goes |
| Backend.Store.Report | Backend/routes/adminRoutes.js:67-102 | one row per intern, in store order, each the intern's report row |
| Backend.SubsequenceUniqueInterns | Backend/routes/adminRoutes.js:209 | deleting interns keeps the unique indexes |
| Backend.SubsequenceUniqueAttendance | Backend/routes/adminRoutes.js:212 | deleting records keeps one record per (internId, date) |
| Backend.SubsequenceDistinctIds | Backend/routes/adminRoutes.js:397 | deleting holidays keeps their ids distinct |
| Backend.RemoveKeepsOthers | Backend/routes/adminRoutes.js:397-402 | deleting one holiday keeps the ids distinct and leaves every other id findable |
| Backend.SetHolidayDistinct | Backend/routes/adminRoutes.js:402-406 | updating a holiday in place keeps the ids distinct |
| Backend.NewInternLogin | Backend/routes/internRoutes.js:92-98 | a freshly registered intern has no status, so even the right password yields "not approved" |
| Backend.PatchWithoutDateDeletes | Backend/routes/adminRoutes.js:394-399 | a patch without a date deletes some other holiday whenever there are two |
| Backend.RemoveOneId | Backend/routes/adminRoutes.js:397 | with distinct ids, removing a present id removes exactly one holiday |
| Calendar.DaysInYear | Backend/routes/adminRoutes.js:445 | a year has 365 or 366 days |
| Calendar.DaysInMonth | Backend/routes/adminRoutes.js:445 | a month has 28 to 31 days, and 29 exactly in a leap-year February |
| Calendar.DayFromYearStep | Backend/routes/adminRoutes.js:455 | consecutive January firsts are a year's length apart |
| Calendar.DaysBeforeMonthYear | Backend/routes/adminRoutes.js:455 | the twelve months fill the year |
| Calendar.WeekDay | Backend/routes/adminRoutes.js:456 | `getDay()` lies in 0..6 |
| Calendar.WeekdayName | new-frontend/pages/intern/dashboard.js:94 | the long weekday name is one of the seven English names |
| Calendar.EpochIsThursday | Backend/routes/adminRoutes.js:456 | example anchoring the weekday formula: 1970-01-01 was a Thursday |
| Calendar.WeekDayExamples | Backend/routes/adminRoutes.js:456 | examples anchoring the weekday formula: 2024-01-01 was a Monday and 2024-01-06 a Saturday |
| Calendar.NextDayNumber | Backend/routes/adminRoutes.js:454-456 | the next calendar day has the next day number and the next weekday |
| Calendar.NextMonthNumber | Backend/routes/adminRoutes.js:454-456 | after a month's last day comes the next month's first |
| Calendar.NextYearNumber | Backend/routes/adminRoutes.js:454-456 | after December 31st comes January 1st |
| Calendar.NormaliseMonth | Backend/routes/adminRoutes.js:445-449 | `new Date(y, m0, 1)` lands in the normalised month that counts the same number of months |
| Calendar.DaysInMonthOf | Backend/routes/adminRoutes.js:445 | `new Date(y, m, 0).getDate()` is 28 to 31 |
| Calendar.BeforeDayNumber | Backend/routes/attendanceRoutes.js:12-15 | an earlier day has a smaller day number |
| Calendar.DayNumberOrder | Backend/routes/attendanceRoutes.js:12-15 | day numbers tell dates apart and order them as "before" does (`DayNumber` is ECMA-262's Day(MakeDate(MakeDay(y, m, d), 0))) |
| Calendar.YearBounds | Backend/routes/adminRoutes.js:455 | a date lies within its year |
| Calendar.Pad2 | Backend/routes/adminRoutes.js:457 | two digits that read back as the number |
| Calendar.FourDigitYear | Backend/routes/adminRoutes.js:457 | years 0 to 9999 are four digits that read back as the year |
| Calendar.YearStringInjective | Backend/routes/adminRoutes.js:457 | different years have different year strings |
| Calendar.MonthDay | Backend/routes/adminRoutes.js:457 | the `-MM-DD` part holds the padded month and day |
| Calendar.IsoDate | Backend/routes/adminRoutes.js:457 | `YYYY-MM-DD` is the year string plus six characters |
| Calendar.MomentYear | new-frontend/pages/admin/working-hours.js:28 | moment's `YYYY`: at least four characters, the absolute year zero-filled, "-" only for a negative year |
| Calendar.MomentIsIsoDate | new-frontend/pages/admin/working-hours.js:28 | for years 0 to 9999 moment's `format("YYYY-MM-DD")` equals the ISO date part |
| Calendar.MomentDiffersAbove | new-frontend/pages/admin/working-hours.js:28 | past year 9999 the two renderings differ ("12000" against "+012000") |
| Calendar.MomentDiffersBelow | new-frontend/pages/admin/working-hours.js:28 | for years -9999 to -1 they differ ("-0001" against "-000001") |
| Calendar.MomentDateInjective | new-frontend/pages/admin/working-hours.js:93 | distinct days have distinct moment renderings, so comparing the strings compares the days |
| Calendar.IsoDateInjective | Backend/routes/adminRoutes.js:457 | distinct days have distinct `YYYY-MM-DD` strings |
| Calendar.IsoStringDatePart | new-frontend/pages/intern/profile.js:42 | `toISOString().split("T")[0]` gives back `YYYY-MM-DD` |
| Calendar.IsoStringParts | new-frontend/pages/intern/profile.js:42 | the ISO string is the date, "T" and midnight (`IsoString` is `toISOString()`) |
| Calendar.MonthKey | new-frontend/pages/admin/reports.js:105 | `toISOString().slice(0, 7)` has seven characters |
| Calendar.MonthKeySame | new-frontend/pages/admin/reports.js:105 | for four-digit years two dates share a month key iff they share year and month |
| WorkingHours.TargetMonth | Backend/routes/adminRoutes.js:449 | the month the handler looks at is a real month 1..12; `ConstructorYear` maps 0..99 to 1900..1999 as the `Date` constructor does |
| WorkingHours.MonthLength | Backend/routes/adminRoutes.js:445 | `daysInMonth` is the length of that month |
| WorkingHours.MonthDays | Backend/routes/adminRoutes.js:454-455 | days 1..n of the month, in order, for any n up to its length |
| WorkingHours.HolidaysBetween | Backend/routes/adminRoutes.js:447-452 | the holidays the range query returns lie between the first and last day |
| WorkingHours.SameIsoDayIff | Backend/routes/adminRoutes.js:457 | comparing the date parts of ISO strings is comparing the days |
| WorkingHours.WorkingDays | Backend/routes/adminRoutes.js:454-459 | the counted days are no more than the days of the month |
| WorkingHours.DefaultHours | Backend/routes/adminRoutes.js:461 | the default hours are a multiple of 8, at most 8 × daysInMonth |
| WorkingHours.IsHolidayInRange | Backend/routes/adminRoutes.js:447-457 | within the month the range query loses no holiday |
| WorkingHours.WorkingDaysSpec | Backend/routes/adminRoutes.js:454-459 | a day is counted iff it is a day of the month, not a Saturday or Sunday, and no holiday falls on it (`IsHoliday` compares calendar days) |
| WorkingHours.HolidaysCongruent | Backend/routes/adminRoutes.js:447-459 | holiday lists that mark the same weekdays of the month give the same count |
| WorkingHours.RedundantHoliday | Backend/routes/adminRoutes.js:454-461 | a holiday on a weekend, on an existing holiday or outside the month changes nothing |
| WorkingHours.MonthDaysDistinct | Backend/routes/adminRoutes.js:454 | the days of a month are distinct |
| WorkingHours.OneHolidayAtMostOneDay | Backend/routes/adminRoutes.js:454-461 | one more holiday removes at most one working day, 8 hours |
| WorkingHours.WeekdayCountWeek | Backend/routes/adminRoutes.js:456 | any seven consecutive days hold five weekdays |
| WorkingHours.WeekDayOfMonthDay | Backend/routes/adminRoutes.js:455-456 | day k of a month falls on the weekday that follows from the month's day number |
| WorkingHours.WeekdaysOfMonth | Backend/routes/adminRoutes.js:454-456 | the weekdays of a month are counted by their day numbers |
| WorkingHours.NoHolidayCount | Backend/routes/adminRoutes.js:454-461 | without holidays the working days are the weekdays of the month |
| WorkingHours.WeekdayCountMonth | Backend/routes/adminRoutes.js:456 | 28 to 31 consecutive days hold 20 to 20 + (n − 28) weekdays |
| WorkingHours.NoHolidayBounds | Backend/routes/adminRoutes.js:454-461 | without holidays every month has 160 to 184 hours |
| Records.TotalOfFilter | new-frontend/pages/admin/timesheet.js:32-40 | with non-negative hours a filtered total lies between 0 and the whole total (`TotalHours` sums hours, missing = 0) |
| Records.WeekdayRecords | new-frontend/pages/admin/dashboard.js:56-59 | exactly the records not on a Saturday or Sunday, in order |
| Records.HistogramCounts | new-frontend/pages/admin/dashboard.js:84-90 | each hours value once; its count is the number of records with those hours (missing = 0); the counts add up to the number of records (`HoursHistogram`) |
| Records.WeekdayHistogramCounts | new-frontend/pages/intern/dashboard.js:215-228 | the pie counts add up to the number of weekday records, and a value appears iff some weekday record has it (`WeekdayHistogram`) |
| AdminDashboard.DaysInMonthChart | new-frontend/pages/admin/dashboard.js:61-66 | the `forEach` builds the per-day-of-month sums of the weekday records |
| AdminDashboard.DaysInMonthBuckets | new-frontend/pages/admin/dashboard.js:61-66 | each day once and within 1..31; a day's bucket holds the hours of its weekday records; the buckets add up to the weekday hours |
| InternDashboard.Average | new-frontend/pages/intern/dashboard.js:109 | an empty list averages 0; otherwise average × count = total |
| InternDashboard.DateRange | new-frontend/pages/intern/dashboard.js:111-117 | no records: no range (the Invalid Dates of `Math.min()`/`Math.max()` of nothing); otherwise the earliest and the latest record day, each carried by a record, with every record day between them |
| InternDashboard.TopDayStep | new-frontend/pages/intern/dashboard.js:97-99 | a strictly greater record takes over and keeps the top-day property |
| InternDashboard.TopOfSpec | new-frontend/pages/intern/dashboard.js:89-99 | the fold yields the first record with the greatest hours, or ("", 0) when no record has more than 0 hours (`TopOf` is the fold, `IsTopDay` the description) |
| InternDashboard.TopDayUnique | new-frontend/pages/intern/dashboard.js:89-99 | at most one top day meets that description |
| InternDashboard.LoadAttendanceData | new-frontend/pages/intern/dashboard.js:88-106 | the loop yields the per-weekday sums, the top day as specified, and the count of records with hours exactly 0 |
| InternDashboard.LoadStep | new-frontend/pages/intern/dashboard.js:92-102 | one iteration extends all three results by one record |
| InternDashboard.WeekBuckets | new-frontend/pages/intern/dashboard.js:92-95 | distinct weekday names; each holds the hours of its records; together they hold the total |
| InternDashboard.Classify | new-frontend/pages/intern/dashboard.js:134-143 | "due today" iff the same calendar day; "overdue" iff an earlier day; "due within 24 hours" only for the next calendar day less than 24 hours ahead; no notice only for a missing date or one at least a day ahead |
| InternDashboard.WithinDayIsTomorrow | new-frontend/pages/intern/dashboard.js:141 | "due within 24 hours" fires only for tomorrow at an earlier time of day |
| AdminTimesheet.MonthRecords | new-frontend/pages/admin/timesheet.js:32-39 | exactly the records of the current year and month |
| AdminTimesheet.Aggregate | new-frontend/pages/admin/timesheet.js:26-48 | names and designation as reported, the total hours and the current month's hours |
| AdminTimesheet.AggregateAll | new-frontend/pages/admin/timesheet.js:26-49 | one summary per report row, in the same order |
| AdminTimesheet.CurrentMonthAtMostTotal | new-frontend/pages/admin/timesheet.js:27-40 | with non-negative hours, 0 ≤ current-month hours ≤ total hours |
| AdminTimesheet.Search | new-frontend/pages/admin/timesheet.js:66-72 | a row is kept iff a text field contains the term ignoring case, in order; the numbers never match (`AdminTimesheet.Matches`) |
| AdminTimesheet.SearchEmpty | new-frontend/pages/admin/timesheet.js:66-72 | the empty term keeps every row |
| AdminTimesheet.Export | new-frontend/pages/admin/timesheet.js:77-80 | an export is refused iff the filtered list is empty, else it holds exactly that list |
| Reports.InternIdLeTotalPreorder | new-frontend/pages/admin/reports.js:35 | the internId comparison is a total preorder (`InternIdLe` stands for `localeCompare(...) <= 0`, as code-point order) |
| Reports.SortInterns | new-frontend/pages/admin/reports.js:35 | stored interns, which all carry an ID, become a permutation of themselves sorted by ID |
| Reports.Selection | new-frontend/pages/admin/reports.js:78-92 | exactly the selected intern's records, as a permutation, sorted by date |
| Reports.DisplayHours | new-frontend/pages/admin/reports.js:100 | "Weekend" iff the hours are 0 or missing, else the hours |
| Reports.DisplayedHoursValue | new-frontend/pages/admin/reports.js:100-106 | `Number(shown) \|\| 0` reads back the record's hours, missing as 0 (`NumericHours`) |
| Reports.Rows | new-frontend/pages/admin/reports.js:94-102 | one row per record, the record unchanged, the hours as displayed |
| Reports.RowsHours | new-frontend/pages/admin/reports.js:104-108 | the rows' numeric hours add up to the records' hours |
| Reports.MonthlyTotalsSpec | new-frontend/pages/admin/reports.js:104-108 | each "YYYY-MM" once; a month holds the hours of its rows; the totals add up to the selection's hours (`MonthlyTotals`) |
| Reports.MonthlyTotalsSum | new-frontend/pages/admin/reports.js:104-108 | the monthly totals add up to the selection's hours |
| Reports.AvgHoursMean | new-frontend/pages/admin/reports.js:110-113 | the average is NaN iff nothing is selected, else average × count = total hours (`AvgHours`) |
| Reports.MeanOfTotal | new-frontend/pages/admin/reports.js:110-113 | a total over a non-empty list divided by its length, times the length, is the total |
| Reports.Salary | new-frontend/pages/admin/reports.js:128-130 | with a positive price, the current month's hours × price (0 for a month without records); otherwise the previous salary is kept |
| Reports.StatusInternIds | new-frontend/pages/admin/reports.js:64 | the `internId` of every status record, in order |
| Reports.StatusTaskIds | new-frontend/pages/admin/reports.js:64 | the `taskId` of every status record, in order |
| Reports.PendingAgainst | new-frontend/pages/admin/reports.js:66-68 | the tasks whose `_id` is not excluded, as a permutation of the filter, sorted by date |
| Reports.PendingTasksAsWritten | new-frontend/pages/admin/reports.js:64-68 | as written: a task is kept iff no status record's internId equals its `_id` |
| Reports.PendingTasks | new-frontend/pages/admin/reports.js:64-68 | corrected: a task is kept iff no status record refers to it by taskId, sorted by date |
| Reports.CompletedTaskStaysPending | new-frontend/pages/admin/reports.js:63-67 | as written, a task with a "completed" record stays pending |
| Reports.CompletedTaskDropped | new-frontend/pages/admin/reports.js:63-67 | the corrected list drops it |
| InternsPage.Present | new-frontend/pages/admin/interns.js:59-63 | exactly the strings present among the optional fields |
| InternsPage.StringValues | new-frontend/pages/admin/interns.js:59-63 | the string-valued fields: `_id`, role, dates as ISO strings and every present optional string |
| InternsPage.Search | new-frontend/pages/admin/interns.js:57-65 | an intern is kept iff one of its strings contains the term ignoring case, order kept (`InternsPage.Matches`) |
| InternsPage.SearchEmpty | new-frontend/pages/admin/interns.js:57-65 | the empty term keeps every intern |
| InternsPage.SearchSeesPassword | new-frontend/pages/admin/interns.js:59-63 | a term found in the password hash matches too |
| InternsPage.InitialFormData | new-frontend/pages/admin/interns.js:19-28 | the eight blank fields |
| InternsPage.OpenModal | new-frontend/pages/admin/interns.js:69-73 | the modal shows the employee's record, or the blank form without one |
| InternsPage.CloseModal | new-frontend/pages/admin/interns.js:75-79 | the modal hides, forgets the employee and blanks the form |
| InternsPage.CloseAfterOpen | new-frontend/pages/admin/interns.js:69-79 | closing forgets what opening loaded; opening empty shows the form closing leaves |
| People.FilteredInterns | new-frontend/pages/intern/people.js:24-28 | an intern is kept iff "first last internId" contains the search ignoring case, order kept |
| People.FilteredEmpty | new-frontend/pages/intern/people.js:24-28 | the empty search keeps every intern |
| People.PartsFound | new-frontend/pages/intern/people.js:25 | each part is found in the joined label (`Label` is the template string, `People.Matches` the test) |
| People.FieldFound | new-frontend/pages/intern/people.js:25-27 | an intern is found by its own first name, last name or ID |
| People.MatchSpansFields | new-frontend/pages/intern/people.js:25 | "doe om" finds Jane Doe, OM12024001 although neither field contains it |
| EmailPage.Without | new-frontend/pages/admin/email.js:166 | dropping an id leaves it no copies and every other id its number of copies |
| EmailPage.FilterIsWithout | new-frontend/pages/admin/email.js:166 | the `filter((internId) => internId !== id)` equals `Without` |
| EmailPage.Toggle | new-frontend/pages/admin/email.js:163-169 | a selected id is removed everywhere (exactly `Without`); any other id is appended |
| EmailPage.ToggleTwice | new-frontend/pages/admin/email.js:163-169 | toggling twice restores the set of selected ids |
| EmailPage.ToggleTwiceAbsent | new-frontend/pages/admin/email.js:163-169 | from an absent id, toggling twice restores the selection itself |
| EmailPage.ToggleNoDuplicates | new-frontend/pages/admin/email.js:163-169 | toggling keeps a selection free of repeats |
| EmailPage.ClicksNoDuplicates | new-frontend/pages/admin/email.js:163-169 | from none, however the admin clicks, no id is selected twice |
| EmailPage.FilteredInterns | new-frontend/pages/admin/email.js:171-177 | all interns for the empty designation, else exactly those with it, in order |
| EmailPage.SendEmail | new-frontend/pages/admin/email.js:141-161 | nothing is sent iff subject or message is empty or no intern is selected; the request carries the selection unchanged; success clears the form |
| EmailPage.SentRequestAccepted | new-frontend/pages/admin/email.js:141-153 | a request the page sends passes the server's guard |
| RegisterForm.NestedKeysAreLabels | new-frontend/pages/intern/register.js:162-169 | the inputs edit the lower-cased labels, which are the keys of the initial rows and of added rows |
| RegisterForm.Form.constructor | new-frontend/pages/intern/register.js:6-17 | blank text fields, one blank education row and one blank experience row |
| RegisterForm.Form.HandleChange | new-frontend/pages/intern/register.js:24-27 | exactly one text field takes the value |
| RegisterForm.Form.HandleNestedChange | new-frontend/pages/intern/register.js:29-35 | only that key of that row changes, in place; no such row: the update throws and nothing changes |
| RegisterForm.Form.AddField | new-frontend/pages/intern/register.js:37-42 | one new row with the six blank keys at the end of the chosen list; the rest unchanged |
| RegisterForm.Form.AddEducationRow | new-frontend/pages/intern/register.js:37-42 | the same for the education list |
| RegisterForm.Form.AddExperienceRow | new-frontend/pages/intern/register.js:37-42 | the same for the experience list |
| RegisterForm.Form.RemoveField | new-frontend/pages/intern/register.js:44-49 | exactly the row at the index leaves the chosen list, the others keep their order; an index past the end removes nothing |
| RegisterForm.Form.RemoveEducationRow | new-frontend/pages/intern/register.js:44-49 | the same for the education list |
| RegisterForm.Form.RemoveExperienceRow | new-frontend/pages/intern/register.js:44-49 | the same for the experience list |
| FormRows.Blank | new-frontend/pages/intern/register.js:15-16 | a row whose every key holds "" |
| FormRows.SetField | new-frontend/pages/intern/register.js:31-32 | `list[index][field] = value` writes the shared row object in place; past the end it throws and nothing changes |
| FormRows.FreshRows | new-frontend/pages/intern/profile.js:47-48 | fetched rows are new, distinct row objects holding the fetched values |
| FormRows.AppendRow | new-frontend/pages/intern/register.js:40 | a copy of the list with one new row at the end |
| ProfileForm.DobField | new-frontend/pages/intern/profile.js:42 | the dob is the `YYYY-MM-DD` prefix of its ISO string, or "" when absent |
| ProfileForm.LoadedText | new-frontend/pages/intern/profile.js:37-46 | every text field is the fetched value or "" (`x \|\| ""` is `GetOr("")`) |
| ProfileForm.LoadedValidIntern | new-frontend/pages/intern/profile.js:37-46 | a valid record's required fields load unchanged |
| ProfileForm.EducationFields | new-frontend/pages/intern/profile.js:47 | a stored row has a key exactly for each present field, and all four for a valid row |
| ProfileForm.ExperienceFields | new-frontend/pages/intern/profile.js:48 | the same for the three experience keys |
| ProfileForm.WithoutInternId | new-frontend/pages/intern/profile.js:65-66 | the payload keeps every text field except internId |
| ProfileForm.InternIdNotSubmitted | new-frontend/pages/intern/profile.js:65-66 | forms differing only in internId submit the same fields |
| ProfileForm.Form.constructor | new-frontend/pages/intern/profile.js:6-18 | blank text fields and no rows |
| ProfileForm.Form.LoadProfile | new-frontend/pages/intern/profile.js:26-53 | the form holds the loaded text and new row objects with the fetched rows, missing rows as [] |
| ProfileForm.Form.SubmitPayload | new-frontend/pages/intern/profile.js:65-67 | the form without internId, with the rows' current values |
| ProfileForm.Form.ChangeRow | new-frontend/pages/intern/profile.js:78-88 | only the named key of that row changes, in place; the other list is unchanged; no such row: nothing changes |
| ProfileForm.Form.AddEducation | new-frontend/pages/intern/profile.js:90-95 | one new blank degree/duration/institute/grade row at the end |
| ProfileForm.Form.AddExperience | new-frontend/pages/intern/profile.js:97-102 | one new blank company/duration/role row at the end |
| Roadmap.CompletedTasks | new-frontend/pages/intern/roadmap.js:41 | a task is completed iff some status record has its taskId and status "completed" (`Completed`) |
| Roadmap.ProgressSplit | new-frontend/pages/intern/roadmap.js:41-45 | completed + pending = number of tasks, 0 ≤ completed ≤ tasks, and pending counts the tasks not completed (`ProgressCounts`) |
| Roadmap.TimelineStatus | new-frontend/pages/intern/roadmap.js:77 | the status of the first record for the task, "Upcoming" when there is none or it is empty |
| Roadmap.FirstForFound | new-frontend/pages/intern/roadmap.js:77 | `find` returns the first record for the task |
| Roadmap.ChartAndTimelineDisagree | new-frontend/pages/intern/roadmap.js:41-77 | a task can count as completed while its line reads "in progress" |
| Roadmap.StatusStyle | new-frontend/pages/intern/roadmap.js:80-91 | "completed" green, "in progress" red and bold, anything else gray |
| Roadmap.BoldOnlyInProgress | new-frontend/pages/intern/roadmap.js:80-91 | a line is bold iff its status is "in progress" |
| Roadmap.Capitalise | new-frontend/pages/intern/roadmap.js:99 | the first character upper-cased, the rest unchanged |
| Roadmap.CapitaliseLabels | new-frontend/pages/intern/roadmap.js:99 | capitalising is idempotent, and yields "Completed", "In progress" and "Upcoming" |
| CreateTask.FetchTasksRequest | new-frontend/pages/admin/createtask.js:37-50 | no request iff no designation is chosen |
| CreateTask.Submit | new-frontend/pages/admin/createtask.js:61-91 | nothing iff a field is empty; otherwise a PUT to the edited task while editing, else a POST, carrying the form (`ValidateForm` is the four-field guard) |
| CreateTask.ResetForm | new-frontend/pages/admin/createtask.js:93-97 | blank fields, not editing, no task id |
| CreateTask.HandleEdit | new-frontend/pages/admin/createtask.js:99-108 | the task's fields, the date cut at its first "T", editing that task |
| CreateTask.ResetThenSubmit | new-frontend/pages/admin/createtask.js:61-97 | a reset form is never sent |
| CreateTask.EditThenSubmit | new-frontend/pages/admin/createtask.js:76-108 | submitting an edited stored task unchanged updates that very task, its date as `YYYY-MM-DD` |
| CreateTask.FilteredTasks | new-frontend/pages/admin/createtask.js:123-126 | a task is kept iff its title or date contains the filter ignoring case, order kept |
| CreateTask.FilteredEmpty | new-frontend/pages/admin/createtask.js:123-126 | the empty filter keeps every task |
| CreateTask.FoundByTitleOrDay | new-frontend/pages/admin/createtask.js:123-126 | a task is found by its own title and by its own `YYYY-MM-DD` |
| Settings.PasswordUpdate | new-frontend/pages/admin/settings.js:50-61 | nothing is sent iff the new password differs from its confirmation; success clears the three fields |
| Settings.EmptyPasswordSent | new-frontend/pages/admin/settings.js:51-54 | the guard only compares the two fields, so an empty new password is sent |
| Settings.CreateAdmin | new-frontend/pages/admin/settings.js:69-96 | refused when the passwords differ, then when an intern has the email; otherwise the form is sent, and success resets every field |
| Settings.CreatedAdminEmailFree | new-frontend/pages/admin/settings.js:76-80 | a created admin never shares an email with a listed intern |
| Settings.BlankAdminSent | new-frontend/pages/admin/settings.js:70-80 | the reset form passes both guards unless an intern has the empty email |
| WorkingHoursPage.Views | new-frontend/pages/admin/working-hours.js:21-30 | one view per stored holiday, in order, its date as moment's `YYYY-MM-DD` (`Calendar.MomentDate`) |
| WorkingHoursPage.Reset | new-frontend/pages/admin/working-hours.js:64-66 | the form `{ id: null, name: "", date: "" }` and no selected date |
| WorkingHoursPage.Save | new-frontend/pages/admin/working-hours.js:45-71 | nothing iff the name or date is empty; a PATCH for a holiday with an id, else a POST; success resets the form |
| WorkingHoursPage.Delete | new-frontend/pages/admin/working-hours.js:73-89 | nothing without an id or confirmation; success resets the form |
| WorkingHoursPage.DateClick | new-frontend/pages/admin/working-hours.js:91-101 | the day is selected as moment's `YYYY-MM-DD`; the form loads the first holiday on it, or a new one carrying that string |
| WorkingHoursPage.DateClickLoadsStored | new-frontend/pages/admin/working-hours.js:91-101 | a click on a day holding stored holidays loads the first of them |
| WorkingHoursPage.SaveAfterClickHasDate | new-frontend/pages/admin/working-hours.js:45-101 | once the form holds a name, a save after a click is sent, as a PATCH or a POST, carrying the clicked day in moment's rendering |
| WorkingHoursPage.Override | new-frontend/pages/admin/working-hours.js:103-115 | the override is sent iff the prompt returns a non-empty answer |
| WorkingHoursPage.OverrideBody | new-frontend/pages/admin/working-hours.js:107 | the body carries the prompt's answer as a JSON string |
| WorkingHoursPage.OverrideOutcome | new-frontend/pages/admin/working-hours.js:103-108 | a sent override gets 400 only for a cleared year; otherwise the server stores the cast answer or fails the cast |
| WorkingHoursPage.ZeroAnswerStored | new-frontend/pages/admin/working-hours.js:103-108 | answering "0" sends the request and stores an override of 0 hours |
| WorkingHoursPage.NonNumericAnswerFails | new-frontend/pages/admin/working-hours.js:103-108 | answering "abc" sends the request and the server's cast fails (500) |
| InternTimesheet.HoursText | new-frontend/pages/intern/timesheet.js:33 | the hours in decimal, "undefined" when missing |
| InternTimesheet.Events | new-frontend/pages/intern/timesheet.js:31-36 | one event per record, on its day, titled `<hours> hrs: <dayTask>` |
| InternTimesheet.DecodeEncode | new-frontend/pages/intern/timesheet.js:57-58 | decoding a title gives back hours and task when the hours hold no space and do not end in ':' and the task holds no ": " (`EncodeTitle`, `DecodeHours`, `DecodeTask`) |
| InternTimesheet.HoursRoundTrip | new-frontend/pages/intern/timesheet.js:57 | hours without a space are read back |
| InternTimesheet.TaskRoundTrip | new-frontend/pages/intern/timesheet.js:58 | a task without ": " is read back |
| InternTimesheet.SpacedHoursCut | new-frontend/pages/intern/timesheet.js:57 | hours with a space come back cut at it |
| InternTimesheet.OnDayIff | new-frontend/pages/intern/timesheet.js:51-53 | equal moment `YYYY-MM-DD` strings mean the same day |
| InternTimesheet.DateClick | new-frontend/pages/intern/timesheet.js:48-60 | marked iff an event falls on the day; the inputs show the first such event's hours and task, or stay empty |
| InternTimesheet.Submit | new-frontend/pages/intern/timesheet.js:62-98 | nothing with an empty input, a marked day or no confirmation; the request carries the day as moment's `YYYY-MM-DD`; success appends exactly one event, clears the inputs and marks the day |
| InternTimesheet.ClickOnLastEvent | new-frontend/pages/intern/timesheet.js:48-58 | a click on a day whose only event is the last one shows that event |
| InternTimesheet.SubmitThenClick | new-frontend/pages/intern/timesheet.js:48-93 | after a submit a second submit sends nothing, and the day reads back as submitted |

## Left out

- Mail sending (`Backend/utils/email.js`) is not modelled. It swallows every error, so the status route's "email failed" branch is unreachable. `Backend.Store.UpdateStatus` has no mail step at all.
- Password hashing, token signing and token checking are parameters. They are `hash`, `matches` and `verify`.
- "Now" is a parameter, and so is every fresh `_id`. Time zones are not modelled: dates are calendar days at midnight UTC, and hours are whole numbers.
- `toFixed`, the pie percentages and `parseFloat` of the price are not modelled. Averages and salaries are `real`.
- Concurrency is not modelled: the model is sequential. This covers the read-then-write races of ID generation and of the duplicate-email check.
- The admin `PUT /admin/interns/:id`, admin login, `create-admin` and password routes are left out. So are the task and task-status CRUD routes, `GET /admins`, and the second, unreachable `GET /working-hours`. These are plain record reads and writes with no decision beyond the ones modelled.
- `Backend/models/Holidays.js` is not part of this model. Holidays are taken as `{ _id, name, date }`.
- The `attendanceMap` of the report handler is built and never used, so it is left out.
- Mongoose strict mode is not modelled. `status` is not a schema path, yet the routes write and read it. The model keeps it as an explicit optional field, since Mongoose's handling of undeclared paths is outside the model.
- Backend.Store.UpdateProfile: a validation error on update is not modelled. `findByIdAndUpdate` runs no validators here, so it only fails on the unique email index (500).
- InternDashboard.LoadAttendanceData: the `if (!record.date) return` guard is not modelled. Attendance records always carry the date their schema requires, so the guard never fires.
- Presentation is left out: rendering, charts, CSV/PDF contents, toasts, `localStorage` sessions and effect re-runs.
- The dashboards' intern and admin counts are list lengths, so they are left out.
- The interns page's `handleSubmit`, `handleDelete`, `handleViewDetails` and `exportToPDF` are left out. They only call the API or render.
- Reports `handlePriceChange` is not modelled. It reads the price with `parseFloat`, which is floating point. Only the effect's salary rule is modelled.
- Reports.SortInterns and Reports.Selection state a permutation sorted by the key, not the stable order of `Array.prototype.sort`.
- `Object.keys` order is not modelled. The dictionaries keep first-insertion order, while JavaScript lists integer-like keys in ascending order.
- Subdocument `_id` keys of education and experience rows are not modelled.
- InternsPage.StringValues collects the string fields of an intern as a list. The order of `Object.values` does not matter to `some`, so it is not modelled.
- FormRows.SetField and the row-change methods model the `TypeError` of a missing row as `ok == false` with nothing changed.
- CreateTask.HandleEdit requires the task to have a date, and CreateTask.FilteredTasks requires every task to have a title and a date. The page lists stored tasks, whose schema requires both; a task without them would make `split`/`toLowerCase` throw.
- Reports.PendingAgainst, Reports.PendingTasks and Reports.PendingTasksAsWritten require every task to have a date. The task schema requires one, and the page sorts by it.
- InternTimesheet.Submit models the new event as starting on the selected day. This is `new Date(formattedDate)` without time zones.
- `handleChange` of the profile and task forms only copies one field, so it is left out. `RegisterForm.Form.HandleChange` models that shape.
- Reports.SortInterns requires every intern to carry an `internId`, which the intern schema requires. Without one, whether the comparator throws depends on the engine's comparison order (a one-element list is never compared), so that case is left out.
- Reports.SortInterns and Reports.InternIdLeTotalPreorder read `localeCompare` as code-point order (`Strings.LexLess`). Locale collation is not modelled; the two agree on IDs made of "OM" and digits.
- Strings.LexLess compares Unicode code points, since a Dafny `char` is a scalar value. JavaScript's `<` compares UTF-16 code units, where characters above U+FFFF sort below U+E000..U+FFFF. The orders agree on strings within the Basic Multilingual Plane, which covers every "OM"-plus-digits ID.
- AdminTimesheet.Search, InternsPage.Search, People.FilteredInterns, CreateTask.FilteredTasks and Roadmap.Capitalise map case for ASCII letters only (`Strings.LowerChar`, `Strings.UpperChar`). JavaScript's `toLowerCase`/`toUpperCase` use the Unicode case tables, so a term such as "É" matches "émile" in the page but not in the model.
- Backend.SendEmailReply stops at the list of addresses the route computes. The route then calls `sendMail({ to, subject, text })` (adminRoutes.js:659), while `Backend/utils/email.js` takes `(to, subject, html)` as positional parameters, so the whole object lands in `to` and subject and body are undefined; mail is not modelled, so this mismatch is only recorded here.
- Backend.Store.UpdateProfile, Backend.Store.UpdateStatus, Backend.Store.DeleteIntern, Backend.Store.PatchHoliday and Backend.Store.DeleteHoliday take `_id`s as plain strings. A malformed `_id` makes `findById*` throw a cast error, which the routes answer with 500 where the model answers 404.
- Backend.Store.MarkAttendance does not model the cast of `hours` to a number; a non-numeric `hours` fails validation in the source.
- Backend.CastNumber reads an optional sign and decimal digits only. Other strings that JavaScript's `Number` accepts (surrounding whitespace, fractions, exponents, `0x` forms, "Infinity") are cast errors in the model, while Mongoose stores their value (`PUT /admin/working-hours`) or queries with it (`GET /admin/working-hours`, whose `Date` arithmetic then reads a fraction differently again). `month` and `year` of `PUT /admin/working-hours` are taken as JSON numbers, which is what the page sends.

## Findings

| source | as written | input that shows it | evidently intended | confidence | as-written member | corrected member |
|---|---|---|---|---|---|---|
| new-frontend/pages/admin/reports.js:64-67 | the completed ids are `task.internId` of the status records, so no task `_id` is ever excluded | one task `t` and the status record `{ internId: <intern _id>, taskId: t._id, status: "completed" }`: `t` is still listed as pending | exclude the tasks whose `_id` is the `taskId` of a status record | not executed | Reports.PendingTasksAsWritten, Reports.CompletedTaskStaysPending | Reports.PendingTasks, Reports.CompletedTaskDropped |
