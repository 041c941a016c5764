# tickr attendance core in Dafny

This project models the core of tickr, a web attendance tracker, in Dafny. Employees ("gia"
users) clock in and out. Administrators manage users and schedules, watch a dashboard, print a
monthly time record and tune global settings. The model covers four groups:

- **Attendance rules.**
  - `check_attendance_flags` flags Late, Early Out and Overtime against the persisted weekday
    schedule.
  - `auto_clock_out` is the periodic sweep that closes stale open records.
  - The dashboard counters.
  - The monthly report: the month's bounds, two shift slots per user and day, per-user totals
    and the pairing of users for the two-column layout.
  - The strict-mode expiry.
- **Tables and table routes.** The tables are rows of a `Database` class with one `seq`
  field per table. Their constraints are modelled: a unique `user_id`, a unique
  (user_id, day) schedule, the settings defaults and the default schedule. The routes list,
  add, read, update, delete and export users.
- **Login.** The decision between the GIA path (id only) and the admin path (id and
  password).
- **Front-end checks.**
  - The profile page: password strength, the strength indicator, field validation and the
    form checks.
  - The settings page: field validation, the time-range check and `formatTime`.
  - The pagination of the audit-log page.

Conventions:

- **Times.**
  - An instant is an integer number of seconds: the day ordinal × 86400 plus the seconds
    after midnight.
  - Day ordinals are Python's proleptic ordinals, so day 1 is Monday 0001-01-01.
  - A `Time` column holds seconds after midnight.
- **Foreign code and the clock are parameters.**
  - Werkzeug's `check_password_hash` is the uninterpreted `checkHash` and
    `generate_password_hash` is `hash`.
  - The current instant or date is `now` or `today`.
  - The auto-increment key is `freshId`.
- **Payloads.** A JSON payload is a `map<string, string>`, and `None` is a missing or
  non-JSON body.
- **Errors.** A route that ends in an exception is modelled by an explicit outcome (`None`,
  `Raised`, `DateRejected`, status 500) rather than excluded by a precondition.
- **Database behaviour.** The model follows what the code does against its configured MySQL
  database (`mysql+mysqlconnector`):
  - comparing the integer `id` with a string uses the string's leading number;
  - a `None` attribute is left out of the INSERT, so the column default applies;
  - a NOT NULL or UNIQUE violation is an unhandled error (status 500);
  - deleting a user cascades to the schedules and sets the log references to NULL. These are
    the `ondelete` clauses at models/models.py:74 and 123.

Where the code and the design intent differ, the model follows the code: see "## Findings".

## Model

| member | source | states |
|---|---|---|
| Models.NewUser | models/models.py:10-20 | a new user has the given fields; an unset role becomes "employee" and the status is always "active" |
| Models.FindUserIndex | models/models.py:14 | the lookup by user_id finds the first row with that user_id, and finds nothing exactly when no row has it |
| Models.FindUserUnique | models/models.py:14 | under the unique constraint on user_id, the row found is the only row with that user_id |
| Models.NonSuperadmins | routes/api.py:23 | keeps exactly the rows whose role is not "superadmin", each as often as the table holds it and in table order (a subsequence) |
| Models.InsertSchedule | models/models.py:84-86 | a second schedule row for the same (user_id, day) is refused; any other insert appends the row and keeps the constraint |
| Models.FindSchedule | models/models.py:84-86 | the (user_id, day) lookup returns a row with that key, or nothing exactly when none exists |
| Models.FindScheduleUnique | models/models.py:84-86 | under the constraint, the lookup returns the one row its key names |
| Models.DefaultSettings | models/models.py:95-102 | a fresh settings row has id 1, strict mode off, auto clock-out 10 hours, early out allowed, overtime not allowed, window 08:00-17:00, 5 minutes early-in |
| Models.Get | models/models.py:104-106 | `get()` returns the row whose id is 1, or nothing when no row has id 1 |
| Models.First | routes/gia.py:15 | `query.first()` returns the first row in table order, whatever its id, or nothing for an empty table |
| Models.DefaultSchedule | models/models.py:108-113 | the synthetic schedule carries exactly the default start and end times |
| Models.Database.constructor | models/models.py:10-131 | an empty database satisfies the schema's constraints |
| Calendar.NextDay | routes/admin.py:167 | the following day is a valid date; there is none only after 9999-12-31 |
| Calendar.PrevDay | routes/admin.py:167 | the preceding day is a valid date; there is none only before 0001-01-01 |
| Calendar.NextDayOrdinal | routes/admin.py:168 | stepping one day forward moves the ordinal by exactly one |
| Calendar.DayName | routes/gia.py:31 | the name is one of the seven day names; Saturday or Sunday exactly on a weekend, a name among Monday to Friday exactly on a workday |
| Calendar.DayNameWeekly | routes/gia.py:31 | two days have the same name exactly when they lie a whole number of weeks apart |
| Calendar.DayOneIsMonday | routes/gia.py:31 | 0001-01-01 is day 1 and a Monday, as in the proleptic Gregorian calendar |
| Calendar.NewYear2024IsMonday | routes/gia.py:31 | 2024-01-01 is day 738886 and a Monday |
| Gia.ScreenedLooksUpWorkday | routes/gia.py:31-36 | once an entry passes the screening, the schedule found is that user's and is for a weekday from Monday to Friday |
| Gia.CheckFlags | routes/gia.py:8-71 | no flag without strict mode, an entry with a clock-in on a weekday, and a persisted schedule for that weekday; the call raises exactly when that schedule lacks a time; otherwise at most three flags, in the order Late, Early Out, Overtime, each with the entry's user_id and clock-in date |
| Gia.FlagConditions | routes/gia.py:29-69 | Late iff clock-in > start + 0 minutes; Early Out iff a clock-out exists before the end; Overtime iff a clock-out exists and the work exceeds the scheduled length by more than 4 hours |
| Gia.DefaultSettingsNeverFlag | routes/gia.py:15-19 | a fresh settings row (strict mode off) produces no flag for any entry |
| Gia.CheckAttendanceFlags | routes/gia.py:8-71 | the inconsistency table grows by exactly the flags of the first settings row and the schedules; nothing is added when the call raises |
| Tasks.Threshold | tasks.py:5-9 | no cut-off without a settings row or with zero/unset hours; otherwise now minus that many hours |
| Tasks.SweepAll | tasks.py:11-15 | each record is closed at the cut-off if it is open and started before it, and is otherwise unchanged |
| Tasks.CrashIndex | tasks.py:13-14 | the sweep stops at the first open record without a clock-in (the comparison raises) |
| Tasks.AutoClockOut | tasks.py:4-17 | the attendance table becomes the sweep of its records up to the first failing one, the later ones untouched; every other table is unchanged and the schema's constraints still hold |
| Tasks.DisabledSweepChangesNothing | tasks.py:5-7 | without a settings row or with the hours unset or zero, the table is unchanged |
| Tasks.SweepRecordwise | tasks.py:13-15 | a stale record gets clock_out = the cut-off exactly; closed records and records at or after the cut-off are unchanged; id, user, date and clock-in never change |
| Tasks.SweepOnlyCloses | tasks.py:11-16 | the sweep only fills in clock-outs of open records: every other field and every closed record is kept |
| Tasks.NoStaleAfterSweep | tasks.py:11-16 | after a completed sweep no open record started before the cut-off |
| Tasks.SweepIdempotent | tasks.py:11-16 | sweeping again with the same settings and instant changes nothing |
| Tasks.CrashIndexAt | tasks.py:13-14 | the failing record is the first open record without a clock-in |
| AdminReport.SelectedMonth | routes/admin.py:158 | the stripped month argument when it is non-empty, otherwise the current month as `YYYY-MM` |
| AdminReport.ParseMonthArg | routes/admin.py:160-164 | parses exactly the texts with two `-`-separated parts that are both Python integers |
| AdminReport.MonthArgRoundTrip | routes/admin.py:158-164 | the month the route renders parses back to its year and month |
| AdminReport.MonthBoundsCorrect | routes/admin.py:166-168 | for every month except December 9999: the first day is day 1, the last day is the month's last day, and the day count is the month's length |
| AdminReport.TotalDaysIsMonthLength | routes/admin.py:166-168 | the day count is between 28 and 31, and 29 in February exactly in leap years |
| AdminReport.LastMonthOverflows | routes/admin.py:167 | December 9999 fails, since adding 32 days leaves the calendar |
| AdminReport.ReadTime | routes/admin.py:182-194 | a time is placed on the record's own date |
| AdminReport.PlaceAllExpected | routes/admin.py:208-223 | over one day's records, shift 1 holds the first complete pair and shift 2 the last one when there are two or more; incomplete records fill nothing |
| AdminReport.ThirdPairOverwritesSecond | routes/admin.py:212-220 | with three complete records, shift 2 holds the third pair: it overwrites the second |
| AdminReport.FindDay | routes/admin.py:201 | finds the first entry of the date, or nothing exactly when the date has no entry |
| AdminReport.EnterLookup | routes/admin.py:197-220 | one loop step changes only the slots of the record's own user and date |
| AdminReport.BuildDictSlots | routes/admin.py:197-223 | the slots of a user and date are those its own records produce in processing order, and the entry exists once any such record is seen |
| AdminReport.SlotsAreFirstAndLastPair | routes/admin.py:197-223 | the report's slots for a user and date are the first and last complete pairs of that user's records of that date |
| AdminReport.BuildDictStep | routes/admin.py:197-223 | the dictionary after one more record is the previous one with that record entered |
| AdminReport.EnterRecord | routes/admin.py:198-220 | the `setdefault` calls and the slot assignment for one record enter it as described above |
| AdminReport.BuildAttendanceDict | routes/admin.py:179-223 | the loop with `setdefault` and the slot assignment builds exactly the dictionary described above |
| AdminReport.ShiftSecondsBound | routes/admin.py:233-239 | a slot contributes out - in, plus a day when it crosses midnight: always in [0, 24h) |
| AdminReport.ReportTotalBound | routes/admin.py:226-239 | each user's total is non-negative and under 48 hours per day on file |
| AdminReport.UserKeys | routes/admin.py:180 | every listed user's user_id is a key; the set holds those ids and nothing else |
| AdminReport.TotalsOfListedUsers | routes/admin.py:180-242 | every listed user ends with the sum of their slot durations, 0 without records; no "0:00" placeholder survives |
| AdminReport.PartialTotalsAre | routes/admin.py:180-242 | after any number of users the map still has exactly the listed keys, and every user handled so far holds their sum |
| AdminReport.TotalsComplete | routes/admin.py:226-242 | once every user is handled, the map is the totals described above |
| AdminReport.ComputeTotals | routes/admin.py:226-242 | the nested loops produce exactly those totals |
| AdminReport.SumDays | routes/admin.py:229-239 | the inner loops sum the two slots of every day |
| AdminReport.ReportUsers | routes/admin.py:170 | keeps exactly the users who are neither superadmin nor admin, each as often as the table holds it and in table order |
| AdminReport.Pairs | routes/admin.py:244 | groups of two, the last possibly of one, (n + 1) / 2 of them |
| AdminReport.PairsFlatten | routes/admin.py:244 | the pairing keeps every user, in order |
| AdminReport.LastNameOrder | routes/admin.py:171 | ordering by last name is a strict weak order |
| AdminReport.MonthRecords | routes/admin.py:173-176 | keeps exactly the records dated inside the month's bounds, each as often as the table holds it and in table order |
| AdminReport.ExportPdf | routes/admin.py:153-257 | the route's outcome: a redirect for a bad month, a date error, or the report built from the ORDER BY-sorted users and records |
| AdminReport.BadMonthRedirects | routes/admin.py:160-164 | a malformed month redirects to the current month, which parses |
| AdminReport.DefaultMonthReport | routes/admin.py:158-168 | without an argument the report covers the current month with its true length |
| AdminReport.ReportOrder | routes/admin.py:170-171 | the report's users are sorted by last name, hold every listed user as often as the table does, and are exactly the non-admin users |
| AdminReport.ReportListsUsersByLastName | routes/admin.py:170-244 | the report's columns list every non-admin user, sorted by last name |
| Admin.CompletedOn | routes/admin.py:38-41 | keeps exactly today's records that have a clock-out, each as often as the table holds it and in table order |
| Admin.SumShifts | routes/admin.py:43-62 | the loop yields the total seconds, the overtime beyond 4 hours and the count of shifts of at most 4 hours over all the records; nothing when a record has no clock-in |
| Admin.Dashboard | routes/admin.py:29-73 | the counters are the total, overtime and compliant counts of today's completed records and the number of non-superadmin users; `None` when a record lacks a clock-in |
| Admin.AverageHours | routes/admin.py:64-71 | average × shifts × 3600 equals the total seconds, and 0 with no shifts |
| Admin.OvertimeFacts | routes/admin.py:47-62 | overtime is non-negative, at least the time beyond 4 hours a shift summed over all shifts, and zero exactly when every shift is compliant |
| Admin.CrossMidnightIsNegative | routes/admin.py:51-54 | on the dashboard a shift that crosses midnight counts as negative time and as compliant |
| Admin.PasswordChangeOutcome | routes/admin.py:268-286 | a change happens only with the right current password, equal new fields and a strong new password, and stores that password's hash |
| Admin.PasswordChangeOrder | routes/admin.py:268-286 | the password changes iff all three checks pass; a wrong current password is reported first, then a mismatch, then weakness |
| Admin.DigitRequired | routes/admin.py:279 | "password1" passes the strength rule and "password" does not |
| Admin.AccountSettings | routes/admin.py:262-303 | as written: the hash is committed iff the checks pass, nothing is logged and the success message is never shown; the schema's constraints still hold |
| Admin.AccountSettingsIntended | routes/admin.py:283-297 | the change is logged against the user and the success message is shown exactly when the password changes; the schema's constraints still hold |
| Admin.ValidChangeIsNotReported | routes/admin.py:283-301 | as written, `account_settings` with a correct current password and "password1" twice stores the new hash, writes no log entry, shows no success message and keeps the schema's constraints |
| Admin.ExpireStrictMode | routes/admin.py:320-322 | as written: after expiry strict mode is still on and the date is cleared; no other field changes |
| Admin.ExpireStrictModeIntended | routes/admin.py:315 | after expiry strict mode is off and the date is cleared; no other field changes |
| Admin.UpdateStrictMode | routes/admin.py:316-331 | on expiry the first settings row is rewritten and a system "Update" log is appended; otherwise nothing changes; the schema's constraints still hold |
| Admin.ExpiredStrictModeStillFlags | routes/admin.py:316-331 | as written, a late clock-in on the expiry day is still flagged |
| Admin.ExpiryKeepsFlagging | routes/admin.py:320-322 | as written, the flagger gives the same flags before and after expiry |
| Admin.IntendedExpiryStopsFlags | routes/admin.py:315 | after the intended expiry no entry is flagged |
| Api.Lookup | routes/api.py:46-50 | `data.get(key)` is the value exactly when the key is present; Api.UpdateFields and Api.AddUserSpec state their replies through it |
| Api.Views | routes/api.py:25-30 | each listed user is shown with every column except password and id |
| Api.GetData | routes/api.py:18-32 | a refusal for other roles; otherwise the views of exactly the non-superadmin users |
| Api.ListingIsNonSuperadmins | routes/api.py:23-31 | a view is listed iff it is a non-superadmin user's view |
| Api.AddUserSpec | routes/api.py:37-70 | as written: 400 for another role or an empty payload; otherwise 400 iff the user_id spells a taken primary key, and past that check 200 iff the three name fields are present and nobody holds the user_id (else 500); anything but 200 leaves the table as it was, and 200 appends exactly the applicant, whose role defaults to "employee" |
| Api.AddUser | routes/api.py:37-70 | status and users table as above; the other tables are unchanged; given an auto-increment id no row holds, the schema's constraints still hold |
| Api.AddUserKeepsConstraints | routes/api.py:53-66 | whatever the answer, the users table keeps both uniqueness constraints |
| Api.AddUserMissesDuplicate | routes/api.py:53-54 | re-adding an existing user_id that does not spell a primary key passes the check and fails with 500 |
| Api.AddUserJdoeAgain | routes/api.py:53-54 | concretely, adding "jdoe" again while "jdoe" holds id 1 gives 500 |
| Api.AddUserRefusesNumeral | routes/api.py:53-54 | concretely, the new user_id "1" is refused with 400 although nobody holds it |
| Api.AddUserIntendedSpec | routes/api.py:52-54 | the duplicate check looks up the user_id; 200 appends exactly the new user |
| Api.IntendedAddUserRefusesDuplicates | routes/api.py:52-66 | with that check, 400 iff the user_id is taken, 200 iff it is new, and the constraint is kept |
| Api.MiddleInitial | routes/api.py:88 | the first character of the middle name, or "" when it is missing or empty |
| Api.GetUser | routes/api.py:75-93 | a refusal exactly for other roles; 404 iff the user_id is unknown; otherwise the first row holding the user_id gives every field of the reply: user_id, names with the middle initial, role and status |
| Api.UpdateFields | routes/api.py:112-117 | each field present in the payload is replaced and each absent one kept; id, user_id and password never change |
| Api.UpdateUserSpec | routes/api.py:98-124 | 400 for another role; for a superadmin or admin caller 404 iff the user_id is unknown, and for a known one 400 iff the payload is empty, otherwise 200 with exactly that row's present fields replaced; anything but 200 leaves the table as it was |
| Api.UpdateUser | routes/api.py:98-124 | status and users table as above; the other tables are unchanged and the schema's constraints still hold |
| Api.UpdateUserTouchesOneRow | routes/api.py:103-117 | only the named row changes; user_ids, ids and the constraints are kept |
| Api.UpdateUserIdempotent | routes/api.py:103-120 | sending the same update twice has the effect of sending it once |
| Api.WithoutAttendanceOf | routes/api.py:140 | keeps exactly the attendance rows of other users, each as often as the table holds it and in table order |
| Api.WithoutSchedulesOf | models/models.py:74 | keeps exactly the schedule rows of other users, each as often as the table holds it and in table order |
| Api.DetachLogsOf | models/models.py:123 | the user's log references become NULL and nothing else changes |
| Api.DeleteUserSpec | routes/api.py:129-160 | 400 for another role; for a superadmin or admin caller 404 iff the user_id is unknown, and for a known one 200 with the row removed, its attendance and schedules dropped and its log references cleared; anything but 200 leaves every table as it was |
| Api.RemoveUserRow | routes/api.py:143 | removing the one row with a user_id leaves no row with it, one row fewer, and every other user |
| Api.DeleteUser | routes/api.py:129-160 | every table as above; the settings are unchanged and the schema's constraints still hold |
| Api.DeleteUserKeepsConstraints | routes/api.py:134-144 | whatever the answer, user_ids, ids and (user_id, day) schedule keys stay unique |
| Api.RemoveRowKeepsConstraints | models/models.py:84-86 | removing one user row and that user's schedule rows creates no duplicate user_id, id or (user_id, day) key |
| Api.DeleteUserRemovesEverything | routes/api.py:134-144 | after a delete no row and no log references the user_id, and every other user, attendance row and schedule is kept |
| Api.KeyOrder | routes/api.py:173 | the (last_name, first_name) comparison is a strict weak order |
| Api.GiaUsers | routes/api.py:172 | keeps exactly the gia users, each as often as the table holds it and in table order |
| Api.ExportInitial | routes/api.py:181 | the upper-cased first character of the middle name, or "" |
| Api.ExportRows | routes/api.py:177-182 | one row per user with user_id, last name, first name and initial |
| Api.ExportUsersOrdered | routes/api.py:171-182 | for every superadmin or admin caller the export lists exactly the gia users, each as often as the table holds it, sorted by (last name, first name) |
| Api.ExportUsers | routes/api.py:165-182 | refused exactly for a caller who is neither superadmin nor admin; otherwise one CSV row per gia user |
| Sorting.Insert | routes/api.py:171-174 | inserting keeps every row and adds exactly one |
| Sorting.SortBy | routes/api.py:171-174 | sorting is a permutation of its input |
| Sorting.SortBySorted | routes/api.py:171-174 | for a strict weak order the result is sorted and holds exactly the rows it was given |
| Sorting.SortByKeepsSorted | routes/admin.py:176 | rows already in order are left unchanged |
| Auth.Login | routes/auth.py:19-48 | whoever logs in is a user; no credentials iff neither a GIA match nor an admin id; 404 on the admin path iff the id is unknown; an admin-path login has the id and a password that checks; a wrong password had an admin id, a known user and a failing check |
| Auth.StatusOf | routes/auth.py:31-48 | 200 for a login, 404 for an unknown id, 401 for a wrong password or no credentials |
| Auth.FindBy | routes/auth.py:26-37 | a missing id finds nothing; otherwise the first row with that user_id |
| Auth.GiaNotFoundUnreachable | routes/auth.py:26-31 | the "User not found" answer of the GIA path is never given |
| Auth.GiaLoginNeedsNoPassword | routes/auth.py:26-34 | a gia user's id logs that user in whatever the password and the admin id |
| Auth.AdminPath | routes/auth.py:36-46 | on the admin path: 404 iff the id is unknown, 401 iff the hash check fails, otherwise that user logs in |
| Auth.AdminPathIgnoresRole | routes/auth.py:36-46 | any user with a matching password logs in through the admin path, whatever the role |
| Auth.NoCredentialsRefused | routes/auth.py:48 | without a GIA match and an admin id the answer is 401 |
| Auth.WelcomeIsAUser | routes/auth.py:26-46 | whoever logs in is a row found by one of the two ids |
| Profile.Strength | static/js/profile.js:119-133 | the score is the number of criteria met, capped at 4 |
| Profile.CalculatePasswordStrength | static/js/profile.js:119-133 | the step-by-step score equals that strength |
| Profile.StrengthZeroIffEmpty | static/js/profile.js:122-132 | the score is 0 exactly for the empty password |
| Profile.StrengthMonotone | static/js/profile.js:122-132 | typing more characters never lowers the score |
| Profile.IndicatorIndex | static/js/profile.js:141-143 | `min(strength, 3)` always indexes the four-entry tables |
| Profile.IndicatorFor | static/js/profile.js:136-149 | the colour, label and width come from that index; Profile.StrongAtThreeAndFour and Profile.VeryWeakNeverShown state which scores show which label |
| Profile.StrongAtThreeAndFour | static/js/profile.js:137-143 | strengths 3 and 4 both show the full "Strong" bar |
| Profile.VeryWeakNeverShown | static/js/profile.js:98-104 | the indicator is shown only for a non-empty password, so "Very Weak" never appears |
| Profile.FirstAt | static/js/profile.js:43 | the index of the first `@`, or nothing when there is none |
| Profile.EmailValidMatchesPattern | static/js/profile.js:43 | the one-pass email test accepts exactly the texts the regular expression matches |
| Profile.ValidateInput | static/js/profile.js:29-64 | valid iff not (required and blank), a non-blank email matches the pattern, and a non-blank username is 3-20 word characters |
| Profile.BlankOptionalPasses | static/js/profile.js:36-63 | an optional field holding only white space passes |
| Profile.ValidatePasswordMatch | static/js/profile.js:152-170 | undefined for an empty confirmation, else true iff the two fields are equal; Profile.PasswordFormOrder places it among the form's checks |
| Profile.ValidatePasswordForm | static/js/profile.js:254-278 | the form is accepted only with a current password and a new one of at least 8 characters equal to its confirmation |
| Profile.PasswordFormOrder | static/js/profile.js:254-278 | empty fields are rejected first, then a short new password, then a mismatch; accepted iff all pass |
| Profile.RequiredPassEach | static/js/profile.js:184-196 | the form's pass condition holds iff no required input fails `validateInput` |
| Profile.ValidateProfileForm | static/js/profile.js:184-196 | the loop validates every required input, skips none after a failure, and returns exactly that pass condition |
| SettingsPage.LowerBound | static/js/settings.js:46 | the parsed `min`, or 0 when it does not parse; SettingsPage.DigitBounds gives the number a digit attribute denotes |
| SettingsPage.UpperBound | static/js/settings.js:47 | unbounded iff `max` does not parse or parses to 0, else the parsed value; SettingsPage.ZeroMaxIsUnbounded and SettingsPage.DigitBounds apply it |
| SettingsPage.DigitBounds | static/js/settings.js:46-47 | digit attributes bound the field by the numbers they denote; a `max` of zero leaves it unbounded |
| SettingsPage.NumberWithinBounds | static/js/settings.js:45-56 | with digit attributes and a nonzero `max`, a digit value passes exactly when it lies between `min` and `max` |
| SettingsPage.TypeOf | static/js/settings.js:43-75 | each type attribute the validator knows maps to its case; any other text is an unchecked type, which SettingsPage.ValidateInput always passes |
| SettingsPage.ValidateInput | static/js/settings.js:37-79 | a number is valid iff it parses within the bounds; a time iff non-blank; a text iff not required-and-blank; any other type passes; SettingsPage.NumberWithinBounds and SettingsPage.ZeroMaxIsUnbounded apply it to concrete attributes |
| SettingsPage.ZeroMaxIsUnbounded | static/js/settings.js:47-50 | a `max` of "0" does not cap the field |
| Base.Filter | routes/api.py:23 | the rows kept are at most the rows given, and every one satisfies the condition |
| Base.FilterCounts | routes/api.py:23 | a row the condition keeps occurs as often as in the input; any other row not at all |
| Base.FilterMembers | routes/api.py:23 | a row is kept iff it is in the input and satisfies the condition |
| Base.FilterOrder | routes/api.py:23 | the rows kept appear in input order |
| Base.FilterConcat | routes/api.py:23 | filtering a concatenation filters each part |
| Base.SubsequencePairwise | models/models.py:84-86 | a relation that holds between every two rows of a table holds between every two rows kept by a filter |
| Base.RemovePairwise | models/models.py:13-14 | a relation that holds between every two rows still holds after one row is taken out |
| Base.AllOfEach | static/js/settings.js:127-131 | a loop that visits every element and remembers any failure accepts iff every element passes |
| Base.AllOfStep | static/js/settings.js:127-131 | visiting one more element extends the check by that element's result |
| SettingsPage.AllPassEach | static/js/settings.js:121-131 | the form's pass condition holds iff no selected input fails `validateInput` |
| SettingsPage.ValidateForm | static/js/settings.js:121-143 | the loop validates every selected input, skips none after a failure, and returns exactly that pass condition when the default window is not inverted, false when it is |
| SettingsPage.RangeCheckIsChronological | static/js/settings.js:136 | on `HH:MM` values the string comparison rejects exactly an end not after the start |
| SettingsPage.JsRem | static/js/settings.js:236 | JavaScript's `%`: strictly between -b and b, the Euclidean remainder for a non-negative dividend and the negated remainder of its magnitude for a negative one |
| SettingsPage.Hour12 | static/js/settings.js:236 | the 12-hour value is never 0: a zero or NaN remainder shows as 12 |
| SettingsPage.Suffix | static/js/settings.js:235 | "PM" iff the hour parses to at least 12; SettingsPage.FormatTimeSuffix and SettingsPage.FormatTimeOfHour show it at the end of every formatted time |
| SettingsPage.FormatTimeSuffix | static/js/settings.js:232-238 | every result ends in " AM" or " PM", PM exactly when the text before the first `:` parses to at least 12 |
| SettingsPage.FormatTimeOfHour | static/js/settings.js:232-238 | hour h of 0-23 shows as h % 12 with 0 as 12, PM iff h >= 12, minutes text kept |
| AuditLogs.ShowingRange | static/js/audit_logs.js:329 | start = (current - 1) * 8 + 1, end = min(current * 8, total) |
| AuditLogs.ShowingWithinTotal | static/js/audit_logs.js:329 | on a page holding entries the line names 1 to 8 real entries, exactly 8 on a full page |
| AuditLogs.PageLinks | static/js/audit_logs.js:344-353 | numbered items lo..hi in order, the current one active |
| AuditLogs.PaginationItems | static/js/audit_logs.js:331-363 | totalPages + 2 items: Previous (disabled iff current = 1), the pages, Next (disabled iff current = totalPages) |
| AuditLogs.OneActivePage | static/js/audit_logs.js:344-353 | exactly the item equal to current is active, and every number is a page |
| AuditLogs.ClicksStayInRange | static/js/audit_logs.js:334-362 | from a page in range every click loads a page in range; Previous and Next do nothing at the ends |
| AuditLogs.AuditLogsPage.constructor | static/js/audit_logs.js:8 | the page starts at page 1 with an empty container |
| AuditLogs.AuditLogsPage.LoadLogs | static/js/audit_logs.js:11-12 | sets the current page to the argument, 1 without one |
| AuditLogs.AuditLogsPage.RenderPagination | static/js/audit_logs.js:325-364 | the container is cleared and then holds exactly the pagination items, with the matching "Showing" line |
| AuditLogs.AuditLogsPage.Click | static/js/audit_logs.js:334-362 | a click loads the item's target page, or does nothing |
| Text.ParseInt | static/js/settings.js:46-48 | after leading white space and one sign, a `0x` or `0X` prefix reads the following hexadecimal digits in base 16 (NaN when there are none); any other text is read as its leading decimal digits; Text.ParseIntHex, Text.ParseIntBareHexPrefix and Text.ParseIntOfDigits state the readings |
| Text.LeadingDecimal | static/js/settings.js:46-48 | NaN exactly when no decimal digit follows the white space and the sign; otherwise the signed value of the longest run of digits; Text.LeadingDecimalOfDigits reads a digit string as the number it denotes |
| Text.LeadingDecimalOfDigits | static/js/settings.js:46-48 | a plain digit string is its own trimmed, sign-free body, and its decimal reading is the number it denotes |
| Text.ParseIntHex | static/js/settings.js:46-48 | `0x` and hexadecimal digits after an optional sign read as that number in base 16 |
| Text.ParseIntBareHexPrefix | static/js/settings.js:46-48 | `0x` not followed by a hexadecimal digit is NaN |
| Text.ParseIntOfDigits | static/js/settings.js:234 | a plain digit string reads as the number it denotes |
| Text.NatToStringRoundTrip | routes/admin.py:158-161 | a rendered number parses back to itself |
| Text.SplitJoin | routes/admin.py:161 | joining the pieces of a split gives back the text |
| Text.StrLessTotal | routes/api.py:173 | any two strings are ordered or equal |
| Text.StrLessTransitive | routes/api.py:173 | the string order is transitive |

## Left out

- Framework plumbing is not modelled: Flask routing, flask_login sessions and `login_user`, `flash`, `render_template`, redirects and the HTML templates. The routes' role checks are modelled as the caller's role.
- Admin.Dashboard and AdminReport.ExportPdf assume a caller whose role is "superadmin" or "admin". Their refusal only renders or redirects to a page.
- The UI code of the front-end scripts is not modelled: DOM updates, `classList` side effects, event wiring, `fetch` calls, alerts and timers. Only the values the functions compute are kept.
- Floating point is not modelled. The dashboard and the report state totals in integer seconds, before `/ 3600` and `round(..., 2)`. Admin.AverageHours is exact real division, without rounding.
- Free-text fields are not modelled: the `details` of logs and inconsistencies, flash messages and JSON message strings.
- Werkzeug hashing is uninterpreted, and so is its behaviour on a `None` password.
- pandas CSV writing, `send_file` and the file name timestamp are not modelled: the export is modelled up to its rows.
- The clock is a parameter (`now`, `today`).
- The console line that `auto_clock_out` prints for each closed record (tasks.py:17) is not modelled: it is output only.
- APScheduler and the timing of the sweep are not modelled, and neither is concurrency between requests.
- Dashboard queries without ORDER BY are modelled in table order. Their results do not depend on the order.
- MySQL's case-insensitive collation is not modelled. User_ids, names and keys compare by exact characters, and sorting compares character codes.
- MySQL's string-to-number conversion is modelled for leading decimal integers only (Text.LeadingDecimal, which reads no `0x` prefix). Decimal points and exponents are not.
- Python's `int()` accepts underscores and non-ASCII digits. Text.PyInt covers the ASCII form, and `.upper()` is modelled for ASCII letters only.
- Admin.HasDigit and Admin.StrongEnough: `str.isdigit` is modelled for the ASCII digits 0-9 only. Python also accepts other Unicode digits, so a password such as "password" followed by an Arabic-Indic three passes the strength rule in Python but is TooWeak in the model.
- Lengths count Dafny characters, not JavaScript UTF-16 code units.
- JSON values are strings in the model. A payload field holding a number, `null` or a nested object is not modelled.
- `String(n)` column length limits are not modelled.
- `tasks.py:14` and `routes/gia.py:24` treat `clock_in` as a datetime, but the column is a `Time` (models/models.py:60). The model uses one abstract instant for both.
- `AttendanceInconsistency` is used at routes/gia.py:41 but is not defined in the code shown. It is modelled as an append-only table of (user_id, date, issue type).
- `strict_duration` is read at routes/admin.py:318 but is not a column of `GlobalSettings`. It is modelled as an optional day field.
- There is no clock-in or clock-out validator in the code shown: `/api/clock-in` and `/api/clock-out` are not defined. Schedule resolution and split-shift matching are absent too, so none of them is modelled.
- The schedule routes, `get_user_schedule` and the remaining pages are not part of this model. `get_user_schedule` reads fields `Schedule` does not have.
- `unit_head` is read at routes/admin.py:254, but `GlobalSettings` (models/models.py:92-102) has no such column. With a settings row present, the code shown raises AttributeError there. The model assumes the attribute exists, so AdminReport.ExportPdf returns a Report where the code shown raises. The value itself is only displayed and is not modelled.
- Login with a body that is not JSON (`data.get` on `None` raises) is not modelled: the fields are taken as present or absent.
- Sorting.SortBySorted and AdminReport.ReportListsUsersByLastName prove that the result is sorted and is a permutation of the input. Stability is shown only through Sorting.SortByKeepsSorted. Stability matters where keys tie: users with the same last name in the report, and exact name ties in the export. The model uses the stable table order there, where MySQL leaves the order of ties unspecified.

## Findings

| source | as written | input that shows it | evidently intended | confidence | as-written member | corrected member |
|---|---|---|---|---|---|---|
| routes/api.py:53 | the duplicate check `User.query.get(user_id)` looks up the integer primary key `id`, not `user_id` | users `[jdoe with id 1]`: adding "jdoe" again passes the check and fails on the UNIQUE constraint (500); adding "1" is refused although nobody holds it | refuse exactly a user_id that is already taken, with 400 "User ID already exists" | high, not executed | Api.AddUserJdoeAgain | Api.IntendedAddUserRefusesDuplicates |
| routes/admin.py:289-293 | `Logs(admin_id=...)` names a keyword the Logs model does not have, so the constructor raises TypeError after the new password is committed | any valid change, e.g. current password correct, new = confirm = "password1" | record the change in the log and show "Password updated successfully!" | high, not executed | Admin.AccountSettings | Admin.AccountSettingsIntended |
| routes/admin.py:318-321 | the expiry only runs with strict mode already on and then sets it to True, so the flag never changes and only the date is cleared | settings with strict mode on and `strict_duration` = today: after the expiry a late clock-in is still flagged | disable strict mode when its date is reached, as the function's heading says | medium, not executed (the log text speaks of "open mode" expiring, and the settings page shows the end date while strict mode is unchecked, which suggests that the guard rather than the assignment is inverted) | Admin.ExpiredStrictModeStillFlags | Admin.IntendedExpiryStopsFlags |
