# Mediq clinic booking: slot capacity and appointment lifecycle

This project models the booking engine of the Mediq clinic backend (an Express/MySQL
service) in Dafny and proves properties of it. A doctor's day (`doctor_availability`)
is divided into time-slot rows (`doctor_time_slots`). Each row has a capacity
(`total_slots`) and a reservation counter (`booked_slots`).

The model covers these parts:

- **Booking engine.** Patients create, edit and cancel appointments against those
  counters. The clinic approves appointments, completes them and overwrites their
  status.
- **Capacity administration.** The admin routes add, bump, update and delete slot and
  day rows. They also classify calendar days.
- **Patient view.** The patient routes show a calendar and a slot listing with the
  remaining capacity.
- **Periodic jobs.** A reminder worker pushes reminders inside a −10..+60 minute
  window. A daily cleanup completes overdue approved appointments and expires past day
  rows.
- **Helpers.** The admin gate, the fixed Philippine holiday table, `convertTo24Hour`
  and the appointment list pagination.

How the model is built:

- **Tables.** All tables live in one `Tables` value: slot rows by id, day rows by
  (doctor, date), appointments by id, users with their push token, doctor names,
  an outbox of notification intents, and the two auto-increment counters.
  `Tables.Database` is the class whose fields the route methods update.
- **Routes.** Each transactional route is a method on the database
  (`Booking.Create`, `AdminAvailability.UpdateCapacity`, ...). It is proved equal to a
  pure step function (`CreateStep`, `UpdateCapacityStep`, ...) that returns the new
  tables and the outcome. A failure leaves every table as it was.
- **Properties.** The `...Facts` modules and the lemmas next to each step function
  prove what the routes promise about those step functions.
- **Time.** A `Clock` supplies the current minute, the text-to-`Date` parser, and the
  two texts the code prints from a DATE column's `Date` (`toString` and `toISOString`).
  An unparseable text gives an Invalid Date, which is never "before" anything.
- **Notifications.** Inbox rows and pushes are appended to `outbox` instead of being
  sent.

The code is modelled as written. Where it breaks an invariant it appears to aim for,
the model proves the break, and a corrected definition is proved next to it (see
"## Findings").

## Model

| member | source | states |
|---|---|---|
| Clocks.Midnight | routes/availability.js:51-61 | The start of today is a multiple of a day and lies in the day that contains now |
| Clocks.BeforeTodayMeansBeforeNow | routes/availability.js:51-61 | A date before today's midnight is before now and on an earlier calendar day |
| JsText.TrimStartSpec | reminderWorker.js:12 | `trimStart` gives the longest suffix not starting with whitespace; everything dropped is whitespace |
| JsText.TrimEndSpec | reminderWorker.js:12 | `trimEnd` gives the longest prefix not ending with whitespace; everything dropped is whitespace |
| JsText.TrimKeeps | reminderWorker.js:12 | Text with no whitespace at either end is its own trim |
| JsText.Split | reminderWorker.js:12-20 | Splitting always yields at least one piece |
| JsText.SplitSpec | reminderWorker.js:12-20 | No piece of `split(sep)` contains the separator, and joining the pieces with it gives the input back |
| JsText.SplitWithout | reminderWorker.js:12-20 | Text without the separator splits into itself alone |
| JsText.SplitAtFirst | reminderWorker.js:12-20 | Splitting cuts at the first separator and continues on the rest |
| JsText.DigitValue | reminderWorker.js:22 | A decimal digit has a value below ten |
| JsText.DigitChar | reminderWorker.js:32 | The digit character printed for d < 10 reads back as d |
| JsText.NatToStringSpec | reminderWorker.js:32 | `String(n)` prints decimal digits that denote n, a single digit exactly when n < 10 |
| JsText.LeadingDigitsSpec | reminderWorker.js:22 | The digits `parseInt` reads form the longest all-digit prefix |
| JsText.LeadingDigitsOf | reminderWorker.js:22 | Digits followed by a non-digit are read exactly |
| JsText.ParseIntDigits | reminderWorker.js:22 | `parseInt` of a digit run followed by a non-digit is the value of the run |
| JsText.PadStart2Spec | reminderWorker.js:32 | `padStart(2, "0")` puts zeros in front until the text is two long and keeps the text as its suffix |
| JsText.UpperSpec | reminderWorker.js:24-28 | `toUpperCase` keeps the length and upper-cases each ASCII letter in place |
| JsText.Trim | reminderWorker.js:12 | `trim` defined as `trimEnd` after `trimStart`; TrimStartSpec, TrimEndSpec and TrimKeeps state what it removes and keeps |
| JsText.ParseInt | reminderWorker.js:22 | `parseInt(s, 10)` after leading whitespace and an optional sign, NaN without digits; ParseIntDigits states what it reads |
| JsText.PadStart2 | reminderWorker.js:32 | `padStart(2, "0")`; PadStart2Spec states its length and suffix |
| JsText.Upper | reminderWorker.js:24-28 | `toUpperCase` on ASCII letters; UpperSpec states it works in place |
| TimeFormat.Hour24 | reminderWorker.js:24-30 | The 24-hour reading of hour 1..12: in 0..23, the same hour modulo 12, afternoon exactly when it is at least 12 |
| TimeFormat.TwoDigits | reminderWorker.js:32 | Two decimal digits whose value is the hour |
| TimeFormat.AdjustHoursIsHour24 | reminderWorker.js:22-30 | The code's PM/AM adjustment (12 AM to 0, h PM to h+12 except 12) agrees with the 24-hour reading for every hour |
| TimeFormat.HourTextIsTwoDigits | reminderWorker.js:32 | The padded hour text is the two-digit form of every hour of the day |
| TimeFormat.To24HourOfTwelveHour | reminderWorker.js:19-32 | A well-formed "hh:mm AM/PM" time converts to the two-digit 24-hour hour, the minutes verbatim and ":00" |
| TimeFormat.To24HourShortForms | reminderWorker.js:9-17 | An empty time gives "00:00:00"; a single token gives the trimmed token followed by ":00" |
| TimeFormat.AdjustHours | reminderWorker.js:22-30 | The code's PM/AM branch on the parsed hour, NaN kept as NaN; AdjustHoursIsHour24 states it is the 24-hour reading |
| TimeFormat.HourText | reminderWorker.js:32 | `String(hours).padStart(2, "0")`, with "NaN" for NaN; HourTextIsTwoDigits states its form |
| TimeFormat.To24Hour | reminderWorker.js:9-33 | `convertTo24Hour` branch by branch; To24HourOfTwelveHour and To24HourShortForms state its output |
| Holidays.YearOf | routes/appointments.js:9 | The year part is the longest hyphen-free prefix of the date, cut at the first hyphen |
| Holidays.YearOfKey | routes/appointments.js:9 | A hyphen-free year is recovered from any "year-..." key |
| Holidays.KeyInjective | routes/holidays.js:13-27 | Two keys built on one year are equal only when their month-days are |
| Holidays.KeyShape | routes/holidays.js:13-27 | A key is the year verbatim, a hyphen and the month-day |
| Holidays.TableOfKeys | routes/holidays.js:13-27 | The object literal holds exactly the keys of its entries |
| Holidays.TableOfEntries | routes/holidays.js:13-27 | With distinct month-days, each entry keeps its own name and the table has one key per entry |
| Holidays.CalendarEntriesDistinct | routes/holidays.js:13-27 | The 13 listed month-days are distinct, five characters long and the same as the ones booking rejects |
| Holidays.HolidayTableSize | routes/holidays.js:13-27 | The endpoint lists exactly 13 holidays for any year text |
| Holidays.HolidayTableKeys | routes/holidays.js:10-11 | The year is not validated: every key starts with it verbatim and adds six characters |
| Holidays.HolidayTableNames | routes/holidays.js:13-27 | Each fixed month-day of the year carries its own name |
| Holidays.HolidayTableMatchesIsHoliday | routes/holidays.js:13-27 | For a hyphen-free year, the endpoint's keys are exactly the dates of that year that booking rejects as holidays |
| Holidays.IsHolidayExactly | routes/appointments.js:8-28 | A date "year-MM-DD" is a holiday exactly when its month-day is one of the 13 listed |
| Holidays.IsHolidayYearIndependent | routes/appointments.js:8-28 | Whether a month-day is a holiday does not depend on the year |
| Holidays.HyphenatedYearKeysAreNotHolidays | routes/holidays.js:10-11 | For a year text with a hyphen, the endpoint still lists its keys, but booking does not reject them |
| Holidays.IsHoliday | routes/appointments.js:8-28 | `isHoliday`: the year cut at the first hyphen rebuilds the fixed table and the date is looked up in it; IsHolidayExactly states the result |
| Holidays.HolidayTable | routes/holidays.js:10-27 | The object literal the holiday endpoint returns for a year text; HolidayTableSize, HolidayTableKeys and HolidayTableNames state its contents |
| AdminAuth.Decide | middleware/adminAuth.js:6-43 | Access is granted exactly for a present header naming an existing, active admin; every refusal is a 401 or a 403 |
| AdminAuth.DenialOrder | middleware/adminAuth.js:6-43 | The refusals come in order: 401 "Missing user ID", 401 "Invalid user", 403 "Account disabled", 403 "Admin access only" |
| AdminAuth.DisabledAdminRefused | middleware/adminAuth.js:29-34 | Status is checked before role, so an inactive admin is refused as disabled |
| Tables.FirstWhere | routes/appointments.js:104-112 | `rows[0]` of a slot SELECT is the lowest matching id, and no lower row matches; None means no row matches |
| Tables.FirstWhereIgnoresCounters | routes/appointments.js:104-112 | Which row a SELECT finds does not depend on the counter columns |
| Tables.ReleaseAt | routes/appointments.js:266-273 | The release UPDATE keeps the set of slot rows |
| Tables.ReserveKeepsCapacity | routes/appointments.js:148-154 | A reservation adds one to its own row and no other, and on a row with room it keeps booked <= total |
| Tables.ReleaseAtBounds | routes/appointments.js:266-273 | The guarded release frees one unit from each matching row with bookings, never goes below zero, keeps booked <= total, and leaves other rows alone |
| Tables.CountWherePositive | routes/admin.availability.js:20-29 | A count of slot rows is positive exactly when a counted row exists |
| SlotListing.MatchingIds | routes/admin.availability.js:131-137 | The ids a WHERE clause selects: exactly the matching rows below the counter, ascending |
| SlotListing.Insert | routes/admin.availability.js:131-137 | Insertion into a time-ordered listing keeps it ordered and adds exactly that id |
| SlotListing.SortByTime | routes/admin.availability.js:131-137 | `ORDER BY time_value` gives a time-ordered permutation of the selected ids |
| SlotListing.SlotsOn | routes/admin.schedule.js:50-59 | The listing is time-ordered and a permutation of the rows of that doctor and date |
| SlotListing.SlotsOnExactly | routes/availability.js:64-74 | The listing holds exactly the rows of that doctor and date, each once |
| SlotListing.AscendingOnce | routes/availability.js:64-74 | An ascending id list holds each id at most once |
| AdminAvailability.DayStatusIff | routes/admin.availability.js:20-29 | A closed day is closed; otherwise it is available exactly when one of its slots has room, and no_slots otherwise, including a day without slots |
| AdminAvailability.Calendar | routes/admin.availability.js:44-47 | The calendar holds exactly the dates of the doctor's day rows, each with its day status |
| AdminAvailability.SlotRows | routes/admin.availability.js:127-148 | One row per slot of the date, in time order, each reporting remaining = total − booked |
| AdminAvailability.AddDate | routes/admin.availability.js:61-81 | The method's effect and answer are those of the INSERT IGNORE step |
| AdminAvailability.AddDateIdempotent | routes/admin.availability.js:65-71 | A missing date is refused and changes nothing; otherwise the day row exists, adding it twice equals adding it once, and an existing row is kept |
| AdminAvailability.DeleteDate | routes/admin.availability.js:89-119 | The method's effect and answer are those of the guarded date delete |
| AdminAvailability.DeleteDateIff | routes/admin.availability.js:93-116 | Refused exactly when a slot of the date holds a booking; otherwise it removes that date's slots and day row and nothing else |
| AdminAvailability.AddSlot | routes/admin.availability.js:156-224 | The method's effect and answer are those of the insert-or-bump step |
| AdminAvailability.AddSlotEffect | routes/admin.availability.js:160-221 | A falsy time, time value or capacity is refused and changes nothing; an existing time value gains n capacity with booked unchanged; otherwise one new row with booked 0 |
| AdminAvailability.AddSlotKeepsCapacity | routes/admin.availability.js:164-221 | With a non-negative n, adding a slot keeps booked <= total and the ids below their counter |
| AdminAvailability.UpdateCapacity | routes/admin.availability.js:232-254 | The method's effect and answer are those of the capacity update as written |
| AdminAvailability.UpdateCapacityIff | routes/admin.availability.js:236-249 | Applied exactly when the row exists and its current total >= booked; it then sets only that row's total; otherwise nothing changes |
| AdminAvailability.UpdateCapacityBreaksCapacity | routes/admin.availability.js:236-249 | As written, a total below the bookings is accepted and breaks booked <= total |
| AdminAvailability.UpdateCapacityIntendedKeepsCapacity | routes/admin.availability.js:236-249 | With the guard on the new total, the update keeps booked <= total and is accepted exactly when the new total covers the bookings |
| AdminAvailability.DeleteSlot | routes/admin.availability.js:262-286 | The method's effect and answer are those of the guarded slot delete |
| AdminAvailability.DeleteSlotCases | routes/admin.availability.js:265-283 | A missing row gives not found, a row with bookings is refused, and otherwise only that row is removed |
| AdminAvailability.DayStatusOf | routes/admin.availability.js:20-29 | The CASE of the calendar query; DayStatusIff states when each status is shown |
| AdminAvailability.AddDateStep | routes/admin.availability.js:61-81 | The INSERT IGNORE route as one step; AddDateIdempotent states its effect |
| AdminAvailability.DeleteDateStep | routes/admin.availability.js:89-119 | The guarded date delete as one step; DeleteDateIff states when it is refused and what it removes |
| AdminAvailability.AddSlotStep | routes/admin.availability.js:156-224 | The insert-or-bump route as one step; AddSlotEffect and AddSlotKeepsCapacity state its effect |
| AdminAvailability.UpdateCapacityStep | routes/admin.availability.js:232-254 | The capacity update with the guard as written; UpdateCapacityIff and UpdateCapacityBreaksCapacity state its effect |
| AdminAvailability.UpdateCapacityIntendedStep | routes/admin.availability.js:236-249 | The capacity update with the guard on the new total; UpdateCapacityIntendedKeepsCapacity states its effect |
| AdminAvailability.DeleteSlotStep | routes/admin.availability.js:262-286 | The guarded slot delete as one step; DeleteSlotCases states its three outcomes |
| AdminSchedule.StatusOf | routes/admin.schedule.js:31-37 | A day shows no_slots exactly when it is closed or has capacity zero, otherwise available, and never closed |
| AdminSchedule.Calendar | routes/admin.schedule.js:31-37 | The calendar holds exactly the dates of the doctor's day rows, each mapped from its day row |
| AdminSchedule.CalendarIgnoresSlots | routes/admin.schedule.js:31-37 | An open day with capacity shows available however its slots are booked |
| AdminSchedule.SlotRows | routes/admin.schedule.js:47-70 | One row per slot of the date, in time order |
| AdminSchedule.SetClosed | routes/admin.schedule.js:76-98 | The method's new tables are those of the open/close upsert |
| AdminSchedule.SetClosedEffect | routes/admin.schedule.js:80-88 | Sets only that day's closed flag, and creates the row with defaults when it is absent; nothing else changes |
| AdminSchedule.SetDayTotal | routes/admin.schedule.js:104-126 | The method's new tables are those of the per-date total upsert |
| AdminSchedule.SetDayTotalEffect | routes/admin.schedule.js:108-116 | Sets only that day's total, creating the row when needed; nothing else changes |
| AdminSchedule.InsertSlot | routes/admin.schedule.js:132-154 | The new row gets a fresh id, and the tables are those of the plain insert |
| AdminSchedule.InsertSlotDoesNotMerge | routes/admin.schedule.js:136-144 | Adding the same time twice gives two distinct rows, both with no bookings |
| AdminSchedule.InsertSlotCapacity | routes/admin.schedule.js:136-144 | The insert keeps booked <= total exactly when the new capacity is not negative |
| AdminSchedule.DeleteFreeSlot | routes/admin.schedule.js:160-181 | The method's effect and answer are those of the guarded delete |
| AdminSchedule.DeleteFreeSlotIff | routes/admin.schedule.js:163-178 | Refused exactly when the row exists with bookings; otherwise it removes only that row, and a missing row reports success and changes nothing |
| AdminSchedule.SetClosedStep | routes/admin.schedule.js:76-98 | The open/close upsert on the day row; SetClosedEffect states its effect |
| AdminSchedule.SetDayTotalStep | routes/admin.schedule.js:104-126 | The per-date total upsert; SetDayTotalEffect states its effect |
| AdminSchedule.InsertSlotStep | routes/admin.schedule.js:132-154 | The plain slot insert; InsertSlotDoesNotMerge and InsertSlotCapacity state its effect |
| AdminSchedule.DeleteFreeSlotStep | routes/admin.schedule.js:160-181 | The guarded delete as one step; DeleteFreeSlotIff states its outcomes |
| PatientAvailability.CalendarOf | routes/availability.js:11-42 | The calendar holds exactly the doctor's dates from today on, each with its status |
| PatientAvailability.DayStatusIff | routes/availability.js:18-20 | While every slot is within capacity, a date is available exactly when one of its slots has room |
| PatientAvailability.RemainingPositive | routes/availability.js:18-20 | Within capacity, the sum of total − booked is non-negative, and positive exactly when some slot has room |
| PatientAvailability.OverbookedSlotHidesFreeSlot | routes/availability.js:18-20 | Without the capacity invariant an over-booked slot can cancel out a free one, and the date shows no_slots |
| PatientAvailability.ClosedFlagIgnored | routes/availability.js:18-20 | The patient calendar does not read the closed flag |
| PatientAvailability.SlotsFor | routes/availability.js:49-91 | A date before today is refused with no slots; otherwise the date's slots in time order, each with total and remaining = total − booked |
| PatientAvailability.RefusedDateIsPast | routes/availability.js:51-61 | A refused date lies before now, on an earlier calendar day |
| PatientAvailability.DayStatusOf | routes/availability.js:17-21 | The CASE of the patient calendar query; DayStatusIff, RemainingPositive and ClosedFlagIgnored state what it shows |
| Booking.PushTo | routes/appointments.js:635-642 | At most one push, sent exactly when the user has a token, and addressed to that token |
| Booking.ApprovalMessages | routes/appointments.js:610-665 | Nothing for an unknown user; otherwise the inbox row first, then only pushes: the approval push to the token exactly when one exists, and a reminder push exactly when a token exists and the slot time is inside −10..+60 minutes |
| Booking.ApproveOnceStep | routes/appointments.js:595-665 | The corrected approve: same answer, messages, slots and days as approve |
| Booking.ParseStatus | routes/appointments.js:833-837 | Exactly "arrived", "no_show" and "completed" are accepted, each as its own status |
| Booking.Create | routes/appointments.js:45-196 | The method's effect and answer are those of the create step |
| Booking.Edit | routes/appointments.js:205-368 | The method's effect and answer are those of the edit step |
| Booking.Cancel | routes/appointments.js:376-506 | The method's effect and answer are those of the cancel step, whose past check reads the stored date's `Date.toString` text |
| Booking.Approve | routes/appointments.js:565-674 | The method's effect and answer are those of the approve step |
| Booking.Complete | routes/appointments.js:681-735 | The method's effect and answer are those of the complete step |
| Booking.SetStatus | routes/appointments.js:829-851 | The method's effect and answer are those of the status overwrite |
| Booking.PastSlot | routes/appointments.js:58-61 | Create's past check on the request's own date and time text; CreateChecksInOrder states it runs first |
| Booking.PastAppt | routes/appointments.js:403-404 | Cancel's past check on the stored row, whose date the template string prints with `Date.toString`; CancelChecksInOrder states its place |
| Booking.ApproveInstant | routes/appointments.js:579-584 | Approve's instant: the `toISOString` date, "T" and the 24-hour time; ApproveReminderOnlyAhead and ApproveNearSlot use it |
| Booking.CreateStep | routes/appointments.js:45-196 | The create route as one step; CreateChecksInOrder, CreateSucceedsIff and CreateEffect state what it does |
| Booking.EditStep | routes/appointments.js:205-368 | The edit route as one step; EditOnlyPending, EditEffect and EditFailureChangesNothing state what it does |
| Booking.CancelStep | routes/appointments.js:376-506 | The cancel route as one step; CancelChecksInOrder and CancelEffect state what it does |
| Booking.ApproveStep | routes/appointments.js:565-674 | The approve route as one step; ApproveChecksInOrder, ApproveEffect and ApproveInstantReminder state what it does |
| Booking.CompleteStep | routes/appointments.js:681-735 | The complete route as one step; CompleteIff states what it does |
| Booking.SetStatusStep | routes/appointments.js:829-851 | The status overwrite as one step; SetStatusEffect states what it does |
| BookingFacts.CreateChecksInOrder | routes/appointments.js:58-85 | Rejections come in order: past time, then holiday, then missing field, each leaving the tables as they were |
| BookingFacts.CreateFailureChangesNothing | routes/appointments.js:104-186 | A failing create leaves every table as it was |
| BookingFacts.CreateSucceedsIff | routes/appointments.js:58-186 | Create succeeds exactly when every check passes and the chosen slot has room |
| BookingFacts.CreateSlotFailures | routes/appointments.js:104-119 | A missing slot gives slot not found, and a full chosen slot gives slot full |
| BookingFacts.CreateEffect | routes/appointments.js:104-186 | Success adds exactly one pending appointment under a fresh id, one booking to the chosen slot and to its day, and changes nothing else |
| BookingFacts.CreateKeepsInvariants | routes/appointments.js:104-186 | Create keeps booked <= total on every slot and the ids below their counters |
| BookingFacts.HolidayAlwaysRefused | routes/appointments.js:68-73 | A holiday is refused, and nothing changes, whatever the slots hold |
| BookingFacts.CreateManyBounded | routes/appointments.js:104-186 | Of a series of valid requests for one slot, at most its free capacity succeed, and its counter stays within capacity |
| BookingFacts.EditFailureChangesNothing | routes/appointments.js:266-306 | A failing edit leaves every table as it was, so the earlier release is undone |
| BookingFacts.EditOnlyPending | routes/appointments.js:228-263 | An unknown id gives not found, and a non-pending appointment cannot be edited |
| BookingFacts.EditEffect | routes/appointments.js:266-343 | Success: the old slot's rows lose one booking where they had any, the new slot gains one, every capacity is kept, the row gets the new details with reminder_sent cleared, and the day rows, users, doctors and outbox stay as they were |
| BookingFacts.EditKeepsInvariants | routes/appointments.js:266-343 | Edit keeps booked <= total and the ids below their counters |
| BookingFacts.EditInPlace | routes/appointments.js:266-320 | Editing without moving keeps the slot's counter and succeeds even when the slot is full |
| BookingFacts.EditToFullSlot | routes/appointments.js:283-306 | Moving to a full slot fails and leaves the old reservation in place |
| BookingFacts.CancelChecksInOrder | routes/appointments.js:376-422 | An unknown id, then a past appointment whatever its status, then a status other than pending or approved is refused, and nothing changes |
| BookingFacts.CancelEffect | routes/appointments.js:424-482 | Success: cancelled, arrived cleared, reminder_sent set, the guarded slot release with every capacity kept, that day row's counter minus one and every other day row unchanged, the cancel push, and users and doctors untouched |
| BookingFacts.CancelKeepsInvariants | routes/appointments.js:439-446 | Cancel keeps booked <= total and never drives a slot below zero |
| BookingFacts.CancelDayCanGoNegative | routes/appointments.js:455-460 | The day decrement has no guard: a day showing no bookings ends at −1 |
| BookingFacts.CancelTwice | routes/appointments.js:414-422 | A second cancel of the same appointment is refused and changes nothing |
| BookingFacts.ReleaseOfFreeSlot | routes/appointments.js:439-446 | Releasing a slot with no bookings leaves it as it was, once or twice |
| BookingFacts.ApproveChecksInOrder | routes/appointments.js:565-608 | An unknown id, then a past appointment, then anything not pending is refused, and nothing changes |
| BookingFacts.ApproveEffect | routes/appointments.js:595-642 | Success moves pending to approved with reminder_sent cleared, changes no slot, day, user or id counter, and appends the inbox row followed by the approval push to a set token |
| BookingFacts.ApproveInstantReminder | routes/appointments.js:635-665 | The new messages: the inbox row, the approval push and the reminder push, each exactly when its condition holds |
| BookingFacts.ApproveNearSlot | routes/appointments.js:644-665 | Approving an appointment due within the next hour for a user with a token succeeds and sends an instant reminder |
| BookingFacts.ApproveReminderOnlyAhead | routes/appointments.js:579-593 | The past check runs first, so an instant reminder only goes out for a slot 0..60 minutes ahead |
| BookingFacts.CompleteIff | routes/appointments.js:685-698 | Complete succeeds exactly from approved, not from arrived, and sets completed with arrived cleared and reminder_sent set |
| BookingFacts.SetStatusEffect | routes/appointments.js:833-841 | Accepted exactly for the three names; it overwrites any status of an existing row and changes no counters |
| BookingFacts.BookCancelRebook | routes/appointments.js:104-460 | On a slot with room for one: X books it, Y is turned away as full, X cancels, and Y then books it |
| BookingFacts.SameUserBooksSameSlotTwice | routes/appointments.js:40-196 | As written, the same request sent twice to a slot with room books it twice for the same user |
| BookingFacts.CreateOnceStep | routes/appointments.js:40-196 | The corrected create refuses a request its user already holds, and otherwise answers as create does |
| BookingFacts.CreateOnceKeepsNoDoubleBooking | routes/appointments.js:40-196 | With the check, no user holds the same doctor, date and time twice after any create |
| Cleanup.CompleteOverdue | utils/cleanupScheduler.js:7-12 | The appointment update keeps the set of rows |
| Cleanup.ExpireDays | utils/cleanupScheduler.js:14-18 | The availability update keeps the set of rows |
| Cleanup.RunDailyCleanup | utils/cleanupScheduler.js:3-24 | The method's new tables are those of the two updates run in order |
| Cleanup.CleanupAppointment | utils/cleanupScheduler.js:7-12 | An overdue approved appointment becomes completed with arrived cleared; every other appointment is unchanged |
| Cleanup.NothingOverdueAfter | utils/cleanupScheduler.js:7-12 | After the cleanup no approved appointment lies in the past |
| Cleanup.CleanupDay | utils/cleanupScheduler.js:14-18 | A day row dated before today becomes expired; the other rows are unchanged |
| Cleanup.CleanupFrame | utils/cleanupScheduler.js:7-18 | Slots, users, outbox, counters and the day counters are untouched |
| Cleanup.CleanupIdempotent | utils/cleanupScheduler.js:7-18 | Running the cleanup twice at one instant equals running it once |
| Cleanup.Overdue | utils/cleanupScheduler.js:7-12 | The first update's WHERE clause; CleanupAppointment and NothingOverdueAfter state its use |
| Cleanup.Stale | utils/cleanupScheduler.js:14-18 | The second update's WHERE clause, `date < CURDATE()`; CleanupDay states its use |
| Cleanup.CleanupStep | utils/cleanupScheduler.js:3-24 | The two updates in order; CleanupFrame and CleanupIdempotent state what it keeps |
| Reminders.ConsideredBelow | reminderWorker.js:46-60 | The ids the query returns: exactly the approved, not yet reminded rows of known users, ascending |
| Reminders.RowPush | reminderWorker.js:83-100 | At most one push, sent exactly when the slot time is inside −10..+60 minutes and a token exists |
| Reminders.PushFor | reminderWorker.js:83-100 | A selected row yields a push exactly when it is due and its user has a token |
| Reminders.InWindow | reminderWorker.js:83 | Rows found inside the window come from the rows given |
| Reminders.MarkLeavesOthers | reminderWorker.js:106-109 | Marking leaves every row it was not given unchanged |
| Reminders.OneMorePush | reminderWorker.js:70-114 | One more loop round appends its row's push to the outbox |
| Reminders.OneMoreMark | reminderWorker.js:70-114 | One more loop round marks its row exactly when its slot time is inside the window |
| Reminders.NextRowIsNew | reminderWorker.js:70-114 | In an ascending row list, the next row was not visited before |
| Reminders.RemindRow | reminderWorker.js:83-109 | The loop body marks the row exactly when the window holds, and sends that row's push |
| Reminders.Sweep | reminderWorker.js:40-117 | The loop's new tables are those of the sweep step |
| Reminders.WorkerInstant | reminderWorker.js:73-77 | The worker's instant: the date the template string prints with `Date.toString`, "T" and the 24-hour time |
| Reminders.ReminderText | reminderWorker.js:85-94 | The reminder body with the "Appointment" and "Doctor" fallbacks; ReminderSaysToday states its ending |
| Reminders.SweepStep | reminderWorker.js:40-117 | One worker run; SweepMarksExactlyDue, SweepPushesExactlyDue and SweepIdempotent state what it does |
| ReminderFacts.InWindowIff | reminderWorker.js:83 | A row is found inside the window exactly when it is one of the rows and its slot time is in the window |
| ReminderFacts.SweepMarksExactlyDue | reminderWorker.js:83-109 | The sweep sets reminder_sent exactly on the due rows, with or without a token, and leaves every other row unchanged |
| ReminderFacts.PushesForIff | reminderWorker.js:70-114 | A message is among the pushes for some rows exactly when it is the push of one of them |
| ReminderFacts.SweepPushesExactlyDue | reminderWorker.js:84-100 | The new outbox messages are exactly the reminders of the due rows whose user has a token |
| ReminderFacts.PushesForNone | reminderWorker.js:83 | Rows none of which is due produce no push |
| ReminderFacts.StillSelectedWasNotDue | reminderWorker.js:58-59 | A row the next sweep still selects was selected by this one, was not due, and is unchanged |
| ReminderFacts.SweepIdempotent | reminderWorker.js:58-59 | A second sweep at the same instant sends nothing and changes nothing |
| ReminderFacts.ApproveThenSweepRemindsTwice | reminderWorker.js:58-59 | As written, approving an appointment due within the hour sends a reminder, and when the worker's `Date.toString` text also parses into the window, the next sweep sends it again |
| ReminderFacts.ApproveOnceRemindsOnce | routes/appointments.js:644-665 | With the correction, reminder_sent is set exactly when approve pushed the reminder, and then the sweep neither selects nor reminds the row |
| ReminderFacts.ReminderSaysToday | reminderWorker.js:89-100 | A reminder goes to the user's token under the reminder title, and ends in "today" exactly on the same calendar day and in "tomorrow" otherwise |
| ReminderFacts.SweepInertWhenUnparsed | reminderWorker.js:73-83 | When no row's `Date.toString` text parses, the sweep sends nothing and marks nothing |
| Pagination.PageNumber | routes/appointments.js:793 | `Number(page) or 1`: an absent, non-numeric or zero page gives 1, any other number is kept, and the result is never 0 |
| Pagination.Page | routes/appointments.js:793-809 | A page below 1 is a query error; otherwise at most 10 rows, the rows from the offset on, and a full page whenever enough rows remain |
| Pagination.RowPosition | routes/appointments.js:793-809 | Row i is on page i/10 + 1, at position i mod 10 |
| Pagination.FirstPagesArePrefix | routes/appointments.js:793-809 | Pages 1 to n together are the first 10n rows, or all of them when there are fewer: paging neither skips nor repeats a row |

## Left out

- Database errors, connection pooling, row locking (`FOR UPDATE`), and the
  commit/rollback plumbing. Each transactional route is one atomic step, and a failure
  restores every table. The `try/catch` blocks of the cleanup and the worker are left
  out too, and so is interleaving between routes.
- JavaScript `Date` parsing, the server time zone and MySQL's
  `CONCAT(date, ' ', time) < NOW()` text comparison. They become the abstract parser
  `Clock.parse` over whole minutes. Approve's second `new Date()` is taken to be the
  same instant as the first.
- How the MySQL driver turns a DATE column into a JavaScript `Date`, and how that
  `Date` prints. The model keeps the stored date text and gives the clock two
  functions of it: `Clock.shown`, the `Date.toString` text a template string prints
  (cancel at routes/appointments.js:403, the worker at reminderWorker.js:75), and
  `Clock.iso`, the `toISOString().slice(0, 10)` text (approve at
  routes/appointments.js:582 and 646). Whether `Clock.parse` reads a `Date.toString`
  text followed by " 10:00 AM" or by "T10:00:00" is left open.
- Booking.CancelStep, Booking.Cancel: if `Clock.parse` cannot read the shown text, the
  past check never refuses and a past appointment can be cancelled; the model states
  the check over that text but does not decide which case holds.
- Reminders.SweepStep, Reminders.Sweep: if `Clock.parse` cannot read the shown text,
  no row is ever due; ReminderFacts.SweepInertWhenUnparsed states that the sweep then
  sends and marks nothing.
- `diffMinutes` is a float in the code. The model uses whole minutes.
- The Expo push SDK, and the inbox INSERTs as database rows: notifications are
  appended to `outbox` as (recipient, title, body) intents.
- A NULL service, which JavaScript prints as "null" inside approve's instant reminder.
  The model holds "" for NULL text columns and prints that. A missing doctor row prints
  "null" as in the code, and the worker's fallbacks "Appointment" and "Doctor" are kept.
- `toUpperCase` beyond ASCII letters.
- String-typed request numbers and fractional page numbers. Request fields are typed,
  and absent numbers are 0.
- The appointment list endpoints' SQL, including `ORDER BY a.date DESC, a.time DESC`.
  Pagination takes the rows in query order.
- `isHoliday` on an absent date, which throws in the code. The model takes the date to
  be text.
- Object-prototype keys such as `__proto__` in the holiday table.
- AdminSchedule.Calendar: its keys are the stored date text, where the code builds
  them from the driver's `Date` with `Date.toString` (routes/admin.schedule.js:33).
- PatientAvailability.CalendarOf: its keys are the stored date text, where the code
  prints `new Date(r.date).toISOString().split("T")[0]` of the driver's `Date`
  (routes/availability.js:38), which can shift the day in a time zone ahead of UTC. The
  code answers a list of (date, status) pairs, one per day row in query order; the model
  gives a map from date to status.
- AdminAvailability.Calendar: its keys are the stored date text, where the code builds
  them with `toISOString().split("T")[0]` (routes/admin.availability.js:46), which
  can shift the day in a time zone ahead of UTC.
- The order of rows with equal time values under `ORDER BY time_value`. The listing
  contracts leave it open.
- db.js exports one connection made with `mysql.createConnection`, which has no
  `getConnection`; as written, create, edit and cancel would throw at
  routes/appointments.js:88, 232 and 379. The model takes a pool with transactions.
- Tables.NewDay: a day row created by an upsert takes the schema's defaults (open,
  totals 0, not expired). The schema is not part of this model. Keying `days` by
  (doctor, date) assumes a unique key on `doctor_availability(doctor_id, date)`, which
  only the `ON DUPLICATE KEY UPDATE` and `INSERT IGNORE` statements imply.
- Tables.FirstWhere: `rows[0]` of a `SELECT ... FOR UPDATE` without `ORDER BY` is taken
  to be the matching row with the lowest id.
- Reminders.Rows: the worker's query (reminderWorker.js:46-60) has no `ORDER BY`. The
  rows are taken in ascending id order, which fixes the order of the pushes in the
  outbox.
- The `setInterval` timers that start the worker and the cleanup. Each run is one call
  with the current clock.
- The `expired` day status is written by the cleanup but read by nothing else in the
  model.
- Reminders.InWindow: states only that its rows come from the given ones. The exact
  characterisation is ReminderFacts.InWindowIff.
- Tables.ReleaseAt, Cleanup.CompleteOverdue, Cleanup.ExpireDays: their own
  contracts state only that the rows are kept. The per-row effects are
  Tables.ReleaseAtBounds, Cleanup.CleanupAppointment and Cleanup.CleanupDay.

## Findings

| source | as written | input that shows it | evidently intended | confidence | as-written member | corrected member |
|---|---|---|---|---|---|---|
| routes/admin.availability.js:236-249 | The guard compares the row's current `total_slots` with `booked_slots`, not the new total | A slot with total 2 and booked 2, updated to total 1, is accepted and leaves booked 2 > total 1 | Refuse a new total below the bookings ("Cannot reduce below booked slots") | not executed | AdminAvailability.UpdateCapacityBreaksCapacity | AdminAvailability.UpdateCapacityIntendedKeepsCapacity |
| routes/appointments.js:40-196 | The header comment promises a "same user, same slot" check, but create does not look for an existing appointment | The same valid request sent twice to a slot with room for two creates two live appointments for one user | Refuse a request whose user already holds a pending or approved appointment at that doctor, date and time | not executed | BookingFacts.SameUserBooksSameSlotTwice | BookingFacts.CreateOnceKeepsNoDoubleBooking |
| routes/appointments.js:595-665 | Approve clears `reminder_sent` and then may push the instant reminder, without setting `reminder_sent` | Approving a pending appointment 30 minutes ahead for a user with a token pushes a reminder, and the next worker sweep pushes it again when its `Date.toString` text parses into the window | Set `reminder_sent` when the instant reminder goes out, so the worker does not repeat it | not executed | ReminderFacts.ApproveThenSweepRemindsTwice | ReminderFacts.ApproveOnceRemindsOnce |
