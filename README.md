# Barber appointment booking, modelled in Dafny

This project models the core of a barber-shop appointment website. The site's
`HomeController` offers two core operations:

- it lists the free 15-minute time slots of a barber for a service on a date;
- it books an appointment after checking a fixed set of business rules:
  - closed on Sundays;
  - open 10:00-22:00;
  - the service must finish by 22:00;
  - the barber must not be busy during the half-open span [start, end);
  - a signed-in customer may hold at most one appointment per date.

Its `AccountController` covers the account side:

- login by e-mail and password;
- registration, which refuses an e-mail that is already taken;
- the "my appointments" page, which first deletes the user's past appointments and then lists the rest, latest first;
- cancelling one's own future appointment;
- the profile update;
- the password change.

Time is counted in whole minutes since 0001-01-01 00:00, the first day of the
proleptic Gregorian calendar, which is a Monday:

- the date of an instant `t` is `t / 1440`;
- its time of day is `t % 1440`;
- the day of the week is `(date + 1) % 7`, with Sunday = 0.

A service's end is its start plus its duration in minutes.

Modules, from the bottom up:

| module | contents |
|---|---|
| `Wrappers`, `Seqs` | `Option`/`Outcome` and the list queries the controllers use (first match, filter, removal), each with its meaning as a contract |
| `Calendar` | dates, times of day, the day of the week, the 10:00/22:00/15-minute constants, and the `HH:mm` label with its parser |
| `Intervals` | the half-open overlap test that both the slot list and the booking check use |
| `Models` | the appointment, service and user rows; the table invariants of `AppDb` (foreign keys, positive durations, unique ids); three scheduling predicates that every action keeps (pairwise-disjoint barber schedules, at most one appointment per user per date, every appointment within business hours of its date); the signed-in user |
| `Availability` | the slot grid, the per-slot checks, the slot loop (`ComputeSlots`, an imperative method proved equal to `Slots`) and the whole query `AvailableTimeSlots` |
| `Booking` | the booking decision `Decide`, with the order of its checks and the errors it reports |
| `Accounts` | the account rules: the purge and the latest-first listing, the cancel check, the credentials lookup, the new-member row and the password checks |
| `Consistency` | the two booking paths agree: a slot listed as available is accepted when it is booked |
| `Data` | `AppDb`, the database context, as a class whose table fields the methods update |
| `Home`, `Account` | the controllers as classes over one `AppDb`, with each action a method proved equal to the pure decision and its table update |

The caller passes in the things the web framework supplies:

- the current instant `now`;
- the signed-in user's e-mail claim `emailClaim` (`None` when nobody is signed in; an empty claim also counts as nobody);
- the date already parsed, as an `Option<int>` day number.

## Model

| member | source | states |
|---|---|---|
| Home.HomeController.BookAppointment | Controllers/HomeController.cs:80-176 | The result is the booking decision on the tables as they were. An accepted booking appends exactly the new row (next id, `now` as created date, the signed-in user's id) and nothing else changes. A refused booking changes nothing, the user table and its id counter included. Disjoint barber schedules, at most one appointment per user per date, and all appointments within business hours are each preserved. |
| Home.HomeController.CheckBooking | Controllers/HomeController.cs:82-151 | The checks, run in the source's order and collecting errors, give exactly the booking decision `Decide` for the signed-in user. They read the tables and change nothing. |
| Home.CollectHoursErrors | Controllers/HomeController.cs:82-94 | Both the Sunday check and the hours check run, and each adds its own error. The result is exactly `WorkingHoursErrors`. |
| Home.HomeController.GetAvailableTimeSlots | Controllers/HomeController.cs:182-294 | The answer equals the pure query `AvailableTimeSlots` on the current tables and changes nothing. |
| Availability.ComputeSlots | Controllers/HomeController.cs:230-291 | The loop over the grid, with its inner scan that breaks at the first colliding appointment, builds exactly the list `Slots`. |
| Availability.SlotsAreTheGrid | Controllers/HomeController.cs:233-240 | The list has 48 entries. Entry `i` is labelled with the `HH:mm` of 10:00 + 15·i and reads back as that time. |
| Availability.SlotsCoverGridOnce | Controllers/HomeController.cs:236-290 | Every quarter hour from 10:00 up to 21:45 appears exactly once. |
| Availability.SlotsAscend | Controllers/HomeController.cs:240-290 | The labels are in strictly ascending time order. |
| Availability.SlotAvailability | Controllers/HomeController.cs:248-278 | A slot is available if and only if three things hold: it is not in the past when the date is today, it ends by 22:00, and it overlaps no existing span. When a slot is not available, its reason is the first check that failed, in the source's order. |
| Availability.AvailableSlotEndsByClosing | Controllers/HomeController.cs:255-260 | An available slot ends no later than 22:00 of its date. |
| Availability.AvailableSlotIsNotPast | Controllers/HomeController.cs:248-253 | On today's date an available slot does not start before now. |
| Availability.AvailableSlotIsClear | Controllers/HomeController.cs:262-278 | An available slot overlaps none of the barber's spans that day. |
| Availability.TouchingAppointmentDoesNotBlock | Controllers/HomeController.cs:272 | An appointment that ends exactly when a slot starts does not change that slot. |
| Availability.ThirtyMinutesAtTenBlocksTwoSlots | Controllers/HomeController.cs:262-278 | With an appointment at 10:00-10:30, a 15-minute service finds 10:00 and 10:15 blocked by collision and 10:30 free. |
| Availability.LastFittingSlot | Controllers/HomeController.cs:255-260 | With a 30-minute service on an empty day, 21:30 is free and 21:45 exceeds closing time. |
| Availability.BarberDay | Controllers/HomeController.cs:225-228 | Holds exactly the barber's appointments whose date is the selected date. |
| Availability.SundayListsNoSlots | Controllers/HomeController.cs:195-217 | On a Sunday no slots are listed, whatever is booked. |
| Availability.SundayAnswer | Controllers/HomeController.cs:213-217 | On a Sunday, when the signed-in user has nothing booked that date, the answer is "no existing appointment, no slots". |
| Availability.ExistingAppointmentComesFirst | Controllers/HomeController.cs:195-211 | A signed-in user who holds an appointment that date is told so, and gets no slots, on any day of the week. |
| Availability.ListedSlotsAreTheDaysGrid | Controllers/HomeController.cs:184-228 | Slots are listed only in one case: both ids are non-zero, the day is not a Sunday, the service exists and the user has nothing booked that date. The answer then does not flag an existing appointment, and its list is `Slots` over that barber's spans of that day. |
| Availability.AvailableTimeSlots | Controllers/HomeController.cs:184-293 | No contract of its own. It is characterised by `SundayListsNoSlots`, `SundayAnswer`, `ExistingAppointmentComesFirst`, `ListedSlotsAreTheDaysGrid` and `OpenDayListsTheGrid`. |
| Availability.Slots | Controllers/HomeController.cs:230-291 | No contract of its own. It is characterised by `SlotsAreTheGrid`, `SlotsCoverGridOnce`, `SlotsAscend` and `SlotAvailability`, and `ComputeSlots` is proved to build it. |
| Availability.Classify | Controllers/HomeController.cs:248-278 | No contract of its own. `SlotAvailability` states when each reason is given. |
| Availability.SlotAt | Controllers/HomeController.cs:282-290 | No contract of its own. `SlotsAreTheGrid` states its label and `SlotAvailability` its flag. |
| Availability.OpenDayListsTheGrid | Controllers/HomeController.cs:213-293 | On an open day with a known service and nothing booked for the user, the answer lists the whole 48-slot grid. |
| Booking.WorkingHoursErrors | Controllers/HomeController.cs:82-94 | "Closed on Sunday" is reported if and only if the date is a Sunday. "Outside working hours" is reported if and only if the start is before 10:00 or after 22:00. Both can be reported together. |
| Booking.FirstConflict | Controllers/HomeController.cs:116-121 | Finds the first appointment in table order of the same barber, on any date, that overlaps [start, end). It finds none if and only if no such appointment exists. |
| Booking.ClosedOrOutsideHoursRefused | Controllers/HomeController.cs:82-96 | A Sunday, or a start outside 10:00-22:00, is refused with exactly those errors. |
| Booking.StartAtClosingRefused | Controllers/HomeController.cs:89-111 | A start at exactly 22:00 passes the hours check but is refused because it ends after closing. |
| Booking.EndingAfterClosingRefused | Controllers/HomeController.cs:99-111 | A known service that would end after 22:00 of its date is refused with that single error. |
| Booking.BarberConflictRefused | Controllers/HomeController.cs:114-127 | Otherwise, an overlapping appointment of the barber makes the booking refused. The single error reports the start and end of the first such appointment in table order. |
| Booking.DailyLimitRefused | Controllers/HomeController.cs:131-149 | A signed-in user who already holds an appointment that date is refused once the earlier checks pass. |
| Booking.TenToTenForHalfAnHourRefused | Controllers/HomeController.cs:106-111 | 21:50 with a 30-minute service is refused: it would end at 22:20. |
| Booking.SecondBookingSameDateRefused | Controllers/HomeController.cs:141-149 | On 20 January 2026, a customer holding 10:00 cannot also book 15:00. |
| Booking.AcceptedExactly | Controllers/HomeController.cs:82-160 | A booking is accepted if and only if every check passes: not a Sunday, a start in 10:00-22:00, a known service, it ends by 22:00, no barber conflict, and for a signed-in user nothing that date. An accepted row records the user's id exactly when someone is signed in. |
| Booking.AcceptedWhenChecksPass | Controllers/HomeController.cs:82-160 | The "if" direction of `AcceptedExactly`, on its own. |
| Booking.AcceptKeepsSchedulesDisjoint | Controllers/HomeController.cs:114-160 | Storing an accepted booking under a fresh id keeps every barber's appointments pairwise non-overlapping. |
| Booking.AcceptKeepsDailyLimit | Controllers/HomeController.cs:131-160 | Storing an accepted booking keeps at most one appointment per user per date. |
| Booking.AcceptKeepsBusinessHours | Controllers/HomeController.cs:82-111 | An accepted booking lies within business hours of its date, so storing it keeps every appointment within business hours. |
| Booking.Decide | Controllers/HomeController.cs:82-151 | No contract of its own. It is characterised by `AcceptedExactly` and the refusal lemmas above (`ClosedOrOutsideHoursRefused`, `StartAtClosingRefused`, `EndingAfterClosingRefused`, `BarberConflictRefused`, `DailyLimitRefused`). |
| Booking.NewAppointment | Controllers/HomeController.cs:139-156 | No contract of its own. `BookAppointment` states the row it stores, and `AcceptedExactly` states the user id it records. |
| Consistency.AvailableSlotClearOf | Controllers/HomeController.cs:114-127 | An appointment of the barber, if it lies within business hours of its own date, does not conflict with an available slot on any date. |
| Consistency.AvailableSlotConflictFree | Controllers/HomeController.cs:114-127 | No appointment of the barber, on any date, conflicts with an available slot, provided the barber's appointments lie within business hours of their own dates. |
| Consistency.AvailableGridSlotBookable | Controllers/HomeController.cs:82-160 | Booking an available slot of an open day passes every booking check, for a user with nothing booked that day. |
| Consistency.SlotLabelReadsBack | Controllers/HomeController.cs:284 | The label of slot `i` reads back as 10:00 + 15·i. |
| Consistency.AvailableSlotIsBookable | Controllers/HomeController.cs:82-160 | Take any slot the query lists as available. Its label reads back as its grid time, and booking the date at that time is accepted, provided the barber's appointments lie within business hours. |
| Consistency.AvailableSlotIsBookableOnKeptTables | Controllers/HomeController.cs:82-160 | The same on any table whose appointments all lie within business hours, which every action preserves: each slot listed as available is accepted when it is booked. |
| Calendar.TimeOfDay | Controllers/HomeController.cs:90 | The time of day lies in [0, 1440). |
| Calendar.DayOfWeek | Controllers/HomeController.cs:84 | The day of the week lies in [0, 7). |
| Calendar.InstantSplit | Controllers/HomeController.cs:90 | An instant is its date's midnight plus its time of day. |
| Calendar.DateOfMidnightPlus | Controllers/HomeController.cs:236-237 | Midnight of a date plus a time of day lies on that date, at that time. |
| Calendar.FormatTime | Controllers/HomeController.cs:284 | The label has five characters with `:` in the middle. |
| Calendar.ParseFormat | Controllers/HomeController.cs:284 | Reading a label gives back the minute it was formatted from. |
| Calendar.FormatParse | Controllers/HomeController.cs:284 | Every label that reads as a time is the formatting of that time. |
| Calendar.FormatInjective | Controllers/HomeController.cs:284 | Distinct times of day get distinct labels. |
| Intervals.OverlapsSymmetric | Controllers/HomeController.cs:271-272 | The overlap test does not depend on which span is the proposed one. |
| Intervals.OverlapsIffSharedMinute | Controllers/HomeController.cs:271-272 | Two non-empty half-open spans overlap if and only if they share a minute. |
| Intervals.Overlaps | Controllers/HomeController.cs:271-272 | No contract of its own. It is characterised by `OverlapsSymmetric` and `OverlapsIffSharedMinute`. |
| Intervals.DifferentDaysOfBusinessDoNotOverlap | Controllers/HomeController.cs:106-120 | Spans kept within 10:00-22:00 of different dates never overlap. |
| Models.SpansOf | Controllers/HomeController.cs:268-269 | One span per appointment, in order: entry `k` runs from the start of appointment `k` for its service's duration. When every duration is positive, every span is non-empty. |
| Models.SubtableKeepsInvariants | Controllers/AccountController.cs:136-143 | Deleting rows keeps the foreign keys and each scheduling predicate: disjoint schedules, the daily limit and business hours. |
| Models.AppendFreshAppointment | Controllers/HomeController.cs:155-157 | Appending a row with the next id keeps ids unique and below the next id. |
| Models.UpdateUserKeepsIds | Controllers/AccountController.cs:224-228 | Rewriting one user row under its own id keeps user ids unique. |
| Models.SessionUserIndex | Controllers/AccountController.cs:242-246 | Finds a user whose e-mail is the claim. It finds none if and only if the claim is missing, empty or matches no user. |
| Models.SessionUser | Controllers/HomeController.cs:196-200 | The signed-in user: a row with the claimed e-mail. It is absent if and only if the claim is missing, empty or unmatched. |
| Models.UserAppointmentsOn | Controllers/HomeController.cs:142-143 | Holds exactly the user's appointments on the given date. |
| Models.HasAppointmentOnIff | Controllers/HomeController.cs:142-145 | A positive count of the user's appointments on a date means exactly that such an appointment exists. |
| Data.AppDb.constructor | Data/ApplicationDbContext.cs:13-16 | Creates empty appointment and user tables over a service catalogue whose durations are at least one minute. |
| Data.AppDb.AddAppointment | Controllers/HomeController.cs:155-157 | Appends the row under the next id; everything else is unchanged; the invariants hold. |
| Data.AppDb.RemoveAppointmentAt | Controllers/AccountController.cs:176-177 | Deletes that one row; everything else is unchanged; the invariants hold, and each scheduling predicate that held still holds. |
| Data.AppDb.RemoveAppointmentsWhere | Controllers/AccountController.cs:136-143 | Keeps exactly the rows the predicate keeps; the invariants hold, and each scheduling predicate that held still holds. |
| Data.AppDb.AddUser | Controllers/AccountController.cs:102-104 | Appends the user under the next id; the invariants hold. |
| Data.AppDb.UpdateUserAt | Controllers/AccountController.cs:224-228 | Replaces one user row, keeping its id; the invariants hold. |
| Account.AccountController.Login | Controllers/AccountController.cs:38-75 | Returns a user whose e-mail and password both match. It returns none if and only if no user matches both. |
| Account.AccountController.Register | Controllers/AccountController.cs:91-112 | Reports "e-mail taken" if and only if some user has that e-mail, and then changes nothing. Otherwise it appends a member row with no phone number and role "Member" under the next id. Unique e-mails stay unique. |
| Account.AccountController.MyAppointments | Controllers/AccountController.cs:127-153 | Without a signed-in user it changes nothing. Otherwise it deletes that user's rows that start before now and lists the user's remaining rows, latest first. Each scheduling predicate that held still holds. |
| Account.AccountController.CancelAppointment | Controllers/AccountController.cs:161-191 | Without a signed-in user it reports "sign in". Otherwise the outcome is the cancel check. When the check passes, exactly the row with that id is deleted. When it fails, nothing changes. Each scheduling predicate that held still holds. |
| Account.AccountController.Profile | Controllers/AccountController.cs:198-207 | Returns the signed-in user's own row. It returns none if and only if the claim is missing, empty or unmatched. |
| Account.AccountController.UpdateProfile | Controllers/AccountController.cs:215-232 | Fails if and only if no user has the posted id, and then changes nothing. Otherwise only that user's name and phone number are rewritten. |
| Account.AccountController.ChangePassword | Controllers/AccountController.cs:240-267 | Without a signed-in user it reports "sign in". Otherwise the outcome is the password check of that user's row. When it passes, only that row's password changes; when it fails, nothing changes. Unique e-mails stay unique. |
| Accounts.WithoutPast | Controllers/AccountController.cs:136-143 | Every row kept by the clean-up was in the table. |
| Accounts.PurgeRemovesExactlyPastOwnRows | Controllers/AccountController.cs:136-143 | The clean-up removes exactly the user's rows that start before now. Every other row stays, as many times as it occurred. |
| Accounts.InsertLatestFirst | Controllers/AccountController.cs:149 | Inserting into a latest-first list keeps it latest first. The result holds the same rows plus the new one. |
| Accounts.SortLatestFirst | Controllers/AccountController.cs:149 | The result is ordered latest first and is a permutation of its input. |
| Accounts.ListedAppointmentsAreOwnAndFuture | Controllers/AccountController.cs:136-150 | The listed rows are ordered latest first. Each listed row is one of the user's own rows and does not start before now. Every such row of the table is listed as many times as it occurs. |
| Accounts.UserAppointments | Controllers/AccountController.cs:145-150 | No contract of its own. `ListedAppointmentsAreOwnAndFuture` states what it lists. |
| Accounts.IndexOfAppointment | Controllers/AccountController.cs:169 | Finds the row with that id. It finds none if and only if no row has that id. |
| Accounts.CancelAllowedExactly | Controllers/AccountController.cs:169-188 | A cancel passes if and only if the row exists, is the user's own and starts strictly after now. It reports "not found or not yours" if and only if no row with that id belongs to the user. It reports "past appointment" if and only if the user's row starts at or before now. |
| Accounts.CancelRemovesOnlyTarget | Controllers/AccountController.cs:176-177 | After the delete, no row has the cancelled id. Every other row keeps its count, and ids stay unique. |
| Accounts.CancelCheck | Controllers/AccountController.cs:169-188 | No contract of its own. `CancelAllowedExactly` states each of its outcomes. |
| Accounts.StartingNowIsKeptAndLocked | Controllers/AccountController.cs:136-174 | An appointment that starts exactly now survives the clean-up but cannot be cancelled. |
| Accounts.FindCredentials | Controllers/AccountController.cs:41-43 | Finds a user with that e-mail and password. It finds none if and only if no user has both. |
| Accounts.PasswordCheck | Controllers/AccountController.cs:248-259 | No contract of its own. It is characterised by `PasswordChangeAllowedExactly` and `MismatchReportedFirst`. |
| Accounts.PasswordChangeAllowedExactly | Controllers/AccountController.cs:248-259 | A password change passes if and only if the two new entries agree and the current password is right. It reports "wrong current password" if and only if the entries agree and the current password is wrong. |
| Accounts.MismatchReportedFirst | Controllers/AccountController.cs:248-259 | Differing new passwords are reported even when the current password is wrong too. |
| Accounts.NewMember | Controllers/AccountController.cs:102-103 | No contract of its own. `Register` states the row it appends, and `RegisteredMemberCanLogIn` shows that row logs in. |
| Accounts.RegisteredMemberCanLogIn | Controllers/AccountController.cs:96-104 | Registering a fresh e-mail keeps e-mails unique. The new member can log in with the e-mail and password just registered. |
| Accounts.ChangedPasswordLogsIn | Controllers/AccountController.cs:261-263 | After a change, the user logs in with the new password. The old password no longer works, if it differs. |
| Accounts.ProfileUpdateKeepsCredentials | Controllers/AccountController.cs:224-228 | For every e-mail and password, some user matches both after a profile update if and only if some user matched both before. |

### Behaviour of the code worth knowing

- **Conflict check not limited to the day.** The booking path's conflict query (`FirstConflict`) looks at the barber's appointments on every date, not only the requested one.
- **22:00 passes the hours check.** A start at exactly 22:00 passes the working-hours check, because only a start after 22:00 is rejected there. It is then refused by the closing rule.
- **No past-time check when booking.** The booking path does not check whether the start is in the past; only the slot list does.
- **Existing appointment before Sunday.** In the slot query, the "already holds an appointment that date" answer comes before the Sunday check. So a Sunday answer can carry `hasExistingAppointment = true`.
- **No ownership check on the profile update.** The profile update rewrites the row with the posted id; it does not check the session.
- **Unknown service on booking.** A booking that names an unknown service is shown the form again with no error, which is `Reject([])` in the model.

## Left out

- Cookie authentication, sign-in/sign-out, return URLs, redirects and view rendering: the session is the e-mail claim parameter, and a redirect to the login page is `SignInRequired`/`None`.
- Model-binding validation attributes (required fields, string lengths, phone and e-mail formats), except the service duration of at least one minute.
- Parsing of the `dd.MM.yyyy` date string in the slot query: the date arrives already parsed, with `None` for a string that is missing or does not parse.
- The barbers table, the barber foreign key and `IsAvailable`, and the service's price, description and image: no core rule reads them.
- The administration controller, the seed migration, application start-up and the error view.
- Seconds and sub-minute ticks of `DateTime`, its year range, and 32-bit overflow of ids and durations: times are unbounded whole minutes. With `now` in whole minutes, the current minute itself can be treated differently from the source. At 10:00:30, the source deletes a 10:00 appointment of the user as past (Controllers/AccountController.cs:137) and greys out the 10:00 slot (Controllers/HomeController.cs:249). With `now` = 10:00 the model keeps both, and no single whole minute reproduces both the strict `<` and the `>` comparisons for an instant inside a minute.
- Concurrency between requests: each action runs against the tables alone.
- The database collation: e-mail and password comparison is exact string equality, not case-insensitive.
- Database row order: for `FirstOrDefault` without `OrderBy` and for ties in `OrderByDescending`, the model uses table order, the first row, and an insertion sort.
- Booking.Decide: does not record the customer name that the booking form pre-fills from the signed-in user. The pre-fill is in the GET action, which only renders.
- Consistency.AvailableSlotIsBookable: assumes the barber's stored appointments lie within business hours of their own dates. The booking path's conflict query is not limited to the date, and without that assumption an appointment stored on another date could block a slot the list shows as free. Every table the controllers build meets the assumption: bookings and deletions preserve `AllWithinBusinessHours`, and `AvailableSlotIsBookableOnKeptTables` states the result for such tables.
