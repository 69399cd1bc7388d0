# Booking wizard model

A Dafny model of the booking wizard of a restaurant booking front end. The
wizard exists in two near-identical React components:

- `MultiStepBookingForm`: a two-step wizard. Step 1 is "Date & Time" and step 2 is "Customer Details". A confirmation panel replaces both steps after a successful submit.
- `RestaurantBookingForm`: a single page. It shows the calendar, the time slots, the customer details and a "Complete Booking" button, with the confirmation below them.

Both components share three pieces of logic, and the model covers each:

- **Calendar page** (`calendar.dfy`, module `Calendar`): `getDaysInMonth`, `getFirstDayOfMonth`, the 42-cell Sunday-first month page built by `getCalendarDays`, month navigation, and the cell predicates `isToday`, `isPastDate` and the disabled-cell rule.
  - Dates are day numbers on the proleptic Gregorian calendar.
  - `new Date(y, m, d)` normalises out-of-range months and days. The model writes this normalisation out.
  - `getDaysInMonth` is the JavaScript idiom "day 0 of the next month". It is proved equal to the Gregorian month-length table, leap-year rule included.
- **ISO dates** (`iso_date.dfy`, module `IsoDate`): `formatDateToISOString` writes an ISO 8601 extended calendar date `YYYY-MM-DD` using `String()` and `padStart(2, "0")`. `isSelectedDate` reads that string back.
- **Validation** (`validation.dfy`, module `Validation`): the form record, the field updates, the error map, `String.prototype.trim`, the unanchored e-mail pattern `/\S+@\S+\.\S+/`, and `validateStep`.
  - `validateStep` has two forms: a specification function `StepErrors` and the method `ComputeStepErrors`, which assigns messages rule by rule.
- **Slots** (`slots.dfy`, module `Slots`): the hard-coded time slots and the "spots left" label each component prints.
- **The two components** (`multi_step_wizard.dfy` and `restaurant_form.dfy`): each is a class with the component's state fields:
  - `currentStep`, `showSuccess`, `errors` and `formData`;
  - `currentMonth`, kept as the year and month it is read for.

  Every handler is a method whose `ensures` gives the whole new state. A `Dispatch` method models the controls the rendered page wires to those handlers, and its contract states the invariants of the component:
  - In the two-step form the step stays 1 or 2. The confirmation only follows a step-2 validation that passed, and reset leads back to step 1 with the default record.
  - In the single-page form no control ever calls `handleNext` or `handleBack`. So the step never changes, and a booking is confirmed once a date and a time are chosen, whatever the customer details say.

Inputs the source takes from the environment are parameters:
- The clock (`new Date()`) is an `Instant`. It holds the local date and the milliseconds since local midnight.
- A user's event is an `Action`. A field change is a typed `Edit` rather than a name/value pair.

Behaviour of the code worth knowing, which the model keeps as written:
- After reset, the two-step form clears `showSuccess`, sets the step to 1 and restores the default record. The handler leaves the error map alone. The confirmation only appears after a validation that left the map empty, and it shows nothing but the reset button, so the map is already empty whenever reset can be clicked. The net effect is the same as clearing it (`MultiStepBooking.Wizard.Dispatch`).
- The single-page form's reset leaves the error map, the shown month and the step alone.
- Clearing an error stores the empty message under the key rather than removing the key. `HasError` therefore treats a key holding the empty message as "no error".
- Success is a separate `showSuccess` flag, not a third step. In the two-step form `currentStep` stays 2 while the confirmation is shown.
- A slot with no spots left can still be selected, and selecting a slot never changes `spotsLeft`.
- Submitting sends nothing anywhere. The source only logs the record.

## Model

| member | source | states |
|---|---|---|
| Calendar.DayNumber | src/MultiStepBookingForm.jsx:265-269 | `new Date(y, m, d)` as a day number: a month in 0..11 needs no carry, month 12 is January of the next year, month -1 is December of the year before |
| Calendar.Weekday | src/MultiStepBookingForm.jsx:35 | `getDay()` is in 0..6 |
| Calendar.WeekdaySuccessor | src/MultiStepBookingForm.jsx:35 | each day's weekday is the previous day's plus one, Saturday (6) wrapping to Sunday (0) |
| Calendar.WeekdayAnchors | src/MultiStepBookingForm.jsx:33-36 | the numbering is the real one, 0 = Sunday: 1 Jan 1970 is 4 (Thursday), 1 Jan 2000 is 6 (Saturday), 1 Jun 2025 is 0 (Sunday) |
| Calendar.DaysInMonth | src/MultiStepBookingForm.jsx:29-31 | `new Date(y, m + 1, 0).getDate()` is the Gregorian month length: 31, 30, or 28/29 for February by the leap-year rule; always 28..31 |
| Calendar.FirstDayOfMonth | src/MultiStepBookingForm.jsx:33-36 | the weekday of the 1st of the month is in 0..6; `WeekdayAnchors` and `WeekdaySuccessor` tie the numbers to real weekdays, 0 = Sunday |
| Calendar.PreviousMonthOf | src/MultiStepBookingForm.jsx:49-50 | the month before a real month is a real month, and the month after it is the original month (January wraps to December of the year before) |
| Calendar.NextMonthOf | src/MultiStepBookingForm.jsx:80-81 | the month after a real month is a real month (December wraps to January of the next year) |
| Calendar.DayNumberOrder | src/MultiStepBookingForm.jsx:265-270 | on real dates, comparing the instants `new Date(y, m, d)` orders dates by (year, month, day), and equal instants mean equal dates |
| Calendar.CalendarGrid | src/MultiStepBookingForm.jsx:39-94 | the page has exactly 42 cells, cell i being the i-th cell of the leading/current/trailing layout |
| Calendar.GridLeadingCells | src/MultiStepBookingForm.jsx:46-61 | exactly `firstDayOfMonth` leading cells, none in the current month, all in the previous month (January shows December of year-1), with days daysInPrev-first+1 .. daysInPrev ascending |
| Calendar.GridCurrentMonthCells | src/MultiStepBookingForm.jsx:63-72 | days 1..daysInMonth follow the leading cells in order, and they are exactly the cells marked as the current month |
| Calendar.GridTrailingCells | src/MultiStepBookingForm.jsx:74-91 | at least 5 cells remain (6 + 31 < 42); they are in the next month (December shows January of year+1), not current, and count from 1 |
| Calendar.GridIsConsecutiveWeeks | src/restaurant-booking-form.jsx:40-95 | every cell is a real date, consecutive cells are consecutive days, and cell i falls on weekday i % 7, so the page is six Sunday-first weeks |
| Calendar.BuildCalendarDays | src/MultiStepBookingForm.jsx:39-94 | the three push loops, concatenated, produce exactly the page `CalendarGrid` |
| Calendar.PreviousMonthRun | src/MultiStepBookingForm.jsx:47-61 | the loop from first-1 down to 0 pushes the last `first` days of the previous month in ascending order |
| Calendar.CurrentMonthRun | src/MultiStepBookingForm.jsx:64-72 | the loop pushes days 1..daysInMonth of the shown month, marked current |
| Calendar.NextMonthRun | src/MultiStepBookingForm.jsx:75-91 | the loop pushes days 1..remainingDays of the next month, and nothing when none remain |
| Calendar.GridFromParts | src/MultiStepBookingForm.jsx:93 | the spread of the three runs is the page |
| Calendar.ShiftMonth | src/restaurant-booking-form.jsx:120-127 | `new Date(y, m ± 1, 1)` read back as (year, month) is the previous/next month with year wrap-around |
| Calendar.NavigationRoundTrip | src/restaurant-booking-form.jsx:120-127 | going forward one month then back (or back then forward) returns to the same page |
| Calendar.IsToday | src/MultiStepBookingForm.jsx:239-246 | a cell that has today's day, month and year is never a past date |
| Calendar.IsDisabled | src/MultiStepBookingForm.jsx:432 | a cell is disabled iff it is not in the shown month or its date is before today |
| Calendar.IsPastDate | src/MultiStepBookingForm.jsx:260-271 | a cell is past iff its day number is below today's; the time of day of `now` never matters |
| Calendar.PastMeansBeforeToday | src/restaurant-booking-form.jsx:226-254 | for real dates, past iff strictly before today in calendar order; isToday iff same day; today's cell is never past |
| Calendar.EnabledCells | src/MultiStepBookingForm.jsx:426-433 | a page cell is clickable iff it is a day of the shown month that is not before today |
| IsoDate.NatToString | src/MultiStepBookingForm.jsx:98-100 | `String(n)` gives decimal digits that read back as n, one digit exactly for n < 10, and no leading zero (it starts with '0' only for n = 0) |
| IsoDate.IntToString | src/MultiStepBookingForm.jsx:98 | `String(i)` puts a minus sign before the digits of a negative number |
| IsoDate.PadStart2 | src/MultiStepBookingForm.jsx:98-100 | `padStart(2, "0")` keeps the string as a suffix and pads it with zeros up to length 2 |
| IsoDate.FormatDateToIsoString | src/MultiStepBookingForm.jsx:97-101 | the written date is never empty |
| IsoDate.FormatDateShape | src/MultiStepBookingForm.jsx:97-101 | for a month in range and a day up to 99: the year as `String()` writes it, a dash, month+1 in two digits, a dash, the day in two digits |
| IsoDate.ParseIsoDate | src/restaurant-booking-form.jsx:239 | a string that parses has length 10 and dashes at 4 and 7, and its month is 1..12 and its day 1..31 |
| IsoDate.IsSelectedDate | src/MultiStepBookingForm.jsx:249-258 | a cell is selected iff a date is stored and it parses to the cell's (year, month+1, day); a selected cell has its month in 0..11 and its day in 1..31 |
| IsoDate.IsSelectedDateAsWritten | src/restaurant-booking-form.jsx:236-245 | as written, a cell can only be selected when a date is stored and parses |
| IsoDate.FormatParseRoundTrip | src/MultiStepBookingForm.jsx:96-101 | for four-digit years the cell is written as 10 characters with dashes at 4 and 7, and parsing it gives back (year, month+1, day) |
| IsoDate.SelectedAfterClick | src/MultiStepBookingForm.jsx:248-258 | after a click, exactly the cells with the clicked day, month and year are selected (field-wise reading) |
| IsoDate.SelectionShiftWestOfUtc | src/restaurant-booking-form.jsx:236-245 | as written (date-only string parsed as UTC, local fields read), the highlight is the day before the clicked one west of UTC and the clicked day otherwise |
| IsoDate.SelectionAgreesEastOfUtc | src/restaurant-booking-form.jsx:236-245 | at or east of UTC the rule as written and the field-wise rule agree on real dates |
| IsoDate.UtcParseCounterexample | src/MultiStepBookingForm.jsx:249-258 | at UTC-4 a click on 10 June 2025 highlights the 9th and not the 10th as written; the field-wise rule highlights the 10th |
| Slots.SpotsLabel | src/restaurant-booking-form.jsx:381-383 | the label is "1 spot left" iff one spot is left; 0 spots gives "0 spots left" |
| Slots.SpotsLabelMultiStep | src/MultiStepBookingForm.jsx:499-502 | the label is "1 spot left" iff one spot is left; 0 spots gives "0 spot left" |
| Slots.LabelsStartWithCount | src/restaurant-booking-form.jsx:381-383 | each label is the decimal count followed by the singular or plural ending its component picks |
| Slots.LabelsAgreeIff | src/MultiStepBookingForm.jsx:499-502 | the two components print the same label iff at least one spot is left ("0 spot left" against "0 spots left") |
| Slots.ShownLabels | src/MultiStepBookingForm.jsx:22-26 | for the hard-coded slots both components print "1 spot left", "1 spot left", "2 spots left" |
| Validation.DefaultFormDataIsBlank | src/MultiStepBookingForm.jsx:9-19 | the default record has every text field empty and guestCount = 1 |
| Validation.Apply | src/MultiStepBookingForm.jsx:155-160 | `{...formData, [name]: value}` sets exactly the named field and keeps every other field |
| Validation.MessageText | src/MultiStepBookingForm.jsx:188-211 | only the cleared entry has an empty (falsy) text; every validation message is non-empty |
| Validation.ClearError | src/MultiStepBookingForm.jsx:162-168 | blanking a truthy message keeps every key, leaves no error on that field and changes no other entry; with no error the map is unchanged |
| Validation.ClearErrorOnlyThatField | src/restaurant-booking-form.jsx:154-160 | after clearing f, a field has an error iff it had one before and is not f |
| Validation.Trim | src/MultiStepBookingForm.jsx:195 | `trim()` never lengthens the value, and what it keeps neither starts nor ends with white space |
| Validation.TrimRemovesOnlyOuterSpace | src/MultiStepBookingForm.jsx:195 | the trimmed value is a slice of the value with only white space before it and after it, so together with `Trim` it is exactly the value with its outer white space removed |
| Validation.IsBlank | src/MultiStepBookingForm.jsx:195-196 | `!value.trim()` holds iff every character is ECMAScript white space |
| Validation.EmailPatternMatches | src/MultiStepBookingForm.jsx:202 | the computed check holds iff somewhere in the value there is \S+ '@' \S+ '.' \S+ |
| Validation.EmailMatchSurvivesContext | src/MultiStepBookingForm.jsx:202 | the pattern is unanchored: a passing value still passes with any text before and after it |
| Validation.EmailAddressMatches | src/MultiStepBookingForm.jsx:202 | every local@domain.tld with non-empty white-space-free parts passes |
| Validation.EmailExamples | src/MultiStepBookingForm.jsx:202 | "a b@c.d" passes and "not-an-email" fails |
| Validation.EmailMatchIsNotBlank | src/MultiStepBookingForm.jsx:201-203 | a passing value is never blank, so "required" and "invalid" never both apply |
| Validation.StepErrors | src/MultiStepBookingForm.jsx:188-211 | the freshly built map never holds the cleared entry |
| Validation.StepErrorsAreErrors | src/restaurant-booking-form.jsx:180-198 | in a freshly built map, a key present means the field has an error |
| Validation.StepOneRules | src/MultiStepBookingForm.jsx:191-193 | step 1: a date error iff date == "", a time error iff time == "", with their messages, and no other key |
| Validation.StepTwoFields | src/MultiStepBookingForm.jsx:194-207 | step 2 checks only the customer-detail fields, never date or time |
| Validation.StepTwoFirstName | src/MultiStepBookingForm.jsx:195-196 | a first-name error iff the trimmed value is empty |
| Validation.StepTwoLastName | src/MultiStepBookingForm.jsx:197-198 | a last-name error iff the trimmed value is empty |
| Validation.StepTwoPhoneNumber | src/MultiStepBookingForm.jsx:199-200 | a phone-number error iff the trimmed value is empty |
| Validation.StepTwoAddress | src/MultiStepBookingForm.jsx:204 | an address error iff the trimmed value is empty |
| Validation.StepTwoEmail | src/MultiStepBookingForm.jsx:201-203 | an e-mail error iff the pattern fails; "required" when the value is blank, "invalid" otherwise |
| Validation.StepTwoGuestCount | src/MultiStepBookingForm.jsx:205-206 | a guest-count error iff guestCount < 1 |
| Validation.OtherStepsCheckNothing | src/MultiStepBookingForm.jsx:188-194 | any step other than 1 and 2 yields the empty map |
| Validation.ValidationPassesIff | src/MultiStepBookingForm.jsx:188-211 | the new map is empty iff every rule of the current step holds |
| Validation.StepOneIgnoresOtherEdits | src/restaurant-booking-form.jsx:147-152 | editing a field other than date and time never changes step 1's verdict |
| Validation.ComputeStepErrors | src/restaurant-booking-form.jsx:180-195 | the rule-by-rule assignments, starting from `{}`, build exactly `StepErrors` |
| MultiStepBooking.Wizard.constructor | src/MultiStepBookingForm.jsx:5-19 | initial state: step 1, no confirmation, empty errors, default record, the month of `now` |
| MultiStepBooking.Wizard.GoToPreviousMonth | src/MultiStepBookingForm.jsx:124-128 | the shown month moves back one, wrapping the year; formData and errors unchanged |
| MultiStepBooking.Wizard.GoToNextMonth | src/MultiStepBookingForm.jsx:131-135 | the shown month moves on one, wrapping the year; formData and errors unchanged |
| MultiStepBooking.Wizard.CalendarDays | src/MultiStepBookingForm.jsx:39-42 | getCalendarDays for the shown month is the page `CalendarGrid` |
| MultiStepBooking.Wizard.HandleDayClick | src/MultiStepBookingForm.jsx:138-152 | only `date` changes, to the cell's YYYY-MM-DD; only the date error is blanked; the clicked cell becomes the one selected cell |
| MultiStepBooking.Wizard.HandleChange | src/MultiStepBookingForm.jsx:155-169 | only the edited field changes and only its error is blanked |
| MultiStepBooking.Wizard.HandleTimeSelect | src/MultiStepBookingForm.jsx:172-185 | only `time` changes and only the time error is blanked |
| MultiStepBooking.Wizard.ValidateStep | src/MultiStepBookingForm.jsx:188-211 | errors are replaced by the current step's map; the result is true iff that map is empty |
| MultiStepBooking.Wizard.HandleNext | src/MultiStepBookingForm.jsx:214-218 | the step goes up by one iff validation passed (errors then empty), else it stays |
| MultiStepBooking.Wizard.HandleBack | src/MultiStepBookingForm.jsx:221-223 | the step goes down by one; formData and errors unchanged |
| MultiStepBooking.Wizard.HandleSubmit | src/MultiStepBookingForm.jsx:226-236 | the confirmation shows iff validation passed (or already showed); formData unchanged |
| MultiStepBooking.Wizard.MakeAnother | src/MultiStepBookingForm.jsx:335-349 | no confirmation, step 1, default record; errors untouched |
| MultiStepBooking.Wizard.ClickCell | src/MultiStepBookingForm.jsx:423-433 | a click on a disabled cell changes nothing; on any other cell it is handleDayClick |
| MultiStepBooking.Wizard.Available | src/MultiStepBookingForm.jsx:307-867 | the confirmation renders only the reset button; slots only once a date is chosen; Back and Submit only on step 2 |
| MultiStepBooking.Wizard.Dispatch | src/MultiStepBookingForm.jsx:276-867 | under every rendered control the step stays 1 or 2; on step 2 a date and a time are always set; the error map is empty while the confirmation shows; a new confirmation means the current record passes both step 1's and step 2's rules; reset gives step 1, the default record and an empty map; reaching step 2 means step 1 validated |
| MultiStepBooking.NextNeedsDateAndTime | src/MultiStepBookingForm.jsx:214-218 | passing step 1 means a date and a time are set |
| MultiStepBooking.SubmitNeedsDetails | src/MultiStepBookingForm.jsx:226-236 | passing step 2 means names, phone and address are not blank, the e-mail passes and guestCount >= 1 |
| MultiStepBooking.DateAndTimePassStepOne | src/MultiStepBookingForm.jsx:138-143 | clicking 10 June 2025 stores "2025-06-10"; with the 7:30 PM slot step 1 passes |
| MultiStepBooking.StepTwoTurnsOnEmail | src/MultiStepBookingForm.jsx:194-207 | with the other details filled, step 2 passes iff the e-mail passes; otherwise the e-mail is the only error, "Email is required" when it is blank and "invalid" when it is not |
| RestaurantBooking.BookingForm.constructor | src/restaurant-booking-form.jsx:5-20 | initial state: step 1, no confirmation, empty errors, default record, the month of `now` |
| RestaurantBooking.BookingForm.GoToPreviousMonth | src/restaurant-booking-form.jsx:120-122 | the shown month moves back one, wrapping the year; formData and errors unchanged |
| RestaurantBooking.BookingForm.GoToNextMonth | src/restaurant-booking-form.jsx:125-127 | the shown month moves on one, wrapping the year; formData and errors unchanged |
| RestaurantBooking.BookingForm.CalendarDays | src/restaurant-booking-form.jsx:40-43 | getCalendarDays for the shown month is the page `CalendarGrid` |
| RestaurantBooking.BookingForm.HandleDayClick | src/restaurant-booking-form.jsx:130-144 | only `date` changes, to the cell's YYYY-MM-DD; only the date error is blanked; the clicked cell becomes the one selected cell |
| RestaurantBooking.BookingForm.HandleChange | src/restaurant-booking-form.jsx:147-161 | only the edited field changes and only its error is blanked |
| RestaurantBooking.BookingForm.HandleTimeSelect | src/restaurant-booking-form.jsx:164-177 | only `time` changes and only the time error is blanked |
| RestaurantBooking.BookingForm.ValidateStep | src/restaurant-booking-form.jsx:180-198 | errors are replaced by the current step's map; the result is true iff that map is empty |
| RestaurantBooking.BookingForm.HandleNext | src/restaurant-booking-form.jsx:201-205 | the step goes up by one iff validation passed, else it stays |
| RestaurantBooking.BookingForm.HandleBack | src/restaurant-booking-form.jsx:208-210 | the step goes down by one; formData and errors unchanged |
| RestaurantBooking.BookingForm.HandleSubmit | src/restaurant-booking-form.jsx:213-223 | the confirmation shows iff validation passed (or already showed); on step 1 iff date and time are non-empty (or it already showed); formData unchanged |
| RestaurantBooking.BookingForm.MakeAnother | src/restaurant-booking-form.jsx:511-524 | no confirmation and the default record; step, shown month and errors untouched |
| RestaurantBooking.BookingForm.ClickCell | src/restaurant-booking-form.jsx:330-340 | a click on a disabled cell changes nothing; on any other cell it is handleDayClick; either way the time is kept and a chosen date stays chosen |
| RestaurantBooking.BookingForm.Available | src/restaurant-booking-form.jsx:365-494 | slots render only once a date is chosen; the customer inputs and Complete Booking only once a time is chosen; reset only with the confirmation |
| RestaurantBooking.BookingForm.Dispatch | src/restaurant-booking-form.jsx:259-533 | no control changes the step; a chosen time always comes with a chosen date; on step 1 every rendered Complete Booking click confirms with an empty error map |
| Validation.EditKeepsDateAndTime | src/MultiStepBookingForm.jsx:155-160 | an edit of any field other than date and time leaves the chosen date and time as they were |
| RestaurantBooking.SubmitNeedsOnlyDateAndTime | src/restaurant-booking-form.jsx:180-185 | on step 1 validation passes iff date and time are non-empty |
| RestaurantBooking.BlankDetailsAccepted | src/restaurant-booking-form.jsx:213-223 | a record with a date and a time and no customer details is accepted, though step 2 would reject it |

## Left out

- Rendering: JSX, CSS classes, layout, the step indicator, the policy texts, the map panel and its close button. These are presentation only.
- The `required` policy checkboxes of the two-step form (src/MultiStepBookingForm.jsx:767-846). The browser enforces them, not the component's code.
- MultiStepBooking.Wizard.Dispatch: `Submit` runs `handleSubmit` as if the browser let every submission through. In the source the step-2 `<form onSubmit>` (src/MultiStepBookingForm.jsx:524) also carries a `type="email"` input (623-628) and a `type="number" min="1"` input (711-716). The browser's constraint validation blocks the submit event for an e-mail such as "not-an-email" or "a b@c.d", or for a guest count of 0, so those never reach `validateStep`. The single-page form's button is `type="button"` outside any form, so it is not affected.
- `formatDateForDisplay` and `getMonthYearString`. They depend on the locale through `toLocaleDateString`.
- The clock. `new Date()` becomes an `Instant` parameter. Time zones and daylight-saving transitions are not modelled; only the UTC offset in the `isSelectedDate` analysis is.
- JavaScript `Date` maps years 0-99 to 1900-1999, and its range is bounded. The model uses proleptic Gregorian years directly.
- `guestCount` arrives from the input as a string and is compared with `< 1` by coercion. The model holds it as an integer.
- `console.log` in `handleSubmit` and `e.preventDefault()`. They have no effect on state.
- React batches state updates. Each handler updates `formData` and `errors`, which are different fields, so the model applies the updates in sequence.
- IsoDate.FormatParseRoundTrip: stated only for four-digit years. Outside 1000-9999 the string is not ISO `YYYY-MM-DD`, and how `new Date(string)` reads it is implementation-defined.
- IsoDate.SelectedAfterClick: stated only for four-digit years and in-range days, for the same reason.
- MultiStepBooking.Wizard.HandleDayClick: the selection clause is stated only for four-digit years, for the same reason.
- RestaurantBooking.BookingForm.HandleDayClick: the selection clause is stated only for four-digit years, for the same reason.
- IsoDate.ParseIsoDate: reads only the `YYYY-MM-DD` form the component writes. Other strings that `Date` accepts are not modelled.
- The e-mail sending component, the settings and customer-list screens, login, routing and the sidebar. These are outside the booking wizard: network I/O, simulated fetches and navigation.

## Findings

| source | as written | input that shows it | evidently intended | confidence | as-written member | corrected member |
|---|---|---|---|---|---|---|
| src/MultiStepBookingForm.jsx:249-258 | `new Date("YYYY-MM-DD")` is read as UTC midnight, but `getDate`/`getMonth`/`getFullYear` read local fields | a visitor at UTC-4 clicks 10 June 2025: the 9th is highlighted and the 10th is not | the clicked cell is the highlighted cell | high (not executed) | IsoDate.UtcParseCounterexample | IsoDate.SelectedAfterClick |
