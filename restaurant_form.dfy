// The single-page restaurant booking form (RestaurantBookingForm): the
// month page, the time slots and the customer details are all on one page,
// with a "Complete Booking" button and a confirmation panel below.

module RestaurantBooking {
  import opened Validation
  import Calendar
  import IsoDate
  import Slots

  /** What the page lets the visitor do. */
  datatype Action =
    | PreviousMonth
    | NextMonth
    | ClickDay(index: int)
    | SelectTime(slot: int)
    | Change(edit: Edit)
    | CompleteBooking
    | MakeAnotherReservation

  /** The inputs the page has: the names, phone, e-mail, guest count and notes (no address field). */
  predicate IsInput(f: Field) {
    f == FirstName || f == LastName || f == PhoneNumber || f == Email || f == GuestCount || f == FoodAllergies
  }

  /**
   * The component's state. `currentMonth` is a Date of which only the year
   * and month are ever read, so it is kept as those two numbers.
   */
  class BookingForm {
    var currentStep: int
    var showSuccess: bool
    var errors: Errors
    var formData: FormData
    var viewYear: int
    var viewMonth: int

    /** The shown month is a real month (0 = January). */
    ghost predicate Valid()
      reads this
    {
      0 <= viewMonth < 12
    }

    /** The first render: step 1, no errors, the default record, the month of `now`. */
    constructor (now: Calendar.Instant)
      requires now.Valid()
      ensures Valid()
      ensures currentStep == 1 && !showSuccess && errors == map[] && formData == DefaultFormData
      ensures viewYear == now.year && viewMonth == now.month
    {
      currentStep := 1;
      showSuccess := false;
      errors := map[];
      formData := DefaultFormData;
      viewYear := now.year;
      viewMonth := now.month;
    }

    /** goToPreviousMonth: the page moves back one month, wrapping January to December of the year before. */
    method GoToPreviousMonth()
      requires Valid()
      modifies this`viewYear, this`viewMonth
      ensures Valid()
      ensures (viewYear, viewMonth) == Calendar.PreviousMonthOf(old(viewYear), old(viewMonth))
      ensures formData == old(formData) && errors == old(errors)
    {
      var (y, m) := Calendar.ShiftMonth(viewYear, viewMonth, -1);
      viewYear, viewMonth := y, m;
    }

    /** goToNextMonth: the page moves on one month, wrapping December to January of the next year. */
    method GoToNextMonth()
      requires Valid()
      modifies this`viewYear, this`viewMonth
      ensures Valid()
      ensures (viewYear, viewMonth) == Calendar.NextMonthOf(old(viewYear), old(viewMonth))
      ensures formData == old(formData) && errors == old(errors)
    {
      var (y, m) := Calendar.ShiftMonth(viewYear, viewMonth, 1);
      viewYear, viewMonth := y, m;
    }

    /** getCalendarDays for the shown month. */
    method CalendarDays() returns (days: seq<Calendar.CalendarDay>)
      requires Valid()
      ensures days == Calendar.CalendarGrid(viewYear, viewMonth)
    {
      days := Calendar.BuildCalendarDays(viewYear, viewMonth);
    }

    /**
     * handleDayClick: stores the cell as YYYY-MM-DD and blanks a date error;
     * nothing else changes. For a four-digit year the clicked cell is then
     * the one and only selected cell.
     */
    method HandleDayClick(day: Calendar.CalendarDay)
      modifies this`formData, this`errors
      ensures formData == Apply(old(formData), SetText(Date, IsoDate.FormatDateToIsoString(day.year, day.month, day.day)))
      ensures errors == ClearError(old(errors), Date)
      ensures 1000 <= day.year <= 9999 && 0 <= day.month < 12 && 1 <= day.day <= 31 ==>
                IsoDate.SelectsExactly(formData.date, day)
    {
      var isoDate := IsoDate.FormatDateToIsoString(day.year, day.month, day.day);
      if 1000 <= day.year <= 9999 && 0 <= day.month < 12 && 1 <= day.day <= 31 {
        IsoDate.OnlyClickedSelected(day);
      }
      formData := formData.(date := isoDate);
      errors := ClearError(errors, Date);
    }

    /** handleChange: one field takes the input's value and that field's error is blanked; nothing else changes. */
    method HandleChange(edit: Edit)
      modifies this`formData, this`errors
      ensures formData == Apply(old(formData), edit)
      ensures errors == ClearError(old(errors), FieldOf(edit))
    {
      formData := Apply(formData, edit);
      var name := FieldOf(edit);
      if HasError(errors, name) {
        errors := errors[name := Cleared];
      }
    }

    /** handleTimeSelect: stores the slot's time and blanks a time error; nothing else changes. */
    method HandleTimeSelect(time: string)
      modifies this`formData, this`errors
      ensures formData == Apply(old(formData), SetText(Time, time))
      ensures errors == ClearError(old(errors), Time)
    {
      formData := formData.(time := time);
      if HasError(errors, Time) {
        errors := errors[Time := Cleared];
      }
    }

    /** validateStep: replaces the whole error map with the current step's and reports whether it is empty. */
    method ValidateStep() returns (ok: bool)
      modifies this`errors
      ensures errors == StepErrors(currentStep, formData)
      ensures ok <==> errors == map[]
    {
      var newErrors := ComputeStepErrors(currentStep, formData);
      errors := newErrors;
      ok := |newErrors| == 0;
    }

    /** handleNext: moves on one step only when the current step validates. */
    method HandleNext()
      modifies this`errors, this`currentStep
      ensures errors == StepErrors(old(currentStep), formData)
      ensures currentStep == if errors == map[] then old(currentStep) + 1 else old(currentStep)
    {
      var ok := ValidateStep();
      if ok {
        currentStep := currentStep + 1;
      }
    }

    /** handleBack: goes back one step without validating; the record and the errors stay as they are. */
    method HandleBack()
      modifies this`currentStep
      ensures currentStep == old(currentStep) - 1
      ensures formData == old(formData) && errors == old(errors)
    {
      currentStep := currentStep - 1;
    }

    /**
     * handleSubmit: validates the current step and shows the confirmation
     * when it passes; the record is kept. On step 1, the only step this form
     * is ever on, that means: exactly when a date and a time are chosen,
     * whatever the customer details say.
     */
    method HandleSubmit()
      modifies this`errors, this`showSuccess
      ensures errors == StepErrors(currentStep, formData)
      ensures showSuccess == (old(showSuccess) || errors == map[])
      ensures currentStep == 1 ==> (showSuccess <==> old(showSuccess) || (formData.date != "" && formData.time != ""))
      ensures formData == old(formData)
    {
      var ok := ValidateStep();
      if ok {
        showSuccess := true;
      }
      ValidationPassesIff(currentStep, formData);
    }

    /** The confirmation's reset button: hides the confirmation and restores the default record; the step, the shown month and the error map are left as they were. */
    method MakeAnother()
      modifies this`showSuccess, this`formData
      ensures !showSuccess && formData == DefaultFormData
      ensures currentStep == old(currentStep) && errors == old(errors)
      ensures (viewYear, viewMonth) == old((viewYear, viewMonth))
    {
      showSuccess := false;
      formData := DefaultFormData;
    }

    /** A click on cell `index` of the page: a disabled cell ignores it, any other cell is selected. */
    method ClickCell(index: int, now: Calendar.Instant)
      requires Valid() && 0 <= index < Calendar.GridSize
      modifies this`formData, this`errors
      ensures var cell := Calendar.CalendarGrid(viewYear, viewMonth)[index];
        if Calendar.IsDisabled(cell, now) then formData == old(formData) && errors == old(errors)
        else formData == Apply(old(formData), SetText(Date, IsoDate.FormatDateToIsoString(cell.year, cell.month, cell.day)))
             && errors == ClearError(old(errors), Date)
      ensures formData.time == old(formData.time) && (old(formData.date) != "" ==> formData.date != "")
    {
      var days := CalendarDays();
      var cell := days[index];
      if !Calendar.IsDisabled(cell, now) {
        HandleDayClick(cell);
      }
    }

    /**
     * The controls the page renders: the slots appear once a date is chosen,
     * the customer inputs and the Complete Booking button once a time is
     * chosen, the reset button with the confirmation.
     */
    function Available(a: Action): (shown: bool)
      reads this
      ensures shown && a.SelectTime? ==> formData.date != ""
      ensures shown && (a.Change? || a.CompleteBooking?) ==> formData.time != ""
      ensures shown && a.MakeAnotherReservation? ==> showSuccess
    {
      match a
      case PreviousMonth => true
      case NextMonth => true
      case ClickDay(i) => 0 <= i < Calendar.GridSize
      case SelectTime(k) => formData.date != "" && 0 <= k < |Slots.TimeSlots|
      case Change(e) => formData.time != "" && IsInput(FieldOf(e))
      case CompleteBooking => formData.time != ""
      case MakeAnotherReservation => showSuccess
    }

    /**
     * One user action on the page. No control calls handleNext or
     * handleBack, so the step never changes. A time can only be chosen once
     * a date is, so a chosen time always comes with a date, and every
     * Complete Booking click the page renders confirms the booking.
     */
    method Dispatch(a: Action, now: Calendar.Instant)
      requires Valid() && Available(a)
      requires formData.time != "" ==> formData.date != ""
      modifies this
      ensures Valid()
      ensures currentStep == old(currentStep)
      ensures formData.time != "" ==> formData.date != ""
      ensures currentStep == 1 && showSuccess && !old(showSuccess) ==> formData.date != "" && formData.time != ""
      ensures currentStep == 1 && a.CompleteBooking? ==> showSuccess && errors == map[]
    {
      match a
      case PreviousMonth => GoToPreviousMonth();
      case NextMonth => GoToNextMonth();
      case ClickDay(i) =>
        ClickCell(i, now);
      case SelectTime(k) => HandleTimeSelect(Slots.TimeSlots[k].time);
      case Change(e) =>
        EditKeepsDateAndTime(formData, e);
        HandleChange(e);
      case CompleteBooking =>
        SubmitNeedsOnlyDateAndTime(formData);
        HandleSubmit();
      case MakeAnotherReservation => MakeAnother();
    }
  }

  /**
   * ValidationPassesIff(1, d) with the rules written out, as `Dispatch` and
   * `BlankDetailsAccepted` use it: on step 1 a booking goes through exactly
   * when a date and a time are chosen; the customer details play no part.
   */
  lemma SubmitNeedsOnlyDateAndTime(d: FormData)
    ensures StepErrors(1, d) == map[] <==> d.date != "" && d.time != ""
  {
    ValidationPassesIff(1, d);
  }

  /**
   * A record with a date and a time but no customer details at all is
   * accepted here, while the step-2 rules would reject its blank first name.
   */
  lemma BlankDetailsAccepted()
    ensures var d := DefaultFormData.(date := "2025-06-10", time := "5:00 PM");
            StepErrors(1, d) == map[] && FirstName in StepErrors(2, d)
  {
    var d := DefaultFormData.(date := "2025-06-10", time := "5:00 PM");
    SubmitNeedsOnlyDateAndTime(d);
    StepTwoFirstName(d);
  }
}
