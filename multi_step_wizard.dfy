// The two-step booking wizard (MultiStepBookingForm): step 1 picks a date
// on the month page and a time slot, step 2 takes the customer details,
// and a successful submit shows a confirmation with a reset button.

module MultiStepBooking {
  import opened Validation
  import Calendar
  import IsoDate
  import Slots

  /** What the rendered page lets the visitor do. */
  datatype Action =
    | PreviousMonth
    | NextMonth
    | ClickDay(index: int)
    | SelectTime(slot: int)
    | Next
    | Change(edit: Edit)
    | Back
    | Submit
    | MakeAnotherBooking

  /**
   * The component's state. `currentMonth` is a Date of which only the year
   * and month are ever read, so it is kept as those two numbers.
   */
  class Wizard {
    var currentStep: int
    var showSuccess: bool
    var errors: Errors
    var formData: FormData
    var viewYear: int
    var viewMonth: int

    /** The shown month is a real month (0 = January). */
    ghost predicate Valid()
      reads this
    {
      0 <= viewMonth < 12
    }

    /** The first render: step 1, no errors, the default record, the month of `now`. */
    constructor (now: Calendar.Instant)
      requires now.Valid()
      ensures Valid()
      ensures currentStep == 1 && !showSuccess && errors == map[] && formData == DefaultFormData
      ensures viewYear == now.year && viewMonth == now.month
    {
      currentStep := 1;
      showSuccess := false;
      errors := map[];
      formData := DefaultFormData;
      viewYear := now.year;
      viewMonth := now.month;
    }

    /** goToPreviousMonth: the page moves back one month, wrapping January to December of the year before. */
    method GoToPreviousMonth()
      requires Valid()
      modifies this`viewYear, this`viewMonth
      ensures Valid()
      ensures (viewYear, viewMonth) == Calendar.PreviousMonthOf(old(viewYear), old(viewMonth))
      ensures formData == old(formData) && errors == old(errors)
    {
      var (y, m) := Calendar.ShiftMonth(viewYear, viewMonth, -1);
      viewYear, viewMonth := y, m;
    }

    /** goToNextMonth: the page moves on one month, wrapping December to January of the next year. */
    method GoToNextMonth()
      requires Valid()
      modifies this`viewYear, this`viewMonth
      ensures Valid()
      ensures (viewYear, viewMonth) == Calendar.NextMonthOf(old(viewYear), old(viewMonth))
      ensures formData == old(formData) && errors == old(errors)
    {
      var (y, m) := Calendar.ShiftMonth(viewYear, viewMonth, 1);
      viewYear, viewMonth := y, m;
    }

    /** getCalendarDays for the shown month. */
    method CalendarDays() returns (days: seq<Calendar.CalendarDay>)
      requires Valid()
      ensures days == Calendar.CalendarGrid(viewYear, viewMonth)
    {
      days := Calendar.BuildCalendarDays(viewYear, viewMonth);
    }

    /**
     * handleDayClick: stores the cell as YYYY-MM-DD and blanks a date error;
     * nothing else changes. For a four-digit year the clicked cell is then
     * the one and only selected cell.
     */
    method HandleDayClick(day: Calendar.CalendarDay)
      modifies this`formData, this`errors
      ensures formData == Apply(old(formData), SetText(Date, IsoDate.FormatDateToIsoString(day.year, day.month, day.day)))
      ensures errors == ClearError(old(errors), Date)
      ensures 1000 <= day.year <= 9999 && 0 <= day.month < 12 && 1 <= day.day <= 31 ==>
                IsoDate.SelectsExactly(formData.date, day)
    {
      var isoDate := IsoDate.FormatDateToIsoString(day.year, day.month, day.day);
      if 1000 <= day.year <= 9999 && 0 <= day.month < 12 && 1 <= day.day <= 31 {
        IsoDate.OnlyClickedSelected(day);
      }
      formData := formData.(date := isoDate);
      errors := ClearError(errors, Date);
    }

    /** handleChange: one field takes the input's value and that field's error is blanked; nothing else changes. */
    method HandleChange(edit: Edit)
      modifies this`formData, this`errors
      ensures formData == Apply(old(formData), edit)
      ensures errors == ClearError(old(errors), FieldOf(edit))
    {
      formData := Apply(formData, edit);
      var name := FieldOf(edit);
      if HasError(errors, name) {
        errors := errors[name := Cleared];
      }
    }

    /** handleTimeSelect: stores the slot's time and blanks a time error; nothing else changes. */
    method HandleTimeSelect(time: string)
      modifies this`formData, this`errors
      ensures formData == Apply(old(formData), SetText(Time, time))
      ensures errors == ClearError(old(errors), Time)
    {
      formData := formData.(time := time);
      if HasError(errors, Time) {
        errors := errors[Time := Cleared];
      }
    }

    /** validateStep: replaces the whole error map with the current step's and reports whether it is empty. */
    method ValidateStep() returns (ok: bool)
      modifies this`errors
      ensures errors == StepErrors(currentStep, formData)
      ensures ok <==> errors == map[]
    {
      var newErrors := ComputeStepErrors(currentStep, formData);
      errors := newErrors;
      ok := |newErrors| == 0;
    }

    /** handleNext: moves on one step only when the current step validates. */
    method HandleNext()
      modifies this`errors, this`currentStep
      ensures errors == StepErrors(old(currentStep), formData)
      ensures currentStep == if errors == map[] then old(currentStep) + 1 else old(currentStep)
    {
      var ok := ValidateStep();
      if ok {
        currentStep := currentStep + 1;
      }
    }

    /** handleBack: goes back one step without validating; the record and the errors stay as they are. */
    method HandleBack()
      modifies this`currentStep
      ensures currentStep == old(currentStep) - 1
      ensures formData == old(formData) && errors == old(errors)
    {
      currentStep := currentStep - 1;
    }

    /** handleSubmit: validates the current step and shows the confirmation when it passes; the record is kept. */
    method HandleSubmit()
      modifies this`errors, this`showSuccess
      ensures errors == StepErrors(currentStep, formData)
      ensures showSuccess == (old(showSuccess) || errors == map[])
      ensures formData == old(formData)
    {
      var ok := ValidateStep();
      if ok {
        showSuccess := true;
      }
    }

    /** The confirmation's reset button: back to step 1 with the default record; the error map is left as it was. */
    method MakeAnother()
      modifies this`showSuccess, this`currentStep, this`formData
      ensures !showSuccess && currentStep == 1 && formData == DefaultFormData
      ensures errors == old(errors)
    {
      showSuccess := false;
      currentStep := 1;
      formData := DefaultFormData;
    }

    /** A click on cell `index` of the page: a disabled cell ignores it, any other cell is selected. */
    method ClickCell(index: int, now: Calendar.Instant)
      requires Valid() && 0 <= index < Calendar.GridSize
      modifies this`formData, this`errors
      ensures var cell := Calendar.CalendarGrid(viewYear, viewMonth)[index];
        if Calendar.IsDisabled(cell, now) then formData == old(formData) && errors == old(errors)
        else formData == Apply(old(formData), SetText(Date, IsoDate.FormatDateToIsoString(cell.year, cell.month, cell.day)))
             && errors == ClearError(old(errors), Date)
    {
      var days := CalendarDays();
      var cell := days[index];
      if !Calendar.IsDisabled(cell, now) {
        HandleDayClick(cell);
      }
    }

    /**
     * The controls the page renders: the confirmation shows only its reset
     * button, step 1 the calendar, the slots (once a date is chosen) and
     * Next, step 2 the customer inputs, Back and Submit.
     */
    function Available(a: Action): (shown: bool)
      reads this
      ensures shown ==> (a.MakeAnotherBooking? <==> showSuccess)
      ensures shown && a.SelectTime? ==> currentStep == 1 && formData.date != ""
      ensures shown && (a.Back? || a.Submit?) ==> currentStep == 2
    {
      if showSuccess then a.MakeAnotherBooking?
      else if currentStep == 1 then
        match a
        case PreviousMonth => true
        case NextMonth => true
        case ClickDay(i) => 0 <= i < Calendar.GridSize
        case SelectTime(k) => formData.date != "" && 0 <= k < |Slots.TimeSlots|
        case Next => true
        case _ => false
      else if currentStep == 2 then
        match a
        case Change(e) => FieldOf(e) != Date && FieldOf(e) != Time
        case Back => true
        case Submit => true
        case _ => false
      else false
    }

    /**
     * One user action on the rendered page. Whatever the visitor does, the
     * wizard stays on step 1 or 2, the confirmation only appears after step 2
     * validated, and the success view only leads back to step 1. While the
     * confirmation shows the error map is empty, so the reset button, which
     * leaves the map alone, always returns to an empty map.
     */
    method Dispatch(a: Action, now: Calendar.Instant)
      requires Valid() && (currentStep == 1 || currentStep == 2) && Available(a)
      requires showSuccess ==> errors == map[]
      requires currentStep == 2 ==> formData.date != "" && formData.time != ""
      modifies this
      ensures Valid() && (currentStep == 1 || currentStep == 2)
      ensures showSuccess ==> errors == map[]
      ensures currentStep == 2 ==> formData.date != "" && formData.time != ""
      ensures showSuccess && !old(showSuccess) ==>
                old(currentStep) == 2 && currentStep == 2 && StepErrors(2, formData) == map[]
      ensures showSuccess && !old(showSuccess) ==> StepErrors(1, formData) == map[]
      ensures old(showSuccess) ==>
                !showSuccess && currentStep == 1 && formData == DefaultFormData && errors == map[]
      ensures currentStep == 2 && old(currentStep) == 1 ==> errors == map[] && StepErrors(1, formData) == map[]
    {
      match a {
        case PreviousMonth => GoToPreviousMonth();
        case NextMonth => GoToNextMonth();
        case ClickDay(i) => ClickCell(i, now);
        case SelectTime(k) => HandleTimeSelect(Slots.TimeSlots[k].time);
        case Next =>
          HandleNext();
          if currentStep == 2 {
            NextNeedsDateAndTime(formData);
          }
        case Change(e) =>
          EditKeepsDateAndTime(formData, e);
          HandleChange(e);
        case Back => HandleBack();
        case Submit => HandleSubmit();
        case MakeAnotherBooking => MakeAnother();
      }
      ValidationPassesIff(1, formData);
    }
  }

  /**
   * Reaching step 2 means step 1 had a date and a time: the one direction of
   * ValidationPassesIff(1, d) that `Dispatch` needs after Next.
   */
  lemma NextNeedsDateAndTime(d: FormData)
    requires StepErrors(1, d) == map[]
    ensures d.date != "" && d.time != ""
  {
    ValidationPassesIff(1, d);
  }

  /**
   * The confirmation appears only for details that pass every step-2 rule:
   * the one direction of ValidationPassesIff(2, d), spelled out field by
   * field as the Submit handler's guarantee.
   */
  lemma SubmitNeedsDetails(d: FormData)
    requires StepErrors(2, d) == map[]
    ensures !AllSpace(d.firstName) && !AllSpace(d.lastName) && !AllSpace(d.phoneNumber) && !AllSpace(d.address)
    ensures EmailPatternMatches(d.email) && d.guestCount >= 1
  {
    ValidationPassesIff(2, d);
  }

  /** A walk through step 1: clicking 10 June 2025 stores "2025-06-10", and with the 7:30 PM slot step 1 passes. */
  lemma DateAndTimePassStepOne()
    ensures var picked := DefaultFormData.(date := IsoDate.FormatDateToIsoString(2025, 5, 10), time := Slots.TimeSlots[1].time);
            picked.date == "2025-06-10" && picked.time == "7:30 PM" && StepErrors(1, picked) == map[]
  {
    var picked := DefaultFormData.(date := IsoDate.FormatDateToIsoString(2025, 5, 10), time := Slots.TimeSlots[1].time);
    assert IsoDate.NatToString(2025) == "2025";
    ValidationPassesIff(1, picked);
  }

  /** Customer details used by the walk-through of step 2. */
  function FilledDetails(d: FormData, email: string): FormData {
    d.(firstName := "Ann", lastName := "Lee", phoneNumber := "555-0100",
       email := email, address := "1 Main St", guestCount := 2)
  }

  /**
   * A walk through step 2: with the names, phone number, address and guest
   * count filled in, step 2 passes exactly when the e-mail check does, and
   * otherwise fails on the e-mail alone: "required" for a blank value,
   * "invalid" for a non-blank value such as "not-an-email".
   */
  lemma StepTwoTurnsOnEmail(d: FormData, email: string)
    ensures EmailPatternMatches(email) ==> StepErrors(2, FilledDetails(d, email)) == map[]
    ensures !EmailPatternMatches(email) && !AllSpace(email) ==>
              StepErrors(2, FilledDetails(d, email)) == map[Email := EmailInvalid]
    ensures AllSpace(email) ==> StepErrors(2, FilledDetails(d, email)) == map[Email := EmailRequired]
  {
    var filled := FilledDetails(d, email);
    assert !AllSpace(filled.firstName) by { assert !IsSpace(filled.firstName[0]); }
    assert !AllSpace(filled.lastName) by { assert !IsSpace(filled.lastName[0]); }
    assert !AllSpace(filled.phoneNumber) by { assert !IsSpace(filled.phoneNumber[0]); }
    assert !AllSpace(filled.address) by { assert !IsSpace(filled.address[0]); }
    ValidationPassesIff(2, filled);
    if !EmailPatternMatches(email) {
      StepTwoFields(filled);
      StepTwoFirstName(filled);
      StepTwoLastName(filled);
      StepTwoPhoneNumber(filled);
      StepTwoAddress(filled);
      StepTwoEmail(filled);
      StepTwoGuestCount(filled);
    }
  }
}
