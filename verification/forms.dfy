/**
 * The renewal-date rule of the two renewal forms: a proposed due date is
 * accepted only from today up to four weeks ahead.
 */
module Forms {
  import opened Wrappers
  import opened Dates

  /** How far ahead a librarian may move a due date. */
  const RenewalWindow: int := Weeks(4)

  /** The reasons a submitted renewal date is refused, with the message each one shows. */
  datatype RenewError =
    | RenewalInPast       // "Invalid date - renewal in past"
    | RenewalTooFarAhead  // "Invalid date - renewal more than 4 weeks ahead"
    | DateRequired        // "This field is required."
    | InvalidDate         // "Enter a valid date."

  /** The model form's due-date check: past dates and dates beyond four weeks are refused, anything else is returned unchanged. */
  function CleanDueBack(today: Date, data: Date): (r: Result<Date, RenewError>)
    ensures r.Success? <==> today <= data <= today + 28
    ensures r.Success? ==> r.value == data
    ensures r == Failure(RenewalInPast) <==> data < today
    ensures r == Failure(RenewalTooFarAhead) <==> data > today + 28
  {
    if data < today then Failure(RenewalInPast)
    else if data > today + RenewalWindow then Failure(RenewalTooFarAhead)
    else Success(data)
  }

  /**
   * The plain form's check, written out separately in the source with the
   * same two comparisons. Its field is required, so it only ever sees a date.
   */
  function CleanRenewalDate(today: Date, data: Date): (r: Result<Date, RenewError>)
    ensures r.Success? <==> today <= data <= today + 28
    ensures r.Success? ==> r.value == data
    ensures r == Failure(RenewalInPast) <==> data < today
    ensures r == Failure(RenewalTooFarAhead) <==> data > today + 28
  {
    if data < today then Failure(RenewalInPast)
    else if data > today + RenewalWindow then Failure(RenewalTooFarAhead)
    else Success(data)
  }

  /** Both forms apply the same rule to every date on every day. */
  lemma SameRenewalRule(today: Date, data: Date)
    ensures CleanRenewalDate(today, data) == CleanDueBack(today, data)
  {
  }

  /** Every date gets exactly one of three outcomes: accepted, in the past, or too far ahead. */
  lemma ExactlyOneOutcome(today: Date, data: Date)
    ensures var r := CleanDueBack(today, data);
            r.Success? || r == Failure(RenewalInPast) || r == Failure(RenewalTooFarAhead)
  {
  }

  /** The window's edges: today and today + 28 are accepted, today - 1 and today + 29 are not. */
  lemma WindowBoundaries(today: Date)
    ensures CleanDueBack(today, today) == Success(today)
    ensures CleanDueBack(today, today + 28) == Success(today + 28)
    ensures CleanDueBack(today, today + 29) == Failure(RenewalTooFarAhead)
    ensures CleanDueBack(today, today - 1) == Failure(RenewalInPast)
  {
  }

  /** The rule depends only on how many days ahead the date is: shifting both dates by the same amount gives the same verdict. */
  lemma RuleIsShiftInvariant(today: Date, data: Date, shift: int)
    ensures CleanDueBack(today + shift, data + shift).Success? == CleanDueBack(today, data).Success?
    ensures CleanDueBack(today + shift, data + shift).Failure? ==>
              CleanDueBack(today + shift, data + shift).error == CleanDueBack(today, data).error
  {
  }

  /** The date a librarian is offered when the renewal page is first opened: three weeks from today. */
  function ProposedRenewalDate(today: Date): (d: Date)
    ensures CleanDueBack(today, d).Success?
    ensures today < d < today + 28
    ensures d == today + 21
  {
    today + Weeks(3)
  }

  /** What the browser submits for the due-date field. */
  datatype DateInput =
    | Blank               // the field was left empty
    | Malformed           // text that does not parse as a date
    | Entered(day: Date)  // a well-formed date

  /** The result of validating the renewal form, including an exception escaping the validator. */
  datatype Validation =
    | Valid(day: Date)
    | Invalid(error: RenewError)
    | Crashed

  /**
   * Validation of the renewal model form as the source has it. The form
   * field inherits `blank=True` from the model field and is therefore
   * optional: an empty submission reaches the due-date check as `None`, and
   * comparing `None` with a date raises a type error. A malformed date is
   * refused by the date field before the check runs.
   */
  function ValidateModelFormAsWritten(today: Date, input: DateInput): (r: Validation)
    ensures r == Crashed <==> input.Blank?
    ensures r == Invalid(InvalidDate) <==> input.Malformed?
    ensures r.Valid? <==> input.Entered? && today <= input.day <= today + 28
    ensures r.Valid? ==> r.day == input.day
    ensures r == Invalid(RenewalInPast) <==> input.Entered? && input.day < today
    ensures r == Invalid(RenewalTooFarAhead) <==> input.Entered? && input.day > today + 28
  {
    match input
    case Blank => Crashed
    case Malformed => Invalid(InvalidDate)
    case Entered(d) =>
      match CleanDueBack(today, d)
      case Success(v) => Valid(v)
      case Failure(e) => Invalid(e)
  }

  /** An empty submission makes the as-written validation crash instead of reporting an error. */
  lemma BlankSubmissionCrashes(today: Date)
    ensures ValidateModelFormAsWritten(today, Blank) == Crashed
  {
  }

  /**
   * Validation of the renewal model form as evidently intended: an empty
   * field is refused like any other unusable date instead of crashing.
   */
  function ValidateModelForm(today: Date, input: DateInput): (r: Result<Date, RenewError>)
    ensures r.Success? <==> input.Entered? && today <= input.day <= today + 28
    ensures r.Success? ==> r.value == input.day
    ensures input.Blank? <==> r == Failure(DateRequired)
    ensures input.Malformed? <==> r == Failure(InvalidDate)
    ensures input.Entered? ==> r == CleanDueBack(today, input.day)
  {
    match input
    case Blank => Failure(DateRequired)
    case Malformed => Failure(InvalidDate)
    case Entered(d) => CleanDueBack(today, d)
  }

  /** The intended validation never crashes and agrees with the source on every non-empty submission. */
  lemma ValidateModelFormAgrees(today: Date, input: DateInput)
    ensures input != Blank ==>
              ValidateModelFormAsWritten(today, input) ==
                (match ValidateModelForm(today, input)
                 case Success(v) => Valid(v)
                 case Failure(e) => Invalid(e))
  {
  }
}
