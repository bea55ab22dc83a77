/**
 * The renewal form's date check (`RenewBookForm.clean_renewal_date`): a new
 * due date must lie between today and four weeks from today, both included.
 */
module Renewal {

  import opened Wrappers
  import opened Dates
  import opened BookInstances

  /** `timedelta(weeks=4)`, in days. */
  const RenewalWindowDays: nat := 4 * 7

  /** Why a renewal date is refused. */
  datatype RenewalError = InPast | TooFarAhead

  /** The validation message shown for each refusal. */
  function Message(e: RenewalError): (m: string)
    ensures "Invalid date - renewal " <= m
    ensures e == InPast ==> m[|"Invalid date - renewal "|..] == "in past"
    ensures e == TooFarAhead ==> m[|"Invalid date - renewal "|..] == "more than 4 weeks ahead"
  {
    match e
    case InPast => "Invalid date - renewal in past"
    case TooFarAhead => "Invalid date - renewal more than 4 weeks ahead"
  }

  /** Each reason has its own message, so the two refusals can be told apart. */
  lemma MessagesDistinct(e1: RenewalError, e2: RenewalError)
    ensures Message(e1) == Message(e2) <==> e1 == e2
  {
  }

  /**
   * What the check does with a candidate date: return it, raise a
   * `ValidationError` with a reason, or raise `OverflowError` because
   * today + 4 weeks is past the last representable date.
   */
  datatype RenewalOutcome = Accept(date: Date) | Reject(reason: RenewalError) | DateOverflow

  /** `clean_renewal_date`, with today's date passed in. */
  function CleanRenewalDate(candidate: Date, today: Date): (r: RenewalOutcome)
    ensures r.Accept? ==> r.date == candidate
    ensures r.Accept? <==> today <= candidate <= today + RenewalWindowDays <= MaxOrdinal
    ensures r == Reject(InPast) <==> candidate < today
    ensures r == Reject(TooFarAhead) <==> today <= candidate && today + RenewalWindowDays < candidate
    ensures r == DateOverflow <==> today <= candidate && MaxOrdinal < today + RenewalWindowDays
  {
    if candidate < today then Reject(InPast)
    else
      match AddDays(today, RenewalWindowDays)
      case None => DateOverflow
      case Some(latest) =>
        if candidate > latest then Reject(TooFarAhead)
        else Accept(candidate)
  }

  /** Away from the end of the calendar the check never overflows: it accepts exactly the window [today, today + 28]. */
  lemma AcceptsExactlyTheWindow(candidate: Date, today: Date)
    requires today + RenewalWindowDays <= MaxOrdinal
    ensures CleanRenewalDate(candidate, today) == (
      if candidate < today then Reject(InPast)
      else if candidate > today + RenewalWindowDays then Reject(TooFarAhead)
      else Accept(candidate))
  {
  }

  /** The form's own cases: yesterday and four weeks plus one day are refused, today and four weeks are accepted. */
  lemma FormBoundaryCases(today: Date)
    requires 1 < today && today + RenewalWindowDays + 1 <= MaxOrdinal
    ensures CleanRenewalDate(today - 1, today) == Reject(InPast)
    ensures CleanRenewalDate(today + RenewalWindowDays + 1, today) == Reject(TooFarAhead)
    ensures CleanRenewalDate(today, today) == Accept(today)
    ensures CleanRenewalDate(today + RenewalWindowDays, today) == Accept(today + RenewalWindowDays)
  {
  }

  /** Checking an accepted date again on the same day accepts it again. */
  lemma RecheckAccepts(candidate: Date, today: Date)
    requires CleanRenewalDate(candidate, today).Accept?
    ensures var d := CleanRenewalDate(candidate, today).date;
      CleanRenewalDate(d, today) == Accept(d)
  {
  }

  /**
   * Storing an accepted date as the copy's due date: the copy is not overdue
   * on any day up to that date and is overdue on every day after it.
   */
  lemma RenewedCopyOverdueAfterDueDate(b: BookInstance, candidate: Date, today: Date, day: Date)
    requires CleanRenewalDate(candidate, today).Accept?
    ensures var renewed := b.(dueBack := Some(CleanRenewalDate(candidate, today).date));
      IsOverdue(renewed, day) <==> day > candidate
  {
  }

  /** A copy renewed today is not overdue today. */
  lemma RenewedCopyNotOverdueToday(b: BookInstance, candidate: Date, today: Date)
    requires CleanRenewalDate(candidate, today).Accept?
    ensures !IsOverdue(b.(dueBack := Some(candidate)), today)
  {
  }
}
