/**
 Pieces the form pages share: JavaScript truthiness of optional strings, the
 "trimmed or omitted" rule for optional fields, the mileage check of the two
 add-service dialogs, the request body they send and the close guard of their
 dialogs.
 */
module Forms {
  import opened Wrappers
  import opened JsText
  import opened JsNumber

  /** A `string | null | undefined` that is truthy: present and non-empty. */
  predicate Present(o: Option<string>) {
    o.Some? && o.value != ""
  }

  /** `v.trim() ? v.trim() : undefined`: an optional field is sent trimmed or not at all. */
  function OptionalTrimmed(s: string): (r: Option<string>)
    ensures r.None? <==> IsBlank(s)
    ensures r.Some? ==> r.value != [] && IsTrimmed(r.value) && r.value == Trim(s)
  {
    var t := Trim(s);
    if t != [] then Some(t) else None
  }

  /** A value that was sent comes back unchanged when it is entered again. */
  lemma OptionalTrimmedStable(s: string)
    requires OptionalTrimmed(s).Some?
    ensures OptionalTrimmed(OptionalTrimmed(s).value) == OptionalTrimmed(s)
  {
    TrimIdempotent(s);
  }

  /**
   The submit-time mileage check: `Number(mileage)` must be finite and not
   negative; the accepted value is what gets sent.
   */
  function CheckMileage(text: string, literal: NumericLiteral): (r: Option<real>)
    ensures r.Some? <==> IsFinite(ToNumber(text, literal)) && !IsNegative(ToNumber(text, literal))
    ensures r.Some? ==> ToNumber(text, literal) == Finite(r.value) && r.value >= 0.0
  {
    match ToNumber(text, literal)
    case Finite(v) => if v < 0.0 then None else Some(v)
    case _ => None
  }

  /** A blank mileage passes the submit-time check as 0. */
  lemma BlankMileageIsZero(text: string, literal: NumericLiteral)
    requires IsBlank(text)
    ensures CheckMileage(text, literal) == Some(0.0)
  {
  }

  /** The three fields of an add-service dialog. */
  datatype ServiceForm = ServiceForm(serviceDate: string, mileage: string, notes: string)

  /** `CreateServiceRequest`. */
  datatype ServiceRequest = ServiceRequest(serviceDate: string, mileage: real, notes: Option<string>)

  /**
   `new Date(s).toISOString()`, which the model does not implement: `None` when
   the date is invalid and `toISOString` throws a `RangeError`.
   */
  type IsoDate = string -> Option<string>

  /**
   The request body built inside the `try`: the date converted to ISO form
   (`None` when that throws), the checked mileage and the notes trimmed or omitted.
   */
  function BuildRequest(form: ServiceForm, mileage: real, iso: IsoDate): (r: Option<ServiceRequest>)
    ensures r.None? <==> iso(form.serviceDate).None?
    ensures r.Some? ==> r.value.serviceDate == iso(form.serviceDate).value && r.value.mileage == mileage
    ensures r.Some? ==> (r.value.notes.None? <==> IsBlank(form.notes))
    ensures r.Some? && r.value.notes.Some? ==> r.value.notes.value == Trim(form.notes)
  {
    match iso(form.serviceDate)
    case None => None
    case Some(d) => Some(ServiceRequest(d, mileage, OptionalTrimmed(form.notes)))
  }

  /** A dialog's close handler: a no-op while its operation runs, otherwise it closes. */
  function CloseUnlessBusy(open: bool, busy: bool): (r: bool)
    ensures busy ==> r == open
    ensures !busy ==> !r
  {
    if busy then open else false
  }
}
