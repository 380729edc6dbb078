/**
 The garage registration form: a password-mismatch indicator, the Register
 button's guard, the submit-time check and the request it sends.
 */
module CreateGarageForm {
  import opened JsText
  import opened Wrappers

  /** The six text fields. */
  datatype GarageForm = GarageForm(name: string, city: string, email: string, username: string,
                                   password: string, confirmPassword: string)

  const EmptyForm := GarageForm("", "", "", "", "", "")

  /** `pwMismatch`: reported only once both password fields hold something. */
  function PwMismatch(f: GarageForm): (r: bool)
    ensures f.password == "" || f.confirmPassword == "" ==> !r
  {
    if f.password == "" || f.confirmPassword == "" then false
    else f.password != f.confirmPassword
  }

  /**
   Once both password fields are filled in, the indicator shows exactly when
   submitting would refuse; it never depends on which field holds which value.
   */
  lemma MismatchMatchesSubmit(f: GarageForm)
    requires f.password != "" && f.confirmPassword != ""
    ensures PwMismatch(f) <==> Submit(f).Refused?
    ensures PwMismatch(f) == PwMismatch(f.(password := f.confirmPassword, confirmPassword := f.password))
  {
  }

  /**
   `canSubmit`: the four text fields not blank, both passwords given and equal,
   not saving. An enabled button registers the fields as typed.
   */
  function CanSubmit(f: GarageForm, saving: bool): (r: bool)
    ensures r ==> Submit(f) == Register(RegisterRequest(f.name, f.city, f.email, f.username, f.password))
    ensures r ==> f.password == f.confirmPassword && !IsBlank(Submit(f).request.username)
    ensures r <==>
      && !saving
      && Submit(f).Register?
      && Submit(f).request.password != ""
      && !IsBlank(Submit(f).request.name)
      && !IsBlank(Submit(f).request.city)
      && !IsBlank(Submit(f).request.email)
      && !IsBlank(Submit(f).request.username)
  {
    && !IsBlank(f.name)
    && !IsBlank(f.city)
    && !IsBlank(f.email)
    && !IsBlank(f.username)
    && f.password != ""
    && f.confirmPassword != ""
    && !PwMismatch(f)
    && !saving
  }

  /** `RegisterGarageRequest`. */
  datatype RegisterRequest = RegisterRequest(name: string, city: string, email: string, username: string, password: string)

  datatype SubmitOutcome = Refused(message: string) | Register(request: RegisterRequest)

  /**
   `submit` up to the request: only password equality is checked, and the
   fields go out as typed, not trimmed.
   */
  function Submit(f: GarageForm): (r: SubmitOutcome)
    ensures r.Refused? <==> f.password != f.confirmPassword
    ensures r.Refused? ==> r.message == "Passwords do not match."
    ensures r.Register? ==> r.request == RegisterRequest(f.name, f.city, f.email, f.username, f.password)
  {
    if f.password != f.confirmPassword then Refused("Passwords do not match.")
    else Register(RegisterRequest(f.name, f.city, f.email, f.username, f.password))
  }

  /** A shown mismatch always stops submission; an empty confirmation against a given password does too. */
  lemma MismatchRefused(f: GarageForm)
    ensures PwMismatch(f) ==> Submit(f).Refused?
    ensures f.password != "" && f.confirmPassword == "" ==> !PwMismatch(f) && Submit(f).Refused?
  {
  }

  /** An enabled Register button leads to a request carrying the passwords as typed. */
  lemma CanSubmitRegisters(f: GarageForm)
    requires CanSubmit(f, false)
    ensures Submit(f).Register?
    ensures Submit(f).request.password == f.password == f.confirmPassword
  {
  }

  /**
   The guard tests trimmed fields but the request carries the raw ones: a name
   typed with surrounding blanks is sent with them.
   */
  lemma RawFieldsSent(f: GarageForm)
    requires CanSubmit(f, false)
    requires f.name == " " + Trim(f.name)
    ensures Submit(f).request.name != Trim(f.name)
  {
  }

  /** The form after a response. */
  datatype FormState = FormState(fields: GarageForm, saving: bool, error: Option<string>, done: Option<string>)

  /**
   After `registerGarage` resolves with the new garage's status, the notice names
   the status and all six fields are cleared; after it fails the fields stay and
   the error's message, or "Failed to register garage", is shown.
   */
  function Finish(s: FormState, result: Result): (r: FormState)
    ensures !r.saving
    ensures result.Registered? ==> r.fields == EmptyForm && r.error.None?
    ensures result.Registered? ==> r.done == Some("Registered. Status: " + result.status + ". Wait for admin approval.")
    ensures result.Failed? ==> r.fields == s.fields && r.done.None?
    ensures result.Failed? ==> r.error == Some(result.message.GetOr("Failed to register garage"))
  {
    match result
    case Registered(status) =>
      FormState(EmptyForm, false, None, Some("Registered. Status: " + status + ". Wait for admin approval."))
    case Failed(m) => FormState(s.fields, false, Some(m.GetOr("Failed to register garage")), None)
  }

  /** The outcome of `registerGarage`. */
  datatype Result = Registered(status: string) | Failed(message: Option<string>)

  /** A failed registration keeps the fields, so submitting again sends the same request. */
  lemma FailedRegistrationResubmits(s: FormState, m: Option<string>)
    ensures Submit(Finish(s, Failed(m)).fields) == Submit(s.fields)
  {
  }

  /** After a registration the cleared form disables Register until it is filled in again. */
  lemma RegisteredFormIsReset(s: FormState, status: string, saving: bool)
    ensures !CanSubmit(Finish(s, Registered(status)).fields, saving)
    ensures !PwMismatch(Finish(s, Registered(status)).fields)
  {
  }
}
