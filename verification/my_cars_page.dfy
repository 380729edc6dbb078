/**
 A garage's car list: the create-car dialog, the add-service dialog opened
 from a car's row, and the QR dialog, each with its guard and close rule.
 */
module MyCarsPage {
  import opened Wrappers
  import opened JsText
  import opened JsNumber
  import opened Forms
  import Calendar
  import ServicesApi

  // ---------------------------------------------------------------------------
  // Create car
  // ---------------------------------------------------------------------------

  /**
   `canCreate`: logged in, a plate that is not blank, and not already saving;
   enabled exactly when not saving and submitting would send.
   */
  function CanCreate(garageId: Option<string>, plate: string, vin: string, saving: bool): (r: bool)
    ensures r <==> !saving && SubmitCreate(garageId, plate, vin).CreateSent?
  {
    Present(garageId) && |Trim(plate)| > 0 && !saving
  }

  /** The VIN field never affects the Create button. */
  lemma CanCreateIgnoresVin(garageId: Option<string>, plate: string, v1: string, v2: string, saving: bool)
    ensures CanCreate(garageId, plate, v1, saving) == CanCreate(garageId, plate, v2, saving)
  {
  }

  /** `createCar`'s body. */
  datatype CreateCarRequest = CreateCarRequest(plateNumber: string, vin: Option<string>)

  datatype CreateOutcome =
    | CreateRefused(message: string)
    | CreateSent(garageId: string, request: CreateCarRequest)

  /** `submitCreate` up to the request: login, then plate; the plate trimmed, the VIN trimmed or omitted. */
  function SubmitCreate(garageId: Option<string>, plate: string, vin: string): (r: CreateOutcome)
    ensures !Present(garageId) ==> r == CreateRefused("You must login first.")
    ensures Present(garageId) && IsBlank(plate) ==> r == CreateRefused("Plate number is required.")
    ensures r.CreateSent? <==> Present(garageId) && !IsBlank(plate)
    ensures r.CreateSent? ==> r.garageId == garageId.value
    ensures r.CreateSent? ==> r.request.plateNumber != [] && IsTrimmed(r.request.plateNumber)
    ensures r.CreateSent? ==> r.request.plateNumber == Trim(plate) && r.request.vin == OptionalTrimmed(vin)
  {
    if !Present(garageId) then CreateRefused("You must login first.")
    else if Trim(plate) == [] then CreateRefused("Plate number is required.")
    else CreateSent(garageId.value, CreateCarRequest(Trim(plate), OptionalTrimmed(vin)))
  }

  /** Whatever the Create button allows, submitting sends. */
  lemma CanCreateSends(garageId: Option<string>, plate: string, vin: string)
    requires CanCreate(garageId, plate, vin, false)
    ensures SubmitCreate(garageId, plate, vin).CreateSent?
  {
  }

  /** The create-car dialog. */
  datatype CarDialog = CarDialog(open: bool, plate: string, vin: string, saving: bool, error: Option<string>)

  /** `openDialog`: empty fields, no error. */
  function OpenCarDialog(d: CarDialog): (r: CarDialog)
    ensures r.open && r.plate == "" && r.vin == "" && r.error.None? && r.saving == d.saving
  {
    CarDialog(true, "", "", d.saving, None)
  }

  /** `closeDialog`: a no-op while the car is saved. */
  function CloseCarDialog(d: CarDialog): (r: CarDialog)
    ensures d.saving ==> r == d
    ensures !d.saving ==> r == d.(open := false)
  {
    d.(open := CloseUnlessBusy(d.open, d.saving))
  }

  /**
   After `createCar`: on success the dialog closes (and the list reloads); on
   failure it stays open with the error's message, or "Failed to create car"
   without one. Saving ends either way.
   */
  function FinishCreate(d: CarDialog, failure: Option<Option<string>>): (r: CarDialog)
    ensures !r.saving && r.plate == d.plate && r.vin == d.vin
    ensures failure.None? ==> !r.open && r.error == d.error
    ensures failure.Some? ==> r.open == d.open && r.error == Some(failure.value.GetOr("Failed to create car"))
  {
    match failure
    case None => d.(open := false, saving := false)
    case Some(m) => d.(saving := false, error := Some(m.GetOr("Failed to create car")))
  }

  /** Opening starts afresh: nothing of the previous session but the saving flag survives. */
  lemma OpenCarDialogForgets(d: CarDialog, e: CarDialog)
    requires d.saving == e.saving
    ensures OpenCarDialog(d) == OpenCarDialog(e)
  {
  }

  /** Once `createCar` has finished, whatever its outcome, the dialog can be closed. */
  lemma FinishedCarDialogCloses(d: CarDialog, failure: Option<Option<string>>)
    ensures !CloseCarDialog(FinishCreate(d, failure)).open
  {
  }

  /** A failed create keeps plate and VIN, so submitting again sends the same request. */
  lemma FailedCreateResubmits(d: CarDialog, m: Option<string>, garageId: Option<string>)
    ensures var f := FinishCreate(d, Some(m));
      f.open == d.open && SubmitCreate(garageId, f.plate, f.vin) == SubmitCreate(garageId, d.plate, d.vin)
  {
  }

  // ---------------------------------------------------------------------------
  // Add service
  // ---------------------------------------------------------------------------

  /**
   `canCreateService` as written: it tests `Number.isNaN`, so an infinite
   mileage such as "Infinity" enables the button. An enabled button meets no
   refusal of `submitService` unless the mileage is positive infinity, and
   then always the mileage refusal.
   */
  function CanCreateServiceAsWritten(garageId: Option<string>, carId: Option<string>, form: ServiceForm,
                                     saving: bool, literal: NumericLiteral): (r: bool)
    ensures r && !ToNumber(form.mileage, literal).PosInfinity? ==>
      forall iso: IsoDate :: !SubmitService(garageId, carId, form, literal, iso).ServiceRefused?
    ensures r && ToNumber(form.mileage, literal).PosInfinity? ==>
      forall iso: IsoDate ::
        SubmitService(garageId, carId, form, literal, iso) == ServiceRefused("Mileage must be a valid non-negative number.")
    ensures form.serviceDate == "" || IsBlank(form.mileage) || saving ==> !r
  {
    && Present(garageId)
    && Present(carId)
    && form.serviceDate != ""
    && !IsBlank(form.mileage)
    && !IsNaN(ToNumber(form.mileage, literal))
    && !IsNegative(ToNumber(form.mileage, literal))
    && !saving
  }

  /**
   The guard as evidently intended, matching the submit-time check and the
   history page's `canSave`: the mileage must be finite, so an enabled button
   meets no refusal of `submitService`.
   */
  function CanCreateService(garageId: Option<string>, carId: Option<string>, form: ServiceForm,
                            saving: bool, literal: NumericLiteral): (r: bool)
    ensures r ==> forall iso: IsoDate :: !SubmitService(garageId, carId, form, literal, iso).ServiceRefused?
    ensures form.serviceDate == "" || IsBlank(form.mileage) || saving ==> !r
    ensures !IsBlank(form.mileage) ==>
      (r <==> form.serviceDate != "" && !saving && Present(garageId) && Present(carId)
              && CheckMileage(form.mileage, literal).Some?)
  {
    && Present(garageId)
    && Present(carId)
    && form.serviceDate != ""
    && !IsBlank(form.mileage)
    && IsFinite(ToNumber(form.mileage, literal))
    && !IsNegative(ToNumber(form.mileage, literal))
    && !saving
  }

  /** What `submitService` does before the request completes. */
  datatype ServiceOutcome =
    | ServiceRefused(message: string)
    | ServiceDateThrew
    | ServiceSent(garageId: string, carId: string, body: ServiceRequest)

  /** `submitService` up to the request: login, car and mileage are checked, in that order. */
  function SubmitService(garageId: Option<string>, carId: Option<string>, form: ServiceForm,
                         literal: NumericLiteral, iso: IsoDate): (r: ServiceOutcome)
    ensures !Present(garageId) ==> r == ServiceRefused("You must login first.")
    ensures Present(garageId) && !Present(carId) ==> r == ServiceRefused("Car is missing.")
    ensures Present(garageId) && Present(carId) && CheckMileage(form.mileage, literal).None? ==>
      r == ServiceRefused("Mileage must be a valid non-negative number.")
    ensures r.ServiceSent? ==> r.garageId == garageId.value && r.carId == carId.value
    ensures r.ServiceSent? ==> Some(r.body.mileage) == CheckMileage(form.mileage, literal)
    ensures r.ServiceSent? ==> Some(r.body) == BuildRequest(form, r.body.mileage, iso)
    ensures Present(garageId) && Present(carId) && CheckMileage(form.mileage, literal).Some? ==>
      (r.ServiceSent? <==> BuildRequest(form, CheckMileage(form.mileage, literal).value, iso).Some?)
    ensures r.ServiceDateThrew? <==>
      Present(garageId) && Present(carId) && CheckMileage(form.mileage, literal).Some? && iso(form.serviceDate).None?
  {
    if !Present(garageId) then ServiceRefused("You must login first.")
    else if !Present(carId) then ServiceRefused("Car is missing.")
    else match CheckMileage(form.mileage, literal)
      case None => ServiceRefused("Mileage must be a valid non-negative number.")
      case Some(m) =>
        match BuildRequest(form, m, iso)
        case None => ServiceDateThrew
        case Some(body) => ServiceSent(garageId.value, carId.value, body)
  }

  /**
   The discrepancy: with the `Infinity` literal the button as written is enabled,
   yet submitting refuses the mileage.
   */
  lemma InfinityEnablesButtonButIsRefused(garageId: Option<string>, carId: Option<string>, form: ServiceForm,
                                          literal: NumericLiteral, iso: IsoDate)
    requires Present(garageId) && Present(carId) && form.serviceDate != ""
    requires form.mileage == "Infinity" && literal("Infinity") == PosInfinity
    ensures CanCreateServiceAsWritten(garageId, carId, form, false, literal)
    ensures !CanCreateService(garageId, carId, form, false, literal)
    ensures SubmitService(garageId, carId, form, literal, iso) == ServiceRefused("Mileage must be a valid non-negative number.")
  {
    var m := form.mileage;
    assert !IsSpace(m[0]) && !IsSpace(m[|m| - 1]);
    TrimTrimmed(m);
    assert !IsBlank(m);
  }

  /** The corrected guard: an enabled button always leads to a sent request when the date converts. */
  lemma CanCreateServiceSends(garageId: Option<string>, carId: Option<string>, form: ServiceForm,
                              literal: NumericLiteral, iso: IsoDate)
    requires CanCreateService(garageId, carId, form, false, literal)
    requires iso(form.serviceDate).Some?
    ensures SubmitService(garageId, carId, form, literal, iso).ServiceSent?
    ensures SubmitService(garageId, carId, form, literal, iso).body.mileage == ToNumber(form.mileage, literal).value
  {
  }

  /** The corrected guard only narrows the one as written, by exactly the infinite mileages. */
  lemma CorrectedGuardNarrows(garageId: Option<string>, carId: Option<string>, form: ServiceForm,
                              saving: bool, literal: NumericLiteral)
    ensures CanCreateService(garageId, carId, form, saving, literal) <==>
      CanCreateServiceAsWritten(garageId, carId, form, saving, literal) && !ToNumber(form.mileage, literal).PosInfinity?
  {
  }

  /**
   The submit-time check is not stronger than the button on every input: Enter
   submits through the hidden submit button, and a whitespace-only mileage,
   which disables the button, is then sent as 0.
   */
  lemma BlankServiceMileageSentAsZero(garageId: Option<string>, carId: Option<string>, form: ServiceForm,
                                      saving: bool, literal: NumericLiteral, iso: IsoDate)
    requires Present(garageId) && Present(carId) && IsBlank(form.mileage)
    requires iso(form.serviceDate).Some?
    ensures !CanCreateServiceAsWritten(garageId, carId, form, saving, literal)
    ensures SubmitService(garageId, carId, form, literal, iso).ServiceSent?
    ensures SubmitService(garageId, carId, form, literal, iso).body.mileage == 0.0
  {
    BlankMileageIsZero(form.mileage, literal);
  }

  /** The add-service dialog. */
  datatype ServiceDialog = ServiceDialog(open: bool, carId: Option<string>, plate: string, form: ServiceForm,
                                         saving: bool, error: Option<string>, done: Option<string>)

  /**
   `openServiceDialog(carId, plate)`: the row's car, today's date, empty mileage
   and notes, both messages cleared.
   */
  function OpenServiceDialog(d: ServiceDialog, carId: string, plate: string, today: Calendar.LocalDate): (r: ServiceDialog)
    ensures r.open && r.carId == Some(carId) && r.plate == plate && r.saving == d.saving
    ensures r.form.mileage == "" && r.form.notes == ""
    ensures r.error.None? && r.done.None?
    ensures r.form.serviceDate == Calendar.FormatDate(today.year, today.monthIndex, today.day)
  {
    ServiceDialog(true, Some(carId), plate,
                  ServiceForm(Calendar.FormatDate(today.year, today.monthIndex, today.day), "", ""),
                  d.saving, None, None)
  }

  /** `closeServiceDialog`: a no-op while the service record is saved. */
  function CloseServiceDialog(d: ServiceDialog): (r: ServiceDialog)
    ensures d.saving ==> r == d
    ensures !d.saving ==> r == d.(open := false)
  {
    d.(open := CloseUnlessBusy(d.open, d.saving))
  }

  /** The success line after `createService` resolves. */
  function DoneMessage(plate: string): (r: string)
    ensures r == "Service record added for " + plate + "."
    ensures plate <= r[|"Service record added for "|..]
  {
    var p := "Service record added for ";
    var r := p + plate + ".";
    assert r[|p|..] == plate + ".";
    r
  }

  /**
   After the request: on success the dialog closes and names the car's plate;
   on failure it stays open with the error's message, or "Failed to add service
   record" without one. Saving ends either way.
   */
  function FinishService(d: ServiceDialog, failure: Option<Option<string>>): (r: ServiceDialog)
    ensures !r.saving && r.carId == d.carId && r.plate == d.plate && r.form == d.form
    ensures failure.None? ==> !r.open && r.done == Some(DoneMessage(d.plate)) && r.error.None?
    ensures failure.Some? ==>
      (r.open == d.open && r.done.None? && r.error == Some(failure.value.GetOr("Failed to add service record")))
  {
    match failure
    case None => d.(open := false, saving := false, done := Some(DoneMessage(d.plate)), error := None)
    case Some(m) => d.(saving := false, done := None, error := Some(m.GetOr("Failed to add service record")))
  }

  /** Opening starts afresh: nothing of the previous session but the saving flag survives. */
  lemma OpenServiceDialogForgets(d: ServiceDialog, e: ServiceDialog, carId: string, plate: string,
                                 today: Calendar.LocalDate)
    requires d.saving == e.saving
    ensures OpenServiceDialog(d, carId, plate, today) == OpenServiceDialog(e, carId, plate, today)
  {
  }

  /** Once the request has finished, whatever its outcome, the dialog can be closed. */
  lemma FinishedServiceDialogCloses(d: ServiceDialog, failure: Option<Option<string>>)
    ensures !CloseServiceDialog(FinishService(d, failure)).open
  {
  }

  /** A failed save keeps the car and the form, so submitting again sends the same request. */
  lemma FailedServiceResubmits(d: ServiceDialog, m: Option<string>, garageId: Option<string>,
                               literal: NumericLiteral, iso: IsoDate)
    ensures var f := FinishService(d, Some(m));
      f.open == d.open && SubmitService(garageId, f.carId, f.form, literal, iso) == SubmitService(garageId, d.carId, d.form, literal, iso)
  {
  }

  /**
   A rejected `createService` always carries a message, so the dialog shows the
   message `toServiceError` built and never its own fallback.
   */
  lemma ServiceErrorIsApiMessage(d: ServiceDialog, e: ServicesApi.TransportError, numberText: ServicesApi.NumberText)
    ensures var out := ServicesApi.CreateService(ServicesApi.Posted<ServiceRequest>.PostFailed(e), numberText);
      && out.Rejected?
      && FinishService(d, Some(Some(out.message))).error == Some(ServicesApi.ToServiceError(e, numberText))
  {
  }

  // ---------------------------------------------------------------------------
  // QR dialog
  // ---------------------------------------------------------------------------

  datatype QrDialog = QrDialog(open: bool, carId: Option<string>, loading: bool, error: Option<string>)

  /** `openQrDialog(carId)` up to the fetch: the row's car, no error, the image loading. */
  function OpenQrDialog(d: QrDialog, carId: string): (r: QrDialog)
    ensures r.open && r.loading && r.carId == Some(carId) && r.error.None?
  {
    QrDialog(true, Some(carId), true, None)
  }

  /** After `getCarQrPng`: loading ends; a failure shows its message or "Failed to load QR". */
  function FinishQr(d: QrDialog, failure: Option<Option<string>>): (r: QrDialog)
    ensures !r.loading && r.open == d.open && r.carId == d.carId
    ensures failure.None? ==> r.error == d.error
    ensures failure.Some? ==> r.error == Some(failure.value.GetOr("Failed to load QR"))
  {
    match failure
    case None => d.(loading := false)
    case Some(m) => d.(loading := false, error := Some(m.GetOr("Failed to load QR")))
  }

  /** `closeQrDialog`: a no-op while the QR image loads. */
  function CloseQrDialog(d: QrDialog): (r: QrDialog)
    ensures d.loading ==> r == d
    ensures !d.loading ==> r == d.(open := false)
  {
    d.(open := CloseUnlessBusy(d.open, d.loading))
  }

  /** While the image loads the QR dialog stays open; once it has loaded or failed, it can be closed. */
  lemma QrCloseWaitsForImage(d: QrDialog, carId: string, failure: Option<Option<string>>)
    ensures CloseQrDialog(OpenQrDialog(d, carId)) == OpenQrDialog(d, carId)
    ensures !CloseQrDialog(FinishQr(OpenQrDialog(d, carId), failure)).open
  {
  }
}
