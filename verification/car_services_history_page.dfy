/**
 A garage's service-history page for one car, `/cars/:carId/services`: the
 history is fetched, copied and sorted newest first; the add-service dialog
 has a button guard, a submit-time check and a request body.
 */
module CarServicesHistoryPage {
  import opened Wrappers
  import opened JsText
  import opened JsNumber
  import opened Forms
  import Calendar
  import ServicesApi

  // ---------------------------------------------------------------------------
  // Newest first
  // ---------------------------------------------------------------------------

  /** `ServiceDto`; the date may be missing at run time despite its declared type. */
  datatype ServiceDto = ServiceDto(id: string, carId: string, garageId: string,
                                   serviceDate: Option<string>, mileage: real,
                                   notes: Option<string>, createdAt: Option<string>)

  /** The sort key `s.serviceDate ?? ""`. */
  function DateKey(s: ServiceDto): string {
    s.serviceDate.GetOr("")
  }

  /** Keys never increase from one position to a later one. */
  predicate NewestFirst(s: seq<ServiceDto>) {
    forall i, j :: 0 <= i < j < |s| ==> LexLe(DateKey(s[j]), DateKey(s[i]))
  }

  /** The entries whose key is `k`, in their order. */
  function WithKey(s: seq<ServiceDto>, k: string): (r: seq<ServiceDto>)
    ensures forall x :: x in r ==> x in s && DateKey(x) == k
  {
    if s == [] then []
    else (if DateKey(s[0]) == k then [s[0]] else []) + WithKey(s[1..], k)
  }

  /**
   Places `x` before the first entry whose key is not greater than its own: the
   step of a stable sort where `x` came first among equal keys.
   */
  function Insert(x: ServiceDto, s: seq<ServiceDto>): (r: seq<ServiceDto>)
    ensures |r| == |s| + 1
    ensures multiset(r) == multiset(s) + multiset{x}
  {
    if s == [] then [x]
    else if LexLe(DateKey(s[0]), DateKey(x)) then [x] + s
    else
      assert s == [s[0]] + s[1..];
      [s[0]] + Insert(x, s[1..])
  }

  /**
   `[...data].sort((a, b) => (b.serviceDate ?? "").localeCompare(a.serviceDate ?? ""))`
   on a copy of the fetched list: a stable sort, newest date first.
   */
  function SortNewestFirst(s: seq<ServiceDto>): (r: seq<ServiceDto>)
    ensures |r| == |s|
    ensures multiset(r) == multiset(s)
  {
    if s == [] then []
    else
      assert s == [s[0]] + s[1..];
      Insert(s[0], SortNewestFirst(s[1..]))
  }

  lemma LexLeReflexive(a: string)
    ensures LexLe(a, a)
  {
    if a != [] {
      LexLeReflexive(a[1..]);
    }
  }

  /** Inserting into a newest-first list keeps it newest first. */
  lemma {:induction false} InsertNewestFirst(x: ServiceDto, s: seq<ServiceDto>)
    requires NewestFirst(s)
    ensures NewestFirst(Insert(x, s))
  {
    if s == [] {
    } else if !LexLe(DateKey(s[0]), DateKey(x)) {
      InsertNewestFirst(x, s[1..]);
      LexLeTotal(DateKey(s[0]), DateKey(x));
      HeadStaysFirst(x, s);
      ConsNewestFirst(s[0], Insert(x, s[1..]));
    } else {
      AllBelowHead(x, s);
      ConsNewestFirst(x, s);
    }
  }

  /** An entry whose key no later entry exceeds can go in front. */
  lemma ConsNewestFirst(h: ServiceDto, t: seq<ServiceDto>)
    requires NewestFirst(t)
    requires forall y :: y in t ==> LexLe(DateKey(y), DateKey(h))
    ensures NewestFirst([h] + t)
  {
    var r := [h] + t;
    forall i, j | 0 <= i < j < |r| ensures LexLe(DateKey(r[j]), DateKey(r[i])) {
      assert r[j] == t[j - 1];
      if i > 0 {
        assert r[i] == t[i - 1];
      }
    }
  }

  /** Every entry of `Insert(x, s)` is `x` or an entry of `s`. */
  lemma {:induction false} InsertMembers(x: ServiceDto, s: seq<ServiceDto>, y: ServiceDto)
    requires y in Insert(x, s)
    ensures y == x || y in s
  {
    if s != [] && !LexLe(DateKey(s[0]), DateKey(x)) {
      if y != s[0] {
        InsertMembers(x, s[1..], y);
      }
    }
  }

  /** Behind a head that `x` does not exceed, nothing exceeds the head. */
  lemma HeadStaysFirst(x: ServiceDto, s: seq<ServiceDto>)
    requires s != [] && NewestFirst(s) && LexLe(DateKey(x), DateKey(s[0]))
    ensures forall y :: y in Insert(x, s[1..]) ==> LexLe(DateKey(y), DateKey(s[0]))
  {
    forall y | y in Insert(x, s[1..]) ensures LexLe(DateKey(y), DateKey(s[0])) {
      InsertMembers(x, s[1..], y);
      if y != x {
        var m :| 0 <= m < |s[1..]| && s[1..][m] == y;
        assert s[m + 1] == y;
      }
    }
  }

  /** When `x` is not below the head, it is not below any entry. */
  lemma AllBelowHead(x: ServiceDto, s: seq<ServiceDto>)
    requires s != [] && NewestFirst(s) && LexLe(DateKey(s[0]), DateKey(x))
    ensures forall y :: y in s ==> LexLe(DateKey(y), DateKey(x))
  {
    forall y | y in s ensures LexLe(DateKey(y), DateKey(x)) {
      var m :| 0 <= m < |s| && s[m] == y;
      if m > 0 {
        LexLeTransitive(DateKey(y), DateKey(s[0]), DateKey(x));
      }
    }
  }

  /** The displayed history is ordered newest first. */
  lemma {:induction false} SortIsNewestFirst(s: seq<ServiceDto>)
    ensures NewestFirst(SortNewestFirst(s))
  {
    if s != [] {
      SortIsNewestFirst(s[1..]);
      InsertNewestFirst(s[0], SortNewestFirst(s[1..]));
    }
  }

  lemma {:induction false} WithKeyConcat(a: seq<ServiceDto>, b: seq<ServiceDto>, k: string)
    ensures WithKey(a + b, k) == WithKey(a, k) + WithKey(b, k)
  {
    if a == [] {
      assert a + b == b;
    } else {
      assert (a + b)[0] == a[0];
      assert (a + b)[1..] == a[1..] + b;
      WithKeyConcat(a[1..], b, k);
    }
  }

  lemma WithKeySingle(y: ServiceDto, k: string)
    ensures WithKey([y], k) == (if DateKey(y) == k then [y] else [])
  {
    assert [y][1..] == [];
  }

  /** A head whose key differs from `x`'s adds the same entries on both sides. */
  lemma ConsWithKey(h: ServiceDto, t: seq<ServiceDto>, u: seq<ServiceDto>, x: ServiceDto, k: string)
    requires DateKey(h) != DateKey(x)
    requires WithKey(t, k) == (if DateKey(x) == k then [x] else []) + WithKey(u, k)
    ensures WithKey([h] + t, k) == (if DateKey(x) == k then [x] else []) + WithKey([h] + u, k)
  {
    WithKeyConcat([h], t, k);
    WithKeyConcat([h], u, k);
    WithKeySingle(h, k);
    var xs := if DateKey(x) == k then [x] else [];
    if DateKey(h) == k {
      assert xs == [];
      EmptyFront(xs, [h] + WithKey(u, k));
      EmptyFront(xs, WithKey(u, k));
    } else {
      EmptyFront([], WithKey(t, k));
      EmptyFront([], WithKey(u, k));
    }
  }

  lemma EmptyFront<T>(a: seq<T>, b: seq<T>)
    requires a == []
    ensures a + b == b
  {
  }

  /** Inserting behind a head whose key is strictly greater than the inserted key. */
  lemma InsertBehindHead(x: ServiceDto, s: seq<ServiceDto>, k: string)
    requires s != [] && !LexLe(DateKey(s[0]), DateKey(x))
    requires WithKey(Insert(x, s[1..]), k) == (if DateKey(x) == k then [x] else []) + WithKey(s[1..], k)
    ensures WithKey(Insert(x, s), k) == (if DateKey(x) == k then [x] else []) + WithKey(s, k)
  {
    LexLeReflexive(DateKey(x));
    InsertBehind(x, s);
    ConsWithKey(s[0], Insert(x, s[1..]), s[1..], x, k);
  }

  /** Behind a greater head, `Insert` keeps the head and inserts into the rest. */
  lemma InsertBehind(x: ServiceDto, s: seq<ServiceDto>)
    requires s != [] && !LexLe(DateKey(s[0]), DateKey(x))
    ensures Insert(x, s) == [s[0]] + Insert(x, s[1..])
    ensures s == [s[0]] + s[1..]
  {
  }

  /**
   `x` lands before every entry of its own key and after none of them; entries
   of other keys keep their order around it.
   */
  lemma {:induction false} InsertWithKey(x: ServiceDto, s: seq<ServiceDto>, k: string)
    ensures WithKey(Insert(x, s), k) == (if DateKey(x) == k then [x] else []) + WithKey(s, k)
  {
    if s == [] {
      WithKeySingle(x, k);
    } else if LexLe(DateKey(s[0]), DateKey(x)) {
      WithKeyConcat([x], s, k);
      WithKeySingle(x, k);
    } else {
      InsertWithKey(x, s[1..], k);
      InsertBehindHead(x, s, k);
    }
  }

  /** Stability: the entries of each date keep the order in which they were fetched. */
  lemma {:induction false} SortKeepsOrderOfEqualDates(s: seq<ServiceDto>, k: string)
    ensures WithKey(SortNewestFirst(s), k) == WithKey(s, k)
  {
    if s != [] {
      SortKeepsOrderOfEqualDates(s[1..], k);
      InsertWithKey(s[0], SortNewestFirst(s[1..]), k);
    }
  }

  /** An entry without a date comes after every dated entry. */
  lemma MissingDateSortsLast(s: seq<ServiceDto>, i: nat, j: nat)
    requires i < j < |SortNewestFirst(s)|
    requires SortNewestFirst(s)[i].serviceDate.None?
    ensures DateKey(SortNewestFirst(s)[j]) == ""
  {
    SortIsNewestFirst(s);
    var r := SortNewestFirst(s);
    EmptyLexLeast(DateKey(r[j]));
  }

  // ---------------------------------------------------------------------------
  // Loading
  // ---------------------------------------------------------------------------

  /** How `load` starts. */
  datatype LoadStart =
    | Refused(message: string)               // items emptied, error shown, no request
    | Fetch(garageId: string, carId: string) // `getCarServices(garageId, carId)`

  function BeginLoad(garageId: Option<string>, carId: Option<string>): (r: LoadStart)
    ensures r.Fetch? <==> Present(garageId) && Present(carId)
    ensures r.Fetch? ==> r.garageId == garageId.value && r.carId == carId.value
    ensures !Present(garageId) ==> r == Refused("No garage logged in.")
    ensures Present(garageId) && !Present(carId) ==> r == Refused("CarId missing from URL.")
  {
    if !Present(garageId) then Refused("No garage logged in.")
    else if !Present(carId) then Refused("CarId missing from URL.")
    else Fetch(garageId.value, carId.value)
  }

  /** The history table and its error line. */
  datatype History = History(items: seq<ServiceDto>, error: Option<string>)

  /** The outcome of `getCarServices`. */
  datatype Fetched = Received(data: seq<ServiceDto>) | FetchFailed(message: Option<string>)

  /**
   `load` to the end: a refusal empties the table; fetched data is shown newest
   first; a failed request keeps the old rows and shows the error's message or
   "Failed to load service history".
   */
  function Load(h: History, garageId: Option<string>, carId: Option<string>, fetched: Fetched): (r: History)
    ensures BeginLoad(garageId, carId).Refused? ==> r == History([], Some(BeginLoad(garageId, carId).message))
    ensures BeginLoad(garageId, carId).Fetch? && fetched.Received? ==>
      r.error.None? && multiset(r.items) == multiset(fetched.data) && NewestFirst(r.items)
    ensures BeginLoad(garageId, carId).Fetch? && fetched.Received? ==>
      r == History(SortNewestFirst(fetched.data), None)
    ensures BeginLoad(garageId, carId).Fetch? && fetched.FetchFailed? ==>
      r == History(h.items, Some(fetched.message.GetOr("Failed to load service history")))
  {
    match BeginLoad(garageId, carId)
    case Refused(m) => History([], Some(m))
    case Fetch(_, _) =>
      match fetched
      case Received(data) =>
        SortIsNewestFirst(data);
        History(SortNewestFirst(data), None)
      case FetchFailed(m) => History(h.items, Some(m.GetOr("Failed to load service history")))
  }

  // ---------------------------------------------------------------------------
  // The add-service dialog
  // ---------------------------------------------------------------------------

  /**
   `canSave`: the enabled state of the dialog's Save button. An enabled button
   never meets one of `submit`'s refusals, whatever the date conversion does;
   with a date chosen and a mileage typed, it is enabled exactly when those
   checks pass and nothing is saving.
   */
  function CanSave(garageId: Option<string>, carId: Option<string>, form: ServiceForm,
                   saving: bool, literal: NumericLiteral): (r: bool)
    ensures r ==> forall iso: IsoDate :: !Submit(garageId, carId, form, literal, iso).NotSent?
    ensures form.serviceDate == "" || IsBlank(form.mileage) || saving ==> !r
    ensures !IsBlank(form.mileage) ==>
      (r <==> form.serviceDate != "" && !saving && Present(garageId) && Present(carId)
              && CheckMileage(form.mileage, literal).Some?)
  {
    && Present(garageId)
    && Present(carId)
    && form.serviceDate != ""
    && !IsBlank(form.mileage)
    && IsFinite(ToNumber(form.mileage, literal))
    && !IsNegative(ToNumber(form.mileage, literal))
    && !saving
  }

  /** What `submit` does before the request completes. */
  datatype SubmitOutcome =
    | NotSent(message: string) // a check failed: the message is shown, nothing is sent
    | DateThrew                // `toISOString` threw: the error's own message is shown
    | Sent(garageId: string, carId: string, body: ServiceRequest)

  /**
   `submit`: login, car and mileage are checked, in that order; then the body
   is built inside the `try`.
   */
  function Submit(garageId: Option<string>, carId: Option<string>, form: ServiceForm,
                  literal: NumericLiteral, iso: IsoDate): (r: SubmitOutcome)
    ensures !Present(garageId) ==> r == NotSent("You must login first.")
    ensures Present(garageId) && !Present(carId) ==> r == NotSent("CarId missing.")
    ensures Present(garageId) && Present(carId) && CheckMileage(form.mileage, literal).None? ==>
      r == NotSent("Mileage must be a valid non-negative number.")
    ensures r.Sent? ==> r.garageId == garageId.value && r.carId == carId.value
    ensures r.Sent? ==> Some(r.body.mileage) == CheckMileage(form.mileage, literal)
    ensures r.Sent? ==> Some(r.body) == BuildRequest(form, r.body.mileage, iso)
    ensures Present(garageId) && Present(carId) && CheckMileage(form.mileage, literal).Some? ==>
      (r.Sent? <==> BuildRequest(form, CheckMileage(form.mileage, literal).value, iso).Some?)
    ensures r.DateThrew? <==>
      Present(garageId) && Present(carId) && CheckMileage(form.mileage, literal).Some? && iso(form.serviceDate).None?
  {
    if !Present(garageId) then NotSent("You must login first.")
    else if !Present(carId) then NotSent("CarId missing.")
    else match CheckMileage(form.mileage, literal)
      case None => NotSent("Mileage must be a valid non-negative number.")
      case Some(m) =>
        match BuildRequest(form, m, iso)
        case None => DateThrew
        case Some(body) => Sent(garageId.value, carId.value, body)
  }

  /** Non-finite or negative mileage is never sent. */
  lemma SubmitRejectsBadMileage(garageId: Option<string>, carId: Option<string>, form: ServiceForm,
                                literal: NumericLiteral, iso: IsoDate)
    requires !IsFinite(ToNumber(form.mileage, literal)) || IsNegative(ToNumber(form.mileage, literal))
    ensures !Submit(garageId, carId, form, literal, iso).Sent?
  {
  }

  /** When Save is enabled and the date converts, pressing it sends the form. */
  lemma CanSaveSends(garageId: Option<string>, carId: Option<string>, form: ServiceForm,
                     literal: NumericLiteral, iso: IsoDate)
    requires CanSave(garageId, carId, form, false, literal)
    requires iso(form.serviceDate).Some?
    ensures Submit(garageId, carId, form, literal, iso).Sent?
    ensures Submit(garageId, carId, form, literal, iso).body.mileage == ToNumber(form.mileage, literal).value
  {
  }

  /**
   Enter submits through the hidden submit button whatever the Save button's
   state: a whitespace-only mileage, which disables Save, is then sent as 0.
   */
  lemma BlankMileageSentAsZero(garageId: Option<string>, carId: Option<string>, form: ServiceForm,
                               saving: bool, literal: NumericLiteral, iso: IsoDate)
    requires Present(garageId) && Present(carId) && IsBlank(form.mileage)
    requires iso(form.serviceDate).Some?
    ensures !CanSave(garageId, carId, form, saving, literal)
    ensures Submit(garageId, carId, form, literal, iso).Sent?
    ensures Submit(garageId, carId, form, literal, iso).body.mileage == 0.0
  {
    BlankMileageIsZero(form.mileage, literal);
  }

  /** The dialog's state. */
  datatype Dialog = Dialog(open: bool, form: ServiceForm, saving: bool, saveError: Option<string>)

  /** `openDialog`: today's date, empty mileage and notes, no error. */
  function OpenDialog(d: Dialog, today: Calendar.LocalDate): (r: Dialog)
    ensures r.open && r.saveError.None? && r.saving == d.saving
    ensures r.form == ServiceForm(Calendar.FormatDate(today.year, today.monthIndex, today.day), "", "")
  {
    Dialog(true, ServiceForm(Calendar.FormatDate(today.year, today.monthIndex, today.day), "", ""), d.saving, None)
  }

  /**
   After the request: on success the dialog closes (and `load` runs again); on
   failure it stays open with the error's message, or "Failed to add service
   record" without one. Saving ends either way.
   */
  function FinishSubmit(d: Dialog, failure: Option<Option<string>>): (r: Dialog)
    ensures !r.saving && r.form == d.form
    ensures failure.None? ==> !r.open && r.saveError == d.saveError
    ensures failure.Some? ==> r.open == d.open && r.saveError == Some(failure.value.GetOr("Failed to add service record"))
  {
    match failure
    case None => d.(open := false, saving := false)
    case Some(m) => d.(saving := false, saveError := Some(m.GetOr("Failed to add service record")))
  }

  /** `closeDialog`: a no-op while saving. */
  function CloseDialog(d: Dialog): (r: Dialog)
    ensures d.saving ==> r == d
    ensures !d.saving ==> r == d.(open := false)
  {
    d.(open := CloseUnlessBusy(d.open, d.saving))
  }

  /** Opening starts afresh: nothing of the previous session but the saving flag survives. */
  lemma OpenForgetsLastSession(d: Dialog, e: Dialog, today: Calendar.LocalDate)
    requires d.saving == e.saving
    ensures OpenDialog(d, today) == OpenDialog(e, today)
  {
  }

  /** Once the request has finished, whatever its outcome, the dialog can be closed. */
  lemma FinishedDialogCloses(d: Dialog, failure: Option<Option<string>>)
    ensures !CloseDialog(FinishSubmit(d, failure)).open
  {
  }

  /** A failed save keeps the form, so submitting again sends the same request. */
  lemma FailedSaveResubmits(d: Dialog, m: Option<string>, garageId: Option<string>, carId: Option<string>,
                            literal: NumericLiteral, iso: IsoDate)
    ensures FinishSubmit(d, Some(m)).open == d.open
    ensures Submit(garageId, carId, FinishSubmit(d, Some(m)).form, literal, iso) == Submit(garageId, carId, d.form, literal, iso)
  {
  }

  /**
   A rejected `createService` always carries a message, so the dialog shows the
   message `toServiceError` built and never its own fallback.
   */
  lemma SaveErrorIsApiMessage(d: Dialog, e: ServicesApi.TransportError, numberText: ServicesApi.NumberText)
    ensures var out := ServicesApi.CreateService(ServicesApi.Posted<ServiceDto>.PostFailed(e), numberText);
      && out.Rejected?
      && FinishSubmit(d, Some(Some(out.message))).saveError == Some(ServicesApi.ToServiceError(e, numberText))
  {
  }
}
