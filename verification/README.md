# CarService web client — verified model of the client-side rules

CarService-web is the React front end of a car-service ledger. Garages register
and wait for an admin's approval. They add cars and append service records to
a car's history. Owners look a car's history up by VIN or by scanning the car's
QR code. The ledger's own rules live behind the server's endpoints. What the
client does hold is a set of pure, sequential rules, and this project models
those rules in Dafny and proves properties of them:

- **Token extraction** (`TokenExtraction`, with `JsUri` and `JsText`): how the
  owner history page turns the route value of a QR lookup into the token it
  queries. The value is percent-decoded and trimmed. Then a `token` URL
  parameter is tried, then a case-insensitive `token=` scan, and otherwise the
  value itself is kept.
- **The owner history page** (`OwnerHistoryPage`): the header value against the
  lookup made, the sanitised identifier in the PDF report's file name, and the
  paging of the history table.
- **The admin's garage list** (`PendingGaragesPage`): the free-text status is
  classified into Pending, Approved, Rejected or Unknown. Each status gets a
  coloured chip. Approve and reject are offered for pending rows only and go
  through a confirmation dialog.
- **A car's service history** (`CarServicesHistoryPage`): the early exits of
  loading, and the stable newest-first sort. It also covers the add-service
  dialog: its Save guard, its submit-time checks and its request body.
- **The car list** (`MyCarsPage`): the create-car dialog, the add-service
  dialog with its default date (`Calendar`), and the QR dialog's close rule.
- **Garage registration** (`CreateGarageForm`): the password-mismatch
  indicator, the Register guard, the submit check and the reset after success.
- **The add-service error message** (`ServicesApi`): how a failed POST is
  turned into one message.

Shared pieces are `Forms`, `JsNumber` and `Wrappers`:

- `Forms` holds truthiness, the "trimmed or omitted" rule for optional fields,
  the mileage check and the request body.
- `JsNumber` covers `Number(text)` and the tests applied to its result.
- `Wrappers` holds `Option`.

Browser and library calls the code relies on enter the model as function
parameters. These are `new URL(s).searchParams.get("token")`, the numeric
literal grammar of `Number`, `new Date(s).toISOString()`, `Number`'s
`toString` and the clock. `decodeURIComponent`, `encodeURIComponent`, `trim`
and `toLowerCase` are modelled directly. The parts of the Unicode tables these
rules depend on are included: ECMAScript white space and line terminators for
`trim`. For `toLowerCase`: ASCII letters, U+212A KELVIN SIGN, and U+0130,
whose lowercase is two code units long.

## Model

| member | source | states |
|---|---|---|
| JsText.Trim | src/features/owners/ui/OwnerCarHistoryPage.tsx:38 | `trim()` leaves no white space at either end, never lengthens the string, keeps only chars of the input, and gives the empty string exactly for a blank input |
| JsText.TrimIsPiece | src/features/owners/ui/OwnerCarHistoryPage.tsx:38 | `trim()` returns a contiguous piece of the string with only white space before it and only white space after it |
| JsText.TrimIdempotent | src/features/owners/ui/OwnerCarHistoryPage.tsx:38 | trimming twice is trimming once |
| JsText.ToLowerIdempotent | src/features/admin/ui/PendingGaragesPage.tsx:45 | lowercasing twice is lowercasing once |
| JsText.ToLowerConcat | src/features/admin/ui/PendingGaragesPage.tsx:45 | the modelled lowercasing (ASCII letters, U+212A and U+0130) works char by char: the lowercase of a concatenation is the concatenation of the lowercases |
| JsText.ToLowerIsFold | src/features/owners/ui/OwnerCarHistoryPage.tsx:46 | without U+0130 the lowercase is the length-preserving char-by-char fold, so indices in it are indices in the original |
| JsText.LowerLength | src/features/owners/ui/OwnerCarHistoryPage.tsx:46 | the lowercase is longer than the original by exactly the number of U+0130 chars in it |
| JsText.IndexOf | src/features/owners/ui/OwnerCarHistoryPage.tsx:46 | `indexOf` returns an occurrence with none before it, and -1 (here `None`) only when there is no occurrence at all |
| JsText.ContainsIff | src/features/admin/ui/PendingGaragesPage.tsx:46-48 | `includes` holds exactly when the needle occurs at some index |
| JsText.ContainsPrefix | src/features/admin/ui/PendingGaragesPage.tsx:48 | a text containing a needle contains every prefix of it |
| JsText.BeforeFirst | src/features/owners/ui/OwnerCarHistoryPage.tsx:49 | `split("&")[0]` is a prefix of the text without `&`, ending at the first `&` or at the end |
| JsText.BeforeFirstConcat | src/features/owners/ui/OwnerCarHistoryPage.tsx:49 | for `a + b` with no `&` in `a` and `b` empty or starting with `&`, `split("&")[0]` is `a` |
| JsText.LexLeTotal | src/features/services/ui/CarServicesPageHistory.tsx:101-103 | any two date keys are comparable |
| JsText.LexLeTransitive | src/features/services/ui/CarServicesPageHistory.tsx:101-103 | the comparison of date keys is transitive |
| JsText.LexLeAntisymmetric | src/features/services/ui/CarServicesPageHistory.tsx:101-103 | keys each at most the other are equal |
| JsText.EmptyLexLeast | src/features/services/ui/CarServicesPageHistory.tsx:102 | the empty key `""` of a missing date is below every key, and only `""` is at most `""` |
| JsUri.DecodeWithoutPercent | src/features/owners/ui/OwnerCarHistoryPage.tsx:38 | `decodeURIComponent` is the identity on a string without `%` |
| JsUri.DecodeFailureNeedsPercent | src/features/owners/ui/OwnerCarHistoryPage.tsx:38 | `decodeURIComponent` throws only on a string with a `%` |
| JsUri.DecodeMalformedEscape | src/features/owners/ui/OwnerCarHistoryPage.tsx:38 | a first `%` not followed by two hex digits makes `decodeURIComponent` throw |
| JsUri.DecodeComponent | src/features/owners/ui/OwnerCarHistoryPage.tsx:38 | `decodeURIComponent` never lengthens the text: every escape is at least one char and yields one |
| JsUri.EncodeEmpty | src/features/owners/ui/OwnerScanQrPage.tsx:26 | `encodeURIComponent` gives the empty string exactly for the empty string |
| JsUri.EncodeComponent | src/features/owners/ui/OwnerScanQrPage.tsx:26 | `encodeURIComponent` output holds only unreserved chars and `%`, so every other char of the token travels escaped |
| JsUri.DecodeEncode | src/features/owners/ui/OwnerScanQrPage.tsx:26 | `decodeURIComponent(encodeURIComponent(s)) == s` for every string |
| JsNumber.ToNumber | src/features/services/ui/CarServicesPageHistory.tsx:75 | `Number(text)` is 0 for a blank text and otherwise the literal's value on the trimmed text |
| JsNumber.ToNumberOfTrim | src/features/services/ui/CarServicesPageHistory.tsx:75 | `Number` gives the same value on the trimmed text |
| Forms.OptionalTrimmed | src/features/cars/ui/MyCarsPage.tsx:146 | `v.trim() ? v.trim() : undefined` omits the field exactly for a blank text, and otherwise sends it non-empty and trimmed |
| Forms.OptionalTrimmedStable | src/features/cars/ui/MyCarsPage.tsx:146 | a sent value entered again is sent unchanged |
| Forms.CheckMileage | src/features/services/ui/CarServicesPageHistory.tsx:149-153 | the submit-time check accepts exactly the finite, non-negative numbers, and the accepted value is `Number(mileage)` |
| Forms.BlankMileageIsZero | src/features/services/ui/CarServicesPageHistory.tsx:149-153 | a blank mileage passes the submit-time check as 0 |
| Forms.BuildRequest | src/features/services/ui/CarServicesPageHistory.tsx:157-161 | the body exists exactly when the date converts, carries the checked mileage and omits the notes exactly when they are blank, otherwise trimmed |
| Forms.CloseUnlessBusy | src/features/services/ui/CarServicesPageHistory.tsx:131-134 | a close handler leaves the dialog as it is while busy and closes it otherwise |
| Calendar.Decimal | src/features/cars/ui/MyCarsPage.tsx:67 | `String(n)` is decimal digits with no leading zero, one digit below 10, two below 100, four for a four-digit year |
| Calendar.DecimalValue | src/features/cars/ui/MyCarsPage.tsx:67-69 | reading `String(n)` back gives `n` |
| Calendar.Pad2 | src/features/cars/ui/MyCarsPage.tsx:68-69 | `String(n).padStart(2, "0")` for `n < 100` is two digits that read back as `n` |
| Calendar.FormatDate | src/features/cars/ui/MyCarsPage.tsx:64-71 | for any year the default date ends in `-mm-dd`, and the year field, the month counted from 1 and the day each read back as given |
| Calendar.FormatDateShape | src/features/cars/ui/MyCarsPage.tsx:64-71 | for a four-digit year the default date is `yyyy-mm-dd`: ten chars, dashes at 4 and 7, and the fields read back as the year, the month counted from 1 and the day |
| TokenExtraction.FindKey | src/features/owners/ui/OwnerCarHistoryPage.tsx:46 | the corrected key search: the first index where `token=` occurs in any letter case in the text itself, with none before it, or none anywhere |
| TokenExtraction.TokenAfterKey | src/features/owners/ui/OwnerCarHistoryPage.tsx:48-50 | the text after the key up to the first `&`, trimmed, has no `&` and no surrounding white space |
| TokenExtraction.Prepare | src/features/owners/ui/OwnerCarHistoryPage.tsx:38 | the decoded and trimmed input; absent exactly when `decodeURIComponent` throws |
| TokenExtraction.ExtractToken | src/features/owners/ui/OwnerCarHistoryPage.tsx:37-54 | the corrected extraction throws exactly when decoding throws, because line 38 is outside the `try`; otherwise its result is trimmed |
| TokenExtraction.UrlTokenWins | src/features/owners/ui/OwnerCarHistoryPage.tsx:39-43 | in the corrected extraction too, a non-empty `token` URL parameter is returned trimmed, ahead of the `token=` scan |
| TokenExtraction.SelectFromKey | src/features/owners/ui/OwnerCarHistoryPage.tsx:46-50 | in the corrected extraction, with no URL token the first case-insensitive `token=` yields the text after it up to the first `&`, trimmed, which contains no `&` |
| TokenExtraction.BareTokenIsKept | src/features/owners/ui/OwnerCarHistoryPage.tsx:37-54 | a trimmed token with no `%`, no `token=` and no URL form maps to itself |
| TokenExtraction.EncodedTokenIsRecovered | src/features/owners/ui/OwnerScanQrPage.tsx:23-26 | a scanned token, percent-encoded into the route, is extracted unchanged, `%` and all |
| TokenExtraction.FirstKeyAfterPrefix | src/features/owners/ui/OwnerCarHistoryPage.tsx:46 | in the corrected key search, in `p + "token=" + rest` with no key in `p` the first key starts right after `p` |
| TokenExtraction.WrappedTokenIsRecovered | src/features/owners/ui/OwnerCarHistoryPage.tsx:46-50 | the corrected extraction gives back `t` from `p + "token=" + t + q` when `t` is trimmed without `&` or `%`, `p` holds no key, and `q` is empty or starts with `&` |
| TokenExtraction.ExtractTokenAsWritten | src/features/owners/ui/OwnerCarHistoryPage.tsx:37-54 | the extraction with the offset taken in `s.toLowerCase()`; it throws exactly when decoding throws, and otherwise its result is trimmed |
| TokenExtraction.UrlTokenWinsAsWritten | src/features/owners/ui/OwnerCarHistoryPage.tsx:39-43 | as written, a non-empty `token` URL parameter is returned trimmed, whatever `token=` the text also holds |
| TokenExtraction.SelectTokenAsWritten | src/features/owners/ui/OwnerCarHistoryPage.tsx:40-53 | the second stage as written keeps a trimmed input trimmed, and a token cut after a `token=` found in `s.toLowerCase()` holds no `&` |
| TokenExtraction.AsWrittenAgrees | src/features/owners/ui/OwnerCarHistoryPage.tsx:46-48 | without U+0130 in the decoded input, the extraction as written and the corrected one agree |
| TokenExtraction.AsWrittenDropsTokenChar | src/features/owners/ui/OwnerCarHistoryPage.tsx:46-48 | for `İtoken=abc` the extraction as written yields `bc` and the corrected one `abc` |
| TokenExtraction.KeyFirstAfter | src/features/owners/ui/OwnerCarHistoryPage.tsx:46 | in `x + "token=" + rest` with no `token=` in `x`, `indexOf` finds the key right after `x` |
| TokenExtraction.NoKeyWhenLowered | src/features/owners/ui/OwnerCarHistoryPage.tsx:46 | a text with no `token=` in any letter case has none in its lowercase either, U+0130 included |
| TokenExtraction.LoweredKeyIndex | src/features/owners/ui/OwnerCarHistoryPage.tsx:46 | the index `indexOf` returns in `s.toLowerCase()` is the key's index in `s` plus the number of U+0130 chars before it |
| TokenExtraction.AsWrittenCut | src/features/owners/ui/OwnerCarHistoryPage.tsx:46-50 | as written, `s` is cut where the key sits in `s.toLowerCase()`: after the lowercased text before the key, which `JsText.LowerLength` shows is longer by one char per U+0130 |
| TokenExtraction.AsWrittenFallback | src/features/owners/ui/OwnerCarHistoryPage.tsx:53 | as written, with neither a URL token nor a key in any letter case the prepared input is returned unchanged |
| TokenExtraction.SelectAgreement | src/features/owners/ui/OwnerCarHistoryPage.tsx:40-53 | the second stage as written equals the corrected one whenever no U+0130 precedes the first key |
| TokenExtraction.EncodedTokenIsRecoveredAsWritten | src/features/owners/ui/OwnerScanQrPage.tsx:23-26 | as written, a scanned token without a key, percent-encoded into the route, is extracted unchanged |
| TokenExtraction.WrappedTokenIsRecoveredAsWritten | src/features/owners/ui/OwnerCarHistoryPage.tsx:37-54 | as written, `p + "token=" + t + q` gives back `t` under the corrected round trip's conditions when `p` holds no U+0130 |
| OwnerHistoryPage.LoadLookup | src/features/owners/ui/OwnerCarHistoryPage.tsx:78-101 | nothing is looked up exactly when kind or value is missing; the `vin` kind queries by VIN and every other kind by token |
| OwnerHistoryPage.TitleValue | src/features/owners/ui/OwnerCarHistoryPage.tsx:72-75 | the header is empty without a value; it is missing, so rendering throws, exactly when decoding the value throws, for every kind |
| OwnerHistoryPage.TokenHeaderMatchesLookup | src/features/owners/ui/OwnerCarHistoryPage.tsx:73-100 | on a token route the header shows exactly the token queried, and fails exactly when the lookup fails |
| OwnerHistoryPage.VinHeaderMatchesLookup | src/features/owners/ui/OwnerCarHistoryPage.tsx:73-92 | on a VIN route the header shows exactly the VIN queried, and fails exactly when the lookup fails |
| OwnerHistoryPage.OtherKindHeaderDiffers | src/features/owners/ui/OwnerCarHistoryPage.tsx:73-100 | for a kind other than `vin` and `token` with value `token=abc`, the header shows `token=abc` while `abc` is queried |
| OwnerHistoryPage.ScannedTokenIsQueried | src/features/owners/ui/OwnerCarHistoryPage.tsx:93-97 | the token route reached from the scanner queries the scanned token itself, through the extraction as written |
| OwnerHistoryPage.ShiftedTokenIsQueried | src/features/owners/ui/OwnerCarHistoryPage.tsx:72-97 | on the route value `İtoken=abc` both the header and the lookup carry `bc`, as the code is written |
| OwnerHistoryPage.SearchedVinIsQueried | src/features/owners/ui/OwnerCarHistoryPage.tsx:85-90 | the VIN route reached from the owner search queries that VIN itself |
| OwnerHistoryPage.ReplaceOthers | src/features/owners/ui/OwnerCarHistoryPage.tsx:118 | the rewrite keeps the length, keeps each allowed char and replaces every other char by `_` |
| OwnerHistoryPage.Sanitize | src/features/owners/ui/OwnerCarHistoryPage.tsx:117-119 | the identifier has length min(len, 40), only allowed chars, and each position kept or replaced by `_` |
| OwnerHistoryPage.SanitizeKeepsIdentifier | src/features/owners/ui/OwnerCarHistoryPage.tsx:117-119 | a string that already is an identifier is kept unchanged |
| OwnerHistoryPage.SanitizeIdempotent | src/features/owners/ui/OwnerCarHistoryPage.tsx:117-119 | sanitising twice is sanitising once |
| OwnerHistoryPage.ReportIdentifier | src/features/owners/ui/OwnerCarHistoryPage.tsx:117-119 | the report's identifier, from the car's VIN on a VIN route and the header otherwise, is always an identifier and is its source when that already is one |
| OwnerHistoryPage.Slice | src/features/owners/ui/OwnerCarHistoryPage.tsx:177 | `slice(start, end)` is empty past the end and otherwise the items from `start` to `end` clamped to the length |
| OwnerHistoryPage.PagedItems | src/features/owners/ui/OwnerCarHistoryPage.tsx:175-178 | a page has at most `size` rows, row `k` is item `page*size + k`, and a page inside the list is full |
| OwnerHistoryPage.FirstPagesArePrefix | src/features/owners/ui/OwnerCarHistoryPage.tsx:175-178 | pages 0 to k-1 together are the first `k*size` items, in order |
| OwnerHistoryPage.AllPagesAreItems | src/features/owners/ui/OwnerCarHistoryPage.tsx:175-178 | enough pages show every item exactly once, in order |
| OwnerHistoryPage.ItemPage | src/features/owners/ui/OwnerCarHistoryPage.tsx:175-178 | item `i` appears as row `i % size` of page `i / size` |
| OwnerHistoryPage.Step | src/features/owners/ui/OwnerCarHistoryPage.tsx:298-307 | choosing a page keeps the rows per page; a new rows-per-page value also resets the page to 0 |
| OwnerHistoryPage.ResetShowsFirstRows | src/features/owners/ui/OwnerCarHistoryPage.tsx:68-70 | after the route changes (or the rows per page do) the table shows the first rows again |
| PendingGaragesPage.NormalizeStatus | src/features/admin/ui/PendingGaragesPage.tsx:44-50 | a missing status is Unknown |
| PendingGaragesPage.NormalizeStatusIgnoresCase | src/features/admin/ui/PendingGaragesPage.tsx:45 | a status and its lowercase classify the same |
| PendingGaragesPage.PendingWins | src/features/admin/ui/PendingGaragesPage.tsx:45-46 | a status mentioning `pending` in any letter case is Pending, whatever surrounds it |
| PendingGaragesPage.ApprovalWins | src/features/admin/ui/PendingGaragesPage.tsx:45-47 | a status mentioning `approved` or `accept` in any letter case, and nowhere `pending`, is Approved, whatever else it mentions |
| PendingGaragesPage.RejectionWins | src/features/admin/ui/PendingGaragesPage.tsx:45-48 | a status mentioning `rejected`, `declined` or `reject`, and neither `pending` nor an approval word, is Rejected |
| PendingGaragesPage.NoMentionIsUnknown | src/features/admin/ui/PendingGaragesPage.tsx:44-50 | a status whose lowercase mentions none of the seven words is Unknown; with the three lemmas above every status is classified |
| PendingGaragesPage.RejectedSubsumed | src/features/admin/ui/PendingGaragesPage.tsx:48 | the `rejected` test adds nothing to the `declined` and `reject` tests |
| PendingGaragesPage.LabelsReadBack | src/features/admin/ui/PendingGaragesPage.tsx:52-57 | each chip's label classifies back as its own status |
| PendingGaragesPage.ChipProps | src/features/admin/ui/PendingGaragesPage.tsx:52-57 | warning, success, error and default each belong to exactly one status |
| PendingGaragesPage.ChipColorInjective | src/features/admin/ui/PendingGaragesPage.tsx:52-57 | different statuses get different colours |
| PendingGaragesPage.RowActions | src/features/admin/ui/PendingGaragesPage.tsx:242-268 | a row offers approve and reject exactly when its status classifies as Pending, and no action otherwise |
| PendingGaragesPage.OpenConfirm | src/features/admin/ui/PendingGaragesPage.tsx:97-99 | a row button opens the dialog so that confirming makes that action's call on that garage and closes the dialog |
| PendingGaragesPage.RunAction | src/features/admin/ui/PendingGaragesPage.tsx:105-115 | nothing happens exactly when the action or the garage is unset; otherwise the dialog closes and approve calls approve, reject calls reject, on that garage's id |
| PendingGaragesPage.CallsOnlyForPending | src/features/admin/ui/PendingGaragesPage.tsx:242-262 | a call made through a row button is that button's action on a garage whose status is Pending |
| PendingGaragesPage.ActionSnack | src/features/admin/ui/PendingGaragesPage.tsx:117-129 | success names the garage after `Approved: ` or `Rejected: `; failure shows the error's message, or `Action failed` |
| PendingGaragesPage.SnackNamesCall | src/features/admin/ui/PendingGaragesPage.tsx:105-129 | after a successful call the snack names the call made and the garage it was made on |
| PendingGaragesPage.FailureSnackAfterClose | src/features/admin/ui/PendingGaragesPage.tsx:105-129 | a failed call is reported with the error's message or `Action failed`, the confirmation already closed |
| CarServicesHistoryPage.SortNewestFirst | src/features/services/ui/CarServicesPageHistory.tsx:101 | the displayed history is a permutation of the fetched list |
| CarServicesHistoryPage.SortIsNewestFirst | src/features/services/ui/CarServicesPageHistory.tsx:101-103 | the displayed history never goes up in date from one row to a later one |
| CarServicesHistoryPage.SortKeepsOrderOfEqualDates | src/features/services/ui/CarServicesPageHistory.tsx:101-103 | entries with the same date keep their fetched order |
| CarServicesHistoryPage.MissingDateSortsLast | src/features/services/ui/CarServicesPageHistory.tsx:102 | every entry after one without a date also has the empty date key |
| CarServicesHistoryPage.BeginLoad | src/features/services/ui/CarServicesPageHistory.tsx:85-99 | a fetch is made exactly when both garage and car are present; otherwise `No garage logged in.` or `CarId missing from URL.` |
| CarServicesHistoryPage.Load | src/features/services/ui/CarServicesPageHistory.tsx:81-110 | a refusal empties the table with its message; fetched data is shown in the stable newest-first order, a permutation of it; a failure keeps the rows and shows the message or `Failed to load service history` |
| CarServicesHistoryPage.Submit | src/features/services/ui/CarServicesPageHistory.tsx:136-161 | login, car and mileage are checked in that order with their messages; once they pass, the form is sent exactly when the date converts and the date error is shown otherwise; what is sent carries the checked mileage and the body built from the form |
| CarServicesHistoryPage.SubmitRejectsBadMileage | src/features/services/ui/CarServicesPageHistory.tsx:149-153 | a non-finite or negative mileage is never sent |
| CarServicesHistoryPage.CanSave | src/features/services/ui/CarServicesPageHistory.tsx:69-79 | an enabled Save never meets one of submit's refusals; an empty date, a blank mileage or a save in progress disables it; with a mileage typed, Save is enabled exactly when a date is chosen, nothing is saving and submit's checks pass |
| CarServicesHistoryPage.CanSaveSends | src/features/services/ui/CarServicesPageHistory.tsx:69-79 | when Save is enabled and the date converts, submitting sends `Number(mileage)` |
| CarServicesHistoryPage.BlankMileageSentAsZero | src/features/services/ui/CarServicesPageHistory.tsx:323 | through the hidden submit button a whitespace-only mileage, which disables Save, is sent as 0 |
| CarServicesHistoryPage.OpenDialog | src/features/services/ui/CarServicesPageHistory.tsx:117-129 | opening sets today's date in the `yyyy-mm-dd` form, empties mileage and notes and clears the error |
| CarServicesHistoryPage.FinishSubmit | src/features/services/ui/CarServicesPageHistory.tsx:163-171 | success closes the dialog; failure keeps it and shows the message or `Failed to add service record`; saving ends either way |
| CarServicesHistoryPage.CloseDialog | src/features/services/ui/CarServicesPageHistory.tsx:131-134 | closing is a no-op while saving |
| CarServicesHistoryPage.OpenForgetsLastSession | src/features/services/ui/CarServicesPageHistory.tsx:117-129 | reopening the dialog starts from the same empty form whatever the last session left |
| CarServicesHistoryPage.FinishedDialogCloses | src/features/services/ui/CarServicesPageHistory.tsx:131-171 | once a save has finished, either way, closing the dialog succeeds |
| CarServicesHistoryPage.FailedSaveResubmits | src/features/services/ui/CarServicesPageHistory.tsx:136-171 | a failed save keeps the typed form, so pressing Save again sends the same request |
| CarServicesHistoryPage.SaveErrorIsApiMessage | src/features/services/ui/CarServicesPageHistory.tsx:163-171 | a failed POST shows exactly the `toServiceError` message of the error |
| MyCarsPage.CanCreateIgnoresVin | src/features/cars/ui/MyCarsPage.tsx:78-80 | the VIN field never affects the Create button |
| MyCarsPage.CanCreate | src/features/cars/ui/MyCarsPage.tsx:78-80 | Create is enabled exactly when nothing is saving and submitting would send the request |
| MyCarsPage.SubmitCreate | src/features/cars/ui/MyCarsPage.tsx:129-147 | a request is made exactly when logged in with a non-blank plate; it carries the trimmed plate and the VIN trimmed or omitted; the two refusals carry their messages |
| MyCarsPage.CanCreateSends | src/features/cars/ui/MyCarsPage.tsx:78-80 | an enabled Create button always leads to a request |
| MyCarsPage.OpenCarDialog | src/features/cars/ui/MyCarsPage.tsx:117-122 | opening empties plate and VIN and clears the error |
| MyCarsPage.FinishCreate | src/features/cars/ui/MyCarsPage.tsx:148-155 | success closes the dialog; failure keeps it and shows the message or `Failed to create car`; saving ends either way |
| MyCarsPage.CloseCarDialog | src/features/cars/ui/MyCarsPage.tsx:124-127 | closing is a no-op while the car is saved |
| MyCarsPage.OpenCarDialogForgets | src/features/cars/ui/MyCarsPage.tsx:117-122 | reopening the dialog starts empty whatever the last session left |
| MyCarsPage.FinishedCarDialogCloses | src/features/cars/ui/MyCarsPage.tsx:124-155 | once a create has finished, either way, closing the dialog succeeds |
| MyCarsPage.FailedCreateResubmits | src/features/cars/ui/MyCarsPage.tsx:129-155 | a failed create keeps plate and VIN, so pressing Create again sends the same request |
| MyCarsPage.SubmitService | src/features/cars/ui/MyCarsPage.tsx:180-206 | login, car and mileage are checked in that order with their messages; once they pass, the form is sent exactly when the date converts and the date error is shown otherwise; what is sent carries the checked mileage and the body built from the form |
| MyCarsPage.CanCreateServiceAsWritten | src/features/cars/ui/MyCarsPage.tsx:82-90 | the Save button as written is disabled by an empty date, a blank mileage or a save in progress; an enabled one never meets a refusal of submit, except that with an infinite mileage it always meets the mileage refusal |
| MyCarsPage.CanCreateService | src/features/cars/ui/MyCarsPage.tsx:82-90 | the corrected guard: disabled by an empty date, a blank mileage or a save in progress; with a mileage typed, enabled exactly when a date is chosen, nothing is saving and submit's checks pass; an enabled button never meets a refusal of submit |
| MyCarsPage.InfinityEnablesButtonButIsRefused | src/features/cars/ui/MyCarsPage.tsx:82-90 | with mileage `Infinity` the button as written is enabled, the corrected guard is not, and submitting refuses the mileage |
| MyCarsPage.CanCreateServiceSends | src/features/cars/ui/MyCarsPage.tsx:82-90 | under the corrected guard an enabled button sends `Number(mileage)` whenever the date converts |
| MyCarsPage.CorrectedGuardNarrows | src/features/cars/ui/MyCarsPage.tsx:87 | the corrected guard is the guard as written minus exactly the positive-infinite mileages |
| MyCarsPage.BlankServiceMileageSentAsZero | src/features/cars/ui/MyCarsPage.tsx:534 | through the hidden submit button a whitespace-only mileage, which disables the button, is sent as 0 |
| MyCarsPage.OpenServiceDialog | src/features/cars/ui/MyCarsPage.tsx:158-173 | opening selects the row's car and plate, sets today's date, empties mileage and notes and clears both messages |
| MyCarsPage.CloseServiceDialog | src/features/cars/ui/MyCarsPage.tsx:175-178 | closing is a no-op while the record is saved |
| MyCarsPage.DoneMessage | src/features/cars/ui/MyCarsPage.tsx:209 | the success line names the car's plate |
| MyCarsPage.FinishService | src/features/cars/ui/MyCarsPage.tsx:207-218 | car, plate and typed form are kept; success closes the dialog and shows the plate's line; failure keeps it open with the message or `Failed to add service record`; saving ends either way |
| MyCarsPage.OpenServiceDialogForgets | src/features/cars/ui/MyCarsPage.tsx:158-173 | reopening the dialog for a car starts from the same form whatever the last session left |
| MyCarsPage.FinishedServiceDialogCloses | src/features/cars/ui/MyCarsPage.tsx:175-218 | once a save has finished, either way, closing the dialog succeeds |
| MyCarsPage.FailedServiceResubmits | src/features/cars/ui/MyCarsPage.tsx:180-218 | a failed save keeps car and form, so pressing Save again sends the same request |
| MyCarsPage.ServiceErrorIsApiMessage | src/features/cars/ui/MyCarsPage.tsx:207-218 | a failed POST shows exactly the `toServiceError` message of the error |
| MyCarsPage.OpenQrDialog | src/features/cars/ui/MyCarsPage.tsx:237-243 | opening selects the car, clears the error and starts loading |
| MyCarsPage.FinishQr | src/features/cars/ui/MyCarsPage.tsx:244-251 | loading ends and the dialog and car are kept; a failure shows its message or `Failed to load QR` |
| MyCarsPage.CloseQrDialog | src/features/cars/ui/MyCarsPage.tsx:254-257 | closing is a no-op while the QR image loads |
| MyCarsPage.QrCloseWaitsForImage | src/features/cars/ui/MyCarsPage.tsx:237-257 | a just-opened dialog cannot be closed; once the image request has finished, either way, it can |
| CreateGarageForm.PwMismatch | src/features/garages/ui/CreateGarageForm.tsx:35 | no mismatch is shown while either password field is empty |
| CreateGarageForm.MismatchMatchesSubmit | src/features/garages/ui/CreateGarageForm.tsx:34-57 | with both password fields filled in, the indicator shows exactly when submitting refuses, and does not depend on which field holds which value |
| CreateGarageForm.Submit | src/features/garages/ui/CreateGarageForm.tsx:49-61 | unequal passwords are refused with `Passwords do not match.`, and otherwise the five fields are sent as typed |
| CreateGarageForm.MismatchRefused | src/features/garages/ui/CreateGarageForm.tsx:54-57 | a shown mismatch always stops submission, and so does an empty confirmation, which shows none |
| CreateGarageForm.CanSubmit | src/features/garages/ui/CreateGarageForm.tsx:39-47 | Register is enabled exactly when nothing is saving and submitting would send a request whose password is non-empty and whose name, city, email and username are not blank; the request carries the fields as typed |
| CreateGarageForm.CanSubmitRegisters | src/features/garages/ui/CreateGarageForm.tsx:39-61 | an enabled Register button leads to a request carrying the password, equal to its confirmation |
| CreateGarageForm.RawFieldsSent | src/features/garages/ui/CreateGarageForm.tsx:61 | the guard tests trimmed fields but the untrimmed name is sent |
| CreateGarageForm.Finish | src/features/garages/ui/CreateGarageForm.tsx:62-73 | success names the status and clears all six fields; failure keeps the fields and shows the message or `Failed to register garage`; saving ends either way |
| CreateGarageForm.FailedRegistrationResubmits | src/features/garages/ui/CreateGarageForm.tsx:49-73 | a failed registration keeps the fields, so submitting again sends the same request |
| CreateGarageForm.RegisteredFormIsReset | src/features/garages/ui/CreateGarageForm.tsx:39-73 | after a registration the cleared form disables Register and shows no mismatch |
| ServicesApi.Property | src/features/services/servicesApi.ts:26-27 | `data?.[key]` is undefined on a non-object or a missing key |
| ServicesApi.ToServiceError | src/features/services/servicesApi.ts:20-30 | a string body is the message verbatim; otherwise a truthy `detail`, then a truthy `message`, each through `String`, arrays joined with commas; then the error's own message or `Failed to add service record.` |
| ServicesApi.DetailBeatsMessage | src/features/services/servicesApi.ts:26-27 | with a truthy `detail` the body's `message` plays no part |
| ServicesApi.StringFieldsVerbatim | src/features/services/servicesApi.ts:26-27 | a string `detail` or `message` that is chosen is the message verbatim |
| ServicesApi.FallbackNonEmpty | src/features/services/servicesApi.ts:29 | the fallback message is never empty, and is the fixed default when the error's own message is empty |
| ServicesApi.JoinCommaCount | src/features/services/servicesApi.ts:26 | `String` of an array of comma-free parts holds one comma fewer than the parts |
| ServicesApi.ArrayBodyFallsBack | src/features/services/servicesApi.ts:20-30 | an array body has no `detail` or `message`, so the error's own message or the default is used |
| ServicesApi.EmptyArrayDetailIsEmpty | src/features/services/servicesApi.ts:26 | a `detail` of `[]` is truthy and gives the empty message |
| ServicesApi.CreateService | src/features/services/servicesApi.ts:37-45 | `createService` resolves exactly when the POST succeeds, with its data, and every failure is rejected with the `toServiceError` message |

## Left out

- The HTTP wrappers (`carsApi`, `ownerApi`, `adminApi`, `authApi`, `garagesApi`, `http`, and `getCarServices` in `servicesApi`) are thin axios calls. The server's rules behind them are not client behaviour. The results they return enter the model as parameters.
- Session storage, rendering, routing, i18n, the camera scanner, the QR image blob and object URLs, and the drawing and file name of the PDF report are presentation or library plumbing. The report identifier is modelled, the rest of the file name is not.
- Floating point is not modelled: a finite `Number` is a real number. The literal grammar of `Number`, `new Date(s).toISOString()`, `Number`'s `toString` and the clock are parameters.
- `new URL(s).searchParams.get("token")` is a parameter. URL parsing and the parameter's own decoding are not modelled.
- `localeCompare` is modelled as code-point lexicographic order, not as the browser's locale collation.
- A JavaScript string is modelled as a sequence of Unicode scalar values. Lone surrogates and the two-unit length of chars outside the Basic Multilingual Plane are not modelled.
- Whether the router percent-decodes `:value` before the page sees it is not modelled. The page's own `decodeURIComponent` is applied to the route value as given.
- `OwnerHomePage`'s search guard (trimmed VIN of at least 5 chars) is a one-line guard around an API call and is not modelled. The navigation after a search is covered by `OwnerHistoryPage.SearchedVinIsQueried`.
- Loading flags, `Promise.all`, the reload after a successful save and effect scheduling are async interleavings and are not modelled.
- `String(raw)` of a garage status is modelled for string and missing statuses only. A number or object status is not modelled.
- The car list's `load` and the admin list's `load` are single API calls with a default error message, and are not modelled.
- The row numbers `page` and `rowsPerPage` are naturals. A negative page and a `parseInt` that yields `NaN` are not modelled.
- Calendar.FormatDateShape: stated for four-digit years only. A year below 1000 gives a shorter year field, exactly as `String(yyyy)` does. `Calendar.FormatDate` states the shape for every year.
- PendingGaragesPage.NormalizeStatus: its own contract states only the missing-status case. The classification is stated by `PendingWins`, `ApprovalWins`, `RejectionWins`, `NoMentionIsUnknown` and `LabelsReadBack`.
- TokenExtraction.FindKey: the corrected key search, in the text itself. The page as written searches `s.toLowerCase()`; that search is `TokenExtraction.LoweredKeyIndex`, and the two differ by the U+0130 chars before the key.
- TokenExtraction.SelectFromKey: states the corrected cut. The cut as written is `TokenExtraction.AsWrittenCut`.
- TokenExtraction.FirstKeyAfterPrefix: states the corrected key search. For `s.toLowerCase()` the same fact is `TokenExtraction.KeyFirstAfter` after `TokenExtraction.LoweredKeyIndex`.
- TokenExtraction.ExtractToken: the corrected extraction, not lines 37-54 as written. The page model uses `TokenExtraction.ExtractTokenAsWritten`, and `TokenExtraction.AsWrittenAgrees` says when the two coincide.
- TokenExtraction.WrappedTokenIsRecovered: proved for the corrected extraction. As written it fails for a `p` holding U+0130; `TokenExtraction.WrappedTokenIsRecoveredAsWritten` states the round trip for every other `p`.
- JsText.ToLower: only ASCII letters, U+212A and U+0130 are mapped. Other case mappings, including the context-dependent final sigma, are left as they are. None of them adds or removes an ASCII letter or changes the length, so `token=` and the status words are found at the same places.
- ServicesApi.Property: reading an array by index or `length` is not modelled. An array gives undefined for every key, as it does for `detail` and `message`.
- The `required` attribute and `inputMode` of the form fields are not modelled: the submit functions take the fields as they are.

Observations that are not findings:

- Both add-service dialogs hold a hidden `<button type="submit">`, so Enter submits whatever the visible button's state. A whitespace-only mileage passes the field's `required` attribute, disables the visible button, and is then sent as 0 (`CarServicesHistoryPage.BlankMileageSentAsZero`, `MyCarsPage.BlankServiceMileageSentAsZero`). So on that input the submit-time check is weaker than the button guard, not stronger.
- The route's `kind` is typed `"vin" | "token"`. Any other kind reaches the token lookup, but its header shows the merely decoded value (`OwnerHistoryPage.OtherKindHeaderDiffers`).
- The regular expression `/[^a-z0-9_-]/gi` has no `u` flag, so its class holds ASCII letters only. KELVIN SIGN and other non-ASCII letters become `_`.
- The registration form has no hidden submit button, and its one submit button is disabled by `canSubmit`.
- On the owner history page `titleValue` runs the same decode or `extractToken` during render, before the `load` effect. A value whose decoding throws makes rendering throw, so the `catch` in `load` never shows that error (`OwnerHistoryPage.TokenHeaderMatchesLookup`, `OwnerHistoryPage.TitleValue`).
- A `detail` of `[]` is truthy and gives an empty message (`ServicesApi.EmptyArrayDetailIsEmpty`).
- In both add-service dialogs the default failure text is never shown for a failed POST: `createService` always rejects with a message (`CarServicesHistoryPage.SaveErrorIsApiMessage`, `MyCarsPage.ServiceErrorIsApiMessage`).

## Findings

| source | as written | input that shows it | evidently intended | confidence | as-written member | corrected member |
|---|---|---|---|---|---|---|
| src/features/owners/ui/OwnerCarHistoryPage.tsx:46-48 | the index of `token=` is found in `s.toLowerCase()` and then used to cut `s`; U+0130 lowercases to two code units, so every later index is shifted by one | the route value `İtoken=abc` yields the token `bc` | the token after `token=` in `s` itself, here `abc` | not executed | TokenExtraction.AsWrittenDropsTokenChar | TokenExtraction.WrappedTokenIsRecovered |
| src/features/cars/ui/MyCarsPage.tsx:87 | `canCreateService` rejects only `NaN`, so an infinite mileage enables Save, while `submitService` (line 195) and the history page's `canSave` require a finite one | mileage `Infinity` enables the button, and pressing it shows `Mileage must be a valid non-negative number.` | `Number.isFinite`, as in the submit check | not executed | MyCarsPage.InfinityEnablesButtonButIsRefused | MyCarsPage.CanCreateServiceSends |

In the first row, `TokenExtraction.ExtractTokenAsWritten` models the code as
written, and the owner history page model uses it, as the page does.
`TokenExtraction.ExtractToken` is the corrected extraction, which finds the key
in a length-preserving fold of `s`; it carries the intended round trips. The
as-written extraction keeps them when no U+0130 precedes the key
(`TokenExtraction.WrappedTokenIsRecoveredAsWritten`). In the second row,
`MyCarsPage.CanCreateServiceAsWritten` is the guard as written, which the page
uses. `MyCarsPage.CanCreateService` is the corrected guard.
