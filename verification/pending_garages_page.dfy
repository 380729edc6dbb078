/**
 The admin's garage list: the free-text status each garage carries is
 classified into four statuses, shown as a coloured chip, and only pending
 garages offer the approve and reject actions, which go through a
 confirmation dialog.
 */
module PendingGaragesPage {
  import opened Wrappers
  import opened JsText

  // ---------------------------------------------------------------------------
  // Status classification
  // ---------------------------------------------------------------------------

  datatype Status = Pending | Approved | Rejected | Unknown

  /** The substring tests of `normalizeStatus`, on the lowercase text. */
  predicate MentionsPending(s: string) {
    Contains(s, "pending")
  }

  predicate MentionsApproval(s: string) {
    Contains(s, "approved") || Contains(s, "accept")
  }

  predicate MentionsRejection(s: string) {
    Contains(s, "rejected") || Contains(s, "declined") || Contains(s, "reject")
  }

  /** `String(raw ?? "")` for the string or missing status the server sends. */
  function StatusText(raw: Option<string>): string {
    raw.GetOr("")
  }

  /**
   `normalizeStatus`: the lowercase text is tested for `pending`, then for
   `approved` or `accept`, then for `rejected`, `declined` or `reject`.
   */
  function NormalizeStatus(raw: Option<string>): (r: Status)
    ensures raw.None? ==> r == Unknown
  {
    var s := ToLower(StatusText(raw));
    if MentionsPending(s) then Pending
    else if MentionsApproval(s) then Approved
    else if MentionsRejection(s) then Rejected
    else Unknown
  }

  /** Lowercasing the status first changes nothing. */
  lemma NormalizeStatusIgnoresCase(s: string)
    ensures NormalizeStatus(Some(ToLower(s))) == NormalizeStatus(Some(s))
  {
    ToLowerIdempotent(s);
  }

  /** Whatever else it says, a status mentioning `pending` in any letter case is Pending. */
  lemma PendingWins(p: string, w: string, q: string)
    requires ToLower(w) == "pending"
    ensures NormalizeStatus(Some(p + w + q)) == Pending
  {
    LowerAround(p, w, q);
    OccursBetween(ToLower(p), ToLower(w), ToLower(q));
  }

  /**
   A status that does not mention `pending` and mentions `approved` or `accept`
   in any letter case is Approved, whatever rejection it also mentions.
   */
  lemma ApprovalWins(p: string, w: string, q: string)
    requires ToLower(w) == "approved" || ToLower(w) == "accept"
    requires !MentionsPending(ToLower(p + w + q))
    ensures NormalizeStatus(Some(p + w + q)) == Approved
  {
    LowerAround(p, w, q);
    OccursBetween(ToLower(p), ToLower(w), ToLower(q));
  }

  /**
   A status that mentions neither `pending` nor an approval and mentions
   `rejected`, `declined` or `reject` in any letter case is Rejected.
   */
  lemma RejectionWins(p: string, w: string, q: string)
    requires ToLower(w) == "rejected" || ToLower(w) == "declined" || ToLower(w) == "reject"
    requires !MentionsPending(ToLower(p + w + q)) && !MentionsApproval(ToLower(p + w + q))
    ensures NormalizeStatus(Some(p + w + q)) == Rejected
  {
    LowerAround(p, w, q);
    OccursBetween(ToLower(p), ToLower(w), ToLower(q));
  }

  /** A status whose lowercase mentions none of the words is Unknown. */
  lemma NoMentionIsUnknown(p: string)
    requires !MentionsPending(ToLower(p))
    requires !MentionsApproval(ToLower(p))
    requires !MentionsRejection(ToLower(p))
    ensures NormalizeStatus(Some(p)) == Unknown
  {
  }

  /** Lowercasing `p + w + q` lowercases the three pieces. */
  lemma LowerAround(p: string, w: string, q: string)
    ensures ToLower(p + w + q) == ToLower(p) + ToLower(w) + ToLower(q)
  {
    ToLowerConcat(p + w, q);
    ToLowerConcat(p, w);
  }

  /** The middle piece of `a + t + b` occurs at `|a|`. */
  lemma OccursBetween(a: string, t: string, b: string)
    ensures OccursAt(a + t + b, t, |a|)
  {
    assert (a + t + b)[|a|..|a| + |t|] == t;
  }

  /** The `rejected` test adds nothing: every text containing `rejected` contains `reject`. */
  lemma RejectedSubsumed(s: string)
    ensures MentionsRejection(s) <==> Contains(s, "declined") || Contains(s, "reject")
  {
    if Contains(s, "rejected") {
      ContainsPrefix(s, "rejected", "reject");
    }
  }

  /** `normalizeStatus` names the status it sees: a label reads back as its own status. */
  lemma LabelsReadBack(st: Status)
    ensures NormalizeStatus(Some(ChipProps(st).labelText)) == st
  {
    match st
    case Pending => PendingLabel();
    case Approved => ApprovedLabel();
    case Rejected => RejectedLabel();
    case Unknown => UnknownLabel();
  }

  lemma PendingLabel()
    ensures NormalizeStatus(Some("Pending")) == Pending
  {
    LowerLabel("Pending", "pending");
    assert OccursAt("pending", "pending", 0);
  }

  lemma ApprovedLabel()
    ensures NormalizeStatus(Some("Approved")) == Approved
  {
    LowerLabel("Approved", "approved");
    ApprovedText("approved");
  }

  lemma RejectedLabel()
    ensures NormalizeStatus(Some("Rejected")) == Rejected
  {
    LowerLabel("Rejected", "rejected");
    RejectedText("rejected");
  }

  lemma UnknownLabel()
    ensures NormalizeStatus(Some("Unknown")) == Unknown
  {
    LowerLabel("Unknown", "unknown");
    UnknownText("unknown");
  }

  /** A chip label is its lowercase text with the first letter capitalised. */
  lemma LowerLabel(text: string, l: string)
    requires text != [] && 'A' <= text[0] <= 'Z' && l == [FoldChar(text[0])] + text[1..]
    requires forall i :: 1 <= i < |text| ==> 'a' <= text[i] <= 'z'
    ensures ToLower(text) == l
  {
    ToLowerFixed(text[1..]);
    assert text == [text[0]] + text[1..];
    ToLowerConcat([text[0]], text[1..]);
  }

  lemma ApprovedText(l: string)
    requires l == "approved"
    ensures !MentionsPending(l) && Contains(l, "approved")
  {
    forall j ensures !OccursAt(l, "pending", j) {
      if 0 <= j <= 1 {
        MismatchAt(l, "pending", j, 1);
      }
    }
    ContainsIff(l, "pending");
    assert OccursAt(l, "approved", 0);
  }

  lemma RejectedText(l: string)
    requires l == "rejected"
    ensures !MentionsPending(l) && !MentionsApproval(l) && Contains(l, "rejected")
  {
    NotAtAnyIndex(l, "pending");
    NoLongerNeedle(l, "approved");
    NotAtAnyIndex(l, "accept");
    assert OccursAt(l, "rejected", 0);
  }

  lemma UnknownText(l: string)
    requires l == "unknown"
    ensures !MentionsPending(l) && !MentionsApproval(l) && !MentionsRejection(l)
  {
    NoLongerNeedle(l, "pending");
    NoLongerNeedle(l, "approved");
    NotAtAnyIndex(l, "accept");
    NoLongerNeedle(l, "rejected");
    NoLongerNeedle(l, "declined");
    NotAtAnyIndex(l, "reject");
  }

  /** A needle that does not fit in the text does not occur in it. */
  lemma NoLongerNeedle(s: string, t: string)
    requires |s| <= |t| && s != t
    ensures !Contains(s, t)
  {
    forall j ensures !OccursAt(s, t, j) {
      if 0 <= j && j + |t| <= |s| {
        assert j == 0 && s[j..j + |t|] == s;
      }
    }
    ContainsIff(s, t);
  }

  /** One differing char rules out an occurrence at `j`. */
  lemma MismatchAt(s: string, t: string, j: int, k: nat)
    requires k < |t| && 0 <= j + k < |s| && s[j + k] != t[k]
    ensures !OccursAt(s, t, j)
  {
    if 0 <= j && j + |t| <= |s| {
      assert s[j..j + |t|][k] != t[k];
    }
  }

  /** A needle whose first char is missing from the text does not occur in it. */
  lemma NotAtAnyIndex(s: string, t: string)
    requires t != [] && t[0] !in s
    ensures !Contains(s, t)
  {
    forall j ensures !OccursAt(s, t, j) {
      if 0 <= j && j + |t| <= |s| {
        assert s[j..j + |t|][0] == s[j];
      }
    }
    ContainsIff(s, t);
  }

  // ---------------------------------------------------------------------------
  // Chips and actions
  // ---------------------------------------------------------------------------

  datatype ChipColor = Warning | Success | Error | Default

  datatype Chip = Chip(labelText: string, color: ChipColor)

  /** `statusChipProps`. */
  function ChipProps(st: Status): (r: Chip)
    ensures st == Pending <==> r.color == Warning
    ensures st == Approved <==> r.color == Success
    ensures st == Rejected <==> r.color == Error
    ensures st == Unknown <==> r.color == Default
  {
    match st
    case Pending => Chip("Pending", Warning)
    case Approved => Chip("Approved", Success)
    case Rejected => Chip("Rejected", Error)
    case Unknown => Chip("Unknown", Default)
  }

  /** Different statuses get different colours. */
  lemma ChipColorInjective(a: Status, b: Status)
    requires ChipProps(a).color == ChipProps(b).color
    ensures a == b
  {
  }

  /** `GarageDto`. */
  datatype Garage = Garage(id: string, name: string, city: string, email: string, username: string, status: Option<string>)

  datatype Action = Approve | Reject

  /** The buttons a row renders: approve and reject for a pending garage, none otherwise. */
  function RowActions(g: Garage): (r: seq<Action>)
    ensures r != [] <==> NormalizeStatus(g.status) == Pending
    ensures r != [] ==> r == [Approve, Reject]
  {
    if NormalizeStatus(g.status) == Pending then [Approve, Reject] else []
  }

  /** The confirmation dialog's state. */
  datatype Confirm = Confirm(open: bool, action: Option<Action>, garage: Option<Garage>)

  const ClosedConfirm := Confirm(false, None, None)

  /**
   `openConfirm`: a row button opens the dialog for its action and garage, so
   confirming makes that action's call on that garage and closes the dialog.
   */
  function OpenConfirm(a: Action, g: Garage): (r: Confirm)
    ensures r.open
    ensures RunAction(r) == Called(if a == Approve then ApproveCall(g.id) else RejectCall(g.id), g, ClosedConfirm)
  {
    Confirm(true, Some(a), Some(g))
  }

  /** The server call an action makes. */
  datatype AdminCall = ApproveCall(id: string) | RejectCall(id: string)

  /** What the confirm button does. */
  datatype RunOutcome =
    | Ignored                                         // no action or no garage: nothing happens
    | Called(call: AdminCall, garage: Garage, next: Confirm) // the dialog closes and the call is made

  /** `runAction`. */
  function RunAction(c: Confirm): (r: RunOutcome)
    ensures r.Ignored? <==> c.action.None? || c.garage.None?
    ensures r.Called? ==> r.next == ClosedConfirm
    ensures r.Called? ==> r.garage == c.garage.value
    ensures r.Called? ==> (r.call == ApproveCall(c.garage.value.id) <==> c.action.value == Approve)
    ensures r.Called? ==> (r.call == RejectCall(c.garage.value.id) <==> c.action.value == Reject)
  {
    if c.action.None? || c.garage.None? then Ignored
    else match c.action.value
      case Approve => Called(ApproveCall(c.garage.value.id), c.garage.value, ClosedConfirm)
      case Reject => Called(RejectCall(c.garage.value.id), c.garage.value, ClosedConfirm)
  }

  /**
   Every call made through the row buttons is the button's own action on a
   garage whose status reads as pending.
   */
  lemma CallsOnlyForPending(g: Garage, a: Action)
    requires a in RowActions(g)
    ensures NormalizeStatus(g.status) == Pending
    ensures RunAction(OpenConfirm(a, g)) == Called(
      if a == Approve then ApproveCall(g.id) else RejectCall(g.id), g, ClosedConfirm)
  {
  }

  datatype Severity = SuccessSeverity | ErrorSeverity

  datatype Snack = Snack(severity: Severity, message: string)

  /**
   The snackbar after the call: `Approved: <name>` or `Rejected: <name>` on
   success; on failure the error's message, or "Action failed" without one.
   */
  function ActionSnack(a: Action, g: Garage, failure: Option<Option<string>>): (r: Snack)
    ensures failure.None? ==> r.severity == SuccessSeverity
    ensures failure.None? && a == Approve ==> r.message == "Approved: " + g.name
    ensures failure.None? && a == Reject ==> r.message == "Rejected: " + g.name
    ensures failure.Some? ==> r.severity == ErrorSeverity && r.message == failure.value.GetOr("Action failed")
  {
    match failure
    case None => Snack(SuccessSeverity, if a == Approve then "Approved: " + g.name else "Rejected: " + g.name)
    case Some(m) => Snack(ErrorSeverity, m.GetOr("Action failed"))
  }

  /** After a successful call the snackbar names the call that was made and the garage it was made on. */
  lemma SnackNamesCall(c: Confirm)
    requires RunAction(c).Called?
    ensures var out := RunAction(c);
      ActionSnack(c.action.value, out.garage, None)
        == Snack(SuccessSeverity, (if out.call.ApproveCall? then "Approved: " else "Rejected: ") + out.garage.name)
  {
  }

  /** A failed call is reported with the error's message, the confirmation already closed. */
  lemma FailureSnackAfterClose(c: Confirm, m: Option<string>)
    requires RunAction(c).Called?
    ensures RunAction(c).next == ClosedConfirm
    ensures ActionSnack(c.action.value, RunAction(c).garage, Some(m)) == Snack(ErrorSeverity, m.GetOr("Action failed"))
  {
  }
}
