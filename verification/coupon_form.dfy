/** The admin coupon page (frontend/src/pages/admin/Coupons.jsx): the status
    chip shown for each coupon and the checks `handleSubmit` runs before it
    calls the coupon service. */
module CouponForm {
  import opened Wrappers
  import Coupons

  /** The chip labels of `getStatusChip`. */
  datatype Chip = InactiveChip | ExpiredChip | ScheduledChip | ActiveChip

  /** Switched off first; then past the end; then before the start. */
  function StatusChip(c: Coupons.Coupon, now: int): (chip: Chip)
    ensures chip == InactiveChip <==> !c.isActive
    ensures chip == ExpiredChip <==> c.isActive && now > c.validTo
    ensures chip == ScheduledChip <==> c.isActive && now <= c.validTo && now < c.validFrom
    ensures chip == ActiveChip <==> c.isActive && c.validFrom <= now <= c.validTo
  {
    if !c.isActive then InactiveChip
    else if now > c.validTo then ExpiredChip
    else if now < c.validFrom then ScheduledChip
    else ActiveChip
  }

  /** The page and the server agree on which coupons are active and which
      are inactive; a coupon the page shows as expired or scheduled is one
      the server reports as expired, so a future-dated coupon is
      "scheduled" on the page but "expired" on the server. */
  lemma ChipAgreesWithServer(c: Coupons.Coupon, now: int)
    ensures StatusChip(c, now) == ActiveChip <==> Coupons.ComputedStatus(c, now) == Coupons.Active
    ensures StatusChip(c, now) == InactiveChip <==> Coupons.ComputedStatus(c, now) == Coupons.Inactive
    ensures Coupons.ComputedStatus(c, now) == Coupons.Expired <==>
              StatusChip(c, now) == ExpiredChip || StatusChip(c, now) == ScheduledChip
  {
  }

  /** The dialog's fields. `value` is what `parseFloat` makes of
      `valueText` (None for NaN) and `validFrom`/`validTo` are what
      `new Date` makes of the date texts (None for an invalid date). */
  datatype Form = Form(
    code: string,
    kind: string,
    valueText: string,
    value: Option<real>,
    validFromText: string,
    validToText: string,
    validFrom: Option<int>,
    validTo: Option<int>,
    isActive: bool)

  /** The body sent to the service: the form with the value parsed. */
  datatype Payload = Payload(
    code: string,
    kind: string,
    value: Option<real>,
    validFrom: string,
    validTo: string,
    isActive: bool)

  datatype Submission =
    | Rejected(message: string)
    | SendCreate(payload: Payload)
    | SendUpdate(id: nat, payload: Payload)

  /** JavaScript's `<=` against a number: false when the parse gave NaN. */
  predicate AtMost(v: Option<real>, bound: real)
  {
    v.Some? && v.value <= bound
  }

  predicate Exceeds(v: Option<real>, bound: real)
  {
    v.Some? && v.value > bound
  }

  /** `new Date(from) >= new Date(to)`: false when either date is invalid. */
  predicate NotBefore(from: Option<int>, to: Option<int>)
  {
    from.Some? && to.Some? && from.value >= to.value
  }

  predicate MissingField(f: Form)
  {
    f.code == "" || f.valueText == "" || f.validFromText == "" || f.validToText == ""
  }

  /** `handleSubmit`: the four checks in order, each returning before any
      service call; then an update of the coupon being edited or a
      create. */
  function Submit(f: Form, editing: Option<nat>): (s: Submission)
    ensures MissingField(f) ==> s == Rejected("Please fill in all required fields")
    ensures !MissingField(f) && AtMost(f.value, 0.0) ==> s == Rejected("Value must be greater than 0")
    ensures !MissingField(f) && !AtMost(f.value, 0.0) && f.kind == "percentage" && Exceeds(f.value, 100.0) ==>
              s == Rejected("Percentage value cannot exceed 100")
    ensures !MissingField(f) && !AtMost(f.value, 0.0) && !(f.kind == "percentage" && Exceeds(f.value, 100.0))
            && NotBefore(f.validFrom, f.validTo) ==>
              s == Rejected("Valid From date must be before Valid To date")
    ensures s.SendCreate? <==> !s.Rejected? && editing.None?
    ensures s.SendUpdate? ==> editing == Some(s.id)
    ensures !s.Rejected? ==> s.payload == Payload(f.code, f.kind, f.value, f.validFromText, f.validToText, f.isActive)
  {
    if MissingField(f) then Rejected("Please fill in all required fields")
    else if AtMost(f.value, 0.0) then Rejected("Value must be greater than 0")
    else if f.kind == "percentage" && Exceeds(f.value, 100.0) then Rejected("Percentage value cannot exceed 100")
    else if NotBefore(f.validFrom, f.validTo) then Rejected("Valid From date must be before Valid To date")
    else
      var p := Payload(f.code, f.kind, f.value, f.validFromText, f.validToText, f.isActive);
      if editing.Some? then SendUpdate(editing.value, p) else SendCreate(p)
  }

  /** A form is sent exactly when every check passes; so nothing reaches the
      service when a field is empty, the value is not positive, a
      percentage is above 100, or the start is not before the end. */
  lemma SubmitSendsIffChecksPass(f: Form, editing: Option<nat>)
    ensures !Submit(f, editing).Rejected? <==>
              && !MissingField(f)
              && !AtMost(f.value, 0.0)
              && !(f.kind == "percentage" && Exceeds(f.value, 100.0))
              && !NotBefore(f.validFrom, f.validTo)
  {
  }

  /** A sent form with a numeric value and valid dates carries a positive
      value, at most 100 for a percentage, and a start before its end. */
  lemma SentFormIsInRange(f: Form, editing: Option<nat>)
    requires !Submit(f, editing).Rejected?
    requires f.value.Some? && f.validFrom.Some? && f.validTo.Some?
    ensures f.value.value > 0.0
    ensures f.kind == "percentage" ==> f.value.value <= 100.0
    ensures f.validFrom.value < f.validTo.value
  {
  }

  /** A percentage of exactly 100 passes the range checks. */
  lemma HundredPercentAccepted(f: Form, editing: Option<nat>)
    requires !MissingField(f) && f.kind == "percentage" && f.value == Some(100.0)
    requires f.validFrom.Some? && f.validTo.Some? && f.validFrom.value < f.validTo.value
    ensures !Submit(f, editing).Rejected?
  {
  }

  /** A value text that does not parse as a number passes both value checks,
      since every comparison with NaN is false. */
  lemma UnparsableValuePasses(f: Form, editing: Option<nat>)
    requires !MissingField(f) && f.value.None?
    requires !NotBefore(f.validFrom, f.validTo)
    ensures !Submit(f, editing).Rejected?
    ensures Submit(f, editing).payload.value.None?
  {
  }
}
