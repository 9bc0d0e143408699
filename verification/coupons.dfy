/** Coupon handlers of backend/src/controllers/couponController.js: the
    computed status, the checkout validation cascade, the creation schema
    with its duplicate check, and deactivation. Times are integer instants;
    `now` is an input. */
module Coupons {
  import opened Wrappers
  import Strings

  datatype CouponType = Percentage | Fixed

  /** A stored coupon. `value` is a percentage or an amount. */
  datatype Coupon = Coupon(
    id: nat,
    code: string,
    kind: CouponType,
    value: real,
    validFrom: int,
    validTo: int,
    isActive: bool)

  /** The coupon table with the next primary key. */
  datatype CouponTable = CouponTable(rows: seq<Coupon>, nextId: nat)

  /** `computedStatus` as `getAllCoupons` reports it. */
  datatype Status = Active | Inactive | Expired

  /** Inactive iff switched off; otherwise expired iff `now` lies outside
      [validFrom, validTo]; otherwise active, boundary instants included. */
  function ComputedStatus(c: Coupon, now: int): (s: Status)
    ensures s == Inactive <==> !c.isActive
    ensures s == Expired <==> c.isActive && (now < c.validFrom || now > c.validTo)
    ensures s == Active <==> c.isActive && c.validFrom <= now <= c.validTo
  {
    if !c.isActive then Inactive
    else if now < c.validFrom || now > c.validTo then Expired
    else Active
  }

  /** `findUnique({ where: { code } })`. */
  function FindByCode(rows: seq<Coupon>, code: string): (r: Option<Coupon>)
    ensures r.Some? ==> r.value in rows && r.value.code == code
    ensures r.None? <==> forall i | 0 <= i < |rows| :: rows[i].code != code
  {
    if |rows| == 0 then None
    else if rows[0].code == code then Some(rows[0])
    else FindByCode(rows[1..], code)
  }

  /** What a successful validation returns about the coupon. */
  datatype CouponView = CouponView(code: string, kind: CouponType, value: real)

  /** `validateCoupon`: the supplied code is upper-cased before the lookup,
      then the checks run in a fixed order. */
  function ValidateCoupon(table: CouponTable, code: string, now: int): (r: Outcome<CouponView>)
    ensures !r.Invalid?
  {
    match FindByCode(table.rows, Strings.ToUpperAscii(code))
    case None => Fail(404, "Invalid coupon code")
    case Some(c) =>
      if !c.isActive then Fail(400, "This coupon is no longer active")
      else if now < c.validFrom then Fail(400, "This coupon is not yet valid")
      else if now > c.validTo then Fail(400, "This coupon has expired")
      else Ok(CouponView(c.code, c.kind, c.value))
  }

  /** The cascade's answers, in order: unknown code, switched off, not yet
      valid, expired; and validation succeeds exactly when the computed
      status of the same coupon at the same instant is active. */
  lemma ValidateCouponCascade(table: CouponTable, code: string, now: int)
    ensures var found := FindByCode(table.rows, Strings.ToUpperAscii(code));
            var r := ValidateCoupon(table, code, now);
            && (found.None? ==> r == Fail(404, "Invalid coupon code"))
            && (found.Some? && !found.value.isActive ==> r == Fail(400, "This coupon is no longer active"))
            && (found.Some? && found.value.isActive && now < found.value.validFrom ==>
                  r == Fail(400, "This coupon is not yet valid"))
            && (found.Some? && found.value.isActive && found.value.validFrom <= now && now > found.value.validTo ==>
                  r == Fail(400, "This coupon has expired"))
            && (r.Ok? <==> found.Some? && ComputedStatus(found.value, now) == Active)
            && (r.Ok? ==> r.value == CouponView(found.value.code, found.value.kind, found.value.value))
  {
  }

  /** Codes that differ only in ASCII letter case validate identically. */
  lemma ValidateIgnoresCase(table: CouponTable, a: string, b: string, now: int)
    requires Strings.EqualIgnoringAsciiCase(a, b)
    ensures ValidateCoupon(table, a, now) == ValidateCoupon(table, b, now)
  {
    Strings.UpperCaseIdentifiesCaseVariants(a, b);
  }

  /** A stored coupon is found whatever the case of the code the customer
      types, since stored codes are upper case. */
  lemma StoredCouponFoundInAnyCase(table: CouponTable, c: Coupon, typed: string)
    requires UniqueCodes(table.rows) && c in table.rows
    requires Strings.ToUpperAscii(c.code) == c.code
    requires Strings.EqualIgnoringAsciiCase(typed, c.code)
    ensures FindByCode(table.rows, Strings.ToUpperAscii(typed)) == Some(c)
  {
    Strings.UpperCaseIdentifiesCaseVariants(typed, c.code);
    FindByCodeUnique(table.rows, c);
  }

  ghost predicate UniqueCodes(rows: seq<Coupon>)
  {
    forall i, j | 0 <= i < j < |rows| :: rows[i].code != rows[j].code
  }

  lemma {:induction false} FindByCodeUnique(rows: seq<Coupon>, c: Coupon)
    requires UniqueCodes(rows) && c in rows
    ensures FindByCode(rows, c.code) == Some(c)
  {
    if rows[0] != c {
      assert c in rows[1..];
      var k :| 0 <= k < |rows[1..]| && rows[1..][k] == c;
      assert rows[k + 1] == c;
      FindByCodeUnique(rows[1..], c);
    }
  }

  /** The fields of a create request after JSON decoding; the date strings
      are given as the instants `new Date(...)` yields. */
  datatype CouponInput = CouponInput(
    code: string,
    kind: string,
    value: real,
    validFrom: int,
    validTo: int,
    isActive: Option<bool>)

  /** The validated, normalised data `couponSchema` produces. */
  datatype CouponData = CouponData(
    code: string,
    kind: CouponType,
    value: real,
    validFrom: int,
    validTo: int,
    isActive: Option<bool>)

  function ParseCouponType(s: string): Option<CouponType>
  {
    if s == "percentage" then Some(Percentage)
    else if s == "fixed" then Some(Fixed)
    else None
  }

  /** The issues `couponSchema` reports, in field order. */
  function CouponIssues(input: CouponInput): (issues: seq<string>)
    ensures |issues| == 0 <==> Strings.Utf16Length(input.code) >= 3
                               && (input.kind == "percentage" || input.kind == "fixed") && input.value > 0.0
    ensures |issues| <= 3
  {
    (if Strings.Utf16Length(input.code) < 3 then ["Code must be at least 3 characters"] else [])
    + (if ParseCouponType(input.kind).None? then ["Invalid enum value. Expected 'percentage' | 'fixed', received '" + input.kind + "'"] else [])
    + (if input.value <= 0.0 then ["Value must be positive"] else [])
  }

  /** `couponSchema.parse`: accepts only a code of at least 3 characters, a
      type of percentage or fixed, and a positive value; the accepted code
      is upper-cased. */
  function ParseCoupon(input: CouponInput): (r: Outcome<CouponData>)
    ensures r.Ok? <==>
              Strings.Utf16Length(input.code) >= 3
              && (input.kind == "percentage" || input.kind == "fixed")
              && input.value > 0.0
    ensures r.Ok? ==> r.value.code == Strings.ToUpperAscii(input.code) && r.value.value == input.value
    ensures r.Ok? ==> Strings.ToUpperAscii(r.value.code) == r.value.code
    ensures r.Ok? ==> (r.value.kind == Percentage <==> input.kind == "percentage")
    ensures r.Ok? ==> r.value.validFrom == input.validFrom && r.value.validTo == input.validTo
                      && r.value.isActive == input.isActive
    ensures !r.Ok? ==> r.Invalid? && |r.issues| > 0
  {
    var issues := CouponIssues(input);
    if |issues| > 0 then Invalid(issues)
    else
      Strings.ToUpperIdempotent(input.code);
      Ok(CouponData(Strings.ToUpperAscii(input.code), ParseCouponType(input.kind).value, input.value,
                    input.validFrom, input.validTo, input.isActive))
  }

  /** `createCoupon`: schema issues answer 400, an existing code 409, and
      otherwise one row is appended. An omitted `isActive` takes the
      column's default, true. */
  function CreateCoupon(table: CouponTable, input: CouponInput): (r: Outcome<(CouponTable, Coupon)>)
    ensures ParseCoupon(input).Invalid? ==> r == Invalid(ParseCoupon(input).issues) && r.Status() == 400
    ensures ParseCoupon(input).Ok? && FindByCode(table.rows, ParseCoupon(input).value.code).Some? ==>
              r == Fail(409, "Coupon code already exists")
    ensures r.Ok? <==> ParseCoupon(input).Ok? && FindByCode(table.rows, ParseCoupon(input).value.code).None?
    ensures r.Ok? ==> r.value.0.rows == table.rows + [r.value.1] && r.value.0.nextId == table.nextId + 1
    ensures r.Ok? ==> var c := r.value.1;
                      && c.id == table.nextId
                      && c.code == Strings.ToUpperAscii(input.code)
                      && (c.kind == Percentage <==> input.kind == "percentage")
                      && c.value == input.value
                      && c.validFrom == input.validFrom && c.validTo == input.validTo
                      && c.isActive == (input.isActive != Some(false))
  {
    match ParseCoupon(input)
    case Ok(d) =>
      if FindByCode(table.rows, d.code).Some? then Fail(409, "Coupon code already exists")
      else
        var c := Coupon(table.nextId, d.code, d.kind, d.value, d.validFrom, d.validTo,
                        if d.isActive.Some? then d.isActive.value else true);
        Ok((CouponTable(table.rows + [c], table.nextId + 1), c))
    case Invalid(issues) => Invalid(issues)
    case Fail(s, e) => Fail(s, e)
  }

  /** Stored codes stay unique and upper case across creations. */
  lemma CreateKeepsCodesCanonical(table: CouponTable, input: CouponInput)
    requires UniqueCodes(table.rows)
    requires forall i | 0 <= i < |table.rows| :: Strings.ToUpperAscii(table.rows[i].code) == table.rows[i].code
    requires CreateCoupon(table, input).Ok?
    ensures var rows := CreateCoupon(table, input).value.0.rows;
            && UniqueCodes(rows)
            && forall i | 0 <= i < |rows| :: Strings.ToUpperAscii(rows[i].code) == rows[i].code
  {
  }

  /** `deactivateCoupon`: an unknown id surfaces as the database's error,
      answered 500; otherwise that coupon's `isActive` becomes false and
      nothing else changes. */
  function DeactivateCoupon(table: CouponTable, id: nat): (r: Outcome<CouponTable>)
    ensures r.Ok? <==> exists i | 0 <= i < |table.rows| :: table.rows[i].id == id
    ensures !r.Ok? ==> r == Fail(500, "Server error")
    ensures r.Ok? ==>
              && |r.value.rows| == |table.rows| && r.value.nextId == table.nextId
              && forall i | 0 <= i < |table.rows| ::
                   r.value.rows[i] == (if table.rows[i].id == id then table.rows[i].(isActive := false) else table.rows[i])
  {
    if exists i | 0 <= i < |table.rows| :: table.rows[i].id == id then
      Ok(CouponTable(SwitchOff(table.rows, id), table.nextId))
    else Fail(500, "Server error")
  }

  function SwitchOff(rows: seq<Coupon>, id: nat): (r: seq<Coupon>)
    ensures |r| == |rows|
    ensures forall i | 0 <= i < |rows| :: r[i] == (if rows[i].id == id then rows[i].(isActive := false) else rows[i])
  {
    if |rows| == 0 then []
    else [if rows[0].id == id then rows[0].(isActive := false) else rows[0]] + SwitchOff(rows[1..], id)
  }

  /** After deactivation the coupon reports inactive and checkout rejects it
      as no longer active, whatever the instant. */
  lemma DeactivatedCouponRejected(table: CouponTable, id: nat, code: string, now: int)
    requires DeactivateCoupon(table, id).Ok?
    requires UniqueCodes(table.rows)
    requires exists i | 0 <= i < |table.rows| :: table.rows[i].id == id && table.rows[i].code == Strings.ToUpperAscii(code)
    ensures ValidateCoupon(DeactivateCoupon(table, id).value, code, now) == Fail(400, "This coupon is no longer active")
  {
    var t' := DeactivateCoupon(table, id).value;
    var i :| 0 <= i < |table.rows| && table.rows[i].id == id && table.rows[i].code == Strings.ToUpperAscii(code);
    assert t'.rows[i].code == table.rows[i].code;
    assert UniqueCodes(t'.rows) by {
      forall a, b | 0 <= a < b < |t'.rows|
        ensures t'.rows[a].code != t'.rows[b].code
      {
        assert t'.rows[a].code == table.rows[a].code && t'.rows[b].code == table.rows[b].code;
      }
    }
    assert t'.rows[i] in t'.rows;
    FindByCodeUnique(t'.rows, t'.rows[i]);
  }
}
