/**
 * `isCouponValid` as pure comparisons: the clock, the cart's estimated total and the
 * customer's past uses of a coupon are given, and the checks run in the source's order,
 * the first failing one naming the error. The validation loop of `applyCouponCodes` then
 * splits the found coupons into valid ones and an error map keyed by code.
 */
module Validity {
  import opened Wrappers
  import opened Coupons
  import opened Codes

  /**
   * What validity depends on outside the coupon: the current timestamp, the cart's
   * estimated total in minor units (0 without a cart), and for each coupon how many paid
   * orders of the current customer used it (None when no customer is known).
   */
  datatype Checkout = Checkout(now: int, estimatedTotal: int, customerUses: Coupon -> Option<int>)

  predicate NotStarted(c: Coupon, now: int) {
    c.startDate.Some? && c.startDate.value > now
  }

  predicate Expired(c: Coupon, now: int) {
    c.endDate.Some? && c.endDate.value < now
  }

  /**
   * The total in major units is above `max_purchase_amount`. The source divides the
   * total by 100 and compares it with the condition as it is, so the condition counts in
   * major units here.
   */
  predicate OverMaximum(c: Coupon, total: int) {
    c.conditions.maxPurchaseAmount != 0 && total > c.conditions.maxPurchaseAmount * 100
  }

  /**
   * The total is below `min_purchase_amount`. Both sides are divided by 100 in the
   * source, so the condition counts in minor units here.
   */
  predicate UnderMinimum(c: Coupon, total: int) {
    c.conditions.minPurchaseAmount != 0 && total < c.conditions.minPurchaseAmount
  }

  /** The coupon has been used `max_uses` times. */
  predicate UsedUp(c: Coupon) {
    c.useCount != 0 && c.conditions.maxUses != 0 && c.useCount >= c.conditions.maxUses
  }

  /** The known customer has used the coupon `max_per_customer` times. */
  predicate UsedUpByCustomer(c: Coupon, uses: Option<int>) {
    && c.conditions.maxPerCustomer != 0 && c.useCount != 0
    && uses.Some? && uses.value != 0 && uses.value >= c.conditions.maxPerCustomer
  }

  /** All of `isCouponValid`'s checks pass. */
  predicate Acceptable(c: Coupon, env: Checkout) {
    && !NotStarted(c, env.now) && !Expired(c, env.now)
    && !OverMaximum(c, env.estimatedTotal) && !UnderMinimum(c, env.estimatedTotal)
    && !UsedUp(c) && !UsedUpByCustomer(c, env.customerUses(c))
  }

  /**
   * `isCouponValid`: None for a valid coupon, otherwise the error code of the first
   * check that fails. Both use limits report `coupon_max_uses_exceeded`.
   */
  function CheckCoupon(c: Coupon, env: Checkout): (r: Option<ErrorCode>)
    ensures r.None? <==> Acceptable(c, env)
    ensures r == Some(CouponNotStarted) <==> NotStarted(c, env.now)
    ensures r == Some(CouponExpired) <==> !NotStarted(c, env.now) && Expired(c, env.now)
    ensures r == Some(MaxPurchaseAmountExceeded) <==>
      !NotStarted(c, env.now) && !Expired(c, env.now) && OverMaximum(c, env.estimatedTotal)
    ensures r == Some(MinPurchaseAmountNotMet) <==>
      !NotStarted(c, env.now) && !Expired(c, env.now) && !OverMaximum(c, env.estimatedTotal) &&
      UnderMinimum(c, env.estimatedTotal)
    ensures r == Some(CouponMaxUsesExceeded) <==>
      !NotStarted(c, env.now) && !Expired(c, env.now) && !OverMaximum(c, env.estimatedTotal) &&
      !UnderMinimum(c, env.estimatedTotal) && (UsedUp(c) || UsedUpByCustomer(c, env.customerUses(c)))
  {
    if NotStarted(c, env.now) then Some(CouponNotStarted)
    else if Expired(c, env.now) then Some(CouponExpired)
    else if OverMaximum(c, env.estimatedTotal) then Some(MaxPurchaseAmountExceeded)
    else if UnderMinimum(c, env.estimatedTotal) then Some(MinPurchaseAmountNotMet)
    else if UsedUp(c) then Some(CouponMaxUsesExceeded)
    else if UsedUpByCustomer(c, env.customerUses(c)) then Some(CouponMaxUsesExceeded)
    else None
  }

  /** A coupon without dates and without purchase or use limits is always valid. */
  lemma UnrestrictedCouponValid(c: Coupon, env: Checkout)
    requires c.startDate == None && c.endDate == None
    requires c.conditions.maxPurchaseAmount == 0 && c.conditions.minPurchaseAmount == 0
    requires c.conditions.maxUses == 0 && c.conditions.maxPerCustomer == 0
    ensures CheckCoupon(c, env) == None
  {
  }

  /** The validity test as a value. */
  function ValidIn(env: Checkout): Coupon -> bool {
    (c: Coupon) => CheckCoupon(c, env).None?
  }

  /** The valid coupons in order and the errors of the others, keyed by code. */
  datatype Validated = Validated(valid: seq<Coupon>, invalid: map<string, CouponResult>)

  /**
   * The validation loop of `applyCouponCodes`, coupon by coupon in order: a valid coupon
   * joins the list, an invalid one records its error under its code, a later error
   * overwriting an earlier one under the same code. The valid list is the valid coupons
   * in their order.
   */
  function Validate(found: seq<Coupon>, env: Checkout): (r: Validated)
    ensures r.valid == KeepCoupons(found, ValidIn(env))
  {
    if |found| == 0 then Validated([], map[])
    else
      var init := found[..|found| - 1];
      var c := found[|found| - 1];
      var rest := Validate(init, env);
      assert found == init + [c];
      KeepCouponsSnoc(init, c, ValidIn(env));
      match CheckCoupon(c, env)
      case None => Validated(rest.valid + [c], rest.invalid)
      case Some(e) => Validated(rest.valid, rest.invalid[c.code := Failed(e)])
  }

  /** The error map after one more coupon: its error, if any, written over the earlier map. */
  lemma ValidateSnoc(found: seq<Coupon>, env: Checkout)
    requires |found| > 0
    ensures var c := found[|found| - 1];
      var rest := Validate(found[..|found| - 1], env).invalid;
      Validate(found, env).invalid ==
        if CheckCoupon(c, env).Some? then rest[c.code := Failed(CheckCoupon(c, env).value)] else rest
  {
  }

  /** Every error is recorded under the code of a found coupon that is invalid. */
  lemma {:induction false} ValidateKeys(found: seq<Coupon>, env: Checkout)
    ensures forall code :: code in Validate(found, env).invalid ==>
      exists k :: 0 <= k < |found| && found[k].code == code && CheckCoupon(found[k], env).Some?
  {
    if |found| > 0 {
      var init := found[..|found| - 1];
      var c := found[|found| - 1];
      ValidateSnoc(found, env);
      ValidateKeys(init, env);
      var rest := Validate(init, env).invalid;
      forall code | code in Validate(found, env).invalid
        ensures exists k :: 0 <= k < |found| && found[k].code == code && CheckCoupon(found[k], env).Some?
      {
        if code == c.code && CheckCoupon(c, env).Some? {
          assert found[|found| - 1] == c;
        } else {
          assert code in rest;
          var k :| 0 <= k < |init| && init[k].code == code && CheckCoupon(init[k], env).Some?;
          assert found[k] == init[k];
        }
      }
    }
  }

  /** Exactly the coupons of `cs` that fail the test have an entry in `m`, holding their own error. */
  ghost predicate ErrorsExact(cs: seq<Coupon>, m: map<string, CouponResult>, env: Checkout) {
    forall k :: 0 <= k < |cs| ==>
      && (CheckCoupon(cs[k], env).Some? <==> cs[k].code in m)
      && (CheckCoupon(cs[k], env).Some? ==> m[cs[k].code] == Failed(CheckCoupon(cs[k], env).value))
  }

  /** With distinct codes, exactly the invalid coupons have an entry, holding their own error. */
  lemma {:induction false} ValidateErrors(found: seq<Coupon>, env: Checkout)
    requires DistinctCodes(found)
    ensures ErrorsExact(found, Validate(found, env).invalid, env)
  {
    if |found| > 0 {
      var init := found[..|found| - 1];
      var c := found[|found| - 1];
      var rest := Validate(init, env).invalid;
      var m := Validate(found, env).invalid;
      ValidateSnoc(found, env);
      DistinctInit(found);
      ValidateErrors(init, env);
      NewCodeAbsent(init, c, env);
      ErrorsStep(init, c, rest, m, env);
      assert found == init + [c];
    }
  }

  /** One step of `ValidateErrors`: a coupon with a new code keeps the map exact. */
  lemma ErrorsStep(init: seq<Coupon>, c: Coupon, rest: map<string, CouponResult>,
                   m: map<string, CouponResult>, env: Checkout)
    requires ErrorsExact(init, rest, env)
    requires c.code !in rest
    requires forall k :: 0 <= k < |init| ==> init[k].code != c.code
    requires m == if CheckCoupon(c, env).Some? then rest[c.code := Failed(CheckCoupon(c, env).value)] else rest
    ensures ErrorsExact(init + [c], m, env)
  {
    var cs := init + [c];
    forall k | 0 <= k < |cs|
      ensures CheckCoupon(cs[k], env).Some? <==> cs[k].code in m
      ensures CheckCoupon(cs[k], env).Some? ==> m[cs[k].code] == Failed(CheckCoupon(cs[k], env).value)
    {
      if k < |init| {
        assert cs[k] == init[k];
      } else {
        assert cs[k] == c;
      }
    }
  }

  /** Dropping the last coupon keeps the codes distinct, and its code is not among the others. */
  lemma DistinctInit(cs: seq<Coupon>)
    requires DistinctCodes(cs) && |cs| > 0
    ensures DistinctCodes(cs[..|cs| - 1])
    ensures forall k :: 0 <= k < |cs| - 1 ==> cs[k].code != cs[|cs| - 1].code
  {
    var init := cs[..|cs| - 1];
    forall i, j | 0 <= i < j < |init| ensures init[i].code != init[j].code {
      assert init[i] == cs[i] && init[j] == cs[j];
    }
  }

  /** A code none of the coupons carries has no error entry. */
  lemma NewCodeAbsent(init: seq<Coupon>, c: Coupon, env: Checkout)
    requires forall k :: 0 <= k < |init| ==> init[k].code != c.code
    ensures c.code !in Validate(init, env).invalid
  {
    ValidateKeys(init, env);
  }
}
