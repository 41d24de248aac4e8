/**
 * Coupons as the discount engine sees them, the error codes it reports per coupon, and
 * `calculateDiscountPercent`, which turns a coupon into a percentage of the remaining total.
 */
module Coupons {
  import opened Wrappers
  import opened Money

  datatype CouponType = Fixed | Percentage

  /** The coupon's `conditions` array; missing lists are empty, missing numbers 0. */
  datatype Conditions = Conditions(
    excludedProducts: seq<int>,
    includedProducts: seq<int>,
    includedCategories: seq<int>,
    excludedCategories: seq<int>,
    emailRestrictions: string,
    maxPurchaseAmount: int,
    minPurchaseAmount: int,
    maxUses: int,
    maxPerCustomer: int)

  /**
   * A coupon row. For a `Fixed` coupon `amount` is in minor units; for a `Percentage`
   * coupon it is in hundredths of a percent (1250 is 12.5%). `startDate`/`endDate` are
   * timestamps, None for an empty or all-zero date. `recurring` is `isRecurringDiscount()`.
   */
  datatype Coupon = Coupon(
    code: string,
    active: bool,
    kind: CouponType,
    amount: int,
    stackable: bool,
    priority: Option<int>,
    recurring: bool,
    startDate: Option<int>,
    endDate: Option<int>,
    useCount: int,
    conditions: Conditions)

  /** The `error_code` values the engine records for a refused coupon. */
  datatype ErrorCode =
    | CouponNotStarted
    | CouponExpired
    | MaxPurchaseAmountExceeded
    | MinPurchaseAmountNotMet
    | CouponMaxUsesExceeded
    | CouponNotStackable
    | CouponCannotBeUsed
    | NoApplicableItems
    | NoDiscountApplied

  /** One entry of `coupon_results`: the error a coupon was refused with, or the coupon itself. */
  datatype CouponResult = Failed(error: ErrorCode) | Succeeded(coupon: Coupon)

  /** A missing priority counts as 0. */
  function Priority(c: Coupon): int {
    c.priority.GetOr(0)
  }

  /**
   * `calculateDiscountPercent`, in hundredths of a percent, for eligible items whose total
   * after earlier coupons is `remaining` (the caller only asks for a positive total).
   * A fixed coupon worth at least the remaining total takes all of it; a smaller one is
   * its share of the total rounded to 0.01%. A percentage coupon is clamped to 0..100%.
   */
  function DiscountPercent(c: Coupon, remaining: int): (bp: int)
    requires remaining > 0
    ensures c.kind == Percentage ==> 0 <= bp <= Whole
    ensures c.kind == Percentage && 0 <= c.amount <= Whole ==> bp == c.amount
    ensures c.kind == Fixed && c.amount >= 0 ==> 0 <= bp <= Whole
    ensures c.kind == Fixed && c.amount >= remaining ==> bp == Whole
    ensures c.kind == Fixed && 0 <= c.amount < remaining ==>
      2 * (bp * remaining - c.amount * Whole) <= remaining &&
      2 * (c.amount * Whole - bp * remaining) < remaining
  {
    if c.kind == Fixed then
      if c.amount >= remaining then Whole
      else
        var bp := RoundDiv(c.amount * Whole, remaining);
        if c.amount >= 0 then FixedShare(c.amount, remaining); bp else bp
    else Min(Whole, Max(0, c.amount))
  }

  /** A fixed amount below the total is a share of at most 100%, to the nearest 0.01%. */
  lemma FixedShare(amount: int, remaining: int)
    requires 0 <= amount < remaining
    ensures 0 <= RoundDiv(amount * Whole, remaining) <= Whole
    ensures var bp := RoundDiv(amount * Whole, remaining);
      2 * (bp * remaining - amount * Whole) <= remaining &&
      2 * (amount * Whole - bp * remaining) < remaining
  {
    RoundDivNearest(amount * Whole, remaining);
    MulMonotone(amount, remaining, Whole);
    RoundDivAtMost(amount * Whole, remaining, Whole);
  }
}
