/**
 * `applyDiscountToItems`: spreading one coupon's percentage over the eligible items.
 * Each line gets the percentage of what is still undiscounted on it, rounded to the cent
 * and capped at its effective subtotal; paid subscription lines also accumulate the
 * recurring discount when the coupon is a recurring one.
 */
module Distribution {
  import opened Wrappers
  import opened Money
  import opened CartItems

  /** Items after a pass, with the coupon's running discount total. */
  datatype Distributed = Distributed(items: seq<Item>, total: int)

  /**
   * The new `recurring_discounts` of a line. On a priced paid subscription line a recurring
   * coupon adds `bp` hundredths of a percent of what the recurring amount still leaves of the
   * unit price, rounded, and never goes past the unit price.
   */
  function DiscountRecurring(it: Item, bp: int, recurringCoupon: bool): (r: Option<RecurringDiscounts>)
    ensures !IsPaidSubscription(it) ==> r == it.recurring
    ensures IsPaidSubscription(it) ==> r.Some?
    ensures IsPaidSubscription(it) ==>
      r.value.signup == it.recurring.GetOr(RecurringDiscounts(0, 0)).signup
    ensures IsPaidSubscription(it) && !(recurringCoupon && it.unitPrice > 0) ==>
      r == Some(it.recurring.GetOr(RecurringDiscounts(0, 0)))
    ensures IsPaidSubscription(it) && recurringCoupon && it.unitPrice > 0 && 0 <= bp ==>
      var prev := it.recurring.GetOr(RecurringDiscounts(0, 0)).amount;
      0 <= prev <= it.unitPrice ==> prev <= r.value.amount <= it.unitPrice
    ensures IsPaidSubscription(it) && recurringCoupon && it.unitPrice > 0 && 0 <= bp <= Whole ==>
      var prev := it.recurring.GetOr(RecurringDiscounts(0, 0)).amount;
      var increase := r.value.amount - prev;
      var left := it.unitPrice - prev;
      0 <= prev <= it.unitPrice ==>
        && 2 * (increase * Whole - left * bp) <= Whole && 2 * (left * bp - increase * Whole) < Whole
        && (bp == Whole ==> r.value.amount == it.unitPrice)
    ensures IsPaidSubscription(it) && recurringCoupon && it.unitPrice > 0 && 0 <= bp ==>
      it.recurring.GetOr(RecurringDiscounts(0, 0)).amount > it.unitPrice ==> r.value.amount == it.unitPrice
  {
    if !IsPaidSubscription(it) then it.recurring
    else
      var prev := it.recurring.GetOr(RecurringDiscounts(0, 0));
      if recurringCoupon && it.unitPrice > 0 then
        var remaining := Max(0, it.unitPrice - prev.amount);
        var extra := RoundDiv(remaining * bp, Whole);
        ShareOfAmount(remaining, bp);
        Some(prev.(amount := Min(prev.amount + extra, it.unitPrice)))
      else Some(prev)
  }

  /**
   * What rounding a share of an amount gives: nothing negative for a non-negative share,
   * at most the amount and within half a cent of the exact share for at most 100%, and
   * the whole amount for exactly 100%.
   */
  lemma ShareOfAmount(amount: int, bp: int)
    ensures amount >= 0 && bp >= 0 ==> RoundDiv(amount * bp, Whole) >= 0
    ensures amount >= 0 && 0 <= bp <= Whole ==>
      var share := RoundDiv(amount * bp, Whole);
      share <= amount &&
      2 * (share * Whole - amount * bp) <= Whole && 2 * (amount * bp - share * Whole) < Whole
    ensures amount >= 0 && bp == Whole ==> RoundDiv(amount * bp, Whole) == amount
  {
    if amount >= 0 && bp >= 0 {
      MulMonotone(0, amount, bp);
      if bp <= Whole {
        assert amount * bp <= amount * Whole by { MulMonotone(bp, Whole, amount); }
        RoundDivAtMost(amount * bp, Whole, amount);
        RoundDivNearest(amount * bp, Whole);
      }
      if bp == Whole {
        RoundDivExact(amount, Whole);
      }
    }
  }

  /**
   * One line of `applyDiscountToItems`: the coupon discount grows by `bp` hundredths of a
   * percent of what is left on the line, rounded, and never past the effective subtotal.
   */
  function DiscountItem(it: Item, bp: int, recurringCoupon: bool): (r: Item)
    ensures CouponFieldsOnly(it, r)
    ensures r.couponDiscount <= EffectiveSubtotal(it)
    ensures r.recurring == DiscountRecurring(it, bp, recurringCoupon)
    ensures 0 <= bp && Bounded(it) ==> it.couponDiscount <= r.couponDiscount && Bounded(r)
    ensures 0 <= bp <= Whole && Bounded(it) ==>
      var increase := r.couponDiscount - it.couponDiscount;
      var left := EffectiveSubtotal(it) - it.couponDiscount;
      2 * (increase * Whole - left * bp) <= Whole && 2 * (left * bp - increase * Whole) < Whole
    ensures bp == Whole && Bounded(it) ==> r.couponDiscount == EffectiveSubtotal(it)
  {
    var existing := it.couponDiscount;
    var subtotal := EffectiveSubtotal(it);
    var remaining := Max(0, subtotal - existing);
    var current := RoundDiv(remaining * bp, Whole);
    var discount := Min(existing + current, subtotal);
    ShareOfAmount(remaining, bp);
    it.(couponDiscount := discount, recurring := DiscountRecurring(it, bp, recurringCoupon))
  }

  /** What the coupon adds to the running total for one line: the increase, never negative. */
  function NetIncrease(before: Item, after: Item): int {
    Max(0, after.couponDiscount - before.couponDiscount)
  }

  /**
   * `applyDiscountToItems` over the eligible items. The running total is the sum of the
   * lines' increases, so on bounded lines it is exactly how much the items' coupon
   * discounts went up, and the lines stay bounded.
   */
  function Distribute(items: seq<Item>, bp: int, recurringCoupon: bool): (r: Distributed)
    ensures |r.items| == |items|
    ensures forall i :: 0 <= i < |items| ==> r.items[i] == DiscountItem(items[i], bp, recurringCoupon)
    ensures r.total >= 0
    ensures 0 <= bp && AllBounded(items) ==>
      AllBounded(r.items) && r.total == SumCoupon(r.items) - SumCoupon(items)
  {
    if |items| == 0 then Distributed([], 0)
    else
      var head := DiscountItem(items[0], bp, recurringCoupon);
      var rest := Distribute(items[1..], bp, recurringCoupon);
      var r := Distributed([head] + rest.items, NetIncrease(items[0], head) + rest.total);
      assert r.items[1..] == rest.items;
      assert forall i :: 1 <= i < |items| ==> items[1..][i - 1] == items[i];
      r
  }
}
