/**
 * `apply`: one coupon against the current cart. The coupon is refused when the
 * `can_use_coupon` hook says no, when no line is eligible or nothing is left to discount
 * on the eligible lines, and when it ends up discounting nothing; otherwise its
 * discounted lines are merged back by id and every line's totals are recomputed.
 */
module Apply {
  import opened Wrappers
  import opened Money
  import opened CartItems
  import opened Coupons
  import opened Eligibility
  import opened Distribution
  import opened Correction

  datatype ApplyOutcome = Applied(items: seq<Item>, total: int) | Rejected(error: ErrorCode)

  /** What is still undiscounted on some lines: `$currentItemsTotalAfterDiscount`. */
  function Remaining(items: seq<Item>): int {
    SumEffective(items) - SumCoupon(items)
  }

  /** A fixed coupon's face value is not negative. */
  predicate SaneAmount(c: Coupon) {
    c.kind == Fixed ==> c.amount >= 0
  }

  /** The percentage pass followed, for a fixed coupon, by the rounding correction. */
  function DiscountEligible(eligible: seq<Item>, c: Coupon): (d: Distributed)
    requires Remaining(eligible) > 0
    ensures Mirrors(eligible, d.items)
  {
    var bp := DiscountPercent(c, Remaining(eligible));
    var d := Distribute(eligible, bp, c.recurring);
    if c.kind == Fixed then CorrectFixed(d, c.amount) else d
  }

  /** `apply` on the current cart lines. */
  function ApplyCoupon(cart: seq<Item>, c: Coupon, ctx: Context): (r: ApplyOutcome)
    ensures r == Rejected(CouponCannotBeUsed) <==> !ctx.canUse(c, cart)
    ensures r == Rejected(NoApplicableItems) <==>
      ctx.canUse(c, cart) && Remaining(FilterApplicable(cart, c, ctx)) <= 0
    ensures r == Rejected(NoDiscountApplied) <==>
      var eligible := FilterApplicable(cart, c, ctx);
      ctx.canUse(c, cart) && Remaining(eligible) > 0 && DiscountEligible(eligible, c).total == 0
    ensures r.Applied? ==> |r.items| == |cart| && r.total != 0
  {
    if !ctx.canUse(c, cart) then Rejected(CouponCannotBeUsed)
    else
      var eligible := FilterApplicable(cart, c, ctx);
      if |eligible| == 0 then Rejected(NoApplicableItems)
      else if Remaining(eligible) <= 0 then Rejected(NoApplicableItems)
      else
        var d := DiscountEligible(eligible, c);
        if d.total == 0 then Rejected(NoDiscountApplied)
        else Applied(UpdateTotals(Merge(cart, d.items)), d.total)
  }

  // ---------------------------------------------------------------- sums under mirroring

  lemma {:induction false} SumsOfMirrors(before: seq<Item>, after: seq<Item>)
    requires Mirrors(before, after)
    ensures SumEffective(after) == SumEffective(before)
    ensures AllBounded(before) && (forall k :: 0 <= k < |after| ==> after[k].couponDiscount == EffectiveSubtotal(after[k])) ==>
      Room(after) == 0 && SumCoupon(after) == SumEffective(before)
  {
    if |before| > 0 {
      SumsOfMirrors(before[1..], after[1..]);
    }
  }

  lemma AllBoundedOfFiltered(cart: seq<Item>, c: Coupon, ctx: Context)
    requires AllBounded(cart)
    ensures AllBounded(FilterApplicable(cart, c, ctx))
  {
    var v := FilterApplicable(cart, c, ctx);
    forall k | 0 <= k < |v| ensures Bounded(v[k]) {
      var j :| 0 <= j < |cart| && cart[j] == v[k];
    }
  }

  // ---------------------------------------------------------------- one coupon's own total

  /**
   * The discount a coupon computes on bounded eligible lines is exactly how much their
   * coupon discounts go up, and the lines stay bounded.
   */
  lemma DiscountEligibleConserves(eligible: seq<Item>, c: Coupon)
    requires Remaining(eligible) > 0 && AllBounded(eligible) && SaneAmount(c)
    ensures var d := DiscountEligible(eligible, c);
      AllBounded(d.items) && d.total == SumCoupon(d.items) - SumCoupon(eligible)
  {
    var bp := DiscountPercent(c, Remaining(eligible));
    var d := Distribute(eligible, bp, c.recurring);
    if c.kind == Fixed {
      var r := CorrectFixed(d, c.amount);
      forall i | 0 <= i < |r.items| ensures Bounded(r.items[i]) {
        assert Bounded(d.items[i]);
      }
    }
  }

  /**
   * A fixed coupon takes exactly its face value off the eligible lines, or everything
   * that is left on them when that is less: the rounding correction closes the gap the
   * percentage pass leaves.
   */
  lemma FixedCouponTotal(eligible: seq<Item>, c: Coupon)
    requires Remaining(eligible) > 0 && AllBounded(eligible)
    requires c.kind == Fixed && c.amount >= 0
    ensures DiscountEligible(eligible, c).total == Min(c.amount, Remaining(eligible))
  {
    var remaining := Remaining(eligible);
    var bp := DiscountPercent(c, remaining);
    var d := Distribute(eligible, bp, c.recurring);
    RoomOfBounded(eligible);
    RoomOfBounded(d.items);
    SumsOfMirrors(eligible, d.items);
    if c.amount >= remaining {
      assert bp == Whole;
      assert forall k :: 0 <= k < |d.items| ==> d.items[k].couponDiscount == EffectiveSubtotal(d.items[k]);
      assert d.total == remaining;
      assert Room(d.items) == 0;
    } else {
      assert Room(d.items) == remaining - d.total;
      assert Positive(d.items) == SumCoupon(eligible) + d.total;
      assert SumCoupon(eligible) >= 0 by {
        RoomOfBounded(eligible);
      }
    }
  }

  /** A positive fixed coupon on lines with something left to discount is never refused for discounting nothing. */
  lemma FixedCouponAlwaysDiscounts(eligible: seq<Item>, c: Coupon)
    requires Remaining(eligible) > 0 && AllBounded(eligible)
    requires c.kind == Fixed && c.amount > 0
    ensures DiscountEligible(eligible, c).total > 0
  {
    FixedCouponTotal(eligible, c);
  }

  // ---------------------------------------------------------------- the whole of `apply`

  /**
   * A successful `apply` on a cart with distinct ids: lines the coupon does not apply to
   * keep their discounts (only their totals are recomputed), every line keeps everything
   * but its discount fields, and every line's totals agree with its discounts.
   */
  lemma ApplyCouponShape(cart: seq<Item>, c: Coupon, ctx: Context)
    requires UniqueIds(cart)
    ensures var r := ApplyCoupon(cart, c, ctx);
      r.Applied? ==>
        && UniqueIds(r.items)
        && (forall i :: 0 <= i < |cart| ==> ResetItem(r.items[i]) == ResetItem(cart[i]))
        && (forall i :: 0 <= i < |cart| && !Eligible(cart[i], c, ctx) ==> r.items[i] == UpdateItem(cart[i]))
        && (forall i :: 0 <= i < |cart| ==> r.items[i] == UpdateItem(r.items[i]))
  {
    var r := ApplyCoupon(cart, c, ctx);
    if r.Applied? {
      var eligible := FilterApplicable(cart, c, ctx);
      var d := DiscountEligible(eligible, c);
      assert r.items == UpdateTotals(Merge(cart, d.items));
      MergeBackShape(cart, EligibleFor(c, ctx), d.items);
    }
  }

  /**
   * A successful `apply` on a cart with distinct ids and bounded lines records as the
   * coupon's discount exactly the increase of the cart's total coupon discount, and
   * leaves every line bounded.
   */
  lemma ApplyCouponConserves(cart: seq<Item>, c: Coupon, ctx: Context)
    requires UniqueIds(cart) && AllBounded(cart) && SaneAmount(c)
    ensures var r := ApplyCoupon(cart, c, ctx);
      r.Applied? ==> AllBounded(r.items) && r.total == SumCoupon(r.items) - SumCoupon(cart)
  {
    var r := ApplyCoupon(cart, c, ctx);
    if r.Applied? {
      var eligible := FilterApplicable(cart, c, ctx);
      AllBoundedOfFiltered(cart, c, ctx);
      var d := DiscountEligible(eligible, c);
      DiscountEligibleConserves(eligible, c);
      assert r.items == UpdateTotals(Merge(cart, d.items));
      MergeBackSum(cart, EligibleFor(c, ctx), d.items);
    }
  }

  /**
   * A fixed coupon with a positive face value, usable on a bounded cart where its
   * eligible lines still have something to discount, is applied and takes exactly its
   * face value, or everything left on those lines when that is less.
   */
  lemma ApplyFixedCoupon(cart: seq<Item>, c: Coupon, ctx: Context)
    requires AllBounded(cart) && c.kind == Fixed && c.amount > 0 && ctx.canUse(c, cart)
    requires Remaining(FilterApplicable(cart, c, ctx)) > 0
    ensures var r := ApplyCoupon(cart, c, ctx);
      r.Applied? && r.total == Min(c.amount, Remaining(FilterApplicable(cart, c, ctx)))
  {
    var eligible := FilterApplicable(cart, c, ctx);
    AllBoundedOfFiltered(cart, c, ctx);
    FixedCouponTotal(eligible, c);
  }
}
