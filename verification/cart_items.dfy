/**
 * Cart line items and the passes of the discount engine that work item by item:
 * resetting previous coupon discounts, merging the discounted eligible items back
 * into the cart by id, and recomputing each line's totals.
 */
module CartItems {
  import opened Wrappers
  import opened Money

  datatype PaymentType = Subscription | OneTime

  /** The `other_info` part of a line item that the engine reads. */
  datatype OtherInfo = OtherInfo(
    paymentType: PaymentType,
    trialDays: int,
    signupFee: int,
    isLocked: bool)

  /** The `recurring_discounts` record kept on subscription lines. */
  datatype RecurringDiscounts = RecurringDiscounts(signup: int, amount: int)

  /**
   * One entry of `cart_data`. Money fields are minor units; a missing `manual_discount`
   * or `coupon_discount` is 0 and a missing `quantity` is 1.
   */
  datatype Item = Item(
    id: int,
    objectId: int,
    postId: int,
    quantity: int,
    unitPrice: int,
    subtotal: int,
    manualDiscount: int,
    couponDiscount: int,
    discountTotal: int,
    lineTotal: int,
    otherInfo: OtherInfo,
    recurring: Option<RecurringDiscounts>)

  /** A subscription line that starts with a free trial. */
  predicate HasTrial(it: Item) {
    it.otherInfo.paymentType == Subscription && it.otherInfo.trialDays > 0
  }

  /** A subscription line billed from the start. */
  predicate IsPaidSubscription(it: Item) {
    it.otherInfo.paymentType == Subscription && !HasTrial(it)
  }

  /**
   * The amount a coupon may discount on a line: the subtotal, except that a trial
   * subscription only charges its signup fee now, once per unit (at least one unit).
   */
  function EffectiveSubtotal(it: Item): int {
    if HasTrial(it) then it.otherInfo.signupFee * (if it.quantity > 0 then it.quantity else 1)
    else it.subtotal
  }

  /** The coupon discount on a line lies between 0 and what can be discounted there. */
  predicate Bounded(it: Item) {
    0 <= it.couponDiscount <= EffectiveSubtotal(it)
  }

  predicate AllBounded(items: seq<Item>) {
    forall i :: 0 <= i < |items| ==> Bounded(items[i])
  }

  /** No line can be discounted below zero, i.e. its effective subtotal is not negative. */
  predicate AllPriced(items: seq<Item>) {
    forall i :: 0 <= i < |items| ==> EffectiveSubtotal(items[i]) >= 0
  }

  /** Line ids are distinct, as database ids of cart rows are. */
  predicate UniqueIds(items: seq<Item>) {
    forall i, j :: 0 <= i < j < |items| ==> items[i].id != items[j].id
  }

  /** The item with only the coupon-owned fields changed: `coupon_discount` and `recurring_discounts`. */
  predicate CouponFieldsOnly(before: Item, after: Item) {
    after == before.(couponDiscount := after.couponDiscount, recurring := after.recurring)
  }

  /** The lines satisfying `keep`, in order (`array_values(array_filter(...))`). */
  function Select(items: seq<Item>, keep: Item -> bool): (r: seq<Item>)
    ensures |r| <= |items|
    ensures forall k :: 0 <= k < |r| ==> r[k] in items && keep(r[k])
    ensures forall i :: 0 <= i < |items| && keep(items[i]) ==> items[i] in r
  {
    if |items| == 0 then []
    else
      var rest := Select(items[1..], keep);
      assert forall i :: 1 <= i < |items| ==> items[i] == items[1..][i - 1];
      if keep(items[0]) then [items[0]] + rest else rest
  }

  /** Selecting from a cart with one more line at the end: that line is kept at the end or not at all. */
  lemma {:induction false} SelectSnoc(items: seq<Item>, x: Item, keep: Item -> bool)
    ensures Select(items + [x], keep) == Select(items, keep) + (if keep(x) then [x] else [])
  {
    if |items| == 0 {
      assert items + [x] == [x];
      assert [x][1..] == [];
    } else {
      assert (items + [x])[1..] == items[1..] + [x];
      SelectSnoc(items[1..], x, keep);
    }
  }

  // ---------------------------------------------------------------- sums

  function SumCoupon(items: seq<Item>): int {
    if |items| == 0 then 0 else items[0].couponDiscount + SumCoupon(items[1..])
  }

  function SumEffective(items: seq<Item>): int {
    if |items| == 0 then 0 else EffectiveSubtotal(items[0]) + SumEffective(items[1..])
  }

  /** Total discount still available: the sum over lines of what is left to discount. */
  function Room(items: seq<Item>): (r: int)
    ensures r >= 0
  {
    if |items| == 0 then 0
    else Max(0, EffectiveSubtotal(items[0]) - items[0].couponDiscount) + Room(items[1..])
  }

  /** Total discount that could be taken back: the sum of the positive coupon discounts. */
  function Positive(items: seq<Item>): (r: int)
    ensures r >= 0
  {
    if |items| == 0 then 0 else Max(0, items[0].couponDiscount) + Positive(items[1..])
  }

  /** On bounded lines the room left is exactly effective subtotal minus coupon discount. */
  lemma {:induction false} RoomOfBounded(items: seq<Item>)
    requires AllBounded(items)
    ensures Room(items) == SumEffective(items) - SumCoupon(items)
    ensures Positive(items) == SumCoupon(items)
  {
    if |items| > 0 {
      assert Bounded(items[0]);
      RoomOfBounded(items[1..]);
    }
  }

  // ---------------------------------------------------------------- reset

  function ResetItem(it: Item): Item {
    it.(couponDiscount := 0,
        discountTotal := it.manualDiscount,
        lineTotal := it.subtotal - it.manualDiscount,
        recurring := None)
  }

  /**
   * `resetIndividualItemsDiscounts`: every line loses its coupon discount and its
   * recurring discounts; its discount total falls back to the manual discount.
   */
  function Reset(items: seq<Item>): (r: seq<Item>)
    ensures |r| == |items|
    ensures forall i :: 0 <= i < |r| ==>
      && r[i].couponDiscount == 0
      && r[i].discountTotal == items[i].manualDiscount
      && r[i].lineTotal == items[i].subtotal - items[i].manualDiscount
      && r[i].recurring == None
      && r[i] == items[i].(couponDiscount := 0, discountTotal := r[i].discountTotal,
                           lineTotal := r[i].lineTotal, recurring := None)
    ensures AllPriced(items) ==> AllBounded(r)
    ensures UniqueIds(items) ==> UniqueIds(r)
  {
    seq(|items|, i requires 0 <= i < |items| => ResetItem(items[i]))
  }

  /** Resetting twice is resetting once. */
  lemma ResetIdempotent(items: seq<Item>)
    ensures Reset(Reset(items)) == Reset(items)
  {
    var once := Reset(items);
    assert forall i :: 0 <= i < |items| ==> Reset(once)[i] == once[i];
  }

  /** Two carts that agree line by line once reset have the same reset. */
  lemma ResetDeterminedPointwise(a: seq<Item>, b: seq<Item>)
    requires |a| == |b|
    requires forall i :: 0 <= i < |a| ==> ResetItem(a[i]) == ResetItem(b[i])
    ensures Reset(a) == Reset(b)
  {
  }

  /** After a reset the cart carries no coupon discount at all. */
  lemma {:induction false} SumCouponOfReset(items: seq<Item>)
    ensures SumCoupon(Reset(items)) == 0
  {
    if |items| > 0 {
      SumCouponOfReset(items[1..]);
      assert Reset(items)[1..] == Reset(items[1..]);
    }
  }

  // ---------------------------------------------------------------- totals

  function UpdateItem(it: Item): Item {
    var discount := it.manualDiscount + it.couponDiscount;
    it.(discountTotal := discount, lineTotal := Max(0, EffectiveSubtotal(it) - discount))
  }

  /**
   * `updateItemTotals`: each line's discount total becomes manual plus coupon discount,
   * and its line total what remains of the effective subtotal, never negative.
   */
  function UpdateTotals(items: seq<Item>): (r: seq<Item>)
    ensures |r| == |items|
    ensures forall i :: 0 <= i < |r| ==>
      && r[i] == items[i].(discountTotal := r[i].discountTotal, lineTotal := r[i].lineTotal)
      && r[i].discountTotal == items[i].manualDiscount + items[i].couponDiscount
      && r[i].lineTotal >= 0
      && (r[i].discountTotal <= EffectiveSubtotal(items[i]) ==>
            r[i].lineTotal + r[i].discountTotal == EffectiveSubtotal(items[i]))
      && (r[i].discountTotal >= EffectiveSubtotal(items[i]) ==> r[i].lineTotal == 0)
  {
    seq(|items|, i requires 0 <= i < |items| => UpdateItem(items[i]))
  }

  /** Recomputing totals twice is recomputing them once. */
  lemma UpdateTotalsIdempotent(items: seq<Item>)
    ensures UpdateTotals(UpdateTotals(items)) == UpdateTotals(items)
  {
    var once := UpdateTotals(items);
    assert forall i :: 0 <= i < |items| ==> UpdateTotals(once)[i] == once[i];
  }

  // ---------------------------------------------------------------- merge

  /** Position of the first item in `items` with the given id. */
  function FindId(items: seq<Item>, id: int): (r: Option<nat>)
    ensures r.Some? ==> r.value < |items| && items[r.value].id == id
    ensures r.Some? ==> forall k :: 0 <= k < r.value ==> items[k].id != id
    ensures r.None? ==> forall k :: 0 <= k < |items| ==> items[k].id != id
  {
    if |items| == 0 then None
    else if items[0].id == id then Some(0)
    else match FindId(items[1..], id)
      case None => None
      case Some(k) => Some(k + 1)
  }

  function MergeItem(it: Item, validated: seq<Item>): Item {
    match FindId(validated, it.id)
    case None => it
    case Some(k) => validated[k]
  }

  /**
   * `mergeValidatedItems`: each cart line is replaced by the first validated item with
   * the same id, and kept as it is when there is none.
   */
  function Merge(cart: seq<Item>, validated: seq<Item>): (r: seq<Item>)
    ensures |r| == |cart|
    ensures forall i :: 0 <= i < |r| ==> r[i].id == cart[i].id
    ensures forall i :: 0 <= i < |r| ==>
      (forall k :: 0 <= k < |validated| ==> validated[k].id != cart[i].id) ==> r[i] == cart[i]
    ensures forall i :: 0 <= i < |r| ==> r[i] == cart[i] || r[i] in validated
    ensures forall i, k :: 0 <= i < |r| && FindId(validated, cart[i].id) == Some(k) ==> r[i] == validated[k]
  {
    seq(|cart|, i requires 0 <= i < |cart| => MergeItem(cart[i], validated))
  }

  /**
   * Why line ids must be distinct for the merge to be a line-by-line update: two cart
   * lines sharing an id both become the first validated item with that id.
   */
  lemma MergeSharedId(a: Item, b: Item, w: Item)
    requires a.id == b.id && w.id == a.id
    ensures Merge([a, b], [w]) == [w, w]
  {
    assert FindId([w], a.id) == Some(0) && FindId([w], b.id) == Some(0);
  }

  /** `after` is `before` line by line, with only the coupon-owned fields changed. */
  predicate Mirrors(before: seq<Item>, after: seq<Item>) {
    |before| == |after| && forall k :: 0 <= k < |before| ==> CouponFieldsOnly(before[k], after[k])
  }

  /** Mirrored selected lines merged into a cart with distinct ids: line by line. */
  lemma MergeMirrored(cart: seq<Item>, keep: Item -> bool, w: seq<Item>)
    requires UniqueIds(cart)
    requires Mirrors(Select(cart, keep), w)
    ensures var m := Merge(cart, w);
      forall i :: 0 <= i < |cart| ==>
        && CouponFieldsOnly(cart[i], m[i])
        && (!keep(cart[i]) ==> m[i] == cart[i])
        && (AllBounded(cart) && AllBounded(w) ==> Bounded(m[i]))
  {
    var v := Select(cart, keep);
    var m := Merge(cart, w);
    forall i | 0 <= i < |cart|
      ensures CouponFieldsOnly(cart[i], m[i])
      ensures !keep(cart[i]) ==> m[i] == cart[i]
      ensures AllBounded(cart) && AllBounded(w) ==> Bounded(m[i])
    {
      match FindId(w, cart[i].id)
      case None =>
      case Some(k) =>
        assert m[i] == w[k];
        assert CouponFieldsOnly(v[k], w[k]);
        var j :| 0 <= j < |cart| && cart[j] == v[k];
        assert j == i;
    }
  }

  /** The lines after the first of a cart with distinct ids have distinct ids, none of them the first's. */
  lemma TailUnique(cart: seq<Item>)
    requires UniqueIds(cart) && |cart| > 0
    ensures UniqueIds(cart[1..])
    ensures forall k :: 0 <= k < |cart[1..]| ==> cart[1..][k].id != cart[0].id
  {
    assert forall k :: 0 <= k < |cart[1..]| ==> cart[1..][k] == cart[k + 1];
  }

  /** Mirrored sequences carry the same ids, position by position, and so do their tails. */
  lemma MirrorsIds(before: seq<Item>, after: seq<Item>)
    requires Mirrors(before, after)
    ensures forall k :: 0 <= k < |after| ==> after[k].id == before[k].id
    ensures |before| > 0 ==> Mirrors(before[1..], after[1..])
  {
    if |before| > 0 {
      assert forall k :: 0 <= k < |before| - 1 ==> before[1..][k] == before[k + 1] && after[1..][k] == after[k + 1];
    }
  }

  /** Merging into a cart's tail is the tail of merging into the cart. */
  lemma MergeTail(cart: seq<Item>, w: seq<Item>)
    requires |cart| > 0
    ensures Merge(cart, w) == [MergeItem(cart[0], w)] + Merge(cart[1..], w)
  {
    var m := Merge(cart, w);
    var t := Merge(cart[1..], w);
    forall k | 0 <= k < |t| ensures m[k + 1] == t[k] {
      assert cart[1..][k] == cart[k + 1];
    }
    assert m == [m[0]] + t;
  }

  /** A validated item whose id no cart line has does not matter to the merge. */
  lemma MergeSkipHead(cart: seq<Item>, w: seq<Item>)
    requires |w| > 0
    requires forall k :: 0 <= k < |cart| ==> cart[k].id != w[0].id
    ensures Merge(cart, w) == Merge(cart, w[1..])
  {
    forall k | 0 <= k < |cart| ensures MergeItem(cart[k], w) == MergeItem(cart[k], w[1..]) {
      match FindId(w[1..], cart[k].id)
      case None =>
      case Some(j) => assert w[1..][j] == w[j + 1];
    }
  }

  /** For distinct ids, merging mirrored selected lines moves the cart's coupon total by what it moves theirs. */
  lemma {:induction false} MergeSum(cart: seq<Item>, keep: Item -> bool, w: seq<Item>)
    requires UniqueIds(cart)
    requires Mirrors(Select(cart, keep), w)
    ensures SumCoupon(Merge(cart, w)) - SumCoupon(cart) == SumCoupon(w) - SumCoupon(Select(cart, keep))
  {
    if |cart| > 0 {
      var v := Select(cart, keep);
      var tail := cart[1..];
      var vt := Select(tail, keep);
      TailUnique(cart);
      MergeTail(cart, w);
      MirrorsIds(v, w);
      var head := MergeItem(cart[0], w);
      if keep(cart[0]) {
        assert v == [cart[0]] + vt;
        assert v[1..] == vt;
        assert FindId(w, cart[0].id) == Some(0);
        MergeSkipHead(tail, w);
        MergeSum(tail, keep, w[1..]);
      } else {
        assert v == vt;
        assert forall k :: 0 <= k < |w| ==> w[k].id != cart[0].id by {
          forall k | 0 <= k < |w| ensures w[k].id != cart[0].id {
            assert v[k] in tail;
          }
        }
        assert head == cart[0];
        MergeSum(tail, keep, w);
      }
    }
  }

  /** Recomputing the totals of a line that differs from another only in its discount fields. */
  lemma UpdateOfMirrored(before: Item, after: Item)
    requires CouponFieldsOnly(before, after)
    ensures ResetItem(UpdateItem(after)) == ResetItem(before)
    ensures UpdateItem(UpdateItem(after)) == UpdateItem(after)
    ensures UpdateItem(after).id == before.id
  {
  }

  /**
   * Merging mirrored selected lines back into a cart with distinct ids and recomputing
   * totals: ids stay distinct, every line differs from its original only in its discount
   * fields, unselected lines only have their totals recomputed, and every line's totals
   * agree with its discounts.
   */
  lemma MergeBackShape(cart: seq<Item>, keep: Item -> bool, w: seq<Item>)
    requires UniqueIds(cart)
    requires Mirrors(Select(cart, keep), w)
    ensures var m := UpdateTotals(Merge(cart, w));
      && |m| == |cart|
      && UniqueIds(m)
      && (forall i :: 0 <= i < |cart| ==> ResetItem(m[i]) == ResetItem(cart[i]))
      && (forall i :: 0 <= i < |cart| && !keep(cart[i]) ==> m[i] == UpdateItem(cart[i]))
      && (forall i :: 0 <= i < |cart| ==> m[i] == UpdateItem(m[i]))
  {
    var merged := Merge(cart, w);
    var m := UpdateTotals(merged);
    MergeMirrored(cart, keep, w);
    forall i | 0 <= i < |cart|
      ensures ResetItem(m[i]) == ResetItem(cart[i]) && m[i] == UpdateItem(m[i]) && m[i].id == cart[i].id
    {
      assert m[i] == UpdateItem(merged[i]);
      UpdateOfMirrored(cart[i], merged[i]);
    }
  }

  /**
   * On bounded lines with distinct ids, merging mirrored bounded selected lines back and
   * recomputing totals keeps every line bounded and moves the cart's coupon total by
   * what the selected lines' moved.
   */
  lemma MergeBackSum(cart: seq<Item>, keep: Item -> bool, w: seq<Item>)
    requires UniqueIds(cart) && AllBounded(cart) && AllBounded(w)
    requires Mirrors(Select(cart, keep), w)
    ensures var m := UpdateTotals(Merge(cart, w));
      AllBounded(m) && SumCoupon(m) - SumCoupon(cart) == SumCoupon(w) - SumCoupon(Select(cart, keep))
  {
    var merged := Merge(cart, w);
    var m := UpdateTotals(merged);
    MergeMirrored(cart, keep, w);
    MergeSum(cart, keep, w);
    SumCouponPointwise(m, merged);
    forall i | 0 <= i < |cart| ensures Bounded(m[i]) {
      assert Bounded(merged[i]);
    }
  }

  /** Lines with equal coupon discounts, position by position, have equal coupon totals. */
  lemma {:induction false} SumCouponPointwise(a: seq<Item>, b: seq<Item>)
    requires |a| == |b| && forall i :: 0 <= i < |a| ==> a[i].couponDiscount == b[i].couponDiscount
    ensures SumCoupon(a) == SumCoupon(b)
  {
    if |a| > 0 {
      SumCouponPointwise(a[1..], b[1..]);
    }
  }
}
