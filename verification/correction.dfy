/**
 * `correctFixedCouponRounding`: after the percentage pass a fixed coupon's total may be
 * a few cents off its face value. An under-applied coupon hands the shortfall to the
 * first lines that still have room; an over-applied one takes the excess back from the
 * first lines that carry a coupon discount.
 */
module Correction {
  import opened Money
  import opened CartItems
  import opened Distribution

  /** Result of handing out a shortfall: the items and the amount actually added. */
  datatype Filled = Filled(items: seq<Item>, added: int)

  /** Result of taking back an excess: the items and the amount actually removed. */
  datatype Drained = Drained(items: seq<Item>, removed: int)

  /**
   * The under-applied loop: lines are visited in order, each taking as much of the
   * remaining shortfall as its room allows, until nothing remains. The amount added is
   * the shortfall when there is room for it, and all the room otherwise.
   */
  function Fill(items: seq<Item>, remaining: int): (r: Filled)
    ensures |r.items| == |items|
    ensures forall i :: 0 <= i < |items| ==>
      && r.items[i] == items[i].(couponDiscount := r.items[i].couponDiscount)
      && items[i].couponDiscount <= r.items[i].couponDiscount
      && r.items[i].couponDiscount <= Max(items[i].couponDiscount, EffectiveSubtotal(items[i]))
    ensures r.added == SumCoupon(r.items) - SumCoupon(items)
    ensures r.added == Min(Max(0, remaining), Room(items))
  {
    if |items| == 0 || remaining <= 0 then Filled(items, 0)
    else
      var it := items[0];
      var room := EffectiveSubtotal(it) - it.couponDiscount;
      // a line without room is skipped: it takes nothing
      var add := if room <= 0 then 0 else Min(room, remaining);
      var rest := Fill(items[1..], remaining - add);
      var r := Filled([it.(couponDiscount := it.couponDiscount + add)] + rest.items, add + rest.added);
      assert r.items[1..] == rest.items;
      assert forall i :: 1 <= i < |items| ==> items[1..][i - 1] == items[i];
      r
  }

  /**
   * The over-applied loop: lines are visited in order, each giving back as much of the
   * remaining excess as its positive coupon discount allows, until nothing remains.
   */
  function Drain(items: seq<Item>, excess: int): (r: Drained)
    ensures |r.items| == |items|
    ensures forall i :: 0 <= i < |items| ==>
      && r.items[i] == items[i].(couponDiscount := r.items[i].couponDiscount)
      && r.items[i].couponDiscount <= items[i].couponDiscount
      && Min(0, items[i].couponDiscount) <= r.items[i].couponDiscount
    ensures r.removed == SumCoupon(items) - SumCoupon(r.items)
    ensures r.removed == Min(Max(0, excess), Positive(items))
  {
    if |items| == 0 || excess <= 0 then Drained(items, 0)
    else
      var it := items[0];
      var existing := it.couponDiscount;
      // a line without a positive discount is skipped: it gives nothing back
      var take := if existing <= 0 then 0 else Min(existing, excess);
      var rest := Drain(items[1..], excess - take);
      var r := Drained([it.(couponDiscount := existing - take)] + rest.items, take + rest.removed);
      assert r.items[1..] == rest.items;
      assert forall i :: 1 <= i < |items| ==> items[1..][i - 1] == items[i];
      r
  }

  /**
   * `correctFixedCouponRounding` for a fixed coupon of face value `amount` whose
   * percentage pass produced `d`. Only coupon discounts move; bounded lines stay bounded;
   * the total moves towards `amount` without passing it, and reaches it whenever the
   * lines have the room (under-applied) or the discount (over-applied) to make it up.
   */
  function CorrectFixed(d: Distributed, amount: int): (r: Distributed)
    ensures |r.items| == |d.items|
    ensures forall i :: 0 <= i < |d.items| ==>
      r.items[i] == d.items[i].(couponDiscount := r.items[i].couponDiscount)
    ensures forall i :: 0 <= i < |d.items| ==> Bounded(d.items[i]) ==> Bounded(r.items[i])
    ensures r.total - d.total == SumCoupon(r.items) - SumCoupon(d.items)
    ensures d.total < amount ==> d.total <= r.total <= amount
    ensures d.total < amount && Room(d.items) >= amount - d.total ==> r.total == amount
    ensures d.total > amount ==> amount <= r.total <= d.total
    ensures d.total > amount && Positive(d.items) >= d.total - amount ==> r.total == amount
    ensures d.total == amount ==> r == d
  {
    if d.total < amount then
      var f := Fill(d.items, amount - d.total);
      Distributed(f.items, d.total + f.added)
    else if d.total > amount then
      var g := Drain(d.items, d.total - amount);
      Distributed(g.items, d.total - g.removed)
    else d
  }
}
