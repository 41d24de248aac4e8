/**
 * Stacking and priority in `applyCouponCodes`. With two or more valid coupons, every
 * non-stackable one is refused with `coupon_not_stackable`, and only the stackable ones go
 * on, or only the first valid coupon when none is stackable. The survivors are applied in
 * ascending priority, a missing priority counting as 0, by PHP 8's stable `usort`.
 */
module Stacking {
  import opened Coupons
  import opened Codes

  /** The stackable test as a value. */
  function IsStackable(): Coupon -> bool {
    (c: Coupon) => c.stackable
  }

  /** The codes of the non-stackable coupons. */
  function UnstackableCodes(cs: seq<Coupon>): set<string> {
    set k | 0 <= k < |cs| && !cs[k].stackable :: cs[k].code
  }

  /** The loop's writes into the error map: each non-stackable coupon's code gets `coupon_not_stackable`. */
  function MarkUnstackable(cs: seq<Coupon>, invalid: map<string, CouponResult>): (r: map<string, CouponResult>)
    ensures r.Keys == invalid.Keys + UnstackableCodes(cs)
    ensures forall code :: code in UnstackableCodes(cs) ==> r[code] == Failed(CouponNotStackable)
    ensures forall code :: code in invalid && code !in UnstackableCodes(cs) ==> r[code] == invalid[code]
  {
    if |cs| == 0 then invalid
    else
      var init := cs[..|cs| - 1];
      var c := cs[|cs| - 1];
      var rest := MarkUnstackable(init, invalid);
      assert forall k :: 0 <= k < |init| ==> init[k] == cs[k];
      assert UnstackableCodes(cs) == UnstackableCodes(init) + (if c.stackable then {} else {c.code}) by {
        forall code | code in UnstackableCodes(cs)
          ensures code in UnstackableCodes(init) + (if c.stackable then {} else {c.code})
        {
          var k :| 0 <= k < |cs| && !cs[k].stackable && cs[k].code == code;
          if k < |init| {
            assert init[k] == cs[k];
          }
        }
      }
      if c.stackable then rest else rest[c.code := Failed(CouponNotStackable)]
  }

  /** The valid coupons that go on to be applied, and the error map so far. */
  datatype Stacked = Stacked(kept: seq<Coupon>, invalid: map<string, CouponResult>)

  /**
   * The stacking rule. Fewer than two valid coupons pass untouched. Otherwise the
   * non-stackable ones are refused, and the stackable ones are kept in order, or the
   * first valid coupon alone when none is stackable. So several coupons are only ever
   * kept when all of them are stackable.
   */
  function Stack(valid: seq<Coupon>, invalid: map<string, CouponResult>): (r: Stacked)
    ensures |valid| < 2 ==> r == Stacked(valid, invalid)
    ensures |valid| >= 2 ==>
      && r.invalid.Keys == invalid.Keys + UnstackableCodes(valid)
      && (forall k :: 0 <= k < |valid| && !valid[k].stackable ==>
            r.invalid[valid[k].code] == Failed(CouponNotStackable))
      && (forall code :: code in invalid && code !in UnstackableCodes(valid) ==> r.invalid[code] == invalid[code])
    ensures |valid| >= 2 && (exists k :: 0 <= k < |valid| && valid[k].stackable) ==>
      r.kept == KeepCoupons(valid, IsStackable())
    ensures |valid| >= 2 && (forall k :: 0 <= k < |valid| ==> !valid[k].stackable) ==> r.kept == [valid[0]]
    ensures |valid| >= 1 ==> |r.kept| >= 1
    ensures forall k :: 0 <= k < |r.kept| ==> r.kept[k] in valid
    ensures |r.kept| >= 2 ==> forall k :: 0 <= k < |r.kept| ==> r.kept[k].stackable
  {
    if |valid| >= 2 then
      var marked := MarkUnstackable(valid, invalid);
      assert forall k :: 0 <= k < |valid| && !valid[k].stackable ==> valid[k].code in UnstackableCodes(valid);
      var stackable := KeepCoupons(valid, IsStackable());
      if |stackable| == 0 then Stacked([valid[0]], marked)
      else
        assert stackable[0] in valid && IsStackable()(stackable[0]);
        Stacked(stackable, marked)
    else Stacked(valid, invalid)
  }

  /** Stacking keeps codes distinct: what it keeps is a sublist of the valid coupons or one of them. */
  lemma StackDistinct(valid: seq<Coupon>, invalid: map<string, CouponResult>)
    requires DistinctCodes(valid)
    ensures DistinctCodes(Stack(valid, invalid).kept)
  {
    KeepCouponsDistinct(valid, IsStackable());
  }

  // ---------------------------------------------------------------- priority order

  predicate SortedByPriority(cs: seq<Coupon>) {
    forall i, j :: 0 <= i < j < |cs| ==> Priority(cs[i]) <= Priority(cs[j])
  }

  /**
   * Inserts `x` in front of the first coupon whose priority is not lower, so that it
   * precedes every coupon of equal priority already in `t`.
   */
  function Insert(x: Coupon, t: seq<Coupon>): (r: seq<Coupon>)
    ensures |r| == |t| + 1
    ensures multiset(r) == multiset([x] + t)
  {
    if |t| == 0 || Priority(x) <= Priority(t[0]) then [x] + t
    else
      var rest := Insert(x, t[1..]);
      assert t == [t[0]] + t[1..];
      [t[0]] + rest
  }

  /** A coupon of at most the priority of every coupon of a sorted list can go in front of it. */
  lemma ConsSorted(c: Coupon, rest: seq<Coupon>)
    requires SortedByPriority(rest)
    requires forall k :: 0 <= k < |rest| ==> Priority(c) <= Priority(rest[k])
    ensures SortedByPriority([c] + rest)
  {
    var r := [c] + rest;
    forall i, j | 0 <= i < j < |r| ensures Priority(r[i]) <= Priority(r[j]) {
      assert r[j] == rest[j - 1];
      if i > 0 {
        assert r[i] == rest[i - 1];
      }
    }
  }

  /** The tail of a sorted list is sorted, and its head has the lowest priority. */
  lemma SortedTail(t: seq<Coupon>)
    requires SortedByPriority(t) && |t| > 0
    ensures SortedByPriority(t[1..])
    ensures forall k :: 0 <= k < |t[1..]| ==> Priority(t[0]) <= Priority(t[1..][k])
  {
    var tail := t[1..];
    forall i, j | 0 <= i < j < |tail| ensures Priority(tail[i]) <= Priority(tail[j]) {
      assert tail[i] == t[i + 1] && tail[j] == t[j + 1];
    }
    forall k | 0 <= k < |tail| ensures Priority(t[0]) <= Priority(tail[k]) {
      assert tail[k] == t[k + 1];
    }
  }

  /** Every coupon of `Insert(x, t)` is `x` or one of `t`'s. */
  lemma InsertMembers(x: Coupon, t: seq<Coupon>)
    ensures forall k :: 0 <= k < |Insert(x, t)| ==>
      Insert(x, t)[k] == x || exists i :: 0 <= i < |t| && t[i] == Insert(x, t)[k]
  {
    var r := Insert(x, t);
    forall k | 0 <= k < |r| ensures r[k] == x || exists i :: 0 <= i < |t| && t[i] == r[k] {
      assert r[k] in multiset(r);
      assert r[k] in multiset([x] + t);
      if r[k] != x {
        assert r[k] in t;
      }
    }
  }

  /** Inserting into a list sorted by priority keeps it sorted. */
  lemma {:induction false} InsertSorted(x: Coupon, t: seq<Coupon>)
    requires SortedByPriority(t)
    ensures SortedByPriority(Insert(x, t))
  {
    if |t| == 0 {
      ConsSorted(x, t);
    } else if Priority(x) <= Priority(t[0]) {
      forall k | 0 <= k < |t| ensures Priority(x) <= Priority(t[k]) {
        if k > 0 {
          assert Priority(t[0]) <= Priority(t[k]);
        }
      }
      ConsSorted(x, t);
    } else {
      var tail := t[1..];
      SortedTail(t);
      InsertSorted(x, tail);
      var rest := Insert(x, tail);
      InsertMembers(x, tail);
      forall k | 0 <= k < |rest| ensures Priority(t[0]) <= Priority(rest[k]) {
        if rest[k] != x {
          var i :| 0 <= i < |tail| && tail[i] == rest[k];
        }
      }
      ConsSorted(t[0], rest);
      assert Insert(x, t) == [t[0]] + rest;
    }
  }

  /**
   * The `usort` by priority: an insertion sort from the back. The result is ordered by
   * priority and is a permutation of the input.
   */
  function SortByPriority(cs: seq<Coupon>): (r: seq<Coupon>)
    ensures |r| == |cs|
    ensures SortedByPriority(r)
    ensures multiset(r) == multiset(cs)
  {
    if |cs| == 0 then []
    else
      var rest := SortByPriority(cs[1..]);
      assert cs == [cs[0]] + cs[1..];
      InsertSorted(cs[0], rest);
      Insert(cs[0], rest)
  }

  /** The coupons of one priority, as a value. */
  function PriorityIs(p: int): Coupon -> bool {
    (c: Coupon) => Priority(c) == p
  }

  /** Inserting `x` puts it first among the coupons of its own priority, and touches no other priority. */
  lemma {:induction false} InsertStable(x: Coupon, t: seq<Coupon>, p: int)
    ensures KeepCoupons(Insert(x, t), PriorityIs(p)) == KeepCoupons([x] + t, PriorityIs(p))
  {
    if |t| > 0 && Priority(x) > Priority(t[0]) {
      var rest := Insert(x, t[1..]);
      InsertStable(x, t[1..], p);
      assert ([t[0]] + rest)[1..] == rest;
      assert ([x] + t)[1..] == t;
      assert ([x] + t[1..])[1..] == t[1..];
      if Priority(x) == p {
        assert Priority(t[0]) != p;
      }
    }
  }

  /** The sort is stable: coupons of equal priority keep their relative order. */
  lemma {:induction false} SortStable(cs: seq<Coupon>, p: int)
    ensures KeepCoupons(SortByPriority(cs), PriorityIs(p)) == KeepCoupons(cs, PriorityIs(p))
  {
    if |cs| > 0 {
      var rest := SortByPriority(cs[1..]);
      SortStable(cs[1..], p);
      InsertStable(cs[0], rest, p);
      assert ([cs[0]] + rest)[1..] == rest;
    }
  }

  /** Inserting a coupon whose code is new keeps the codes distinct. */
  lemma {:induction false} InsertDistinct(x: Coupon, t: seq<Coupon>)
    requires DistinctCodes(t)
    requires forall k :: 0 <= k < |t| ==> t[k].code != x.code
    ensures DistinctCodes(Insert(x, t))
  {
    if |t| == 0 || Priority(x) <= Priority(t[0]) {
      ConsDistinct(x, t);
    } else {
      var tail := t[1..];
      assert forall k :: 0 <= k < |tail| ==> tail[k] == t[k + 1];
      assert DistinctCodes(tail) by {
        forall i, j | 0 <= i < j < |tail| ensures tail[i].code != tail[j].code {
          assert tail[i] == t[i + 1] && tail[j] == t[j + 1];
        }
      }
      InsertDistinct(x, tail);
      var rest := Insert(x, tail);
      InsertMembers(x, tail);
      forall k | 0 <= k < |rest| ensures rest[k].code != t[0].code {
        if rest[k] != x {
          var i :| 0 <= i < |tail| && tail[i] == rest[k];
          assert tail[i] == t[i + 1];
        }
      }
      ConsDistinct(t[0], rest);
      assert Insert(x, t) == [t[0]] + rest;
    }
  }

  /** Sorting keeps codes distinct. */
  lemma {:induction false} SortDistinct(cs: seq<Coupon>)
    requires DistinctCodes(cs)
    ensures DistinctCodes(SortByPriority(cs))
  {
    if |cs| > 0 {
      var tail := cs[1..];
      assert forall k :: 0 <= k < |tail| ==> tail[k] == cs[k + 1];
      SortDistinct(tail);
      var rest := SortByPriority(tail);
      forall k | 0 <= k < |rest| ensures rest[k].code != cs[0].code {
        assert rest[k] in multiset(tail);
      }
      InsertDistinct(cs[0], rest);
    }
  }

  /** Stability for every priority at once, and distinct codes, for the sorted list. */
  lemma SortFacts(cs: seq<Coupon>)
    ensures forall p :: KeepCoupons(SortByPriority(cs), PriorityIs(p)) == KeepCoupons(cs, PriorityIs(p))
    ensures DistinctCodes(cs) ==> DistinctCodes(SortByPriority(cs))
  {
    forall p ensures KeepCoupons(SortByPriority(cs), PriorityIs(p)) == KeepCoupons(cs, PriorityIs(p)) {
      SortStable(cs, p);
    }
    if DistinctCodes(cs) {
      SortDistinct(cs);
    }
  }

  /** The application order: sorted when there are at least two coupons, as the source guards it. */
  function ApplicationOrder(kept: seq<Coupon>): (r: seq<Coupon>)
    ensures |r| == |kept| && SortedByPriority(r) && multiset(r) == multiset(kept)
    ensures forall p :: KeepCoupons(r, PriorityIs(p)) == KeepCoupons(kept, PriorityIs(p))
    ensures DistinctCodes(kept) ==> DistinctCodes(r)
  {
    if |kept| >= 2 then SortFacts(kept); SortByPriority(kept)
    else kept
  }
}
