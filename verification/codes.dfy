/**
 * The first steps of `applyCouponCodes`: the cart's existing codes and the new ones are
 * merged, trimmed, stripped of falsy entries and de-duplicated keeping first occurrences
 * (`array_unique`); then each remaining code is looked up among the active coupons
 * (`formatCoupons`), in code order.
 */
module Codes {
  import opened Wrappers
  import opened PhpText
  import opened Coupons

  /** No value occurs twice. */
  predicate NoDup<T(==)>(xs: seq<T>) {
    forall i, j :: 0 <= i < j < |xs| ==> xs[i] != xs[j]
  }

  /** Position of the first occurrence of `x`. */
  function FirstIndex<T(==)>(xs: seq<T>, x: T): (i: nat)
    requires x in xs
    ensures i < |xs| && xs[i] == x
    ensures forall k :: 0 <= k < i ==> xs[k] != x
  {
    if xs[0] == x then 0 else 1 + FirstIndex(xs[1..], x)
  }

  /** A value of a prefix has its first occurrence inside that prefix. */
  lemma FirstIndexOfPrefix<T>(xs: seq<T>, y: T)
    requires |xs| > 0 && y in xs[..|xs| - 1]
    ensures FirstIndex(xs, y) == FirstIndex(xs[..|xs| - 1], y)
  {
    var init := xs[..|xs| - 1];
    assert forall k :: 0 <= k < |init| ==> init[k] == xs[k];
    var i := FirstIndex(init, y);
    assert xs[i] == y;
  }

  /**
   * PHP `array_unique` followed by `array_values`: the values in order, each kept at its
   * first occurrence. Built from the back, so that a value is appended exactly when the
   * prefix before it does not already hold it.
   */
  function Unique<T(==,!new)>(xs: seq<T>): (r: seq<T>)
    ensures NoDup(r)
    ensures forall x :: x in r <==> x in xs
  {
    if |xs| == 0 then []
    else
      var init := xs[..|xs| - 1];
      var x := xs[|xs| - 1];
      assert xs == init + [x];
      var u := Unique(init);
      if x in u then u else u + [x]
  }

  /** `Unique` lists its values in the order of their first occurrences. */
  lemma {:induction false} UniqueOrder<T(!new)>(xs: seq<T>)
    ensures forall i, j :: 0 <= i < j < |Unique(xs)| ==> FirstIndex(xs, Unique(xs)[i]) < FirstIndex(xs, Unique(xs)[j])
  {
    if |xs| > 0 {
      var init := xs[..|xs| - 1];
      var x := xs[|xs| - 1];
      var u := Unique(init);
      UniqueOrder(init);
      var r := Unique(xs);
      assert r == if x in u then u else u + [x];
      forall i, j | 0 <= i < j < |r| ensures FirstIndex(xs, r[i]) < FirstIndex(xs, r[j]) {
        assert r[i] == u[i] && u[i] in init;
        FirstIndexOfPrefix(xs, u[i]);
        if j < |u| {
          assert r[j] == u[j] && u[j] in init;
          FirstIndexOfPrefix(xs, u[j]);
          assert FirstIndex(init, u[i]) < FirstIndex(init, u[j]);
        } else {
          assert x !in u;
          assert r[j] == x && x !in init;
          assert forall k :: 0 <= k < |init| ==> xs[k] == init[k];
          assert FirstIndex(xs, x) == |xs| - 1;
        }
      }
    }
  }

  /** A list without duplicates is its own `Unique`. */
  lemma {:induction false} UniqueOfDistinct<T(!new)>(xs: seq<T>)
    requires NoDup(xs)
    ensures Unique(xs) == xs
  {
    if |xs| > 0 {
      var init := xs[..|xs| - 1];
      assert NoDup(init);
      UniqueOfDistinct(init);
      assert xs[|xs| - 1] !in init;
      assert xs == init + [xs[|xs| - 1]];
    }
  }

  /** Appending values that are already present changes nothing in `Unique`. */
  lemma {:induction false} UniqueOfRepeats<T(!new)>(xs: seq<T>, ys: seq<T>)
    requires forall y :: y in ys ==> y in xs
    ensures Unique(xs + ys) == Unique(xs)
    decreases |ys|
  {
    if |ys| > 0 {
      var init := ys[..|ys| - 1];
      assert (xs + ys)[..|xs + ys| - 1] == xs + init;
      assert (xs + ys)[|xs + ys| - 1] == ys[|ys| - 1];
      assert forall y :: y in init ==> y in ys;
      UniqueOfRepeats(xs, init);
    } else {
      assert xs + ys == xs;
    }
  }

  /** Dropping falsy entries keeps the relative order of the first occurrences of truthy ones. */
  lemma {:induction false} TruthyOnlyKeepsOrder(ys: seq<string>, a: string, b: string)
    requires Truthy(a) && Truthy(b) && a in ys && b in ys
    requires FirstIndex(ys, a) < FirstIndex(ys, b)
    ensures FirstIndex(TruthyOnly(ys), a) < FirstIndex(TruthyOnly(ys), b)
  {
    var f := TruthyOnly(ys);
    if ys[0] == a {
      assert f == [a] + TruthyOnly(ys[1..]);
    } else {
      assert ys[0] != b;
      TruthyOnlyKeepsOrder(ys[1..], a, b);
      if Truthy(ys[0]) {
        assert f == [ys[0]] + TruthyOnly(ys[1..]);
      }
    }
  }

  /** Every code as `array_map('trim', ...)` leaves it, before filtering. */
  function AllCodes(existing: seq<string>, given: seq<string>): seq<string> {
    TrimAll(existing + given)
  }

  /**
   * The code normalisation of `applyCouponCodes`: the result has no duplicates, holds
   * only trimmed truthy codes, and holds exactly the truthy codes some input trims to.
   */
  function NormalizeCodes(existing: seq<string>, given: seq<string>): (r: seq<string>)
    ensures NoDup(r)
    ensures forall k :: 0 <= k < |r| ==> Truthy(r[k]) && IsTrimmed(r[k])
    ensures forall x :: x in r <==> Truthy(x) && x in AllCodes(existing, given)
  {
    var all := AllCodes(existing, given);
    TrimAllTrimmed(existing + given);
    var f := TruthyOnly(all);
    assert forall y :: y in f <==> Truthy(y) && y in all;
    Unique(f)
  }

  lemma TrimAllTrimmed(xs: seq<string>)
    ensures forall y :: y in TrimAll(xs) ==> IsTrimmed(y)
  {
    var t := TrimAll(xs);
    forall y | y in t ensures IsTrimmed(y) {
      var k :| 0 <= k < |t| && t[k] == y;
      assert y == Trim(xs[k]);
    }
  }

  /** Two distinct truthy codes appear in the same order before and after dropping falsy entries. */
  lemma TruthyOnlyPairOrder(all: seq<string>, a: string, b: string)
    requires a in TruthyOnly(all) && b in TruthyOnly(all) && a != b
    requires FirstIndex(TruthyOnly(all), a) < FirstIndex(TruthyOnly(all), b)
    ensures FirstIndex(all, a) < FirstIndex(all, b)
  {
    if FirstIndex(all, b) < FirstIndex(all, a) {
      TruthyOnlyKeepsOrder(all, b, a);
    }
  }

  /** The normalised codes come in the order in which they first appear among the trimmed inputs. */
  lemma NormalizeCodesOrder(existing: seq<string>, given: seq<string>)
    ensures forall i, j :: 0 <= i < j < |NormalizeCodes(existing, given)| ==>
      FirstIndex(AllCodes(existing, given), NormalizeCodes(existing, given)[i]) <
      FirstIndex(AllCodes(existing, given), NormalizeCodes(existing, given)[j])
  {
    var all := AllCodes(existing, given);
    var f := TruthyOnly(all);
    var r := Unique(f);
    assert r == NormalizeCodes(existing, given);
    UniqueOrder(f);
    forall i, j | 0 <= i < j < |r| ensures FirstIndex(all, r[i]) < FirstIndex(all, r[j]) {
      TruthyOnlyPairOrder(all, r[i], r[j]);
    }
  }

  /** Codes that normalisation would leave as they are. */
  predicate Normalized(codes: seq<string>) {
    NoDup(codes) && forall k :: 0 <= k < |codes| ==> Truthy(codes[k]) && IsTrimmed(codes[k])
  }

  /**
   * Revalidation passes the cart's own codes both as existing and as new codes: codes in
   * normal form come back unchanged.
   */
  lemma RevalidatedCodes(codes: seq<string>)
    requires Normalized(codes)
    ensures NormalizeCodes(codes, codes) == codes
  {
    var all := codes + codes;
    forall k | 0 <= k < |all| ensures Trim(all[k]) == all[k] {
      TrimOfPadded("", all[k], "");
      assert "" + all[k] + "" == all[k];
    }
    assert TrimAll(all) == all;
    TruthyOnlyOfTruthy(all);
    UniqueOfRepeats(codes, codes);
    UniqueOfDistinct(codes);
  }

  lemma {:induction false} TruthyOnlyOfTruthy(xs: seq<string>)
    requires forall k :: 0 <= k < |xs| ==> Truthy(xs[k])
    ensures TruthyOnly(xs) == xs
  {
    if |xs| > 0 {
      assert forall k :: 0 <= k < |xs| - 1 ==> xs[1..][k] == xs[k + 1];
      TruthyOnlyOfTruthy(xs[1..]);
    }
  }

  // ---------------------------------------------------------------- coupon lookup

  /** The codes of some coupons, in order. */
  function CodesOf(cs: seq<Coupon>): (r: seq<string>)
    ensures |r| == |cs| && forall k :: 0 <= k < |cs| ==> r[k] == cs[k].code
  {
    seq(|cs|, k requires 0 <= k < |cs| => cs[k].code)
  }

  /** The set of codes of some coupons. */
  function CodeSet(cs: seq<Coupon>): set<string> {
    set k | 0 <= k < |cs| :: cs[k].code
  }

  /** The codes of a non-empty list: the head's and the tail's. */
  lemma CodeSetCons(cs: seq<Coupon>)
    requires |cs| > 0
    ensures CodeSet(cs) == {cs[0].code} + CodeSet(cs[1..])
  {
    var tail := cs[1..];
    forall code | code in CodeSet(cs) ensures code in {cs[0].code} + CodeSet(tail) {
      var k :| 0 <= k < |cs| && cs[k].code == code;
      if k > 0 {
        assert tail[k - 1] == cs[k];
      }
    }
    forall code | code in CodeSet(tail) ensures code in CodeSet(cs) {
      var k :| 0 <= k < |tail| && tail[k].code == code;
      assert tail[k] == cs[k + 1];
    }
  }

  /** No two coupons share a code. */
  predicate DistinctCodes(cs: seq<Coupon>) {
    forall i, j :: 0 <= i < j < |cs| ==> cs[i].code != cs[j].code
  }

  /** The tail of a list with distinct codes has distinct codes, none of them the head's. */
  lemma DistinctTail(cs: seq<Coupon>)
    requires |cs| > 0
    ensures DistinctCodes(cs) ==> DistinctCodes(cs[1..])
    ensures DistinctCodes(cs) ==> forall k :: 0 <= k < |cs[1..]| ==> cs[1..][k].code != cs[0].code
    ensures DistinctCodes(cs) ==> forall c :: c in cs[1..] ==> c.code != cs[0].code
  {
    var tail := cs[1..];
    if DistinctCodes(cs) {
      forall i, j | 0 <= i < j < |tail| ensures tail[i].code != tail[j].code {
        assert tail[i] == cs[i + 1] && tail[j] == cs[j + 1];
      }
      forall k | 0 <= k < |tail| ensures tail[k].code != cs[0].code {
        assert tail[k] == cs[k + 1];
      }
    }
  }

  /** The coupons satisfying `keep`, in order. */
  function KeepCoupons(cs: seq<Coupon>, keep: Coupon -> bool): (r: seq<Coupon>)
    ensures |r| <= |cs|
    ensures forall k :: 0 <= k < |r| ==> r[k] in cs && keep(r[k])
    ensures forall i :: 0 <= i < |cs| && keep(cs[i]) ==> cs[i] in r
  {
    if |cs| == 0 then []
    else
      var rest := KeepCoupons(cs[1..], keep);
      assert forall i :: 1 <= i < |cs| ==> cs[i] == cs[1..][i - 1];
      if keep(cs[0]) then
        var r := [cs[0]] + rest;
        assert forall k :: 1 <= k < |r| ==> r[k] == rest[k - 1];
        r
      else rest
  }

  /** Filtering keeps codes distinct. */
  lemma {:induction false} KeepCouponsDistinct(cs: seq<Coupon>, keep: Coupon -> bool)
    ensures DistinctCodes(cs) ==> DistinctCodes(KeepCoupons(cs, keep))
  {
    if |cs| > 0 && DistinctCodes(cs) {
      DistinctTail(cs);
      KeepCouponsDistinct(cs[1..], keep);
      var rest := KeepCoupons(cs[1..], keep);
      if keep(cs[0]) {
        forall k | 0 <= k < |rest| ensures rest[k].code != cs[0].code {
          assert rest[k] in cs[1..];
        }
        ConsDistinct(cs[0], rest);
        assert KeepCoupons(cs, keep) == [cs[0]] + rest;
      } else {
        assert KeepCoupons(cs, keep) == rest;
      }
    }
  }

  /** Filtering a list with one more coupon at the end. */
  lemma {:induction false} KeepCouponsSnoc(cs: seq<Coupon>, c: Coupon, keep: Coupon -> bool)
    ensures KeepCoupons(cs + [c], keep) == KeepCoupons(cs, keep) + (if keep(c) then [c] else [])
  {
    if |cs| == 0 {
      assert cs + [c] == [c];
      assert [c][1..] == [];
    } else {
      assert (cs + [c])[1..] == cs[1..] + [c];
      KeepCouponsSnoc(cs[1..], c, keep);
    }
  }

  /** Position of the last active coupon with the code in the store. */
  function LastActive(store: seq<Coupon>, code: string): (r: Option<nat>)
    ensures r.Some? ==> r.value < |store| && store[r.value].active && store[r.value].code == code
    ensures r.Some? ==> forall j :: r.value < j < |store| ==> !(store[j].active && store[j].code == code)
    ensures r.None? ==> forall k :: 0 <= k < |store| ==> !(store[k].active && store[k].code == code)
  {
    if |store| == 0 then None
    else if store[|store| - 1].active && store[|store| - 1].code == code then Some(|store| - 1)
    else
      var r := LastActive(store[..|store| - 1], code);
      assert forall k :: 0 <= k < |store| - 1 ==> store[..|store| - 1][k] == store[k];
      r
  }

  /** The active coupon the store holds for a code: the last one, as `keyBy('code')` keeps. */
  function Lookup(store: seq<Coupon>, code: string): (r: Option<Coupon>)
    ensures r.Some? ==> r.value in store && r.value.active && r.value.code == code
    ensures r.None? <==> forall k :: 0 <= k < |store| ==> !(store[k].active && store[k].code == code)
    ensures r.Some? ==> exists i :: 0 <= i < |store| && store[i] == r.value &&
                                   (forall j :: i < j < |store| ==> !(store[j].active && store[j].code == code))
  {
    match LastActive(store, code)
    case None => None
    case Some(i) => Some(store[i])
  }

  /** `Coupon::query()->whereIn('code', $codes)->where('status', 'active')` found nothing. */
  predicate NoneActive(store: seq<Coupon>, codes: seq<string>) {
    forall k :: 0 <= k < |store| ==> !(store[k].active && store[k].code in codes)
  }

  /**
   * `formatCoupons`: for each code in order, the active coupon the store holds for it.
   * Nothing is found exactly when the query finds nothing.
   */
  function FormatCoupons(store: seq<Coupon>, codes: seq<string>): (r: seq<Coupon>)
    ensures forall k :: 0 <= k < |r| ==> r[k].code in codes && Lookup(store, r[k].code) == Some(r[k])
    ensures |r| == 0 <==> NoneActive(store, codes)
  {
    if |codes| == 0 then []
    else
      var rest := FormatCoupons(store, codes[1..]);
      assert forall c :: c in codes[1..] ==> c in codes;
      match Lookup(store, codes[0])
      case None => rest
      case Some(c) => [c] + rest
  }

  /** Every code the store holds an active coupon for is represented. */
  lemma {:induction false} FormatCouponsComplete(store: seq<Coupon>, codes: seq<string>)
    ensures forall i :: 0 <= i < |codes| && Lookup(store, codes[i]).Some? ==>
      Lookup(store, codes[i]).value in FormatCoupons(store, codes)
  {
    if |codes| > 0 {
      FormatCouponsComplete(store, codes[1..]);
      assert forall i :: 1 <= i < |codes| ==> codes[i] == codes[1..][i - 1];
    }
  }

  /** One more code at the end adds its coupon, if the store holds one, at the end. */
  lemma {:induction false} FormatCouponsSnoc(store: seq<Coupon>, codes: seq<string>, x: string)
    ensures FormatCoupons(store, codes + [x]) ==
      FormatCoupons(store, codes) + (if Lookup(store, x).Some? then [Lookup(store, x).value] else [])
  {
    if |codes| == 0 {
      assert codes + [x] == [x];
      assert [x][1..] == [];
    } else {
      assert (codes + [x])[0] == codes[0];
      assert (codes + [x])[1..] == codes[1..] + [x];
      FormatCouponsSnoc(store, codes[1..], x);
    }
  }

  /**
   * The first coupon a test keeps from the found coupons is the one of the first code
   * whose coupon exists and passes the test.
   */
  lemma {:induction false} FirstKept(store: seq<Coupon>, codes: seq<string>, keep: Coupon -> bool)
    ensures var r := KeepCoupons(FormatCoupons(store, codes), keep);
      |r| > 0 ==> exists i :: (
        && 0 <= i < |codes| && Lookup(store, codes[i]) == Some(r[0]) && keep(r[0])
        && (forall j :: 0 <= j < i ==> Lookup(store, codes[j]).None? || !keep(Lookup(store, codes[j]).value)))
  {
    var f := FormatCoupons(store, codes);
    var r := KeepCoupons(f, keep);
    if |codes| > 0 && |r| > 0 {
      var tail := codes[1..];
      var rest := FormatCoupons(store, tail);
      var head := Lookup(store, codes[0]);
      if head.Some? && keep(head.value) {
        assert f == [head.value] + rest;
        assert r[0] == head.value;
      } else {
        assert KeepCoupons(f, keep) == KeepCoupons(rest, keep) by {
          if head.Some? {
            assert f == [head.value] + rest;
            assert f[1..] == rest;
          }
        }
        FirstKept(store, tail, keep);
        var i :| 0 <= i < |tail| && Lookup(store, tail[i]) == Some(r[0]) && keep(r[0]) &&
          (forall j :: 0 <= j < i ==> Lookup(store, tail[j]).None? || !keep(Lookup(store, tail[j]).value));
        assert codes[i + 1] == tail[i];
        forall j | 0 <= j < i + 1 ensures Lookup(store, codes[j]).None? || !keep(Lookup(store, codes[j]).value) {
          if j > 0 {
            assert codes[j] == tail[j - 1];
          }
        }
      }
    }
  }

  /** The tail of a list without duplicates has none either, and does not hold the head. */
  lemma NoDupTail<T>(xs: seq<T>)
    requires NoDup(xs) && |xs| > 0
    ensures NoDup(xs[1..]) && xs[0] !in xs[1..]
  {
    var tail := xs[1..];
    forall i, j | 0 <= i < j < |tail| ensures tail[i] != tail[j] {
      assert tail[i] == xs[i + 1] && tail[j] == xs[j + 1];
    }
    forall j | 0 <= j < |tail| ensures tail[j] != xs[0] {
      assert tail[j] == xs[j + 1];
    }
  }

  /** A coupon whose code none of some distinct coupons has can go in front of them. */
  lemma ConsDistinct(c: Coupon, rest: seq<Coupon>)
    ensures DistinctCodes(rest) && (forall k :: 0 <= k < |rest| ==> rest[k].code != c.code) ==>
      DistinctCodes([c] + rest)
  {
    var r := [c] + rest;
    if DistinctCodes(rest) && (forall k :: 0 <= k < |rest| ==> rest[k].code != c.code) {
      forall i, j | 0 <= i < j < |r| ensures r[i].code != r[j].code {
        assert r[j] == rest[j - 1];
        if i > 0 {
          assert r[i] == rest[i - 1];
        }
      }
    }
  }

  /** Distinct codes give coupons with distinct codes. */
  lemma {:induction false} FormatCouponsDistinct(store: seq<Coupon>, codes: seq<string>)
    requires NoDup(codes)
    ensures DistinctCodes(FormatCoupons(store, codes))
  {
    if |codes| > 0 {
      var tail := codes[1..];
      NoDupTail(codes);
      FormatCouponsDistinct(store, tail);
      var rest := FormatCoupons(store, tail);
      var found := Lookup(store, codes[0]);
      if found.Some? {
        forall k | 0 <= k < |rest| ensures rest[k].code != found.value.code {
          assert rest[k].code in tail;
        }
        ConsDistinct(found.value, rest);
        assert FormatCoupons(store, codes) == [found.value] + rest;
      } else {
        assert FormatCoupons(store, codes) == rest;
      }
    }
  }
}
