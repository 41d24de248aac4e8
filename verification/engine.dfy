/**
 * `applyCouponCodes` and `getResult` on a fresh discount service: codes are normalised
 * and looked up, invalid and non-stackable coupons are refused, the cart is reset, and
 * the survivors are applied one by one in priority order. A coupon that `apply` refuses
 * records its error; one it accepts records its code and its discount.
 */
module Engine {
  import opened Wrappers
  import opened Money
  import opened CartItems
  import opened Coupons
  import opened Eligibility
  import opened Apply
  import opened Codes
  import opened Validity
  import opened Stacking
  import opened PhpText

  /** The cart the service works on: its lines and the codes it already carries. */
  datatype Cart = Cart(items: seq<Item>, coupons: seq<string>)

  /** The service's state while coupons are applied one after another. */
  datatype Progress = Progress(
    items: seq<Item>,
    applied: seq<string>,
    perCoupon: map<string, int>,
    invalid: map<string, CouponResult>,
    survivors: seq<Coupon>)

  /**
   * What `applyCouponCodes` returns: the `no_valid_coupons` error with the errors gathered
   * so far, or `getResult()`'s four parts.
   */
  datatype Outcome =
    | NoValidCoupons(errors: map<string, CouponResult>)
    | Ran(applied: seq<string>, results: map<string, CouponResult>, items: seq<Item>, perCoupon: map<string, int>)

  /** One iteration of the application loop. */
  function Step(st: Progress, c: Coupon, ctx: Context): Progress {
    match ApplyCoupon(st.items, c, ctx)
    case Applied(items, total) =>
      Progress(items, st.applied + [c.code], st.perCoupon[c.code := total], st.invalid, st.survivors + [c])
    case Rejected(e) =>
      st.(invalid := st.invalid[c.code := Failed(e)])
  }

  /** The application loop over the coupons in order. */
  function ApplyAll(cs: seq<Coupon>, st: Progress, ctx: Context): (r: Progress)
    ensures |r.items| == |st.items|
    ensures |r.applied| <= |st.applied| + |cs|
  {
    if |cs| == 0 then st
    else ApplyAll(cs[1..], Step(st, cs[0], ctx), ctx)
  }

  /** `getResult`'s `coupon_results`: the errors, then a success entry for each surviving coupon. */
  function Record(results: map<string, CouponResult>, survivors: seq<Coupon>): (r: map<string, CouponResult>)
    ensures r.Keys == results.Keys + CodeSet(survivors)
    ensures DistinctCodes(survivors) ==>
      forall k :: 0 <= k < |survivors| ==> r[survivors[k].code] == Succeeded(survivors[k])
    ensures forall code :: code in results && code !in CodeSet(survivors) ==> r[code] == results[code]
    decreases |survivors|
  {
    if |survivors| == 0 then results
    else
      var c := survivors[0];
      var tail := survivors[1..];
      CodeSetCons(survivors);
      DistinctTail(survivors);
      Record(results[c.code := Succeeded(c)], tail)
  }

  /** The coupons `applyCouponCodes` tries to apply, in order, with the error map so far. */
  function Survivors(cart: Cart, given: seq<string>, store: seq<Coupon>, env: Checkout): Stacked
  {
    var found := FormatCoupons(store, NormalizeCodes(cart.coupons, given));
    var v := Validate(found, env);
    var s := Stack(v.valid, v.invalid);
    Stacked(ApplicationOrder(s.kept), s.invalid)
  }

  /**
   * `applyCouponCodes`. It fails with `no_valid_coupons` exactly when no active coupon
   * has one of the normalised codes or none of those found is valid; otherwise every
   * line is kept, in order.
   */
  function ApplyCouponCodes(cart: Cart, given: seq<string>, store: seq<Coupon>, env: Checkout, ctx: Context): (r: Outcome)
    ensures r.NoValidCoupons? <==>
      var codes := NormalizeCodes(cart.coupons, given);
      NoneActive(store, codes) || |Validate(FormatCoupons(store, codes), env).valid| == 0
    ensures r.Ran? ==> |r.items| == |cart.items|
  {
    var codes := NormalizeCodes(cart.coupons, given);
    var found := FormatCoupons(store, codes);
    if |found| == 0 then NoValidCoupons(map[])
    else
      var v := Validate(found, env);
      if |v.valid| == 0 then NoValidCoupons(v.invalid)
      else
        var s := Survivors(cart, given, store, env);
        var st := ApplyAll(s.kept, Progress(Reset(cart.items), [], map[], s.invalid, []), ctx);
        Ran(st.applied, Record(st.invalid, st.survivors), st.items, st.perCoupon)
  }

  // ---------------------------------------------------------------- the per-coupon discounts add up

  /** The recorded discounts of the applied codes, added up (a missing entry counts 0). */
  function SumPer(applied: seq<string>, per: map<string, int>): int {
    if |applied| == 0 then 0
    else
      var code := applied[|applied| - 1];
      SumPer(applied[..|applied| - 1], per) + (if code in per then per[code] else 0)
  }

  /** Recording a discount under a code that is not among the applied ones changes no sum. */
  lemma {:induction false} SumPerOther(applied: seq<string>, per: map<string, int>, code: string, v: int)
    requires code !in applied
    ensures SumPer(applied, per[code := v]) == SumPer(applied, per)
  {
    if |applied| > 0 {
      var init := applied[..|applied| - 1];
      assert forall x :: x in init ==> x in applied;
      SumPerOther(init, per, code, v);
    }
  }

  /**
   * The loop state agrees with itself: lines bounded and with distinct ids, no code
   * applied twice, a recorded discount for exactly the applied codes, and those
   * discounts adding up to the lines' coupon discounts.
   */
  ghost predicate Conserving(st: Progress) {
    && AllBounded(st.items) && UniqueIds(st.items)
    && NoDup(st.applied)
    && (forall code :: code in st.perCoupon <==> code in st.applied)
    && SumPer(st.applied, st.perCoupon) == SumCoupon(st.items)
  }

  /** Recording an accepted coupon whose discount is the lines' increase keeps the state conserving. */
  lemma RecordAccepted(st: Progress, c: Coupon, items: seq<Item>, total: int)
    requires Conserving(st) && c.code !in st.applied
    requires AllBounded(items) && UniqueIds(items) && total == SumCoupon(items) - SumCoupon(st.items)
    ensures Conserving(Progress(items, st.applied + [c.code], st.perCoupon[c.code := total], st.invalid, st.survivors + [c]))
  {
    var applied := st.applied + [c.code];
    var per := st.perCoupon[c.code := total];
    assert applied[..|applied| - 1] == st.applied;
    SumPerOther(st.applied, st.perCoupon, c.code, total);
    assert SumPer(applied, per) == SumPer(st.applied, per) + total;
    assert NoDup(applied) by {
      forall i, j | 0 <= i < j < |applied| ensures applied[i] != applied[j] {
        if j == |applied| - 1 {
          assert applied[i] == st.applied[i];
        }
      }
    }
    forall x ensures x in per <==> x in applied {
      if x in applied && x != c.code {
        var k :| 0 <= k < |applied| && applied[k] == x;
        assert k < |st.applied| && applied[k] == st.applied[k];
      }
      if x in st.applied {
        assert x in applied;
      }
    }
  }

  lemma StepConserves(st: Progress, c: Coupon, ctx: Context)
    requires Conserving(st) && SaneAmount(c) && c.code !in st.applied
    ensures Conserving(Step(st, c, ctx))
    ensures forall x :: x in Step(st, c, ctx).applied ==> x in st.applied || x == c.code
  {
    var r := ApplyCoupon(st.items, c, ctx);
    if r.Applied? {
      ApplyCouponShape(st.items, c, ctx);
      ApplyCouponConserves(st.items, c, ctx);
      RecordAccepted(st, c, r.items, r.total);
    }
  }

  /** The loop keeps the state conserving when each coupon's code is new and no fixed coupon is negative. */
  lemma {:induction false} ApplyAllConserves(cs: seq<Coupon>, st: Progress, ctx: Context)
    requires Conserving(st) && DistinctCodes(cs)
    requires forall k :: 0 <= k < |cs| ==> cs[k].code !in st.applied && SaneAmount(cs[k])
    ensures Conserving(ApplyAll(cs, st, ctx))
  {
    if |cs| > 0 {
      var next := Step(st, cs[0], ctx);
      StepConserves(st, cs[0], ctx);
      var tail := cs[1..];
      DistinctTail(cs);
      forall k | 0 <= k < |tail| ensures tail[k].code !in next.applied && SaneAmount(tail[k]) {
        assert tail[k] == cs[k + 1];
      }
      ApplyAllConserves(tail, next, ctx);
    }
  }

  // ---------------------------------------------------------------- lines keep all but their discounts

  lemma StepShape(st: Progress, c: Coupon, ctx: Context)
    requires UniqueIds(st.items)
    ensures Reset(Step(st, c, ctx).items) == Reset(st.items)
    ensures UniqueIds(Step(st, c, ctx).items)
  {
    var r := ApplyCoupon(st.items, c, ctx);
    if r.Applied? {
      ApplyCouponShape(st.items, c, ctx);
      ResetDeterminedPointwise(r.items, st.items);
    }
  }

  /** The loop changes no line beyond what a reset clears, and keeps ids distinct. */
  lemma {:induction false} ApplyAllShape(cs: seq<Coupon>, st: Progress, ctx: Context)
    requires UniqueIds(st.items)
    ensures Reset(ApplyAll(cs, st, ctx).items) == Reset(st.items)
    ensures UniqueIds(ApplyAll(cs, st, ctx).items)
  {
    if |cs| > 0 {
      StepShape(st, cs[0], ctx);
      ApplyAllShape(cs[1..], Step(st, cs[0], ctx), ctx);
    }
  }

  // ---------------------------------------------------------------- order of the applied coupons

  /** Dropping one coupon from a list keeps it sorted by priority and keeps its codes distinct. */
  lemma DropKeepsOrder(a: seq<Coupon>, x: Coupon, b: seq<Coupon>)
    ensures SortedByPriority(a + [x] + b) ==> SortedByPriority(a + b)
    ensures DistinctCodes(a + [x] + b) ==> DistinctCodes(a + b)
  {
    var full := a + [x] + b;
    var short := a + b;
    forall i, j | 0 <= i < j < |short|
      ensures short[i] == full[if i < |a| then i else i + 1]
      ensures short[j] == full[if j < |a| then j else j + 1]
    {
    }
  }

  /** One iteration either appends the coupon to the survivors or drops it from what is to come. */
  lemma StepOrder(st: Progress, c: Coupon, tail: seq<Coupon>, ctx: Context)
    requires st.applied == CodesOf(st.survivors)
    requires SortedByPriority(st.survivors + [c] + tail) && DistinctCodes(st.survivors + [c] + tail)
    ensures var next := Step(st, c, ctx);
      && next.applied == CodesOf(next.survivors)
      && SortedByPriority(next.survivors + tail) && DistinctCodes(next.survivors + tail)
      && (next.survivors == st.survivors || next.survivors == st.survivors + [c])
      && next.invalid.Keys <= st.invalid.Keys + {c.code}
  {
    var next := Step(st, c, ctx);
    if ApplyCoupon(st.items, c, ctx).Applied? {
      assert next.survivors + tail == st.survivors + [c] + tail;
      assert next.applied == CodesOf(next.survivors);
    } else {
      DropKeepsOrder(st.survivors, c, tail);
    }
  }

  /**
   * The loop applies coupons in the order given: the applied codes are the survivors'
   * codes, and survivors followed by what is still to come stay sorted by priority with
   * distinct codes.
   */
  lemma {:induction false} ApplyAllOrder(cs: seq<Coupon>, st: Progress, ctx: Context)
    requires st.applied == CodesOf(st.survivors)
    requires SortedByPriority(st.survivors + cs) && DistinctCodes(st.survivors + cs)
    ensures ApplyAll(cs, st, ctx).applied == CodesOf(ApplyAll(cs, st, ctx).survivors)
    ensures SortedByPriority(ApplyAll(cs, st, ctx).survivors)
    ensures DistinctCodes(ApplyAll(cs, st, ctx).survivors)
  {
    if |cs| == 0 {
      assert st.survivors + cs == st.survivors;
    } else {
      var tail := cs[1..];
      assert st.survivors + cs == st.survivors + [cs[0]] + tail;
      StepOrder(st, cs[0], tail, ctx);
      ApplyAllOrder(tail, Step(st, cs[0], ctx), ctx);
    }
  }

  /** Survivors come from the coupons given, and errors are only recorded under their codes. */
  lemma {:induction false} ApplyAllFrom(cs: seq<Coupon>, st: Progress, ctx: Context)
    ensures forall x :: x in ApplyAll(cs, st, ctx).survivors ==> x in st.survivors || x in cs
    ensures |ApplyAll(cs, st, ctx).survivors| <= |st.survivors| + |cs|
    ensures ApplyAll(cs, st, ctx).invalid.Keys <= st.invalid.Keys + CodeSet(cs)
  {
    if |cs| > 0 {
      var c := cs[0];
      var tail := cs[1..];
      var next := Step(st, c, ctx);
      assert next.survivors == st.survivors || next.survivors == st.survivors + [c];
      assert next.invalid.Keys <= st.invalid.Keys + {c.code};
      ApplyAllFrom(tail, next, ctx);
      assert forall x :: x in tail ==> x in cs;
      CodeSetCons(cs);
    }
  }

  // ---------------------------------------------------------------- the whole of `applyCouponCodes`

  /** An active, currently valid coupon the store holds under one of the normalised codes. */
  predicate Admissible(c: Coupon, codes: seq<string>, store: seq<Coupon>, env: Checkout) {
    c.code in codes && Lookup(store, c.code) == Some(c) && CheckCoupon(c, env).None?
  }

  /**
   * The coupons that go on to be applied are admissible, have distinct codes, are sorted
   * by priority and are all stackable when there are several; the errors so far are
   * recorded only under normalised codes.
   */
  lemma SurvivorsFacts(cart: Cart, given: seq<string>, store: seq<Coupon>, env: Checkout)
    ensures var s := Survivors(cart, given, store, env);
      var codes := NormalizeCodes(cart.coupons, given);
      && DistinctCodes(s.kept) && SortedByPriority(s.kept)
      && (forall k :: 0 <= k < |s.kept| ==> Admissible(s.kept[k], codes, store, env))
      && (|s.kept| >= 2 ==> forall k :: 0 <= k < |s.kept| ==> s.kept[k].stackable)
      && s.invalid.Keys <= set x | x in codes
  {
    var codes := NormalizeCodes(cart.coupons, given);
    var found := FormatCoupons(store, codes);
    FormatCouponsDistinct(store, codes);
    var v := Validate(found, env);
    KeepCouponsDistinct(found, ValidIn(env));
    ValidAdmissible(found, codes, store, env);
    KeptFacts(v.valid, v.invalid, codes, store, env);
    StackedErrorKeys(found, codes, env);
  }

  /**
   * When several coupons are valid and none is stackable, the one that goes on alone is
   * the coupon of the first normalised code whose coupon exists and is valid.
   */
  lemma NoneStackableFirst(cart: Cart, given: seq<string>, store: seq<Coupon>, env: Checkout)
    ensures var codes := NormalizeCodes(cart.coupons, given);
      var v := Validate(FormatCoupons(store, codes), env);
      |v.valid| >= 2 && (forall k :: 0 <= k < |v.valid| ==> !v.valid[k].stackable) ==>
        Survivors(cart, given, store, env).kept == [v.valid[0]] && FirstValidCode(store, codes, env, v.valid[0])
  {
    var codes := NormalizeCodes(cart.coupons, given);
    var v := Validate(FormatCoupons(store, codes), env);
    FirstValid(store, codes, env);
    if |v.valid| >= 2 && (forall k :: 0 <= k < |v.valid| ==> !v.valid[k].stackable) {
      assert Survivors(cart, given, store, env).kept == ApplicationOrder(Stack(v.valid, v.invalid).kept);
      AloneKept(v.valid, v.invalid);
    }
  }

  /** `c` is the coupon of the first code whose coupon exists and is valid. */
  ghost predicate FirstValidCode(store: seq<Coupon>, codes: seq<string>, env: Checkout, c: Coupon) {
    exists i :: (
      && 0 <= i < |codes| && Lookup(store, codes[i]) == Some(c) && CheckCoupon(c, env).None?
      && (forall j :: 0 <= j < i ==>
            Lookup(store, codes[j]).None? || CheckCoupon(Lookup(store, codes[j]).value, env).Some?))
  }

  /** The first valid coupon found is the coupon of the first code whose coupon exists and is valid. */
  lemma FirstValid(store: seq<Coupon>, codes: seq<string>, env: Checkout)
    ensures var v := Validate(FormatCoupons(store, codes), env);
      |v.valid| > 0 ==> FirstValidCode(store, codes, env, v.valid[0])
  {
    FirstKept(store, codes, ValidIn(env));
  }

  /** With several valid coupons and none stackable, the first valid one goes on alone. */
  lemma AloneKept(valid: seq<Coupon>, invalid: map<string, CouponResult>)
    requires |valid| >= 2 && forall k :: 0 <= k < |valid| ==> !valid[k].stackable
    ensures ApplicationOrder(Stack(valid, invalid).kept) == [valid[0]]
  {
  }

  /** Stacking and ordering admissible coupons with distinct codes keeps them so, and sorts them. */
  lemma KeptFacts(valid: seq<Coupon>, invalid: map<string, CouponResult>, codes: seq<string>, store: seq<Coupon>, env: Checkout)
    requires DistinctCodes(valid)
    requires forall c :: c in valid ==> Admissible(c, codes, store, env)
    ensures var kept := ApplicationOrder(Stack(valid, invalid).kept);
      && DistinctCodes(kept) && SortedByPriority(kept)
      && (forall k :: 0 <= k < |kept| ==> Admissible(kept[k], codes, store, env))
      && (|kept| >= 2 ==> forall k :: 0 <= k < |kept| ==> kept[k].stackable)
  {
    var st := Stack(valid, invalid);
    StackDistinct(valid, invalid);
    var kept := ApplicationOrder(st.kept);
    forall k | 0 <= k < |kept| ensures Admissible(kept[k], codes, store, env) && (|kept| >= 2 ==> kept[k].stackable) {
      assert kept[k] in multiset(st.kept);
      var j :| 0 <= j < |st.kept| && st.kept[j] == kept[k];
    }
  }

  /** The valid coupons found under the normalised codes are admissible. */
  lemma ValidAdmissible(found: seq<Coupon>, codes: seq<string>, store: seq<Coupon>, env: Checkout)
    requires forall k :: 0 <= k < |found| ==> found[k].code in codes && Lookup(store, found[k].code) == Some(found[k])
    ensures forall c :: c in Validate(found, env).valid ==> Admissible(c, codes, store, env)
  {
    var v := Validate(found, env);
    forall c | c in v.valid ensures Admissible(c, codes, store, env) {
      var k :| 0 <= k < |v.valid| && v.valid[k] == c;
      assert c in found;
    }
  }

  /** Validation and stacking record errors only under the codes of the coupons found. */
  lemma StackedErrorKeys(found: seq<Coupon>, codes: seq<string>, env: Checkout)
    requires forall k :: 0 <= k < |found| ==> found[k].code in codes
    ensures var v := Validate(found, env);
      Stack(v.valid, v.invalid).invalid.Keys <= set x | x in codes
  {
    var v := Validate(found, env);
    ValidateKeys(found, env);
    var st := Stack(v.valid, v.invalid);
    forall x | x in st.invalid ensures x in codes {
      if x !in UnstackableCodes(v.valid) {
        var k :| 0 <= k < |found| && found[k].code == x && CheckCoupon(found[k], env).Some?;
      } else {
        var k :| 0 <= k < |v.valid| && !v.valid[k].stackable && v.valid[k].code == x;
        assert v.valid[k] in found;
      }
    }
  }

  /** The state the application loop starts from: the reset lines and nothing applied yet. */
  function Start(cart: Cart, s: Stacked): Progress {
    Progress(Reset(cart.items), [], map[], s.invalid, [])
  }

  /** When the coupons are applied, they are the survivors run from the start state. */
  lemma RanFrom(cart: Cart, given: seq<string>, store: seq<Coupon>, env: Checkout, ctx: Context)
    ensures var r := ApplyCouponCodes(cart, given, store, env, ctx);
      var s := Survivors(cart, given, store, env);
      var st := ApplyAll(s.kept, Start(cart, s), ctx);
      r.Ran? ==> r == Ran(st.applied, Record(st.invalid, st.survivors), st.items, st.perCoupon)
  {
  }

  /**
   * With distinct line ids, lines that cannot go below zero and no negative fixed
   * coupon, `getResult()` agrees with itself: every line stays bounded, no code is
   * applied twice, a discount is recorded for exactly the applied codes, and those
   * discounts add up to the lines' coupon discounts.
   */
  lemma ApplyCouponCodesConserves(cart: Cart, given: seq<string>, store: seq<Coupon>, env: Checkout, ctx: Context)
    requires UniqueIds(cart.items) && AllPriced(cart.items)
    requires forall k :: 0 <= k < |store| ==> SaneAmount(store[k])
    ensures var r := ApplyCouponCodes(cart, given, store, env, ctx);
      r.Ran? ==>
        && AllBounded(r.items) && UniqueIds(r.items) && NoDup(r.applied)
        && (forall code :: code in r.perCoupon <==> code in r.applied)
        && SumPer(r.applied, r.perCoupon) == SumCoupon(r.items)
  {
    var r := ApplyCouponCodes(cart, given, store, env, ctx);
    if r.Ran? {
      var s := Survivors(cart, given, store, env);
      var st0 := Start(cart, s);
      RanFrom(cart, given, store, env, ctx);
      StartConserving(cart, s);
      SurvivorsSane(cart, given, store, env);
      ApplyAllConserves(s.kept, st0, ctx);
      var st := ApplyAll(s.kept, st0, ctx);
      assert r == Ran(st.applied, Record(st.invalid, st.survivors), st.items, st.perCoupon);
    }
  }

  /** The loop starts from a conserving state: reset lines, nothing applied, nothing recorded. */
  lemma StartConserving(cart: Cart, s: Stacked)
    requires UniqueIds(cart.items) && AllPriced(cart.items)
    ensures Conserving(Start(cart, s))
  {
    SumCouponOfReset(cart.items);
  }

  /** The coupons sent to the loop have distinct codes and, coming from the store, sane amounts. */
  lemma SurvivorsSane(cart: Cart, given: seq<string>, store: seq<Coupon>, env: Checkout)
    requires forall k :: 0 <= k < |store| ==> SaneAmount(store[k])
    ensures DistinctCodes(Survivors(cart, given, store, env).kept)
    ensures forall k :: 0 <= k < |Survivors(cart, given, store, env).kept| ==>
      SaneAmount(Survivors(cart, given, store, env).kept[k])
  {
    var kept := Survivors(cart, given, store, env).kept;
    SurvivorsFacts(cart, given, store, env);
    forall k | 0 <= k < |kept| ensures SaneAmount(kept[k]) {
      var codes := NormalizeCodes(cart.coupons, given);
      assert Admissible(kept[k], codes, store, env);
      assert kept[k] in store;
    }
  }

  /** What the survivors of the loop satisfy: the facts the result entries inherit. */
  predicate Orderly(sv: seq<Coupon>, invalid: map<string, CouponResult>, codes: seq<string>, store: seq<Coupon>, env: Checkout) {
    && DistinctCodes(sv) && SortedByPriority(sv)
    && (forall k :: 0 <= k < |sv| ==> Admissible(sv[k], codes, store, env))
    && (|sv| >= 2 ==> forall k :: 0 <= k < |sv| ==> sv[k].stackable)
    && (forall code :: code in invalid ==> code in codes)
  }

  /** The loop's survivors are among the coupons it was given, so they are admissible and, when several, stackable. */
  lemma LoopAdmissible(kept: seq<Coupon>, st: Progress, codes: seq<string>, store: seq<Coupon>, env: Checkout, ctx: Context)
    requires st.survivors == []
    requires Orderly(kept, st.invalid, codes, store, env)
    ensures forall k :: 0 <= k < |ApplyAll(kept, st, ctx).survivors| ==>
      Admissible(ApplyAll(kept, st, ctx).survivors[k], codes, store, env)
    ensures |ApplyAll(kept, st, ctx).survivors| >= 2 ==>
      forall k :: 0 <= k < |ApplyAll(kept, st, ctx).survivors| ==> ApplyAll(kept, st, ctx).survivors[k].stackable
  {
    ApplyAllFrom(kept, st, ctx);
    DrawnFrom(ApplyAll(kept, st, ctx).survivors, kept, codes, store, env);
  }

  /** Coupons drawn from admissible ones are admissible, and from stackable ones, when there are several, stackable. */
  lemma DrawnFrom(sv: seq<Coupon>, kept: seq<Coupon>, codes: seq<string>, store: seq<Coupon>, env: Checkout)
    requires forall x :: x in sv ==> x in kept
    requires |sv| <= |kept|
    requires forall k :: 0 <= k < |kept| ==> Admissible(kept[k], codes, store, env)
    requires |kept| >= 2 ==> forall k :: 0 <= k < |kept| ==> kept[k].stackable
    ensures forall k :: 0 <= k < |sv| ==> Admissible(sv[k], codes, store, env)
    ensures |sv| >= 2 ==> forall k :: 0 <= k < |sv| ==> sv[k].stackable
  {
    forall k | 0 <= k < |sv| ensures Admissible(sv[k], codes, store, env) && (|sv| >= 2 ==> sv[k].stackable) {
      assert sv[k] in kept;
      var j :| 0 <= j < |kept| && kept[j] == sv[k];
    }
  }

  /** The loop records errors only under the codes of the coupons it was given. */
  lemma LoopErrors(kept: seq<Coupon>, st: Progress, codes: seq<string>, store: seq<Coupon>, env: Checkout, ctx: Context)
    requires Orderly(kept, st.invalid, codes, store, env)
    ensures forall code :: code in ApplyAll(kept, st, ctx).invalid ==> code in codes
  {
    var r := ApplyAll(kept, st, ctx);
    ApplyAllFrom(kept, st, ctx);
    forall code | code in r.invalid ensures code in codes {
      if code !in st.invalid {
        var k :| 0 <= k < |kept| && kept[k].code == code;
        assert Admissible(kept[k], codes, store, env);
      }
    }
  }

  /** The survivors of the loop carry the facts the survivors of stacking had. */
  lemma LoopOrderly(kept: seq<Coupon>, st: Progress, codes: seq<string>, store: seq<Coupon>, env: Checkout, ctx: Context)
    requires st.applied == [] && st.survivors == []
    requires Orderly(kept, st.invalid, codes, store, env)
    ensures ApplyAll(kept, st, ctx).applied == CodesOf(ApplyAll(kept, st, ctx).survivors)
    ensures Orderly(ApplyAll(kept, st, ctx).survivors, ApplyAll(kept, st, ctx).invalid, codes, store, env)
  {
    assert st.survivors + kept == kept;
    ApplyAllOrder(kept, st, ctx);
    LoopAdmissible(kept, st, codes, store, env, ctx);
    LoopErrors(kept, st, codes, store, env, ctx);
  }

  /**
   * What `getResult()` promises about the applied codes: each one's result entry is the
   * success of an admissible coupon with that code, their priorities never go down along
   * the applied codes, several are applied only when all are stackable, every result
   * entry is under a normalised code, and the applied codes are in normal form.
   */
  predicate AppliedInOrder(applied: seq<string>, results: map<string, CouponResult>, codes: seq<string>, store: seq<Coupon>, env: Checkout) {
    && (forall k :: 0 <= k < |applied| ==>
          && applied[k] in results && results[applied[k]].Succeeded?
          && results[applied[k]].coupon.code == applied[k]
          && Admissible(results[applied[k]].coupon, codes, store, env))
    && (forall i, j :: 0 <= i < j < |applied| ==>
          Priority(results[applied[i]].coupon) <= Priority(results[applied[j]].coupon))
    && (|applied| >= 2 ==> forall k :: 0 <= k < |applied| ==> results[applied[k]].coupon.stackable)
    && (forall code :: code in results ==> code in codes)
    && Normalized(applied)
  }

  /** With distinct codes, each survivor's code is recorded as its own success. */
  lemma RecordSuccesses(sv: seq<Coupon>, invalid: map<string, CouponResult>)
    requires DistinctCodes(sv)
    ensures forall k :: 0 <= k < |sv| ==> sv[k].code in Record(invalid, sv) && Record(invalid, sv)[sv[k].code] == Succeeded(sv[k])
  {
  }

  /** Recording orderly survivors adds entries only under normalised codes. */
  lemma RecordKeys(sv: seq<Coupon>, invalid: map<string, CouponResult>, codes: seq<string>, store: seq<Coupon>, env: Checkout)
    requires Orderly(sv, invalid, codes, store, env)
    ensures forall code :: code in Record(invalid, sv) ==> code in codes
  {
    var results := Record(invalid, sv);
    forall code | code in results ensures code in codes {
      if code in CodeSet(sv) {
        var k :| 0 <= k < |sv| && sv[k].code == code;
        assert Admissible(sv[k], codes, store, env);
      }
    }
  }

  /** Orderly survivors under normalised codes have codes in normal form. */
  lemma SurvivorCodesNormalized(sv: seq<Coupon>, invalid: map<string, CouponResult>, codes: seq<string>, store: seq<Coupon>, env: Checkout)
    requires Orderly(sv, invalid, codes, store, env)
    requires forall x :: x in codes ==> Truthy(x) && IsTrimmed(x)
    ensures Normalized(CodesOf(sv))
  {
    var applied := CodesOf(sv);
    forall k | 0 <= k < |applied| ensures Truthy(applied[k]) && IsTrimmed(applied[k]) {
      assert Admissible(sv[k], codes, store, env);
    }
  }

  /** Recording orderly survivors gives result entries that carry their facts. */
  lemma RecordOrderly(sv: seq<Coupon>, invalid: map<string, CouponResult>, codes: seq<string>, store: seq<Coupon>, env: Checkout)
    requires Orderly(sv, invalid, codes, store, env)
    requires forall x :: x in codes ==> Truthy(x) && IsTrimmed(x)
    ensures AppliedInOrder(CodesOf(sv), Record(invalid, sv), codes, store, env)
  {
    var applied := CodesOf(sv);
    var results := Record(invalid, sv);
    RecordSuccesses(sv, invalid);
    RecordKeys(sv, invalid, codes, store, env);
    SurvivorCodesNormalized(sv, invalid, codes, store, env);
    forall k | 0 <= k < |applied|
      ensures applied[k] in results && results[applied[k]].Succeeded?
      ensures results[applied[k]].coupon.code == applied[k]
      ensures Admissible(results[applied[k]].coupon, codes, store, env)
      ensures |applied| >= 2 ==> results[applied[k]].coupon.stackable
    {
      assert applied[k] == sv[k].code;
      assert results[applied[k]] == Succeeded(sv[k]);
    }
    forall i, j | 0 <= i < j < |applied|
      ensures Priority(results[applied[i]].coupon) <= Priority(results[applied[j]].coupon)
    {
      assert results[applied[i]] == Succeeded(sv[i]) by { assert applied[i] == sv[i].code; }
      assert results[applied[j]] == Succeeded(sv[j]) by { assert applied[j] == sv[j].code; }
    }
  }

  /**
   * The coupons are applied in priority order, as `AppliedInOrder` spells out, and the
   * applied codes normalise to themselves, as revalidation needs.
   */
  lemma ApplyCouponCodesOrder(cart: Cart, given: seq<string>, store: seq<Coupon>, env: Checkout, ctx: Context)
    ensures var r := ApplyCouponCodes(cart, given, store, env, ctx);
      r.Ran? ==>
        && AppliedInOrder(r.applied, r.results, NormalizeCodes(cart.coupons, given), store, env)
        && NormalizeCodes(r.applied, r.applied) == r.applied
  {
    var r := ApplyCouponCodes(cart, given, store, env, ctx);
    if r.Ran? {
      var codes := NormalizeCodes(cart.coupons, given);
      var s := Survivors(cart, given, store, env);
      var st0 := Start(cart, s);
      var st := ApplyAll(s.kept, st0, ctx);
      RanFrom(cart, given, store, env, ctx);
      assert r == Ran(st.applied, Record(st.invalid, st.survivors), st.items, st.perCoupon);
      SurvivorsFacts(cart, given, store, env);
      assert Orderly(s.kept, st0.invalid, codes, store, env);
      LoopOrderly(s.kept, st0, codes, store, env, ctx);
      RecordOrderly(st.survivors, st.invalid, codes, store, env);
      RevalidatedCodes(r.applied);
    }
  }

  /**
   * `applyCouponCodes` changes nothing on a line but its coupon-owned fields and the totals
   * computed from them, and keeps line ids distinct.
   */
  lemma ApplyCouponCodesResets(cart: Cart, given: seq<string>, store: seq<Coupon>, env: Checkout, ctx: Context)
    requires UniqueIds(cart.items)
    ensures var r := ApplyCouponCodes(cart, given, store, env, ctx);
      r.Ran? ==> Reset(r.items) == Reset(cart.items) && UniqueIds(r.items)
  {
    var s := Survivors(cart, given, store, env);
    RanFrom(cart, given, store, env, ctx);
    ApplyAllShape(s.kept, Start(cart, s), ctx);
    ResetIdempotent(cart.items);
  }

  /**
   * Applying the same codes again to the lines `applyCouponCodes` returned, in the same
   * checkout, gives the same outcome: the lines it starts from are reset first.
   */
  lemma Reapply(cart: Cart, given: seq<string>, store: seq<Coupon>, env: Checkout, ctx: Context)
    requires UniqueIds(cart.items)
    ensures var r := ApplyCouponCodes(cart, given, store, env, ctx);
      r.Ran? ==> ApplyCouponCodes(cart.(items := r.items), given, store, env, ctx) == r
  {
    var r := ApplyCouponCodes(cart, given, store, env, ctx);
    if r.Ran? {
      ApplyCouponCodesResets(cart, given, store, env, ctx);
      var again := cart.(items := r.items);
      assert Survivors(again, given, store, env) == Survivors(cart, given, store, env);
      assert Start(again, Survivors(again, given, store, env)) == Start(cart, Survivors(cart, given, store, env));
      RanFrom(again, given, store, env, ctx);
      RanFrom(cart, given, store, env, ctx);
    }
  }
}
