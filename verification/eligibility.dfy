/**
 * `filterApplicableItems`: which cart lines a coupon may discount. A line is skipped
 * when a `will_skip_item` hook says so or it is locked; product inclusion/exclusion lists,
 * category inclusion/exclusion lists and an e-mail allow-list with `*` wildcards narrow
 * the rest.
 */
module Eligibility {
  import opened PhpText
  import opened CartItems
  import opened Coupons

  /**
   * What the engine asks its host about: the cart's customer e-mail, the
   * `fluent_cart/coupon/will_skip_item` and `fluent_cart/coupon/can_use_coupon` filters,
   * and the `product-categories` term ids of a post.
   */
  datatype Context = Context(
    email: string,
    skipItem: (Item, Coupon) -> bool,
    canUse: (Coupon, seq<Item>) -> bool,
    categoriesOf: int -> seq<int>)

  /** PHP `array_intersect` is non-empty. */
  predicate Intersects(a: seq<int>, b: seq<int>) {
    exists x :: x in a && x in b
  }

  /** The category rule: some included category (when any are listed) and no excluded one. */
  predicate CategoriesAllow(cond: Conditions, categories: seq<int>) {
    && (|cond.includedCategories| > 0 ==> Intersects(cond.includedCategories, categories))
    && (|cond.excludedCategories| > 0 ==> !Intersects(cond.excludedCategories, categories))
  }

  /**
   * Case-insensitive glob match in which `*` stands for any run of characters other than
   * a newline, as the allow-list's `preg_quote` pattern with `\*` turned into `.*`, the `i`
   * flag and no `s` flag does.
   */
  predicate GlobMatch(pattern: string, s: string)
    decreases |pattern| + |s|
  {
    if |pattern| == 0 then |s| == 0
    else if pattern[0] == '*' then GlobMatch(pattern[1..], s) || (|s| > 0 && s[0] != '\n' && GlobMatch(pattern, s[1..]))
    else |s| > 0 && LowerChar(pattern[0]) == LowerChar(s[0]) && GlobMatch(pattern[1..], s[1..])
  }

  /** A pattern without `*` matches exactly the strings equal to it ignoring ASCII case. */
  lemma {:induction false} GlobLiteral(pattern: string, s: string)
    requires '*' !in pattern
    ensures GlobMatch(pattern, s) <==> Lower(pattern) == Lower(s)
    decreases |pattern|
  {
    if |pattern| > 0 && |s| > 0 {
      GlobLiteral(pattern[1..], s[1..]);
      assert Lower(pattern) == [LowerChar(pattern[0])] + Lower(pattern[1..]);
      assert Lower(s) == [LowerChar(s[0])] + Lower(s[1..]);
    }
  }

  /**
   * A leading `*` matches any prefix without a newline: `*@shop.test` accepts every such
   * address ending in `@shop.test`.
   */
  lemma {:induction false} GlobStarPrefix(rest: string, prefix: string, s: string)
    requires GlobMatch(rest, s) && '\n' !in prefix
    ensures GlobMatch("*" + rest, prefix + s)
    decreases |prefix|
  {
    var p := "*" + rest;
    assert p[1..] == rest;
    if |prefix| == 0 {
      assert prefix + s == s;
    } else {
      GlobStarPrefix(rest, prefix[1..], s);
      assert (prefix + s)[1..] == prefix[1..] + s;
    }
  }

  /** Some allowed pattern matches the e-mail. */
  predicate AnyGlob(patterns: seq<string>, email: string) {
    exists k :: 0 <= k < |patterns| && GlobMatch(patterns[k], email)
  }

  /**
   * The e-mail rule. A restriction that trims to a falsy string imposes nothing. Otherwise
   * the cart needs a truthy e-mail, and when the comma-separated list has any non-empty
   * entry, one of those entries must match it.
   */
  predicate EmailAllows(restrictions: string, email: string) {
    var list := Trim(restrictions);
    if !Truthy(list) then true
    else if !Truthy(email) then false
    else
      var allowed := TruthyOnly(TrimAll(Split(list, ',')));
      |allowed| == 0 || AnyGlob(allowed, email)
  }

  /** The callback of `filterApplicableItems` for one line. */
  predicate Eligible(it: Item, c: Coupon, ctx: Context) {
    var cond := c.conditions;
    && !ctx.skipItem(it, c)
    && !it.otherInfo.isLocked
    && !(|cond.excludedProducts| > 0 && it.objectId in cond.excludedProducts)
    && !(|cond.includedProducts| > 0 && it.objectId !in cond.includedProducts)
    && ((|cond.includedCategories| > 0 || |cond.excludedCategories| > 0) ==>
          CategoriesAllow(cond, ctx.categoriesOf(it.postId)))
    && EmailAllows(cond.emailRestrictions, ctx.email)
  }

  /** The eligibility test of one coupon, as a value. */
  function EligibleFor(c: Coupon, ctx: Context): Item -> bool {
    it => Eligible(it, c, ctx)
  }

  /**
   * `filterApplicableItems`: the eligible lines in cart order. A line is kept exactly
   * when it is eligible, and kept lines keep their relative order.
   */
  function FilterApplicable(cart: seq<Item>, c: Coupon, ctx: Context): (r: seq<Item>)
    ensures |r| <= |cart|
    ensures forall k :: 0 <= k < |r| ==> r[k] in cart && Eligible(r[k], c, ctx)
    ensures forall i :: 0 <= i < |cart| && Eligible(cart[i], c, ctx) ==> cart[i] in r
  {
    Select(cart, EligibleFor(c, ctx))
  }

  /**
   * The order `array_values(array_filter(...))` keeps: a line added at the end of the cart
   * ends up at the end of the eligible lines exactly when it is eligible.
   */
  lemma FilterApplicableSnoc(cart: seq<Item>, x: Item, c: Coupon, ctx: Context)
    ensures FilterApplicable(cart + [x], c, ctx) ==
      FilterApplicable(cart, c, ctx) + (if Eligible(x, c, ctx) then [x] else [])
  {
    SelectSnoc(cart, x, EligibleFor(c, ctx));
  }

  /** A coupon without conditions applies to every line no hook skips and that is not locked. */
  lemma UnconditionalCoupon(it: Item, c: Coupon, ctx: Context)
    requires c.conditions.excludedProducts == [] && c.conditions.includedProducts == []
    requires c.conditions.includedCategories == [] && c.conditions.excludedCategories == []
    requires c.conditions.emailRestrictions == ""
    ensures Eligible(it, c, ctx) <==> !ctx.skipItem(it, c) && !it.otherInfo.isLocked
  {
    NoEmailRestriction(ctx.email);
  }

  /** An empty e-mail restriction lets every cart through. */
  lemma NoEmailRestriction(email: string)
    ensures EmailAllows("", email)
  {
    assert Trim("") == "";
  }

  /** An excluded product is never eligible, whatever else the coupon says. */
  lemma ExcludedProductNeverEligible(it: Item, c: Coupon, ctx: Context)
    requires it.objectId in c.conditions.excludedProducts
    ensures !Eligible(it, c, ctx)
  {
  }
}
