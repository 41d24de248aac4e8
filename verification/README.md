# FluentCart coupon engine, checkout-field rewrite and `toBool`, in Dafny

This project models three pieces of the FluentCart WordPress plugin and proves
properties about them.

**The coupon engine, `DiscountService`.** Given the cart's lines and codes and some
new codes, `applyCouponCodes` does the following:

- it merges the codes, trims them, drops the falsy ones and de-duplicates them;
- it looks up the active coupons for those codes and validates them;
- it refuses non-stackable coupons when several coupons are valid;
- it orders the survivors by priority;
- it resets every line's coupon discount;
- it then runs `apply` on each survivor in turn.

For one coupon, `apply` asks the `can_use_coupon` hook and filters the eligible lines.
It turns the coupon into a percentage of what is still undiscounted on those lines. It
spreads that percentage line by line, capped at each line's effective subtotal. For a
fixed coupon it moves the leftover cents so that the total meets the coupon's face
value. Finally it merges the lines back by id and recomputes every line's totals.

**The checkout-field rewrite in `CheckoutFieldsController::saveFields`.** Only the
sections the stored settings already have are kept. The name fields are then forced
into exactly one naming mode: a single full-name field, or first and last name.

**The attribute parser `toBool` of `ProductCategoriesListRenderer`.** The model also
covers the flags `render` derives with it.

Conventions of the model:

- Money is an `int` number of minor units.
- A percentage is an `int` number of hundredths of a percent, so 100% is `Money.Whole` = 10000.
- PHP's `round` of an exact quotient is `Money.RoundDiv`, which rounds halves away from zero.
- Strings are `seq<char>`. `trim` strips " \t\n\r\0\x0B". `strtolower` lower-cases ASCII letters only, as PHP 8.2 and later do (earlier versions follow the locale; this is the C locale).
- A PHP-falsy string is "" or "0".

The host is passed in as values:

- `Eligibility.Context` holds the customer e-mail, the `will_skip_item` and `can_use_coupon` filters, and the `product-categories` term lookup.
- `Validity.Checkout` holds the clock, the cart's estimated total, and the customer's past uses of each coupon.
- The coupon table is a `seq<Coupon>`.

Modules, in dependency order:

| module | file | what it holds |
|---|---|---|
| `Wrappers` | wrappers.dfy | `Option` |
| `Money` | money.dfy | min/max, the percent scale, rounding |
| `PhpText` | php_text.dfy | `trim`, `strtolower`, truthiness, `explode`/`implode` |
| `CartItems` | cart_items.dfy | line items, effective subtotal, reset, merge by id, line totals |
| `Coupons` | coupons.dfy | coupons, error codes, `calculateDiscountPercent` |
| `Eligibility` | eligibility.dfy | `filterApplicableItems`, the e-mail glob |
| `Distribution` | distribution.dfy | `applyDiscountToItems`, recurring discounts |
| `Correction` | correction.dfy | `correctFixedCouponRounding` |
| `Apply` | apply.dfy | `apply` |
| `Codes` | codes.dfy | code normalisation, `array_unique`, `formatCoupons` |
| `Validity` | validity.dfy | `isCouponValid` as comparisons, the validation loop |
| `Stacking` | stacking.dfy | the stacking rule and the stable priority sort |
| `Engine` | engine.dfy | `applyCouponCodes` and `getResult` |
| `CheckoutFields` | checkout_fields.dfy | `Arr::only`/`get`/`set` on settings trees, the naming rules |
| `CategoryList` | category_list.dfy | `toBool` and the render flags |

## Model

| member | source | states |
|---|---|---|
| Money.RoundDivNearest | fluent-cart/app/Services/Coupon/DiscountService.php:393 | rounding a non-negative quotient gives a non-negative integer within half a unit of the exact value |
| Money.RoundDivAtMost | fluent-cart/app/Services/Coupon/DiscountService.php:376 | rounding never passes a whole bound the exact quotient stays under, so a share below 100% rounds to at most 100% |
| Money.RoundDivExact | fluent-cart/app/Services/Coupon/DiscountService.php:393 | an exact quotient comes back unchanged, so 100% of an amount is the whole amount |
| PhpText.Trim | fluent-cart/app/Services/Coupon/DiscountService.php:84 | the result has no trim character at either end |
| PhpText.TrimOfPadded | fluent-cart/app/Services/Coupon/DiscountService.php:84 | trimming strips exactly the padding of trim characters around a trimmed string |
| PhpText.TrimIdempotent | fluent-cart/app/Services/Coupon/DiscountService.php:84 | trimming twice is trimming once |
| PhpText.TrimAbsorbsPadding | fluent-cart/app/Services/Renderer/ProductCategoriesListRenderer.php:20 | extra trim characters around any string do not change its trim |
| PhpText.LowerTrimCommute | fluent-cart/app/Services/Renderer/ProductCategoriesListRenderer.php:20 | lower-casing and trimming commute |
| PhpText.JoinSplit | fluent-cart/app/Services/Coupon/DiscountService.php:337 | joining the pieces `explode` splits a string into, with the same separator, gives the string back |
| PhpText.SplitJoin | fluent-cart/app/Services/Coupon/DiscountService.php:337 | splitting a join of separator-free pieces gives the pieces back |
| CartItems.Reset | fluent-cart/app/Services/Coupon/DiscountService.php:44-55 | every line, in order, gets coupon discount 0, discount total equal to its manual discount and line total subtotal minus manual discount; its recurring discounts are removed and nothing else changes; lines that cannot go below zero come out bounded; distinct ids stay distinct |
| CartItems.ResetIdempotent | fluent-cart/app/Services/Coupon/DiscountService.php:46-52 | resetting twice is resetting once |
| CartItems.SumCouponOfReset | fluent-cart/app/Services/Coupon/DiscountService.php:48 | after a reset the cart's total coupon discount is 0 |
| CartItems.RoomOfBounded | fluent-cart/app/Services/Coupon/DiscountService.php:223-225 | on bounded lines, the room left to discount is the effective subtotals minus the coupon discounts, and the amount that could be taken back is the coupon discounts |
| CartItems.UpdateTotals | fluent-cart/app/Services/Coupon/DiscountService.php:482-503 | every line keeps everything but its totals; its discount total is manual plus coupon discount; its line total is never negative and is the effective subtotal minus the discount total when that fits, else 0 |
| CartItems.UpdateTotalsIdempotent | fluent-cart/app/Services/Coupon/DiscountService.php:482-491 | recomputing totals twice is recomputing them once |
| CartItems.FindId | fluent-cart/app/Services/Coupon/DiscountService.php:471-475 | the position found holds the first item with the id; no position means no item has it |
| CartItems.Merge | fluent-cart/app/Services/Coupon/DiscountService.php:468-480 | the cart keeps its length and its ids in order; a line no validated item matches is unchanged; a matched line is replaced by the first validated item with its id |
| CartItems.MergeSharedId | fluent-cart/app/Services/Coupon/DiscountService.php:468-480 | two cart lines sharing an id both become the first validated item with that id, which is why the conservation and reapplication results assume distinct line ids |
| CartItems.MergeMirrored | fluent-cart/app/Services/Coupon/DiscountService.php:468-480 | merging discounted copies of selected lines back into a cart with distinct ids changes only coupon fields, leaves unselected lines as they were, and keeps bounded lines bounded |
| CartItems.MergeSum | fluent-cart/app/Services/Coupon/DiscountService.php:468-480 | with distinct ids, the merge moves the cart's total coupon discount by exactly what the discounted copies moved the selected lines' total |
| CartItems.MergeBackShape | fluent-cart/app/Services/Coupon/DiscountService.php:241-247 | after merging and recomputing totals, each line differs from the original only in fields a reset clears, its totals are consistent, its id is kept, and an unselected line only has its totals recomputed |
| CartItems.MergeBackSum | fluent-cart/app/Services/Coupon/DiscountService.php:241-247 | after merging and recomputing totals, every line is bounded and the cart's coupon total grows by what the selected lines' total grew |
| Coupons.DiscountPercent | fluent-cart/app/Services/Coupon/DiscountService.php:370-380 | a percentage coupon gives its own rate clamped to 0..100%; a fixed coupon worth at least the remaining total gives exactly 100%; a smaller non-negative one gives its share of the total, between 0 and 100% and within half of 0.01% of the exact share |
| Coupons.FixedShare | fluent-cart/app/Services/Coupon/DiscountService.php:376 | a fixed amount below the total rounds to a share within 0..100% and within half of 0.01% of the exact share |
| Eligibility.GlobLiteral | fluent-cart/app/Services/Coupon/DiscountService.php:340-341 | an allow-list entry without `*` matches exactly the e-mails equal to it ignoring ASCII case |
| Eligibility.GlobStarPrefix | fluent-cart/app/Services/Coupon/DiscountService.php:340-341 | an entry `*rest` matches any newline-free prefix followed by a string `rest` matches, since `.*` stops at a newline |
| Eligibility.FilterApplicable | fluent-cart/app/Services/Coupon/DiscountService.php:275-354 | the kept lines come from the cart and are eligible; every eligible line of the cart is kept |
| Eligibility.FilterApplicableSnoc | fluent-cart/app/Services/Coupon/DiscountService.php:275-354 | the eligible lines keep cart order: a line added at the end of the cart ends up at the end of the eligible lines exactly when it is eligible |
| Eligibility.UnconditionalCoupon | fluent-cart/app/Services/Coupon/DiscountService.php:279-350 | a coupon without product, category or e-mail conditions applies to a line exactly when no hook skips it and it is not locked |
| Eligibility.ExcludedProductNeverEligible | fluent-cart/app/Services/Coupon/DiscountService.php:290-293 | a line whose product is excluded is never eligible |
| Distribution.ShareOfAmount | fluent-cart/app/Services/Coupon/DiscountService.php:393 | a share of at most 100% of a non-negative amount rounds to at most the amount, within half a cent of the exact share; 100% rounds to the whole amount |
| Distribution.DiscountRecurring | fluent-cart/app/Services/Coupon/DiscountService.php:400-420 | only paid subscription lines get a recurring record, created empty when missing; a recurring coupon on a priced line adds the rate times what is left of the unit price, within half a cent, never past the unit price and all of it at 100% (an amount already above the price is cut to the price); otherwise the record is kept |
| Distribution.DiscountItem | fluent-cart/app/Services/Coupon/DiscountService.php:386-420 | only the coupon fields change; the new coupon discount is never below the old one on a bounded line and never above the effective subtotal; the increase is within half a cent of the rate times what was left on the line; at 100% the line is fully discounted |
| Distribution.Distribute | fluent-cart/app/Services/Coupon/DiscountService.php:382-424 | each line is discounted as `DiscountItem` says; the running total is never negative; on bounded lines it equals the sum of the lines' increases and the lines stay bounded |
| Correction.Fill | fluent-cart/app/Services/Coupon/DiscountService.php:428-445 | lines are only raised, never past their effective subtotal; the amount added is the shortfall when the lines have room for it, else all the room, and it is what the lines' coupon total grows by |
| Correction.Drain | fluent-cart/app/Services/Coupon/DiscountService.php:446-462 | lines are only lowered, never below zero; the amount removed is the excess when the lines carry that much, else all their positive discount, and it is what the lines' coupon total shrinks by |
| Correction.CorrectFixed | fluent-cart/app/Services/Coupon/DiscountService.php:426-466 | only coupon discounts move and bounded lines stay bounded; the total moves by what the lines move, towards the face value without passing it; it reaches the face value whenever there is room or discount enough; a total already equal is left alone |
| Apply.ApplyCoupon | fluent-cart/app/Services/Coupon/DiscountService.php:209-254 | refused with `coupon_cannot_be_used` exactly when the hook says no; with `no_applicable_items` exactly when the hook agrees and nothing is left on the eligible lines; with `no_discount_applied` exactly when the discount comes to 0; a success keeps the line count and has a non-zero total |
| Apply.FixedCouponTotal | fluent-cart/app/Services/Coupon/DiscountService.php:231-239 | on bounded eligible lines, a fixed coupon takes exactly its face value, or all that is left when that is less |
| Apply.FixedCouponAlwaysDiscounts | fluent-cart/app/Services/Coupon/DiscountService.php:243-245 | a positive fixed coupon on lines with something left is never refused for discounting nothing |
| Apply.DiscountEligibleConserves | fluent-cart/app/Services/Coupon/DiscountService.php:231-239 | the coupon's total is exactly how much the eligible lines' coupon discounts rise, and they stay bounded |
| Apply.ApplyCouponShape | fluent-cart/app/Services/Coupon/DiscountService.php:241-249 | with distinct ids, a success keeps ids distinct, changes only fields a reset clears, recomputes ineligible lines' totals only, and leaves consistent totals |
| Apply.ApplyCouponConserves | fluent-cart/app/Services/Coupon/DiscountService.php:241-251 | with distinct ids and bounded lines, the recorded discount of a success is exactly the rise in the cart's coupon total, and every line stays bounded |
| Apply.ApplyFixedCoupon | fluent-cart/app/Services/Coupon/DiscountService.php:209-254 | a usable positive fixed coupon whose eligible lines have something left is applied and records its face value, or all that is left when that is less |
| Codes.Unique | fluent-cart/app/Services/Coupon/DiscountService.php:86-87 | the result has no duplicates and holds exactly the input's values |
| Codes.UniqueOrder | fluent-cart/app/Services/Coupon/DiscountService.php:86-87 | the values come in the order of their first occurrences |
| Codes.NormalizeCodes | fluent-cart/app/Services/Coupon/DiscountService.php:76-87 | no duplicates; every code is trimmed and truthy; a code is present exactly when it is truthy and some existing or new code trims to it |
| Codes.NormalizeCodesOrder | fluent-cart/app/Services/Coupon/DiscountService.php:82-87 | the codes come in the order of their first occurrence among the trimmed existing-then-new codes |
| Codes.RevalidatedCodes | fluent-cart/app/Services/Coupon/DiscountService.php:61-65 | revalidation passes the cart's codes as both existing and new ones, and normalised codes come back unchanged |
| Codes.KeepCoupons | fluent-cart/app/Services/Coupon/DiscountService.php:102-112 | the kept coupons come from the input and pass the test; every passing coupon is kept |
| Codes.KeepCouponsDistinct | fluent-cart/app/Services/Coupon/DiscountService.php:102-112 | keeping coupons of a list with distinct codes gives distinct codes |
| Codes.Lookup | fluent-cart/app/Services/Coupon/DiscountService.php:89-91 | a found coupon is an active store coupon with that code, the last such; nothing is found exactly when the store has no active coupon with the code |
| Codes.FormatCoupons | fluent-cart/app/Services/Coupon/DiscountService.php:525-537 | each coupon is the looked-up coupon of one of the codes; the list is empty exactly when the store has no active coupon for any code |
| Codes.FormatCouponsComplete | fluent-cart/app/Services/Coupon/DiscountService.php:525-537 | every code with an active coupon is represented |
| Codes.FormatCouponsDistinct | fluent-cart/app/Services/Coupon/DiscountService.php:525-537 | distinct codes give coupons with distinct codes |
| Codes.FormatCouponsSnoc | fluent-cart/app/Services/Coupon/DiscountService.php:530-534 | the coupons come in the order of the codes: one more code at the end adds its coupon, if the store holds one, at the end |
| Codes.FirstKept | fluent-cart/app/Services/Coupon/DiscountService.php:530-534 | the first found coupon a test keeps is the coupon of the first code whose coupon exists and passes the test |
| Validity.CheckCoupon | fluent-cart/app/Services/Coupon/DiscountService.php:539-597 | valid exactly when every check passes; each error code is returned exactly when its check fails and every earlier one passes |
| Validity.UnrestrictedCouponValid | fluent-cart/app/Services/Coupon/DiscountService.php:539-597 | a coupon without dates and without purchase or use limits is valid |
| Validity.Validate | fluent-cart/app/Services/Coupon/DiscountService.php:97-112 | the valid list is the valid coupons in order |
| Validity.ValidateKeys | fluent-cart/app/Services/Coupon/DiscountService.php:102-108 | every error is recorded under the code of a found coupon that is invalid |
| Validity.ValidateErrors | fluent-cart/app/Services/Coupon/DiscountService.php:102-108 | with distinct codes, a coupon has an error entry exactly when it is invalid, and the entry holds its own error |
| Stacking.MarkUnstackable | fluent-cart/app/Services/Coupon/DiscountService.php:121-131 | the non-stackable codes get `coupon_not_stackable`; other entries are kept |
| Stacking.Stack | fluent-cart/app/Services/Coupon/DiscountService.php:119-138 | under two valid coupons nothing changes; otherwise the non-stackable ones are refused, the stackable ones are kept in order, or the first valid coupon alone when none is stackable; several are kept only when all are stackable |
| Stacking.StackDistinct | fluent-cart/app/Services/Coupon/DiscountService.php:119-138 | stacking coupons with distinct codes keeps what it keeps distinct |
| Stacking.Insert | fluent-cart/app/Services/Coupon/DiscountService.php:141-151 | the result is the list with the coupon added |
| Stacking.InsertSorted | fluent-cart/app/Services/Coupon/DiscountService.php:141-151 | inserting into a list sorted by priority keeps it sorted |
| Stacking.SortByPriority | fluent-cart/app/Services/Coupon/DiscountService.php:141-151 | the result is a permutation of the input in non-decreasing priority, a missing priority counting as 0 |
| Stacking.SortStable | fluent-cart/app/Services/Coupon/DiscountService.php:141-151 | coupons of equal priority keep their relative order |
| Stacking.SortDistinct | fluent-cart/app/Services/Coupon/DiscountService.php:141-151 | sorting keeps codes distinct |
| Stacking.ApplicationOrder | fluent-cart/app/Services/Coupon/DiscountService.php:140-152 | the application order is a stable permutation of the kept coupons, sorted by priority |
| Engine.ApplyCouponCodes | fluent-cart/app/Services/Coupon/DiscountService.php:70-173 | `no_valid_coupons` exactly when no active coupon has a normalised code or none of the found ones is valid; otherwise the line count is kept |
| Engine.Record | fluent-cart/app/Services/Coupon/DiscountService.php:175-191 | the result entries are the errors plus one success entry per surviving coupon, which overrides an error under the same code |
| Engine.ApplyAllConserves | fluent-cart/app/Services/Coupon/DiscountService.php:157-167 | the application loop keeps lines bounded, codes unrepeated, a discount recorded for exactly the applied codes, and the discounts summing to the lines' coupon total |
| Engine.ApplyAllShape | fluent-cart/app/Services/Coupon/DiscountService.php:157-167 | the loop changes no line beyond what a reset clears and keeps ids distinct |
| Engine.ApplyAllOrder | fluent-cart/app/Services/Coupon/DiscountService.php:157-167 | the loop applies coupons in the order given: applied codes are the survivors' codes, sorted by priority and distinct |
| Engine.SurvivorsFacts | fluent-cart/app/Services/Coupon/DiscountService.php:82-152 | the coupons sent to the loop are active, valid, found under normalised codes, distinct, sorted by priority and all stackable when several; errors so far are under normalised codes |
| Engine.NoneStackableFirst | fluent-cart/app/Services/Coupon/DiscountService.php:119-138 | with several valid coupons and none stackable, the one coupon that goes on is that of the first normalised code whose coupon exists and is valid |
| Engine.FirstValid | fluent-cart/app/Services/Coupon/DiscountService.php:97-112 | the first valid coupon found is that of the first normalised code whose coupon exists and is valid |
| Engine.ApplyCouponCodesConserves | fluent-cart/app/Services/Coupon/DiscountService.php:155-190 | for distinct-id lines and no negative fixed coupon: every line is bounded, ids stay distinct, no code is applied twice, `per_coupon_discounts` has exactly the applied codes, and those discounts add up to the lines' coupon discounts |
| Engine.ApplyCouponCodesOrder | fluent-cart/app/Services/Coupon/DiscountService.php:119-190 | each applied code has the success entry of an admissible coupon; priorities never go down along the applied codes; several are applied only when all are stackable; every result key is a normalised code; the applied codes are in normal form |
| Engine.ApplyCouponCodesResets | fluent-cart/app/Services/Coupon/DiscountService.php:155-167 | the returned lines reset to what the input lines reset to, with ids still distinct |
| Engine.Reapply | fluent-cart/app/Services/Coupon/DiscountService.php:155 | for a cart with distinct line ids, running the same codes again, in the same checkout, on the returned lines gives the same outcome |
| CheckoutFields.Only | fluent-cart/app/Http/Controllers/CheckoutFieldsController.php:25 | exactly the submitted keys that are also stored survive, with their values |
| CheckoutFields.Set | fluent-cart/app/Http/Controllers/CheckoutFieldsController.php:31-42 | writing adds the path's first key and changes no other top-level key |
| CheckoutFields.GetSetSame | fluent-cart/app/Http/Controllers/CheckoutFieldsController.php:31-42 | reading back a path just written gives the value written |
| CheckoutFields.GetSetOther | fluent-cart/app/Http/Controllers/CheckoutFieldsController.php:31-42 | writing under one path changes nothing read under a path that parts ways with it |
| CheckoutFields.SetPresent | fluent-cart/app/Http/Controllers/CheckoutFieldsController.php:31-42 | writing a value already there changes nothing |
| CheckoutFields.GetOnly | fluent-cart/app/Http/Controllers/CheckoutFieldsController.php:25-28 | after `Arr::only` a path reads as submitted when its first key is stored, and reads nothing otherwise |
| CheckoutFields.Normalize | fluent-cart/app/Http/Controllers/CheckoutFieldsController.php:22-43 | the saved top-level keys are the submitted keys the stored settings have, plus `basic_info`; every other section is saved as submitted |
| CheckoutFields.NormalizeKeepsFlags | fluent-cart/app/Http/Controllers/CheckoutFieldsController.php:27-28 | the first-name and last-name enable flags are saved as submitted |
| CheckoutFields.NormalizeNaming | fluent-cart/app/Http/Controllers/CheckoutFieldsController.php:27-43 | an enabled split name field forces the full name to enabled=no, required=no; otherwise full name becomes enabled=yes, required=yes; an enabled first name becomes required; failing that an enabled last name becomes required and first name's required flag is kept |
| CheckoutFields.NormalizeOneMode | fluent-cart/app/Http/Controllers/CheckoutFieldsController.php:27-37 | after saving, the full-name field is enabled exactly when neither split name field is |
| CheckoutFields.NormalizeLeavesOthers | fluent-cart/app/Http/Controllers/CheckoutFieldsController.php:25-43 | every setting the naming rules do not write reads as submitted, within the stored sections |
| CheckoutFields.NormalizeIdempotent | fluent-cart/app/Http/Controllers/CheckoutFieldsController.php:22-43 | saving the saved settings again changes nothing, whether or not the stored settings have a `basic_info` section |
| CategoryList.ToBool | fluent-cart/app/Services/Renderer/ProductCategoriesListRenderer.php:13-30 | a boolean is returned as it is; a string whose trimmed lower-cased form is "true", "1", "yes" or "on" gives true, and "false", "0", "no" or "off" gives false; anything else gives the default |
| CategoryList.WordListsDisjoint | fluent-cart/app/Services/Renderer/ProductCategoriesListRenderer.php:21-26 | no word is on both lists, so the order of the two tests does not matter |
| CategoryList.DefaultMatters | fluent-cart/app/Services/Renderer/ProductCategoriesListRenderer.php:29 | the default decides the result exactly when the value is not a boolean or a listed word |
| CategoryList.ToBoolIgnoresPadding | fluent-cart/app/Services/Renderer/ProductCategoriesListRenderer.php:20 | padding a string with trim characters does not change how it reads |
| CategoryList.ToBoolIgnoresCase | fluent-cart/app/Services/Renderer/ProductCategoriesListRenderer.php:20 | two strings that lower-case alike read alike |
| CategoryList.TrueWordsRead | fluent-cart/app/Services/Renderer/ProductCategoriesListRenderer.php:21-23 | each true word reads as true, whatever the default |
| CategoryList.FalseWordsRead | fluent-cart/app/Services/Renderer/ProductCategoriesListRenderer.php:24-26 | each false word reads as false, whatever the default |
| CategoryList.PaddedYes | fluent-cart/app/Services/Renderer/ProductCategoriesListRenderer.php:20-23 | example: " YES " reads as true |
| CategoryList.PaddedOff | fluent-cart/app/Services/Renderer/ProductCategoriesListRenderer.php:20-26 | example: " Off" followed by a newline reads as false |
| CategoryList.ToBoolOfResult | fluent-cart/app/Services/Renderer/ProductCategoriesListRenderer.php:15-17 | parsing a parsed result gives it back |
| CategoryList.ParseArgs | fluent-cart/app/Services/Renderer/ProductCategoriesListRenderer.php:62-66 | the given attributes are kept and `is_shortcode` is added as false when absent |
| CategoryList.RenderFlags | fluent-cart/app/Services/Renderer/ProductCategoriesListRenderer.php:60-71 | an unreadable or absent `show_hierarchy` means true, `show_empty` false and `is_shortcode` false; `hide_empty` is the negation of `show_empty`; `display_style` defaults to "list" |
| CategoryList.RenderFlagsDefaults | fluent-cart/app/Services/Renderer/ProductCategoriesListRenderer.php:68-71 | with no attributes the list is hierarchical, hides empty categories, is a block and uses the list style |
| CategoryList.RenderFlagsRead | fluent-cart/app/Services/Renderer/ProductCategoriesListRenderer.php:68-69 | a readable `show_hierarchy` or `show_empty` attribute is taken for what it says |

## Left out

- Persistence is not modelled: `cart->save()`, `saveCart`, `revalidateCoupons`' cart access and the `fluent_cart_update_option` write. The engine returns the new lines and the controller returns the new settings instead.
- The database queries are not modelled. The coupon table (`Coupon::query()`) is an input sequence. The per-customer use count (`AppliedCoupon::query()` joined with paid orders, and `getCustomer`) is the input `Checkout.customerUses`.
- Matching codes against the table is exact. A case-insensitive database collation would match more.
- The service is modelled as fresh for each `applyCouponCodes` call. A reused instance keeps `appliedCoupons` and `perCouponDiscounts` from earlier calls, and the model does not carry them over.
- A missing cart is not modelled. `resetIndividualItemsDiscounts` writes `$this->cart->cart_data` unconditionally, so the model assumes a cart is present, with an estimated total and an e-mail.
- Non-array PHP inputs are not modelled: a scalar `$codes` wrapped into a list, a non-array `cart->coupons`, non-array condition lists, and non-array settings. Inputs are typed sequences and maps.
- The `apply_filters` hooks and `get_the_terms` are fields of `Eligibility.Context`. A hook that returns a `WP_Error` counts as a refusal; its message is not modelled.
- The static per-request cache of `getProductCategories` is not modelled. The lookup is a pure function, so caching changes nothing.
- Error messages are not modelled. Only the `error_code` of each refused coupon is kept, and the `success` flags follow from the result constructor.
- Float arithmetic is not modelled. Percentages are exact hundredths of a percent, and rounding is exact half-away-from-zero division. PHP computes `$remaining * ($percent / 100)` in floating point, which can round a value near a half differently.
- Percentage coupons are modelled with `amount` already in hundredths of a percent, so `round(..., 2)` of a rate with more decimals is not modelled.
- Dates are timestamps. An empty or all-zero date is `None`, and `strtotime` is not modelled.
- Validity.CheckCoupon: the purchase thresholds are compared as the code compares them. `max_purchase_amount` is compared with the total divided by 100. `min_purchase_amount` is divided by 100 as well. So the maximum counts in major units and the minimum in minor units. Which units the stored conditions use is not part of this model.
- The e-mail allow-list regex is a case-insensitive glob in which `*` is the only wildcard and matches no newline, as `.*` without the `s` flag. A pattern's `$` also matching before a final newline is not modelled.
- Code normalisation drops "0" together with "" and whitespace-only codes, because `array_filter` treats "0" as falsy.
- Engine.Reapply: it holds for the same `Checkout` and `Context`, and for a cart whose line ids are distinct. A rerun at another time or with another estimated total may validate differently. With a shared id, `mergeValidatedItems` gives every line with that id a copy of the first validated line (`CartItems.MergeSharedId`), so the returned lines need not reset to the input's.
- Engine.ApplyCouponCodesConserves: it assumes distinct line ids, no fixed coupon with a negative face value and no line with a negative effective subtotal. With a shared id the merge copies one discounted line over the others (`CartItems.MergeSharedId`), so the lines' coupon total can exceed the recorded discounts. The source excludes none of these, and a negative fixed amount could pull lines below zero.
- Apply.ApplyCouponConserves: it assumes distinct line ids, bounded lines and a fixed coupon with a non-negative face value, for the same reasons.
- `Arr::get` also finds a literal top-level key that contains dots. That lookup is not modelled; the settings use nested keys only.
- The rest of `ProductCategoriesListRenderer` is not modelled: `getCategories` and the HTML output of `render`. Only the flags `render` derives from its attributes are kept.
- `getResult`, `getCartItems`, `getPerCouponDiscounts` and `getAppliedCoupons` are not separate members. They are the fields of `Engine.Outcome`.
- Integer casts of PHP strings and floats (`(int)`) are not modelled. Every amount is already an integer.
