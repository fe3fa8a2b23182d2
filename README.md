# B2B price engine and plan limits, modelled in Dafny

This project models two parts of the gd-priceupdator-pro Shopify app.

The first is the storefront script `extensions/b2b-price/assets/b2b-price.js`. Each
product block pushes a config onto `window.b2bPriceConfigs`, and the script initialises
one price engine per config. An engine:

- picks, for the selected variant, a B2B price (for a B2B customer), a sale price or the
  regular price;
- formats the amounts with the shop's Shopify-style money template, e.g. `${{amount}}`;
- writes the fragment into the block's own container and into every mirror region
  (`.gd-b2b-price-update`);
- keeps the display current: a poll watches the `variant` URL parameter, and an observer
  backfills mirror regions that the theme inserts later.

The second is `app/utils/subscription.js`. It maps a subscription plan name to the number
of variants a shop may configure, and it has a table of tiers.

Layout:

| file | module | contents |
|---|---|---|
| `wrappers.dfy` | `Wrappers` | `Option` and `Result` |
| `money_format.dfy` | `MoneyFormat` | `formatMoney` and `formatWithDelimiters`: toFixed on whole minor units, digit grouping, placeholder matching, the template substitution, and a parser of the displayed amount used to state the read-back property |
| `price_resolver.dfy` | `PriceResolver` | variant records, the B2B / sale / regular rule, and `Resolve`: everything `updatePriceDisplay` computes before it writes |
| `price_engine.dfy` | `PriceEngine` | the document (`Page`), one engine per block (`Engine`: constructor = `initB2BPrice`, `UpdatePriceDisplay`, `Tick` = the poll callback, `Insert` = the observer callback), and the config registry (`Registry`) |
| `subscription.dfy` | `Subscription` | `getVariantLimitForPlan`, `SUBSCRIPTION_TIERS` and their agreement |

Modelling choices:

- Amounts are whole minor units (`Minor(n)`). A string amount (`Text`) is accepted when it
  is a digit string once its first `.` is removed. `null`, `undefined` and `NaN` are their
  own cases.
- A template without a `{{ name }}` placeholder makes the source throw a TypeError on
  `match(...)[1]`. The model returns `Err(NoPlaceholder)` instead. In `updatePriceDisplay`
  that throw happens while the html is built, so nothing is written. In
  `initB2BPrice` it happens in the first render, before the interval and the observer are
  installed (`Engine.live` is false). In the pre-seeded `forEach` it stops the rest of the
  script, so no later config is initialised and `push` is never replaced
  (`Registry.intercepting` is false).
- The document is a map from element to content, the element ids, and the mirror regions
  in document order. A fragment is a `Markup` value: the presentation plus its formatted
  amounts. The `"b2b-price-container-" + blockId` element gets the same fragment as the
  mirrors.

Two consequences of the code that the model makes explicit:

- The poll callback goes through `updatePriceDisplay` (b2b-price.js:105-108), which also
  writes every mirror region (lines 93-94). A variant change in the URL therefore rewrites
  the mirrors as well as the block's own container.
- `currentHtml` need not show `currentVariantId`. For an id without a record, line 106
  changes `currentVariantId` and line 56 returns before `currentHtml` is set. The invariant
  that holds is `Engine.Tracks`: when the current variant renders at all, `currentHtml` is
  its fragment.

## Model

| member | source | states |
|---|---|---|
| MoneyFormat.ToFixed | extensions/b2b-price/assets/b2b-price.js:19 | the integer digits and, for precision 2, two fraction digits spell n exactly (100 × whole + fraction = n); for precision 0 the digits are the whole number nearest n / 100, a tie going up |
| MoneyFormat.DecimalDigits | extensions/b2b-price/assets/b2b-price.js:19 | the integer part toFixed prints is a non-empty digit string with no leading zero, except "0" itself |
| MoneyFormat.DecimalDigitsRoundTrip | extensions/b2b-price/assets/b2b-price.js:19 | the decimal numeral of n reads back as n |
| MoneyFormat.TwoDigitsValue | extensions/b2b-price/assets/b2b-price.js:19 | the two fraction digits of toFixed(2) denote the remainder n % 100, with a leading zero |
| MoneyFormat.InsertThousands | extensions/b2b-price/assets/b2b-price.js:22 | a part of at most three digits gets no separator |
| MoneyFormat.GroupByThrees | extensions/b2b-price/assets/b2b-price.js:22 | the reference grouping: up to three digits stay as they are, the last three digits end the result, and (k - 1) / 3 separators are added |
| MoneyFormat.InsertThousandsAppend | extensions/b2b-price/assets/b2b-price.js:22 | before a block of whole three-digit groups, the regex puts exactly one separator and groups each side on its own |
| MoneyFormat.InsertThousandsGroupsByThrees | extensions/b2b-price/assets/b2b-price.js:22 | the global lookahead replace equals grouping the digits by threes from the right |
| MoneyFormat.InsertThousandsRemovable | extensions/b2b-price/assets/b2b-price.js:22 | deleting the (non-digit) separator from the grouped part gives back the digits |
| MoneyFormat.ToNumeric | extensions/b2b-price/assets/b2b-price.js:17 | null, undefined and NaN are exactly the amounts read as not-a-number (and so formatted as "0"); a number keeps its value, a digit string has the value it spells, and any other string is outside the model |
| MoneyFormat.FormatWithDelimiters | extensions/b2b-price/assets/b2b-price.js:12-26 | NaN / null / undefined give "0"; otherwise the digits of n / 100 grouped by threes, then the decimal separator and two digits of n % 100 (precision 2), or the digits of n / 100 rounded half up, grouped, with no fraction (precision 0) |
| MoneyFormat.FormatWithDelimitersReadsBack | extensions/b2b-price/assets/b2b-price.js:12-26 | with distinct, non-digit separators, reading the display back (drop separators, split at the decimal) gives n for precision 2 and the rounded whole amount for precision 0 |
| MoneyFormat.SkipSpaces | extensions/b2b-price/assets/b2b-price.js:5 | `\s*` consumes the maximal run of JavaScript whitespace |
| MoneyFormat.SkipWord | extensions/b2b-price/assets/b2b-price.js:5 | `\w+` consumes the maximal run of `[A-Za-z0-9_]` |
| MoneyFormat.MatchAt | extensions/b2b-price/assets/b2b-price.js:5 | a match at i starts with `{` at i and ends inside the template |
| MoneyFormat.MatchAtShape | extensions/b2b-price/assets/b2b-price.js:5 | a match is the pattern: `{{` at its start, a run of `\s` characters, a non-empty name of `\w` characters that is the template's own text at those positions, another run of `\s` characters, and `}}` at its end |
| MoneyFormat.FindPlaceholder | extensions/b2b-price/assets/b2b-price.js:28 | the match found is a real match at or after the search start |
| MoneyFormat.FindPlaceholderNone | extensions/b2b-price/assets/b2b-price.js:28 | when the search fails there is no match anywhere |
| MoneyFormat.FindPlaceholderFirst | extensions/b2b-price/assets/b2b-price.js:28 | the match found is the leftmost one |
| MoneyFormat.EffectiveFormat | extensions/b2b-price/assets/b2b-price.js:6 | the template is never empty: a given one is kept, and the default `${{amount}}` has the placeholder `amount` at positions 1 to 11 |
| MoneyFormat.DropFirstDot | extensions/b2b-price/assets/b2b-price.js:3 | `replace('.', '')` removes one character exactly when the string holds a '.', and adds none |
| MoneyFormat.PlaceholderStyle | extensions/b2b-price/assets/b2b-price.js:28-41 | every recognised placeholder has precision 0 or 2 |
| MoneyFormat.PlaceholderStyles | extensions/b2b-price/assets/b2b-price.js:29-40 | amount → (2, ',', '.'); amount_no_decimals → (0, ',', '.'); the _with_comma_separator forms → thousands '.' and decimal ',' |
| MoneyFormat.PlaceholderValue | extensions/b2b-price/assets/b2b-price.js:28-41 | an unrecognised name gives the empty string; the only failure is a string amount that is not a numeral |
| MoneyFormat.FormatMoney | extensions/b2b-price/assets/b2b-price.js:2-44 | formatMoney fails with NoPlaceholder exactly when the search finds no placeholder in the effective template; any other failure comes from a string amount |
| MoneyFormat.FormatMoneyErrors | extensions/b2b-price/assets/b2b-price.js:3-43 | formatMoney fails with NoPlaceholder exactly when the effective template has no match, and with UnsupportedNumeral exactly when a recognised placeholder meets a non-numeral string |
| MoneyFormat.FormatMoneyNumber | extensions/b2b-price/assets/b2b-price.js:28-43 | for a numeric amount, formatMoney succeeds exactly when the template has a placeholder, and otherwise fails with NoPlaceholder |
| MoneyFormat.TemplateMatch | extensions/b2b-price/assets/b2b-price.js:5 | in `pre {{ name }} post` with no `{` in pre, the regex finds exactly that placeholder, its name and its end |
| MoneyFormat.NoMatchBefore | extensions/b2b-price/assets/b2b-price.js:5 | no match starts inside a prefix without `{` |
| MoneyFormat.MatchAtPlaceholder | extensions/b2b-price/assets/b2b-price.js:5 | a placeholder with runs of spaces round a word matches at its first brace |
| MoneyFormat.FormatMoneyReplacesFoundPlaceholder | extensions/b2b-price/assets/b2b-price.js:28-43 | for every non-empty template, the placeholder the search finds is replaced by the value its name selects and the text before and after it is copied verbatim; a name without a style is replaced by the empty string, and the only error here is a string amount the model does not read as a number |
| MoneyFormat.FormatMoneySubstitutesFirstPlaceholder | extensions/b2b-price/assets/b2b-price.js:28-43 | when the text before the first placeholder holds no `{`, that placeholder is replaced by the formatted value and the text before and after it is copied verbatim |
| MoneyFormat.FormatMoneyTightTemplate | extensions/b2b-price/assets/b2b-price.js:28-43 | the same for a placeholder without inner spaces, again when the text before it holds no `{` |
| MoneyFormat.FormatMoneyRejectsTemplateWithoutPlaceholder | extensions/b2b-price/assets/b2b-price.js:28 | a non-empty template without `{` fails with NoPlaceholder |
| MoneyFormat.DelimitersAmountExample | extensions/b2b-price/assets/b2b-price.js:12-26 | 12345 with precision 2 gives "123.45" |
| MoneyFormat.DelimitersNoDecimalsExample | extensions/b2b-price/assets/b2b-price.js:12-26 | 12345 with precision 0 gives "123" |
| MoneyFormat.DelimitersRoundingExample | extensions/b2b-price/assets/b2b-price.js:19 | 12350 with precision 0 rounds half up to "124" |
| MoneyFormat.DelimitersCommaExample | extensions/b2b-price/assets/b2b-price.js:12-26 | 123456 with '.' and ',' gives "1.234,56" |
| MoneyFormat.DelimitersNoDecimalsCommaExample | extensions/b2b-price/assets/b2b-price.js:12-26 | 123456 with precision 0 and '.' gives "1.235" |
| MoneyFormat.FormatMoneyAmountExample | extensions/b2b-price/assets/b2b-price.js:2-44 | `{{amount}}` of 12345 in any template whose text before the placeholder holds no `{` is "123.45" in place, e.g. "$123.45" |
| MoneyFormat.FormatMoneyNoDecimalsExample | extensions/b2b-price/assets/b2b-price.js:2-44 | `{{amount_no_decimals}}` of 12345 is "123" |
| MoneyFormat.FormatMoneyRoundingExample | extensions/b2b-price/assets/b2b-price.js:2-44 | `{{amount_no_decimals}}` of 12350 is "124" |
| MoneyFormat.FormatMoneyCommaExample | extensions/b2b-price/assets/b2b-price.js:2-44 | `{{amount_with_comma_separator}}` of 123456 is "1.234,56" |
| MoneyFormat.FormatMoneyNoDecimalsCommaExample | extensions/b2b-price/assets/b2b-price.js:2-44 | `{{amount_no_decimals_with_comma_separator}}` of 123456 is "1.235" |
| MoneyFormat.FormatMoneyNotANumberExample | extensions/b2b-price/assets/b2b-price.js:17 | NaN, null and undefined put "0" in place of a recognised placeholder |
| MoneyFormat.FormatMoneyUnknownName | extensions/b2b-price/assets/b2b-price.js:28-43 | an unrecognised placeholder is replaced by the empty string |
| MoneyFormat.DropFirstDotAbsent | extensions/b2b-price/assets/b2b-price.js:3 | a string without '.' is left as it is |
| MoneyFormat.DropFirstDotSplit | extensions/b2b-price/assets/b2b-price.js:3 | only the first '.' is removed |
| MoneyFormat.FormatMoneySameNumber | extensions/b2b-price/assets/b2b-price.js:3-41 | two amounts that coerce to the same number format alike in every template |
| MoneyFormat.FormatMoneyDigitString | extensions/b2b-price/assets/b2b-price.js:3 | a digit-string amount formats like the same number |
| MoneyFormat.FormatMoneyDottedString | extensions/b2b-price/assets/b2b-price.js:3 | "major.cc" formats like major * 100 + cc minor units |
| PriceResolver.ChoosePricing | extensions/b2b-price/assets/b2b-price.js:60-86 | a B2B presentation shows a positive B2B price over the list price; the others show the list price as current, and a sale's struck-through amount is above it |
| PriceResolver.Present | extensions/b2b-price/assets/b2b-price.js:61-86 | the fragment has the presentation's own shape, its current amount is formatMoney of the current price, and the only failure is the missing placeholder |
| PriceResolver.Resolve | extensions/b2b-price/assets/b2b-price.js:54-86 | a fragment is produced only for a variant with a record and is never the initial ''; a failure is always the missing placeholder |
| PriceResolver.B2BWins | extensions/b2b-price/assets/b2b-price.js:60-68 | a B2B customer with a positive B2B price sees it, with price struck through, whatever compare_at_price is |
| PriceResolver.SaleWhenNotB2B | extensions/b2b-price/assets/b2b-price.js:70-86 | otherwise a compare-at price above price gives the sale presentation, else the regular one |
| PriceResolver.ExactlyOnePresentation | extensions/b2b-price/assets/b2b-price.js:60-86 | each presentation is chosen exactly under its condition |
| PriceResolver.CurrentAmount | extensions/b2b-price/assets/b2b-price.js:60-86 | the current amount is the B2B price when eligible, else price; a struck-through compare-at price is above the current one |
| PriceResolver.RetailIgnoresB2BPrice | extensions/b2b-price/assets/b2b-price.js:60 | for a retail customer the B2B price never matters |
| PriceResolver.ResolveUnknownVariant | extensions/b2b-price/assets/b2b-price.js:55-56 | nothing is rendered exactly when the variant has no record |
| PriceResolver.ResolveFailure | extensions/b2b-price/assets/b2b-price.js:61-86 | a known variant fails exactly when the template has no placeholder (with that error), and renders otherwise |
| PriceResolver.ResolveRendersB2B | extensions/b2b-price/assets/b2b-price.js:60-68 | end to end: the B2B fragment holds formatMoney of b2b_price and of price |
| PriceResolver.ResolveRendersSale | extensions/b2b-price/assets/b2b-price.js:70-78 | end to end: the sale fragment holds formatMoney of price and of compare_at_price |
| PriceResolver.ResolveRendersRegular | extensions/b2b-price/assets/b2b-price.js:80-86 | end to end: the regular fragment holds formatMoney of price |
| PriceResolver.ResolveDependsOnRecordOnly | extensions/b2b-price/assets/b2b-price.js:54-86 | the fragment depends only on the record, the B2B flag and the template |
| PriceEngine.Overwrite | extensions/b2b-price/assets/b2b-price.js:46-48 | writing regions never adds or removes elements |
| PriceEngine.OverwriteEffect | extensions/b2b-price/assets/b2b-price.js:46-48 | each written element holds the html and every other element keeps its content |
| PriceEngine.OverwriteIdempotent | extensions/b2b-price/assets/b2b-price.js:46-48 | writing the same html twice is the same as once |
| PriceEngine.OverwriteUnion | extensions/b2b-price/assets/b2b-price.js:91-94 | writing the container and then the mirrors writes their union |
| PriceEngine.OverwriteLastWins | extensions/b2b-price/assets/b2b-price.js:88-94 | of two renders to the same regions the later one is what remains |
| PriceEngine.NodesTargetsMembers | extensions/b2b-price/assets/b2b-price.js:113-121 | the observer writes exactly the added elements that are mirrors and the mirror descendants of the others; non-elements are ignored |
| PriceEngine.Targets | extensions/b2b-price/assets/b2b-price.js:90-94 | the regions of one render are exactly the mirrors and, when the id exists, the block's own container |
| PriceEngine.RegionTargets | extensions/b2b-price/assets/b2b-price.js:90-94 | read from the document, they hold every mirror and the container found by id, and they are all elements of the document |
| PriceEngine.Page.GetElementById | extensions/b2b-price/assets/b2b-price.js:90 | an id lookup finds an element of the document exactly when the id exists |
| PriceEngine.Page.UpdateTarget | extensions/b2b-price/assets/b2b-price.js:46-48 | a present element gets the html; a null container is skipped |
| PriceEngine.Page.UpdateAll | extensions/b2b-price/assets/b2b-price.js:94 | a forEach of updateTarget writes exactly the listed elements |
| PriceEngine.Engine.Valid | extensions/b2b-price/assets/b2b-price.js:52-88 | the invariant that `currentHtml` is the initial '' or the fragment of some variant of the block |
| PriceEngine.Engine.Tracks | extensions/b2b-price/assets/b2b-price.js:97-107 | the invariant that, when the current variant renders at all, `currentHtml` is its fragment |
| PriceEngine.Engine.constructor | extensions/b2b-price/assets/b2b-price.js:50-127 | initB2BPrice starts from the selected variant and '' and renders once; the handlers exist exactly when that render did not throw |
| PriceEngine.Engine.UpdatePriceDisplay | extensions/b2b-price/assets/b2b-price.js:54-95 | the result is the resolution; when rendered, currentHtml is the fragment and the container plus every present mirror hold it; otherwise nothing changes |
| PriceEngine.Engine.WriteRegions | extensions/b2b-price/assets/b2b-price.js:90-94 | the container, when present, and every mirror get the html |
| PriceEngine.Engine.Tick | extensions/b2b-price/assets/b2b-price.js:101-109 | a non-empty, different URL variant becomes currentVariantId and is re-rendered (even an unknown one, which leaves currentHtml alone); otherwise nothing changes; the invariants are kept |
| PriceEngine.Engine.BackfillNode | extensions/b2b-price/assets/b2b-price.js:113-121 | a mirror node, or else its mirror descendants, get currentHtml |
| PriceEngine.Engine.BackfillNodes | extensions/b2b-price/assets/b2b-price.js:112-122 | every added node of a record is backfilled |
| PriceEngine.Engine.Insert | extensions/b2b-price/assets/b2b-price.js:111-124 | inserted mirrors get currentHtml unchanged, with no new resolution; currentVariantId and currentHtml stay |
| PriceEngine.BootedIsValid | extensions/b2b-price/assets/b2b-price.js:97-99 | a freshly initialised engine shows '' or a fragment of its block, and tracks its variant |
| PriceEngine.Registry.Valid | extensions/b2b-price/assets/b2b-price.js:129-138 | the invariant that instance i came from config i, instances are distinct objects, and once push is replaced every config has its instance |
| PriceEngine.Registry.constructor | extensions/b2b-price/assets/b2b-price.js:130 | the config array starts empty |
| PriceEngine.Registry.Register | extensions/b2b-price/assets/b2b-price.js:135-138 | push appends the config once; once push is replaced it also initialises exactly one new instance for it, booted as a pre-seeded one would be |
| PriceEngine.Registry.Start | extensions/b2b-price/assets/b2b-price.js:131-138 | the pre-seeded configs are initialised once each, in order, up to the first whose render throws; push is replaced exactly when none throws |
| PriceEngine.Registry.BootAll | extensions/b2b-price/assets/b2b-price.js:131 | the forEach gives an instance per config, fresh and distinct, stopping after the first throw; the document has gone through their first renders in order |
| PriceEngine.Registry.Boot | extensions/b2b-price/assets/b2b-price.js:131 | one more config gets its instance and its first render |
| PriceEngine.Registry.TickEngine | extensions/b2b-price/assets/b2b-price.js:101-109 | the polled instance and the document change as `Tick` says: a non-empty, different URL variant becomes current and is rendered into its regions, otherwise nothing moves; the polled instance stays live and keeps its invariants; every other instance keeps its currentVariantId and currentHtml |
| Subscription.Lower | app/utils/subscription.js:4 | lower-casing maps A-Z to a-z and leaves every other character |
| Subscription.LowerString | app/utils/subscription.js:4 | the lower-cased name has the same length, character by character |
| Subscription.LowerStringIdempotent | app/utils/subscription.js:4 | lower-casing twice is lower-casing once |
| Subscription.Includes | app/utils/subscription.js:6-8 | `includes` holds of a word at the start, and only of a word no longer than the name |
| Subscription.IncludesIff | app/utils/subscription.js:6-8 | `includes` holds exactly when the word occurs at some position |
| Subscription.VariantLimitForPlan | app/utils/subscription.js:1-11 | a missing or empty name gives 10; the answer is always 10, 100, 500 or unlimited |
| Subscription.VariantLimitPriority | app/utils/subscription.js:6-10 | "startup" anywhere gives 100 even with "growth" or "expand"; else "growth" gives 500; else "expand" gives unlimited; else 10 |
| Subscription.VariantLimitReasons | app/utils/subscription.js:6-8 | 100, 500 and unlimited are given only to names that mention their keyword |
| Subscription.VariantLimitIgnoresCase | app/utils/subscription.js:4 | names equal up to case get the same limit, and so does the lower-cased name |
| Subscription.StartupInCapitals | app/utils/subscription.js:4-6 | "STARTUP" and "startup" both give 100 |
| Subscription.SubscriptionTiers | app/utils/subscription.js:13-18 | four tiers, the free limit first, each allowing more variants than the one before, with distinct keys |
| Subscription.FreeTierAgrees | app/utils/subscription.js:14 | "Free" gives 10 |
| Subscription.StartupTierAgrees | app/utils/subscription.js:15 | "Startup" gives 100 |
| Subscription.GrowthTierAgrees | app/utils/subscription.js:16 | "Growth" gives 500 |
| Subscription.ExpandTierAgrees | app/utils/subscription.js:17 | "Expand" gives unlimited |
| Subscription.TiersAgree | app/utils/subscription.js:13-18 | every entry of the tier table gets its own limit from the lookup |

## Left out

- The real DOM and the event loop. `getElementById`, `querySelectorAll`, `innerHTML`, `MutationObserver`, `setInterval`, `URLSearchParams` and `window.location` are not modelled. In their place are the `Page` object, the URL parameter passed to `Tick`, and the added nodes passed to `Insert`. The 500 ms timing and the interleaving of callbacks are not modelled.
- ToFixed: `(n / 100).toFixed(p)` is modelled with integer arithmetic on whole, non-negative minor units, not with doubles. The two print the same digits while n / 100 stays below 2^46, that is for n below about 7.0 · 10^15: below that bound the division's rounding error is under half a cent, and a tie (n % 100 == 50) is exact. Above it they can differ: for n = 7100000000000001 the double prints "71000000000000.02" and the model "71000000000000.01". Negative and fractional amounts are not modelled.
- `Number()` coercion of arbitrary strings is not modelled. Strings like " 12", "1e3" or "0x10" give `Err(UnsupportedNumeral)`. Only digit strings, after the first '.' is removed, are read.
- Precisions other than 0 and 2, and the default precision of `formatWithDelimiters`. formatMoney always passes a precision. The defaults for thousands and decimal (`,` and `.`) are used, by lines 30 and 33, and are part of `PlaceholderStyle`.
- The HTML of the fragments: whitespace, classes and inline styles. A fragment is its presentation plus its formatted amounts.
- Variant amounts that are not non-negative integers (strings, fractions), and a `selectedVariantId` given as a number rather than a string.
- Exceptions other than the template without placeholder.
- Resolve: a variant is looked up among the own keys of `variantsData` only. In the source, `variantsData[variantId]` also finds members inherited from `Object.prototype`, such as `constructor`, `toString`, `valueOf`, `hasOwnProperty` and `__proto__`. For such an id `data` is truthy, its price fields are undefined, and formatWithDelimiters returns 0 for them, so the source renders a regular price of "0" (e.g. "$0" with the default template) into `currentHtml` and every region. The model returns `NoRecord` for such an id and renders nothing.
- Engine.Insert: the theme's insertion itself is not modelled. The added nodes are passed in, and the caller must already have put them in `page.content`, and in `page.mirrors` if later polls are to rewrite them; no member adds to the mirror list.
- Running the script a second time over the same global array.
- `push` called with several configs at once.
- Non-ASCII lower-casing. For these keywords this changes no answer: the only non-ASCII characters that lower-case to ASCII letters give 'i' and 'k', and no keyword contains either.
- Plan names that are truthy but not strings. For these the source throws on `toLowerCase`.
- `app/routes/app._index.jsx`, `app/routes/app.how-to-use.jsx` and `app/routes/app.forms.$id.jsx` are not part of this model. They are admin UI and network calls.
