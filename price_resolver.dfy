/** The price resolution of `updatePriceDisplay` (extensions/b2b-price/assets/b2b-price.js):
    which presentation one variant record gets, and the fragment it renders to. */
module PriceResolver {
  import opened Wrappers
  import opened MoneyFormat

  /** One entry of `variantsData`: amounts in minor units. A missing, null or zero
      `b2b_price` / `compare_at_price` is falsy in the source. */
  datatype VariantPrice = VariantPrice(price: nat, compareAtPrice: Option<nat>, b2bPrice: Option<nat>)

  /** The config object a block pushes onto `b2bPriceConfigs`. */
  datatype BlockConfig = BlockConfig(
    blockId: string,
    isB2B: bool,
    moneyFormat: string,
    variantsData: map<string, VariantPrice>,
    selectedVariantId: string)

  /** The three presentations, with the amounts each shows. */
  datatype Pricing =
    | B2BPricing(current: nat, original: nat)    // b2b_price, with price struck through
    | SalePricing(current: nat, compareAt: nat)  // price, with compare_at_price struck through
    | RegularPricing(current: nat)               // price alone

  /** The fragment written into a price region; the markup around the formatted amounts
      is fixed per presentation. `Raw` is content the engine did not write (initially ""). */
  datatype Markup =
    | Raw(text: string)
    | B2BMarkup(current: string, original: string)
    | SaleMarkup(current: string, compareAt: string)
    | RegularMarkup(current: string)

  /** What one call of updatePriceDisplay produces. */
  datatype Resolution =
    | NoRecord                  // `if (!data) return;`
    | Rendered(markup: Markup)  // html was built: currentHtml and the regions get it
    | Failed(error: FormatError) // formatMoney threw while html was being built

  /** `isB2B && data.b2b_price && data.b2b_price > 0` */
  predicate B2BEligible(data: VariantPrice, isB2B: bool)
  {
    isB2B && data.b2bPrice.Some? && data.b2bPrice.value > 0
  }

  /** `data.compare_at_price && data.compare_at_price > data.price` */
  predicate OnSale(data: VariantPrice)
  {
    data.compareAtPrice.Some? && data.compareAtPrice.value > data.price
  }

  /** The if / else if / else of updatePriceDisplay. */
  function ChoosePricing(data: VariantPrice, isB2B: bool): (p: Pricing)
    ensures p.B2BPricing? ==> p.current > 0 && p.original == data.price
    ensures !p.B2BPricing? ==> p.current == data.price
    ensures p.SalePricing? ==> p.compareAt > p.current
  {
    if B2BEligible(data, isB2B) then
      B2BPricing(data.b2bPrice.value, data.price)
    else if OnSale(data) then
      SalePricing(data.price, data.compareAtPrice.value)
    else
      RegularPricing(data.price)
  }

  /** The amounts of a presentation formatted with the block's template, in the order the
      template literal evaluates them; the first failure is the one reported. */
  function Present(p: Pricing, format: string): (r: Result<Markup, FormatError>)
    ensures r.Err? ==> r.error == NoPlaceholder
    ensures r.Ok? ==>
      (r.value.B2BMarkup? <==> p.B2BPricing?) && (r.value.SaleMarkup? <==> p.SalePricing?) &&
      (r.value.RegularMarkup? <==> p.RegularPricing?)
    ensures r.Ok? ==> !r.value.Raw? && FormatMoney(Minor(p.current), format) == Ok(r.value.current)
  {
    match p
    case B2BPricing(c, o) =>
      (match FormatMoney(Minor(c), format)
       case Err(e) => Err(e)
       case Ok(a) =>
         match FormatMoney(Minor(o), format)
         case Err(e) => Err(e)
         case Ok(b) => Ok(B2BMarkup(a, b)))
    case SalePricing(c, k) =>
      (match FormatMoney(Minor(c), format)
       case Err(e) => Err(e)
       case Ok(a) =>
         match FormatMoney(Minor(k), format)
         case Err(e) => Err(e)
         case Ok(b) => Ok(SaleMarkup(a, b)))
    case RegularPricing(c) =>
      match FormatMoney(Minor(c), format)
      case Err(e) => Err(e)
      case Ok(a) => Ok(RegularMarkup(a))
  }

  /** Everything updatePriceDisplay(variantId) computes before it writes anything. */
  function Resolve(config: BlockConfig, variantId: string): (r: Resolution)
    ensures r.Failed? ==> r.error == NoPlaceholder
    ensures r.Rendered? ==> variantId in config.variantsData && !r.markup.Raw?
  {
    if variantId !in config.variantsData then NoRecord
    else
      match Present(ChoosePricing(config.variantsData[variantId], config.isB2B), config.moneyFormat)
      case Ok(m) => Rendered(m)
      case Err(e) => Failed(e)
  }

  // ---------------------------------------------------------------------------
  // The priority rule

  /** B2B wins when eligible, whatever compare_at_price holds. */
  lemma B2BWins(data: VariantPrice, isB2B: bool, compareAt: Option<nat>)
    requires B2BEligible(data, isB2B)
    ensures ChoosePricing(data.(compareAtPrice := compareAt), isB2B) == B2BPricing(data.b2bPrice.value, data.price)
  {
  }

  /** Without an eligible B2B price, a compare-at price above price means a sale. */
  lemma SaleWhenNotB2B(data: VariantPrice, isB2B: bool)
    requires !B2BEligible(data, isB2B)
    ensures ChoosePricing(data, isB2B).SalePricing? <==> OnSale(data)
    ensures OnSale(data) ==> ChoosePricing(data, isB2B) == SalePricing(data.price, data.compareAtPrice.value)
    ensures !OnSale(data) ==> ChoosePricing(data, isB2B) == RegularPricing(data.price)
  {
  }

  /** Exactly one presentation applies, and each one is chosen precisely under its condition. */
  lemma ExactlyOnePresentation(data: VariantPrice, isB2B: bool)
    ensures ChoosePricing(data, isB2B).B2BPricing? <==> B2BEligible(data, isB2B)
    ensures ChoosePricing(data, isB2B).SalePricing? <==> !B2BEligible(data, isB2B) && OnSale(data)
    ensures ChoosePricing(data, isB2B).RegularPricing? <==> !B2BEligible(data, isB2B) && !OnSale(data)
  {
  }

  /** The amount shown as current is the B2B price when eligible and the list price
      otherwise; a struck-through sale price is always above the current one. */
  lemma CurrentAmount(data: VariantPrice, isB2B: bool)
    ensures ChoosePricing(data, isB2B).current
         == if B2BEligible(data, isB2B) then data.b2bPrice.value else data.price
    ensures ChoosePricing(data, isB2B).SalePricing? ==>
            ChoosePricing(data, isB2B).current < ChoosePricing(data, isB2B).compareAt
    ensures ChoosePricing(data, isB2B).current > 0 || data.price == 0
  {
  }

  /** For a retail customer the B2B price never matters. */
  lemma RetailIgnoresB2BPrice(data: VariantPrice, b2b: Option<nat>)
    ensures ChoosePricing(data.(b2bPrice := b2b), false) == ChoosePricing(data, false)
  {
  }

  // ---------------------------------------------------------------------------
  // Resolution

  /** An unknown variant resolves to nothing: the source returns before building html. */
  lemma ResolveUnknownVariant(config: BlockConfig, variantId: string)
    ensures Resolve(config, variantId) == NoRecord <==> variantId !in config.variantsData
  {
  }

  /** A known variant fails exactly when the block's template has no placeholder, and then
      with that error; otherwise it renders. */
  lemma ResolveFailure(config: BlockConfig, variantId: string)
    requires variantId in config.variantsData
    ensures Resolve(config, variantId).Failed? <==> !HasPlaceholder(config.moneyFormat)
    ensures Resolve(config, variantId).Rendered? <==> HasPlaceholder(config.moneyFormat)
    ensures Resolve(config, variantId).Failed? ==> Resolve(config, variantId).error == NoPlaceholder
  {
    var p := ChoosePricing(config.variantsData[variantId], config.isB2B);
    match p
    case B2BPricing(c, o) =>
      FormatMoneyNumber(c, config.moneyFormat);
      FormatMoneyNumber(o, config.moneyFormat);
    case SalePricing(c, k) =>
      FormatMoneyNumber(c, config.moneyFormat);
      FormatMoneyNumber(k, config.moneyFormat);
    case RegularPricing(c) =>
      FormatMoneyNumber(c, config.moneyFormat);
  }

  /** End to end, B2B: with a template that has a placeholder, an eligible
      variant shows its B2B price with the list price struck through. */
  lemma ResolveRendersB2B(config: BlockConfig, variantId: string)
    requires variantId in config.variantsData && HasPlaceholder(config.moneyFormat)
    requires B2BEligible(config.variantsData[variantId], config.isB2B)
    ensures var data := config.variantsData[variantId];
      FormatMoney(Minor(data.b2bPrice.value), config.moneyFormat).Ok? &&
      FormatMoney(Minor(data.price), config.moneyFormat).Ok? &&
      Resolve(config, variantId) == Rendered(B2BMarkup(
        FormatMoney(Minor(data.b2bPrice.value), config.moneyFormat).value,
        FormatMoney(Minor(data.price), config.moneyFormat).value))
  {
    var data := config.variantsData[variantId];
    FormatMoneyNumber(data.b2bPrice.value, config.moneyFormat);
    FormatMoneyNumber(data.price, config.moneyFormat);
  }

  /** End to end, sale: without B2B eligibility, a higher compare-at price is shown
      struck through after the list price. */
  lemma ResolveRendersSale(config: BlockConfig, variantId: string)
    requires variantId in config.variantsData && HasPlaceholder(config.moneyFormat)
    requires !B2BEligible(config.variantsData[variantId], config.isB2B)
    requires OnSale(config.variantsData[variantId])
    ensures var data := config.variantsData[variantId];
      FormatMoney(Minor(data.price), config.moneyFormat).Ok? &&
      FormatMoney(Minor(data.compareAtPrice.value), config.moneyFormat).Ok? &&
      Resolve(config, variantId) == Rendered(SaleMarkup(
        FormatMoney(Minor(data.price), config.moneyFormat).value,
        FormatMoney(Minor(data.compareAtPrice.value), config.moneyFormat).value))
  {
    var data := config.variantsData[variantId];
    FormatMoneyNumber(data.price, config.moneyFormat);
    FormatMoneyNumber(data.compareAtPrice.value, config.moneyFormat);
  }

  /** End to end, regular: otherwise only the list price is shown. */
  lemma ResolveRendersRegular(config: BlockConfig, variantId: string)
    requires variantId in config.variantsData && HasPlaceholder(config.moneyFormat)
    requires !B2BEligible(config.variantsData[variantId], config.isB2B)
    requires !OnSale(config.variantsData[variantId])
    ensures FormatMoney(Minor(config.variantsData[variantId].price), config.moneyFormat).Ok? &&
      Resolve(config, variantId) == Rendered(RegularMarkup(
        FormatMoney(Minor(config.variantsData[variantId].price), config.moneyFormat).value))
  {
    FormatMoneyNumber(config.variantsData[variantId].price, config.moneyFormat);
  }

  /** The fragment depends on the variant record and the block's flag and template only:
      two blocks with equal records render equal fragments. */
  lemma ResolveDependsOnRecordOnly(c1: BlockConfig, c2: BlockConfig, v1: string, v2: string)
    requires v1 in c1.variantsData && v2 in c2.variantsData
    requires c1.variantsData[v1] == c2.variantsData[v2]
    requires c1.isB2B == c2.isB2B && c1.moneyFormat == c2.moneyFormat
    ensures Resolve(c1, v1) == Resolve(c2, v2)
  {
  }
}
