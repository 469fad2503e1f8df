/** What the wishlist shows on the page, as pure functions of the list:
    the metadata scraped by `getProductData`, the state written on every
    wishlist button by `updateWishlistUI` and the header badge written by
    `updateHeaderIcon` (assets/wishlist.js:103-152). */
module WishlistView {
  import opened Optional
  import opened Text
  import opened WishlistModel

  /** The parts of the page `getProductData` looks at: whether a
      `product-info` element exists and, if so, the text of the title and
      price elements and the `src` of the first media image (`None` when the
      element is missing), and the current path. */
  datatype PageContext =
    | NoProductInfo
    | ProductInfo(titleText: Option<string>, priceText: Option<string>, imageSrc: Option<string>, pathname: string)

  /** `value || fallback` on an optional string: `undefined` and `""` are
      both falsy. */
  function OrElse(value: Option<string>, fallback: string): (r: string)
    ensures value.Some? && value.value != "" ==> r == value.value
    ensures value.None? || value.value == "" ==> r == fallback
  {
    match value
    case None => fallback
    case Some(s) => if s == "" then fallback else s
  }

  /** `element?.textContent?.trim()` */
  function TrimmedText(text: Option<string>): Option<string> {
    match text
    case None => None
    case Some(s) => Some(Trim(s))
  }

  /** `getProductData`: `{}` without a product context, otherwise the four
      fields with their defaults. */
  function GetProductData(page: PageContext): (m: Metadata)
    ensures m.NoMetadata? <==> page.NoProductInfo?
    ensures m.Product? ==> m.title != "" && m.url == page.pathname
    ensures m.Product? ==> (m.title == "Product" <==> TrimmedText(page.titleText) in {None, Some(""), Some("Product")})
    ensures m.Product? && page.priceText.None? ==> m.price == ""
    ensures m.Product? ==> m.price == "" || !IsJsWhitespace(m.price[0])
    ensures m.Product? ==> m.title == OrElse(TrimmedText(page.titleText), "Product")
    ensures m.Product? ==> m.price == OrElse(TrimmedText(page.priceText), "")
    ensures m.Product? ==> m.image == OrElse(page.imageSrc, "")
  {
    match page
    case NoProductInfo => NoMetadata
    case ProductInfo(titleText, priceText, imageSrc, pathname) =>
      Product(OrElse(TrimmedText(titleText), "Product"),
              OrElse(TrimmedText(priceText), ""),
              OrElse(imageSrc, ""),
              pathname)
  }

  /** The attributes `updateWishlistUI` writes on one button: the
      `data-wishlist-added` flag, the `aria-label` and the text of its
      `.button__text` child. */
  datatype ButtonState = ButtonState(added: string, ariaLabel: string, text: string)

  function ButtonStateFor(list: seq<Entry>, productId: string): (b: ButtonState)
    ensures b.added == "true" <==> HasId(list, productId)
    ensures b.added == "true" || b.added == "false"
    ensures b.ariaLabel == (if HasId(list, productId) then "Remove from wishlist" else "Add to wishlist")
    ensures b.text == (if HasId(list, productId) then "Remove from Wishlist" else "Add to Wishlist")
  {
    var inList := HasId(list, productId);
    ButtonState(
      if inList then "true" else "false",
      if inList then "Remove from wishlist" else "Add to wishlist",
      if inList then "Remove from Wishlist" else "Add to Wishlist")
  }

  /** After a click toggles a product, its button offers the opposite
      action. */
  lemma ToggleFlipsButton(list: seq<Entry>, productId: string, addedAt: string, meta: Metadata)
    ensures var before := ButtonStateFor(list, productId);
            var after := ButtonStateFor(ToggleEntry(list, productId, addedAt, meta), productId);
            after.added != before.added && after.ariaLabel != before.ariaLabel && after.text != before.text
  {
  }

  /** The header icon's `data-count`, the badge text and the badge's
      `display` style. */
  datatype HeaderState = HeaderState(dataCount: string, badgeText: string, badgeDisplay: string)

  function HeaderStateFor(count: nat): (h: HeaderState)
    ensures h.badgeDisplay == "block" <==> count > 0
    ensures h.badgeDisplay == "block" || h.badgeDisplay == "none"
    ensures h.dataCount == h.badgeText
    ensures AllDigits(h.badgeText) && DecimalValue(h.badgeText) == count
    ensures |h.badgeText| >= 1 && (|h.badgeText| > 1 ==> h.badgeText[0] != '0')
  {
    DecimalRoundTrip(count);
    HeaderState(NatToDecimal(count), NatToDecimal(count), if count > 0 then "block" else "none")
  }
}
