/**
 The earlier crawler variant (`crawling/farfetch_ref.py` on
 `crawling/base_ref.py`): search and category pages are read card by card
 into `Product` records, at most `max_items` cards, with defensive helpers
 that turn a missing element into a default instead of an error.
 */
module RefCrawler {
  import opened Dom
  import Text
  import Seqs
  import Cards

  /** The record this variant returns for a card or a detail page. */
  datatype Product = Product(name: string, brand: string, price: string, url: string, imageUrl: Option<string>)

  /**
   `_safe_get_text(element, selector)`: the stripped inner text of the
   matched element, "Unknown" when nothing matches. A read that raises
   still escapes.
   */
  function SafeGetText(text: Fetch<Option<string>>): (r: Fetch<string>)
    ensures r.Raised? <==> text.Raised?
    ensures text == Got(None) ==> r == Got(Unknown)
    ensures text.Got? && text.value.Some? ==> r == Got(Text.Strip(text.value.value))
    ensures r.Got? ==> Text.IsStripped(r.value)
  {
    match text
    case Raised => Raised
    case Got(None) => Got(Unknown)
    case Got(Some(t)) => Got(Text.Strip(t))
  }

  /**
   `_safe_get_attribute(element, selector, attribute)`: `None` when nothing
   matches, otherwise the element's attribute (itself `None` when the
   element lacks it).
   */
  function SafeGetAttribute(element: Fetch<Option<Attrs>>, attribute: string): (r: Fetch<Option<string>>)
    ensures r.Raised? <==> element.Raised?
    ensures r.Got? && r.value.Some? ==>
      (element.value.Some? && attribute in element.value.value && r.value.value == element.value.value[attribute])
    ensures element.Got? && element.value.Some? && attribute in element.value.value ==> r.Got? && r.value.Some?
  {
    match element
    case Raised => Raised
    case Got(None) => Got(None)
    case Got(Some(attrs)) => Got(Attribute(attrs, attribute))
  }

  const AbsolutePrefix := "http"

  /**
   `f"{BASE_URL}{href}" if href and not href.startswith("http") else href`,
   then `url or ""`: a relative link is made absolute, an absolute one is
   kept, and a missing or empty one becomes "". Whatever is not empty
   starts with "http".
   */
  function RefUrl(href: Option<string>): (url: string)
    ensures url == "" <==> !Truthy(href)
    ensures url != "" ==> Text.StartsWith(url, AbsolutePrefix)
    ensures Truthy(href) && Text.StartsWith(href.value, AbsolutePrefix) ==> url == href.value
  {
    if Truthy(href) && !Text.StartsWith(href.value, AbsolutePrefix) then Cards.BaseUrl + href.value
    else if href.Some? then href.value
    else ""
  }

  /** Building the URL again from a built URL changes nothing. */
  lemma RefUrlIdempotent(href: Option<string>)
    ensures RefUrl(Some(RefUrl(href))) == RefUrl(href)
  {
  }

  /** On a relative link both variants build the same URL, and both drop or blank an empty one. */
  lemma VariantsAgreeOnRelative(href: Option<string>)
    requires !(Truthy(href) && Text.StartsWith(href.value, AbsolutePrefix))
    ensures RefUrl(href) == Cards.ProductUrl(href)
  {
  }

  /**
   On an absolute link they differ: this variant keeps it, the current one
   puts the site origin in front of it again.
   */
  lemma VariantsDifferOnAbsolute(href: Option<string>)
    requires Truthy(href) && Text.StartsWith(href.value, AbsolutePrefix)
    ensures RefUrl(href) == href.value
    ensures Cards.ProductUrl(href) == Cards.BaseUrl + href.value
    ensures RefUrl(href) != Cards.ProductUrl(href)
  {
    assert |Cards.ProductUrl(href)| > |href.value|;
  }

  /**
   One card as this variant sees it: the first link, the brand, name and
   price texts, and the first image.
   */
  datatype RefCard = RefCard(
    link: Fetch<Option<Attrs>>,
    brand: Fetch<Option<string>>,
    name: Fetch<Option<string>>,
    price: Fetch<Option<string>>,
    image: Fetch<Option<Attrs>>)

  /** No read of the card raises. */
  predicate CardReadable(c: RefCard) {
    c.link.Got? && c.brand.Got? && c.name.Got? && c.price.Got? && c.image.Got?
  }

  /**
   `_parse_product_card`: a product for every card whose reads all answer,
   even one without a link (its URL is then ""); `None` exactly when a read
   raises, which the `except` turns into a skipped card.
   */
  function ParseProductCard(c: RefCard): (r: Option<Product>)
    ensures r.Some? <==> CardReadable(c)
    ensures r.Some? ==> r.value.url == RefUrl(SafeGetAttribute(c.link, "href").value)
    ensures r.Some? ==> r.value.imageUrl == SafeGetAttribute(c.image, "src").value
    ensures r.Some? ==> Text.IsStripped(r.value.brand) && Text.IsStripped(r.value.name) && Text.IsStripped(r.value.price)
    ensures r.Some? ==>
      r.value.brand == SafeGetText(c.brand).value && r.value.name == SafeGetText(c.name).value
      && r.value.price == SafeGetText(c.price).value
  {
    var href := SafeGetAttribute(c.link, "href");
    var brand := SafeGetText(c.brand);
    var name := SafeGetText(c.name);
    var price := SafeGetText(c.price);
    var image := SafeGetAttribute(c.image, "src");
    if href.Raised? || brand.Raised? || name.Raised? || price.Raised? || image.Raised? then None
    else Some(Product(name.value, brand.value, price.value, RefUrl(href.value), image.value))
  }

  /** The card loop: the parsed products, in card order, skipping cards that raised. */
  function ParseCards(cards: seq<RefCard>): (products: seq<Product>)
    ensures |products| <= |cards|
    ensures |products| == |cards| <==> forall i :: 0 <= i < |cards| ==> CardReadable(cards[i])
  {
    if cards == [] then []
    else
      var rest := ParseCards(cards[1..]);
      assert forall i :: 1 <= i < |cards| ==> cards[i] == cards[1..][i - 1];
      match ParseProductCard(cards[0])
      case None => rest
      case Some(p) => [p] + rest
  }

  /** Parsing two runs of cards is parsing each in turn. */
  lemma {:induction false} ParseCardsAppend(a: seq<RefCard>, b: seq<RefCard>)
    ensures ParseCards(a + b) == ParseCards(a) + ParseCards(b)
  {
    if a == [] {
      assert a + b == b;
    } else {
      assert (a + b)[0] == a[0];
      assert (a + b)[1..] == a[1..] + b;
      ParseCardsAppend(a[1..], b);
    }
  }

  /** A single card contributes its product, or nothing when it raised. */
  lemma ParseOneCard(c: RefCard)
    ensures ParseProductCard(c).Some? ==> ParseCards([c]) == [ParseProductCard(c).value]
    ensures ParseProductCard(c).None? ==> ParseCards([c]) == []
  {
    var one: seq<RefCard> := [c];
    assert one[1..] == [];
  }

  /** A listing page of this variant: whether a card appears within the wait, and the cards present. */
  datatype RefListingPage = RefListingPage(cardsShown: bool, cards: seq<RefCard>)

  /** None of the first `maxItems` cards raises when read. */
  predicate FirstCardsReadable(page: RefListingPage, maxItems: int) {
    forall i :: 0 <= i < |Seqs.Head(page.cards, maxItems)| ==> CardReadable(Seqs.Head(page.cards, maxItems)[i])
  }

  /** The pages the crawler can open, by URL; opening any other URL raises. */
  type RefSite = map<string, RefListingPage>

  /**
   The shared body of `search_products` and `get_category_products`: open
   the page, wait for a card, read `product_cards[:max_items]`. A failure to
   open the page or a wait that times out is caught and yields the products
   collected so far, which is none. Otherwise the products are those of
   the first `max_items` cards, in card order, skipping cards that raised;
   when none of those raised, there is one product per card.
   */
  function ListingProducts(site: RefSite, url: string, maxItems: int): (products: seq<Product>)
    ensures url !in site || !site[url].cardsShown ==> products == []
    ensures url in site && site[url].cardsShown ==> products == ParseCards(Seqs.Head(site[url].cards, maxItems))
    ensures url in site && site[url].cardsShown && FirstCardsReadable(site[url], maxItems) ==>
      |products| == |Seqs.Head(site[url].cards, maxItems)|
    ensures 0 <= maxItems ==> |products| <= maxItems
    ensures url in site && site[url].cardsShown ==> |products| <= |site[url].cards|
  {
    if url !in site || !site[url].cardsShown then []
    else
      var chosen := Seqs.Head(site[url].cards, maxItems);
      Seqs.HeadBound(site[url].cards, maxItems);
      ParseCards(chosen)
  }

  /** Cards past `max_items` are never parsed: only the first ones matter. */
  lemma LaterCardsIgnored(site: RefSite, url: string, page: RefListingPage, extra: seq<RefCard>, maxItems: nat)
    requires maxItems <= |page.cards|
    ensures ListingProducts(site[url := page], url, maxItems)
      == ListingProducts(site[url := page.(cards := page.cards + extra)], url, maxItems)
  {
    assert (page.cards + extra)[..maxItems] == page.cards[..maxItems];
  }

  /** `f"{BASE_URL}/kr/shopping/women/search/items.aspx?q={query}"`, the query inserted as it is. */
  function SearchUrl(query: string): (url: string)
    ensures Text.StartsWith(url, Cards.BaseUrl)
    ensures |query| <= |url| && url[|url| - |query|..] == query
  {
    Cards.BaseUrl + "/kr/shopping/women/search/items.aspx?q=" + query
  }

  /** `search_products(query, max_items)`: the listing of the search page. */
  function SearchProducts(site: RefSite, query: string, maxItems: int := 20): (products: seq<Product>)
    ensures 0 <= maxItems ==> |products| <= maxItems
    ensures SearchUrl(query) !in site || !site[SearchUrl(query)].cardsShown ==> products == []
    ensures SearchUrl(query) in site && site[SearchUrl(query)].cardsShown ==>
      products == ParseCards(Seqs.Head(site[SearchUrl(query)].cards, maxItems))
    ensures SearchUrl(query) in site && site[SearchUrl(query)].cardsShown && FirstCardsReadable(site[SearchUrl(query)], maxItems) ==>
      |products| == |Seqs.Head(site[SearchUrl(query)].cards, maxItems)|
  {
    ListingProducts(site, SearchUrl(query), maxItems)
  }

  /** `get_category_products(category_url, max_items)`: the listing of the category page. */
  function CategoryProducts(site: RefSite, categoryUrl: string, maxItems: int := 20): (products: seq<Product>)
    ensures 0 <= maxItems ==> |products| <= maxItems
    ensures categoryUrl !in site || !site[categoryUrl].cardsShown ==> products == []
    ensures categoryUrl in site && site[categoryUrl].cardsShown ==>
      products == ParseCards(Seqs.Head(site[categoryUrl].cards, maxItems))
    ensures categoryUrl in site && site[categoryUrl].cardsShown && FirstCardsReadable(site[categoryUrl], maxItems) ==>
      |products| == |Seqs.Head(site[categoryUrl].cards, maxItems)|
  {
    ListingProducts(site, categoryUrl, maxItems)
  }

  /** A detail page of this variant: the brand, name and price texts and the first product image. */
  datatype RefDetailPage = RefDetailPage(
    brand: Fetch<Option<string>>,
    name: Fetch<Option<string>>,
    price: Fetch<Option<string>>,
    image: Fetch<Option<Attrs>>)

  /**
   `get_product_detail(product_url)`: the product read from the page, with
   the URL it was opened at; `None` when the page cannot be opened or any
   read raises.
   */
  function ProductDetail(pages: map<string, RefDetailPage>, productUrl: string): (r: Option<Product>)
    ensures r.Some? <==>
      (productUrl in pages
        && pages[productUrl].brand.Got? && pages[productUrl].name.Got?
        && pages[productUrl].price.Got? && pages[productUrl].image.Got?)
    ensures r.Some? ==> r.value.url == productUrl
    ensures r.Some? ==> Text.IsStripped(r.value.brand) && Text.IsStripped(r.value.name) && Text.IsStripped(r.value.price)
    ensures r.Some? ==>
      r.value.brand == SafeGetText(pages[productUrl].brand).value && r.value.name == SafeGetText(pages[productUrl].name).value
      && r.value.price == SafeGetText(pages[productUrl].price).value
      && r.value.imageUrl == SafeGetAttribute(pages[productUrl].image, "src").value
  {
    if productUrl !in pages then None
    else
      var d := pages[productUrl];
      var brand := SafeGetText(d.brand);
      var name := SafeGetText(d.name);
      var price := SafeGetText(d.price);
      var image := SafeGetAttribute(d.image, "src");
      if brand.Raised? || name.Raised? || price.Raised? || image.Raised? then None
      else Some(Product(name.value, brand.value, price.value, productUrl, image.value))
  }

  /**
   A detail page is read as a card with the same brand, name, price and
   image would be, except that the URL is the one opened rather than the
   card's link: the two agree on whether a product comes back and on every
   other field.
   */
  lemma DetailReadsLikeCard(pages: map<string, RefDetailPage>, productUrl: string, link: Fetch<Option<Attrs>>)
    requires productUrl in pages && link.Got?
    ensures var d := pages[productUrl];
      var card := ParseProductCard(RefCard(link, d.brand, d.name, d.price, d.image));
      && (ProductDetail(pages, productUrl).Some? <==> card.Some?)
      && (card.Some? ==> ProductDetail(pages, productUrl).value == card.value.(url := productUrl))
  {
  }

  /** One pause of the fixed scroll, in milliseconds. */
  const ScrollWait := 1000

  /**
   `_scroll_page(page, scroll_count)`: `for _ in range(scroll_count)` scroll
   one viewport and wait a second. Returns the viewport steps taken and the
   total wait; a count of zero or less scrolls nothing.
   */
  method ScrollFixed(scrollCount: int := 3) returns (steps: nat, waited: nat)
    ensures steps == (if scrollCount > 0 then scrollCount else 0)
    ensures waited == steps * ScrollWait
  {
    steps := 0;
    waited := 0;
    while steps < scrollCount
      invariant steps <= (if scrollCount > 0 then scrollCount else 0)
      invariant waited == steps * ScrollWait
    {
      steps := steps + 1;
      waited := waited + ScrollWait;
    }
  }
}
