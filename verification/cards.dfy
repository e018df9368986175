/**
 The listing page of the current crawler (`FarfetchCrawler.get_product_urls`):
 wait for the product cards, scroll until the page stops growing, then turn
 every card into a listing reference, skipping cards without a link and
 cards whose reads raise.
 */
module Cards {
  import opened Dom
  import Text
  import Scrolling

  const BaseUrl := "https://www.farfetch.com"

  /**
   One product card. `brand` and `name` are the inner texts of the brand and
   description elements (`Got(None)` when the card has no such element);
   `link` is the card's first `a` element with its attributes.
   */
  datatype Card = Card(brand: Fetch<Option<string>>, name: Fetch<Option<string>>, link: Fetch<Option<Attrs>>)

  /** A listing found on the catalog page: what the detail visit needs. */
  datatype ListingRef = ListingRef(brand: string, name: string, url: string)

  /** `link_elem.get_attribute('href') if link_elem else ""`. */
  function LinkHref(link: Option<Attrs>): Option<string> {
    if link.None? then Some("") else Attribute(link.value, "href")
  }

  /**
   The detail URL: the site origin followed by the relative `href`, or the
   empty string when the href is missing or empty.
   */
  function ProductUrl(href: Option<string>): (url: string)
    ensures url == "" <==> !Truthy(href)
    ensures url != "" ==> Text.StartsWith(url, BaseUrl)
  {
    if Truthy(href) then BaseUrl + href.value else ""
  }

  /** A non-empty URL gives back the href it was built from, so different hrefs give different URLs. */
  lemma ProductUrlRecoversHref(href: Option<string>)
    requires ProductUrl(href) != ""
    ensures href.Some? && ProductUrl(href)[|BaseUrl|..] == href.value
  {
  }

  lemma ProductUrlInjective(a: Option<string>, b: Option<string>)
    requires ProductUrl(a) != "" && ProductUrl(a) == ProductUrl(b)
    ensures a == b
  {
    ProductUrlRecoversHref(a);
    ProductUrlRecoversHref(b);
  }

  /**
   The body of the card loop for one card: `None` when a read raises (the
   `except` skips the card) or when the URL is empty (`continue`), otherwise
   the reference with "Unknown" for a missing brand or name and both
   whitespace-stripped.
   */
  function ExtractCard(c: Card): (r: Option<ListingRef>)
    ensures r.Some? <==> c.brand.Got? && c.name.Got? && c.link.Got? && Truthy(LinkHref(c.link.value))
    ensures r.Some? ==> r.value.url == BaseUrl + LinkHref(c.link.value).value
    ensures r.Some? ==> r.value.brand == Text.Strip(TextOrUnknown(c.brand.value))
    ensures r.Some? ==> r.value.name == Text.Strip(TextOrUnknown(c.name.value))
    ensures r.Some? ==> Text.IsStripped(r.value.brand) && Text.IsStripped(r.value.name)
  {
    if c.brand.Raised? || c.name.Raised? || c.link.Raised? then None
    else
      var url := ProductUrl(LinkHref(c.link.value));
      if url == "" then None
      else Some(ListingRef(Text.Strip(TextOrUnknown(c.brand.value)), Text.Strip(TextOrUnknown(c.name.value)), url))
  }

  /** Some card of `cards` yields `ref`. */
  predicate Yields(cards: seq<Card>, ref: ListingRef) {
    exists i :: 0 <= i < |cards| && ExtractCard(cards[i]) == Some(ref)
  }

  /** The card loop: the references of the cards that yield one, in card order. */
  function ExtractCards(cards: seq<Card>): (refs: seq<ListingRef>)
    ensures |refs| <= |cards|
    ensures forall k :: 0 <= k < |refs| ==> refs[k].url != "" && Text.StartsWith(refs[k].url, BaseUrl)
    ensures forall k :: 0 <= k < |refs| ==> Yields(cards, refs[k])
    ensures refs == [] <==> forall i :: 0 <= i < |cards| ==> ExtractCard(cards[i]).None?
  {
    if cards == [] then []
    else
      var rest := ExtractCards(cards[1..]);
      YieldsInTail(cards, rest);
      match ExtractCard(cards[0])
      case None => rest
      case Some(ref) => [ref] + rest
  }

  /** A reference the later cards yield is yielded by the whole list. */
  lemma YieldsInTail(cards: seq<Card>, rest: seq<ListingRef>)
    requires cards != []
    requires forall k :: 0 <= k < |rest| ==> Yields(cards[1..], rest[k])
    ensures forall k :: 0 <= k < |rest| ==> Yields(cards, rest[k])
  {
    forall k | 0 <= k < |rest|
      ensures Yields(cards, rest[k])
    {
      var i :| 0 <= i < |cards[1..]| && ExtractCard(cards[1..][i]) == Some(rest[k]);
      assert ExtractCard(cards[i + 1]) == Some(rest[k]);
    }
  }

  /** Extraction of a concatenation is the concatenation of the extractions: card order is kept. */
  lemma {:induction false} ExtractCardsAppend(a: seq<Card>, b: seq<Card>)
    ensures ExtractCards(a + b) == ExtractCards(a) + ExtractCards(b)
  {
    if a == [] {
      assert a + b == b;
    } else {
      assert (a + b)[1..] == a[1..] + b;
      ExtractCardsAppend(a[1..], b);
    }
  }

  /** The listing page: whether the card selector appears in time, the scroll passes, and the cards present afterwards. */
  datatype CatalogPage = CatalogPage(cardsShown: bool, initialHeight: int, passes: seq<Scrolling.Pass>, cards: seq<Card>)

  /**
   What `get_product_urls` ends in: the references, the page never showing
   a card within the timeout (the wait raises), or a page that never stops
   growing within the given passes.
   */
  datatype Catalog = Listed(refs: seq<ListingRef>, scrollSteps: nat) | LoadFailed | StillScrolling

  function ProductUrls(page: CatalogPage): (r: Catalog)
    ensures !page.cardsShown ==> r == LoadFailed
    ensures page.cardsShown && Scrolling.NeverStalls(page.initialHeight, page.passes) ==> r == StillScrolling
    ensures page.cardsShown && !Scrolling.NeverStalls(page.initialHeight, page.passes) ==> r.Listed?
    ensures r.Listed? ==> Scrolling.StopsAfter(page.initialHeight, page.passes, r.scrollSteps)
    ensures r.Listed? ==> r.refs == ExtractCards(page.cards)
  {
    if !page.cardsShown then LoadFailed
    else match Scrolling.Settle(page.initialHeight, page.passes)
      case None => StillScrolling
      case Some(k) => Listed(ExtractCards(page.cards), k)
  }
}
