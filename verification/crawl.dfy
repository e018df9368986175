/**
 The orchestration of the current crawler (`FarfetchCrawler.crawl_all`):
 list the catalog, keep the first `limit` references, visit each detail
 page and emit one product item per size. A detail page that raises is
 reported and skipped; the other listings are unaffected.
 */
module Crawl {
  import opened Dom
  import Seqs
  import Cards
  import SizePrices
  import Scrolling
  import Timing

  /** One row of the crawl's output: a listing at one size. */
  datatype ProductItem = ProductItem(
    brand: string,
    name: string,
    size: string,
    price: string,
    note: string,
    url: string,
    images: seq<string>)

  /**
   What the crawl finds on its detail visits: the page that visit `n`
   (counting from 0, one visit per listing crawled) finds at `url`. Each
   visit is a fresh navigation with its own waits, so two visits to the same
   URL can end differently. A visit the map does not hold raises, like any
   other failure on the detail page.
   */
  type Site = map<(nat, string), SizePrices.DetailPage>

  /** What each detail visit of a site returned: the page's result, or the exception it raised. */
  type Answers = map<(nat, string), Fetch<SizePrices.DetailResult>>

  /** The answer of every visit the site holds. */
  function Answered(site: Site): (answers: Answers)
    ensures forall key :: key in answers <==> key in site
    ensures forall key :: key in site ==> answers[key] == SizePrices.ResolvePage(site[key])
  {
    map key | key in site :: SizePrices.ResolvePage(site[key])
  }

  /** Visit `n` to `url`: its answer, or a raise when navigation fails. */
  function Visit(answers: Answers, n: nat, url: string): Fetch<SizePrices.DetailResult> {
    if (n, url) in answers then answers[(n, url)] else Raised
  }

  /**
   A visit to a site answers exactly when the site holds the page for that
   visit and `get_product_price_by_size` gets through it, and then it
   answers that page's result; every other visit raises.
   */
  lemma SiteVisit(site: Site, n: nat, url: string)
    ensures Visit(Answered(site), n, url).Got? <==> (n, url) in site && SizePrices.ResolvePage(site[(n, url)]).Got?
    ensures (n, url) in site ==> Visit(Answered(site), n, url) == SizePrices.ResolvePage(site[(n, url)])
  {
  }

  /** The item the inner loop builds for one size of a listing. */
  function ItemAt(ref: Cards.ListingRef, quote: SizePrices.SizeQuote, images: seq<string>): ProductItem {
    ProductItem(ref.brand, ref.name, quote.size, quote.price, quote.note, ref.url, images)
  }

  /** The inner loop over the sizes of one listing: one item per size, in size order. */
  function SizeItems(ref: Cards.ListingRef, sizes: seq<SizePrices.SizeQuote>, images: seq<string>): (items: seq<ProductItem>)
    ensures |items| == |sizes|
    ensures forall k :: 0 <= k < |sizes| ==> items[k] == ItemAt(ref, sizes[k], images)
  {
    if sizes == [] then []
    else [ItemAt(ref, sizes[0], images)] + SizeItems(ref, sizes[1..], images)
  }

  /**
   What one listing contributes: nothing when its detail page raised (the
   `except` swallows it), otherwise one item per size.
   */
  function ListingItems(ref: Cards.ListingRef, result: Fetch<SizePrices.DetailResult>): (items: seq<ProductItem>)
    ensures result.Raised? ==> items == []
    ensures result.Got? ==> |items| == |result.value.sizes|
  {
    if result.Raised? then [] else SizeItems(ref, result.value.sizes, result.value.images)
  }

  /**
   Every item of a listing repeats the listing's brand, name and URL and the
   page's images; its size, price and note come from the size at the same position.
   */
  lemma ListingItemFields(ref: Cards.ListingRef, result: Fetch<SizePrices.DetailResult>, k: nat)
    requires result.Got? && k < |result.value.sizes|
    ensures var it := ListingItems(ref, result)[k];
      && it.brand == ref.brand && it.name == ref.name && it.url == ref.url
      && it.images == result.value.images
      && it.size == result.value.sizes[k].size
      && it.price == result.value.sizes[k].price
      && it.note == result.value.sizes[k].note
  {
  }

  /** `it` carries the brand, name and URL of one of `refs`. */
  predicate FromListing(refs: seq<Cards.ListingRef>, it: ProductItem) {
    exists i :: 0 <= i < |refs| && it.brand == refs[i].brand && it.name == refs[i].name && it.url == refs[i].url
  }

  /**
   The outer loop from visit `first` on: the items of every listing, in
   listing order, listing `i` being visit `first + i`.
   */
  function CrawlListings(refs: seq<Cards.ListingRef>, answers: Answers, first: nat): seq<ProductItem> {
    if refs == [] then []
    else ListingItems(refs[0], Visit(answers, first, refs[0].url)) + CrawlListings(refs[1..], answers, first + 1)
  }

  /** Every item the outer loop emits carries the brand, name and URL of one of the listings. */
  lemma {:induction false} ItemsFromListings(refs: seq<Cards.ListingRef>, answers: Answers, first: nat)
    ensures forall k :: 0 <= k < |CrawlListings(refs, answers, first)| ==> FromListing(refs, CrawlListings(refs, answers, first)[k])
  {
    if refs != [] {
      ItemsFromListings(refs[1..], answers, first + 1);
      FromListingTail(refs, answers, first, ListingItems(refs[0], Visit(answers, first, refs[0].url)), CrawlListings(refs[1..], answers, first + 1));
    }
  }

  /**
   The items of the first listing come from `refs[0]`, and the items of the
   later listings from `refs[1..]`; together they all come from `refs`.
   */
  lemma FromListingTail(refs: seq<Cards.ListingRef>, answers: Answers, first: nat, here: seq<ProductItem>, rest: seq<ProductItem>)
    requires refs != []
    requires here == ListingItems(refs[0], Visit(answers, first, refs[0].url))
    requires forall k :: 0 <= k < |rest| ==> FromListing(refs[1..], rest[k])
    ensures forall k :: 0 <= k < |here + rest| ==> FromListing(refs, (here + rest)[k])
  {
    forall k | 0 <= k < |here + rest|
      ensures FromListing(refs, (here + rest)[k])
    {
      if k < |here| {
        assert (here + rest)[k] == here[k];
        ListingItemFields(refs[0], Visit(answers, first, refs[0].url), k);
      } else {
        assert (here + rest)[k] == rest[k - |here|];
        var i :| 0 <= i < |refs[1..]| && rest[k - |here|].brand == refs[1..][i].brand
          && rest[k - |here|].name == refs[1..][i].name && rest[k - |here|].url == refs[1..][i].url;
        assert refs[1..][i] == refs[i + 1];
      }
    }
  }

  /**
   Crawling two runs of listings is crawling each in turn, the second run
   continuing the visit count: the output keeps listing order.
   */
  lemma {:induction false} CrawlListingsAppend(a: seq<Cards.ListingRef>, b: seq<Cards.ListingRef>, answers: Answers, first: nat)
    ensures CrawlListings(a + b, answers, first) == CrawlListings(a, answers, first) + CrawlListings(b, answers, first + |a|)
  {
    if a == [] {
      assert a + b == b;
    } else {
      assert (a + b)[0] == a[0];
      assert (a + b)[1..] == a[1..] + b;
      CrawlListingsAppend(a[1..], b, answers, first + 1);
    }
  }

  /** One listing on its own yields exactly the items of its visit. */
  lemma CrawlOne(ref: Cards.ListingRef, answers: Answers, n: nat)
    ensures CrawlListings([ref], answers, n) == ListingItems(ref, Visit(answers, n, ref.url))
  {
    var one: seq<Cards.ListingRef> := [ref];
    assert one[1..] == [];
  }

  /**
   A listing whose detail visit raises is dropped without disturbing the
   listings before or after it.
   */
  lemma FailedListingIsSkipped(a: seq<Cards.ListingRef>, ref: Cards.ListingRef, b: seq<Cards.ListingRef>, answers: Answers, first: nat)
    requires Visit(answers, first + |a|, ref.url).Raised?
    ensures CrawlListings(a + [ref] + b, answers, first) == CrawlListings(a, answers, first) + CrawlListings(b, answers, first + |a| + 1)
  {
    CrawlListingsAppend(a + [ref], b, answers, first);
    CrawlListingsAppend(a, [ref], answers, first);
    CrawlOne(ref, answers, first + |a|);
  }

  /** A listing whose detail visit succeeds contributes one item per size, in place. */
  lemma GoodListingContributes(a: seq<Cards.ListingRef>, ref: Cards.ListingRef, b: seq<Cards.ListingRef>, answers: Answers, first: nat)
    requires Visit(answers, first + |a|, ref.url).Got?
    ensures var page := Visit(answers, first + |a|, ref.url).value;
      CrawlListings(a + [ref] + b, answers, first)
      == CrawlListings(a, answers, first) + SizeItems(ref, page.sizes, page.images) + CrawlListings(b, answers, first + |a| + 1)
  {
    CrawlListingsAppend(a + [ref], b, answers, first);
    CrawlListingsAppend(a, [ref], answers, first);
    CrawlOne(ref, answers, first + |a|);
  }

  /**
   A listing that appears twice is visited twice: when the first visit
   raises and the second answers, the second visit's items are kept.
   */
  lemma RevisitIsFresh(ref: Cards.ListingRef, result: SizePrices.DetailResult)
    ensures var answers := map[(1, ref.url) := Got(result)];
      CrawlListings([ref, ref], answers, 0) == ListingItems(ref, Got(result))
  {
    var answers := map[(1, ref.url) := Got(result)];
    assert [ref, ref] == [ref] + [ref];
    CrawlListingsAppend([ref], [ref], answers, 0);
    CrawlOne(ref, answers, 0);
    CrawlOne(ref, answers, 1);
  }

  /** How many of `refs` have a detail visit that answers, listing `i` being visit `i`. */
  function Completed(refs: seq<Cards.ListingRef>, answers: Answers): (n: nat)
    ensures n <= |refs|
  {
    if refs == [] then 0
    else
      var last := |refs| - 1;
      Completed(refs[..last], answers) + (if Visit(answers, last, refs[last].url).Got? then 1 else 0)
  }

  /** The detail visit of every listing answers. */
  predicate AllAnswer(refs: seq<Cards.ListingRef>, answers: Answers) {
    forall i :: 0 <= i < |refs| ==> Visit(answers, i, refs[i].url).Got?
  }

  /** Every listing completes exactly when every visit answers. */
  lemma {:induction false} AllCompleted(refs: seq<Cards.ListingRef>, answers: Answers)
    ensures Completed(refs, answers) == |refs| <==> AllAnswer(refs, answers)
  {
    if refs != [] {
      var init := refs[..|refs| - 1];
      AllCompleted(init, answers);
      assert forall i :: 0 <= i < |init| ==> init[i] == refs[i];
    }
  }

  /** One more turn of the outer loop appends that listing's items and, when it answered, one completion. */
  lemma CrawlStep(refs: seq<Cards.ListingRef>, answers: Answers, k: nat)
    requires k < |refs|
    ensures CrawlListings(refs[..k + 1], answers, 0) == CrawlListings(refs[..k], answers, 0) + ListingItems(refs[k], Visit(answers, k, refs[k].url))
    ensures Completed(refs[..k + 1], answers) == Completed(refs[..k], answers) + (if Visit(answers, k, refs[k].url).Got? then 1 else 0)
  {
    assert refs[..k + 1] == refs[..k] + [refs[k]];
    assert refs[..k + 1][..k] == refs[..k];
    CrawlListingsAppend(refs[..k], [refs[k]], answers, 0);
    CrawlOne(refs[k], answers, k);
  }

  /** Pause `j` comes from draw `j`, for every pause taken so far. */
  predicate PausesDrawn(pauses: seq<int>, dice: seq<Timing.PauseDraw>) {
    |pauses| <= |dice| && forall j :: 0 <= j < |pauses| ==> pauses[j] == Timing.ListingPause(dice[j].coin, dice[j].draw)
  }

  /** Taking the next pause from the next draw keeps every pause matched to its draw. */
  lemma NextPauseDrawn(pauses: seq<int>, dice: seq<Timing.PauseDraw>)
    requires PausesDrawn(pauses, dice) && |pauses| < |dice|
    ensures PausesDrawn(pauses + [Timing.ListingPause(dice[|pauses|].coin, dice[|pauses|].draw)], dice)
  {
  }

  /** The loop's state after the first `k` listings: their items, and one drawn pause per listing that completed. */
  predicate Visited(refs: seq<Cards.ListingRef>, answers: Answers, dice: seq<Timing.PauseDraw>, k: nat, items: seq<ProductItem>, pauses: seq<int>) {
    && k <= |refs|
    && items == CrawlListings(refs[..k], answers, 0)
    && |pauses| == Completed(refs[..k], answers)
    && PausesDrawn(pauses, dice)
  }

  /**
   One turn of the loop: a listing that raised leaves items and pauses as
   they are, any other appends its items and the next pause.
   */
  lemma VisitNext(refs: seq<Cards.ListingRef>, answers: Answers, dice: seq<Timing.PauseDraw>, k: nat, items: seq<ProductItem>, pauses: seq<int>)
    requires Visited(refs, answers, dice, k, items, pauses) && k < |refs| <= |dice|
    ensures Visit(answers, k, refs[k].url).Raised? ==> Visited(refs, answers, dice, k + 1, items, pauses)
    ensures Visit(answers, k, refs[k].url).Got? ==>
      Visited(refs, answers, dice, k + 1, items + ListingItems(refs[k], Visit(answers, k, refs[k].url)),
        pauses + [Timing.ListingPause(dice[|pauses|].coin, dice[|pauses|].draw)])
  {
    CrawlStep(refs, answers, k);
    if Visit(answers, k, refs[k].url).Got? {
      NextPauseDrawn(pauses, dice);
    }
  }

  /**
   The `for` loop of `crawl_all` over the chosen listings, with its pauses.
   A listing whose visit raises is skipped by `continue` before the pause;
   every other listing appends its items and is followed by one pause drawn
   from the next entry of `dice`, the random values in the order they are
   consumed (one entry per listing is always enough). So the crawl pauses
   after every listing exactly when no listing fails.
   */
  method VisitListings(refs: seq<Cards.ListingRef>, answers: Answers, dice: seq<Timing.PauseDraw>)
    returns (items: seq<ProductItem>, pauses: seq<int>)
    requires |refs| <= |dice|
    ensures items == CrawlListings(refs, answers, 0)
    ensures |pauses| == Completed(refs, answers)
    ensures |pauses| == |refs| <==> AllAnswer(refs, answers)
    ensures PausesDrawn(pauses, dice)
  {
    items := [];
    pauses := [];
    var k := 0;
    while k < |refs|
      invariant Visited(refs, answers, dice, k, items, pauses)
    {
      var result := Visit(answers, k, refs[k].url);
      VisitNext(refs, answers, dice, k, items, pauses);
      if result.Raised? {
        k := k + 1;
        continue;
      }
      items := items + ListingItems(refs[k], result);
      pauses := pauses + [Timing.ListingPause(dice[|pauses|].coin, dice[|pauses|].draw)];
      k := k + 1;
    }
    assert refs[..k] == refs;
    AllCompleted(refs, answers);
  }

  /** The output of `crawl_all`. */
  datatype CrawlOutcome =
    | Crawled(items: seq<ProductItem>, visited: nat)
    | ListingPageFailed   // the catalog showed no product card within the timeout, which raises out of crawl_all
    | StillScrolling      // the catalog kept growing for every supplied scroll pass

  /**
   `crawl_all(list_url, limit)`: list the catalog, keep `products[:limit]`
   and crawl those, listing `i` being detail visit `i`. `visited` is how
   many detail pages were opened.
   */
  function CrawlAll(catalog: Cards.CatalogPage, site: Site, limit: int := 20): (r: CrawlOutcome)
    ensures !catalog.cardsShown <==> r.ListingPageFailed?
    ensures catalog.cardsShown ==> (r.StillScrolling? <==> Scrolling.NeverStalls(catalog.initialHeight, catalog.passes))
    ensures r.Crawled? ==> r.visited == |Seqs.Head(Cards.ExtractCards(catalog.cards), limit)|
    ensures r.Crawled? ==> 0 <= limit ==> r.visited <= limit
    ensures r.Crawled? ==> r.visited <= |Cards.ExtractCards(catalog.cards)|
    ensures r.Crawled? ==> r.items == CrawlListings(Seqs.Head(Cards.ExtractCards(catalog.cards), limit), Answered(site), 0)
    ensures r.Crawled? ==> forall k :: 0 <= k < |r.items| ==>
      FromListing(Seqs.Head(Cards.ExtractCards(catalog.cards), limit), r.items[k])
  {
    match Cards.ProductUrls(catalog)
    case LoadFailed => ListingPageFailed
    case StillScrolling => StillScrolling
    case Listed(refs, _) =>
      var chosen := Seqs.Head(refs, limit);
      var answers := Answered(site);
      ItemsFromListings(chosen, answers, 0);
      Crawled(CrawlListings(chosen, answers, 0), |chosen|)
  }

  /** A listing past the limit is never visited: its detail page does not influence the output. */
  lemma BeyondLimitIgnored(catalog: Cards.CatalogPage, site: Site, site': Site, limit: int)
    requires forall i :: 0 <= i < |Seqs.Head(Cards.ExtractCards(catalog.cards), limit)| ==>
      Visit(Answered(site), i, Cards.ExtractCards(catalog.cards)[i].url) == Visit(Answered(site'), i, Cards.ExtractCards(catalog.cards)[i].url)
    ensures CrawlAll(catalog, site, limit) == CrawlAll(catalog, site', limit)
  {
    FirstListingsDecide(Cards.ExtractCards(catalog.cards), Answered(site), Answered(site'), limit);
  }

  /** Answers beyond the first `limit` listings do not change the items of `found[:limit]`. */
  lemma FirstListingsDecide(found: seq<Cards.ListingRef>, answers: Answers, answers': Answers, limit: int)
    requires forall i :: 0 <= i < |Seqs.Head(found, limit)| ==> Visit(answers, i, found[i].url) == Visit(answers', i, found[i].url)
    ensures CrawlListings(Seqs.Head(found, limit), answers, 0) == CrawlListings(Seqs.Head(found, limit), answers', 0)
  {
    var chosen := Seqs.Head(found, limit);
    forall i | 0 <= i < |chosen|
      ensures Visit(answers, 0 + i, chosen[i].url) == Visit(answers', 0 + i, chosen[i].url)
    {
      assert chosen[i] == found[i];
    }
    SameVisitsSameItems(chosen, answers, answers', 0);
  }

  /** Two runs whose visits answer alike for every listing give the same items. */
  lemma {:induction false} SameVisitsSameItems(refs: seq<Cards.ListingRef>, answers: Answers, answers': Answers, first: nat)
    requires forall i :: 0 <= i < |refs| ==> Visit(answers, first + i, refs[i].url) == Visit(answers', first + i, refs[i].url)
    ensures CrawlListings(refs, answers, first) == CrawlListings(refs, answers', first)
  {
    if refs != [] {
      assert forall i :: 0 <= i < |refs[1..]| ==> refs[1..][i] == refs[i + 1];
      assert Visit(answers, first + 0, refs[0].url) == Visit(answers', first + 0, refs[0].url);
      SameVisitsSameItems(refs[1..], answers, answers', first + 1);
    }
  }
}
