# CollApe crawler core in Dafny

This project models the decision logic of the CollApe Farfetch crawler. The
crawler opens a catalog page, scrolls until the page stops growing and reads
the product cards into listing references. It then opens each listing's
detail page and reads a price and a note for every size. Each size becomes
one product item, and the items are mapped to rows of the `products` table.
The earlier crawler variant is modelled too: its card parser, its search and
category listings, its element helpers and its fixed-count scroll.

The browser is replaced by values. An awaited browser call whose failure
the model tracks is a `Dom.Fetch<T>`: it either answers (`Got`) or raises
(`Raised`); the calls folded into a page flag or not given an outcome of
their own are listed under "Left out". An element that may be missing is a
`Fetch<Option<...>>`. A page is a record of the answers the crawler would
get. The current crawler's detail pages are keyed by visit number and URL,
because every visit is a separate navigation; the earlier variant's pages
are keyed by URL.

Modules, in dependency order:

- `Dom`: call outcomes, optional values and attributes.
- `Text`: Python's `strip`, `.replace('\xa0', ' ')`, `in`, `startswith` and `join`.
- `Seqs`: Python's `xs[:n]`.
- `Timing`: the random scroll amounts and pauses, driven by a supplied draw.
- `Scrolling`: the stall-detection loop of `scroll_page`.
- `Cards`: the catalog page and card extraction.
- `SizePrices`: the detail page, covering images, price polling, final price, footnotes and notes.
- `Crawl`: `crawl_all`.
- `Storage`: `save_products`.
- `RefCrawler`: the earlier variant.

Two behaviours of the code differ from what one might expect of a crawler, and the model follows the code:

- **Missing size selector.** A detail page without a size selector does not
  yield an empty result. The `wait_for_selector` call at
  `code/crawling/farfetch.py:77` raises after 10 s. `crawl_all` then drops
  that listing in its `except`. The "no dropdown" branch at
  `code/crawling/farfetch.py:90-94` is reached only when the selector
  disappears after that wait, and the model keeps it as a separate flag.
- **No deduplication.** Listing references are not deduplicated. The card
  loop at `code/crawling/farfetch.py:44-68` appends every card that has a
  URL, and the model does the same. A listing found twice is visited twice,
  and the two visits may end differently.

## Model

| member | source | states |
|---|---|---|
| Text.TrimStartShape | code/crawling/farfetch.py:61-62 | `lstrip` removes only whitespace, keeps a suffix of the input, and leaves no leading whitespace. |
| Text.TrimEndShape | code/crawling/farfetch.py:61-62 | `rstrip` removes only whitespace, keeps a prefix of the input, and leaves no trailing whitespace. |
| Text.Strip | code/crawling/farfetch.py:61-62 | `strip()` yields text whose two ends are not whitespace, U+00A0 counting as whitespace; the result is never longer than the input. |
| Text.StripShape | code/crawling/farfetch.py:61-62 | The input is some whitespace, then the stripped text, then some whitespace. |
| Text.StripIdempotent | code/crawling/farfetch.py:61-62 | Stripping twice equals stripping once. |
| Text.ReplaceNoBreakSpace | code/crawling/farfetch.py:152 | Every U+00A0 becomes a space, every other character stays in place, and none is left. |
| Text.ReplaceWithoutNoBreakSpace | code/crawling/farfetch.py:152 | Text without U+00A0 is unchanged by the replacement. |
| Text.Normalize | code/crawling/farfetch.py:152 | `strip().replace('\xa0', ' ')` leaves no U+00A0 and no surrounding whitespace, and has the stripped text's length. |
| Text.NormalizeIdempotent | code/crawling/farfetch.py:160 | Cleaning a price, size or footnote twice gives the same text as cleaning it once. |
| Text.JoinCons | code/crawling/farfetch.py:165 | `", ".join` of a note put in front of further notes is that note, the separator, and the rest joined. |
| Text.JoinSnoc | code/crawling/farfetch.py:165 | `", ".join` of one more note appends the separator and that note. |
| Seqs.Head | code/crawling/farfetch.py:184 | `xs[:n]` is a prefix of `xs`: `n` elements for `0 <= n <= len(xs)`, all of them for larger `n`, and `len(xs) + n` elements (at least zero) for negative `n`. |
| Seqs.HeadBound | code/crawling/farfetch.py:184 | A non-negative limit is never exceeded; a negative limit always drops something from a non-empty list. |
| Timing.UniformCovers | code/crawling/base.py:65 | Every value between the bounds is produced by some draw. |
| Timing.ScrollAmount | code/crawling/base.py:65 | Each scroll increment lies in [300, 700]. |
| Timing.ListingPause | code/crawling/farfetch.py:211-214 | With probability one in five the pause is 8 to 15 s, otherwise 3 to 6 s. |
| Scrolling.Settle | code/crawling/base.py:61-78 | Returns the number of passes after which the loop stops, exactly when some pass stalls; that pass is the first one that stalls. |
| Scrolling.StopIsUnique | code/crawling/base.py:76-77 | Two stopping points of the same readings are equal. |
| Scrolling.ScrollPage | code/crawling/base.py:59-78 | The loop compares each height with the height read just before it, stops at the first pass whose position reaches an unchanged height, and otherwise runs through every pass; every increment is the draw's amount in [300, 700]. |
| Scrolling.SettleIsTheStop | code/crawling/base.py:63-78 | Whenever the stall condition first holds at pass k, the loop takes exactly k steps. |
| Scrolling.NoStopAboveBottom | code/crawling/base.py:76 | An unchanged height does not stop the loop while the viewport is above the bottom. |
| Scrolling.AlreadyRenderedStopsAtOnce | code/crawling/base.py:61-77 | A page whose height matches the first reading and whose viewport is already at the bottom stops after one step. |
| Scrolling.GrowThenStall | code/crawling/base.py:72-78 | Heights 1000, 1600, 1600 with the viewport reaching the bottom on the second pass stop after two steps. |
| Cards.ProductUrl | code/crawling/farfetch.py:52-54 | The URL is empty exactly when the href is missing or empty; otherwise it starts with `https://www.farfetch.com`. |
| Cards.ProductUrlRecoversHref | code/crawling/farfetch.py:54 | The href can be read back from a non-empty URL. |
| Cards.ProductUrlInjective | code/crawling/farfetch.py:54 | Different hrefs give different non-empty URLs. |
| Cards.ExtractCard | code/crawling/farfetch.py:44-68 | A card yields a reference exactly when no read raises and its href is non-empty. The URL is the origin plus the href, and brand and name are the stripped texts, with "Unknown" for a missing element. |
| Cards.ExtractCards | code/crawling/farfetch.py:44-68 | The references number at most the cards, each comes from one of the cards, each URL starts with the origin, and the list is empty exactly when no card yields one. |
| Cards.ExtractCardsAppend | code/crawling/farfetch.py:44-68 | The card loop keeps card order. |
| Cards.ProductUrls | code/crawling/farfetch.py:18-71 | No card within the wait fails the listing. A page that never stalls keeps scrolling, and one that stalls at some pass is always listed, with the references of every card that yields one, after exactly the passes up to the first stall. |
| SizePrices.CollectImages | code/crawling/farfetch.py:83-88 | The image list holds only sources containing `farfetch-contents.com` and is no longer than the elements; it fails exactly when a `src` read raises. |
| SizePrices.CollectImage | code/crawling/farfetch.py:86-88 | One element contributes its `src` exactly when the `src` is non-empty and names the image host. |
| SizePrices.CollectImagesAppend | code/crawling/farfetch.py:85-88 | The image list keeps document order. |
| SizePrices.FinalPrice | code/crawling/farfetch.py:145-154 | PriceFinal is preferred over Body, and "Unknown" is used when neither exists. The price is cleaned of whitespace and U+00A0 and raises exactly when a needed read raises. |
| SizePrices.PollEnds | code/crawling/farfetch.py:136-143 | Polling reports a change at the first read that differs from the baseline. Six unchanged reads end without a change, and an exception comes from a read reached after baseline reads only. |
| SizePrices.PollStopsAtFirstChange | code/crawling/farfetch.py:136-142 | After j baseline reads and a differing read, polling stops after j + 1 reads. |
| SizePrices.PollGivesUp | code/crawling/farfetch.py:136-143 | A price unchanged for six reads ends the loop without an error. |
| SizePrices.PollPrice | code/crawling/farfetch.py:136-143 | The `for`/`break` loop ends as the recursive definition does, after between one and six reads. |
| SizePrices.SurvivingFootnotes | code/crawling/farfetch.py:157-163 | Every surviving footnote is non-empty, not made only of price characters, free of U+00A0 and stripped; there are no more survivors than footnotes. |
| SizePrices.SurvivingFootnotesAppend | code/crawling/farfetch.py:158-163 | The footnote filter keeps page order. |
| SizePrices.SurvivingFootnote | code/crawling/farfetch.py:159-163 | One footnote survives, cleaned, exactly when it is non-empty and not price text after cleaning. |
| SizePrices.WonAmountDropped | code/crawling/farfetch.py:162 | "₩ 1,000" is dropped. |
| SizePrices.PercentageDropped | code/crawling/farfetch.py:162 | "-10%" is dropped. |
| SizePrices.KeptAsItStands | code/crawling/farfetch.py:160-163 | A clean footnote the filter keeps survives unchanged. |
| SizePrices.CustomsNoteKept | code/crawling/farfetch.py:162-163 | "Customs included" is kept. |
| SizePrices.Notes | code/crawling/farfetch.py:118-123 | Without a non-blank label the notes are the surviving footnotes; with one, the cleaned label comes first and the surviving footnotes follow it. No note is empty. |
| SizePrices.JoinedNotes | code/crawling/farfetch.py:118-123 | The note is the cleaned non-blank label, then `", "` and the surviving footnotes joined by `", "`; the label alone when no footnote survives; the footnotes joined when no label is noted. |
| SizePrices.NoteOfLabelAndFootnotes | code/crawling/farfetch.py:118-165 | For a non-blank label and footnotes made of price text and then a kept remark, the note is the cleaned label, `", "`, and the remark: the price text is left out. |
| SizePrices.CleanedSize | code/crawling/farfetch.py:114-168 | The size shown is the option's size text cleaned, or "Unknown" when the option has no size element. |
| SizePrices.ResolveOption | code/crawling/farfetch.py:105-171 | One option yields a quote exactly when re-opening (after the first option), the size and label reads, the baseline read, the click, the polls, the final price and the footnote reads all answer. The quote's price is the settled price block's, its size is the option's size text cleaned ("Unknown" without a size element), and its note is the cleaned non-blank label followed by the surviving footnotes, joined by `", "`. The note is empty exactly when there is no non-blank label and no footnote survives. |
| SizePrices.Quote | code/crawling/farfetch.py:114-171 | The size is the option's size text cleaned, or "Unknown" without a size element; the price is the settled price block's. Neither holds U+00A0 or surrounding whitespace. The note is the cleaned non-blank label, then the surviving footnotes in page order, joined by `", "`; it is empty exactly when neither a label nor a footnote was noted. |
| SizePrices.ChangeDetectionOnlyWaits | code/crawling/farfetch.py:125-143 | The baseline and poll reads only decide whether the option raises: two completed visits that differ only in them give the same quote. |
| SizePrices.ResolveOptions | code/crawling/farfetch.py:103-171 | The option loop succeeds exactly when every option completes, and then yields one quote per option. |
| SizePrices.ResolvePage | code/crawling/farfetch.py:73-174 | The page fails without the size selector, on a raising image read, on the options' wait, or on a raising option. Otherwise it returns the collected images, one quote per option index in order, or no sizes but still the images when the selector has gone. |
| Crawl.SizeItems | code/crawling/farfetch.py:194-204 | A listing with k sizes yields k items; item i carries size i's size, price and note with the listing's brand, name, URL and images. |
| Crawl.ListingItems | code/crawling/farfetch.py:189-208 | A raising detail page contributes no items; a page that answers contributes one item per size. |
| Crawl.ListingItemFields | code/crawling/farfetch.py:194-204 | All items of a listing share its brand, name, URL and images. |
| Crawl.ItemsFromListings | code/crawling/farfetch.py:186-208 | Every item of the outer loop carries the brand, name and URL of one of the crawled listings. |
| Crawl.CrawlListingsAppend | code/crawling/farfetch.py:186-208 | The outer loop keeps listing order; the second run of listings continues the visit count. |
| Crawl.CrawlOne | code/crawling/farfetch.py:189-208 | A single listing yields exactly the items of its own visit. |
| Crawl.FailedListingIsSkipped | code/crawling/farfetch.py:206-208 | A raising listing yields nothing and the listings around it are unaffected. |
| Crawl.GoodListingContributes | code/crawling/farfetch.py:189-204 | An answering listing contributes its per-size items in its place. |
| Crawl.RevisitIsFresh | code/crawling/farfetch.py:186-190 | A listing that appears twice is visited twice: a first visit that raises does not keep the second, answering visit from contributing its items. |
| Crawl.AllCompleted | code/crawling/farfetch.py:186-208 | The number of listings whose visit answers equals the number of listings exactly when every visit answers. |
| Crawl.VisitListings | code/crawling/farfetch.py:186-215 | The `for` loop yields the items of the recursive definition. It pauses once per listing that answered, skipping the pause after a failed one, so it pauses after every listing exactly when none failed; pause j is the j-th drawn pause, 8 to 15 s or 3 to 6 s. |
| Crawl.SiteVisit | code/crawling/farfetch.py:76-77 | A visit answers exactly when the site holds its page and `get_product_price_by_size` gets through that page, and then answers the page's result; a visit the site does not hold raises on navigation. |
| Crawl.CrawlAll | code/crawling/farfetch.py:176-217 | No card shown fails the crawl. A catalog that shows cards is still scrolling exactly when it never stalls, and is crawled otherwise. A crawl visits exactly `len(products[:limit])` listings (at most `limit` for `limit >= 0`, never more than were found) and yields the outer loop's items over them, each from one of those references. `limit` defaults to 20. |
| Crawl.BeyondLimitIgnored | code/crawling/farfetch.py:184 | Detail pages of listings past the limit do not influence the output. |
| Crawl.FirstListingsDecide | code/crawling/farfetch.py:184-190 | Visits of listings past `products[:limit]` do not change the items of the chosen listings. |
| Crawl.SameVisitsSameItems | code/crawling/farfetch.py:186-208 | The output depends only on what each listing's detail page answers. |
| Storage.RowRoundTrip | code/db.py:19-27 | A row keeps brand, name, size, price, note and URL, sets `source` to the argument, and loses only the images. |
| Storage.RowOfInjective | code/db.py:19-27 | Items with equal rows differ at most in their images. |
| Storage.SaveProducts | code/db.py:5-31 | An empty batch is answered with no data and count 0. Otherwise one row per item goes to `products`, in item order, each with `source` and the item's fields. `source` defaults to "". |
| RefCrawler.SafeGetText | crawling/base_ref.py:51-57 | The stripped text when the element exists, "Unknown" when it does not; a raising read escapes. |
| RefCrawler.SafeGetAttribute | crawling/base_ref.py:59-64 | `None` when the element is absent; otherwise the attribute's value, present exactly when the element has it. |
| RefCrawler.RefUrl | crawling/farfetch_ref.py:108-109 | The URL is empty exactly when the href is missing or empty. Any other URL starts with "http", and an absolute href is kept unchanged. |
| RefCrawler.RefUrlIdempotent | crawling/farfetch_ref.py:109 | Building the URL from a built URL changes nothing. |
| RefCrawler.VariantsAgreeOnRelative | crawling/farfetch_ref.py:109 | On relative, empty or missing hrefs both variants build the same URL. |
| RefCrawler.VariantsDifferOnAbsolute | crawling/farfetch_ref.py:109 | On an absolute href the earlier variant keeps it while the current one prefixes the origin. |
| RefCrawler.ParseProductCard | crawling/farfetch_ref.py:104-127 | A card yields a product exactly when no read raises, even without a link; the URL follows the earlier rule, and brand, name and price are the stripped texts of the brand, name and price elements ("Unknown" when one is absent). |
| RefCrawler.ParseCards | crawling/farfetch_ref.py:37-40 | There are never more products than cards, and the counts are equal exactly when every card parses. |
| RefCrawler.ParseCardsAppend | crawling/farfetch_ref.py:37-40 | The card loop keeps card order. |
| RefCrawler.ParseOneCard | crawling/farfetch_ref.py:38-40 | One card contributes its product, or nothing when it raised. |
| RefCrawler.ListingProducts | crawling/farfetch_ref.py:56-75 | An unreachable page or no card within the wait yields no products. Otherwise the products are the parsed first `max_items` cards in card order, one per card when none of those raises; never more than `max_items` or than the cards present. |
| RefCrawler.LaterCardsIgnored | crawling/farfetch_ref.py:65 | On any site, cards appended past `max_items` do not influence the listing. |
| RefCrawler.SearchUrl | crawling/farfetch_ref.py:28 | The search URL starts with the origin and ends with the query as given. |
| RefCrawler.SearchProducts | crawling/farfetch_ref.py:22-47 | No products when the search page cannot be opened or no card appears within the wait; otherwise the parsed first `max_items` cards, one per card when none raises, never more than `max_items`. `max_items` defaults to 20. |
| RefCrawler.CategoryProducts | crawling/farfetch_ref.py:49-75 | No products when the category page cannot be opened or no card appears within the wait; otherwise the parsed first `max_items` cards, one per card when none raises, never more than `max_items`. `max_items` defaults to 20. |
| RefCrawler.ProductDetail | crawling/farfetch_ref.py:77-102 | A product exactly when the page opens and no read raises; its URL is the one opened, brand, name and price are the stripped texts of the page's elements ("Unknown" when one is absent), and the image URL is the image's `src`. |
| RefCrawler.DetailReadsLikeCard | crawling/farfetch_ref.py:77-127 | A detail page is read as a card with the same brand, name, price and image is: both give a product or neither does, and the products differ only in the URL. |
| RefCrawler.ScrollFixed | crawling/base_ref.py:45-49 | Exactly `scroll_count` steps (none for a count of zero or less), each followed by a one-second wait; `scroll_count` defaults to 3. |

## Left out

- Browser lifecycle, page creation and the random user agent (`__aenter__`, `__aexit__`, `_create_page`) are foreign I/O.
- The language-switch clicks (`code/crawling/farfetch.py:26-36`) drive the UI, and their errors are swallowed.
- The waits of the current crawler are left out, except that the pauses between listings are returned by `Crawl.VisitListings`; the earlier variant's one-second scroll waits are counted by `RefCrawler.ScrollFixed`. `random.uniform` float delays are left out. `random_delay` is taken to return an integer within its bounds; `crawling/utils` is not part of this model.
- The Supabase insert and its response (`code/db.py:31`) and the `config` import are a foreign network call. The model stops at the insert request.
- `main`, `print` and `sys.stdout.reconfigure` are logging only.
- The short files `crawling/base.py` and `crawling/farfetch.py` hold only browser setup.
- Scrolling.ScrollPage: `window.scrollY + window.innerHeight` may be fractional in a browser; positions and heights are integers here. The `while True` loop runs over a finite list of passes, and a list that ends without a stall reads as "still scrolling".
- Cards.ProductUrls: a failing `page.goto` on the catalog and a failing `query_selector_all` are not separate outcomes. The `page.evaluate` calls of the scroll loop (`code/crawling/base.py:61`, `:66`, `:72` and `:73`) are taken to answer; in the code a raising one escapes `get_product_urls` and `crawl_all`. Only the card wait timing out is modelled as a failure.
- SizePrices.IsPriceChar: `\d` is modelled as the ASCII digits 0-9. Python's `re` also matches other Unicode decimal digits.
- SizePrices.ResolvePage: a failing `page.goto` and the options queries (`code/crawling/farfetch.py:100` and `:110`) are folded into the page's flags (`sizeLabelShown`, `optionsShown`, `reopened`). The image query (`:84`) and the footnote query (`:157`) have no flag of their own: they are taken to answer, and a raise there would give the same `Raised` as a raising read of one of their elements. Poll reads past the supplied snapshots see the settled price block.
- Crawl.VisitListings: `random.random()` and `random_delay` are read from a supplied list of draws, with at least one entry per listing; pause j uses entry j.
- Crawl.CrawlAll: a visit not in the site map raises on navigation. The pauses are not part of its result; `Crawl.VisitListings` models the same loop with them.
- RefCrawler.ListingProducts: an exception from `_scroll_page` or `query_selector_all` is not modelled separately from the card wait. The scroll does not change which cards are read.
