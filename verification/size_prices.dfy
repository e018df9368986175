/**
 The detail page of the current crawler (`FarfetchCrawler.get_product_price_by_size`):
 collect the product images once, open the size dropdown, and for every
 size option select it, wait for the displayed price to change, and read
 the size, the final price and the notes.
 */
module SizePrices {
  import opened Dom
  import Text

  /** Only images served from this host are product images. */
  const ImageHost := "farfetch-contents.com"

  /** The change detection re-reads the price at most this many times. */
  const MaxPolls := 6

  const NoteSeparator := ", "

  /**
   The price block as one read sees it: the inner text of its PriceFinal
   (discounted) element and of its Body (regular price) element, `Got(None)`
   for an element that is not there.
   */
  datatype Callout = Callout(priceFinal: Fetch<Option<string>>, body: Fetch<Option<string>>)

  /**
   Everything the page answers while option `i` is handled.
   - `reopened`: for every option after the first, the dropdown is found
     again, the click and the wait for the options succeed and option `i`
     is still in the re-queried list; when false, that step raises.
   - `clicked`: the click on option `i` succeeds; when false, it raises.
   - `size`, `optionLabel`: inner texts of the option's size and label elements.
   - `before`: the price block just before the option is clicked.
   - `polls`: the price block as successive polls read it; polls past the
     end of this list see `after`.
   - `after`: the price block the final price is read from.
   - `footnotes`: the inner texts of the price block's footnote elements.
   */
  datatype OptionVisit = OptionVisit(
    reopened: bool,
    clicked: bool,
    size: Fetch<Option<string>>,
    optionLabel: Fetch<Option<string>>,
    before: Callout,
    polls: seq<Callout>,
    after: Callout,
    footnotes: seq<Fetch<string>>)

  /**
   A detail page.
   - `sizeLabelShown`: the size selector appears within the 10 s wait
     (otherwise the wait raises).
   - `imageSources`: the `src` attribute of every image element, in document order.
   - `dropdown`: the size selector is still found after the images are read.
   - `optionsShown`: after the first click the options appear within the 5 s wait.
   - `options`: one visit per option found, in index order.
   */
  datatype DetailPage = DetailPage(
    sizeLabelShown: bool,
    imageSources: seq<Fetch<Option<string>>>,
    dropdown: bool,
    optionsShown: bool,
    options: seq<OptionVisit>)

  /** The price and note of one size. */
  datatype SizeQuote = SizeQuote(size: string, price: string, note: string)

  /** What a detail page yields: the per-size quotes and the images they share. */
  datatype DetailResult = DetailResult(sizes: seq<SizeQuote>, images: seq<string>)

  // ---------------------------------------------------------------- images

  /** `src and 'farfetch-contents.com' in src`. */
  predicate IsProductImage(src: Option<string>) {
    Truthy(src) && Text.Contains(src.value, ImageHost)
  }

  /**
   The image loop: exactly the `src` values served from the image host, in
   document order; an attribute read that raises abandons the page.
   */
  function CollectImages(sources: seq<Fetch<Option<string>>>): (r: Fetch<seq<string>>)
    ensures r.Got? <==> forall j :: 0 <= j < |sources| ==> sources[j].Got?
    ensures r.Got? ==> |r.value| <= |sources|
    ensures r.Got? ==> forall k :: 0 <= k < |r.value| ==> Text.Contains(r.value[k], ImageHost)
  {
    if sources == [] then Got([])
    else match sources[0]
      case Raised => Raised
      case Got(src) =>
        match CollectImages(sources[1..])
        case Raised => Raised
        case Got(rest) => Got(if IsProductImage(src) then [src.value] + rest else rest)
  }

  /** A single element contributes its `src` exactly when it is a product image. */
  lemma CollectImage(src: Option<string>)
    ensures IsProductImage(src) ==> CollectImages([Got(src)]) == Got([src.value])
    ensures !IsProductImage(src) ==> CollectImages([Got(src)]) == Got([])
  {
    var one: seq<Fetch<Option<string>>> := [Got(src)];
    assert one[0] == Got(src);
    assert one[1..] == [];
    assert CollectImages(one[1..]) == Got([]);
    if src.Some? {
      assert [src.value] + [] == [src.value];
    }
  }

  /** Collecting over two runs of elements is collecting over each in turn: document order is kept. */
  lemma {:induction false} CollectImagesAppend(a: seq<Fetch<Option<string>>>, b: seq<Fetch<Option<string>>>)
    requires CollectImages(a).Got? && CollectImages(b).Got?
    ensures CollectImages(a + b) == Got(CollectImages(a).value + CollectImages(b).value)
  {
    if a == [] {
      assert a + b == b;
      assert [] + CollectImages(b).value == CollectImages(b).value;
    } else {
      assert (a + b)[0] == a[0];
      assert (a + b)[1..] == a[1..] + b;
      assert CollectImages(a[1..]).Got?;
      CollectImagesAppend(a[1..], b);
      var head := if IsProductImage(a[0].value) then [a[0].value.value] else [];
      assert head + CollectImages(a[1..]).value + CollectImages(b).value
          == head + (CollectImages(a[1..]).value + CollectImages(b).value);
    }
  }

  // ---------------------------------------------------------------- prices

  /**
   The price element a read picks: PriceFinal when there is one, otherwise
   Body; `Got(None)` when neither exists. Body is not queried when
   PriceFinal is found.
   */
  function ShownPrice(c: Callout): Fetch<Option<string>> {
    match c.priceFinal
    case Raised => Raised
    case Got(None) => c.body
    case Got(Some(t)) => Got(Some(t))
  }

  /** `price_elem.inner_text() if price_elem else ""`: the raw text the change detection compares. */
  function ComparedPrice(c: Callout): Fetch<string> {
    match ShownPrice(c)
    case Raised => Raised
    case Got(None) => Got("")
    case Got(Some(t)) => Got(t)
  }

  /**
   The final price: the discounted price when shown, else the regular
   price, cleaned of surrounding whitespace and no-break spaces; "Unknown"
   when neither element exists.
   */
  function FinalPrice(c: Callout): (r: Fetch<string>)
    ensures c.priceFinal.Got? && c.priceFinal.value.Some? ==> r == Got(Text.Normalize(c.priceFinal.value.value))
    ensures c.priceFinal == Got(None) && c.body.Got? && c.body.value.Some? ==> r == Got(Text.Normalize(c.body.value.value))
    ensures c.priceFinal == Got(None) && c.body == Got(None) ==> r == Got(Unknown)
    ensures r.Raised? <==> c.priceFinal.Raised? || (c.priceFinal == Got(None) && c.body.Raised?)
    ensures r.Got? ==> Text.NoBreakSpace !in r.value && Text.IsStripped(r.value)
  {
    match ShownPrice(c)
    case Raised => Raised
    case Got(None) => Got(Unknown)
    case Got(Some(t)) => Got(Text.Normalize(t))
  }

  // ---------------------------------------------------------------- polling

  /** How the change detection ended: after how many reads, and whether the last one differed. */
  datatype PollOutcome = PollOutcome(attempts: nat, changed: bool)

  /** Reads `from` up to `to` all saw the baseline text. */
  predicate UnchangedBetween(baseline: string, texts: seq<Fetch<string>>, from: nat, to: nat)
    requires from <= to <= |texts|
  {
    forall j :: from <= j < to ==> texts[j] == Got(baseline)
  }

  /**
   The polling loop from attempt `k` on: stop at the first read whose text
   differs from the baseline; after `MaxPolls` equal reads stop without
   complaint. A read that raises escapes.
   */
  function PollFrom(baseline: string, texts: seq<Fetch<string>>, k: nat): (r: Fetch<PollOutcome>)
    requires k <= MaxPolls <= |texts|
    ensures r.Got? ==> k <= r.value.attempts <= MaxPolls
    decreases MaxPolls - k
  {
    if k == MaxPolls then Got(PollOutcome(MaxPolls, false))
    else match texts[k]
      case Raised => Raised
      case Got(t) =>
        if t != baseline then Got(PollOutcome(k + 1, true))
        else PollFrom(baseline, texts, k + 1)
  }

  /**
   How polling from attempt `k` ends: a change is reported at the first
   read that differs, after only baseline reads; no change means six
   baseline reads; an exception comes from a read reached after only
   baseline reads.
   */
  lemma {:induction false} PollEnds(baseline: string, texts: seq<Fetch<string>>, k: nat)
    requires k <= MaxPolls <= |texts|
    ensures var r := PollFrom(baseline, texts, k);
      && (r.Got? && r.value.changed ==>
            && k < r.value.attempts
            && texts[r.value.attempts - 1].Got? && texts[r.value.attempts - 1].value != baseline
            && UnchangedBetween(baseline, texts, k, r.value.attempts - 1))
      && (r.Got? && !r.value.changed ==>
            r.value.attempts == MaxPolls && UnchangedBetween(baseline, texts, k, MaxPolls))
      && (r.Raised? ==>
            exists j :: k <= j < MaxPolls && texts[j].Raised? && UnchangedBetween(baseline, texts, k, j))
    decreases MaxPolls - k
  {
    if k < MaxPolls {
      if texts[k].Raised? {
        assert UnchangedBetween(baseline, texts, k, k);
      } else if texts[k].value == baseline {
        PollEnds(baseline, texts, k + 1);
      }
    }
  }

  /** The whole loop: `for _ in range(6)` starting from the first read. */
  function Poll(baseline: string, texts: seq<Fetch<string>>): Fetch<PollOutcome>
    requires MaxPolls <= |texts|
  {
    PollFrom(baseline, texts, 0)
  }

  /**
   Conversely, when the first `j` reads equal the baseline and read `j`
   differs, polling stops right there after `j + 1` reads.
   */
  lemma {:induction false} PollStopsAtFirstChange(baseline: string, texts: seq<Fetch<string>>, k: nat, j: nat)
    requires k <= j < MaxPolls <= |texts|
    requires UnchangedBetween(baseline, texts, k, j)
    requires texts[j].Got? && texts[j].value != baseline
    ensures PollFrom(baseline, texts, k) == Got(PollOutcome(j + 1, true))
    decreases j - k
  {
    if k < j {
      PollStopsAtFirstChange(baseline, texts, k + 1, j);
    }
  }

  /** A price that never changes within the budget ends the loop after six reads, without an error. */
  lemma {:induction false} PollGivesUp(baseline: string, texts: seq<Fetch<string>>, k: nat)
    requires k <= MaxPolls <= |texts|
    requires UnchangedBetween(baseline, texts, k, MaxPolls)
    ensures PollFrom(baseline, texts, k) == Got(PollOutcome(MaxPolls, false))
    decreases MaxPolls - k
  {
    if k < MaxPolls {
      PollGivesUp(baseline, texts, k + 1);
    }
  }

  /**
   The polling loop as the source writes it, `for _ in range(6)` with a
   `break` on the first changed read: it ends exactly as the recursive
   definition says, after at least one and at most six reads.
   */
  method PollPrice(baseline: string, texts: seq<Fetch<string>>) returns (r: Fetch<PollOutcome>)
    requires MaxPolls <= |texts|
    ensures r == Poll(baseline, texts)
    ensures r.Got? ==> 1 <= r.value.attempts <= MaxPolls
  {
    var k := 0;
    while k < MaxPolls
      invariant k <= MaxPolls
      invariant PollFrom(baseline, texts, k) == Poll(baseline, texts)
    {
      if texts[k].Raised? {
        return Raised;
      }
      if texts[k].value != baseline {
        return Got(PollOutcome(k + 1, true));
      }
      k := k + 1;
    }
    return Got(PollOutcome(MaxPolls, false));
  }

  /** The text poll `k` compares: from the supplied snapshots, then from the settled block. */
  function PollRead(v: OptionVisit, k: nat): Fetch<string> {
    ComparedPrice(if k < |v.polls| then v.polls[k] else v.after)
  }

  function PollTexts(v: OptionVisit): (texts: seq<Fetch<string>>)
    ensures |texts| == MaxPolls
  {
    seq(MaxPolls, k requires 0 <= k => PollRead(v, k))
  }

  // ---------------------------------------------------------------- notes

  /** One character of the class `[\d₩$€£%,.\-\s]`. */
  predicate IsPriceChar(c: char) {
    || ('0' <= c <= '9')
    || c == '\U{20A9}'
    || c == '$'
    || c == '\U{20AC}'
    || c == '\U{A3}'
    || c == '%'
    || c == ','
    || c == '.'
    || c == '-'
    || Text.IsSpace(c)
  }

  /** `re.match(r'^[\d₩$€£%,.\-\s]+$', s)`: one or more price characters and nothing else. */
  predicate IsPriceLike(s: string) {
    |s| > 0 && forall i :: 0 <= i < |s| ==> IsPriceChar(s[i])
  }

  /** A cleaned footnote survives when it is non-empty and not mere price text. */
  predicate KeepFootnote(cleaned: string) {
    cleaned != "" && !IsPriceLike(cleaned)
  }

  /** The footnote loop: each footnote cleaned, the survivors in page order. */
  function SurvivingFootnotes(raw: seq<string>): (notes: seq<string>)
    ensures |notes| <= |raw|
    ensures forall k :: 0 <= k < |notes| ==> notes[k] != "" && !IsPriceLike(notes[k])
    ensures forall k :: 0 <= k < |notes| ==> Text.NoBreakSpace !in notes[k] && Text.IsStripped(notes[k])
  {
    if raw == [] then []
    else
      var rest := SurvivingFootnotes(raw[1..]);
      var f := Text.Normalize(raw[0]);
      if KeepFootnote(f) then [f] + rest else rest
  }

  /** Filtering two runs of footnotes is filtering each in turn: page order is kept. */
  lemma {:induction false} SurvivingFootnotesAppend(a: seq<string>, b: seq<string>)
    ensures SurvivingFootnotes(a + b) == SurvivingFootnotes(a) + SurvivingFootnotes(b)
  {
    if a == [] {
      assert a + b == b;
    } else {
      assert (a + b)[0] == a[0];
      assert (a + b)[1..] == a[1..] + b;
      SurvivingFootnotesAppend(a[1..], b);
    }
  }

  /** A single footnote survives, cleaned, exactly when the filter keeps it. */
  lemma SurvivingFootnote(f: string)
    ensures KeepFootnote(Text.Normalize(f)) ==> SurvivingFootnotes([f]) == [Text.Normalize(f)]
    ensures !KeepFootnote(Text.Normalize(f)) ==> SurvivingFootnotes([f]) == []
  {
    assert [f][1..] == [];
  }

  /** A footnote that is already clean is kept or dropped as it stands. */
  lemma CleanFootnote(f: string)
    requires Text.IsStripped(f) && Text.NoBreakSpace !in f
    ensures Text.Normalize(f) == f
  {
    Text.StripStripped(f);
    Text.ReplaceWithoutNoBreakSpace(f);
  }

  /** A won amount is price text and is dropped. */
  lemma WonAmountDropped()
    ensures SurvivingFootnotes(["\U{20A9} 1,000"]) == []
  {
    var f := "\U{20A9} 1,000";
    CleanFootnote(f);
    assert IsPriceLike(f);
    SurvivingFootnote(f);
  }

  /** A percentage is price text and is dropped. */
  lemma PercentageDropped()
    ensures SurvivingFootnotes(["-10%"]) == []
  {
    var f := "-10%";
    CleanFootnote(f);
    assert IsPriceLike(f);
    SurvivingFootnote(f);
  }

  /** A clean footnote that the filter keeps survives unchanged. */
  lemma KeptAsItStands(f: string)
    requires KeepFootnote(f) && Text.Normalize(f) == f
    ensures SurvivingFootnotes([f]) == [f]
  {
    var one: seq<string> := [f];
    assert one[1..] == [];
  }

  /** A customs note is not price text and is kept. */
  lemma CustomsNoteKept()
    ensures SurvivingFootnotes(["Customs included"]) == ["Customs included"]
  {
    var f: string := "Customs included";
    assert KeepFootnote(f) by {
      assert !IsPriceChar(f[0]);
    }
    CleanFootnote(f);
    KeptAsItStands(f);
  }

  /**
   The size a quote shows for the option's size text: that text cleaned,
   or "Unknown" when the option has no size element.
   */
  predicate SizeRead(size: string, read: Option<string>) {
    if read.Some? then size == Text.Normalize(read.value) else size == Unknown
  }

  /** The option label is present and not blank, so it opens the notes. */
  predicate LabelNoted(optionLabel: Option<string>) {
    optionLabel.Some? && Text.Strip(optionLabel.value) != ""
  }

  /** The option label, when it is not blank, followed by the surviving footnotes. */
  function Notes(optionLabel: Option<string>, footnotes: seq<string>): (notes: seq<string>)
    ensures forall k :: 0 <= k < |notes| ==> notes[k] != ""
    ensures !LabelNoted(optionLabel) ==> notes == SurvivingFootnotes(footnotes)
    ensures LabelNoted(optionLabel) ==>
      |notes| == 1 + |SurvivingFootnotes(footnotes)| && notes[0] == Text.Normalize(optionLabel.value)
      && notes[1..] == SurvivingFootnotes(footnotes)
  {
    if LabelNoted(optionLabel) then
      [Text.Normalize(optionLabel.value)] + SurvivingFootnotes(footnotes)
    else
      SurvivingFootnotes(footnotes)
  }

  /**
   The note the detail page yields: the cleaned label when it is noted, then the
   surviving footnotes in page order, all joined by ", ".
   */
  predicate NoteAssembled(note: string, optionLabel: Option<string>, survivors: seq<string>) {
    if !LabelNoted(optionLabel) then note == Text.Join(survivors, NoteSeparator)
    else if survivors == [] then note == Text.Normalize(optionLabel.value)
    else note == Text.Normalize(optionLabel.value) + NoteSeparator + Text.Join(survivors, NoteSeparator)
  }

  /** Joining the notes with ", " gives the note the detail page yields. */
  lemma JoinedNotes(optionLabel: Option<string>, footnotes: seq<string>)
    ensures NoteAssembled(Text.Join(Notes(optionLabel, footnotes), NoteSeparator), optionLabel, SurvivingFootnotes(footnotes))
  {
    var notes := Notes(optionLabel, footnotes);
    var survivors := SurvivingFootnotes(footnotes);
    if LabelNoted(optionLabel) && survivors != [] {
      assert notes == [notes[0]] + survivors;
      Text.JoinCons(notes[0], survivors, NoteSeparator);
    }
  }

  /** The size text of an option cleaned, with "Unknown" for a missing size element, is what a quote shows. */
  lemma CleanedSize(read: Option<string>)
    ensures SizeRead(Text.Normalize(TextOrUnknown(read)), read)
  {
    if read.None? {
      CleanFootnote(Unknown);
    }
  }

  /**
   The note of an option with a non-blank label whose footnotes are price
   text and then a remark the filter keeps: the cleaned label, ", ", and the
   remark. The price text is left out.
   */
  lemma NoteOfLabelAndFootnotes(caption: string, price: string, remark: string)
    requires Text.Strip(caption) != ""
    requires SurvivingFootnotes([price]) == []
    requires KeepFootnote(remark) && Text.Normalize(remark) == remark
    ensures Text.Join(Notes(Some(caption), [price, remark]), NoteSeparator) == Text.Normalize(caption) + NoteSeparator + remark
  {
    assert [price, remark] == [price] + [remark];
    SurvivingFootnotesAppend([price], [remark]);
    KeptAsItStands(remark);
    var notes := Notes(Some(caption), [price, remark]);
    assert notes == [Text.Normalize(caption)] + [remark];
    Text.JoinCons(Text.Normalize(caption), [remark], NoteSeparator);
  }

  // ---------------------------------------------------------------- one option

  /**
   No step of option `i` raises: re-opening the dropdown (after the first
   option), reading the size and label, the baseline price, the click on
   the option, every poll the loop makes, the final price and every footnote.
   */
  predicate OptionCompletes(i: nat, v: OptionVisit) {
    && (i == 0 || v.reopened)
    && v.clicked
    && v.size.Got? && v.optionLabel.Got?
    && ComparedPrice(v.before).Got?
    && Poll(ComparedPrice(v.before).value, PollTexts(v)).Got?
    && FinalPrice(v.after).Got?
    && forall j :: 0 <= j < |v.footnotes| ==> v.footnotes[j].Got?
  }

  /**
   One iteration of the option loop for option `i`. Any step that raises
   abandons the whole detail page. The price is the settled block's, not a
   polled one; the note is empty exactly when there is no label to note and
   no footnote survives.
   */
  function ResolveOption(i: nat, v: OptionVisit): (r: Fetch<SizeQuote>)
    ensures r.Got? <==> OptionCompletes(i, v)
    ensures r.Got? ==> r.value.price == FinalPrice(v.after).value
    ensures r.Got? ==> Text.NoBreakSpace !in r.value.size && Text.IsStripped(r.value.size)
    ensures r.Got? ==>
      (r.value.note == "" <==> !LabelNoted(v.optionLabel.value) && SurvivingFootnotes(AllGot(v.footnotes).value) == [])
    ensures r.Got? ==> SizeRead(r.value.size, v.size.value)
    ensures r.Got? ==> NoteAssembled(r.value.note, v.optionLabel.value, SurvivingFootnotes(AllGot(v.footnotes).value))
  {
    if OptionCompletes(i, v) then Got(Quote(v)) else Raised
  }

  /**
   The quote of an option whose steps all answered. Size and price hold no
   no-break space and no surrounding whitespace. A noted label leads the
   note, and the note is empty exactly when nothing was noted.
   */
  function Quote(v: OptionVisit): (q: SizeQuote)
    requires v.size.Got? && v.optionLabel.Got? && FinalPrice(v.after).Got?
    requires forall j :: 0 <= j < |v.footnotes| ==> v.footnotes[j].Got?
    ensures Text.NoBreakSpace !in q.size && Text.IsStripped(q.size)
    ensures Text.NoBreakSpace !in q.price && Text.IsStripped(q.price)
    ensures LabelNoted(v.optionLabel.value) ==> Text.StartsWith(q.note, Text.Normalize(v.optionLabel.value.value))
    ensures q.note == "" <==> !LabelNoted(v.optionLabel.value) && SurvivingFootnotes(AllGot(v.footnotes).value) == []
    ensures SizeRead(q.size, v.size.value)
    ensures q.price == FinalPrice(v.after).value
    ensures NoteAssembled(q.note, v.optionLabel.value, SurvivingFootnotes(AllGot(v.footnotes).value))
  {
    var size := Text.Normalize(TextOrUnknown(v.size.value));
    var notes := Notes(v.optionLabel.value, AllGot(v.footnotes).value);
    CleanedSize(v.size.value);
    JoinedNotes(v.optionLabel.value, AllGot(v.footnotes).value);
    SizeQuote(size, FinalPrice(v.after).value, Text.Join(notes, NoteSeparator))
  }

  /**
   The baseline and the polls only decide how long the crawler waits and
   whether a read raises; two completed visits that differ only there give
   the same quote.
   */
  lemma ChangeDetectionOnlyWaits(i: nat, v: OptionVisit, before: Callout, polls: seq<Callout>)
    requires OptionCompletes(i, v)
    requires OptionCompletes(i, v.(before := before, polls := polls))
    ensures ResolveOption(i, v) == ResolveOption(i, v.(before := before, polls := polls))
  {
  }

  /**
   The option loop: one quote per option, in index order, or `Raised` as
   soon as one option raises.
   */
  function ResolveOptions(options: seq<OptionVisit>): (r: Fetch<seq<SizeQuote>>)
    ensures r.Got? <==> forall j :: 0 <= j < |options| ==> OptionCompletes(j, options[j])
    ensures r.Got? ==> |r.value| == |options|
  {
    // entry j is ResolveOption(j, options[j]), written out
    var calls := seq(|options|, j requires 0 <= j < |options| =>
      if OptionCompletes(j, options[j]) then Got(Quote(options[j])) else Raised);
    assert forall j :: 0 <= j < |options| ==> (calls[j].Got? <==> OptionCompletes(j, options[j]));
    AllGot(calls)
  }

  // ---------------------------------------------------------------- the page

  /**
   The whole detail page. The size selector's wait raising, an image read
   raising, the options' wait raising or any option raising abandons the
   page; a selector gone after the images are read yields no sizes but
   still the images.
   */
  function ResolvePage(p: DetailPage): (r: Fetch<DetailResult>)
    ensures !p.sizeLabelShown ==> r.Raised?
    ensures r.Got? ==> CollectImages(p.imageSources) == Got(r.value.images)
    ensures r.Got? && !p.dropdown ==> r.value.sizes == []
    ensures r.Got? && p.dropdown ==> |r.value.sizes| == |p.options|
    ensures r.Got? && p.dropdown ==>
      forall j :: 0 <= j < |p.options| ==> Got(r.value.sizes[j]) == ResolveOption(j, p.options[j])
    ensures r.Raised? <==>
      || !p.sizeLabelShown
      || CollectImages(p.imageSources).Raised?
      || (p.dropdown && !p.optionsShown)
      || (p.dropdown && exists j :: 0 <= j < |p.options| && ResolveOption(j, p.options[j]).Raised?)
  {
    if !p.sizeLabelShown then Raised
    else match CollectImages(p.imageSources)
      case Raised => Raised
      case Got(images) =>
        if !p.dropdown then Got(DetailResult([], images))
        else if !p.optionsShown then Raised
        else match ResolveOptions(p.options)
          case Raised => Raised
          case Got(sizes) => Got(DetailResult(sizes, images))
  }
}
