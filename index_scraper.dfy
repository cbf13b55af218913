/**
 * `extract_ads_index` of scrapers.py: the index.hr listing is read page after
 * page; a listing card dated today (long form) leads to its detail page, whose
 * "Objavljen:" date (short form) must be today too. Paging ends after the
 * first page without any card dated today.
 */
module IndexScraper {
  import opened Wrappers
  import opened Text
  import opened Ads
  import opened Pages

  /** The summary block of a listing card, with the text of its date span if it has one. */
  datatype Summary = Summary(dateSpan: Option<string>)

  /** A listing card: its summary block and its `title` and `href` attributes, each possibly missing. */
  datatype Card = Card(summary: Option<Summary>, titleAttr: Option<string>, hrefAttr: Option<string>)

  /**
   * A detail page: the texts of its single-text spans in document order, the
   * price and price-per-m2 spans, the location (`None` without a "Lokacija"
   * label, `Some(None)` when the label has no following div) and the spec
   * blocks as label/value pairs.
   */
  datatype Detail = Detail(spans: seq<string>, price: Option<string>, pricePerM2: Option<string>,
                           location: Option<Option<string>>, specs: seq<Labelled>)

  const Marker := "Objavljen:"
  const Site := "https://www.index.hr"

  /** The list-level test: the card's date span reads exactly today's long date. */
  predicate ListedToday(card: Card, todayFull: string) {
    card.summary.Some? && card.summary.value.dateSpan == Some(todayFull)
  }

  /** `daily_ads_found` after a page: the number of cards listed today. */
  function Found(cards: seq<Card>, todayFull: string): nat {
    if cards == [] then 0
    else Found(cards[..|cards| - 1], todayFull) + (if ListedToday(cards[|cards| - 1], todayFull) then 1 else 0)
  }

  function Href(card: Card): string {
    Site + card.hrefAttr.GetOr("")
  }

  function Title(card: Card): string {
    Strip(card.titleAttr.GetOr(""))
  }

  /** The first span whose text holds the "Objavljen:" marker. */
  function PublishedSpan(spans: seq<string>): (r: Option<string>)
    ensures r.Some? ==> Contains(r.value, Marker)
    ensures r.None? <==> forall k :: 0 <= k < |spans| ==> !Contains(spans[k], Marker)
    ensures r.Some? ==> exists i ::
      && 0 <= i < |spans| && spans[i] == r.value
      && forall k :: 0 <= k < i ==> !Contains(spans[k], Marker)
  {
    if spans == [] then None
    else if Contains(spans[0], Marker) then Some(spans[0])
    else
      var r := PublishedSpan(spans[1..]);
      assert forall k :: 1 <= k < |spans| ==> spans[k] == spans[1..][k - 1];
      if r.Some? then
        var i :| 0 <= i < |spans[1..]| && spans[1..][i] == r.value
                 && forall k :: 0 <= k < i ==> !Contains(spans[1..][k], Marker);
        assert spans[i + 1] == r.value;
        r
      else r
  }

  /**
   * The publication date of a detail page: the text after the first marker,
   * stripped, up to its first space, with surrounding dots removed.
   */
  function PublishedDate(text: string): string
    requires Contains(text, Marker)
  {
    StripChar(FirstWord(AfterMarker(text)), '.')
  }

  /** The text between the first marker and the next one (or the end). */
  function AfterMarker(text: string): string
    requires Contains(text, Marker)
  {
    SplitOnPresent(text, Marker);
    Split(text, Marker)[1]
  }

  /** The stripped text up to its first space. */
  function FirstWord(s: string): string {
    Split(Strip(s), " ")[0]
  }

  function LocationText(location: Option<Option<string>>): string {
    match location
    case None => "N/A"
    case Some(div) => div.GetOr("N/A")
  }

  /** The keys of a record, the dictionary the scraper appends per accepted ad. */
  const RecordKeys: set<string> :=
    {"title", "href", "price", "price_per_m2", "number_of_rooms", "year_built", "area", "location", "date_posted"}

  /** The value an accepted ad's record holds under `key`. */
  function Field(key: string, card: Card, page: Detail, published: string): string {
    if key == "title" then Title(card)
    else if key == "href" then Href(card)
    else if key == "price" then page.price.GetOr("N/A")
    else if key == "price_per_m2" then page.pricePerM2.GetOr("N/A")
    else if key == "number_of_rooms" then LastValue(page.specs, "Broj soba")
    else if key == "year_built" then LastValue(page.specs, "Godina izgradnje")
    else if key == "area" then LastValue(page.specs, "Stambena površina")
    else if key == "location" then LocationText(page.location)
    else published
  }

  /** The record built for an accepted ad. */
  function Record(card: Card, page: Detail, published: string): Ad {
    map key | key in RecordKeys :: Field(key, card, page, published)
  }

  /** The record is the dictionary literal the scraper appends. */
  lemma RecordLiteral(card: Card, page: Detail, published: string)
    ensures Record(card, page, published)
         == map["title" := Title(card), "href" := Href(card), "price" := page.price.GetOr("N/A"),
                "price_per_m2" := page.pricePerM2.GetOr("N/A"),
                "number_of_rooms" := LastValue(page.specs, "Broj soba"),
                "year_built" := LastValue(page.specs, "Godina izgradnje"),
                "area" := LastValue(page.specs, "Stambena površina"),
                "location" := LocationText(page.location), "date_posted" := published]
  {
    var literal := map["title" := Title(card), "href" := Href(card), "price" := page.price.GetOr("N/A"),
                       "price_per_m2" := page.pricePerM2.GetOr("N/A"),
                       "number_of_rooms" := LastValue(page.specs, "Broj soba"),
                       "year_built" := LastValue(page.specs, "Godina izgradnje"),
                       "area" := LastValue(page.specs, "Stambena površina"),
                       "location" := LocationText(page.location), "date_posted" := published];
    var record := Record(card, page, published);
    assert literal.Keys == RecordKeys == record.Keys;
    forall key | key in RecordKeys
      ensures record[key] == literal[key]
    {
    }
  }

  /** The detail-level test and the record: `None` when the marker is missing or the date is not today. */
  function DetailAd(card: Card, page: Detail, todayShort: string): Option<Ad> {
    match PublishedSpan(page.spans)
    case None => None
    case Some(text) => if PublishedDate(text) != todayShort then None else Some(Record(card, page, text))
  }

  /** What one listing card contributes, given the detail page behind every link. */
  function CardAd(card: Card, detail: string -> Detail, todayFull: string, todayShort: string): Option<Ad> {
    if !ListedToday(card, todayFull) then None else DetailAd(card, detail(Href(card)), todayShort)
  }

  /** What each card of a page contributes. */
  function CardAds(cards: seq<Card>, detail: string -> Detail, todayFull: string, todayShort: string): seq<Option<Ad>> {
    seq(|cards|, i requires 0 <= i < |cards| => CardAd(cards[i], detail, todayFull, todayShort))
  }

  /** The ads a listing page contributes, in card order. */
  function PageAds(cards: seq<Card>, detail: string -> Detail, todayFull: string, todayShort: string): seq<Ad> {
    Present(CardAds(cards, detail, todayFull, todayShort))
  }

  lemma PageAdsSnoc(cards: seq<Card>, i: nat, detail: string -> Detail, todayFull: string, todayShort: string)
    requires i < |cards|
    ensures var next := CardAd(cards[i], detail, todayFull, todayShort);
      PageAds(cards[..i + 1], detail, todayFull, todayShort)
      == PageAds(cards[..i], detail, todayFull, todayShort) + (if next.Some? then [next.value] else [])
  {
    var next := CardAd(cards[i], detail, todayFull, todayShort);
    assert CardAds(cards[..i + 1], detail, todayFull, todayShort)
        == CardAds(cards[..i], detail, todayFull, todayShort) + [next];
    PresentSnoc(CardAds(cards[..i], detail, todayFull, todayShort), next);
  }

  function ListPage(pages: seq<seq<Card>>, n: nat): seq<Card> {
    PageAt(pages, n, [])
  }

  /** The ads collected from page `n` on: a page without a card listed today is the last one read. */
  function Run(pages: seq<seq<Card>>, detail: string -> Detail, todayFull: string, todayShort: string, n: nat): seq<Ad>
    decreases |pages| + 1 - n
  {
    var cards := ListPage(pages, n);
    PageAds(cards, detail, todayFull, todayShort)
      + (if Found(cards, todayFull) == 0 then [] else Run(pages, detail, todayFull, todayShort, n + 1))
  }

  /** The number of the page after which paging stops, looking from page `n` on. */
  function Stop(pages: seq<seq<Card>>, todayFull: string, n: nat): (last: nat)
    ensures n <= last
    decreases |pages| + 1 - n
  {
    if Found(ListPage(pages, n), todayFull) == 0 then n else Stop(pages, todayFull, n + 1)
  }

  /** The spec-block loop: the last block with each label wins, "N/A" otherwise. */
  method ReadSpecs(blocks: seq<Labelled>) returns (rooms: string, year: string, area: string)
    ensures rooms == LastValue(blocks, "Broj soba")
    ensures year == LastValue(blocks, "Godina izgradnje")
    ensures area == LastValue(blocks, "Stambena površina")
  {
    rooms, year, area := "N/A", "N/A", "N/A";
    for k := 0 to |blocks|
      invariant rooms == LastValue(blocks[..k], "Broj soba")
      invariant year == LastValue(blocks[..k], "Godina izgradnje")
      invariant area == LastValue(blocks[..k], "Stambena površina")
    {
      assert blocks[..k + 1][..k] == blocks[..k];
      var block := blocks[k];
      if block.caption.None? || block.value.None? {
        continue;
      }
      var labelText, valueText := block.caption.value, block.value.value;
      if labelText == "Broj soba" {
        rooms := valueText;
      } else if labelText == "Godina izgradnje" {
        year := valueText;
      } else if labelText == "Stambena površina" {
        area := valueText;
      }
    }
    assert blocks[..|blocks|] == blocks;
  }

  /** One listing page: `daily_ads_found` and the ads appended while its cards are read. */
  method ScanPage(cards: seq<Card>, detail: string -> Detail, todayFull: string, todayShort: string)
    returns (dailyAdsFound: nat, results: seq<Ad>)
    ensures dailyAdsFound == Found(cards, todayFull)
    ensures results == PageAds(cards, detail, todayFull, todayShort)
  {
    results := [];
    dailyAdsFound := 0;
    for i := 0 to |cards|
      invariant dailyAdsFound == Found(cards[..i], todayFull)
      invariant results == PageAds(cards[..i], detail, todayFull, todayShort)
    {
      assert cards[..i + 1][..i] == cards[..i];
      PageAdsSnoc(cards, i, detail, todayFull, todayShort);
      var a := cards[i];
      if a.summary.None? {
        continue;
      }
      var dateSpan := a.summary.value.dateSpan;
      if dateSpan.None? || dateSpan.value != todayFull {
        continue;
      }
      dailyAdsFound := dailyAdsFound + 1;
      var title := Strip(a.titleAttr.GetOr(""));
      var href := Site + a.hrefAttr.GetOr("");
      var adPage := detail(href);
      var publishedSpan := PublishedSpan(adPage.spans);
      if publishedSpan.None? {
        continue;
      }
      var publishedDate := PublishedDate(publishedSpan.value);
      if publishedDate != todayShort {
        continue;
      }
      var totalPrice := adPage.price.GetOr("N/A");
      var pricePerM2 := adPage.pricePerM2.GetOr("N/A");
      var location := "N/A";
      if adPage.location.Some? {
        location := adPage.location.value.GetOr("N/A");
      }
      var rooms, year, area := ReadSpecs(adPage.specs);
      RecordLiteral(a, adPage, publishedSpan.value);
      results := results + [map["title" := title, "href" := href, "price" := totalPrice,
                                 "price_per_m2" := pricePerM2, "number_of_rooms" := rooms,
                                 "year_built" := year, "area" := area, "location" := location,
                                 "date_posted" := publishedSpan.value]];
    }
    assert cards[..|cards|] == cards;
  }

  /** One page of the run: its ads, then the rest of the run unless it found nothing listed today. */
  lemma RunStep(prev: seq<Ad>, pages: seq<seq<Card>>, detail: string -> Detail, todayFull: string,
                todayShort: string, n: nat)
    ensures var cards := ListPage(pages, n);
      prev + Run(pages, detail, todayFull, todayShort, n)
      == prev + PageAds(cards, detail, todayFull, todayShort)
         + (if Found(cards, todayFull) == 0 then [] else Run(pages, detail, todayFull, todayShort, n + 1))
  {
  }

  /**
   * The scraper: the ads it returns and the page numbers it requests, in
   * order. `pages` are the rendered listing pages and `detail` the detail page
   * behind each link; the two "today" strings are the long and short forms of
   * the current date.
   */
  method ExtractAdsIndex(pages: seq<seq<Card>>, detail: string -> Detail, todayFull: string, todayShort: string)
    returns (results: seq<Ad>, requested: seq<nat>)
    ensures results == Run(pages, detail, todayFull, todayShort, 1)
    ensures requested == PagesUpTo(Stop(pages, todayFull, 1))
  {
    results := [];
    requested := [];
    var pageNum := 1;
    while true
      invariant 1 <= pageNum <= |pages| + 1
      invariant results + Run(pages, detail, todayFull, todayShort, pageNum) == Run(pages, detail, todayFull, todayShort, 1)
      invariant Stop(pages, todayFull, pageNum) == Stop(pages, todayFull, 1)
      invariant requested == PagesUpTo(pageNum - 1)
      decreases |pages| + 1 - pageNum
    {
      requested := requested + [pageNum];
      var cards := ListPage(pages, pageNum);
      var dailyAdsFound, pageAds := ScanPage(cards, detail, todayFull, todayShort);
      RunStep(results, pages, detail, todayFull, todayShort, pageNum);
      results := results + pageAds;
      PagesUpToNext(pageNum - 1);
      if dailyAdsFound == 0 {
        break;
      }
      pageNum := pageNum + 1;
    }
  }

  // ---------------------------------------------------------------- properties

  /** A page counts as finding something exactly when one of its cards is listed today. */
  lemma {:induction false} FoundIff(cards: seq<Card>, todayFull: string)
    ensures Found(cards, todayFull) > 0 <==> exists i :: 0 <= i < |cards| && ListedToday(cards[i], todayFull)
  {
    if cards != [] {
      var init := cards[..|cards| - 1];
      FoundIff(init, todayFull);
      if exists i :: 0 <= i < |init| && ListedToday(init[i], todayFull) {
        var i :| 0 <= i < |init| && ListedToday(init[i], todayFull);
        assert cards[i] == init[i];
      }
      if exists i :: 0 <= i < |cards| && ListedToday(cards[i], todayFull) {
        var i :| 0 <= i < |cards| && ListedToday(cards[i], todayFull);
        if i < |init| {
          assert init[i] == cards[i];
        }
      }
    }
  }

  /**
   * Paging from page `n` requests every page up to the stop page without a
   * gap: each page before it found a card listed today, the stop page found
   * none, and it lies at most one past the last rendered page.
   */
  lemma {:induction false} StopIsFirstQuietPage(pages: seq<seq<Card>>, todayFull: string, n: nat)
    requires n <= |pages| + 1
    ensures Found(ListPage(pages, Stop(pages, todayFull, n)), todayFull) == 0
    ensures forall k :: n <= k < Stop(pages, todayFull, n) ==> Found(ListPage(pages, k), todayFull) > 0
    ensures Stop(pages, todayFull, n) <= |pages| + 1
    decreases |pages| + 1 - n
  {
    if Found(ListPage(pages, n), todayFull) != 0 {
      assert n <= |pages|;
      StopIsFirstQuietPage(pages, todayFull, n + 1);
    }
  }

  /**
   * A card listed today keeps paging going even when its detail page is
   * rejected (no marker, or another date): whatever the detail pages say.
   */
  lemma ListedCardKeepsPaging(pages: seq<seq<Card>>, todayFull: string, n: nat, i: nat)
    requires 1 <= n <= |pages| && i < |pages[n - 1]| && ListedToday(pages[n - 1][i], todayFull)
    ensures Stop(pages, todayFull, n) > n
  {
    FoundIff(pages[n - 1], todayFull);
  }

  /** The ads of a page are exactly those of its accepted cards, at most one per card. */
  lemma PageAdsIff(cards: seq<Card>, detail: string -> Detail, todayFull: string, todayShort: string, ad: Ad)
    ensures ad in PageAds(cards, detail, todayFull, todayShort)
        <==> exists i :: 0 <= i < |cards| && CardAd(cards[i], detail, todayFull, todayShort) == Some(ad)
    ensures |PageAds(cards, detail, todayFull, todayShort)| <= |cards|
  {
    var xs := CardAds(cards, detail, todayFull, todayShort);
    PresentIff(xs, ad);
    if exists i :: 0 <= i < |xs| && xs[i] == Some(ad) {
      var i :| 0 <= i < |xs| && xs[i] == Some(ad);
      assert CardAd(cards[i], detail, todayFull, todayShort) == Some(ad);
    }
    if exists i :: 0 <= i < |cards| && CardAd(cards[i], detail, todayFull, todayShort) == Some(ad) {
      var i :| 0 <= i < |cards| && CardAd(cards[i], detail, todayFull, todayShort) == Some(ad);
      assert xs[i] == Some(ad);
    }
  }

  /**
   * An accepted card was listed with today's long date, its detail page has a
   * span with the marker whose normalised date is today's short date, and the
   * record keeps that span's whole text as `date_posted`.
   */
  lemma AcceptedCard(card: Card, detail: string -> Detail, todayFull: string, todayShort: string, ad: Ad)
    requires CardAd(card, detail, todayFull, todayShort) == Some(ad)
    ensures ListedToday(card, todayFull)
    ensures var span := PublishedSpan(detail(Href(card)).spans);
      span.Some? && PublishedDate(span.value) == todayShort && ad["date_posted"] == span.value
    ensures ad["title"] == Title(card) && ad["href"] == Href(card)
  {
  }

  /** Every ad of the run comes from an accepted card on a page between `n` and the stop page. */
  lemma {:induction false} RunAdsFromPages(pages: seq<seq<Card>>, detail: string -> Detail, todayFull: string,
                                           todayShort: string, n: nat, ad: Ad)
    requires ad in Run(pages, detail, todayFull, todayShort, n)
    ensures exists m, i ::
      && n <= m <= Stop(pages, todayFull, n) && 0 <= i < |ListPage(pages, m)|
      && CardAd(ListPage(pages, m)[i], detail, todayFull, todayShort) == Some(ad)
    decreases |pages| + 1 - n
  {
    var cards := ListPage(pages, n);
    PageAdsIff(cards, detail, todayFull, todayShort, ad);
    if ad !in PageAds(cards, detail, todayFull, todayShort) {
      assert Found(cards, todayFull) != 0;
      RunAdsFromPages(pages, detail, todayFull, todayShort, n + 1, ad);
    }
  }

  /** Conversely, every accepted card on a page between `n` and the stop page yields an ad of the run. */
  lemma {:induction false} RunKeepsAccepted(pages: seq<seq<Card>>, detail: string -> Detail, todayFull: string,
                                            todayShort: string, n: nat, m: nat, i: nat, ad: Ad)
    requires n <= m <= Stop(pages, todayFull, n) && i < |ListPage(pages, m)|
    requires CardAd(ListPage(pages, m)[i], detail, todayFull, todayShort) == Some(ad)
    ensures ad in Run(pages, detail, todayFull, todayShort, n)
    decreases m - n
  {
    var cards := ListPage(pages, n);
    if m == n {
      PageAdsIff(cards, detail, todayFull, todayShort, ad);
    } else {
      assert Found(cards, todayFull) != 0;
      RunKeepsAccepted(pages, detail, todayFull, todayShort, n + 1, m, i, ad);
    }
  }

  /** The marker's date: "Objavljen:", a space, the date, a dot, a space and more text. */
  lemma PublishedDateOf(date: string, tail: string)
    requires date != [] && date[0] != '.' && date[|date| - 1] != '.' && !IsSpace(date[0]) && ' ' !in date
    requires tail != [] && !IsSpace(tail[|tail| - 1])
    requires !Contains(" " + date + ". " + tail, Marker)
    ensures Contains(Marker + " " + date + ". " + tail, Marker)
    ensures PublishedDate(Marker + " " + date + ". " + tail) == date
  {
    Spelled(date, tail);
    var head := date + ".";
    var rest := [' '] + head + [' '] + tail;
    AfterMarkerOf(rest);
    assert head[0] == date[0];
    assert ' ' !in head;
    FirstWordOf(head, tail);
    assert head == "" + date + ".";
    StripCharAround("", date, ".", '.');
  }

  lemma Spelled(date: string, tail: string)
    ensures " " + date + ". " + tail == [' '] + (date + ".") + [' '] + tail
    ensures Marker + " " + date + ". " + tail == Marker + ([' '] + (date + ".") + [' '] + tail)
  {
  }

  lemma AfterMarkerOf(rest: string)
    requires !Contains(rest, Marker)
    ensures Contains(Marker + rest, Marker)
    ensures AfterMarker(Marker + rest) == rest
  {
    var text := Marker + rest;
    assert At(text, Marker, 0) by {
      assert text[0..|Marker|] == Marker;
    }
    SplitAfterLeadingSep(Marker, rest);
  }

  lemma FirstWordOf(head: string, tail: string)
    requires head != [] && !IsSpace(head[0]) && ' ' !in head
    requires tail != [] && !IsSpace(tail[|tail| - 1])
    ensures FirstWord([' '] + head + [' '] + tail) == head
  {
    var body := head + [' '] + tail;
    assert [' '] + head + [' '] + tail == [' '] + body + [];
    StripAround([' '], body, []);
    assert " " == [' '];
    SplitCharFirst(head, ' ', tail);
  }
}
