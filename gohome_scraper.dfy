/**
 * `extract_ads_gohome` of scrapers.py: the gohome.hr listing is read page
 * after page, and every search result marked as posted "Danas" (today) is
 * taken from the listing itself. Paging ends when a page cannot be loaded or
 * when it has no result posted today.
 */
module GohomeScraper {
  import opened Wrappers
  import opened Text
  import opened Ads
  import opened Pages

  /** The estate link of a result: the text of its name span and its `href` attribute, each possibly missing. */
  datatype EstateLink = EstateLink(name: Option<string>, hrefAttr: Option<string>)

  /**
   * A search result: the stripped text of its date paragraph, its estate
   * link, the `content` of its price and currency meta tags, and the stripped
   * texts of its price-per-m2 span, description and source paragraphs; each
   * is `None` when the element is missing.
   */
  datatype Candidate = Candidate(datePosted: Option<string>, link: Option<EstateLink>,
                                 price: Option<string>, currency: Option<string>, squarePrice: Option<string>,
                                 description: Option<string>, source: Option<string>)

  /** A listing page: navigating to it failed, or the search results it rendered. */
  datatype ListingPage = NavError | Loaded(candidates: seq<Candidate>)

  const Site := "https://www.gohome.hr"

  /** The date text, with commas stripped from both ends and lower-cased, reads "danas". */
  predicate IsTodayText(t: string) {
    Lower(StripChar(t, ',')) == "danas"
  }

  predicate PostedToday(c: Candidate) {
    c.datePosted.Some? && IsTodayText(c.datePosted.value)
  }

  /** The title: the name span's text, "" without a link or a name span. */
  function Title(link: Option<EstateLink>): string {
    match link
    case None => ""
    case Some(a) => a.name.GetOr("")
  }

  /** The absolute link: the site followed by the stripped `href`, "" without a link. */
  function Href(link: Option<EstateLink>): string {
    match link
    case None => ""
    case Some(a) => Site + Strip(a.hrefAttr.GetOr(""))
  }

  /** The price followed by the currency, stripped; "N/A" stands for a missing price. */
  function PriceText(price: Option<string>, currency: Option<string>): string {
    Strip(price.GetOr("N/A") + " " + currency.GetOr(""))
  }

  /** The record built for a result posted today. */
  function Record(c: Candidate): Ad {
    map["title" := Title(c.link), "href" := Href(c.link), "price" := PriceText(c.price, c.currency),
        "price_per_m2" := c.squarePrice.GetOr("N/A"), "date_posted" := "Danas",
        "description" := c.description.GetOr(""), "source" := c.source.GetOr("N/A")]
  }

  function CandidateAd(c: Candidate): Option<Ad> {
    if PostedToday(c) then Some(Record(c)) else None
  }

  /** What each result of a page contributes. */
  function CandidateAds(cs: seq<Candidate>): seq<Option<Ad>> {
    seq(|cs|, i requires 0 <= i < |cs| => CandidateAd(cs[i]))
  }

  /** The records a page contributes, in result order. */
  function PageAds(cs: seq<Candidate>): seq<Ad> {
    Present(CandidateAds(cs))
  }

  /** `daily_ads` after a page: the number of results posted today. */
  function Daily(cs: seq<Candidate>): nat {
    if cs == [] then 0
    else Daily(cs[..|cs| - 1]) + (if PostedToday(cs[|cs| - 1]) then 1 else 0)
  }

  /** A page past the last rendered one shows no results. */
  function ListPage(pages: seq<ListingPage>, n: nat): ListingPage {
    PageAt(pages, n, Loaded([]))
  }

  /** The records collected from page `n` on: a failed page or one without results of today is the last. */
  function Run(pages: seq<ListingPage>, n: nat): seq<Ad>
    decreases |pages| + 1 - n
  {
    match ListPage(pages, n)
    case NavError => []
    case Loaded(cs) => PageAds(cs) + (if Daily(cs) == 0 then [] else Run(pages, n + 1))
  }

  /** The number of the last page requested, looking from page `n` on. */
  function Stop(pages: seq<ListingPage>, n: nat): (last: nat)
    ensures n <= last
    decreases |pages| + 1 - n
  {
    match ListPage(pages, n)
    case NavError => n
    case Loaded(cs) => if Daily(cs) == 0 then n else Stop(pages, n + 1)
  }

  lemma PageAdsSnoc(cs: seq<Candidate>, i: nat)
    requires i < |cs|
    ensures var next := CandidateAd(cs[i]);
      PageAds(cs[..i + 1]) == PageAds(cs[..i]) + (if next.Some? then [next.value] else [])
  {
    assert CandidateAds(cs[..i + 1]) == CandidateAds(cs[..i]) + [CandidateAd(cs[i])];
    PresentSnoc(CandidateAds(cs[..i]), CandidateAd(cs[i]));
  }

  /** One listing page: `daily_ads` and the records appended while its results are read. */
  method ScanPage(cs: seq<Candidate>) returns (dailyAds: nat, results: seq<Ad>)
    ensures dailyAds == Daily(cs)
    ensures results == PageAds(cs)
  {
    results := [];
    dailyAds := 0;
    for i := 0 to |cs|
      invariant dailyAds == Daily(cs[..i])
      invariant results == PageAds(cs[..i])
    {
      assert cs[..i + 1][..i] == cs[..i];
      PageAdsSnoc(cs, i);
      var div := cs[i];
      if div.datePosted.None? {
        continue;
      }
      var dtText := Lower(StripChar(div.datePosted.value, ','));
      if dtText != "danas" {
        continue;
      }
      dailyAds := dailyAds + 1;
      var title := "";
      var href := "";
      if div.link.Some? {
        var a := div.link.value;
        title := a.name.GetOr("");
        var hrefRel := Strip(a.hrefAttr.GetOr(""));
        href := Site + hrefRel;
      }
      var price := div.price.GetOr("N/A");
      var currency := div.currency.GetOr("");
      var priceStr := Strip(price + " " + currency);
      var priceSqm := div.squarePrice.GetOr("N/A");
      var description := div.description.GetOr("");
      var src := div.source.GetOr("N/A");
      results := results + [map["title" := title, "href" := href, "price" := priceStr,
                                 "price_per_m2" := priceSqm, "date_posted" := "Danas",
                                 "description" := description, "source" := src]];
    }
    assert cs[..|cs|] == cs;
  }

  /** One page of the run: nothing after a failed page; otherwise its records, then the rest unless it was quiet. */
  lemma RunStep(prev: seq<Ad>, pages: seq<ListingPage>, n: nat)
    ensures prev + Run(pages, n) == match ListPage(pages, n)
      case NavError => prev
      case Loaded(cs) => prev + PageAds(cs) + (if Daily(cs) == 0 then [] else Run(pages, n + 1))
  {
  }

  /**
   * The scraper: the records it returns and the page numbers it requests, in
   * order. `pages` are the listing pages as the browser renders them, after
   * the lazy-loading scroll.
   */
  method ExtractAdsGohome(pages: seq<ListingPage>) returns (results: seq<Ad>, requested: seq<nat>)
    ensures results == Run(pages, 1)
    ensures requested == PagesUpTo(Stop(pages, 1))
  {
    results := [];
    requested := [];
    var pageNum := 1;
    while true
      invariant 1 <= pageNum <= |pages| + 1
      invariant results + Run(pages, pageNum) == Run(pages, 1)
      invariant Stop(pages, pageNum) == Stop(pages, 1)
      invariant requested == PagesUpTo(pageNum - 1)
      decreases |pages| + 1 - pageNum
    {
      requested := requested + [pageNum];
      PagesUpToNext(pageNum - 1);
      var page := ListPage(pages, pageNum);
      RunStep(results, pages, pageNum);
      if page.NavError? {
        break;
      }
      var dailyAds, pageAds := ScanPage(page.candidates);
      results := results + pageAds;
      if dailyAds == 0 {
        break;
      }
      pageNum := pageNum + 1;
    }
  }

  // ---------------------------------------------------------------- properties

  /** `daily_ads` counts exactly the records the page appended. */
  lemma {:induction false} DailyCountsAds(cs: seq<Candidate>)
    ensures Daily(cs) == |PageAds(cs)|
  {
    if cs != [] {
      var init := cs[..|cs| - 1];
      DailyCountsAds(init);
      PageAdsSnoc(cs, |cs| - 1);
      assert cs[..|cs|] == cs;
    }
  }

  /** A page's records are exactly the records of its results posted today. */
  lemma PageAdsIff(cs: seq<Candidate>, ad: Ad)
    ensures ad in PageAds(cs) <==> exists i :: 0 <= i < |cs| && PostedToday(cs[i]) && Record(cs[i]) == ad
  {
    var xs := CandidateAds(cs);
    PresentIff(xs, ad);
    if exists i :: 0 <= i < |xs| && xs[i] == Some(ad) {
      var i :| 0 <= i < |xs| && xs[i] == Some(ad);
      assert PostedToday(cs[i]) && Record(cs[i]) == ad;
    }
    if exists i :: 0 <= i < |cs| && PostedToday(cs[i]) && Record(cs[i]) == ad {
      var i :| 0 <= i < |cs| && PostedToday(cs[i]) && Record(cs[i]) == ad;
      assert xs[i] == Some(ad);
    }
  }

  /** Every record of the run is dated "Danas" and comes from a result posted today. */
  lemma {:induction false} RunAdsPostedToday(pages: seq<ListingPage>, n: nat, ad: Ad)
    requires ad in Run(pages, n)
    ensures "date_posted" in ad && ad["date_posted"] == "Danas"
    ensures exists m, i ::
      && n <= m <= Stop(pages, n) && ListPage(pages, m).Loaded? && 0 <= i < |ListPage(pages, m).candidates|
      && PostedToday(ListPage(pages, m).candidates[i]) && Record(ListPage(pages, m).candidates[i]) == ad
    decreases |pages| + 1 - n
  {
    var page := ListPage(pages, n);
    assert page.Loaded?;
    PageAdsIff(page.candidates, ad);
    if ad !in PageAds(page.candidates) {
      RunAdsPostedToday(pages, n + 1, ad);
    }
  }

  /** Conversely, every result posted today on a page between `n` and the stop page has its record in the run. */
  lemma {:induction false} RunKeepsPosted(pages: seq<ListingPage>, n: nat, m: nat, i: nat)
    requires n <= m <= Stop(pages, n) && ListPage(pages, m).Loaded? && i < |ListPage(pages, m).candidates|
    requires PostedToday(ListPage(pages, m).candidates[i])
    ensures Record(ListPage(pages, m).candidates[i]) in Run(pages, n)
    decreases m - n
  {
    var page := ListPage(pages, n);
    if m == n {
      PageAdsIff(page.candidates, Record(page.candidates[i]));
    } else {
      assert page.Loaded? && Daily(page.candidates) != 0;
      RunKeepsPosted(pages, n + 1, m, i);
    }
  }

  /**
   * The run requests every page up to the last one without a gap: each page
   * before it loaded and had a result posted today; the last one failed to
   * load or had none, and lies at most one past the last rendered page.
   */
  lemma {:induction false} StopIsLastPage(pages: seq<ListingPage>, n: nat)
    requires n <= |pages| + 1
    ensures var last := ListPage(pages, Stop(pages, n));
      last.NavError? || Daily(last.candidates) == 0
    ensures forall k :: n <= k < Stop(pages, n) ==>
      ListPage(pages, k).Loaded? && Daily(ListPage(pages, k).candidates) > 0
    ensures Stop(pages, n) <= |pages| + 1
    decreases |pages| + 1 - n
  {
    var page := ListPage(pages, n);
    if page.Loaded? && Daily(page.candidates) != 0 {
      assert n <= |pages|;
      StopIsLastPage(pages, n + 1);
    }
  }

  /** "danas" in any letter case, with commas around it, marks a result posted today. */
  lemma TodayWithCommas(pre: string, word: string, post: string)
    requires forall k :: 0 <= k < |pre| ==> pre[k] == ','
    requires forall k :: 0 <= k < |post| ==> post[k] == ','
    requires Lower(word) == "danas"
    ensures IsTodayText(pre + word + post)
  {
    assert |word| == 5;
    assert Lower(word)[0] == 'd' && Lower(word)[4] == 's';
    StripCharAround(pre, word, post, ',');
  }

  /** Price and currency are joined by one space. */
  lemma PriceWithCurrency(price: string, currency: string)
    requires price != [] && !IsSpace(price[0])
    requires currency != [] && !IsSpace(currency[|currency| - 1])
    ensures PriceText(Some(price), Some(currency)) == price + " " + currency
  {
    StripAround([], price + " " + currency, []);
    assert [] + (price + " " + currency) + [] == price + " " + currency;
  }

  /** Without a currency tag the price stands alone, without the trailing space. */
  lemma PriceWithoutCurrency(price: string)
    requires price != [] && !IsSpace(price[0]) && !IsSpace(price[|price| - 1])
    ensures PriceText(Some(price), None) == price
  {
    StripAround([], price, " ");
    assert [] + price + " " == price + " " + "";
  }

  /** Without a price or a currency tag the price reads "N/A". */
  lemma PriceMissing()
    ensures PriceText(None, None) == "N/A"
  {
    PriceWithoutCurrency("N/A");
  }
}
