/**
 * `extract_ads_bijelo_jaje` of scrapers.py: the bijelojaje.dnevnik.hr listing
 * is read page after page. Every card is opened; a card whose detail page
 * cannot be read as expected is skipped (the scraper catches the exception),
 * and the first card whose date label is not a publication today ends the
 * whole scrape. An empty listing page ends it as well.
 */
module BijeloScraper {
  import opened Wrappers
  import opened Text
  import opened Ads
  import opened Pages

  /** The link inside a card's title span: its text and its `href` attribute. */
  datatype TitleLink = TitleLink(text: string, hrefAttr: Option<string>)

  /**
   * A listing card: the title link (`None` when the title span or the link
   * in it is missing), the text of the location list (`None` without one)
   * and the texts of its attribute items, in document order.
   */
  datatype Card = Card(title: Option<TitleLink>, location: Option<string>, attrs: seq<string>)

  /**
   * The date label of a detail page: the text of the first span whose only
   * string holds "Oglas", and the text of the span that follows it (`None`
   * when there is none).
   */
  datatype DateLabel = DateLabel(text: string, sibling: Option<string>)

  /** A detail page: its date label, its table rows as header/cell pairs and its price block. */
  datatype Detail = Detail(dateLabel: Option<DateLabel>, rows: seq<Labelled>, price: Option<string>)

  /** What reading one card leads to: it is skipped, its record is kept, or the scrape stops. */
  datatype Step = Skip | Keep(ad: Ad) | Halt

  /** The records one listing page yields, and whether it stopped the scrape. */
  datatype PageResult = PageResult(ads: seq<Ad>, halted: bool)

  const Site := "https://bijelojaje.dnevnik.hr"

  /** The stripped text after the last colon of an attribute (the whole text without one). */
  function AttrValue(txt: string): string {
    var parts := Split(txt, ":");
    Strip(parts[|parts| - 1])
  }

  /** An attribute item that sets the flat type: it names a type and not the living area. */
  predicate NamesType(txt: string) {
    !Contains(txt, "Stambena površina") && (Contains(txt, "Tip stana") || Contains(txt, "Vrsta"))
  }

  /** The living area: the value of the last attribute naming it, "N/A" without one. */
  function Surface(attrs: seq<string>): string {
    if attrs == [] then "N/A"
    else if Contains(attrs[|attrs| - 1], "Stambena površina") then AttrValue(attrs[|attrs| - 1])
    else Surface(attrs[..|attrs| - 1])
  }

  /** The flat type: the value of the last attribute naming a type, "N/A" without one. */
  function FlatType(attrs: seq<string>): string {
    if attrs == [] then "N/A"
    else if NamesType(attrs[|attrs| - 1]) then AttrValue(attrs[|attrs| - 1])
    else FlatType(attrs[..|attrs| - 1])
  }

  function Href(link: TitleLink): string {
    Site + link.hrefAttr.GetOr("")
  }

  /** The label announces a publication (and not only an update). */
  predicate Published(dateLabel: DateLabel) {
    Contains(Lower(dateLabel.text), "objavljen")
  }

  /** The keys of a record, the dictionary the scraper appends per kept card. */
  const RecordKeys: set<string> :=
    {"title", "location", "area", "type", "href", "price", "number_of_rooms", "year_built", "date_posted"}

  /** The value a kept card's record holds under `key`. */
  function Field(key: string, link: TitleLink, location: string, attrs: seq<string>, page: Detail, dateValue: string): string {
    if key == "title" then link.text
    else if key == "location" then location
    else if key == "area" then Surface(attrs)
    else if key == "type" then FlatType(attrs)
    else if key == "href" then Href(link)
    else if key == "price" then page.price.GetOr("N/A")
    else if key == "number_of_rooms" then LastValue(page.rows, "Broj soba")
    else if key == "year_built" then LastValue(page.rows, "Godina izgradnje")
    else dateValue
  }

  /** The record built for a kept card. */
  function Record(link: TitleLink, location: string, attrs: seq<string>, page: Detail, dateValue: string): Ad {
    map key | key in RecordKeys :: Field(key, link, location, attrs, page, dateValue)
  }

  /** The record is the dictionary literal the scraper appends. */
  lemma RecordLiteral(link: TitleLink, location: string, attrs: seq<string>, page: Detail, dateValue: string)
    ensures Record(link, location, attrs, page, dateValue)
         == map["title" := link.text, "location" := location, "area" := Surface(attrs), "type" := FlatType(attrs),
                "href" := Href(link), "price" := page.price.GetOr("N/A"),
                "number_of_rooms" := LastValue(page.rows, "Broj soba"),
                "year_built" := LastValue(page.rows, "Godina izgradnje"), "date_posted" := dateValue]
  {
    var literal := map["title" := link.text, "location" := location, "area" := Surface(attrs), "type" := FlatType(attrs),
                       "href" := Href(link), "price" := page.price.GetOr("N/A"),
                       "number_of_rooms" := LastValue(page.rows, "Broj soba"),
                       "year_built" := LastValue(page.rows, "Godina izgradnje"), "date_posted" := dateValue];
    var record := Record(link, location, attrs, page, dateValue);
    assert literal.Keys == RecordKeys == record.Keys;
    forall key | key in RecordKeys
      ensures record[key] == literal[key]
    {
    }
  }

  /**
   * One card, given the detail page behind every link. A missing title link,
   * location, date label or date span raises inside the `try` and skips the
   * card; a label that is not a publication, or a date other than today,
   * stops the scrape.
   */
  function CardStep(card: Card, detail: string -> Detail, today: string): Step {
    if card.title.None? || card.location.None? then Skip
    else
      var page := detail(Href(card.title.value));
      match page.dateLabel
      case None => Skip
      case Some(dateLabel) =>
        match dateLabel.sibling
        case None => Skip
        case Some(dateValue) =>
          if !Published(dateLabel) || dateValue != today then Halt
          else Keep(Record(card.title.value, card.location.value, card.attrs, page, dateValue))
  }

  /** What each card of a page leads to, in card order. */
  function Steps(cards: seq<Card>, detail: string -> Detail, today: string): seq<Step> {
    seq(|cards|, i requires 0 <= i < |cards| => CardStep(cards[i], detail, today))
  }

  /** The steps taken in order, up to the first one that stops the scrape. */
  function Collect(steps: seq<Step>): PageResult {
    if steps == [] then PageResult([], false)
    else
      match steps[0]
      case Skip => Collect(steps[1..])
      case Keep(ad) =>
        var rest := Collect(steps[1..]);
        PageResult([ad] + rest.ads, rest.halted)
      case Halt => PageResult([], true)
  }

  /** The steps from `i` on: the step at `i`, then (unless it stops) the steps after it. */
  lemma CollectFrom(steps: seq<Step>, i: nat)
    requires i < |steps|
    ensures var rest := Collect(steps[i + 1..]);
      Collect(steps[i..]) == match steps[i]
        case Skip => rest
        case Keep(ad) => PageResult([ad] + rest.ads, rest.halted)
        case Halt => PageResult([], true)
  {
    assert steps[i..][1..] == steps[i + 1..];
  }

  /** The cards of a page read in order, up to the first one that stops the scrape. */
  function PageScan(cards: seq<Card>, detail: string -> Detail, today: string): PageResult {
    Collect(Steps(cards, detail, today))
  }

  function ListPage(pages: seq<seq<Card>>, n: nat): seq<Card> {
    PageAt(pages, n, [])
  }

  /** The records collected from page `n` on: an empty page or a stopping card ends the run. */
  function Run(pages: seq<seq<Card>>, detail: string -> Detail, today: string, n: nat): seq<Ad>
    decreases |pages| + 1 - n
  {
    var cards := ListPage(pages, n);
    if cards == [] then []
    else
      var r := PageScan(cards, detail, today);
      r.ads + (if r.halted then [] else Run(pages, detail, today, n + 1))
  }

  /** The number of the last page requested, looking from page `n` on. */
  function Stop(pages: seq<seq<Card>>, detail: string -> Detail, today: string, n: nat): (last: nat)
    ensures n <= last
    decreases |pages| + 1 - n
  {
    var cards := ListPage(pages, n);
    if cards == [] || PageScan(cards, detail, today).halted then n else Stop(pages, detail, today, n + 1)
  }

  /** The attribute loop: each item naming the area or a type overwrites that value. */
  method ReadAttrs(attrs: seq<string>) returns (surface: string, flatType: string)
    ensures surface == Surface(attrs) && flatType == FlatType(attrs)
  {
    surface, flatType := "N/A", "N/A";
    for k := 0 to |attrs|
      invariant surface == Surface(attrs[..k]) && flatType == FlatType(attrs[..k])
    {
      AttrsStep(attrs, k);
      var txt := attrs[k];
      if Contains(txt, "Stambena površina") {
        surface := AttrValue(txt);
      } else if Contains(txt, "Tip stana") || Contains(txt, "Vrsta") {
        flatType := AttrValue(txt);
      }
    }
    assert attrs[..|attrs|] == attrs;
  }

  /** One more attribute item overwrites the value it names. */
  lemma AttrsStep(attrs: seq<string>, k: nat)
    requires k < |attrs|
    ensures Surface(attrs[..k + 1])
         == if Contains(attrs[k], "Stambena površina") then AttrValue(attrs[k]) else Surface(attrs[..k])
    ensures FlatType(attrs[..k + 1]) == if NamesType(attrs[k]) then AttrValue(attrs[k]) else FlatType(attrs[..k])
  {
    assert attrs[..k + 1][..k] == attrs[..k];
  }

  /** The table loop: rows without a header or a cell are passed over, the last matching row wins. */
  method ReadRows(rows: seq<Labelled>) returns (yearBuilt: string, numberOfRooms: string)
    ensures yearBuilt == LastValue(rows, "Godina izgradnje")
    ensures numberOfRooms == LastValue(rows, "Broj soba")
  {
    yearBuilt, numberOfRooms := "N/A", "N/A";
    for k := 0 to |rows|
      invariant yearBuilt == LastValue(rows[..k], "Godina izgradnje")
      invariant numberOfRooms == LastValue(rows[..k], "Broj soba")
    {
      assert rows[..k + 1][..k] == rows[..k];
      var row := rows[k];
      if row.caption.None? || row.value.None? {
        continue;
      }
      var header, cell := row.caption.value, row.value.value;
      if header == "Godina izgradnje" {
        yearBuilt := cell;
      } else if header == "Broj soba" {
        numberOfRooms := cell;
      }
    }
    assert rows[..|rows|] == rows;
  }

  /** The body of the `try` for one card; each early `Skip` is an exception the scraper catches. */
  method ReadCard(card: Card, detail: string -> Detail, today: string) returns (step: Step)
    ensures step == CardStep(card, detail, today)
  {
    if card.title.None? {
      return Skip;
    }
    var titleTag := card.title.value;
    var title := titleTag.text;
    var href := Site + titleTag.hrefAttr.GetOr("");
    if card.location.None? {
      return Skip;
    }
    var location := card.location.value;
    var surface, flatType := ReadAttrs(card.attrs);
    var detailPage := detail(href);
    if detailPage.dateLabel.None? {
      return Skip;
    }
    var dateLabel := detailPage.dateLabel.value;
    var isPublished := Contains(Lower(dateLabel.text), "objavljen");
    if dateLabel.sibling.None? {
      return Skip;
    }
    var dateValue := dateLabel.sibling.value;
    if !isPublished || dateValue != today {
      return Halt;
    }
    var yearBuilt, numberOfRooms := ReadRows(detailPage.rows);
    var price := detailPage.price.GetOr("N/A");
    RecordLiteral(titleTag, location, card.attrs, detailPage, dateValue);
    return Keep(map["title" := title, "location" := location, "area" := surface, "type" := flatType,
                    "href" := href, "price" := price, "number_of_rooms" := numberOfRooms,
                    "year_built" := yearBuilt, "date_posted" := dateValue]);
  }

  /** One listing page: the records appended while its cards are read, and whether `stop` was set. */
  method ScanPage(cards: seq<Card>, detail: string -> Detail, today: string) returns (pageAds: seq<Ad>, stop: bool)
    ensures PageResult(pageAds, stop) == PageScan(cards, detail, today)
  {
    ghost var steps := Steps(cards, detail, today);
    pageAds := [];
    stop := false;
    for i := 0 to |cards|
      invariant pageAds + Collect(steps[i..]).ads == Collect(steps).ads
      invariant Collect(steps[i..]).halted == Collect(steps).halted
    {
      var step := ReadCard(cards[i], detail, today);
      assert step == steps[i];
      CollectFrom(steps, i);
      if step.Halt? {
        stop := true;
        break;
      }
      if step.Keep? {
        pageAds := pageAds + [step.ad];
      }
    }
    assert steps[|cards|..] == [];
  }

  /**
   * The loop's view of the run: `results` as they stand when page `n` is
   * requested, and what they are once the loop ends.
   */
  function RunFrom(results: seq<Ad>, pages: seq<seq<Card>>, detail: string -> Detail, today: string, n: nat): seq<Ad>
    decreases |pages| + 1 - n
  {
    var cards := ListPage(pages, n);
    if cards == [] then results
    else
      var r := PageScan(cards, detail, today);
      if r.halted then results + r.ads else RunFrom(results + r.ads, pages, detail, today, n + 1)
  }

  /** The loop ends with the records it had, followed by those of the run from page `n`. */
  lemma {:induction false} RunFromAppends(results: seq<Ad>, pages: seq<seq<Card>>, detail: string -> Detail, today: string, n: nat)
    ensures RunFrom(results, pages, detail, today, n) == results + Run(pages, detail, today, n)
    decreases |pages| + 1 - n
  {
    var cards := ListPage(pages, n);
    if cards != [] {
      var r := PageScan(cards, detail, today);
      if r.halted {
        Regroup(results, r.ads, []);
      } else {
        RunFromAppends(results + r.ads, pages, detail, today, n + 1);
        Regroup(results, r.ads, Run(pages, detail, today, n + 1));
      }
    }
  }

  /**
   * One turn of the page loop: the listing page is read; `empty` says the
   * loop breaks on it, otherwise its records are appended to `results` and
   * `stop` is set when a card stopped the scrape.
   */
  method ReadListPage(pages: seq<seq<Card>>, detail: string -> Detail, today: string, pageNum: nat, ghost results: seq<Ad>)
    returns (empty: bool, pageAds: seq<Ad>, stop: bool)
    ensures empty <==> ListPage(pages, pageNum) == []
    ensures empty ==> RunFrom(results, pages, detail, today, pageNum) == results
    ensures !empty && stop ==> RunFrom(results, pages, detail, today, pageNum) == results + pageAds
    ensures !empty && !stop ==> RunFrom(results, pages, detail, today, pageNum)
                                == RunFrom(results + pageAds, pages, detail, today, pageNum + 1)
    ensures empty || stop <==> Stop(pages, detail, today, pageNum) == pageNum
    ensures !empty && !stop ==> pageNum <= |pages| && Stop(pages, detail, today, pageNum) == Stop(pages, detail, today, pageNum + 1)
  {
    var adCards := ListPage(pages, pageNum);
    if adCards == [] {
      return true, [], false;
    }
    empty := false;
    pageAds, stop := ScanPage(adCards, detail, today);
  }

  /**
   * The scraper: the records it returns and the page numbers it requests, in
   * order. `pages` are the rendered listing pages, `detail` the detail page
   * behind each link and `today` the current date as "dd.mm.yyyy.".
   */
  method ExtractAdsBijeloJaje(pages: seq<seq<Card>>, detail: string -> Detail, today: string)
    returns (results: seq<Ad>, requested: seq<nat>)
    ensures results == Run(pages, detail, today, 1)
    ensures requested == PagesUpTo(Stop(pages, detail, today, 1))
  {
    results := [];
    requested := [];
    var pageNum := 1;
    RunFromAppends([], pages, detail, today, 1);
    Regroup([], [], Run(pages, detail, today, 1));
    // The scraper's `stop` flag ends the loop right after the page that set
    // it, which is the second `break` below.
    while true
      invariant 1 <= pageNum <= |pages| + 1
      invariant RunFrom(results, pages, detail, today, pageNum) == Run(pages, detail, today, 1)
      invariant Stop(pages, detail, today, pageNum) == Stop(pages, detail, today, 1)
      invariant requested == PagesUpTo(pageNum - 1)
      decreases |pages| + 1 - pageNum
    {
      requested := requested + [pageNum];
      PagesUpToNext(pageNum - 1);
      var empty, pageAds, stop := ReadListPage(pages, detail, today, pageNum, results);
      if empty {
        break;
      }
      results := results + pageAds;
      if stop {
        break;
      }
      pageNum := pageNum + 1;
    }
  }

  // ---------------------------------------------------------------- properties

  /** The steps stop the scrape exactly when one of them is a stop. */
  lemma {:induction false} CollectHaltedIff(steps: seq<Step>)
    ensures Collect(steps).halted <==> exists i :: 0 <= i < |steps| && steps[i].Halt?
  {
    if steps != [] {
      var tail := steps[1..];
      CollectHaltedIff(tail);
      if exists i :: 0 <= i < |tail| && tail[i].Halt? {
        var i :| 0 <= i < |tail| && tail[i].Halt?;
        assert steps[i + 1] == tail[i];
      }
      if exists i :: 0 <= i < |steps| && steps[i].Halt? {
        var i :| 0 <= i < |steps| && steps[i].Halt?;
        if i > 0 {
          assert tail[i - 1] == steps[i];
        }
      }
    }
  }

  /** A page stops the scrape exactly when one of its cards does. */
  lemma HaltedIff(cards: seq<Card>, detail: string -> Detail, today: string)
    ensures PageScan(cards, detail, today).halted <==> exists i :: 0 <= i < |cards| && CardStep(cards[i], detail, today).Halt?
  {
    var steps := Steps(cards, detail, today);
    CollectHaltedIff(steps);
    if exists i :: 0 <= i < |steps| && steps[i].Halt? {
      var i :| 0 <= i < |steps| && steps[i].Halt?;
      assert CardStep(cards[i], detail, today).Halt?;
    }
    if exists i :: 0 <= i < |cards| && CardStep(cards[i], detail, today).Halt? {
      var i :| 0 <= i < |cards| && CardStep(cards[i], detail, today).Halt?;
      assert steps[i].Halt?;
    }
  }

  /** The steps after the first stop are never taken. */
  lemma {:induction false} CollectStopsAtHalt(steps: seq<Step>, h: nat)
    requires h < |steps| && steps[h].Halt?
    requires forall j :: 0 <= j < h ==> !steps[j].Halt?
    ensures Collect(steps) == PageResult(Collect(steps[..h]).ads, true)
  {
    if h > 0 {
      var tail := steps[1..];
      assert tail[h - 1] == steps[h];
      CollectStopsAtHalt(tail, h - 1);
      assert steps[..h][1..] == tail[..h - 1];
      assert steps[..h][0] == steps[0];
    }
  }

  /**
   * The cards after the first stopping one are never read: the page yields
   * the records of the cards before it and stops.
   */
  lemma CardsAfterHaltIgnored(cards: seq<Card>, detail: string -> Detail, today: string, h: nat)
    requires h < |cards| && CardStep(cards[h], detail, today).Halt?
    requires forall j :: 0 <= j < h ==> !CardStep(cards[j], detail, today).Halt?
    ensures PageScan(cards, detail, today) == PageResult(PageScan(cards[..h], detail, today).ads, true)
  {
    var steps := Steps(cards, detail, today);
    CollectStopsAtHalt(steps, h);
    assert steps[..h] == Steps(cards[..h], detail, today);
  }

  /** Every record comes from a kept step taken before any stop. */
  lemma {:induction false} CollectAdsFromKept(steps: seq<Step>, ad: Ad)
    requires ad in Collect(steps).ads
    ensures exists i ::
      && 0 <= i < |steps| && steps[i] == Keep(ad)
      && forall j :: 0 <= j < i ==> !steps[j].Halt?
  {
    if steps[0] != Keep(ad) {
      var tail := steps[1..];
      CollectAdsFromKept(tail, ad);
      var i :| 0 <= i < |tail| && tail[i] == Keep(ad) && forall j :: 0 <= j < i ==> !tail[j].Halt?;
      assert steps[i + 1] == tail[i];
      forall j | 0 <= j < i + 1 ensures !steps[j].Halt? {
        if j > 0 {
          assert steps[j] == tail[j - 1];
        }
      }
    }
  }

  /**
   * Every record of a page comes from a kept card read before any stopping
   * card.
   */
  lemma PageAdsFromKeptCards(cards: seq<Card>, detail: string -> Detail, today: string, ad: Ad)
    requires ad in PageScan(cards, detail, today).ads
    ensures exists i ::
      && 0 <= i < |cards| && CardStep(cards[i], detail, today) == Keep(ad)
      && forall j :: 0 <= j < i ==> !CardStep(cards[j], detail, today).Halt?
  {
    var steps := Steps(cards, detail, today);
    CollectAdsFromKept(steps, ad);
    var i :| 0 <= i < |steps| && steps[i] == Keep(ad) && forall j :: 0 <= j < i ==> !steps[j].Halt?;
    assert CardStep(cards[i], detail, today) == Keep(ad);
    assert forall j :: 0 <= j < i ==> steps[j] == CardStep(cards[j], detail, today);
  }

  lemma {:induction false} CollectKeepsKept(steps: seq<Step>, i: nat)
    requires i < |steps| && steps[i].Keep?
    requires forall j :: 0 <= j < i ==> !steps[j].Halt?
    ensures steps[i].ad in Collect(steps).ads
  {
    if i > 0 {
      var tail := steps[1..];
      assert tail[i - 1] == steps[i];
      forall j | 0 <= j < i - 1 ensures !tail[j].Halt? {
        assert tail[j] == steps[j + 1];
      }
      CollectKeepsKept(tail, i - 1);
      assert !steps[0].Halt?;
    }
  }

  /**
   * Every card kept before any stopping card has its record among the
   * page's records: what was accepted before the stop is not lost.
   */
  lemma PageKeepsKeptCards(cards: seq<Card>, detail: string -> Detail, today: string, i: nat)
    requires i < |cards| && CardStep(cards[i], detail, today).Keep?
    requires forall j :: 0 <= j < i ==> !CardStep(cards[j], detail, today).Halt?
    ensures CardStep(cards[i], detail, today).ad in PageScan(cards, detail, today).ads
  {
    var steps := Steps(cards, detail, today);
    assert forall j :: 0 <= j < i ==> steps[j] == CardStep(cards[j], detail, today);
    CollectKeepsKept(steps, i);
  }

  /**
   * A card stops the scrape exactly when it has a title link and a location,
   * its detail page has a date label with a date span, and the label is not
   * a publication or the date is not today.
   */
  lemma HaltIff(card: Card, detail: string -> Detail, today: string)
    ensures CardStep(card, detail, today).Halt?
        <==> && card.title.Some? && card.location.Some?
             && var dl := detail(Href(card.title.value)).dateLabel;
                dl.Some? && dl.value.sibling.Some?
                && (!Published(dl.value) || dl.value.sibling.value != today)
  {
  }

  /**
   * A kept card was published today: its record carries today's date, the
   * card's own title, location and link, and the area and type of its
   * attribute items.
   */
  lemma KeptCard(card: Card, detail: string -> Detail, today: string, ad: Ad)
    requires CardStep(card, detail, today) == Keep(ad)
    ensures card.title.Some? && card.location.Some?
    ensures var dl := detail(Href(card.title.value)).dateLabel;
      dl.Some? && Published(dl.value) && dl.value.sibling == Some(today)
    ensures ad["date_posted"] == today && ad["title"] == card.title.value.text
    ensures ad["location"] == card.location.value && ad["href"] == Href(card.title.value)
    ensures ad["area"] == Surface(card.attrs) && ad["type"] == FlatType(card.attrs)
  {
  }

  /** Every record a page yields was published today. */
  lemma PageAdsDatedToday(cards: seq<Card>, detail: string -> Detail, today: string, ad: Ad)
    requires ad in PageScan(cards, detail, today).ads
    ensures "date_posted" in ad && ad["date_posted"] == today
  {
    PageAdsFromKeptCards(cards, detail, today, ad);
    var i :| 0 <= i < |cards| && CardStep(cards[i], detail, today) == Keep(ad);
    KeptCard(cards[i], detail, today, ad);
  }

  /** A record of the run from page `n` comes from page `n` or from the run after it. */
  lemma RunMember(pages: seq<seq<Card>>, detail: string -> Detail, today: string, n: nat, ad: Ad)
    requires ad in Run(pages, detail, today, n)
    ensures ad in PageScan(ListPage(pages, n), detail, today).ads || ad in Run(pages, detail, today, n + 1)
  {
  }

  /** Every record the scraper returns was published today. */
  lemma {:induction false} RunAdsDatedToday(pages: seq<seq<Card>>, detail: string -> Detail, today: string, n: nat, ad: Ad)
    requires ad in Run(pages, detail, today, n)
    ensures "date_posted" in ad && ad["date_posted"] == today
    decreases |pages| + 1 - n
  {
    RunMember(pages, detail, today, n, ad);
    if ad in PageScan(ListPage(pages, n), detail, today).ads {
      PageAdsDatedToday(ListPage(pages, n), detail, today, ad);
    } else {
      RunAdsDatedToday(pages, detail, today, n + 1, ad);
    }
  }

  /**
   * Conversely, a kept card on a page between `n` and the stop page, with no
   * stopping card before it on its page, has its record in the run.
   */
  lemma {:induction false} RunKeepsKept(pages: seq<seq<Card>>, detail: string -> Detail, today: string,
                                        n: nat, m: nat, i: nat)
    requires n <= m <= Stop(pages, detail, today, n) && i < |ListPage(pages, m)|
    requires CardStep(ListPage(pages, m)[i], detail, today).Keep?
    requires forall j :: 0 <= j < i ==> !CardStep(ListPage(pages, m)[j], detail, today).Halt?
    ensures CardStep(ListPage(pages, m)[i], detail, today).ad in Run(pages, detail, today, n)
    decreases m - n
  {
    var cards := ListPage(pages, n);
    var ad := CardStep(ListPage(pages, m)[i], detail, today).ad;
    if m == n {
      PageKeepsKeptCards(cards, detail, today, i);
      RunHasMember(pages, detail, today, n, ad);
    } else {
      RunKeepsKept(pages, detail, today, n + 1, m, i);
      RunHasMember(pages, detail, today, n, ad);
    }
  }

  /** What the run from page `n` holds: the page's records, and the rest of the run unless the page ends it. */
  lemma RunHasMember(pages: seq<seq<Card>>, detail: string -> Detail, today: string, n: nat, ad: Ad)
    requires ListPage(pages, n) != []
    requires ad in PageScan(ListPage(pages, n), detail, today).ads
      || (!PageScan(ListPage(pages, n), detail, today).halted && ad in Run(pages, detail, today, n + 1))
    ensures ad in Run(pages, detail, today, n)
  {
  }

  /**
   * The run requests every page up to the last one without a gap: each page
   * before it had cards and none of them stopped the scrape; the last page
   * is empty or stopped it, and lies at most one past the last rendered page.
   */
  lemma {:induction false} StopIsLastPage(pages: seq<seq<Card>>, detail: string -> Detail, today: string, n: nat)
    requires n <= |pages| + 1
    ensures var last := Stop(pages, detail, today, n);
      ListPage(pages, last) == [] || PageScan(ListPage(pages, last), detail, today).halted
    ensures forall k :: n <= k < Stop(pages, detail, today, n) ==>
      ListPage(pages, k) != [] && !PageScan(ListPage(pages, k), detail, today).halted
    ensures Stop(pages, detail, today, n) <= |pages| + 1
    decreases |pages| + 1 - n
  {
    var cards := ListPage(pages, n);
    if cards != [] && !PageScan(cards, detail, today).halted {
      assert n <= |pages|;
      StopIsLastPage(pages, detail, today, n + 1);
    }
  }

  /** An attribute "name: value" yields the stripped value when the value holds no colon. */
  lemma AttrValueOf(name: string, value: string)
    requires ':' !in value
    ensures AttrValue(name + ":" + value) == Strip(value)
  {
    assert ":" == [':'];
    SplitCharConcat(name, ':', value);
    SplitCharNone(value, ':');
    var parts := Split(name + ":" + value, ":");
    assert parts[|parts| - 1] == value;
  }
}
