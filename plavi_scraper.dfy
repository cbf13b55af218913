/**
 * `scrape_plavi_oglasnik` of scrapers.py: a single listing page of Plavi
 * oglasnik, read card by card; a card is kept when its date reads exactly
 * today. Two lookups of the scraper assume an element exists and raise
 * `AttributeError` when it does not; that exception ends the whole scraper,
 * and the model returns it as `Raised`.
 */
module PlaviScraper {
  import opened Wrappers
  import opened Text
  import opened Ads
  import opened Pages

  /** A `classified-param` span: its whole text and the text of its value span, if it has one. */
  datatype Param = Param(text: string, value: Option<string>)

  /**
   * The inner block of a card: title, price block (`Some(None)` when the block
   * has no main price span), date and the description block's params.
   */
  datatype Inner = Inner(title: Option<string>, priceBlock: Option<Option<string>>, date: Option<string>,
                         description: Option<seq<Param>>)

  /** A `classified-box` link: its inner block, its `href` and its image block's location span. */
  datatype Card = Card(inner: Option<Inner>, hrefAttr: Option<string>, image: Option<Option<string>>)

  const AttributeError := "AttributeError"

  /** The house type and area a description gives, or the failed lookup of a value span. */
  datatype ParamScan = Params(houseType: string, area: string) | MissingValue

  /** The params read in order; a later "Vrsta" or "Površina" param overrides an earlier one. */
  function ScanParams(params: seq<Param>): ParamScan {
    if params == [] then Params("N/A", "N/A")
    else
      var p := params[|params| - 1];
      match ScanParams(params[..|params| - 1])
      case MissingValue => MissingValue
      case Params(houseType, area) =>
        if Contains(p.text, "Vrsta") then (if p.value.None? then MissingValue else Params(p.value.value, area))
        else if Contains(p.text, "Površina") then (if p.value.None? then MissingValue else Params(houseType, p.value.value))
        else Params(houseType, area)
  }

  /** What one card does to the scan. */
  datatype Step = Skip | Keep(ad: Ad) | Fail

  function CardStep(card: Card, today: string): Step {
    if card.inner.None? then Skip
    else
      var inner := card.inner.value;
      if inner.priceBlock == Some(None) then Fail
      else
        var price := if inner.priceBlock.Some? then inner.priceBlock.value.value else "N/A";
        var datePosted := inner.date.GetOr("N/A");
        if datePosted != today then Skip
        else
          var params := if inner.description.Some? then ScanParams(inner.description.value) else Params("N/A", "N/A");
          if params.MissingValue? then Fail
          else
            var location := if card.image.Some? then card.image.value.GetOr("N/A") else "N/A";
            Keep(map["title" := inner.title.GetOr("N/A"), "type" := params.houseType, "area" := params.area,
                     "price" := price, "date_posted" := datePosted, "href" := card.hrefAttr.GetOr("N/A"),
                     "location" := location])
  }

  /** The scan of the page's cards in order: the first failed lookup ends it. */
  function Scan(cards: seq<Card>, today: string): Outcome {
    if cards == [] then Finished([])
    else
      match Scan(cards[..|cards| - 1], today)
      case Raised(e) => Raised(e)
      case Finished(ads) =>
        match CardStep(cards[|cards| - 1], today)
        case Skip => Finished(ads)
        case Keep(ad) => Finished(ads + [ad])
        case Fail => Raised(AttributeError)
  }

  /** The loop over the description's params. */
  method ReadParams(params: seq<Param>) returns (r: ParamScan)
    ensures r == ScanParams(params)
  {
    var houseType, area := "N/A", "N/A";
    for k := 0 to |params|
      invariant ScanParams(params[..k]) == Params(houseType, area)
    {
      assert params[..k + 1][..k] == params[..k];
      var s := params[k];
      var labelText := s.text;
      if Contains(labelText, "Vrsta") {
        if s.value.None? {
          ScanParamsStaysMissing(params, k + 1);
          return MissingValue;
        }
        houseType := s.value.value;
      } else if Contains(labelText, "Površina") {
        if s.value.None? {
          ScanParamsStaysMissing(params, k + 1);
          return MissingValue;
        }
        area := s.value.value;
      }
    }
    assert params[..|params|] == params;
    return Params(houseType, area);
  }

  /** Once a lookup has failed, reading more params does not recover. */
  lemma {:induction false} ScanParamsStaysMissing(params: seq<Param>, k: nat)
    requires k <= |params| && ScanParams(params[..k]).MissingValue?
    ensures ScanParams(params).MissingValue?
    decreases |params| - k
  {
    if k < |params| {
      assert params[..k + 1][..k] == params[..k];
      ScanParamsStaysMissing(params, k + 1);
    } else {
      assert params[..k] == params;
    }
  }

  /** The scraper over the cards of the single listing page, with today's date in long form. */
  method ScrapePlaviOglasnik(cards: seq<Card>, today: string) returns (outcome: Outcome)
    ensures outcome == Scan(cards, today)
  {
    var results := [];
    for i := 0 to |cards|
      invariant Scan(cards[..i], today) == Finished(results)
    {
      assert cards[..i + 1][..i] == cards[..i];
      var adWrapper := cards[i];
      if adWrapper.inner.None? {
        continue;
      }
      var ad := adWrapper.inner.value;
      var title := ad.title.GetOr("N/A");
      var href := adWrapper.hrefAttr.GetOr("N/A");
      var price := "N/A";
      if ad.priceBlock.Some? {
        if ad.priceBlock.value.None? {
          ScanStaysRaised(cards, today, i + 1);
          return Raised(AttributeError);
        }
        price := ad.priceBlock.value.value;
      }
      var datePosted := ad.date.GetOr("N/A");
      if datePosted != today {
        continue;
      }
      var houseType, area := "N/A", "N/A";
      if ad.description.Some? {
        var params := ReadParams(ad.description.value);
        if params.MissingValue? {
          ScanStaysRaised(cards, today, i + 1);
          return Raised(AttributeError);
        }
        houseType, area := params.houseType, params.area;
      }
      var location := "N/A";
      if adWrapper.image.Some? {
        location := adWrapper.image.value.GetOr("N/A");
      }
      results := results + [map["title" := title, "type" := houseType, "area" := area, "price" := price,
                                 "date_posted" := datePosted, "href" := href, "location" := location]];
    }
    assert cards[..|cards|] == cards;
    return Finished(results);
  }

  /** Once the scan has raised, later cards do not matter. */
  lemma {:induction false} ScanStaysRaised(cards: seq<Card>, today: string, k: nat)
    requires k <= |cards| && Scan(cards[..k], today).Raised?
    ensures Scan(cards, today) == Raised(AttributeError)
    decreases |cards| - k
  {
    if k < |cards| {
      assert cards[..k + 1][..k] == cards[..k];
      ScanStaysRaised(cards, today, k + 1);
    } else {
      assert cards[..k] == cards;
      ScanRaisesAttributeError(cards, today);
    }
  }

  lemma {:induction false} ScanRaisesAttributeError(cards: seq<Card>, today: string)
    ensures Scan(cards, today).Raised? ==> Scan(cards, today).error == AttributeError
  {
    if cards != [] {
      ScanRaisesAttributeError(cards[..|cards| - 1], today);
    }
  }

  // ---------------------------------------------------------------- properties

  /** The scraper raises exactly when some card's lookup fails. */
  lemma {:induction false} ScanRaisedIff(cards: seq<Card>, today: string)
    ensures Scan(cards, today).Raised? <==> exists i :: 0 <= i < |cards| && CardStep(cards[i], today).Fail?
  {
    if cards != [] {
      var init := cards[..|cards| - 1];
      ScanRaisedIff(init, today);
      if exists i :: 0 <= i < |init| && CardStep(init[i], today).Fail? {
        var i :| 0 <= i < |init| && CardStep(init[i], today).Fail?;
        assert cards[i] == init[i];
      }
      if exists i :: 0 <= i < |cards| && CardStep(cards[i], today).Fail? {
        var i :| 0 <= i < |cards| && CardStep(cards[i], today).Fail?;
        if i < |init| {
          assert init[i] == cards[i];
        }
      }
    }
  }

  /** When it finishes, its ads are exactly those of the kept cards. */
  lemma {:induction false} ScanFinishedAds(cards: seq<Card>, today: string, ad: Ad)
    requires Scan(cards, today).Finished?
    ensures ad in Scan(cards, today).ads <==> exists i :: 0 <= i < |cards| && CardStep(cards[i], today) == Keep(ad)
    ensures |Scan(cards, today).ads| <= |cards|
  {
    if cards != [] {
      var init := cards[..|cards| - 1];
      ScanFinishedAds(init, today, ad);
      if exists i :: 0 <= i < |init| && CardStep(init[i], today) == Keep(ad) {
        var i :| 0 <= i < |init| && CardStep(init[i], today) == Keep(ad);
        assert cards[i] == init[i];
      }
      if exists i :: 0 <= i < |cards| && CardStep(cards[i], today) == Keep(ad) {
        var i :| 0 <= i < |cards| && CardStep(cards[i], today) == Keep(ad);
        if i < |init| {
          assert init[i] == cards[i];
        }
      }
    }
  }

  /**
   * A kept card has an inner block whose date text (or "N/A" without a date
   * span) is exactly today's, and its record says so; absent fields read "N/A".
   */
  lemma KeptCard(card: Card, today: string, ad: Ad)
    requires CardStep(card, today) == Keep(ad)
    ensures card.inner.Some? && card.inner.value.date.GetOr("N/A") == today && ad["date_posted"] == today
    ensures ad["title"] == card.inner.value.title.GetOr("N/A") && ad["href"] == card.hrefAttr.GetOr("N/A")
    ensures ad["location"] == if card.image.Some? then card.image.value.GetOr("N/A") else "N/A"
    ensures var desc := card.inner.value.description;
      if desc.Some? then ScanParams(desc.value) == Params(ad["type"], ad["area"])
      else ad["type"] == "N/A" && ad["area"] == "N/A"
    ensures ad["price"] == if card.inner.value.priceBlock.Some? then card.inner.value.priceBlock.value.value else "N/A"
  {
  }

  /** A price block without its main span raises whatever the card's date: the price is read first. */
  lemma PriceLookupBeforeDate(card: Card, today: string)
    requires card.inner.Some? && card.inner.value.priceBlock == Some(None)
    ensures CardStep(card, today) == Fail
  {
  }

  /** The description fails exactly when a "Vrsta" or "Površina" param has no value span. */
  lemma {:induction false} ScanParamsMissingIff(params: seq<Param>)
    ensures ScanParams(params).MissingValue?
        <==> exists k :: 0 <= k < |params| && params[k].value.None?
               && (Contains(params[k].text, "Vrsta") || Contains(params[k].text, "Površina"))
  {
    if params != [] {
      var init := params[..|params| - 1];
      ScanParamsMissingIff(init);
      if exists k :: 0 <= k < |init| && init[k].value.None?
                       && (Contains(init[k].text, "Vrsta") || Contains(init[k].text, "Površina")) {
        var k :| 0 <= k < |init| && init[k].value.None?
                   && (Contains(init[k].text, "Vrsta") || Contains(init[k].text, "Površina"));
        assert params[k] == init[k];
      }
      if exists k :: 0 <= k < |params| && params[k].value.None?
                       && (Contains(params[k].text, "Vrsta") || Contains(params[k].text, "Površina")) {
        var k :| 0 <= k < |params| && params[k].value.None?
                   && (Contains(params[k].text, "Vrsta") || Contains(params[k].text, "Površina"));
        if k < |init| {
          assert init[k] == params[k];
        }
      }
    }
  }

  /** The house type is the value of the last "Vrsta" param, "N/A" without one. */
  lemma {:induction false} HouseTypeIsLast(params: seq<Param>)
    requires ScanParams(params).Params?
    ensures var t := ScanParams(params).houseType;
      (t == "N/A" && forall k :: 0 <= k < |params| ==> !Contains(params[k].text, "Vrsta"))
      || exists j :: 0 <= j < |params| && Contains(params[j].text, "Vrsta") && params[j].value == Some(t)
           && forall k :: j < k < |params| ==> !Contains(params[k].text, "Vrsta")
  {
    if params != [] {
      var init := params[..|params| - 1];
      var p := params[|params| - 1];
      assert ScanParams(init).Params?;
      HouseTypeIsLast(init);
      if !Contains(p.text, "Vrsta") {
        var t := ScanParams(init).houseType;
        assert ScanParams(params).houseType == t;
        if exists j :: 0 <= j < |init| && Contains(init[j].text, "Vrsta") && init[j].value == Some(t)
                         && forall k :: j < k < |init| ==> !Contains(init[k].text, "Vrsta") {
          var j :| 0 <= j < |init| && Contains(init[j].text, "Vrsta") && init[j].value == Some(t)
                     && forall k :: j < k < |init| ==> !Contains(init[k].text, "Vrsta");
          assert params[j] == init[j];
          forall k | j < k < |params| ensures !Contains(params[k].text, "Vrsta") {
            if k < |init| {
              assert params[k] == init[k];
            }
          }
        } else {
          forall k | 0 <= k < |params| ensures !Contains(params[k].text, "Vrsta") {
            if k < |init| {
              assert params[k] == init[k];
            }
          }
        }
      }
    }
  }

  /** A param that sets the area: it names "Površina" and not "Vrsta" (the `elif`). */
  predicate SetsArea(p: Param) {
    !Contains(p.text, "Vrsta") && Contains(p.text, "Površina")
  }

  /** The area is the value of the last param that sets it, "N/A" without one. */
  lemma {:induction false} AreaIsLast(params: seq<Param>)
    requires ScanParams(params).Params?
    ensures var a := ScanParams(params).area;
      (a == "N/A" && forall k :: 0 <= k < |params| ==> !SetsArea(params[k]))
      || exists j :: 0 <= j < |params| && SetsArea(params[j]) && params[j].value == Some(a)
           && forall k :: j < k < |params| ==> !SetsArea(params[k])
  {
    if params != [] {
      var init := params[..|params| - 1];
      var p := params[|params| - 1];
      assert ScanParams(init).Params?;
      AreaIsLast(init);
      if !SetsArea(p) {
        var a := ScanParams(init).area;
        assert ScanParams(params).area == a;
        if exists j :: 0 <= j < |init| && SetsArea(init[j]) && init[j].value == Some(a)
                         && forall k :: j < k < |init| ==> !SetsArea(init[k]) {
          var j :| 0 <= j < |init| && SetsArea(init[j]) && init[j].value == Some(a)
                     && forall k :: j < k < |init| ==> !SetsArea(init[k]);
          assert params[j] == init[j];
          forall k | j < k < |params| ensures !SetsArea(params[k]) {
            if k < |init| {
              assert params[k] == init[k];
            }
          }
        } else {
          forall k | 0 <= k < |params| ensures !SetsArea(params[k]) {
            if k < |init| {
              assert params[k] == init[k];
            }
          }
        }
      }
    }
  }
}
