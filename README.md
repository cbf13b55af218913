# Daily real-estate digest — a verified model of its decision logic

The program scrapes three Croatian real-estate sites (index.hr, Plavi
oglasnik and GoHome) for the ads posted today. A fourth scraper, for Bijelo
jaje, is defined but not called by `main` (main.py:136-143); it is modelled
all the same. It keeps the ads
that mention Novska, Jarun or Samobor. It renders them as an HTML digest and
a CSV attachment, and mails both.

This project models the sequential logic around the browser automation:

- the location filter (`LocationFilter`);
- the CSV row projection (`CsvExport`);
- the recipient parsing and the guard of `send_email` (`Dispatch`);
- the HTML digest builder `generate_common_table` (`Digest`);
- the "posted today" decisions and pagination of each scraper
  (`IndexScraper`, `PlaviScraper`, `BijeloScraper`, `GohomeScraper`).

Shared modules:

- `Text` holds the Python string operations these rely on: `lower`, `in`,
  `split`, `join`, `strip`, `strip(c)` and `str(n)`.
- `Ads` holds the ad record, a dictionary from field names to strings.
- `Pages` holds the paging and "last value wins" helpers.

How the scrapers are modelled:

- A rendered listing page is a sequence of card records with optional fields.
- The detail page behind a link is a total function from the link to a
  record.
- A page number past the last rendered page shows an empty page. In the
  model, that is how every paging loop ends (see "Left out" for sites
  whose pages do not run out).
- The current date is a parameter in the format each scraper uses.
- Each scraper method is proved equal to a recursive specification function.
  Its results and the list of page numbers it requests are stated in terms of
  that function.
- Lemmas prove the scraper's promises about that function: which cards are
  accepted, where paging stops, and that nothing after a stop is read.

Where a Python lookup raises on a missing element, the model keeps the
outcome the code has:

- Plavi oglasnik does not catch `AttributeError`, so the model returns it as
  `Raised`.
- Bijelo jaje catches every exception per card, so the model skips the card.

## Model

| member | source | states |
|---|---|---|
| LocationFilter.FilterAds | main.py:63-64 | the result is no longer than the input and every ad in it matches a target |
| LocationFilter.MatchesTargets | main.py:52-60 | an ad can match only when its location, title or description is non-empty; MatchesPerField and MatchIgnoresCase characterise the match |
| LocationFilter.FilterAdsMembers | main.py:63-64 | an ad is in the result exactly when it is in the input and matches |
| LocationFilter.FilterAdsSubsequence | main.py:63-64 | the result is picked from the input at strictly increasing positions (relative order kept) |
| LocationFilter.FilterAdsConcat | main.py:63-64 | filtering a concatenation is the concatenation of the filtered parts |
| LocationFilter.FilterAdsIdempotent | main.py:63-64 | filtering an already filtered list returns it unchanged |
| LocationFilter.HaystackFields | main.py:53-59 | the haystack is the three lower-cased fields joined by single spaces, missing ones empty |
| LocationFilter.MatchIgnoresCase | main.py:52-60 | two ads whose fields agree once lower-cased match or fail together |
| LocationFilter.MatchesPerField | main.py:49-60 | an ad matches exactly when one field on its own contains a target; no match spans two fields |
| LocationFilter.ContainsInJoined | main.py:53-59 | a target without spaces occurs in three texts joined by spaces exactly when it occurs in one of them |
| LocationFilter.CapitalisedLocationMatches | main.py:49-60 | a location "Novska" alone makes the ad match |
| LocationFilter.MissingFieldsNeverMatch | main.py:55-57 | an ad lacking location, title and description is read without failure, never matches and is filtered out |
| CsvExport.WrittenRow | main.py:97-100 | the dictionary built for an ad and written in column order gives the block labels, then the ad's own fields, "" when missing, overriding any "source" key of the ad |
| CsvExport.SaveAdsCsv | main.py:94-100 | the table written is the twelve-column header followed by the rows of every block's ads, in block order and then ad order |
| CsvExport.RowsCount | main.py:95-100 | there are exactly as many data rows as ads over all blocks |
| CsvExport.HeaderOnlyWithoutAds | main.py:94-100 | with no ads the output is the header alone |
| CsvExport.RowsAt | main.py:95-100 | ad j of block b is the row after all ads of the earlier blocks plus j, and carries that block's labels |
| Dispatch.ParseRecipientsConcat | main.py:183 | the recipients of "a,b" are those of a followed by those of b |
| Dispatch.ParseRecipients | main.py:183 | a string is a recipient exactly when it is a stripped comma-separated piece of the setting and is not empty; the lemmas below give order, unset and clean-address facts |
| Dispatch.ParseRecipientsSingle | main.py:183 | a setting without a comma gives its stripped text, or nobody when that is empty |
| Dispatch.ParseRecipientsUnset | main.py:183 | an unset setting gives no recipients |
| Dispatch.ParseRecipientsClean | main.py:183 | every recipient is non-empty, has no comma and no surrounding white space |
| Dispatch.SendEmail | main.py:107-109 | the ValueError is raised exactly when sender, password or recipients are missing or empty; otherwise the mail goes from the sender to exactly those recipients |
| Dispatch.NoRecipientsNoMail | main.py:107-109 | a recipient setting that parses to nobody means nothing is sent |
| Dispatch.SentToCleanAddresses | main.py:128-130 | whatever is sent goes only to clean addresses taken from the setting |
| Digest.AppendRow | tables.py:12-25 | the fourteen appends for one ad append exactly that ad's row |
| Digest.GenerateCommonTable | tables.py:1-28 | the accumulated HTML is the heading plus the notice for no ads; otherwise heading, table tag, header row, one row per ad in order, closing tags and the count line |
| Digest.AdRowsConcat | tables.py:11-25 | the rows of two lists laid end to end are the rows of each; no row depends on another ad |
| Digest.AdRowsSnoc | tables.py:11-25 | one more ad adds its own row after the others |
| Digest.RowOfEachAd | tables.py:11-25 | the row of ad i stands between the rows of the ads before and after it |
| Digest.EmptyAdRow | tables.py:13-24 | an ad without fields renders "N/A" in all eleven text cells and "#" as its link |
| Digest.CountLineReadsBack | tables.py:27 | the footer holds a decimal numeral that reads back as the number of ads |
| Digest.EmptyListNotice | tables.py:2-3 | the output for no ads contains no table tag |
| Digest.MainTitlesEmptyNotice | tables.py:2-3 | for the three category titles, the output for no ads contains no table tag |
| Pages.LastValueIsLast | scrapers.py:66-78 | the value kept for a label is that of the last complete block with the label |
| Pages.LastValueDefault | scrapers.py:63 | without a complete block with the label the value is "N/A" |
| Pages.LastValueIgnoresIncomplete | scrapers.py:69-70 | a block missing its label or value changes nothing |
| Pages.PagesUpToNext | scrapers.py:14-17 | requesting one more page extends the requested page numbers by exactly that page |
| IndexScraper.PublishedSpan | scrapers.py:42 | the span found is the first one holding the "Objavljen:" marker; there is none exactly when no span holds it |
| IndexScraper.ReadSpecs | scrapers.py:63-78 | rooms, year and area are the last values labelled "Broj soba", "Godina izgradnje" and "Stambena površina", "N/A" otherwise |
| IndexScraper.ScanPage | scrapers.py:23-92 | the counter is the number of cards listed today and the records appended are the page's accepted cards in order |
| IndexScraper.ExtractAdsIndex | scrapers.py:14-96 | the records returned are those of the run from page 1, and the pages requested are 1 to the stop page |
| IndexScraper.Stop | scrapers.py:94-96 | the stop page is never before the page paging starts from |
| IndexScraper.FoundIff | scrapers.py:25-33 | a page counts a match exactly when one of its cards is listed with today's long date |
| IndexScraper.StopIsFirstQuietPage | scrapers.py:94-96 | every page before the stop page counted a match, the stop page counted none, and it is at most one past the last page |
| IndexScraper.ListedCardKeepsPaging | scrapers.py:33-50 | a card listed today keeps paging going even when its detail page is rejected |
| IndexScraper.PageAdsIff | scrapers.py:25-90 | a page's records are exactly those of its accepted cards, at most one per card |
| IndexScraper.AcceptedCard | scrapers.py:30-89 | an accepted card was listed today, its marker date normalises to today's short date, and date_posted is the whole span text |
| IndexScraper.RunAdsFromPages | scrapers.py:14-96 | every returned record comes from an accepted card on a page between the start and the stop page |
| IndexScraper.RunKeepsAccepted | scrapers.py:14-96 | conversely, every accepted card on a page between the start and the stop page has its record in the result |
| IndexScraper.PublishedDateOf | scrapers.py:47-48 | "Objavljen: <date>. <more>" normalises to the date |
| IndexScraper.RecordLiteral | scrapers.py:80-90 | the record of an accepted ad is the nine-key dictionary the scraper appends |
| PlaviScraper.ReadParams | scrapers.py:126-134 | the param loop gives the last "Vrsta" and "Površina" values, or the failed lookup |
| PlaviScraper.ScrapePlaviOglasnik | scrapers.py:114-150 | the scraper's outcome is the scan of the page's cards in order |
| PlaviScraper.ScanParamsStaysMissing | scrapers.py:129-134 | once a param lookup has failed, later params do not recover |
| PlaviScraper.ScanStaysRaised | scrapers.py:114-150 | once a card has raised, later cards do not matter and the error is AttributeError |
| PlaviScraper.ScanRaisesAttributeError | scrapers.py:121 | the only exception the scan raises is AttributeError |
| PlaviScraper.ScanRaisedIff | scrapers.py:114-150 | the scraper raises exactly when some card's lookup fails |
| PlaviScraper.ScanFinishedAds | scrapers.py:114-150 | when it finishes, its records are exactly those of the kept cards, at most one per card |
| PlaviScraper.KeptCard | scrapers.py:119-150 | a kept card has an inner block dated today; its record's title, href, location (the image wrapper's location span, "N/A" without the wrapper or the span) and price (the price block's main span, "N/A" without the block) follow the "N/A" defaults; its type and area are the values the description's params yield, or "N/A" for both when there is no description |
| PlaviScraper.PriceLookupBeforeDate | scrapers.py:121-124 | a price block without its main span raises whatever the card's date |
| PlaviScraper.ScanParamsMissingIff | scrapers.py:129-134 | the description fails exactly when a "Vrsta" or "Površina" param has no value span |
| PlaviScraper.HouseTypeIsLast | scrapers.py:129-132 | the house type is the value of the last "Vrsta" param, or "N/A" without one |
| PlaviScraper.AreaIsLast | scrapers.py:129-134 | the area is the value of the last "Površina" param that does not also name "Vrsta", or "N/A" without one |
| BijeloScraper.ReadAttrs | scrapers.py:186-193 | area and type are the stripped text after the last colon of the last item naming each, "N/A" otherwise |
| BijeloScraper.ReadRows | scrapers.py:215-227 | year and rooms are the last complete rows with those headers, "N/A" otherwise |
| BijeloScraper.ReadCard | scrapers.py:176-248 | the try block for one card skips it, keeps its record or stops the scrape, as the card's step says |
| BijeloScraper.ScanPage | scrapers.py:175-212 | the records appended and the stop flag are those of the page's cards read up to the first stop |
| BijeloScraper.ReadListPage | scrapers.py:166-212 | one turn of the page loop: an empty page ends the loop with the results unchanged, a stopping page ends it after its records, any other page hands its records on to the next page; the stop page is the page itself exactly when it is empty or stopped |
| BijeloScraper.RunFromAppends | scrapers.py:163-250 | the loop, resumed at page n with some results, ends with those results followed by the records of the run from page n |
| BijeloScraper.ExtractAdsBijeloJaje | scrapers.py:163-250 | the records returned are those of the run from page 1, and the pages requested are 1 to the last page |
| BijeloScraper.Stop | scrapers.py:163-173 | the last page is never before the page paging starts from |
| BijeloScraper.HaltedIff | scrapers.py:209-212 | a page stops the scrape exactly when one of its cards does |
| BijeloScraper.CardsAfterHaltIgnored | scrapers.py:209-212 | cards after the first stopping one are never read; the records before it are kept |
| BijeloScraper.PageAdsFromKeptCards | scrapers.py:175-243 | every record of a page comes from a kept card read before any stopping card |
| BijeloScraper.PageKeepsKeptCards | scrapers.py:175-243 | every card kept before any stopping card has its record among the page's records |
| BijeloScraper.CollectKeepsKept | scrapers.py:175-212 | a kept step before any stopping step has its record in the collected records |
| BijeloScraper.HaltIff | scrapers.py:200-212 | a card stops the scrape exactly when its label and date span exist and it is not a publication or not dated today |
| BijeloScraper.KeptCard | scrapers.py:205-243 | a kept card was published today, and its record carries today's date and the card's title, location, link, area and type |
| BijeloScraper.RecordLiteral | scrapers.py:233-243 | the record of a kept card is the nine-key dictionary the scraper appends |
| BijeloScraper.PageAdsDatedToday | scrapers.py:205-243 | every record a page yields carries today's date |
| BijeloScraper.RunMember | scrapers.py:165-250 | a record of the run from page n comes from page n or from the run after it |
| BijeloScraper.RunAdsDatedToday | scrapers.py:163-250 | every returned record is dated today |
| BijeloScraper.RunKeepsKept | scrapers.py:163-250 | every card kept before any stopping card of its page, on a page between the start and the stop page, has its record in the result |
| BijeloScraper.StopIsLastPage | scrapers.py:163-173 | every page before the last had cards and none stopped; the last is empty or stopped; it is at most one past the last page |
| BijeloScraper.AttrValueOf | scrapers.py:190-193 | an item "name: value" whose value has no colon gives the stripped value |
| GohomeScraper.ScanPage | scrapers.py:291-337 | daily_ads is the number of results posted today and the records appended are theirs, in order |
| GohomeScraper.ExtractAdsGohome | scrapers.py:273-344 | the records returned are those of the run from page 1, and the pages requested are 1 to the last page |
| GohomeScraper.Stop | scrapers.py:340-344 | the last page is never before the page paging starts from |
| GohomeScraper.DailyCountsAds | scrapers.py:303-337 | daily_ads counts exactly the records the page appended |
| GohomeScraper.PageAdsIff | scrapers.py:294-337 | a page's records are exactly those of its results posted today |
| GohomeScraper.RunAdsPostedToday | scrapers.py:329-337 | every returned record is dated "Danas" and comes from a result posted today on a requested page |
| GohomeScraper.RunKeepsPosted | scrapers.py:273-344 | conversely, every result posted today on a page between the start and the stop page has its record in the result |
| GohomeScraper.StopIsLastPage | scrapers.py:276-281 | every page before the last loaded and had a result of today; the last failed to load or had none |
| GohomeScraper.TodayWithCommas | scrapers.py:299-300 | "danas" in any letter case, with commas around it, marks a result posted today |
| GohomeScraper.PriceWithCurrency | scrapers.py:314-318 | price and currency are joined by one space |
| GohomeScraper.PriceWithoutCurrency | scrapers.py:316-318 | without a currency the price stands alone, with no trailing space |
| GohomeScraper.PriceMissing | scrapers.py:314-318 | without price and currency tags the price reads "N/A" |

## Left out

- Browser automation is not modelled: launching the browser, opening tabs,
  navigation, waits, the lazy-loading scroll and closing. Rendered pages are
  inputs, and so are the detail pages behind links.
- HTML parsing is not modelled. Cards and detail pages are records of
  optional strings. Every `get_text(strip=True)` (and Index's `get_text(" ", strip=True)`) is taken as the
  string the record holds.
- The GoHome listing failing to load is an input (`NavError`). The other
  listing loads are not modelled as failing. Index, Plavi and Bijelo jaje do
  not catch such a failure, and it would end the scraper. Plavi opens no
  detail page. A detail page
  that fails to load is not modelled:
  - Index does not catch that failure, and it would end the scraper;
  - Bijelo jaje catches it and skips the card.
- The GoHome `price` and `priceCurrency` meta tags are modelled as always
  having a `content` attribute. The `KeyError` raised when one lacks it is
  not modelled.
- Current dates and `strftime` are not modelled. Each scraper gets today's
  date as a string in its own format.
- `str.lower()` is modelled on ASCII letters only. The targets and "danas"
  are ASCII.
- The fourth scraper, Bijelo jaje, is modelled although main.py never calls
  it.
- The URL templates and their formatting are not modelled. Pages are
  indexed by their page number.
- The GoHome scraper's `scroll_lazy` parameter and the scroll it enables
  (scrapers.py:283-285, on by default) are not modelled. Neither is its
  unused `with_details` parameter.
- The program has no page limit. Index, Bijelo jaje and GoHome page on
  (scrapers.py:16, 165, 275) until a page is empty, stops or finds nothing
  from today. On a site that kept serving such pages they would never end.
  The model covers only sites whose pages run out: the rendered pages are a
  finite sequence, and every page past them is empty.
- The concurrent gathering of the six scrapes in `main` (main.py:135-143) is
  not modelled. Neither is the assembly of the mail body from the category
  tables (main.py:153-164); it is a fixed sequence of calls to the modelled
  table builder.
- File output is not modelled: creating the output directory, opening the
  file, CSV quoting and the returned path. The model produces the table of
  rows.
- Message construction and delivery are not modelled: the MIME parts,
  reading and encoding attachments, and the SMTP login and send.
  `SendEmail` returns the envelope that would be sent.
- Reading the environment variables is not modelled. The recipient parser
  takes the setting's text, and an unset setting is "".
- The `print` diagnostics are not modelled.
- Digest.EmptyListNotice: requires that the title itself has no '<' directly
  followed by 't', because a title holding "<table" brings that tag in.
- IndexScraper.ScanPage, BijeloScraper.ScanPage, GohomeScraper.ScanPage,
  BijeloScraper.ReadCard, BijeloScraper.ReadListPage and Digest.AppendRow
  are pieces of the program's single loop bodies. They are split out as methods so that each proof stays
  small.
