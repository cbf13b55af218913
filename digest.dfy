/**
 * `generate_common_table` of tables.py: the HTML block of the daily digest
 * for one category of one source.
 */
module Digest {
  import opened Wrappers
  import opened Text
  import opened Ads

  function Heading(title: string): string {
    "<h3>" + title + "</h3>"
  }

  const NoAdsNotice := "<p>" + "<strong>" + "Nema oglasa za danas." + "</strong>" + "</p>" + "<br>"
  const TableOpen := "<table border='1' cellpadding='5' cellspacing='0'>"
  const HeaderRow := "<tr><th>Naziv</th><th>Tip objekta</th><th>Lokacija</th><th>Cijena</th><th>Cijena/m2</th>"
                     + "<th>Broj soba</th><th>Godina izgradnje</th><th>Površina</th><th>Objavljeno</th><th>Opis</th><th>Izvor</th><th>Link</th></tr>"
  const TableClose := "</table><br><br>"
  const CountLabel := "<p><strong>Ukupno pronađeno oglasa: "
  const CountEnd := "</strong></p><br>"

  function Cell(v: string): string {
    "<td>" + v + "</td>"
  }

  function LinkCell(href: string): string {
    "<td><a href='" + href + "' target='_blank'>Otvori</a></td>"
  }

  const RowOpen := "<tr>"
  const RowClose := "</tr>"

  /** One data row: eleven text cells ("N/A" for a missing field) and the link cell ("#" without a link). */
  function AdRow(ad: Ad): string {
    RowOpen
    + Cell(Get(ad, "title", "N/A")) + Cell(Get(ad, "type", "N/A")) + Cell(Get(ad, "location", "N/A"))
    + Cell(Get(ad, "price", "N/A")) + Cell(Get(ad, "price_per_m2", "N/A"))
    + Cell(Get(ad, "number_of_rooms", "N/A")) + Cell(Get(ad, "year_built", "N/A"))
    + Cell(Get(ad, "area", "N/A")) + Cell(Get(ad, "date_posted", "N/A"))
    + Cell(Get(ad, "description", "N/A")) + Cell(Get(ad, "source", "N/A"))
    + LinkCell(Get(ad, "href", "#"))
    + RowClose
  }

  /** The pieces of a list laid end to end. */
  function Concat(pieces: seq<string>): string {
    if pieces == [] then "" else Concat(pieces[..|pieces| - 1]) + pieces[|pieces| - 1]
  }

  /** The row of each ad, in input order. */
  function RowStrings(ads: seq<Ad>): seq<string> {
    seq(|ads|, i requires 0 <= i < |ads| => AdRow(ads[i]))
  }

  /** The data rows of all ads. */
  function AdRows(ads: seq<Ad>): string {
    Concat(RowStrings(ads))
  }

  /** The closing line with the number of ads in decimal. */
  function CountLine(count: nat): string {
    CountLabel + NatToString(count) + CountEnd
  }

  /** The block for a category: a notice when there are no ads, otherwise the table and the count. */
  function CommonTable(ads: seq<Ad>, title: string): string {
    if ads == [] then Heading(title) + NoAdsNotice
    else Heading(title) + TableOpen + HeaderRow + AdRows(ads) + TableClose + CountLine(|ads|)
  }

  /** The fourteen appends that write the row of one ad (tables.py lines 12-25). */
  method AppendRow(html0: string, ad: Ad) returns (html: string)
    ensures html == html0 + AdRow(ad)
  {
    html := html0;
    html := html + RowOpen;
    html := html + Cell(Get(ad, "title", "N/A"));
    html := html + Cell(Get(ad, "type", "N/A"));
    html := html + Cell(Get(ad, "location", "N/A"));
    html := html + Cell(Get(ad, "price", "N/A"));
    html := html + Cell(Get(ad, "price_per_m2", "N/A"));
    html := html + Cell(Get(ad, "number_of_rooms", "N/A"));
    html := html + Cell(Get(ad, "year_built", "N/A"));
    html := html + Cell(Get(ad, "area", "N/A"));
    html := html + Cell(Get(ad, "date_posted", "N/A"));
    html := html + Cell(Get(ad, "description", "N/A"));
    html := html + Cell(Get(ad, "source", "N/A"));
    html := html + LinkCell(Get(ad, "href", "#"));
    html := html + RowClose;
    AppendRowPieces(html0, RowOpen, Cell(Get(ad, "title", "N/A")), Cell(Get(ad, "type", "N/A")),
      Cell(Get(ad, "location", "N/A")), Cell(Get(ad, "price", "N/A")), Cell(Get(ad, "price_per_m2", "N/A")),
      Cell(Get(ad, "number_of_rooms", "N/A")), Cell(Get(ad, "year_built", "N/A")), Cell(Get(ad, "area", "N/A")),
      Cell(Get(ad, "date_posted", "N/A")), Cell(Get(ad, "description", "N/A")), Cell(Get(ad, "source", "N/A")),
      LinkCell(Get(ad, "href", "#")), RowClose);
  }

  /** The HTML is accumulated piece by piece, one row per ad, as tables.py does. */
  method GenerateCommonTable(ads: seq<Ad>, title: string) returns (html: string)
    ensures html == CommonTable(ads, title)
  {
    if ads == [] {
      return Heading(title) + NoAdsNotice;
    }
    html := Heading(title);
    html := html + TableOpen;
    html := html + HeaderRow;
    for i := 0 to |ads|
      invariant html == Heading(title) + TableOpen + HeaderRow + AdRows(ads[..i])
    {
      html := AppendRow(html, ads[i]);
      RowsSoFar(Heading(title) + TableOpen + HeaderRow, ads, i);
    }
    assert ads[..|ads|] == ads;
    html := html + TableClose;
    html := html + CountLine(|ads|);
  }

  /** Appending the pieces of a row one at a time appends the whole row. */
  lemma AppendRowPieces(h: string, p0: string, p1: string, p2: string, p3: string, p4: string, p5: string, p6: string,
                        p7: string, p8: string, p9: string, p10: string, p11: string, p12: string, p13: string)
    ensures h + p0 + p1 + p2 + p3 + p4 + p5 + p6 + p7 + p8 + p9 + p10 + p11 + p12 + p13
         == h + (p0 + p1 + p2 + p3 + p4 + p5 + p6 + p7 + p8 + p9 + p10 + p11 + p12 + p13)
  {
  }

  /** The rows written so far, extended by the row of the next ad. */
  lemma RowsSoFar(prefix: string, ads: seq<Ad>, i: nat)
    requires i < |ads|
    ensures prefix + AdRows(ads[..i]) + AdRow(ads[i]) == prefix + AdRows(ads[..i + 1])
  {
    assert ads[..i + 1] == ads[..i] + [ads[i]];
    AdRowsSnoc(ads[..i], ads[i]);
    Regroup(prefix, AdRows(ads[..i]), AdRow(ads[i]));
  }

  lemma {:induction false} ConcatAppend(xs: seq<string>, ys: seq<string>)
    ensures Concat(xs + ys) == Concat(xs) + Concat(ys)
    decreases |ys|
  {
    if ys == [] {
      assert xs + ys == xs;
    } else {
      var init := ys[..|ys| - 1];
      ConcatAppend(xs, init);
      assert (xs + ys)[..|xs + ys| - 1] == xs + init;
    }
  }

  /** Rows of a concatenation are the rows of each part: no row depends on another ad. */
  lemma AdRowsConcat(xs: seq<Ad>, ys: seq<Ad>)
    ensures AdRows(xs + ys) == AdRows(xs) + AdRows(ys)
  {
    assert RowStrings(xs + ys) == RowStrings(xs) + RowStrings(ys);
    ConcatAppend(RowStrings(xs), RowStrings(ys));
  }

  /** One more ad adds its own row after the others. */
  lemma AdRowsSnoc(ads: seq<Ad>, ad: Ad)
    ensures AdRows(ads + [ad]) == AdRows(ads) + AdRow(ad)
  {
    var rows := RowStrings(ads + [ad]);
    assert rows == RowStrings(ads) + [AdRow(ad)];
    assert rows[..|rows| - 1] == RowStrings(ads);
  }

  /** The row of ad `i` stands between the rows of the ads before it and those after it. */
  lemma RowOfEachAd(ads: seq<Ad>, i: nat)
    requires i < |ads|
    ensures AdRows(ads) == AdRows(ads[..i]) + AdRow(ads[i]) + AdRows(ads[i + 1..])
  {
    assert ads == ads[..i] + [ads[i]] + ads[i + 1..];
    AdRowsConcat(ads[..i] + [ads[i]], ads[i + 1..]);
    AdRowsSnoc(ads[..i], ads[i]);
  }

  /** The count line carries a decimal numeral that reads back as the number of ads. */
  lemma CountLineReadsBack(count: nat)
    ensures exists digits ::
      && CountLine(count) == CountLabel + digits + CountEnd
      && digits != [] && (forall k :: 0 <= k < |digits| ==> IsDigit(digits[k])) && ParseNat(digits) == count
  {
    NatToStringRoundTrip(count);
    var digits := NatToString(count);
    assert CountLine(count) == CountLabel + digits + CountEnd;
  }

  // ------------------------------------------------ the empty-list notice

  /** No '<' is directly followed by 't'; in particular no `<table` tag opens. */
  predicate NoTTag(s: string) {
    forall i :: 0 <= i < |s| - 1 && s[i] == '<' ==> s[i + 1] != 't'
  }

  lemma NoTTagNoTable(s: string)
    requires NoTTag(s)
    ensures !Contains(s, "<table")
  {
    forall i | 0 <= i <= |s| - 6 ensures !At(s, "<table", i) {
      assert s[i..i + 6][0] == s[i] && s[i..i + 6][1] == s[i + 1];
    }
  }

  lemma NoTTagConcat(x: string, y: string)
    requires NoTTag(x) && NoTTag(y)
    requires x == [] || y == [] || x[|x| - 1] != '<' || y[0] != 't'
    ensures NoTTag(x + y)
  {
    var s := x + y;
    forall i | 0 <= i < |s| - 1 && s[i] == '<' ensures s[i + 1] != 't' {
      if i + 1 < |x| {
        assert x[i] == '<';
      } else if i >= |x| {
        assert y[i - |x|] == '<';
      }
    }
  }

  /**
   * An empty list renders the heading and the "no ads today" notice, and no
   * table tag appears unless the title itself opens a tag with 't'.
   */
  lemma EmptyListNotice(title: string)
    requires NoTTag(title)
    ensures !Contains(CommonTable([], title), "<table")
  {
    NoTTagConcat("<h3>", title);
    NoTTagConcat("<h3>" + title, "</h3>");
    var notice := "<p>";
    NoTTagConcat(notice, "<strong>");
    notice := notice + "<strong>";
    NoTTagConcat(notice, "Nema oglasa za danas.");
    notice := notice + "Nema oglasa za danas.";
    NoTTagConcat(notice, "</strong>");
    notice := notice + "</strong>";
    NoTTagConcat(notice, "</p>");
    notice := notice + "</p>";
    NoTTagConcat(notice, "<br>");
    notice := notice + "<br>";
    NoTTagConcat(Heading(title), NoAdsNotice);
    NoTTagNoTable(CommonTable([], title));
  }

  /** The category titles main.py uses render their empty notice without a table. */
  lemma MainTitlesEmptyNotice()
    ensures !Contains(CommonTable([], "Index oglasi"), "<table")
    ensures !Contains(CommonTable([], "Plavi oglasnik"), "<table")
    ensures !Contains(CommonTable([], "GoHome oglasnik"), "<table")
  {
    EmptyListNotice("Index oglasi");
    EmptyListNotice("Plavi oglasnik");
    EmptyListNotice("GoHome oglasnik");
  }

  /** An ad without any field renders "N/A" in every text cell and "#" as its link. */
  lemma EmptyAdRow()
    ensures AdRow(map[]) == RowOpen
      + Cell("N/A") + Cell("N/A") + Cell("N/A") + Cell("N/A") + Cell("N/A") + Cell("N/A")
      + Cell("N/A") + Cell("N/A") + Cell("N/A") + Cell("N/A") + Cell("N/A")
      + LinkCell("#") + RowClose
  {
  }
}
