/**
 * The row building of `save_ads_csv` in main.py: a header with twelve fixed
 * columns, then one row per ad, block by block. Opening the file, the
 * directory and the CSV quoting are not part of this model.
 */
module CsvExport {
  import opened Ads

  const Fieldnames: seq<string> := [
    "source", "category", "title", "location", "price", "price_per_m2",
    "area", "number_of_rooms", "year_built", "date_posted", "description", "href"
  ]

  /** One `(source, category, ads)` block handed to the export. */
  datatype Block = Block(source: string, category: string, ads: seq<Ad>)

  /**
   * The row of one ad: the block's two labels, then the ad's own value of
   * each remaining column, empty when the ad lacks it.
   */
  function RowOf(source: string, category: string, ad: Ad): seq<string> {
    [source, category]
    + seq(|Fieldnames| - 2, i requires 0 <= i < |Fieldnames| - 2 => Get(ad, Fieldnames[i + 2], ""))
  }

  function BlockRows(b: Block): seq<seq<string>> {
    seq(|b.ads|, k requires 0 <= k < |b.ads| => RowOf(b.source, b.category, b.ads[k]))
  }

  /** The data rows of all blocks: block order, then ad order. */
  function Rows(blocks: seq<Block>): seq<seq<string>> {
    if blocks == [] then []
    else Rows(blocks[..|blocks| - 1]) + BlockRows(blocks[|blocks| - 1])
  }

  /** The number of ads over all blocks. */
  function TotalAds(blocks: seq<Block>): nat {
    if blocks == [] then 0
    else TotalAds(blocks[..|blocks| - 1]) + |blocks[|blocks| - 1].ads|
  }

  /** `csv.DictWriter.writerow`: the dictionary's values in column order, empty for a missing key. */
  function WriteRow(row: map<string, string>): seq<string> {
    seq(|Fieldnames|, i requires 0 <= i < |Fieldnames| => Get(row, Fieldnames[i], ""))
  }

  /** The dictionary built for an ad, with the labels written over it, is written as `RowOf`. */
  lemma WrittenRow(source: string, category: string, ad: Ad)
    ensures WriteRow((map k | k in Fieldnames :: Get(ad, k, ""))["source" := source]["category" := category])
            == RowOf(source, category, ad)
  {
    var row := (map k | k in Fieldnames :: Get(ad, k, ""))["source" := source]["category" := category];
    var written, expected := WriteRow(row), RowOf(source, category, ad);
    assert |written| == |expected| == |Fieldnames|;
    forall i | 0 <= i < |Fieldnames|
      ensures written[i] == expected[i]
    {
      if i >= 2 {
        var key := Fieldnames[i];
        assert key != "source" && key != "category";
        assert key in Fieldnames;
        assert row[key] == Get(ad, key, "");
      }
    }
  }

  /**
   * The table written: the header, then for every block and every ad in it
   * one row holding the block's labels (over any "source" key of the ad) and
   * the ad's remaining fields.
   */
  method SaveAdsCsv(blocks: seq<Block>) returns (table: seq<seq<string>>)
    ensures table == [Fieldnames] + Rows(blocks)
  {
    table := [Fieldnames];
    for b := 0 to |blocks|
      invariant table == [Fieldnames] + Rows(blocks[..b])
    {
      var Block(source, category, ads) := blocks[b];
      for j := 0 to |ads|
        invariant table == [Fieldnames] + Rows(blocks[..b]) + BlockRows(Block(source, category, ads[..j]))
      {
        var ad := ads[j];
        var row := map k | k in Fieldnames :: Get(ad, k, "");
        row := row["source" := source];
        row := row["category" := category];
        WrittenRow(source, category, ad);
        table := table + [WriteRow(row)];
      }
      assert ads[..|ads|] == ads;
      assert blocks[..b + 1][..b] == blocks[..b];
    }
    assert blocks[..|blocks|] == blocks;
  }

  /** There are as many data rows as ads in all blocks together. */
  lemma {:induction false} RowsCount(blocks: seq<Block>)
    ensures |Rows(blocks)| == TotalAds(blocks)
  {
    if blocks != [] {
      RowsCount(blocks[..|blocks| - 1]);
    }
  }

  /** With no ads at all the file holds the header only. */
  lemma HeaderOnlyWithoutAds(blocks: seq<Block>)
    requires TotalAds(blocks) == 0
    ensures [Fieldnames] + Rows(blocks) == [Fieldnames]
  {
    RowsCount(blocks);
  }

  lemma {:induction false} TotalAdsPrefix(blocks: seq<Block>, b: nat)
    requires b <= |blocks|
    ensures TotalAds(blocks[..b]) <= TotalAds(blocks)
    decreases |blocks|
  {
    if b < |blocks| {
      assert blocks[..|blocks| - 1][..b] == blocks[..b];
      TotalAdsPrefix(blocks[..|blocks| - 1], b);
    } else {
      assert blocks[..b] == blocks;
    }
  }

  /**
   * Row positions follow block order, then ad order: ad `j` of block `b` is
   * the row after all ads of the earlier blocks plus `j`.
   */
  lemma {:induction false} RowsAt(blocks: seq<Block>, b: nat, j: nat)
    requires b < |blocks| && j < |blocks[b].ads|
    ensures TotalAds(blocks[..b]) + j < |Rows(blocks)|
    ensures Rows(blocks)[TotalAds(blocks[..b]) + j]
            == RowOf(blocks[b].source, blocks[b].category, blocks[b].ads[j])
    decreases |blocks|
  {
    var init := blocks[..|blocks| - 1];
    RowsCount(blocks);
    RowsCount(init);
    if b == |blocks| - 1 {
      assert blocks[..b] == init;
    } else {
      assert init[..b] == blocks[..b];
      RowsAt(init, b, j);
    }
  }
}
