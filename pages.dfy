/**
 * What the four scrapers share: the rendered listing pages they walk through,
 * the label/value pairs they read from a detail page, and the way a scraper
 * ends.
 */
module Pages {
  import opened Wrappers
  import opened Ads

  /**
   * Page `n` (numbered from 1) of the rendered pages; a page number past the
   * last rendered page shows `blank`, the page a site serves when it has
   * nothing more to list.
   */
  function PageAt<P>(pages: seq<P>, n: nat, blank: P): P {
    if 1 <= n <= |pages| then pages[n - 1] else blank
  }

  /** The page numbers 1, 2, ..., `last`, in the order they are requested. */
  function PagesUpTo(last: nat): seq<nat> {
    seq(last, i => i + 1)
  }

  /** Requesting one more page extends the list of requested pages by that page. */
  lemma PagesUpToNext(last: nat)
    ensures PagesUpTo(last) + [last + 1] == PagesUpTo(last + 1)
  {
    assert PagesUpTo(last + 1)[last] == last + 1;
  }

  /** How a scraper ends: with its list of ads, or with an exception nobody catches. */
  datatype Outcome = Finished(ads: seq<Ad>) | Raised(error: string)

  /** A label element and the value element beside it; either may be missing from the page. */
  datatype Labelled = Labelled(caption: Option<string>, value: Option<string>)

  predicate Names(item: Labelled, name: string) {
    item.caption == Some(name) && item.value.Some?
  }

  /**
   * The value a scan over `items` leaves in a variable that starts as "N/A"
   * and is overwritten by every complete pair labelled `name`: the last one wins.
   */
  function LastValue(items: seq<Labelled>, name: string): string {
    if items == [] then "N/A"
    else if Names(items[|items| - 1], name) then items[|items| - 1].value.value
    else LastValue(items[..|items| - 1], name)
  }

  /** The value of the last complete pair labelled `name` is the one kept. */
  lemma {:induction false} LastValueIsLast(items: seq<Labelled>, name: string, j: nat)
    requires j < |items| && Names(items[j], name)
    requires forall k :: j < k < |items| ==> !Names(items[k], name)
    ensures LastValue(items, name) == items[j].value.value
    decreases |items|
  {
    if j < |items| - 1 {
      var init := items[..|items| - 1];
      forall k | j < k < |init| ensures !Names(init[k], name) {
        assert init[k] == items[k];
      }
      LastValueIsLast(init, name, j);
    }
  }

  /** Without a complete pair labelled `name` the default stays. */
  lemma {:induction false} LastValueDefault(items: seq<Labelled>, name: string)
    requires forall k :: 0 <= k < |items| ==> !Names(items[k], name)
    ensures LastValue(items, name) == "N/A"
    decreases |items|
  {
    if items != [] {
      var init := items[..|items| - 1];
      forall k | 0 <= k < |init| ensures !Names(init[k], name) {
        assert init[k] == items[k];
      }
      LastValueDefault(init, name);
    }
  }

  /** Pairs with a missing label or value change nothing. */
  lemma {:induction false} LastValueIgnoresIncomplete(items: seq<Labelled>, extra: Labelled, name: string)
    requires extra.caption.None? || extra.value.None?
    ensures LastValue(items + [extra], name) == LastValue(items, name)
  {
    assert (items + [extra])[..|items|] == items;
  }

  /** The values present in a sequence of options, in order. */
  function Present<T>(xs: seq<Option<T>>): seq<T> {
    if xs == [] then []
    else Present(xs[..|xs| - 1]) + (if xs[|xs| - 1].Some? then [xs[|xs| - 1].value] else [])
  }

  /** A value is kept exactly when some entry holds it; nothing is added. */
  lemma {:induction false} PresentIff<T>(xs: seq<Option<T>>, x: T)
    ensures x in Present(xs) <==> exists i :: 0 <= i < |xs| && xs[i] == Some(x)
    ensures |Present(xs)| <= |xs|
  {
    if xs != [] {
      var init := xs[..|xs| - 1];
      PresentIff(init, x);
      if exists i :: 0 <= i < |init| && init[i] == Some(x) {
        var i :| 0 <= i < |init| && init[i] == Some(x);
        assert xs[i] == init[i];
      }
      if exists i :: 0 <= i < |xs| && xs[i] == Some(x) {
        var i :| 0 <= i < |xs| && xs[i] == Some(x);
        if i < |init| {
          assert init[i] == xs[i];
        }
      }
    }
  }

  lemma PresentSnoc<T>(xs: seq<Option<T>>, x: Option<T>)
    ensures Present(xs + [x]) == Present(xs) + (if x.Some? then [x.value] else [])
  {
    assert (xs + [x])[..|xs|] == xs;
  }
}
