/**
 * The location filter of main.py: an ad is kept when its location, title or
 * description mentions one of the target places, in any letter case.
 */
module LocationFilter {
  import opened Text
  import opened Ads

  /** The target places, already in lower case and without spaces. */
  const Targets: seq<string> := ["novska", "jarun", "samobor"]

  /** The lower-cased location, title and description joined by single spaces. */
  function Haystack(ad: Ad): string {
    Lower(Get(ad, "location", "") + " " + Get(ad, "title", "") + " " + Get(ad, "description", ""))
  }

  /** Some target occurs in the haystack (`_matches_targets`). */
  predicate MatchesTargets(ad: Ad): (r: bool)
    ensures r ==> Get(ad, "location", "") != "" || Get(ad, "title", "") != "" || Get(ad, "description", "") != ""
  {
    exists k | 0 <= k < |Targets| :: Contains(Haystack(ad), Targets[k])
  }

  /** The ads that match, in their original order (`filter_ads`). */
  function FilterAds(ads: seq<Ad>): (r: seq<Ad>)
    ensures |r| <= |ads|
    ensures forall a :: a in r ==> MatchesTargets(a)
  {
    if ads == [] then []
    else (if MatchesTargets(ads[0]) then [ads[0]] else []) + FilterAds(ads[1..])
  }

  /** An ad is in the filtered list exactly when it is in the input and matches. */
  lemma {:induction false} FilterAdsMembers(ads: seq<Ad>)
    ensures forall a :: a in FilterAds(ads) <==> a in ads && MatchesTargets(a)
  {
    if ads != [] {
      FilterAdsMembers(ads[1..]);
      assert ads == [ads[0]] + ads[1..];
    }
  }

  /** Filtering a concatenation filters each part: relative order is kept. */
  lemma {:induction false} FilterAdsConcat(xs: seq<Ad>, ys: seq<Ad>)
    ensures FilterAds(xs + ys) == FilterAds(xs) + FilterAds(ys)
  {
    if xs != [] {
      FilterAdsConcat(xs[1..], ys);
      assert (xs + ys)[1..] == xs[1..] + ys;
    } else {
      assert xs + ys == ys;
    }
  }

  /** Filtering an already filtered list changes nothing. */
  lemma {:induction false} FilterAdsIdempotent(ads: seq<Ad>)
    ensures FilterAds(FilterAds(ads)) == FilterAds(ads)
  {
    if ads != [] {
      FilterAdsIdempotent(ads[1..]);
      var head := if MatchesTargets(ads[0]) then [ads[0]] else [];
      FilterAdsConcat(head, FilterAds(ads[1..]));
    }
  }

  /** `idx` picks the elements of `r` out of `ads` at strictly increasing positions. */
  predicate Embeds(idx: seq<nat>, r: seq<Ad>, ads: seq<Ad>) {
    |idx| == |r|
    && (forall k :: 0 <= k < |idx| ==> idx[k] < |ads| && r[k] == ads[idx[k]])
    && (forall k, l :: 0 <= k < l < |idx| ==> idx[k] < idx[l])
  }

  function Shift(idx: seq<nat>): (r: seq<nat>)
    ensures |r| == |idx|
  {
    seq(|idx|, k requires 0 <= k < |idx| => idx[k] + 1)
  }

  lemma EmbedsSkip(idx: seq<nat>, r: seq<Ad>, ads: seq<Ad>)
    requires ads != [] && Embeds(idx, r, ads[1..])
    ensures Embeds(Shift(idx), r, ads)
  {
    var s := Shift(idx);
    forall k | 0 <= k < |s| ensures s[k] < |ads| && r[k] == ads[s[k]] {
      assert ads[1..][idx[k]] == ads[idx[k] + 1];
    }
  }

  lemma EmbedsKeep(idx: seq<nat>, r: seq<Ad>, ads: seq<Ad>)
    requires ads != [] && Embeds(idx, r, ads[1..])
    ensures Embeds([0] + Shift(idx), [ads[0]] + r, ads)
  {
    EmbedsSkip(idx, r, ads);
    var s := [0] + Shift(idx);
    var r' := [ads[0]] + r;
    forall k | 0 < k < |s| ensures s[k] == Shift(idx)[k - 1] && r'[k] == r[k - 1] {
    }
    forall k, l | 0 <= k < l < |s| ensures s[k] < s[l] {
      if k > 0 {
        assert s[k] == Shift(idx)[k - 1] && s[l] == Shift(idx)[l - 1];
      }
    }
  }

  /** The filtered list is a subsequence of the input. */
  lemma {:induction false} FilterAdsSubsequence(ads: seq<Ad>)
    ensures exists idx :: Embeds(idx, FilterAds(ads), ads)
  {
    if ads == [] {
      var none: seq<nat> := [];
      assert FilterAds(ads) == [];
      assert Embeds(none, FilterAds(ads), ads);
    } else {
      FilterAdsSubsequence(ads[1..]);
      var idx' :| Embeds(idx', FilterAds(ads[1..]), ads[1..]);
      if MatchesTargets(ads[0]) {
        EmbedsKeep(idx', FilterAds(ads[1..]), ads);
        assert Embeds([0] + Shift(idx'), FilterAds(ads), ads);
      } else {
        EmbedsSkip(idx', FilterAds(ads[1..]), ads);
        assert Embeds(Shift(idx'), FilterAds(ads), ads);
      }
    }
  }

  lemma HaystackFields(ad: Ad)
    ensures Haystack(ad) == Lower(Get(ad, "location", "")) + " " + Lower(Get(ad, "title", ""))
                            + " " + Lower(Get(ad, "description", ""))
  {
    var l, t, d := Get(ad, "location", ""), Get(ad, "title", ""), Get(ad, "description", "");
    LowerConcat(l + " " + t + " ", d);
    LowerConcat(l + " " + t, " ");
    LowerConcat(l + " ", t);
    LowerConcat(l, " ");
    assert Lower(" ") == " ";
  }

  /**
   * Matching ignores letter case: two ads whose location, title and
   * description agree once lower-cased are kept or dropped together.
   */
  lemma MatchIgnoresCase(ad1: Ad, ad2: Ad)
    requires Lower(Get(ad1, "location", "")) == Lower(Get(ad2, "location", ""))
    requires Lower(Get(ad1, "title", "")) == Lower(Get(ad2, "title", ""))
    requires Lower(Get(ad1, "description", "")) == Lower(Get(ad2, "description", ""))
    ensures MatchesTargets(ad1) <==> MatchesTargets(ad2)
  {
    HaystackFields(ad1);
    HaystackFields(ad2);
  }

  /** Some target occurs in one field, once lower-cased. */
  predicate FieldMatches(ad: Ad, key: string) {
    exists k | 0 <= k < |Targets| :: Contains(Lower(Get(ad, key, "")), Targets[k])
  }

  /** A pattern without spaces occurs in three texts joined by spaces exactly when it occurs in one of them. */
  lemma ContainsInJoined(l: string, t: string, d: string, p: string)
    requires ' ' !in p
    ensures Contains(l + " " + t + " " + d, p) <==> Contains(l, p) || Contains(t, p) || Contains(d, p)
  {
    var rest := t + [' '] + d;
    assert l + " " + t + " " + d == l + [' '] + rest;
    if Contains(l + [' '] + rest, p) {
      ContainsAcross(l, ' ', rest, p);
      if Contains(rest, p) {
        ContainsAcross(t, ' ', d, p);
      }
    }
    if Contains(l, p) {
      ContainsInLeft(l, [' '] + rest, p);
      assert l + ([' '] + rest) == l + [' '] + rest;
    }
    if Contains(t, p) {
      ContainsInLeft(t, [' '] + d, p);
      assert t + ([' '] + d) == rest;
      ContainsInRight(l + [' '], rest, p);
    }
    if Contains(d, p) {
      ContainsInRight(l + [' '] + t + [' '], d, p);
      assert l + [' '] + rest == (l + [' '] + t + [' ']) + d;
    }
  }

  /**
   * There are no matches across fields: an ad matches exactly when one of
   * its three fields on its own contains a target.
   */
  lemma MatchesPerField(ad: Ad)
    ensures MatchesTargets(ad) <==>
      FieldMatches(ad, "location") || FieldMatches(ad, "title") || FieldMatches(ad, "description")
  {
    HaystackFields(ad);
    var l, t, d := Lower(Get(ad, "location", "")), Lower(Get(ad, "title", "")), Lower(Get(ad, "description", ""));
    forall k | 0 <= k < |Targets|
      ensures Contains(Haystack(ad), Targets[k]) <==> Contains(l, Targets[k]) || Contains(t, Targets[k]) || Contains(d, Targets[k])
    {
      ContainsInJoined(l, t, d, Targets[k]);
    }
  }

  /** A capitalised place name in the location alone is enough ("Novska"). */
  lemma CapitalisedLocationMatches(ad: Ad)
    requires Get(ad, "location", "") == "Novska"
    ensures MatchesTargets(ad)
  {
    assert Lower("Novska") == "novska";
    assert At("novska", Targets[0], 0);
    assert FieldMatches(ad, "location");
    MatchesPerField(ad);
  }

  /** Missing location, title and description read as empty, and such an ad never matches. */
  lemma MissingFieldsNeverMatch(ad: Ad)
    requires "location" !in ad && "title" !in ad && "description" !in ad
    ensures !MatchesTargets(ad)
    ensures FilterAds([ad]) == []
  {
    assert |Haystack(ad)| == 2;
  }
}
