/** The two category scanners of utils/leboncoin.py. The search endpoint is replaced
    by `responses`: `responses[i - 1]` is how the search for category id `i` ends.
    Each method also returns `requested`, the ids it sent a search for, in order. */
module Leboncoin {
  import opened Ads
  import opened Scan
  import Catalog

  /** `range(1, 100)`: the first-ad scan probes ids 1 to 99. */
  const LastProbedId := 99

  /** Lines 56-95: walk ids 1..maxCat, append the ads of each successful page to
      `ads_all`, count consecutive failures in `jump` and stop once `jump >= max_jump`.
      The defaults are the source's: `max_jump = 5`, `max_cat = 100`. */
  method ScanAllAds(responses: seq<Response>, maxJump: int := 5, maxCat: int := 100)
    returns (adsAll: seq<Ad>, requested: seq<int>)
    requires maxCat <= |responses|
    ensures IsStopPoint(AllAds, responses, maxJump, maxCat, |requested|)
    ensures forall j :: 0 <= j < |requested| ==> requested[j] == j + 1
    ensures adsAll == Harvest(responses[..|requested|])
  {
    adsAll, requested := [], [];
    var jump := 0;
    var i := 1;
    while i <= maxCat
      invariant 1 <= i <= Bound(maxCat) + 1
      invariant |requested| == i - 1
      invariant forall j :: 0 <= j < |requested| ==> requested[j] == j + 1
      invariant jump == TrailingFailures(AllAds, responses[..i - 1]) && jump < Limit(maxJump)
      invariant forall k :: 1 <= k < i ==> !Halts(AllAds, responses, maxJump, k)
      invariant adsAll == Harvest(responses[..i - 1])
    {
      requested := requested + [i];
      Advance(responses, i);
      match responses[i - 1] {
      case RequestError =>
        jump := jump + 1;
        if jump >= maxJump { break; }
      case InvalidJson =>
        jump := jump + 1;
        if jump >= maxJump { break; }
      case NoAds =>
        jump := jump + 1;
        if jump >= maxJump { break; }
      case Malformed =>
        jump := jump + 1;
        if jump >= maxJump { break; }
      case Page(ads) =>
        if |ads| == 0 {
          jump := jump + 1;
          if jump >= maxJump { break; }
        } else {
          adsAll := adsAll + ads;
          jump := 0;
        }
      }
      i := i + 1;
    }
  }

  /** `get_category_list_from_all_ads`: the scan, then the catalog of its ads
      (defaults `max_jump = 5`, `max_cat = 100`). */
  method CategoryListFromAllAds(responses: seq<Response>, maxJump: int := 5, maxCat: int := 100)
    returns (catalog: seq<Category>, requested: seq<int>)
    requires maxCat <= |responses|
    ensures IsStopPoint(AllAds, responses, maxJump, maxCat, |requested|)
    ensures forall j :: 0 <= j < |requested| ==> requested[j] == j + 1
    ensures Catalog.IsCatalogOf(catalog, Harvest(responses[..|requested|]))
  {
    var adsAll;
    adsAll, requested := ScanAllAds(responses, maxJump, maxCat);
    catalog := Catalog.BuildCatalog(adsAll);
  }

  /** How `get_category_list` ends: with its list, or with the exception of the
      search for id `id`, which it does not catch. */
  datatype FirstAdOutcome = Finished(entries: seq<Entry>) | RequestRaised(id: int)

  /** `get_category_list`: walk ids 1..99, record the first ad of each successful
      page, count consecutive failures and stop once `jump >= max_jump` (default 5). */
  method CategoryList(responses: seq<Response>, maxJump: int := 5)
    returns (outcome: FirstAdOutcome, requested: seq<int>)
    requires LastProbedId <= |responses|
    ensures IsStopPoint(FirstAd, responses, maxJump, LastProbedId, |requested|)
    ensures forall j :: 0 <= j < |requested| ==> requested[j] == j + 1
    ensures 1 <= |requested|
    ensures outcome.RequestRaised? <==> responses[|requested| - 1].RequestError?
    ensures outcome.RequestRaised? ==> outcome.id == |requested|
    ensures outcome.Finished? ==> outcome.entries == PageEntries(responses[..|requested|])
  {
    var categoryList: seq<Entry> := [];
    requested := [];
    var jump := 0;
    var i := 1;
    while i < LastProbedId + 1
      invariant 1 <= i <= LastProbedId + 1
      invariant |requested| == i - 1
      invariant forall j :: 0 <= j < |requested| ==> requested[j] == j + 1
      invariant jump == TrailingFailures(FirstAd, responses[..i - 1]) && jump < Limit(maxJump)
      invariant forall k :: 1 <= k < i ==> !Halts(FirstAd, responses, maxJump, k)
      invariant categoryList == PageEntries(responses[..i - 1])
    {
      requested := requested + [i];
      Advance(responses, i);
      match responses[i - 1] {
      case RequestError =>
        return RequestRaised(i), requested;
      case InvalidJson =>
        jump := jump + 1;
        if jump >= maxJump { break; }
      case NoAds =>
        jump := jump + 1;
        if jump >= maxJump { break; }
      case Malformed =>
        jump := jump + 1;
        if jump >= maxJump { break; }
      case Page(ads) =>
        if |ads| == 0 {
          jump := jump + 1;
          if jump >= maxJump { break; }
        } else {
          categoryList := categoryList + [FirstAdEntry(ads[0], i)];
          jump := 0;
        }
      }
      i := i + 1;
    }
    if i == LastProbedId + 1 {
      assert !Halts(FirstAd, responses, maxJump, LastProbedId);
    }
    outcome := Finished(categoryList);
  }
}
