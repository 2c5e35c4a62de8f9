/** What both category scans of utils/leboncoin.py do, stated over the sequence of
    responses: which ids get requested, when the scan stops, and what it collects.
    `rs[i - 1]` is the response to the search for category id `i`. */
module Scan {
  import opened Ads
  import Labels

  /** The two scanning functions: every ad of every page, or the first ad per page. */
  datatype Variant = AllAds | FirstAd

  /** Whether a response adds one to the consecutive-failure counter `jump`.
      The first-ad scan does not catch a failing request: it aborts instead. */
  predicate CountsAsFailure(v: Variant, r: Response)
    ensures CountsAsFailure(v, r) ==> !Succeeded(r)
    ensures !r.RequestError? ==> (CountsAsFailure(v, r) <==> !Succeeded(r))
    ensures r.RequestError? ==> (CountsAsFailure(v, r) <==> v == AllAds)
  {
    match r
    case RequestError => v == AllAds
    case InvalidJson => true
    case NoAds => true
    case Malformed => true
    case Page(ads) => |ads| == 0
  }

  /** The value of `jump` after the responses `rs`: the failures since the last success. */
  function TrailingFailures(v: Variant, rs: seq<Response>): (t: nat)
    ensures t <= |rs|
  {
    if rs == [] then 0
    else if CountsAsFailure(v, rs[|rs| - 1]) then TrailingFailures(v, rs[..|rs| - 1]) + 1
    else 0
  }

  /** The counter value at which `jump >= max_jump` first stops the scan. The test
      only follows a failure, so `jump` is at least 1 there and any `max_jump < 1`
      acts as 1. */
  function Limit(maxJump: int): (l: int)
    ensures l >= 1 && l >= maxJump
    ensures l == 1 || l == maxJump
  {
    if maxJump < 1 then 1 else maxJump
  }

  /** The number of ids `range(1, maxCat + 1)` walks. */
  function Bound(maxCat: int): nat
  {
    if maxCat < 0 then 0 else maxCat
  }

  /** The scan ends with the request for id `n`: the failure limit is reached there,
      or (first-ad scan only) that request raised. */
  predicate Halts(v: Variant, rs: seq<Response>, maxJump: int, n: int)
    requires n <= |rs|
  {
    1 <= n &&
    (TrailingFailures(v, rs[..n]) >= Limit(maxJump) || (v == FirstAd && rs[n - 1].RequestError?))
  }

  /** `n` ids are requested, 1 to `n`: the scan did not end before `n`, and it ended
      at `n` unless `n` is the last id of the range. */
  predicate IsStopPoint(v: Variant, rs: seq<Response>, maxJump: int, maxCat: int, n: int)
    requires maxCat <= |rs|
  {
    0 <= n <= Bound(maxCat) &&
    (forall k :: 1 <= k < n ==> !Halts(v, rs, maxJump, k)) &&
    (n < maxCat ==> Halts(v, rs, maxJump, n))
  }

  /** `ads_all`: the ads of the successful pages, concatenated in scan order. */
  function Harvest(rs: seq<Response>): seq<Ad>
  {
    if rs == [] then []
    else Harvest(rs[..|rs| - 1]) + (if Succeeded(rs[|rs| - 1]) then rs[|rs| - 1].ads else [])
  }

  /** The entry the first-ad scan builds from the first ad of the page for id `i`:
      each key falls back to its default only when it is absent. */
  function FirstAdEntry(ad: Ad, i: int): (e: Entry)
    ensures ad.categoryId.Missing? ==> e.id == Some(i)
    ensures e.id == None <==> ad.categoryId.Null?
    ensures ad.categoryId.Present? ==> e.id == Some(ad.categoryId.value)
    ensures ad.categoryName.Missing? ==> e.name == Some(Labels.CatLabel(i))
    ensures e.name == None <==> ad.categoryName.Null?
    ensures ad.categoryName.Present? ==> e.name == Some(ad.categoryName.value)
  {
    Entry(
      match ad.categoryId
      case Missing => Some(i)
      case Null => None
      case Present(cid) => Some(cid),
      match ad.categoryName
      case Missing => Some(Labels.CatLabel(i))
      case Null => None
      case Present(name) => Some(name))
  }

  /** `category_list` of the first-ad scan: one entry per successful page. */
  function PageEntries(rs: seq<Response>): seq<Entry>
  {
    if rs == [] then []
    else
      var last := rs[|rs| - 1];
      PageEntries(rs[..|rs| - 1]) + (if Succeeded(last) then [FirstAdEntry(last.ads[0], |rs|)] else [])
  }

  /** The ids of the successful pages, in scan order. */
  function SuccessIds(rs: seq<Response>): seq<int>
  {
    if rs == [] then []
    else SuccessIds(rs[..|rs| - 1]) + (if Succeeded(rs[|rs| - 1]) then [|rs|] else [])
  }

  // ---------------------------------------------------------------- lemmas

  /** What the request for id `i` adds: the one-step unfolding the scan loops use. */
  lemma Advance(rs: seq<Response>, i: int)
    requires 1 <= i <= |rs|
    ensures forall v ::
              TrailingFailures(v, rs[..i]) ==
              if CountsAsFailure(v, rs[i - 1]) then TrailingFailures(v, rs[..i - 1]) + 1 else 0
    ensures Harvest(rs[..i]) == Harvest(rs[..i - 1]) + (if Succeeded(rs[i - 1]) then rs[i - 1].ads else [])
    ensures PageEntries(rs[..i]) ==
      PageEntries(rs[..i - 1]) + (if Succeeded(rs[i - 1]) then [FirstAdEntry(rs[i - 1].ads[0], i)] else [])
  {
    assert rs[..i][..i - 1] == rs[..i - 1];
    assert rs[..i][i - 1] == rs[i - 1];
  }

  /** `jump` counts exactly the failures since the last success: the last
      `TrailingFailures` responses all failed and the one before did not. */
  lemma {:induction false} TrailingIsLastRun(v: Variant, rs: seq<Response>)
    ensures forall j :: |rs| - TrailingFailures(v, rs) <= j < |rs| ==> CountsAsFailure(v, rs[j])
    ensures TrailingFailures(v, rs) < |rs| ==> !CountsAsFailure(v, rs[|rs| - 1 - TrailingFailures(v, rs)])
  {
    if rs != [] && CountsAsFailure(v, rs[|rs| - 1]) {
      var init := rs[..|rs| - 1];
      TrailingIsLastRun(v, init);
      assert forall j :: 0 <= j < |init| ==> init[j] == rs[j];
    }
  }

  /** A success resets the counter: failures before it never count towards the limit. */
  lemma SuccessResets(v: Variant, rs: seq<Response>, j: int, m: int)
    requires 0 <= j < m <= |rs|
    requires Succeeded(rs[j])
    ensures TrailingFailures(v, rs[..m]) < m - j
  {
    var prefix := rs[..m];
    TrailingIsLastRun(v, prefix);
    assert prefix[j] == rs[j];
  }

  /** `max_jump` consecutive failures inside the range end the scan at the latest
      with the last of them. */
  lemma ConsecutiveFailuresHalt(v: Variant, rs: seq<Response>, maxJump: int, maxCat: int, n: int, j: int)
    requires maxCat <= |rs|
    requires IsStopPoint(v, rs, maxJump, maxCat, n)
    requires 0 <= j && j + Limit(maxJump) <= Bound(maxCat)
    requires forall m :: j <= m < j + Limit(maxJump) ==> CountsAsFailure(v, rs[m])
    ensures n <= j + Limit(maxJump)
  {
    var e := j + Limit(maxJump);
    var prefix := rs[..e];
    TrailingIsLastRun(v, prefix);
    assert forall m :: j <= m < e ==> prefix[m] == rs[m];
    assert Halts(v, rs, maxJump, e);
  }

  /** The stop point is unique: the scan's length is a function of its inputs. */
  lemma StopPointUnique(v: Variant, rs: seq<Response>, maxJump: int, maxCat: int, n: int, m: int)
    requires maxCat <= |rs|
    requires IsStopPoint(v, rs, maxJump, maxCat, n)
    requires IsStopPoint(v, rs, maxJump, maxCat, m)
    ensures n == m
  {
  }

  /** Pages are only ever appended: the harvest of a split scan is the two harvests. */
  lemma {:induction false} HarvestAppend(a: seq<Response>, b: seq<Response>)
    ensures Harvest(a + b) == Harvest(a) + Harvest(b)
    decreases |b|
  {
    if b != [] {
      var init := b[..|b| - 1];
      assert (a + b)[..|a + b| - 1] == a + init;
      assert (a + b)[|a + b| - 1] == b[|b| - 1];
      HarvestAppend(a, init);
    } else {
      assert a + b == a;
    }
  }

  /** An ad is harvested exactly when some successful page carries it. */
  lemma {:induction false} HarvestMembers(rs: seq<Response>, ad: Ad)
    ensures ad in Harvest(rs) <==> exists j :: 0 <= j < |rs| && Succeeded(rs[j]) && ad in rs[j].ads
  {
    if rs != [] {
      var init := rs[..|rs| - 1];
      HarvestMembers(init, ad);
      assert forall j :: 0 <= j < |init| ==> init[j] == rs[j];
      if ad in Harvest(rs) && ad !in Harvest(init) {
        assert Succeeded(rs[|rs| - 1]) && ad in rs[|rs| - 1].ads;
      }
    }
  }

  /** `SuccessIds` lists exactly the ids of the successful pages, each once, increasing. */
  lemma {:induction false} SuccessIdsExact(rs: seq<Response>)
    ensures forall a, b :: 0 <= a < b < |SuccessIds(rs)| ==> SuccessIds(rs)[a] < SuccessIds(rs)[b]
    ensures forall p :: p in SuccessIds(rs) <==> 1 <= p <= |rs| && Succeeded(rs[p - 1])
  {
    if rs != [] {
      var init := rs[..|rs| - 1];
      SuccessIdsExact(init);
      assert forall j :: 0 <= j < |init| ==> init[j] == rs[j];
      assert forall a :: 0 <= a < |SuccessIds(init)| ==> SuccessIds(init)[a] in SuccessIds(init);
    }
  }

  /** The first-ad list has one entry per successful page, in scan order, each built
      from that page's first ad with the page's id as default. */
  lemma {:induction false} PageEntriesFollowSuccesses(rs: seq<Response>)
    ensures |PageEntries(rs)| == |SuccessIds(rs)|
    ensures forall j :: 0 <= j < |SuccessIds(rs)| ==>
      var p := SuccessIds(rs)[j];
      1 <= p <= |rs| && Succeeded(rs[p - 1]) && PageEntries(rs)[j] == FirstAdEntry(rs[p - 1].ads[0], p)
  {
    if rs != [] {
      var init := rs[..|rs| - 1];
      PageEntriesFollowSuccesses(init);
      assert forall j :: 0 <= j < |init| ==> init[j] == rs[j];
    }
  }

  /** With `max_jump = 2`, ids 1 and 3 returning ads and 2, 4, 5 empty, the scan
      stops after id 5 although ids 6 and 7 would have answered, and has collected
      the ads of pages 1 and 3 only. */
  lemma ExampleTwoEmptyPagesInARow(a1: Ad, a3: Ad, n: int)
    requires IsStopPoint(AllAds, [Page([a1]), NoAds, Page([a3]), NoAds, NoAds, Page([a1]), Page([a3])], 2, 7, n)
    ensures n == 5
    ensures Harvest([Page([a1]), NoAds, Page([a3]), NoAds, NoAds, Page([a1]), Page([a3])][..n]) == [a1, a3]
  {
    var rs := [Page([a1]), NoAds, Page([a3]), NoAds, NoAds, Page([a1]), Page([a3])];
    assert rs[..1][..0] == [] && rs[..2][..1] == rs[..1] && rs[..3][..2] == rs[..2];
    assert rs[..4][..3] == rs[..3] && rs[..5][..4] == rs[..4];
    assert TrailingFailures(AllAds, rs[..1]) == 0;
    assert TrailingFailures(AllAds, rs[..2]) == 1;
    assert TrailingFailures(AllAds, rs[..3]) == 0;
    assert TrailingFailures(AllAds, rs[..4]) == 1;
    assert TrailingFailures(AllAds, rs[..5]) == 2;
    assert Halts(AllAds, rs, 2, 5);
    assert Harvest(rs[..1]) == [a1];
    assert Harvest(rs[..3]) == [a1, a3];
  }
}
