/** The second half of `get_category_list_from_all_ads`: reducing the harvested ads
    to one catalog entry per category id, first-seen name, sorted by id. */
module Catalog {
  import opened Ads
  import Labels

  /** `ad.get("category_id")`: `None` for a missing key and for `null` alike. */
  function CategoryIdOf(ad: Ad): (cid: Option<int>)
    ensures cid == None <==> ad.categoryId.Missing? || ad.categoryId.Null?
    ensures cid.Some? ==> ad.categoryId == Present(cid.value)
  {
    if ad.categoryId.Present? then Some(ad.categoryId.value) else None
  }

  /** `ad.get("category_name") or ad.get("category") or f"cat_{cid}"`. */
  function DisplayName(ad: Ad, cid: int): (name: string)
    ensures name != ""
    ensures (Truthy(ad.categoryName) && name == ad.categoryName.value)
         || (!Truthy(ad.categoryName) && Truthy(ad.category) && name == ad.category.value)
         || (!Truthy(ad.categoryName) && !Truthy(ad.category) && name == Labels.CatLabel(cid))
  {
    if Truthy(ad.categoryName) then ad.categoryName.value
    else if Truthy(ad.category) then ad.category.value
    else Labels.CatLabel(cid)
  }

  /** The name the first ad carrying `cid` gives it, if any ad does. */
  function FirstName(ads: seq<Ad>, cid: int): Option<string>
  {
    if ads == [] then None
    else if CategoryIdOf(ads[0]) == Some(cid) then Some(DisplayName(ads[0], cid))
    else FirstName(ads[1..], cid)
  }

  /** The distinct non-`None` category ids occurring in `ads`. */
  function KnownIds(ads: seq<Ad>): set<int>
  {
    set ad | ad in ads && ad.categoryId.Present? :: ad.categoryId.value
  }

  function IdsOf(s: seq<Category>): set<int>
  {
    set c | c in s :: c.id
  }

  /** Ascending by id with no id twice. */
  predicate StrictlyIncreasing(s: seq<Category>)
  {
    forall a, b :: 0 <= a < b < |s| ==> s[a].id < s[b].id
  }

  predicate DistinctIds(s: seq<Category>)
  {
    forall a, b :: 0 <= a < b < |s| ==> s[a].id != s[b].id
  }

  /** Every entry carries the name of the first ad with its id. */
  predicate NamedFirstSeen(ads: seq<Ad>, s: seq<Category>)
  {
    forall c :: c in s ==> FirstName(ads, c.id) == Some(c.name)
  }

  /** What the catalog built from `ads` must be: sorted, one entry per known id,
      each with the name of the first ad carrying that id. */
  predicate IsCatalogOf(catalog: seq<Category>, ads: seq<Ad>)
  {
    StrictlyIncreasing(catalog) &&
    IdsOf(catalog) == KnownIds(ads) &&
    NamedFirstSeen(ads, catalog)
  }

  // ------------------------------------------------------------ first-seen name

  /** Looking at one more ad changes the first name of `cid` only if it had none. */
  lemma {:induction false} FirstNameSnoc(ads: seq<Ad>, ad: Ad, cid: int)
    ensures FirstName(ads + [ad], cid) ==
      if FirstName(ads, cid).Some? then FirstName(ads, cid)
      else if CategoryIdOf(ad) == Some(cid) then Some(DisplayName(ad, cid))
      else None
  {
    if ads == [] {
      assert ads + [ad] == [ad];
    } else {
      assert (ads + [ad])[1..] == ads[1..] + [ad];
      FirstNameSnoc(ads[1..], ad, cid);
    }
  }

  /** An id has a first name exactly when some ad carries it. */
  lemma {:induction false} FirstNameDefined(ads: seq<Ad>, cid: int)
    ensures FirstName(ads, cid).Some? <==> cid in KnownIds(ads)
  {
    if ads != [] {
      FirstNameDefined(ads[1..], cid);
      assert ads == [ads[0]] + ads[1..];
      assert forall ad :: ad in ads <==> ad == ads[0] || ad in ads[1..];
    }
  }

  /** First seen wins: the name is the one of the earliest ad carrying the id,
      whatever later ads with the same id say. */
  lemma {:induction false} FirstSeenWins(ads: seq<Ad>, j: int, cid: int)
    requires 0 <= j < |ads| && CategoryIdOf(ads[j]) == Some(cid)
    requires forall i :: 0 <= i < j ==> CategoryIdOf(ads[i]) != Some(cid)
    ensures FirstName(ads, cid) == Some(DisplayName(ads[j], cid))
  {
    if j > 0 {
      assert forall i :: 0 <= i < j - 1 ==> ads[1..][i] == ads[i + 1];
      FirstSeenWins(ads[1..], j - 1, cid);
    }
  }

  // ------------------------------------------------------------------ sorting

  /** Inserts `c` at its place in an id-sorted list that does not hold its id. */
  function InsertById(s: seq<Category>, c: Category): (r: seq<Category>)
    requires StrictlyIncreasing(s)
    requires c.id !in IdsOf(s)
    ensures StrictlyIncreasing(r)
    ensures multiset(r) == multiset(s) + multiset{c}
  {
    if s == [] then [c]
    else if c.id < s[0].id then
      HeadBelowTail(s);
      ConsIncreasing(c, s);
      [c] + s
    else
      TailIds(s);
      var rest := InsertById(s[1..], c);
      InsertStepProps(s, c, rest);
      [s[0]] + rest
  }

  lemma InsertStepProps(s: seq<Category>, c: Category, rest: seq<Category>)
    requires StrictlyIncreasing(s) && s != [] && c.id !in IdsOf(s) && s[0].id <= c.id
    requires StrictlyIncreasing(rest) && multiset(rest) == multiset(s[1..]) + multiset{c}
    ensures StrictlyIncreasing([s[0]] + rest)
    ensures multiset([s[0]] + rest) == multiset(s) + multiset{c}
  {
    HeadBelowTail(s);
    assert s[0] in s;
    assert s[0].id != c.id;
    ConsIncreasing(s[0], rest);
    assert s == [s[0]] + s[1..];
  }

  /** In an id-sorted list every later entry has a larger id than the head. */
  lemma HeadBelowTail(s: seq<Category>)
    requires StrictlyIncreasing(s) && s != []
    ensures forall x :: x in multiset(s[1..]) ==> s[0].id < x.id
    ensures forall x :: x in multiset(s) ==> s[0].id <= x.id
  {
  }

  lemma ConsIncreasing(h: Category, rest: seq<Category>)
    requires StrictlyIncreasing(rest)
    requires forall x :: x in multiset(rest) ==> h.id < x.id
    ensures StrictlyIncreasing([h] + rest)
  {
  }

  /** `category_list.sort(key=...)` on a list whose ids are distinct: the result is
      ordered by id and is a permutation of the input. */
  method SortById(entries: seq<Category>) returns (sorted: seq<Category>)
    requires DistinctIds(entries)
    ensures StrictlyIncreasing(sorted)
    ensures multiset(sorted) == multiset(entries)
  {
    sorted := [];
    for k := 0 to |entries|
      invariant StrictlyIncreasing(sorted)
      invariant multiset(sorted) == multiset(entries[..k])
    {
      forall x | x in sorted
        ensures x.id != entries[k].id
      {
        assert x in multiset(entries[..k]);
        var m :| 0 <= m < k && entries[m] == x;
      }
      sorted := InsertById(sorted, entries[k]);
      assert entries[..k + 1] == entries[..k] + [entries[k]];
    }
    assert entries[..|entries|] == entries;
  }

  /** Two catalogs of the same ads are equal: the catalog contract leaves no freedom. */
  lemma {:induction false} CatalogUnique(ads: seq<Ad>, s: seq<Category>, t: seq<Category>)
    requires StrictlyIncreasing(s) && StrictlyIncreasing(t) && IdsOf(s) == IdsOf(t)
    requires NamedFirstSeen(ads, s) && NamedFirstSeen(ads, t)
    ensures s == t
    decreases |s|
  {
    NoIdsNoEntries(s);
    NoIdsNoEntries(t);
    if s != [] && t != [] {
      assert s[0] in s && t[0] in t;
      SameHead(ads, s, t);
      TailIds(s);
      TailIds(t);
      NamedTail(ads, s);
      NamedTail(ads, t);
      CatalogUnique(ads, s[1..], t[1..]);
      assert s == [s[0]] + s[1..];
      assert t == [t[0]] + t[1..];
    }
  }

  lemma NamedTail(ads: seq<Ad>, s: seq<Category>)
    requires s != [] && NamedFirstSeen(ads, s)
    ensures NamedFirstSeen(ads, s[1..])
  {
  }

  lemma SameHead(ads: seq<Ad>, s: seq<Category>, t: seq<Category>)
    requires s != [] && t != []
    requires StrictlyIncreasing(s) && StrictlyIncreasing(t) && IdsOf(s) == IdsOf(t)
    requires FirstName(ads, s[0].id) == Some(s[0].name)
    requires FirstName(ads, t[0].id) == Some(t[0].name)
    ensures s[0] == t[0]
  {
    HeadIsMin(s);
    HeadIsMin(t);
    assert s[0].id in IdsOf(s) && t[0].id in IdsOf(t);
  }

  lemma HeadIsMin(s: seq<Category>)
    requires s != [] && StrictlyIncreasing(s)
    ensures forall id :: id in IdsOf(s) ==> s[0].id <= id
  {
  }

  lemma NoIdsNoEntries(s: seq<Category>)
    ensures IdsOf(s) == {} <==> s == []
  {
    if s != [] {
      assert s[0].id in IdsOf(s);
    }
  }

  lemma TailIds(s: seq<Category>)
    requires StrictlyIncreasing(s) && s != []
    ensures IdsOf(s[1..]) == IdsOf(s) - {s[0].id}
    ensures StrictlyIncreasing(s[1..])
  {
  }

  // ----------------------------------------------------------- the catalog

  /** Lines 97-113: fill `categories_map` in one pass keeping each id's first name,
      list its items in insertion order, then sort the list by id. */
  method BuildCatalog(adsAll: seq<Ad>) returns (catalog: seq<Category>)
    ensures IsCatalogOf(catalog, adsAll)
  {
    var names: map<int, string> := map[];
    var order: seq<int> := [];  // the keys of `names` in insertion order, as a dict iterates them
    var k := 0;
    while k < |adsAll|
      invariant 0 <= k <= |adsAll|
      invariant names.Keys == KnownIds(adsAll[..k])
      invariant forall cid :: cid in names ==> FirstName(adsAll[..k], cid) == Some(names[cid])
      invariant forall m :: 0 <= m < |order| ==> order[m] in names
      invariant forall cid :: cid in names ==> cid in order
      invariant forall a, b :: 0 <= a < b < |order| ==> order[a] != order[b]
    {
      var ad := adsAll[k];
      var cid := CategoryIdOf(ad);
      assert adsAll[..k + 1] == adsAll[..k] + [ad];
      forall id ensures FirstName(adsAll[..k + 1], id) ==
        if FirstName(adsAll[..k], id).Some? then FirstName(adsAll[..k], id)
        else if CategoryIdOf(ad) == Some(id) then Some(DisplayName(ad, id))
        else None
      {
        FirstNameSnoc(adsAll[..k], ad, id);
        FirstNameDefined(adsAll[..k], id);
      }
      if cid.Some? && cid.value !in names {
        FirstNameDefined(adsAll[..k], cid.value);
        names := names[cid.value := DisplayName(ad, cid.value)];
        order := order + [cid.value];
      }
      assert forall id :: id in names ==> FirstName(adsAll[..k + 1], id) == Some(names[id]);
      k := k + 1;
    }
    assert adsAll[..k] == adsAll;

    var entries: seq<Category> := [];
    for j := 0 to |order|
      invariant |entries| == j
      invariant forall m :: 0 <= m < j ==> entries[m] == Category(order[m], names[order[m]])
    {
      entries := entries + [Category(order[j], names[order[j]])];
    }
    catalog := SortById(entries);

    forall c | c in catalog
      ensures c.id in names && FirstName(adsAll, c.id) == Some(c.name)
    {
      assert c in multiset(entries);
      var m :| 0 <= m < |entries| && entries[m] == c;
    }
    forall cid | cid in names ensures cid in IdsOf(catalog) {
      var m :| 0 <= m < |order| && order[m] == cid;
      assert entries[m] in multiset(catalog);
    }
  }
}
