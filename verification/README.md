# Leboncoin category scanner, modelled in Dafny

The repository is a small client for a website-scraping API, used against one
classified-ads marketplace. Its only logic beyond HTTP plumbing is the category
scanner in `utils/leboncoin.py`: a walk over numeric category ids that asks the
search endpoint for each id, tolerates failures up to `max_jump` consecutive ones,
and aggregates what it gets. There are two variants:

- `get_category_list_from_all_ads(max_jump, max_cat)` walks ids `1..max_cat`,
  concatenates every ad of every successful page into `ads_all`, then reduces
  `ads_all` to a catalog: one entry per non-`None` `category_id`, named after the
  first ad carrying that id (`category_name`, else `category`, else `"cat_<id>"`),
  sorted by id.
- `get_category_list(max_jump)` walks ids `1..99` and records, for each successful
  page, an entry built from its first ad, in scan order. It does not catch an
  exception of the search call: that ends the whole scan.

The network is an input: `responses[i - 1]` says how the search for id `i` ends
(`RequestError`, `InvalidJson`, `NoAds`, `Malformed`, or `Page(ads)`, where an empty
list is the "no ads" case). Each method also returns `requested`, the ids it
searched for, so that the termination rule can be stated.

Files:

- `ads.dfy` (module `Ads`): ads, JSON keys that may be missing or `null`,
  responses, catalog and list entries.
- `labels.dfy` (module `Labels`): the fallback name `f"cat_{cid}"`, with Python's
  decimal rendering of an integer.
- `scan.dfy` (module `Scan`): the scan stated over the responses. It defines
  the failure counter (`TrailingFailures`), when the scan stops (`Halts`,
  `IsStopPoint`), what the all-ads scan collects (`Harvest`) and what the
  first-ad scan records (`PageEntries`), with lemmas about each.
- `catalog.dfy` (module `Catalog`): the first-seen-name map, the sort, and
  `BuildCatalog`.
- `leboncoin.dfy` (module `Leboncoin`): the two source functions as methods with
  loops.

The counter rule in one line: `jump` after `n` responses is the number of failures
since the last success (`Scan.TrailingIsLastRun`). The scan stops right after the
request where that number reaches `max_jump`. When `max_jump < 1` the source
stops at the first failure, because the test only runs after `jump` has been
raised to at least 1. `Scan.Limit` captures this: at the top of each iteration
`jump < Limit(max_jump)`.

## Model

| member | source | states |
|---|---|---|
| Leboncoin.ScanAllAds | utils/leboncoin.py:56-95 | ids 1, 2, … are requested in order, never past `max_cat`; the scan stops exactly after the first request at which the consecutive-failure count reaches `max_jump` and not earlier; `ads_all` is the concatenation, in scan order, of the ads of the successful pages requested |
| Leboncoin.CategoryListFromAllAds | utils/leboncoin.py:43-113 | the whole all-ads function: the same request sequence, and the result is the catalog (sorted, one entry per id, first-seen names) of exactly the ads harvested before the scan stopped |
| Leboncoin.CategoryList | utils/leboncoin.py:130-178 | ids 1..99 requested in order; stops after `max_jump` consecutive failures, or with the uncaught exception of the first failing request (`RequestRaised(id)`, the id of that request); otherwise returns one entry per successful page in scan order, built from its first ad |
| Catalog.BuildCatalog | utils/leboncoin.py:97-113 | the catalog is strictly increasing by id, holds exactly the distinct non-`None` ids of the ads, and each entry's name is the one given by the first ad carrying that id |
| Catalog.SortById | utils/leboncoin.py:112 | the sorted list is ordered by `category_id` and is a permutation of the input list |
| Catalog.InsertById | utils/leboncoin.py:112 | inserting an entry into an id-ordered list keeps it ordered and adds exactly that entry |
| Catalog.CategoryIdOf | utils/leboncoin.py:100 | `ad.get("category_id")` gives `None` for a missing key and for `null` alike, and otherwise the id itself |
| Scan.FirstAdEntry | utils/leboncoin.py:165-168 | `get(key, default)`: the page id and `"cat_<id>"` are used only for a missing key; `null` gives `None`; a present value, even an empty name, is kept |
| Scan.CountsAsFailure | utils/leboncoin.py:58-95 | a response adds one to `jump` exactly when it is not a successful page, except that in the first-ad scan a request error is not counted (line 143 is outside any `try`) |
| Scan.Limit | utils/leboncoin.py:63 | the least counter value of at least 1 that passes `jump >= max_jump`: `max_jump` itself, or 1 when `max_jump < 1` |
| Catalog.DisplayName | utils/leboncoin.py:101 | the name is never empty and is the first truthy of `category_name`, `category`, or else `"cat_<id>"` |
| Catalog.FirstNameSnoc | utils/leboncoin.py:104-106 | a later ad changes the recorded name of an id only when no earlier ad carried that id |
| Catalog.FirstNameDefined | utils/leboncoin.py:99-106 | an id gets a catalog name exactly when some ad carries that id; ads whose id is missing or `null` contribute nothing |
| Catalog.FirstSeenWins | utils/leboncoin.py:104-106 | when ad `j` is the first to carry an id, the catalog name of that id is ad `j`'s name, whatever later ads with that id say |
| Catalog.CatalogUnique | utils/leboncoin.py:97-113 | the catalog contract fixes the result: two sorted lists with the same ids and first-seen names are equal |
| Scan.TrailingIsLastRun | utils/leboncoin.py:58-95 | the counter equals the length of the final run of failures: every failure kind adds one and a successful page resets it to 0 |
| Scan.SuccessResets | utils/leboncoin.py:86-89 | failures before a successful page never count towards the limit afterwards |
| Scan.ConsecutiveFailuresHalt | utils/leboncoin.py:60-95 | `max_jump` consecutive failures within the range end the scan at the latest with the last of them; no later id is requested |
| Scan.StopPointUnique | utils/leboncoin.py:56-95 | the number of requested ids is determined by the responses, `max_jump` and `max_cat` |
| Scan.HarvestAppend | utils/leboncoin.py:86-88 | `ads_all` only grows at the end: the harvest of two consecutive stretches of the scan is the concatenation of their harvests |
| Scan.HarvestMembers | utils/leboncoin.py:78-88 | an ad is in `ads_all` exactly when some successful page carries it; failed and empty pages contribute nothing |
| Scan.SuccessIdsExact | utils/leboncoin.py:155-169 | the successful page ids are listed once each, increasing, and exactly the pages with a non-empty `ads` list are listed |
| Scan.PageEntriesFollowSuccesses | utils/leboncoin.py:163-169 | the first-ad list has one entry per successful page, in scan order, each built from that page's first ad, with the page id and `"cat_<id>"` as defaults only for a missing key |
| Scan.ExampleTwoEmptyPagesInARow | utils/leboncoin.py:56-95 | with `max_jump = 2`, pages 1 and 3 full and 2, 4, 5 empty, the scan stops after id 5 although later ids would answer, and has harvested the ads of pages 1 and 3 |
| Labels.NatToDecimal | utils/leboncoin.py:101 | the rendering of a natural number is a non-empty string of decimal digits without a leading zero |
| Labels.DecimalRoundTrip | utils/leboncoin.py:101 | reading the decimal rendering of `n` back gives `n` |
| Labels.IntToDecimal | utils/leboncoin.py:167 | Python's `str(i)`: starts with `-` exactly for negative `i` |
| Labels.CatLabel | utils/leboncoin.py:101 | the fallback name starts with `cat_` and is followed by the id |
| Labels.CatLabelInjective | utils/leboncoin.py:101 | different ids never share a fallback name |

## Left out

- `script/piloterr.py` is not part of this model: the three HTTP calls, the API key from the external `credential` module, and the `unicode_escape`/`latin-1` re-decoding of response text.
- `json.loads` is not modelled. Parsing success or failure is part of each response (`InvalidJson` versus the other outcomes).
- `Malformed` stands for "the step that consumes the `ads` list raised": `extend` in the all-ads scan, `data["ads"][0]` or `.get` in the first-ad scan. Which JSON payloads trigger it is not modelled. In the first-ad scan, a `len(data["ads"])` that raises (a non-sized `ads` value) escapes uncaught; that case is not modelled either.
- `is_404_page` relies on BeautifulSoup HTML parsing, a foreign library. `query_builder` is an unimplemented stub that returns `None`.
- All `print` logging, and the pandas/Excel export in the `__main__` block.
- Emptiness tests that raise are not modelled, and neither scan catches them. At line 78, `"ads" not in data` raises `TypeError` for a truthy body that is not a container (`true`, `42`). On the same line, `data["ads"]` raises for a string or list body that contains `"ads"`. Line 155 behaves the same, and there `data is None` also lets `false` and `0` reach the membership test. The source then raises instead of counting a failure. `Response` has no outcome for these bodies, so `Leboncoin.CategoryListFromAllAds` and `Leboncoin.CategoryList` do not cover that exit.
- Ads hold only the three keys the scanner reads. Category ids are integers. The catalog step's crash on an ad that is not a dict is not modelled. The same goes for Python's `TypeError` when sorting ids of mixed types.
- The sort key `(category_id is None, category_id)` puts `None` last. That part never matters, because ads with a `None` id were skipped before.
- Catalog.SortById: stated only for lists whose ids are distinct, which is the only way the catalog step uses it (the ids are the keys of a dict). Python's stable sort also accepts duplicates. The sorting algorithm itself is not modelled, only its result.
- The responses are a finite input. The methods require one response per id the range can reach (`max_cat`, or 99 for the first-ad scan).

## Notes on the code's behaviour

- `get_category_list` does not catch an exception of the search call (line 143), unlike its other failure kinds. The model ends that scan with `RequestRaised`.
- In `get_category_list`, `dict.get(key, default)` falls back to `i` or `"cat_<i>"` only when the key is absent. A key present with `null` gives `None`, and a present empty name is kept as it is.
- For `max_jump < 1` the scan stops at the first failure. At the top of each iteration `jump < Limit(max_jump)` holds (`Scan.Limit`).
