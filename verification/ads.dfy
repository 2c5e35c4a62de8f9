/** The values the marketplace search endpoint hands back, reduced to what the
    category scanner of utils/leboncoin.py looks at. */
module Ads {

  datatype Option<T> = None | Some(value: T)

  /** One key of a JSON object: absent, present with `null`, or present with a value.
      The scanner distinguishes the first two: `ad.get(key, default)` falls back to
      `default` only when the key is absent, while `ad.get(key)` gives `None` for both. */
  datatype Field<T> = Missing | Null | Present(value: T)

  /** An ad record. Ads carry many more keys; only the three the scanner reads are kept.
      Category ids are modelled as integers. */
  datatype Ad = Ad(categoryId: Field<int>, categoryName: Field<string>, category: Field<string>)

  /** How one search request, for one category id, ends. */
  datatype Response =
    | RequestError        // the search call itself raised
    | InvalidJson         // the body does not parse as JSON
    | NoAds               // the payload is null or empty, or has no "ads" key
    | Malformed           // "ads" is there and non-empty, but consuming it raised
    | Page(ads: seq<Ad>)  // "ads" is a list; the empty list is the "no ads" case

  /** A page that contributes ads: the only outcome that resets the failure counter. */
  predicate Succeeded(r: Response)
  {
    r.Page? && |r.ads| > 0
  }

  /** Python truthiness of a string-valued key: present, not null, not "". */
  predicate Truthy(f: Field<string>)
  {
    f.Present? && f.value != ""
  }

  /** One entry of the first-ad-per-page list. `None` stands for a Python `None`
      that a present-but-null key lets through. */
  datatype Entry = Entry(id: Option<int>, name: Option<string>)

  /** One entry of the deduplicated catalog: the id is never `None` there. */
  datatype Category = Category(id: int, name: string)
}
