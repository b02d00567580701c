/** Normalisation of the listing's query parameters at the top of
    `indexAction`: every malformed value is clamped or defaulted, never
    rejected. Query values arrive already cast by the host (`(int)` for
    `page` and `per_page`); an absent parameter is `None` and takes the
    default that `fromQuery` supplies. */
module Params {
  import opened Wrappers
  import opened Text

  const DefaultPerPage := 50
  const MaxPerPage := 1000

  const SortKeys: seq<String> := ["item_title", "media_title", "modified", "visibility"]
  const Visibilities: seq<String> := ["all", "public", "private"]

  datatype Query = Query(
    page: Option<int>,
    perPage: Option<int>,
    q: Option<String>,
    identifiersText: Option<String>,
    visibility: Option<String>,
    siteSlug: Option<String>,
    sort: Option<String>,
    order: Option<String>)

  /** The normalised parameters; `order` is `"ASC"` or `"DESC"` as spliced
      into the SQL. */
  datatype ListingParams = ListingParams(
    page: int,
    perPage: int,
    offset: int,
    filterText: String,
    identifierText: String,
    visibility: String,
    siteSlug: String,
    sort: String,
    order: String)

  /** Trim each slug, drop empty ones, keep each once: the known site slugs
      fetched from the `site` table (NULL slugs are filtered by the query). */
  function KnownSiteSlugs(rows: seq<Option<String>>): (slugs: seq<String>)
    ensures NoDups(slugs)
    ensures forall s :: s in slugs <==> s != [] && exists k :: 0 <= k < |rows| && rows[k].Some? && Trim(rows[k].value) == s
  {
    Unique(TrimmedSlugs(rows))
  }

  function TrimmedSlugs(rows: seq<Option<String>>): (r: seq<String>)
    ensures forall s :: s in r <==> s != [] && exists k :: 0 <= k < |rows| && rows[k].Some? && Trim(rows[k].value) == s
  {
    if rows == [] then []
    else
      var init := TrimmedSlugs(rows[..|rows| - 1]);
      var last := rows[|rows| - 1];
      assert forall k :: 0 <= k < |rows| - 1 ==> rows[..|rows| - 1][k] == rows[k];
      if last.Some? && Trim(last.value) != [] then init + [Trim(last.value)] else init
  }

  /** `max(1, page)`. */
  function NormalisePage(raw: int): (page: int)
    ensures page >= 1
    ensures raw >= 1 ==> page == raw
    ensures raw < 1 ==> page == 1
  {
    if raw < 1 then 1 else raw
  }

  /** Non-positive sizes fall back to 50; sizes above 1000 are capped. */
  function NormalisePerPage(raw: int): (perPage: int)
    ensures 1 <= perPage <= MaxPerPage
    ensures 1 <= raw <= MaxPerPage ==> perPage == raw
    ensures raw <= 0 ==> perPage == DefaultPerPage
    ensures raw > MaxPerPage ==> perPage == MaxPerPage
  {
    var p := if raw <= 0 then DefaultPerPage else raw;
    if p < MaxPerPage then p else MaxPerPage
  }

  /** The sort key is whitelisted; anything else means `item_title`. */
  function NormaliseSort(raw: String): (sort: String)
    ensures sort in SortKeys
    ensures raw in SortKeys ==> sort == raw
    ensures raw !in SortKeys ==> sort == "item_title"
  {
    if raw in SortKeys then raw else "item_title"
  }

  /** The trimmed visibility filter is whitelisted; anything else means `all`. */
  function NormaliseVisibility(raw: String): (visibility: String)
    ensures visibility in Visibilities
    ensures Trim(raw) in Visibilities ==> visibility == Trim(raw)
    ensures Trim(raw) !in Visibilities ==> visibility == "all"
  {
    var v := Trim(raw);
    if v in Visibilities then v else "all"
  }

  /** `DESC` exactly when the lower-cased input is `desc`; otherwise `ASC`. */
  function NormaliseOrder(raw: String): (order: String)
    ensures order == "DESC" || order == "ASC"
    ensures order == "DESC" <==> Lower(raw) == "desc"
  {
    if Lower(raw) == "desc" then "DESC" else "ASC"
  }

  /** A preferred slug is kept only when it is one of the known slugs. */
  function NormaliseSiteSlug(raw: String, known: seq<String>): (slug: String)
    ensures slug == "" || slug in known
    ensures Trim(raw) in known ==> slug == Trim(raw)
    ensures Trim(raw) !in known ==> slug == ""
  {
    var s := Trim(raw);
    if s != "" && s !in known then "" else s
  }

  /** All of `indexAction`'s parameter handling before the SQL is built. */
  function Normalise(query: Query, siteRows: seq<Option<String>>): (p: ListingParams)
    ensures p.page >= 1
    ensures 1 <= p.perPage <= MaxPerPage
    ensures p.offset == (p.page - 1) * p.perPage
    ensures p.sort in SortKeys && p.visibility in Visibilities
    ensures p.order == "ASC" || p.order == "DESC"
    ensures p.siteSlug == "" || p.siteSlug in KnownSiteSlugs(siteRows)
    ensures IsTrimmed(p.filterText) && IsTrimmed(p.identifierText)
  {
    var page := NormalisePage(query.page.GetOr(1));
    var perPage := NormalisePerPage(query.perPage.GetOr(DefaultPerPage));
    ListingParams(
      page := page,
      perPage := perPage,
      offset := (page - 1) * perPage,
      filterText := Trim(query.q.GetOr("")),
      identifierText := Trim(query.identifiersText.GetOr("")),
      visibility := NormaliseVisibility(query.visibility.GetOr("all")),
      siteSlug := NormaliseSiteSlug(query.siteSlug.GetOr(""), KnownSiteSlugs(siteRows)),
      sort := NormaliseSort(query.sort.GetOr("item_title")),
      order := NormaliseOrder(query.order.GetOr("asc")))
  }

  /** The offset handed to `LIMIT ... OFFSET` is never negative. */
  lemma OffsetNonNegative(query: Query, siteRows: seq<Option<String>>)
    ensures Normalise(query, siteRows).offset >= 0
  {
    var p := Normalise(query, siteRows);
    assert p.page - 1 >= 0 && p.perPage >= 1;
  }

  /** A request that already carries valid values gets them back unchanged. */
  lemma ValidQueryPreserved(query: Query, siteRows: seq<Option<String>>)
    requires query.page.Some? && query.page.value >= 1
    requires query.perPage.Some? && 1 <= query.perPage.value <= MaxPerPage
    requires query.sort.Some? && query.sort.value in SortKeys
    requires query.visibility.Some? && query.visibility.value in Visibilities
    requires query.order.Some? && (query.order.value == "asc" || query.order.value == "desc")
    ensures var p := Normalise(query, siteRows);
            && p.page == query.page.value
            && p.perPage == query.perPage.value
            && p.sort == query.sort.value
            && p.visibility == query.visibility.value
            && p.order == (if query.order.value == "desc" then "DESC" else "ASC")
  {
    var v := query.visibility.value;
    assert IsTrimmed(v);
    TrimOfTrimmed(v);
    assert Lower("asc") == "asc";
    assert Lower("desc") == "desc";
  }
}
