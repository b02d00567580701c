/** The pass over `$rows` in `indexAction` that rewrites each result row in
    place: display titles with their placeholders, the thumbnail URL, and the
    public item URL under a chosen site. What the host's read API returns for
    an item or a media is an input here. */
module Presentation {
  import opened Wrappers
  import opened Text
  import opened Listing

  const UntitledLabel: String := "[Untitled]"
  const NoTitleLabel: String := "[No title]"
  const NoMediaLabel: String := "[No media]"

  /** What the read API knows of an item: the slug of each of its sites
      (`slug()` may return NULL) and what `siteUrl($slug)` returns; a slug
      without an entry in `urls` stands for a NULL result or an exception,
      both of which leave the URL empty. */
  datatype ItemRep = ItemRep(sites: seq<Option<String>>, urls: map<String, String>)

  /** What the read API knows of a media: its square thumbnail URL, if any. */
  datatype MediaRep = MediaRep(thumbnail: Option<String>)

  /** The slug one site contributes: its trimmed slug, '' for a NULL one. */
  function SiteSlug(site: Option<String>): String {
    Trim(site.GetOr(""))
  }

  /** The item's non-empty trimmed site slugs, in the order of its sites. */
  function ItemSiteSlugs(sites: seq<Option<String>>): (slugs: seq<String>)
    ensures forall s :: s in slugs ==> s != [] && IsTrimmed(s)
    ensures forall k :: 0 <= k < |sites| && SiteSlug(sites[k]) != [] ==> SiteSlug(sites[k]) in slugs
  {
    if sites == [] then []
    else
      var init := sites[..|sites| - 1];
      var slug := SiteSlug(sites[|sites| - 1]);
      assert forall k :: 0 <= k < |sites| - 1 ==> init[k] == sites[k];
      ItemSiteSlugs(init) + (if slug != [] then [slug] else [])
  }

  /** Conversely, each slug comes from one of the item's sites. */
  lemma {:induction false} ItemSiteSlugsFromSites(sites: seq<Option<String>>)
    ensures forall s :: s in ItemSiteSlugs(sites) ==> exists k :: 0 <= k < |sites| && SiteSlug(sites[k]) == s
  {
    if sites != [] {
      var n := |sites| - 1;
      var init := sites[..n];
      var before := ItemSiteSlugs(init);
      ItemSiteSlugsFromSites(init);
      forall s | s in ItemSiteSlugs(sites)
        ensures exists k :: 0 <= k < |sites| && SiteSlug(sites[k]) == s
      {
        if s in before {
          var k :| 0 <= k < n && SiteSlug(init[k]) == s;
          assert sites[k] == init[k];
        } else {
          assert SiteSlug(sites[n]) == s;
        }
      }
    }
  }

  /** The first slug is the slug of the first site whose slug is not
      blank: the fallback `$itemSiteSlugs[0]` is the first site the item has
      a slug for. */
  lemma {:induction false} FirstItemSiteSlug(sites: seq<Option<String>>)
    ensures var slugs := ItemSiteSlugs(sites);
            slugs != [] ==>
              exists k :: 0 <= k < |sites| && SiteSlug(sites[k]) == slugs[0]
                          && forall i :: 0 <= i < k ==> SiteSlug(sites[i]) == []
  {
    if sites != [] {
      var n := |sites| - 1;
      var init := sites[..n];
      var before := ItemSiteSlugs(init);
      var slugs := ItemSiteSlugs(sites);
      FirstItemSiteSlug(init);
      if before != [] {
        var k :| 0 <= k < n && SiteSlug(init[k]) == before[0]
                 && forall i :: 0 <= i < k ==> SiteSlug(init[i]) == [];
        assert forall i :: 0 <= i < k ==> sites[i] == init[i];
        assert slugs[0] == before[0] && sites[k] == init[k];
      } else if SiteSlug(sites[n]) != [] {
        forall i | 0 <= i < n
          ensures SiteSlug(sites[i]) == []
        {
          assert sites[i] == init[i];
        }
      }
    }
  }

  /** The site for the public link: the preferred slug when the item belongs
      to that site, nothing when it does not, and the item's first site when
      no slug is preferred. */
  function ChooseSlug(preferred: String, itemSlugs: seq<String>): (slug: String)
    ensures slug == "" || slug in itemSlugs
    ensures preferred != "" ==> (slug == preferred <==> preferred in itemSlugs)
    ensures preferred != "" && slug != preferred ==> slug == ""
    ensures preferred == "" && itemSlugs != [] ==> slug == itemSlugs[0]
    ensures preferred == "" && itemSlugs == [] ==> slug == ""
  {
    if preferred != "" then (if preferred in itemSlugs then preferred else "")
    else if itemSlugs != [] then itemSlugs[0]
    else ""
  }

  function PublicUrl(rep: ItemRep, preferred: String): String {
    var slug := ChooseSlug(preferred, ItemSiteSlugs(rep.sites));
    if slug != "" && slug in rep.urls then rep.urls[slug] else ""
  }

  /** A trimmed title, or the placeholder when nothing is left. */
  function Label(title: String, placeholder: String): (shown: String)
    requires placeholder != ""
    ensures shown != ""
    ensures Trim(title) != "" ==> shown == Trim(title)
    ensures Trim(title) == "" ==> shown == placeholder
  {
    var t := Trim(title);
    if t == "" then placeholder else t
  }

  /** The media ids of the page's rows, each once, for the media lookup. */
  function MediaIdsToFetch(rows: seq<Row>): (ids: seq<int>)
    ensures NoDups(ids)
    ensures forall id :: id in ids <==> id != 0 && exists k :: 0 <= k < |rows| && rows[k].mediaId == Some(id)
  {
    Unique(PresentMediaIds(rows))
  }

  function PresentMediaIds(rows: seq<Row>): (ids: seq<int>)
    ensures forall id :: id in ids <==> id != 0 && exists k :: 0 <= k < |rows| && rows[k].mediaId == Some(id)
  {
    if rows == [] then []
    else
      var init := rows[..|rows| - 1];
      var last := rows[|rows| - 1].mediaId;
      assert forall k :: 0 <= k < |rows| - 1 ==> init[k] == rows[k];
      PresentMediaIds(init) + (if last.Some? && last.value != 0 then [last.value] else [])
  }

  /** The non-zero item ids of the page's rows, each once, for the item lookup. */
  function ItemIdsToFetch(rows: seq<Row>): (ids: seq<int>)
    ensures NoDups(ids)
    ensures forall id :: id in ids <==> id != 0 && exists k :: 0 <= k < |rows| && rows[k].itemId == id
  {
    Unique(PresentItemIds(rows))
  }

  function PresentItemIds(rows: seq<Row>): (ids: seq<int>)
    ensures forall id :: id in ids <==> id != 0 && exists k :: 0 <= k < |rows| && rows[k].itemId == id
  {
    if rows == [] then []
    else
      var init := rows[..|rows| - 1];
      var last := rows[|rows| - 1].itemId;
      assert forall k :: 0 <= k < |rows| - 1 ==> init[k] == rows[k];
      PresentItemIds(init) + (if last != 0 then [last] else [])
  }

  /** One iteration of the `foreach ($rows as &$row)` loop. */
  function DecorateRow(row: Row, itemReps: map<int, ItemRep>, mediaReps: map<int, MediaRep>, preferred: String): Row {
    var itemId := row.itemId;
    var mediaId := row.mediaId.GetOr(0);
    var url := if itemId > 0 && itemId in itemReps then PublicUrl(itemReps[itemId], preferred) else "";
    var titled := row.(itemTitle := Some(Label(row.itemTitle.GetOr(""), UntitledLabel)), publicItemUrl := url);
    if mediaId > 0 && mediaId in mediaReps then
      titled.(thumbUrl := mediaReps[mediaId].thumbnail.GetOr(""), mediaTitle := Label(row.mediaTitle, NoTitleLabel))
    else
      titled.(thumbUrl := "", mediaTitle := NoMediaLabel, mediaIsPublic := None)
  }

  /** Decoration keeps the row's identity and sort data, always yields
      non-empty titles, clears media data exactly when the media is not
      known to the read API, links a known item under the chosen site
      whenever that site has a URL, and links it only under one of its own
      sites. */
  lemma DecoratedRow(row: Row, itemReps: map<int, ItemRep>, mediaReps: map<int, MediaRep>, preferred: String)
    ensures var d := DecorateRow(row, itemReps, mediaReps, preferred);
            var mediaKnown := row.mediaId.Some? && row.mediaId.value > 0 && row.mediaId.value in mediaReps;
            && d.itemId == row.itemId && d.mediaId == row.mediaId && d.modified == row.modified
            && d.itemTitle.Some? && d.itemTitle.value != "" && IsTrimmed(d.itemTitle.value)
            && d.itemTitle == Some(Label(row.itemTitle.GetOr(""), UntitledLabel))
            && d.mediaTitle != ""
            && (mediaKnown ==> d.mediaIsPublic == row.mediaIsPublic
                               && d.thumbUrl == mediaReps[row.mediaId.value].thumbnail.GetOr("")
                               && (Trim(row.mediaTitle) == "" ==> d.mediaTitle == NoTitleLabel)
                               && (Trim(row.mediaTitle) != "" ==> d.mediaTitle == Trim(row.mediaTitle)))
            && (!mediaKnown ==> d.mediaTitle == NoMediaLabel && d.thumbUrl == "" && d.mediaIsPublic.None?)
            && (row.itemId > 0 && row.itemId in itemReps ==>
                  var slug := ChooseSlug(preferred, ItemSiteSlugs(itemReps[row.itemId].sites));
                  slug != "" && slug in itemReps[row.itemId].urls ==> d.publicItemUrl == itemReps[row.itemId].urls[slug])
            && (d.publicItemUrl != "" ==>
                  && row.itemId > 0 && row.itemId in itemReps
                  && var slug := ChooseSlug(preferred, ItemSiteSlugs(itemReps[row.itemId].sites));
                     slug != "" && slug in ItemSiteSlugs(itemReps[row.itemId].sites)
                     && (preferred != "" ==> slug == preferred)
                     && slug in itemReps[row.itemId].urls && d.publicItemUrl == itemReps[row.itemId].urls[slug])
  {
    assert IsTrimmed(UntitledLabel);
    assert Trim(row.itemTitle.GetOr("")) != "" ==> IsTrimmed(Trim(row.itemTitle.GetOr("")));
  }

  /** The whole loop: every row is rewritten in place. */
  method DecorateRows(rows: array<Row>, itemReps: map<int, ItemRep>, mediaReps: map<int, MediaRep>, preferred: String)
    modifies rows
    ensures forall k :: 0 <= k < rows.Length ==> rows[k] == DecorateRow(old(rows[k]), itemReps, mediaReps, preferred)
  {
    var i := 0;
    while i < rows.Length
      invariant 0 <= i <= rows.Length
      invariant forall k :: 0 <= k < i ==> rows[k] == DecorateRow(old(rows[k]), itemReps, mediaReps, preferred)
      invariant forall k :: i <= k < rows.Length ==> rows[k] == old(rows[k])
    {
      rows[i] := DecorateRow(rows[i], itemReps, mediaReps, preferred);
      i := i + 1;
    }
  }
}
