/** The listing query of `indexAction`: every item joined with its first
    media, filtered by the `WHERE` parts, ordered by the chosen sort
    expression in the chosen direction and then by item id ascending, and cut
    to one page; `total` is the number of filtered rows. */
module Listing {
  import opened Wrappers
  import opened Text
  import opened Tables
  import opened Params
  import Identifiers
  import Resolver

  /** A result row. The first six fields come from the SQL; `thumbUrl` and
      `publicItemUrl` are filled in later by the presentation step. */
  datatype Row = Row(
    itemId: int,
    itemTitle: Option<String>,
    modified: int,
    mediaId: Option<int>,
    mediaTitle: String,
    mediaIsPublic: Option<bool>,
    thumbUrl: String,
    publicItemUrl: String)

  /** `COALESCE(NULLIF(rm.title, ''), fm.source, '')`. */
  function MediaTitleColumn(m: MediaRow): (t: String)
    ensures m.title.Some? && m.title.value != "" ==> t == m.title.value
    ensures (m.title.None? || m.title.value == "") && m.source.Some? ==> t == m.source.value
    ensures (m.title.None? || m.title.value == "") && m.source.None? ==> t == ""
  {
    if m.title.Some? && m.title.value != "" then m.title.value
    else m.source.GetOr("")
  }

  /** The joined row of one item: `LEFT JOIN media fm ON fm.id = (first media)`. */
  function JoinRow(db: Db, item: ItemRow): (r: Row)
    ensures r.itemId == item.id && r.itemTitle == item.title
    ensures r.modified == (if item.modified.Some? then item.modified.value else item.created)
    ensures r.mediaId.Some? <==> FirstMedia(db.media, item.id).Some?
    ensures match FirstMedia(db.media, item.id)
            case None => r.mediaIsPublic.None? && r.mediaTitle == ""
            case Some(m) =>
              && r.mediaId == Some(m.id) && r.mediaIsPublic == Some(m.isPublic)
              && r.mediaTitle == MediaTitleColumn(m)
    ensures r.thumbUrl == "" && r.publicItemUrl == ""
  {
    var first := FirstMedia(db.media, item.id);
    Row(
      itemId := item.id,
      itemTitle := item.title,
      modified := item.modified.GetOr(item.created),
      mediaId := if first.Some? then Some(first.value.id) else None,
      mediaTitle := if first.Some? then MediaTitleColumn(first.value) else "",
      mediaIsPublic := if first.Some? then Some(first.value.isPublic) else None,
      thumbUrl := "",
      publicItemUrl := "")
  }

  function JoinedRows(db: Db): (rows: seq<Row>)
    ensures |rows| == |db.items|
    ensures forall k :: 0 <= k < |rows| ==> rows[k] == JoinRow(db, db.items[k])
  {
    seq(|db.items|, k requires 0 <= k < |db.items| => JoinRow(db, db.items[k]))
  }

  // ---------------------------------------------------------------- WHERE

  /** One entry of `$whereParts`. */
  datatype Condition =
    | TitleLike(text: String)        // item title or media title/source contains the text
    | MediaPublicIs(flag: bool)      // `rm.is_public = 1` or `= 0`
    | MatchNothing                   // `1 = 0`
    | ItemIdIn(ids: seq<int>)        // `i.id IN (...)`

  predicate Holds(c: Condition, r: Row) {
    match c
    case TitleLike(text) =>
      (r.itemTitle.Some? && Contains(r.itemTitle.value, text)) || Contains(r.mediaTitle, text)
    case MediaPublicIs(flag) => r.mediaIsPublic == Some(flag)
    case MatchNothing => false
    case ItemIdIn(ids) => r.itemId in ids
  }

  predicate MatchesAll(conds: seq<Condition>, r: Row) {
    forall c :: c in conds ==> Holds(c, r)
  }

  /** The `WHERE` parts, in the order the controller appends them. The
      identifier part is present exactly when there are tokens. */
  function WhereParts(p: ListingParams, tokens: seq<String>, ids: seq<int>): (conds: seq<Condition>)
    ensures p.filterText != "" ==> TitleLike(p.filterText) in conds
    ensures p.visibility == "public" ==> MediaPublicIs(true) in conds
    ensures p.visibility == "private" ==> MediaPublicIs(false) in conds
    ensures tokens != [] ==> (if ids == [] then MatchNothing in conds else ItemIdIn(ids) in conds)
    ensures forall c :: c in conds ==>
              && (c.TitleLike? ==> p.filterText != "" && c.text == p.filterText)
              && (c.MediaPublicIs? ==> (p.visibility == "public" && c.flag) || (p.visibility == "private" && !c.flag))
              && (c.MatchNothing? ==> tokens != [] && ids == [])
              && (c.ItemIdIn? ==> tokens != [] && ids != [] && c.ids == ids)
  {
    (if p.filterText != "" then [TitleLike(p.filterText)] else [])
    + (if p.visibility == "public" then [MediaPublicIs(true)]
       else if p.visibility == "private" then [MediaPublicIs(false)]
       else [])
    + (if tokens == [] then []
       else if ids == [] then [MatchNothing]
       else [ItemIdIn(ids)])
  }

  const IdParamPrefix: String := "identifier_item_id_"

  /** The name of the query parameter bound to the `index`-th resolved id. */
  function IdParamName(index: nat): String {
    IdParamPrefix + DecimalString(index)
  }

  lemma IdParamNamesDistinct(a: nat, b: nat)
    requires a != b
    ensures IdParamName(a) != IdParamName(b)
  {
    assert IdParamName(a)[|IdParamPrefix|..] == DecimalString(a);
    assert IdParamName(b)[|IdParamPrefix|..] == DecimalString(b);
  }

  /** The loop that turns the resolved ids into the placeholders of
      `i.id IN (...)` and their bound values: one fresh parameter per id,
      bound to that id, and no other parameter. Reading each placeholder's
      bound value in placeholder order gives back `ids`, so the SQL part
      tests exactly the `ItemIdIn(ids)` that `Filter` evaluates. */
  method BindIdentifierIds(ids: seq<int>) returns (placeholders: seq<String>, params: map<String, int>)
    ensures |placeholders| == |ids|
    ensures forall i :: 0 <= i < |ids| ==> placeholders[i] == [':'] + IdParamName(i)
    ensures forall i :: 0 <= i < |ids| ==> IdParamName(i) in params && params[IdParamName(i)] == ids[i]
    ensures forall name :: name in params ==> exists i :: 0 <= i < |ids| && name == IdParamName(i)
    ensures forall i :: 0 <= i < |placeholders| ==>
              placeholders[i][1..] in params && params[placeholders[i][1..]] == ids[i]
  {
    placeholders, params := [], map[];
    var index := 0;
    while index < |ids|
      invariant 0 <= index <= |ids|
      invariant |placeholders| == index
      invariant forall i :: 0 <= i < index ==> placeholders[i] == [':'] + IdParamName(i)
      invariant forall i :: 0 <= i < index ==> IdParamName(i) in params && params[IdParamName(i)] == ids[i]
      invariant forall name :: name in params ==> exists i :: 0 <= i < index && name == IdParamName(i)
    {
      var name := IdParamName(index);
      forall i | 0 <= i < index
        ensures IdParamName(i) != name
      {
        IdParamNamesDistinct(i, index);
      }
      placeholders := placeholders + [[':'] + name];
      params := params[name := ids[index]];
      index := index + 1;
    }
  }

  /** The rows the `WHERE` clause keeps, in scan order. */
  function Filter(rows: seq<Row>, conds: seq<Condition>): (kept: seq<Row>)
    ensures |kept| <= |rows|
    ensures forall r :: r in kept <==> r in rows && MatchesAll(conds, r)
    ensures multiset(kept) <= multiset(rows)
  {
    if rows == [] then []
    else
      var init := rows[..|rows| - 1];
      var last := rows[|rows| - 1];
      assert rows == init + [last];
      Filter(init, conds) + (if MatchesAll(conds, last) then [last] else [])
  }

  lemma {:induction false} FilterRejectingAll(rows: seq<Row>, conds: seq<Condition>)
    requires MatchNothing in conds
    ensures Filter(rows, conds) == []
  {
    if rows != [] {
      FilterRejectingAll(rows[..|rows| - 1], conds);
      assert !Holds(MatchNothing, rows[|rows| - 1]);
    }
  }

  // ------------------------------------------------------------- ORDER BY

  /** Lexicographic order on code sequences; strings compare code point by
      code point and a proper prefix comes first. */
  predicate LexLess(a: seq<int>, b: seq<int>) {
    if b == [] then false
    else if a == [] then true
    else if a[0] != b[0] then a[0] < b[0]
    else LexLess(a[1..], b[1..])
  }

  lemma {:induction false} LexLessTransitive(a: seq<int>, b: seq<int>, c: seq<int>)
    requires LexLess(a, b) && LexLess(b, c)
    ensures LexLess(a, c)
  {
    if a != [] && a[0] == b[0] && b[0] == c[0] {
      LexLessTransitive(a[1..], b[1..], c[1..]);
    }
  }

  lemma {:induction false} LexLessTotal(a: seq<int>, b: seq<int>)
    requires a != b
    ensures LexLess(a, b) || LexLess(b, a)
  {
    if a != [] && b != [] && a[0] == b[0] {
      assert a == [a[0]] + a[1..] && b == [b[0]] + b[1..];
      LexLessTotal(a[1..], b[1..]);
    }
  }

  lemma {:induction false} LexLessAsymmetric(a: seq<int>, b: seq<int>)
    requires LexLess(a, b)
    ensures !LexLess(b, a)
  {
    if a != [] && a[0] == b[0] {
      LexLessAsymmetric(a[1..], b[1..]);
    }
  }

  function Codes(s: String): (c: seq<int>)
    ensures |c| == |s|
  {
    seq(|s|, k requires 0 <= k < |s| => s[k] as int)
  }

  /** The value of `$sortExpr` for a row:
      `media_title` -> the media title column, `modified` -> the item's
      modification (else creation) time, `visibility` -> the first media's
      flag or -1 when there is none, otherwise the item title or ''. */
  function SortKey(sort: String, r: Row): seq<int> {
    if sort == "media_title" then Codes(r.mediaTitle)
    else if sort == "modified" then [r.modified]
    else if sort == "visibility" then
      [match r.mediaIsPublic case None => -1 case Some(b) => if b then 1 else 0]
    else Codes(r.itemTitle.GetOr(""))
  }

  /** `ORDER BY {$sortExpr} {$order}, i.id ASC`: `a` may come before `b`. */
  predicate RowLe(sort: String, order: String, a: Row, b: Row) {
    var ka, kb := SortKey(sort, a), SortKey(sort, b);
    if ka == kb then a.itemId <= b.itemId
    else if order == "DESC" then LexLess(kb, ka)
    else LexLess(ka, kb)
  }

  lemma RowLeTotal(sort: String, order: String, a: Row, b: Row)
    ensures RowLe(sort, order, a, b) || RowLe(sort, order, b, a)
  {
    var ka, kb := SortKey(sort, a), SortKey(sort, b);
    if ka != kb {
      LexLessTotal(ka, kb);
    }
  }

  lemma RowLeTransitive(sort: String, order: String, a: Row, b: Row, c: Row)
    requires RowLe(sort, order, a, b) && RowLe(sort, order, b, c)
    ensures RowLe(sort, order, a, c)
  {
    var ka, kb, kc := SortKey(sort, a), SortKey(sort, b), SortKey(sort, c);
    if ka == kc && ka != kb {
      if order == "DESC" {
        LexLessAsymmetric(kb, ka);
      } else {
        LexLessAsymmetric(ka, kb);
      }
    } else if ka != kc && ka != kb && kb != kc {
      if order == "DESC" {
        LexLessTransitive(kc, kb, ka);
      } else {
        LexLessTransitive(ka, kb, kc);
      }
    }
  }

  ghost predicate Sorted(sort: String, order: String, s: seq<Row>) {
    forall i, j :: 0 <= i < j < |s| ==> RowLe(sort, order, s[i], s[j])
  }

  function Insert(sort: String, order: String, x: Row, s: seq<Row>): (r: seq<Row>)
    ensures multiset(r) == multiset(s) + multiset{x}
    ensures |r| == |s| + 1
    ensures forall y :: y in r <==> y == x || y in s
  {
    if s == [] then [x]
    else if RowLe(sort, order, x, s[0]) then [x] + s
    else
      assert s == [s[0]] + s[1..];
      [s[0]] + Insert(sort, order, x, s[1..])
  }

  /** Putting a row in front of a sorted sequence whose rows it may precede
      keeps the sequence sorted. */
  lemma SortedCons(sort: String, order: String, a: Row, t: seq<Row>)
    requires Sorted(sort, order, t)
    requires forall y :: y in t ==> RowLe(sort, order, a, y)
    ensures Sorted(sort, order, [a] + t)
  {
    var r := [a] + t;
    forall i, j | 0 <= i < j < |r|
      ensures RowLe(sort, order, r[i], r[j])
    {
      assert r[j] == t[j - 1];
      if i > 0 {
        assert r[i] == t[i - 1];
      } else {
        assert t[j - 1] in t;
      }
    }
  }

  lemma {:induction false} InsertSorted(sort: String, order: String, x: Row, s: seq<Row>)
    requires Sorted(sort, order, s)
    ensures Sorted(sort, order, Insert(sort, order, x, s))
  {
    if s == [] {
    } else if RowLe(sort, order, x, s[0]) {
      forall y | y in s
        ensures RowLe(sort, order, x, y)
      {
        var k :| 0 <= k < |s| && s[k] == y;
        if k > 0 {
          RowLeTransitive(sort, order, x, s[0], y);
        }
      }
      SortedCons(sort, order, x, s);
    } else {
      var rest := s[1..];
      assert Sorted(sort, order, rest) by {
        forall i, j | 0 <= i < j < |rest|
          ensures RowLe(sort, order, rest[i], rest[j])
        {
          assert rest[i] == s[i + 1] && rest[j] == s[j + 1];
        }
      }
      InsertSorted(sort, order, x, rest);
      RowLeTotal(sort, order, x, s[0]);
      var tail := Insert(sort, order, x, rest);
      forall y | y in tail
        ensures RowLe(sort, order, s[0], y)
      {
        if y != x {
          var k :| 0 <= k < |rest| && rest[k] == y;
          assert s[k + 1] == y;
        }
      }
      SortedCons(sort, order, s[0], tail);
    }
  }

  /** The rows in `ORDER BY` order (insertion sort). */
  function SortRows(sort: String, order: String, rows: seq<Row>): (r: seq<Row>)
    ensures multiset(r) == multiset(rows)
    ensures |r| == |rows|
  {
    if rows == [] then []
    else
      assert rows == rows[..|rows| - 1] + [rows[|rows| - 1]];
      Insert(sort, order, rows[|rows| - 1], SortRows(sort, order, rows[..|rows| - 1]))
  }

  lemma {:induction false} SortRowsSorted(sort: String, order: String, rows: seq<Row>)
    ensures Sorted(sort, order, SortRows(sort, order, rows))
  {
    if rows != [] {
      SortRowsSorted(sort, order, rows[..|rows| - 1]);
      InsertSorted(sort, order, rows[|rows| - 1], SortRows(sort, order, rows[..|rows| - 1]));
    }
  }

  // ------------------------------------------------------- LIMIT / OFFSET

  function Min(a: int, b: int): int {
    if a < b then a else b
  }

  /** `LIMIT limit OFFSET offset`. */
  function Window<T>(s: seq<T>, offset: nat, limit: nat): (r: seq<T>)
    ensures |r| <= limit
    ensures r == s[Min(offset, |s|)..Min(offset + limit, |s|)]
  {
    s[Min(offset, |s|)..Min(offset + limit, |s|)]
  }

  /** Every element of an ordered result is on some page. */
  lemma PageOf<T>(s: seq<T>, perPage: nat, x: T) returns (page: nat)
    requires perPage >= 1 && x in s
    ensures x in Window(s, page * perPage, perPage)
  {
    var i :| 0 <= i < |s| && s[i] == x;
    page := i / perPage;
    var offset := page * perPage;
    assert i == offset + i % perPage && 0 <= i % perPage < perPage;
    assert Window(s, offset, perPage)[i - offset] == x;
  }

  // -------------------------------------------------------------- listing

  datatype Page = Page(total: int, rows: seq<Row>)

  /** The count query and the page query against the same `WHERE`. */
  function ListItems(db: Db, p: ListingParams, tokens: seq<String>, ids: seq<int>): (page: Page)
    requires p.offset >= 0 && p.perPage >= 1
    ensures page.total >= 0 && |page.rows| <= p.perPage
    ensures |page.rows| == Min(p.perPage, if page.total > p.offset then page.total - p.offset else 0)
  {
    var matching := Filter(JoinedRows(db), WhereParts(p, tokens, ids));
    Page(|matching|, Window(Ordered(db, p, tokens, ids), p.offset, p.perPage))
  }

  /** All filtered rows in `ORDER BY` order, before `LIMIT`/`OFFSET`. */
  function Ordered(db: Db, p: ListingParams, tokens: seq<String>, ids: seq<int>): seq<Row> {
    SortRows(p.sort, p.order, Filter(JoinedRows(db), WhereParts(p, tokens, ids)))
  }

  /** Every listed row is the joined row of some item and satisfies every
      `WHERE` part; `total` counts exactly the rows the `WHERE` keeps. */
  lemma ListedRowsMatch(db: Db, p: ListingParams, tokens: seq<String>, ids: seq<int>)
    requires p.offset >= 0 && p.perPage >= 1
    ensures var page := ListItems(db, p, tokens, ids);
            var conds := WhereParts(p, tokens, ids);
            && page.total == |Filter(JoinedRows(db), conds)|
            && forall r :: r in page.rows ==>
                 MatchesAll(conds, r) && exists k :: 0 <= k < |db.items| && r == JoinRow(db, db.items[k])
  {
    var conds := WhereParts(p, tokens, ids);
    var matching := Filter(JoinedRows(db), conds);
    var sorted := SortRows(p.sort, p.order, matching);
    var page := ListItems(db, p, tokens, ids);
    forall r | r in page.rows
      ensures MatchesAll(conds, r) && exists k :: 0 <= k < |db.items| && r == JoinRow(db, db.items[k])
    {
      assert r in sorted;
      assert r in multiset(matching);
      assert r in JoinedRows(db);
    }
  }

  /** The page is in `ORDER BY` order. */
  lemma ListedRowsSorted(db: Db, p: ListingParams, tokens: seq<String>, ids: seq<int>)
    requires p.offset >= 0 && p.perPage >= 1
    ensures Sorted(p.sort, p.order, ListItems(db, p, tokens, ids).rows)
  {
    SortRowsSorted(p.sort, p.order, Filter(JoinedRows(db), WhereParts(p, tokens, ids)));
    WindowOfSorted(p.sort, p.order, Ordered(db, p, tokens, ids), p.offset, p.perPage);
  }

  lemma WindowOfSorted(sort: String, order: String, s: seq<Row>, offset: nat, limit: nat)
    requires Sorted(sort, order, s)
    ensures Sorted(sort, order, Window(s, offset, limit))
  {
    var w := Window(s, offset, limit);
    var lo := Min(offset, |s|);
    forall i, j | 0 <= i < j < |w|
      ensures RowLe(sort, order, w[i], w[j])
    {
      assert w[i] == s[lo + i] && w[j] == s[lo + j];
    }
  }

  /** Every row of the filtered result is on some page: paging through the
      result misses no filtered row. */
  lemma EveryMatchIsListed(db: Db, p: ListingParams, tokens: seq<String>, ids: seq<int>, r: Row)
    requires p.perPage >= 1
    requires r in Filter(JoinedRows(db), WhereParts(p, tokens, ids))
    ensures exists page: nat ::
              r in ListItems(db, p.(page := page + 1, offset := page * p.perPage), tokens, ids).rows
  {
    var sorted := Ordered(db, p, tokens, ids);
    assert r in multiset(sorted);
    var page := PageOf(sorted, p.perPage, r);
    var q := p.(page := page + 1, offset := page * p.perPage);
    assert Ordered(db, q, tokens, ids) == sorted by {
      assert WhereParts(q, tokens, ids) == WhereParts(p, tokens, ids);
    }
    assert r in ListItems(db, q, tokens, ids).rows;
  }

  /** Ties on the sort expression are broken by item id ascending, in
      either direction. */
  lemma TiesByItemId(db: Db, p: ListingParams, tokens: seq<String>, ids: seq<int>, i: nat, j: nat)
    requires p.offset >= 0 && p.perPage >= 1
    requires i < j < |ListItems(db, p, tokens, ids).rows|
    requires var rows := ListItems(db, p, tokens, ids).rows;
             SortKey(p.sort, rows[i]) == SortKey(p.sort, rows[j])
    ensures var rows := ListItems(db, p, tokens, ids).rows;
            rows[i].itemId <= rows[j].itemId
  {
    ListedRowsSorted(db, p, tokens, ids);
  }

  /** Tokens that resolve to no item make the listing empty (`1 = 0`), which
      is not the same as having no identifier filter. */
  lemma UnresolvedTokensMatchNothing(db: Db, p: ListingParams, tokens: seq<String>)
    requires p.offset >= 0 && p.perPage >= 1
    requires tokens != []
    ensures ListItems(db, p, tokens, []) == Page(0, [])
  {
    FilterRejectingAll(JoinedRows(db), WhereParts(p, tokens, []));
  }

  /** Without tokens the identifier filter is inactive: the resolved ids
      do not matter. */
  lemma NoTokensNoIdentifierFilter(db: Db, p: ListingParams, ids: seq<int>)
    requires p.offset >= 0 && p.perPage >= 1
    ensures ListItems(db, p, [], ids) == ListItems(db, p, [], [])
  {
    assert WhereParts(p, [], ids) == WhereParts(p, [], []);
  }

  /** With resolved ids, only those items are listed; the visibility filter
      keeps only items whose first media has the requested flag. */
  lemma FiltersRestrictRows(db: Db, p: ListingParams, tokens: seq<String>, ids: seq<int>)
    requires p.offset >= 0 && p.perPage >= 1
    ensures forall r :: r in ListItems(db, p, tokens, ids).rows ==>
              && (tokens != [] ==> r.itemId in ids)
              && (p.visibility == "public" ==> r.mediaIsPublic == Some(true))
              && (p.visibility == "private" ==> r.mediaIsPublic == Some(false))
              && (p.filterText != "" ==> Holds(TitleLike(p.filterText), r))
  {
    ListedRowsMatch(db, p, tokens, ids);
    var conds := WhereParts(p, tokens, ids);
    if tokens != [] && ids == [] {
      UnresolvedTokensMatchNothing(db, p, tokens);
    }
    forall r | r in ListItems(db, p, tokens, ids).rows
      ensures && (tokens != [] ==> r.itemId in ids)
              && (p.visibility == "public" ==> r.mediaIsPublic == Some(true))
              && (p.visibility == "private" ==> r.mediaIsPublic == Some(false))
              && (p.filterText != "" ==> Holds(TitleLike(p.filterText), r))
    {
      assert MatchesAll(conds, r);
      if tokens != [] && ids != [] {
        assert Holds(ItemIdIn(ids), r);
      }
      if p.visibility == "public" {
        assert Holds(MediaPublicIs(true), r);
      } else if p.visibility == "private" {
        assert Holds(MediaPublicIs(false), r);
      }
    }
  }

  /** A `WHERE` that no row passes keeps nothing. */
  lemma FilterNone(rows: seq<Row>, conds: seq<Condition>)
    requires forall j :: 0 <= j < |rows| ==> !MatchesAll(conds, rows[j])
    ensures Filter(rows, conds) == []
  {
  }

  /** A `WHERE` that exactly one row passes keeps that row alone. */
  lemma {:induction false} FilterOnlyOne(rows: seq<Row>, conds: seq<Condition>, k: nat)
    requires k < |rows| && MatchesAll(conds, rows[k])
    requires forall j :: 0 <= j < |rows| && j != k ==> !MatchesAll(conds, rows[j])
    ensures Filter(rows, conds) == [rows[k]]
  {
    var init := rows[..|rows| - 1];
    assert forall j :: 0 <= j < |init| ==> init[j] == rows[j];
    if k == |rows| - 1 {
      FilterNone(init, conds);
    } else {
      FilterOnlyOne(init, conds, k);
    }
  }

  /** A `WHERE` that keeps one row gives a count of 1 and, on the first
      page, that row alone. */
  lemma OneRowPage(db: Db, p: ListingParams, tokens: seq<String>, ids: seq<int>, x: Row)
    requires p.offset >= 0 && p.perPage >= 1
    requires Filter(JoinedRows(db), WhereParts(p, tokens, ids)) == [x]
    ensures var page := ListItems(db, p, tokens, ids);
            page.total == 1 && (p.offset == 0 ==> page.rows == [x])
  {
    assert SortRows(p.sort, p.order, [x]) == [x] by {
      assert [x][..0] == [];
    }
  }

  /** With no text or visibility filter, the `WHERE` for the tokens that
      resolve to an existing item keeps exactly that item's joined row. */
  lemma OnlyResolvedItemPasses(db: Db, p: ListingParams, tokens: seq<String>, j: nat)
    requires tokens != [] && p.filterText == "" && p.visibility != "public" && p.visibility != "private"
    requires j < |db.items|
    requires forall a, b :: 0 <= a < b < |db.items| ==> db.items[a].id != db.items[b].id
    ensures Filter(JoinedRows(db), WhereParts(p, tokens, [db.items[j].id])) == [JoinRow(db, db.items[j])]
  {
    var id := db.items[j].id;
    var conds := WhereParts(p, tokens, [id]);
    assert conds == [ItemIdIn([id])];
    var rows := JoinedRows(db);
    forall a | 0 <= a < |rows| && a != j
      ensures !MatchesAll(conds, rows[a])
    {
      assert !Holds(ItemIdIn([id]), rows[a]);
    }
    assert Holds(ItemIdIn([id]), rows[j]);
    FilterOnlyOne(rows, conds, j);
  }

  /** With no text or visibility filter, tokens that resolve to one existing
      item list exactly that item: the count is 1 and the first page holds
      its joined row. */
  lemma ResolvedItemListed(db: Db, p: ListingParams, tokens: seq<String>, j: nat)
    requires p.offset >= 0 && p.perPage >= 1
    requires tokens != [] && p.filterText == "" && p.visibility != "public" && p.visibility != "private"
    requires j < |db.items|
    requires forall a, b :: 0 <= a < b < |db.items| ==> db.items[a].id != db.items[b].id
    ensures var page := ListItems(db, p, tokens, [db.items[j].id]);
            && page.total == 1
            && (p.offset == 0 ==> page.rows == [JoinRow(db, db.items[j])])
  {
    OnlyResolvedItemPasses(db, p, tokens, j);
    OneRowPage(db, p, tokens, [db.items[j].id], JoinRow(db, db.items[j]));
  }

  /** Tokens that resolve to a single item list that item alone; when that
      item exists and no text or visibility filter applies, it is listed
      and counted, on the first page. */
  lemma SingleIdListing(db: Db, p: ListingParams, tokens: seq<String>, id: int)
    requires p.offset >= 0 && p.perPage >= 1
    requires tokens != []
    ensures forall r :: r in ListItems(db, p, tokens, [id]).rows ==> r.itemId == id
    ensures (forall a, b :: 0 <= a < b < |db.items| ==> db.items[a].id != db.items[b].id)
            && id in ItemIds(db.items) && p.filterText == "" && p.visibility != "public" && p.visibility != "private"
            ==> var page := ListItems(db, p, tokens, [id]);
                && page.total == 1
                && (p.offset == 0 ==> exists k :: 0 <= k < |db.items| && db.items[k].id == id && page.rows == [JoinRow(db, db.items[k])])
  {
    assert forall r :: r in ListItems(db, p, tokens, [id]).rows ==> r.itemId == id by {
      FiltersRestrictRows(db, p, tokens, [id]);
    }
    if && (forall a, b :: 0 <= a < b < |db.items| ==> db.items[a].id != db.items[b].id)
       && id in ItemIds(db.items) && p.filterText == "" && p.visibility != "public" && p.visibility != "private"
    {
      var k :| 0 <= k < |db.items| && db.items[k].id == id;
      ResolvedItemListed(db, p, tokens, k);
      var page := ListItems(db, p, tokens, [id]);
      assert p.offset == 0 ==> page.rows == [JoinRow(db, db.items[k])];
    }
  }

  /** `visibility=public&sort=visibility`: every listed row has the same
      sort key, so in either direction the page is ordered by item id. */
  lemma PublicByVisibilityOrderedById(db: Db, p: ListingParams, tokens: seq<String>, ids: seq<int>)
    requires p.offset >= 0 && p.perPage >= 1
    requires p.visibility == "public" && p.sort == "visibility"
    ensures var rows := ListItems(db, p, tokens, ids).rows;
            forall i, j :: 0 <= i < j < |rows| ==> rows[i].itemId <= rows[j].itemId
  {
    FiltersRestrictRows(db, p, tokens, ids);
    ListedRowsSorted(db, p, tokens, ids);
    var rows := ListItems(db, p, tokens, ids).rows;
    forall i, j | 0 <= i < j < |rows|
      ensures rows[i].itemId <= rows[j].itemId
    {
      assert rows[i] in rows && rows[j] in rows;
      assert SortKey(p.sort, rows[i]) == [1] == SortKey(p.sort, rows[j]);
    }
  }

  /** The text `abc123, 42`, where item 42 exists and nothing else
      mentions `abc123`, narrows the listing to item 42 alone; without a
      text or visibility filter item 42 is listed, as the one row counted. */
  lemma MixedIdentifierText(db: Db, p: ListingParams)
    requires p.offset >= 0 && p.perPage >= 1
    requires 42 in ItemIds(db.items)
    requires forall k :: 0 <= k < |db.values| ==>
               db.values[k].value != Some("abc123") && db.values[k].uri != Some("abc123")
    requires forall k :: 0 <= k < |db.media| ==> !Resolver.SourceMatches(db.media[k], "abc123")
    ensures var tokens := Identifiers.ParseIdentifiers("abc123, 42");
            forall r :: r in ListItems(db, p, tokens, Resolver.ResolveTokens(db, tokens)).rows ==> r.itemId == 42
    ensures (forall a, b :: 0 <= a < b < |db.items| ==> db.items[a].id != db.items[b].id)
            && p.filterText == "" && p.visibility != "public" && p.visibility != "private"
            ==> var tokens := Identifiers.ParseIdentifiers("abc123, 42");
                var page := ListItems(db, p, tokens, Resolver.ResolveTokens(db, tokens));
                && page.total == 1
                && (p.offset == 0 ==> |page.rows| == 1 && page.rows[0].itemId == 42)
  {
    var tokens := Identifiers.ParseIdentifiers("abc123, 42");
    Identifiers.MixedTextTokens();
    Resolver.MixedTokensResolution(db);
    assert Resolver.ResolveTokens(db, tokens) == [42];
    SingleIdListing(db, p, tokens, 42);
  }

  // ---------------------------------------------------------- indexAction

  datatype IndexView = IndexView(params: ListingParams, siteSlugs: seq<String>, tokens: seq<String>, page: Page)

  /** `indexAction` up to the query results: normalise the parameters,
      parse and resolve the identifier tokens, run the listing. */
  function Index(db: Db, query: Query, siteRows: seq<Option<String>>): (view: IndexView)
    ensures view.params == Normalise(query, siteRows)
    ensures |view.page.rows| <= view.params.perPage <= MaxPerPage
    ensures forall t :: t in view.tokens ==>
              t != [] && IsTrimmed(t) && IsInfix(t, view.params.identifierText)
    ensures view.tokens != [] ==> forall r :: r in view.page.rows ==>
              exists k :: 0 <= k < |view.tokens| && r.itemId in Resolver.ResolveToken(db, view.tokens[k])
  {
    var p := Normalise(query, siteRows);
    OffsetNonNegative(query, siteRows);
    var tokens := Identifiers.ParseIdentifiers(p.identifierText);
    Identifiers.ParsedTokensWellFormed(p.identifierText);
    var ids := Resolver.ResolveTokens(db, tokens);
    FiltersRestrictRows(db, p, tokens, ids);
    IndexView(p, KnownSiteSlugs(siteRows), tokens, ListItems(db, p, tokens, ids))
  }
}
