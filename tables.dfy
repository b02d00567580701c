/** The host platform's tables that the controller reads and writes, held
    in memory: items (with their resource columns), media (with theirs) and
    property values. "First media" and "second media" of an item are the
    derived notions of `ORDER BY position ASC, id ASC LIMIT 1 [OFFSET 1]`. */
module Tables {
  import opened Wrappers
  import opened Text

  /** A row of `item` joined with its `resource` row. `modified` and
      `created` are timestamps as integers. */
  datatype ItemRow = ItemRow(
    id: int,
    title: Option<String>,
    created: int,
    modified: Option<int>,
    primaryMedia: Option<int>)

  /** A row of `media` joined with its `resource` row. `position` is a
      nullable column; `item` is the owning item's id, when there is one. */
  datatype MediaRow = MediaRow(
    id: int,
    item: Option<int>,
    position: Option<int>,
    isPublic: bool,
    title: Option<String>,
    source: Option<String>)

  /** A row of `value` joined with its property and vocabulary. */
  datatype ValueRow = ValueRow(
    resource: int,
    vocabPrefix: String,
    localName: String,
    value: Option<String>,
    uri: Option<String>)

  datatype Db = Db(items: seq<ItemRow>, media: seq<MediaRow>, values: seq<ValueRow>)

  function ItemIds(items: seq<ItemRow>): (ids: set<int>)
    ensures forall k :: 0 <= k < |items| ==> items[k].id in ids
    ensures forall x :: x in ids ==> exists k :: 0 <= k < |items| && items[k].id == x
  {
    set k | 0 <= k < |items| :: items[k].id
  }

  function MediaIds(media: seq<MediaRow>): (ids: set<int>)
    ensures forall k :: 0 <= k < |media| ==> media[k].id in ids
    ensures forall x :: x in ids ==> exists k :: 0 <= k < |media| && media[k].id == x
  {
    set k | 0 <= k < |media| :: media[k].id
  }

  /** Integrity the schema guarantees: ids are positive auto-increment keys
      and unique, a media row's item exists, and a primary media exists. */
  ghost predicate Valid(db: Db) {
    && (forall i, j :: 0 <= i < j < |db.items| ==> db.items[i].id != db.items[j].id)
    && (forall i, j :: 0 <= i < j < |db.media| ==> db.media[i].id != db.media[j].id)
    && (forall k :: 0 <= k < |db.items| ==> db.items[k].id > 0)
    && (forall k :: 0 <= k < |db.media| ==> db.media[k].id > 0)
    && (forall k :: 0 <= k < |db.media| && db.media[k].item.Some? ==> db.media[k].item.value in ItemIds(db.items))
    && (forall k :: 0 <= k < |db.items| && db.items[k].primaryMedia.Some? ==>
          db.items[k].primaryMedia.value in MediaIds(db.media))
  }

  // ------------------------------------------------------------ ordering

  /** `a` strictly precedes `b` in `ORDER BY position ASC, id ASC`; MySQL
      places a NULL position before every non-NULL one. */
  predicate Precedes(a: MediaRow, b: MediaRow) {
    if a.position == b.position then a.id < b.id
    else a.position.None? || (b.position.Some? && a.position.value < b.position.value)
  }

  lemma PrecedesTransitive(a: MediaRow, b: MediaRow, c: MediaRow)
    requires Precedes(a, b) && Precedes(b, c)
    ensures Precedes(a, c)
  {
  }

  lemma PrecedesTotal(a: MediaRow, b: MediaRow)
    requires a.id != b.id
    ensures Precedes(a, b) != Precedes(b, a)
  {
  }

  /** Two media neither of which precedes the other have the same id. */
  lemma PrecedesNeither(a: MediaRow, b: MediaRow)
    requires !Precedes(a, b) && !Precedes(b, a)
    ensures a.id == b.id
  {
  }

  /** `m` is a candidate of the query: it belongs to `item` and is not excluded. */
  predicate Candidate(m: MediaRow, item: int, excluded: set<int>) {
    m.item == Some(item) && m.id !in excluded
  }

  /** The candidate media that comes first in (position, id) order, scanning
      `media` in table order (the first of equal rows wins). */
  function MinMedia(media: seq<MediaRow>, item: int, excluded: set<int>): (r: Option<MediaRow>)
    ensures r.None? <==> forall k :: 0 <= k < |media| ==> !Candidate(media[k], item, excluded)
    ensures r.Some? ==> r.value in media && Candidate(r.value, item, excluded)
    ensures r.Some? ==> forall k :: 0 <= k < |media| && Candidate(media[k], item, excluded) ==>
              !Precedes(media[k], r.value)
  {
    if media == [] then None
    else
      var last := media[|media| - 1];
      var best := MinMedia(media[..|media| - 1], item, excluded);
      assert forall k :: 0 <= k < |media| - 1 ==> media[..|media| - 1][k] == media[k];
      if !Candidate(last, item, excluded) then best
      else if best.None? || Precedes(last, best.value) then Some(last)
      else best
  }

  /** `SELECT id FROM media WHERE item_id = :item ORDER BY position, id LIMIT 1`. */
  function FirstMedia(media: seq<MediaRow>, item: int): (r: Option<MediaRow>)
    ensures r.Some? ==> r.value in media && r.value.item == Some(item)
    ensures r.None? <==> forall m :: m in media ==> m.item != Some(item)
    ensures r.Some? ==> forall m :: m in media && m.item == Some(item) ==> !Precedes(m, r.value)
  {
    MinMedia(media, item, {})
  }

  /** The same query with `OFFSET 1`: the least media of `item` other than
      its first one (ids are unique, so "other" means "with another id"). */
  function SecondMedia(media: seq<MediaRow>, item: int): (r: Option<MediaRow>)
    ensures r.Some? ==> r.value in media && r.value.item == Some(item)
    ensures r.Some? ==> FirstMedia(media, item).Some? && r.value.id != FirstMedia(media, item).value.id
  {
    match FirstMedia(media, item)
    case None => None
    case Some(first) => MinMedia(media, item, {first.id})
  }

  /** The second media is the least of the item's media once the first is
      set aside, it follows the first, and there is none exactly when every
      media of the item is the first one. */
  lemma SecondMediaSpec(media: seq<MediaRow>, item: int)
    requires forall i, j :: 0 <= i < j < |media| ==> media[i].id != media[j].id
    requires FirstMedia(media, item).Some?
    ensures var first := FirstMedia(media, item).value;
            var second := SecondMedia(media, item);
            && (second.None? <==> forall m :: m in media && m.item == Some(item) ==> m.id == first.id)
            && (second.Some? ==> Precedes(first, second.value))
            && (second.Some? ==> forall m :: m in media && m.item == Some(item) && m.id != first.id ==>
                  !Precedes(m, second.value))
  {
    var first := FirstMedia(media, item).value;
    var second := SecondMedia(media, item);
    forall m | m in media && m.item == Some(item) && m.id != first.id
      ensures second.Some? && !Precedes(m, second.value)
    {
      var k :| 0 <= k < |media| && media[k] == m;
      assert Candidate(media[k], item, {first.id});
    }
    if second.Some? {
      assert !Precedes(second.value, first);
      PrecedesTotal(first, second.value);
    }
    if second.None? {
      forall m | m in media && m.item == Some(item)
        ensures m.id == first.id
      {
        var k :| 0 <= k < |media| && media[k] == m;
        assert !Candidate(media[k], item, {first.id});
      }
    }
  }

  /** `(int)` of the fetched first-media id: 0 when the item has no media. */
  function FirstMediaId(media: seq<MediaRow>, item: int): int {
    match FirstMedia(media, item)
    case None => 0
    case Some(m) => m.id
  }

  // ------------------------------------------------------------ lookups

  /** `EntityManager::find(Media::class, $id)`: the position of the row with that id. */
  function FindMedia(media: seq<MediaRow>, id: int): (r: Option<nat>)
    ensures r.Some? ==> r.value < |media| && media[r.value].id == id
    ensures r.None? <==> id !in MediaIds(media)
  {
    if media == [] then None
    else if media[|media| - 1].id == id then Some(|media| - 1)
    else
      var r := FindMedia(media[..|media| - 1], id);
      assert forall k :: 0 <= k < |media| - 1 ==> media[..|media| - 1][k] == media[k];
      r
  }

  /** The position of the item row with the given id. */
  function FindItem(items: seq<ItemRow>, id: int): (r: Option<nat>)
    ensures r.Some? ==> r.value < |items| && items[r.value].id == id
    ensures r.None? <==> id !in ItemIds(items)
  {
    if items == [] then None
    else if items[|items| - 1].id == id then Some(|items| - 1)
    else
      var r := FindItem(items[..|items| - 1], id);
      assert forall k :: 0 <= k < |items| - 1 ==> items[..|items| - 1][k] == items[k];
      r
  }

  // ------------------------------------------------------------ layout

  /** Two media tables with the same rows in the same order, up to flags,
      titles and sources: the columns the queries above never order by. */
  ghost predicate SameLayout(a: seq<MediaRow>, b: seq<MediaRow>) {
    && |a| == |b|
    && forall k :: 0 <= k < |a| ==> a[k].id == b[k].id && a[k].item == b[k].item && a[k].position == b[k].position
  }

  lemma {:induction false} MinMediaOfSameLayout(a: seq<MediaRow>, b: seq<MediaRow>, item: int, excluded: set<int>)
    requires SameLayout(a, b)
    ensures MinMedia(a, item, excluded).None? == MinMedia(b, item, excluded).None?
    ensures MinMedia(a, item, excluded).Some? ==>
              && MinMedia(a, item, excluded).value.id == MinMedia(b, item, excluded).value.id
              && MinMedia(a, item, excluded).value.position == MinMedia(b, item, excluded).value.position
    decreases |a|
  {
    if a != [] {
      MinMediaOfSameLayout(a[..|a| - 1], b[..|b| - 1], item, excluded);
    }
  }

  /** A flag flip moves neither the first nor the second media of any item. */
  lemma FirstAndSecondOfSameLayout(a: seq<MediaRow>, b: seq<MediaRow>, item: int)
    requires SameLayout(a, b)
    ensures FirstMediaId(a, item) == FirstMediaId(b, item)
    ensures SecondMedia(a, item).None? == SecondMedia(b, item).None?
    ensures SecondMedia(a, item).Some? ==> SecondMedia(a, item).value.id == SecondMedia(b, item).value.id
  {
    MinMediaOfSameLayout(a, b, item, {});
    if FirstMedia(a, item).Some? {
      MinMediaOfSameLayout(a, b, item, {FirstMedia(a, item).value.id});
    }
  }

  lemma {:induction false} FindMediaOfSameLayout(a: seq<MediaRow>, b: seq<MediaRow>, id: int)
    requires SameLayout(a, b)
    ensures FindMedia(a, id) == FindMedia(b, id)
    decreases |a|
  {
    if a != [] {
      FindMediaOfSameLayout(a[..|a| - 1], b[..|b| - 1], id);
    }
  }

  lemma {:induction false} FindItemOfSameIds(a: seq<ItemRow>, b: seq<ItemRow>, id: int)
    requires |a| == |b| && forall k :: 0 <= k < |a| ==> a[k].id == b[k].id
    ensures FindItem(a, id) == FindItem(b, id)
    decreases |a|
  {
    if a != [] {
      FindItemOfSameIds(a[..|a| - 1], b[..|b| - 1], id);
    }
  }

  /** With unique ids, a row is determined by its id. */
  lemma MediaRowById(media: seq<MediaRow>, m: MediaRow, n: MediaRow)
    requires forall i, j :: 0 <= i < j < |media| ==> media[i].id != media[j].id
    requires m in media && n in media && m.id == n.id
    ensures m == n
  {
    var i :| 0 <= i < |media| && media[i] == m;
    var j :| 0 <= j < |media| && media[j] == n;
    assert !(i < j) && !(j < i);
  }
}
