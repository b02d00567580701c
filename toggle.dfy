/** `toggleAction`: an administrator flips the public flag of an item's
    first media. The request is refused unless it is a POST with a valid
    CSRF token naming a media that is still its item's first one; on
    success the flag flips and the item's primary media follows it. */
module Toggle {
  import opened Wrappers
  import opened Text
  import opened Tables

  /** What the action reads from the request: whether it is a POST, whether
      the CSRF form validated, and `(int) $post['media_id']` (0 when absent). */
  datatype Request = Request(isPost: bool, tokenValid: bool, mediaId: int)

  datatype Failure =
    | MethodNotAllowed
    | InvalidToken
    | InvalidMediaId
    | MediaNotFound
    | ItemNotFound
    | FirstMediaChanged

  function Message(f: Failure): String {
    match f
    case MethodNotAllowed => "Method not allowed."
    case InvalidToken => "Invalid CSRF token."
    case InvalidMediaId => "Invalid media id."
    case MediaNotFound => "Media not found."
    case ItemNotFound => "Item not found for media."
    case FirstMediaChanged => "The first media has changed. Please reload and try again."
  }

  /** The JSON reply: `ok: false` with a message, or `ok: true` with the new
      state as `is_public`, `icon_class` and `label`. */
  datatype Response =
    | Rejected(failure: Failure)
    | Toggled(isPublic: int, iconClass: String, caption: String)

  /** The reply for a media whose flag is now `newState`. */
  function Succeeded(newState: bool): (r: Response)
    ensures r.Toggled?
    ensures r.isPublic == 1 || r.isPublic == 0
    ensures r.isPublic == 1 <==> newState
    ensures r.iconClass == "o-icon-public" <==> newState
    ensures newState ==> r.caption == "Public"
    ensures !newState ==> r.iconClass == "o-icon-private" && r.caption == "Private"
  {
    if newState then Toggled(1, "o-icon-public", "Public") else Toggled(0, "o-icon-private", "Private")
  }

  /** The item's primary media once its first media's flag became
      `newState`: the first media itself when it became public, otherwise
      the second media, or none when there is no second. */
  function NewPrimary(media: seq<MediaRow>, item: int, mediaId: int, newState: bool): Option<int> {
    if newState then Some(mediaId)
    else
      var secondId := match SecondMedia(media, item) case None => 0 case Some(m) => m.id;
      if secondId > 0 then Some(secondId) else None
  }

  /** Where an accepted request acts: the media's row `k`, its item's row
      `j`, and the item's id. */
  datatype Target = Target(k: nat, j: nat, item: int)

  datatype Checked = Refused(failure: Failure) | Found(target: Target)

  /** The action's guards, in the code's order. */
  function Check(db: Db, req: Request): (c: Checked)
    ensures c.Found? ==>
              && req.isPost && req.tokenValid && req.mediaId > 0
              && c.target.k < |db.media| && c.target.j < |db.items|
              && db.media[c.target.k].id == req.mediaId
              && db.media[c.target.k].item == Some(c.target.item)
              && db.items[c.target.j].id == c.target.item
              && FirstMediaId(db.media, c.target.item) == req.mediaId
  {
    if !req.isPost then Refused(MethodNotAllowed)
    else if !req.tokenValid then Refused(InvalidToken)
    else if req.mediaId <= 0 then Refused(InvalidMediaId)
    else match FindMedia(db.media, req.mediaId)
      case None => Refused(MediaNotFound)
      case Some(k) =>
        match db.media[k].item
        case None => Refused(ItemNotFound)
        case Some(item) =>
          match FindItem(db.items, item)
          case None => Refused(ItemNotFound)
          case Some(j) =>
            if FirstMediaId(db.media, item) != req.mediaId then Refused(FirstMediaChanged)
            else Found(Target(k, j, item))
  }

  /** The writes of an accepted request: flip the flag, re-point the primary media. */
  function Apply(db: Db, t: Target): Db
    requires t.k < |db.media| && t.j < |db.items|
  {
    var newState := !db.media[t.k].isPublic;
    var primary := NewPrimary(db.media, t.item, db.media[t.k].id, newState);
    Db(db.items[t.j := db.items[t.j].(primaryMedia := primary)],
       db.media[t.k := db.media[t.k].(isPublic := newState)],
       db.values)
  }

  datatype Outcome = Outcome(db: Db, response: Response)

  /** The whole action on a snapshot of the tables. */
  function Step(db: Db, req: Request): Outcome {
    match Check(db, req)
    case Refused(f) => Outcome(db, Rejected(f))
    case Found(t) => Outcome(Apply(db, t), Succeeded(!db.media[t.k].isPublic))
  }

  // ------------------------------------------------------------ acceptance

  /** `m` comes first among the media of `item` in (position, id) order. */
  ghost predicate IsFirstOf(db: Db, m: MediaRow, item: int) {
    && m in db.media && m.item == Some(item)
    && forall n :: n in db.media && n.item == Some(item) ==> !Precedes(n, m)
  }

  /** The request may toggle: a POST with a valid token, naming an existing
      media that belongs to an existing item and is that item's first media. */
  ghost predicate Acceptable(db: Db, req: Request) {
    && req.isPost && req.tokenValid && req.mediaId > 0
    && exists m :: m in db.media && m.id == req.mediaId && m.item.Some?
         && m.item.value in ItemIds(db.items) && IsFirstOf(db, m, m.item.value)
  }

  lemma FoundIsAcceptable(db: Db, req: Request)
    requires Valid(db)
    requires Check(db, req).Found?
    ensures Acceptable(db, req)
  {
    var t := Check(db, req).target;
    var m := db.media[t.k];
    var first := FirstMedia(db.media, t.item).value;
    MediaRowById(db.media, first, m);
    assert IsFirstOf(db, m, t.item);
    assert t.item in ItemIds(db.items);
  }

  /** An accepted media is the row the first-media query returns. */
  lemma FoundIsFirst(db: Db, req: Request)
    requires Valid(db)
    requires Check(db, req).Found?
    ensures var t := Check(db, req).target; FirstMedia(db.media, t.item) == Some(db.media[t.k])
  {
    var t := Check(db, req).target;
    MediaRowById(db.media, FirstMedia(db.media, t.item).value, db.media[t.k]);
  }

  lemma AcceptableIsFound(db: Db, req: Request, m: MediaRow)
    requires forall i, j :: 0 <= i < j < |db.media| ==> db.media[i].id != db.media[j].id
    requires req.isPost && req.tokenValid && req.mediaId > 0
    requires m in db.media && m.id == req.mediaId && m.item.Some?
    requires m.item.value in ItemIds(db.items) && IsFirstOf(db, m, m.item.value)
    ensures Check(db, req).Found?
  {
    var item := m.item.value;
    FirstOfIsFirstMedia(db, m, item);
    var k := FindMedia(db.media, req.mediaId).value;
    MediaRowById(db.media, db.media[k], m);
    assert FindItem(db.items, item).Some?;
  }

  /** A media no media of its item precedes is what the first-media query returns. */
  lemma FirstOfIsFirstMedia(db: Db, m: MediaRow, item: int)
    requires IsFirstOf(db, m, item)
    ensures FirstMediaId(db.media, item) == m.id
  {
    var first := FirstMedia(db.media, item);
    assert first.Some?;
    assert !Precedes(m, first.value) && !Precedes(first.value, m);
    PrecedesNeither(m, first.value);
  }

  /** The reply and the tables after the action, in terms of its guards. */
  lemma StepByCheck(db: Db, req: Request)
    ensures Step(db, req).response.Toggled? <==> Check(db, req).Found?
    ensures Check(db, req).Refused? ==> Step(db, req) == Outcome(db, Rejected(Check(db, req).failure))
    ensures Check(db, req).Found? ==>
              Step(db, req) == Outcome(Apply(db, Check(db, req).target), Succeeded(!db.media[Check(db, req).target.k].isPublic))
  {
  }

  /** A toggle succeeds exactly when the request is acceptable, and a refused
      request leaves every table as it was. */
  lemma AcceptedIffAcceptable(db: Db, req: Request)
    requires Valid(db)
    ensures Step(db, req).response.Toggled? <==> Acceptable(db, req)
    ensures Step(db, req).response.Rejected? ==> Step(db, req).db == db
  {
    StepByCheck(db, req);
    if Check(db, req).Found? {
      FoundIsAcceptable(db, req);
    }
    if Acceptable(db, req) {
      var m :| m in db.media && m.id == req.mediaId && m.item.Some?
               && m.item.value in ItemIds(db.items) && IsFirstOf(db, m, m.item.value);
      AcceptableIsFound(db, req, m);
    }
  }

  /** The refusals that need no look at the tables' integrity, in order: the
      request method, the token, the id, and the existence of the media. */
  lemma EarlyRejections(db: Db, req: Request)
    ensures !req.isPost ==> Step(db, req) == Outcome(db, Rejected(MethodNotAllowed))
    ensures req.isPost && !req.tokenValid ==> Step(db, req) == Outcome(db, Rejected(InvalidToken))
    ensures req.isPost && req.tokenValid && req.mediaId <= 0 ==>
              Step(db, req) == Outcome(db, Rejected(InvalidMediaId))
    ensures req.isPost && req.tokenValid && req.mediaId > 0 && req.mediaId !in MediaIds(db.media) ==>
              Step(db, req) == Outcome(db, Rejected(MediaNotFound))
  {
  }

  /** Past the early checks, a media without an item is refused as such, and
      a media that is no longer its item's first one is refused as stale. */
  lemma LateRejections(db: Db, req: Request, m: MediaRow)
    requires Valid(db)
    requires req.isPost && req.tokenValid && req.mediaId > 0
    requires m in db.media && m.id == req.mediaId
    ensures m.item.None? ==> Check(db, req) == Refused(ItemNotFound)
    ensures m.item.Some? && !IsFirstOf(db, m, m.item.value) ==> Check(db, req) == Refused(FirstMediaChanged)
  {
    var k := FindMedia(db.media, req.mediaId).value;
    MediaRowById(db.media, db.media[k], m);
    if m.item.Some? {
      assert FindItem(db.items, m.item.value).Some?;
      if Check(db, req).Found? {
        FoundIsFirst(db, req);
      }
    }
  }

  // ------------------------------------------------------------ effects

  lemma RowOfUniqueId<T>(rows: seq<T>, id: T -> int, k0: nat)
    requires k0 < |rows|
    requires forall i, j :: 0 <= i < j < |rows| ==> id(rows[i]) != id(rows[j])
    ensures forall k :: 0 <= k < |rows| && id(rows[k]) == id(rows[k0]) ==> k == k0
  {
  }

  /** The media rows after a successful toggle: the named one has its flag
      flipped, every other row is as it was. */
  lemma MediaEffect(db: Db, req: Request)
    requires Valid(db)
    requires Check(db, req).Found?
    ensures var after := Step(db, req).db;
            && |after.media| == |db.media|
            && (forall k :: 0 <= k < |db.media| && db.media[k].id != req.mediaId ==> after.media[k] == db.media[k])
            && (forall k :: 0 <= k < |db.media| && db.media[k].id == req.mediaId ==>
                  after.media[k] == db.media[k].(isPublic := !db.media[k].isPublic))
  {
    StepByCheck(db, req);
    ApplyMediaEffect(db, Check(db, req).target);
  }

  lemma ApplyMediaEffect(db: Db, t: Target)
    requires forall i, j :: 0 <= i < j < |db.media| ==> db.media[i].id != db.media[j].id
    requires t.k < |db.media| && t.j < |db.items|
    ensures var after := Apply(db, t);
            && |after.media| == |db.media|
            && (forall k :: 0 <= k < |db.media| && db.media[k].id != db.media[t.k].id ==> after.media[k] == db.media[k])
            && (forall k :: 0 <= k < |db.media| && db.media[k].id == db.media[t.k].id ==>
                  after.media[k] == db.media[k].(isPublic := !db.media[k].isPublic))
  {
    RowOfUniqueId(db.media, (m: MediaRow) => m.id, t.k);
  }

  /** The item rows after a successful toggle: only the owning item's
      primary media changes. */
  lemma ItemEffect(db: Db, req: Request)
    requires Valid(db)
    requires Check(db, req).Found?
    ensures var t := Check(db, req).target;
            var after := Step(db, req).db;
            && |after.items| == |db.items|
            && (forall k :: 0 <= k < |db.items| && db.items[k].id != t.item ==> after.items[k] == db.items[k])
            && (forall k :: 0 <= k < |db.items| && db.items[k].id == t.item ==>
                  after.items[k] == db.items[k].(primaryMedia :=
                    NewPrimary(db.media, t.item, req.mediaId, !db.media[t.k].isPublic)))
  {
    StepByCheck(db, req);
    ApplyItemEffect(db, Check(db, req).target);
  }

  lemma ApplyItemEffect(db: Db, t: Target)
    requires forall i, j :: 0 <= i < j < |db.items| ==> db.items[i].id != db.items[j].id
    requires t.k < |db.media| && t.j < |db.items| && db.items[t.j].id == t.item
    ensures var after := Apply(db, t);
            && |after.items| == |db.items|
            && (forall k :: 0 <= k < |db.items| && db.items[k].id != t.item ==> after.items[k] == db.items[k])
            && (forall k :: 0 <= k < |db.items| && db.items[k].id == t.item ==>
                  after.items[k] == db.items[k].(primaryMedia :=
                    NewPrimary(db.media, t.item, db.media[t.k].id, !db.media[t.k].isPublic)))
  {
    RowOfUniqueId(db.items, (i: ItemRow) => i.id, t.j);
  }

  /** What the new primary media is, for the first media `m` of `item`: `m`
      itself when it becomes public; when it becomes private, none exactly
      when `m` is the item's only media, and otherwise the least of the
      item's other media. */
  lemma NewPrimaryMeaning(media: seq<MediaRow>, item: int, m: MediaRow)
    requires forall i, j :: 0 <= i < j < |media| ==> media[i].id != media[j].id
    requires forall k :: 0 <= k < |media| ==> media[k].id > 0
    requires FirstMedia(media, item) == Some(m)
    ensures !m.isPublic ==> NewPrimary(media, item, m.id, !m.isPublic) == Some(m.id)
    ensures m.isPublic ==>
              var p := NewPrimary(media, item, m.id, !m.isPublic);
              && (p.None? <==> forall n :: n in media && n.item == Some(item) ==> n.id == m.id)
              && (p.Some? ==>
                    exists n :: n in media && n.item == Some(item) && n.id != m.id && n.id == p.value
                      && forall o :: o in media && o.item == Some(item) && o.id != m.id ==> !Precedes(o, n))
  {
    SecondMediaSpec(media, item);
    var second := SecondMedia(media, item);
    if second.Some? {
      var k :| 0 <= k < |media| && media[k] == second.value;
    }
  }

  /** A successful toggle flips exactly the named media's flag, re-points
      exactly its item's primary media (to itself when it became public; to
      the least other media of the item, or to none when it has no other,
      when it became private), touches nothing else, and reports the new
      flag. */
  lemma ToggleEffects(db: Db, req: Request, m: MediaRow)
    requires Valid(db)
    requires m in db.media && m.id == req.mediaId
    requires Step(db, req).response.Toggled?
    ensures m.item.Some?
    ensures var after := Step(db, req).db;
            var item := m.item.value;
            && after.values == db.values
            && |after.media| == |db.media|
            && (forall k :: 0 <= k < |db.media| && db.media[k].id != m.id ==> after.media[k] == db.media[k])
            && (forall k :: 0 <= k < |db.media| && db.media[k].id == m.id ==>
                  after.media[k] == db.media[k].(isPublic := !db.media[k].isPublic))
            && |after.items| == |db.items|
            && (forall k :: 0 <= k < |db.items| && db.items[k].id != item ==> after.items[k] == db.items[k])
            && (forall k :: 0 <= k < |db.items| && db.items[k].id == item ==>
                  && after.items[k].(primaryMedia := db.items[k].primaryMedia) == db.items[k]
                  && (!m.isPublic ==> after.items[k].primaryMedia == Some(m.id))
                  && (m.isPublic ==>
                        && (after.items[k].primaryMedia.None? <==>
                              forall n :: n in db.media && n.item == Some(item) ==> n.id == m.id)
                        && (after.items[k].primaryMedia.Some? ==>
                              exists n :: n in db.media && n.item == Some(item) && n.id != m.id
                                && n.id == after.items[k].primaryMedia.value
                                && forall o :: o in db.media && o.item == Some(item) && o.id != m.id ==>
                                     !Precedes(o, n))))
            && Step(db, req).response == Succeeded(!m.isPublic)
  {
    var t := Check(db, req).target;
    MediaRowById(db.media, db.media[t.k], m);
    var first := FirstMedia(db.media, t.item).value;
    MediaRowById(db.media, first, m);
    MediaEffect(db, req);
    ItemEffect(db, req);
    NewPrimaryMeaning(db.media, t.item, m);
  }

  /** Rewritten tables that keep every id and every media's item, and whose
      primary media all exist, are as consistent as before. */
  lemma ValidAfterRewrite(db: Db, after: Db)
    requires Valid(db)
    requires |after.items| == |db.items| && |after.media| == |db.media|
    requires forall i :: 0 <= i < |db.items| ==> after.items[i].id == db.items[i].id
    requires forall i :: 0 <= i < |db.media| ==>
               after.media[i].id == db.media[i].id && after.media[i].item == db.media[i].item
    requires forall i :: 0 <= i < |db.items| && after.items[i].primaryMedia.Some? ==>
               after.items[i].primaryMedia.value in MediaIds(db.media)
    ensures Valid(after)
  {
    assert ItemIds(after.items) == ItemIds(db.items) by {
      forall x | x in ItemIds(db.items) ensures x in ItemIds(after.items) {
        var i :| 0 <= i < |db.items| && db.items[i].id == x;
        assert after.items[i].id == x;
      }
    }
    assert MediaIds(after.media) == MediaIds(db.media) by {
      forall x | x in MediaIds(db.media) ensures x in MediaIds(after.media) {
        var i :| 0 <= i < |db.media| && db.media[i].id == x;
        assert after.media[i].id == x;
      }
    }
  }

  /** The writes keep every row's id, every media's item and position, and
      the values. */
  lemma ApplyKeepsLayout(db: Db, t: Target)
    requires t.k < |db.media| && t.j < |db.items|
    ensures var after := Apply(db, t);
            && SameLayout(db.media, after.media)
            && after.values == db.values
            && |after.items| == |db.items|
            && forall i :: 0 <= i < |db.items| ==> after.items[i].id == db.items[i].id
  {
  }

  /** The new primary media is the toggled media or another media of the table. */
  lemma NewPrimaryExists(media: seq<MediaRow>, item: int, mediaId: int, newState: bool)
    ensures var p := NewPrimary(media, item, mediaId, newState);
            p.Some? ==> p.value == mediaId || p.value in MediaIds(media)
  {
    var second := SecondMedia(media, item);
    if second.Some? {
      var k :| 0 <= k < |media| && media[k] == second.value;
    }
  }

  lemma ApplyPreservesValid(db: Db, t: Target)
    requires Valid(db)
    requires t.k < |db.media| && t.j < |db.items|
    ensures Valid(Apply(db, t))
  {
    var after := Apply(db, t);
    var primary := NewPrimary(db.media, t.item, db.media[t.k].id, !db.media[t.k].isPublic);
    assert after.items == db.items[t.j := db.items[t.j].(primaryMedia := primary)];
    ApplyKeepsLayout(db, t);
    NewPrimaryExists(db.media, t.item, db.media[t.k].id, !db.media[t.k].isPublic);
    assert db.media[t.k].id in MediaIds(db.media);
    forall i | 0 <= i < |db.items| && after.items[i].primaryMedia.Some?
      ensures after.items[i].primaryMedia.value in MediaIds(db.media)
    {
      if i != t.j {
        assert after.items[i] == db.items[i];
      }
    }
    ValidAfterRewrite(db, after);
  }

  /** Every toggle keeps the tables' integrity. */
  lemma StepPreservesValid(db: Db, req: Request)
    requires Valid(db)
    ensures Valid(Step(db, req).db)
  {
    StepByCheck(db, req);
    if Check(db, req).Found? {
      ApplyPreservesValid(db, Check(db, req).target);
    }
  }

  // ------------------------------------------------------------ toggling twice

  /** The item's primary media agrees with the flag of its first media, as
      a toggle leaves it. */
  ghost predicate PrimaryFollowsFirst(db: Db, item: int) {
    && FirstMedia(db.media, item).Some?
    && var first := FirstMedia(db.media, item).value;
       forall k :: 0 <= k < |db.items| && db.items[k].id == item ==>
         db.items[k].primaryMedia == NewPrimary(db.media, item, first.id, first.isPublic)
  }

  lemma NewPrimaryOfSameLayout(a: seq<MediaRow>, b: seq<MediaRow>, item: int, mediaId: int, newState: bool)
    requires SameLayout(a, b)
    ensures NewPrimary(a, item, mediaId, newState) == NewPrimary(b, item, mediaId, newState)
  {
    FirstAndSecondOfSameLayout(a, b, item);
  }

  /** The guards look only at ids, owning items and positions. */
  lemma CheckOfSameLayout(a: Db, b: Db, req: Request)
    requires SameLayout(a.media, b.media)
    requires |a.items| == |b.items| && forall i :: 0 <= i < |a.items| ==> a.items[i].id == b.items[i].id
    ensures Check(a, req) == Check(b, req)
  {
    FindMediaOfSameLayout(a.media, b.media, req.mediaId);
    var found := FindMedia(a.media, req.mediaId);
    if found.Some? {
      var k := found.value;
      assert a.media[k].item == b.media[k].item;
      if a.media[k].item.Some? {
        var item := a.media[k].item.value;
        FindItemOfSameIds(a.items, b.items, item);
        FirstAndSecondOfSameLayout(a.media, b.media, item);
      }
    }
  }

  /** A toggle leaves the request pointing at the same rows. */
  lemma SecondCheckFindsSameTarget(db: Db, req: Request)
    requires Check(db, req).Found?
    ensures Check(Step(db, req).db, req) == Check(db, req)
  {
    var t := Check(db, req).target;
    StepByCheck(db, req);
    ApplyKeepsLayout(db, t);
    CheckOfSameLayout(db, Apply(db, t), req);
  }

  /** The writes of a toggle applied twice to the same rows: the flags are
      back, and the primary media is the one the restored flag calls for. */
  lemma ApplyTwice(db: Db, t: Target)
    requires t.k < |db.media| && t.j < |db.items|
    ensures var twice := Apply(Apply(db, t), t);
            && twice.media == db.media
            && twice.values == db.values
            && twice.items == db.items[t.j := db.items[t.j].(primaryMedia :=
                 NewPrimary(db.media, t.item, db.media[t.k].id, db.media[t.k].isPublic))]
  {
    var once := Apply(db, t);
    var twice := Apply(once, t);
    assert SameLayout(db.media, once.media);
    NewPrimaryOfSameLayout(db.media, once.media, t.item, db.media[t.k].id, db.media[t.k].isPublic);
    assert twice.media == db.media;
  }

  /** After two writes to the first media of an item, the item's primary
      media follows the first media's flag. */
  lemma ApplyTwiceFollowsFirst(db: Db, t: Target)
    requires forall i, i' :: 0 <= i < i' < |db.items| ==> db.items[i].id != db.items[i'].id
    requires t.k < |db.media| && t.j < |db.items| && db.items[t.j].id == t.item
    requires FirstMedia(db.media, t.item) == Some(db.media[t.k])
    ensures PrimaryFollowsFirst(Apply(Apply(db, t), t), t.item)
  {
    ApplyTwice(db, t);
    var twice := Apply(Apply(db, t), t);
    assert forall i :: 0 <= i < |twice.items| ==> twice.items[i].id == db.items[i].id;
    FollowsAtOwnRow(twice, t.item, t.j);
  }

  /** With unique item ids, the owning item's row is the only one to check. */
  lemma FollowsAtOwnRow(db: Db, item: int, j: nat)
    requires forall i, i' :: 0 <= i < i' < |db.items| ==> db.items[i].id != db.items[i'].id
    requires j < |db.items| && db.items[j].id == item
    requires FirstMedia(db.media, item).Some?
    requires db.items[j].primaryMedia ==
               NewPrimary(db.media, item, FirstMedia(db.media, item).value.id, FirstMedia(db.media, item).value.isPublic)
    ensures PrimaryFollowsFirst(db, item)
  {
    RowOfUniqueId(db.items, (i: ItemRow) => i.id, j);
  }

  /** The second of two toggles of the same media is accepted on the same
      rows and writes them again. */
  lemma StepTwice(db: Db, req: Request)
    requires Check(db, req).Found?
    ensures var t := Check(db, req).target;
            && Step(db, req) == Outcome(Apply(db, t), Succeeded(!db.media[t.k].isPublic))
            && Step(Step(db, req).db, req) ==
                 Outcome(Apply(Apply(db, t), t), Succeeded(!Apply(db, t).media[t.k].isPublic))
  {
    var t := Check(db, req).target;
    StepByCheck(db, req);
    SecondCheckFindsSameTarget(db, req);
    StepByCheck(Apply(db, t), req);
  }

  /** Toggling the same media twice succeeds both times, restores every
      flag and answers with the opposite states, and the second toggle
      leaves the primary media following the first media's flag. */
  lemma ToggleTwiceRestoresFlags(db: Db, req: Request)
    requires Valid(db)
    requires Step(db, req).response.Toggled?
    ensures var once := Step(db, req);
            var twice := Step(once.db, req);
            && twice.response.Toggled?
            && twice.response.isPublic == 1 - once.response.isPublic
            && twice.db.media == db.media
            && twice.db.values == db.values
            && PrimaryFollowsFirst(twice.db, Check(db, req).target.item)
  {
    StepByCheck(db, req);
    var t := Check(db, req).target;
    StepTwice(db, req);
    ApplyTwice(db, t);
    FoundIsFirst(db, req);
    ApplyTwiceFollowsFirst(db, t);
  }

  /** When the primary media already followed the first media's flag,
      toggling twice restores every table exactly. */
  lemma ToggleTwiceIsIdentity(db: Db, req: Request)
    requires Valid(db)
    requires Step(db, req).response.Toggled?
    requires PrimaryFollowsFirst(db, Check(db, req).target.item)
    ensures Step(Step(db, req).db, req).db == db
  {
    StepByCheck(db, req);
    var t := Check(db, req).target;
    StepTwice(db, req);
    ApplyTwice(db, t);
    FoundIsFirst(db, req);
    assert db.items[t.j].primaryMedia == NewPrimary(db.media, t.item, db.media[t.k].id, db.media[t.k].isPublic);
  }

  // ------------------------------------------------------------ the store

  /** The tables as the entity manager changes them: a toggle writes the
      media's flag and its item's primary media, and the flush commits both. */
  class Store {
    var items: seq<ItemRow>
    var media: seq<MediaRow>
    var values: seq<ValueRow>

    function Snapshot(): Db
      reads this
    {
      Db(items, media, values)
    }

    ghost predicate Consistent()
      reads this
    {
      Valid(Snapshot())
    }

    constructor (db: Db)
      requires Valid(db)
      ensures Snapshot() == db && Consistent()
    {
      items, media, values := db.items, db.media, db.values;
    }

    method Toggle(req: Request) returns (response: Response)
      requires Consistent()
      modifies this
      ensures Consistent()
      ensures Outcome(Snapshot(), response) == Step(old(Snapshot()), req)
      ensures response.Rejected? ==> Snapshot() == old(Snapshot())
      ensures values == old(values)
    {
      ghost var before := Snapshot();
      StepByCheck(before, req);
      if !req.isPost { return Rejected(MethodNotAllowed); }
      if !req.tokenValid { return Rejected(InvalidToken); }
      if req.mediaId <= 0 { return Rejected(InvalidMediaId); }
      var found := FindMedia(media, req.mediaId);
      if found.None? { return Rejected(MediaNotFound); }
      var k := found.value;
      if media[k].item.None? { return Rejected(ItemNotFound); }
      var item := media[k].item.value;
      var owner := FindItem(items, item);
      if owner.None? { return Rejected(ItemNotFound); }
      var j := owner.value;
      if FirstMediaId(media, item) != req.mediaId { return Rejected(FirstMediaChanged); }
      assert Check(before, req) == Found(Target(k, j, item));
      var newState := !media[k].isPublic;
      Commit(Target(k, j, item));
      response := Succeeded(newState);
    }

    /** The writes and the flush of an accepted toggle: flip the media's
        flag and re-point its item's primary media. Both queries read the
        media rows as stored; the flush commits both writes at once. */
    method Commit(t: Target)
      requires Consistent()
      requires t.k < |media| && t.j < |items|
      modifies this
      ensures Consistent()
      ensures Snapshot() == Apply(old(Snapshot()), t)
    {
      ghost var before := Snapshot();
      var stored := media;
      var newState := !stored[t.k].isPublic;
      var flipped := stored[t.k := stored[t.k].(isPublic := newState)];
      var primary: Option<int>;
      if newState {
        primary := Some(stored[t.k].id);
      } else {
        var second := SecondMedia(stored, t.item);
        var secondId := if second.Some? then second.value.id else 0;
        if secondId > 0 {
          primary := Some(secondId);
        } else {
          primary := None;
        }
      }
      var repointed := items[t.j := items[t.j].(primaryMedia := primary)];
      assert Db(repointed, flipped, values) == Apply(before, t);
      ApplyPreservesValid(before, t);
      media, items := flipped, repointed;
    }
  }

  // ------------------------------------------------------------ a scenario

  /** Item 10 holds media 1 (position 0, public, primary) and media 2
      (position 1, private). */
  const TwoMedia: Db := Db([ItemRow(10, Some("Item"), 0, None, Some(1))],
                           [MediaRow(1, Some(10), Some(0), true, None, None),
                            MediaRow(2, Some(10), Some(1), false, None, None)],
                           [])

  lemma TwoMediaOrder()
    ensures FirstMedia(TwoMedia.media, 10) == Some(TwoMedia.media[0])
    ensures SecondMedia(TwoMedia.media, 10) == Some(TwoMedia.media[1])
  {
    assert TwoMedia.media[..1] == [TwoMedia.media[0]];
  }

  lemma TwoMediaAccepted()
    ensures Check(TwoMedia, Request(true, true, 1)) == Found(Target(0, 0, 10))
  {
    TwoMediaOrder();
  }

  lemma TwoMediaValid()
    ensures Valid(TwoMedia)
  {
    assert TwoMedia.media[0].id in MediaIds(TwoMedia.media);
    assert TwoMedia.items[0].id in ItemIds(TwoMedia.items);
  }

  lemma TwoMediaFollows()
    ensures PrimaryFollowsFirst(TwoMedia, 10)
  {
    TwoMediaOrder();
  }

  lemma TwoMediaOnce()
    ensures var once := Apply(TwoMedia, Target(0, 0, 10));
            once.items[0].primaryMedia == Some(2) && !once.media[0].isPublic
  {
    TwoMediaOrder();
  }

  /** Toggling media 1 makes it private and media 2 primary; toggling it
      again makes it public and primary again. */
  lemma TwoMediaToggledTwice()
    ensures var once := Step(TwoMedia, Request(true, true, 1));
            var twice := Step(once.db, Request(true, true, 1));
            && once.response == Toggled(0, "o-icon-private", "Private")
            && once.db.items[0].primaryMedia == Some(2)
            && !once.db.media[0].isPublic
            && twice.response == Toggled(1, "o-icon-public", "Public")
            && twice.db == TwoMedia
  {
    var req := Request(true, true, 1);
    TwoMediaAccepted();
    TwoMediaValid();
    TwoMediaFollows();
    StepTwice(TwoMedia, req);
    TwoMediaOnce();
    ToggleTwiceIsIdentity(TwoMedia, req);
  }

  /** Media 2 cannot be toggled while media 1 comes first, and media 3 does
      not exist. */
  lemma TwoMediaRefusals()
    ensures Step(TwoMedia, Request(true, true, 2)).response == Rejected(FirstMediaChanged)
    ensures Step(TwoMedia, Request(true, true, 3)).response == Rejected(MediaNotFound)
  {
    TwoMediaOrder();
  }
}
