/** `resolveItemIds` and `resolveItemIdsForTokens`: each token is mapped to
    item ids by a fallback chain that stops at the first tier with a hit.

    Each SQL tier is `SELECT DISTINCT ... LIMIT 5` without `ORDER BY`, so the
    database may return any five of the distinct matches. The model takes the
    first five distinct matches in table order; every property proved about a
    tier (a subset of the matches, distinct, at most five, all of them when
    there are fewer than five, empty exactly when nothing matches) holds for
    any choice the database could make. */
module Resolver {
  import opened Wrappers
  import opened Text
  import opened Tables

  const MatchLimit: nat := 5

  /** PHP `intval` of a fetched column: NULL becomes 0. */
  function IntVal(v: Option<int>): int {
    v.GetOr(0)
  }

  function IntVals(s: seq<Option<int>>): (r: seq<int>)
    ensures |r| == |s|
    ensures forall k :: 0 <= k < |s| ==> r[k] == IntVal(s[k])
  {
    seq(|s|, k requires 0 <= k < |s| => IntVal(s[k]))
  }

  // ------------------------------------------------------------- tiers 2, 3

  /** The `WHERE` of the value tiers: the row belongs to an item (the join
      with `item`), its value or its URI equals the token, and in the first
      of the two tiers its property is `dcterms:identifier`. */
  predicate ValueMatches(v: ValueRow, items: set<int>, token: String, identifierOnly: bool) {
    && v.resource in items
    && (identifierOnly ==> v.vocabPrefix == "dcterms" && v.localName == "identifier")
    && (v.value == Some(token) || v.uri == Some(token))
  }

  /** The resource ids of the matching value rows, in table order. */
  function MatchingResources(values: seq<ValueRow>, items: set<int>, token: String, identifierOnly: bool): (ids: seq<int>)
    ensures forall x :: x in ids <==>
              exists k :: 0 <= k < |values| && values[k].resource == x && ValueMatches(values[k], items, token, identifierOnly)
  {
    if values == [] then []
    else
      var init := values[..|values| - 1];
      var last := values[|values| - 1];
      assert forall k :: 0 <= k < |values| - 1 ==> init[k] == values[k];
      MatchingResources(init, items, token, identifierOnly)
        + (if ValueMatches(last, items, token, identifierOnly) then [last.resource] else [])
  }

  /** Item `x` carries a value row that the tier would match. */
  ghost predicate ValueHit(db: Db, token: String, identifierOnly: bool, x: int) {
    exists k :: 0 <= k < |db.values| && db.values[k].resource == x &&
      ValueMatches(db.values[k], ItemIds(db.items), token, identifierOnly)
  }

  /** Tier 2 (`identifierOnly`) or tier 3: at most five distinct matching item ids. */
  function ValueTier(db: Db, token: String, identifierOnly: bool): (r: seq<int>)
    ensures NoDups(r) && |r| <= MatchLimit
    ensures forall x :: x in r ==> ValueHit(db, token, identifierOnly, x)
    ensures |r| < MatchLimit ==> forall x :: ValueHit(db, token, identifierOnly, x) ==> x in r
    ensures r == [] <==> forall x :: !ValueHit(db, token, identifierOnly, x)
  {
    var hits := MatchingResources(db.values, ItemIds(db.items), token, identifierOnly);
    var fetched := FirstDistinct(hits, MatchLimit);
    UniqueOfNoDups(fetched);
    assert forall x :: x in hits <==> ValueHit(db, token, identifierOnly, x);
    assert hits != [] ==> hits[0] in hits;
    Unique(fetched)
  }

  // ------------------------------------------------------------------ tier 4

  /** `m.source LIKE '%token%'`, as plain substring containment. */
  predicate SourceMatches(m: MediaRow, token: String) {
    m.source.Some? && Contains(m.source.value, token)
  }

  /** The `item_id` column of the media rows whose source matches, in table order. */
  function MatchingOwners(media: seq<MediaRow>, token: String): (owners: seq<Option<int>>)
    ensures forall x :: x in owners <==> exists k :: 0 <= k < |media| && media[k].item == x && SourceMatches(media[k], token)
  {
    if media == [] then []
    else
      var init := media[..|media| - 1];
      var last := media[|media| - 1];
      assert forall k :: 0 <= k < |media| - 1 ==> init[k] == media[k];
      MatchingOwners(init, token) + (if SourceMatches(last, token) then [last.item] else [])
  }

  /** Item `x` (0 for a media row without item) owns a media whose source matches. */
  ghost predicate SourceHit(db: Db, token: String, x: int) {
    exists k :: 0 <= k < |db.media| && IntVal(db.media[k].item) == x && SourceMatches(db.media[k], token)
  }

  lemma IntValsInjective(s: seq<Option<int>>)
    requires NoDups(s)
    requires forall k :: 0 <= k < |s| ==> s[k] != Some(0)
    ensures NoDups(IntVals(s))
  {
    var r := IntVals(s);
    forall i, j | 0 <= i < j < |r|
      ensures r[i] != r[j]
    {
      assert s[i] != s[j];
    }
  }

  /** Tier 4: at most five distinct owners of a media whose source contains the token. */
  function SourceTier(db: Db, token: String): (r: seq<int>)
    ensures NoDups(r) && |r| <= MatchLimit
  {
    Unique(IntVals(FirstDistinct(MatchingOwners(db.media, token), MatchLimit)))
  }

  /** Tier 4 returns owners of matching media only, nothing exactly when no
      source matches, and every owner when there are fewer than five,
      provided no media row names item 0 (ids are positive, so `Valid`
      guarantees it). Otherwise a media row without an item and one of item
      0 both give `(int)` 0, `array_unique` merges them, and a sixth owner
      the `LIMIT` cut off can be missing from fewer than five results. */
  lemma SourceTierSpec(db: Db, token: String)
    ensures var r := SourceTier(db, token);
            && (forall x :: x in r ==> SourceHit(db, token, x))
            && (r == [] <==> forall x :: !SourceHit(db, token, x))
            && ((forall k :: 0 <= k < |db.media| ==> db.media[k].item != Some(0)) && |r| < MatchLimit ==>
                  forall x :: SourceHit(db, token, x) ==> x in r)
  {
    var owners := MatchingOwners(db.media, token);
    var fetched := FirstDistinct(owners, MatchLimit);
    var ids := IntVals(fetched);
    var r := Unique(ids);
    assert r == SourceTier(db, token);
    forall x | SourceHit(db, token, x)
      ensures exists o :: o in owners && IntVal(o) == x
    {
      var k :| 0 <= k < |db.media| && IntVal(db.media[k].item) == x && SourceMatches(db.media[k], token);
      assert db.media[k].item in owners;
    }
    forall x | x in r
      ensures SourceHit(db, token, x)
    {
      var i :| 0 <= i < |ids| && ids[i] == x;
      assert fetched[i] in owners;
    }
    if forall k :: 0 <= k < |db.media| ==> db.media[k].item != Some(0) {
      assert forall o :: o in owners ==> o != Some(0);
      assert forall k :: 0 <= k < |fetched| ==> fetched[k] in owners;
      IntValsInjective(fetched);
      UniqueOfNoDups(ids);
      forall x | SourceHit(db, token, x) && |r| < MatchLimit
        ensures x in r
      {
        var o :| o in owners && IntVal(o) == x;
        var i :| 0 <= i < |fetched| && fetched[i] == o;
        assert ids[i] == x;
      }
    }
    assert r != [] ==> r[0] in r;
    assert fetched != [] ==> ids[0] in r;
  }

  /** Under the schema's integrity no media row names item 0, so tier 4 is
      complete below five results. */
  lemma SourceTierCompleteWhenValid(db: Db, token: String)
    requires Valid(db)
    ensures |SourceTier(db, token)| < MatchLimit ==>
              forall x :: SourceHit(db, token, x) ==> x in SourceTier(db, token)
  {
    forall k | 0 <= k < |db.media|
      ensures db.media[k].item != Some(0)
    {
      if db.media[k].item.Some? {
        var i :| 0 <= i < |db.items| && db.items[i].id == db.media[k].item.value;
      }
    }
    SourceTierSpec(db, token);
  }

  // ------------------------------------------------------------ the chain

  /** `resolveItemIds($token)`. */
  function ResolveToken(db: Db, token: String): (r: seq<int>)
    ensures NoDups(r) && |r| <= MatchLimit
  {
    var t := Trim(token);
    if t == [] then []
    else if IsDigits(t) then
      var id := DigitsValue(t);
      if id in ItemIds(db.items) then [id] else []
    else
      var byIdentifier := ValueTier(db, t, true);
      if byIdentifier != [] then byIdentifier
      else
        var byValue := ValueTier(db, t, false);
        if byValue != [] then byValue
        else SourceTier(db, t)
  }

  /** An all-digit token names an item id: it resolves to that id exactly
      when such an item exists, and neither values nor media are consulted. */
  lemma DigitTokenResolution(db: Db, token: String, otherValues: seq<ValueRow>, otherMedia: seq<MediaRow>)
    requires IsDigits(Trim(token))
    ensures var id := DigitsValue(Trim(token));
            && ResolveToken(db, token) == (if id in ItemIds(db.items) then [id] else [])
            && ResolveToken(db.(values := otherValues, media := otherMedia), token) == ResolveToken(db, token)
  {
  }

  /** For any other token the tiers are tried in order, and a later tier
      answers only when every earlier one found nothing. */
  lemma NonDigitTokenResolution(db: Db, token: String)
    requires Trim(token) != [] && !IsDigits(Trim(token))
    ensures var t := Trim(token);
            var r := ResolveToken(db, token);
            && ((exists x :: ValueHit(db, t, true, x)) ==>
                  r != [] && forall x :: x in r ==> ValueHit(db, t, true, x))
            && ((forall x :: !ValueHit(db, t, true, x)) && (exists x :: ValueHit(db, t, false, x)) ==>
                  r != [] && forall x :: x in r ==> ValueHit(db, t, false, x))
            && ((forall x :: !ValueHit(db, t, true, x)) && (forall x :: !ValueHit(db, t, false, x)) ==>
                  r == SourceTier(db, t))
            && (r == [] <==> forall x :: !ValueHit(db, t, false, x) && !SourceHit(db, t, x))
  {
    var t := Trim(token);
    SourceTierSpec(db, t);
    forall x | ValueHit(db, t, true, x)
      ensures ValueHit(db, t, false, x)
    {
      var k :| 0 <= k < |db.values| && db.values[k].resource == x && ValueMatches(db.values[k], ItemIds(db.items), t, true);
      assert ValueMatches(db.values[k], ItemIds(db.items), t, false);
    }
  }

  /** A blank token resolves to nothing. */
  lemma BlankTokenResolvesToNothing(db: Db, token: String)
    requires Trim(token) == []
    ensures ResolveToken(db, token) == []
  {
  }

  // ------------------------------------------------------- all the tokens

  /** The lists one after another. */
  function Concat(lists: seq<seq<int>>): (all: seq<int>)
    ensures forall x :: x in all <==> exists k :: 0 <= k < |lists| && x in lists[k]
  {
    if lists == [] then []
    else
      var init := lists[..|lists| - 1];
      assert forall k :: 0 <= k < |lists| - 1 ==> init[k] == lists[k];
      Concat(init) + lists[|lists| - 1]
  }

  lemma ConcatPair(a: seq<int>, b: seq<int>)
    ensures Concat([a, b]) == a + b
  {
    assert Concat([a]) == a by {
      assert [a][..0] == [];
    }
    assert Concat([a, b]) == Concat([a]) + b by {
      assert [a, b][..1] == [a];
    }
    assert a + b == Concat([a]) + b;
  }

  /** The ids of each token, in token order. */
  function Resolved(db: Db, tokens: seq<String>): (lists: seq<seq<int>>)
    ensures |lists| == |tokens|
    ensures forall k :: 0 <= k < |tokens| ==> lists[k] == ResolveToken(db, tokens[k])
  {
    seq(|tokens|, k requires 0 <= k < |tokens| => ResolveToken(db, tokens[k]))
  }

  /** The ids of every token, concatenated in token order. */
  function Collected(db: Db, tokens: seq<String>): (ids: seq<int>)
    ensures forall x :: x in ids <==> exists k :: 0 <= k < |tokens| && x in ResolveToken(db, tokens[k])
  {
    Concat(Resolved(db, tokens))
  }

  /** `array_filter` on a list of ids: drop the zeros. */
  function NonZero(s: seq<int>): (r: seq<int>)
    ensures forall x :: x in r <==> x in s && x != 0
  {
    if s == [] then []
    else NonZero(s[..|s| - 1]) + (if s[|s| - 1] != 0 then [s[|s| - 1]] else [])
  }

  /** The distinct non-zero ids any token resolves to. */
  function ResolveTokens(db: Db, tokens: seq<String>): (ids: seq<int>)
    ensures NoDups(ids) && 0 !in ids
    ensures forall x :: x in ids <==> x != 0 && exists k :: 0 <= k < |tokens| && x in ResolveToken(db, tokens[k])
  {
    Unique(NonZero(Collected(db, tokens)))
  }

  /** Collecting one more token appends that token's ids. */
  lemma CollectedStep(db: Db, tokens: seq<String>, i: nat)
    requires i < |tokens|
    ensures Collected(db, tokens[..i + 1]) == Collected(db, tokens[..i]) + ResolveToken(db, tokens[i])
  {
    var lists := Resolved(db, tokens[..i + 1]);
    assert lists[..i] == Resolved(db, tokens[..i]);
  }

  /** The inner `foreach`: append each id of one token to `$itemIds`. */
  method AppendIds(itemIds: seq<int>, resolved: seq<int>) returns (r: seq<int>)
    ensures r == itemIds + resolved
  {
    r := itemIds;
    var j := 0;
    while j < |resolved|
      invariant 0 <= j <= |resolved|
      invariant r == itemIds + resolved[..j]
    {
      r := r + [resolved[j]];
      j := j + 1;
    }
    assert resolved[..j] == resolved;
  }

  /** Two tokens: the ids of the first, then those of the second. */
  lemma ResolveTokenPair(db: Db, a: String, b: String)
    ensures ResolveTokens(db, [a, b]) == Unique(NonZero(ResolveToken(db, a) + ResolveToken(db, b)))
  {
    assert Resolved(db, [a, b]) == [ResolveToken(db, a), ResolveToken(db, b)];
    ConcatPair(ResolveToken(db, a), ResolveToken(db, b));
  }

  /** `resolveItemIdsForTokens($tokens)`: both loops appending to `$itemIds`,
      then `array_values(array_unique(array_filter($itemIds)))`. */
  method ResolveItemIdsForTokens(db: Db, tokens: seq<String>) returns (ids: seq<int>)
    ensures ids == ResolveTokens(db, tokens)
    ensures NoDups(ids) && 0 !in ids
    ensures forall x :: x in ids <==> x != 0 && exists k :: 0 <= k < |tokens| && x in ResolveToken(db, tokens[k])
  {
    var itemIds: seq<int> := [];
    var i := 0;
    while i < |tokens|
      invariant 0 <= i <= |tokens|
      invariant itemIds == Collected(db, tokens[..i])
    {
      var resolved := ResolveToken(db, tokens[i]);
      itemIds := AppendIds(itemIds, resolved);
      CollectedStep(db, tokens, i);
      i := i + 1;
    }
    assert tokens[..i] == tokens;
    ids := Unique(NonZero(itemIds));
  }

  lemma UnknownTokenResolvesToNothing(db: Db)
    requires forall k :: 0 <= k < |db.values| ==>
               db.values[k].value != Some("abc123") && db.values[k].uri != Some("abc123")
    requires forall k :: 0 <= k < |db.media| ==> !SourceMatches(db.media[k], "abc123")
    ensures ResolveToken(db, "abc123") == []
  {
    assert !IsDigits("abc123") by {
      assert "abc123"[0] == 'a' && !IsDigit('a');
    }
    TrimOfTrimmed("abc123");
    SourceTierSpec(db, "abc123");
  }

  lemma ItemIdTokenResolves(db: Db)
    requires 42 in ItemIds(db.items)
    ensures ResolveToken(db, "42") == [42]
  {
    TrimOfTrimmed("42");
    assert "42"[..1] == "4";
    assert DigitsValue("42") == 42;
  }

  /** Where item 42 exists and no value or media source mentions `abc123`,
      the tokens `abc123` and `42` resolve to item 42 alone. */
  lemma MixedTokensResolution(db: Db)
    requires 42 in ItemIds(db.items)
    requires forall k :: 0 <= k < |db.values| ==>
               db.values[k].value != Some("abc123") && db.values[k].uri != Some("abc123")
    requires forall k :: 0 <= k < |db.media| ==> !SourceMatches(db.media[k], "abc123")
    ensures ResolveTokens(db, ["abc123", "42"]) == [42]
  {
    UnknownTokenResolvesToNothing(db);
    ItemIdTokenResolves(db);
    ResolveTokenPair(db, "abc123", "42");
    assert NonZero([42]) == [42] by { assert [42][..0] == []; }
  }
}
