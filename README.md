# First Media Visibility — a verified model

FirstMediaVisibility is an administration page for an Omeka S installation. It
lists every item joined with its *first media*, meaning the media with the
least `(position, id)`. The list can be filtered, sorted and paged. An
administrator can flip the public flag of an item's first media with one
click. When the first media becomes public, it also becomes the item's primary
media. When it becomes private, the item's second media becomes primary (or
none, if there is no second media).

This project models the controller `src/Controller/Admin/IndexController.php`
in Dafny and proves properties of that model:

- `params.dfy`: normalisation of the listing's query parameters (page, page
  size, offset, sort key, direction, visibility filter, preferred site).
- `identifiers.dfy`: `parseIdentifiers`, which splits the free-text identifier
  box into tokens.
- `resolver.dfy`: `resolveItemIds` and its four-tier fallback chain (item id,
  `dcterms:identifier`, any value, media source). Also `resolveItemIdsForTokens`,
  written as the loop the controller runs.
- `tables.dfy`: the tables the controller reads and writes, held in memory. It
  also defines the first and second media of an item.
- `listing.dfy`: the listing query:
  - the `WHERE` parts, and the loop that binds the identifier placeholders;
  - the join with the first media;
  - the two-key ordering and the page window;
  - the count;
  - `indexAction` up to the query results.
- `presentation.dfy`: the in-place rewrite of each result row:
  - display titles with their placeholders;
  - the thumbnail URL;
  - the choice of site for the public link.
- `toggle.dfy`: `toggleAction`. `Step` describes the action on a snapshot of
  the tables. `Store` is a class whose `Toggle` method changes its tables the
  same way the entity manager's flush does. Lemmas cover which requests are
  refused, the effects of a successful toggle, integrity preservation, and
  toggling twice.
- `text.dfy`, `wrappers.dfy`: PHP's `trim`, `strtolower`, `array_unique`,
  `ctype_digit`, `(int)` and integer printing; the `Option` type.

Two behaviours of the code are worth stating plainly:

- **Identifier filter.** Blank or separator-only identifier text does not
  filter, because the filter is switched on by a non-empty token list
  (line 96).
- **Preferred site.** A preferred slug that the item lacks gives an empty
  public link. The code falls back to the item's first slug only when no
  slug is preferred (lines 239–246).

## Model

Members without a row are helpers: predicates used inside contracts, one-step lemmas that the listed proofs are built from (`JoinCons`, `ConsInterior`, `TailFirstPiece`, `ThreeParts`, `BeforeSnoc`), and generic facts about sequences and infixes. A few rows name a function whose body is the model of the cited lines and whose meaning is stated by the lemmas that row names; there the third column says what those lemmas prove.

| member | source | states |
|---|---|---|
| Text.Trim | src/Controller/Admin/IndexController.php:297 | the result is the slice between the first and the last character that is not " \t\n\r\0\x0B"; no such character is left at either end |
| Text.TrimStart | src/Controller/Admin/IndexController.php:297 | the length of the leading run of trim characters: all trim characters, and the next character (if any) is not one |
| Text.TrimEnd | src/Controller/Admin/IndexController.php:297 | the end of the trimmed slice: never before `TrimStart`, only trim characters after it, and a non-trim character just before it unless the slice is empty |
| Text.Unique | src/Controller/Admin/IndexController.php:314 | `array_unique`: no duplicates, exactly the same members, never longer; the order of first occurrence is proved in `UniqueKeepsFirstOccurrenceOrder` |
| Text.UniqueKeepsFirstOccurrenceOrder | src/Controller/Admin/IndexController.php:314 | `array_unique` keeps each value's first occurrence: of two values in the result, some occurrence of the earlier one in the input comes before every occurrence of the later one |
| Text.FirstDistinct | src/Controller/Admin/IndexController.php:333-341 | `SELECT DISTINCT … LIMIT n`: distinct, at most n, drawn from the input, complete when fewer than n, empty only for empty input |
| Text.Lower | src/Controller/Admin/IndexController.php:73 | `strtolower` keeps the length and lower-cases each ASCII letter |
| Text.DecimalString | src/Controller/Admin/IndexController.php:103 | the decimal form of an index is a digit string that reads back as the same number |
| Text.IsDigits | src/Controller/Admin/IndexController.php:326 | `ctype_digit`: non-empty and decimal digits only; `DecimalString` always yields such a string, and `DigitTokenResolution` / `NonDigitTokenResolution` split token resolution on it |
| Text.DigitsValue | src/Controller/Admin/IndexController.php:327 | `(int) $token` on a digit string; `DecimalString` reads back through it to the same number, and `DigitTokenResolution` looks up exactly that id |
| Params.KnownSiteSlugs | src/Controller/Admin/IndexController.php:50-57 | the known site slugs are distinct, and a slug is known iff it is the non-empty trimmed slug of some site row |
| Params.TrimmedSlugs | src/Controller/Admin/IndexController.php:51-56 | a slug is kept iff it is the non-empty trimmed slug of some site row |
| Params.NormalisePage | src/Controller/Admin/IndexController.php:43 | page ≥ 1; values ≥ 1 are kept and smaller ones become 1 |
| Params.NormalisePerPage | src/Controller/Admin/IndexController.php:61-64 | 1 ≤ perPage ≤ 1000; values in range are kept, values ≤ 0 become 50 and values > 1000 become 1000 |
| Params.NormaliseSort | src/Controller/Admin/IndexController.php:66-69 | the sort key is whitelisted; whitelisted input is kept and anything else becomes `item_title` |
| Params.NormaliseVisibility | src/Controller/Admin/IndexController.php:70-72 | the trimmed filter is whitelisted; anything else becomes `all` |
| Params.NormaliseOrder | src/Controller/Admin/IndexController.php:73-74 | the direction is `DESC` iff the lower-cased input is `desc`, and `ASC` otherwise |
| Params.NormaliseSiteSlug | src/Controller/Admin/IndexController.php:58-60 | the preferred slug is empty or known; a known trimmed slug is kept and an unknown one becomes empty |
| Params.Normalise | src/Controller/Admin/IndexController.php:43-76 | all bounds and whitelists at once, offset = (page − 1) · perPage, trimmed filter texts |
| Params.OffsetNonNegative | src/Controller/Admin/IndexController.php:76 | the offset is never negative |
| Params.ValidQueryPreserved | src/Controller/Admin/IndexController.php:43-74 | a query whose page, size, sort, visibility and direction are already valid keeps them (the direction upper-cased) |
| Identifiers.Split | src/Controller/Admin/IndexController.php:295 | the split yields at least one piece, and no piece contains a separator; with `Runs`, `SplitJoinsBack` and `SplitInteriorNonEmpty` the pieces are exactly the maximal separator-free stretches of the text |
| Identifiers.FirstSeparator | src/Controller/Admin/IndexController.php:295 | the index of the first separator (or the length): no separator before it, a separator at it |
| Identifiers.SeparatorRun | src/Controller/Admin/IndexController.php:295 | the length of the leading separator run: all separators, and the next character (if any) is not one |
| Identifiers.SplitInteriorNonEmpty | src/Controller/Admin/IndexController.php:295 | only the first and the last piece can be empty, so no empty piece sits between two runs and each run is a maximal one |
| Identifiers.FirstPieceNonEmpty | src/Controller/Admin/IndexController.php:295 | text that does not start with a separator has a non-empty first piece |
| Identifiers.Runs | src/Controller/Admin/IndexController.php:295 | one separator run between each two pieces, each non-empty and made of separators only; maximal by `SplitInteriorNonEmpty` |
| Identifiers.SplitStep | src/Controller/Admin/IndexController.php:295 | the split cuts the first piece at the first separator, then the whole run after it, and goes on with the rest |
| Identifiers.SplitJoinsBack | src/Controller/Admin/IndexController.php:295 | the text is its pieces joined by the separator runs between them, so no character is lost or moved |
| Identifiers.SplitPiecesAreInfixes | src/Controller/Admin/IndexController.php:295 | every piece of the split occurs in the text |
| Identifiers.TrimmedNonEmpty | src/Controller/Admin/IndexController.php:296-300 | a string is kept iff it is a non-empty trimmed piece |
| Identifiers.FirstSeparatorAt | src/Controller/Admin/IndexController.php:295 | a piece ends at the first separator, the one preceded only by non-separators |
| Identifiers.ParseIdentifiers | src/Controller/Admin/IndexController.php:294-302 | the tokens have no duplicates |
| Identifiers.ParsedTokensWellFormed | src/Controller/Admin/IndexController.php:294-302 | every token is non-empty, trimmed and separator-free, and occurs in the text; tokens are pairwise distinct |
| Identifiers.ParsedTokensComplete | src/Controller/Admin/IndexController.php:294-302 | every piece that is not blank after trimming is a token |
| Identifiers.BlankTextHasNoTokens | src/Controller/Admin/IndexController.php:294-302 | text made only of separators, the empty text included, yields no token |
| Identifiers.MixedTextSplit | src/Controller/Admin/IndexController.php:295 | `abc123, 42` splits into `abc123` and `42` |
| Identifiers.MixedTextTrimmed | src/Controller/Admin/IndexController.php:296-300 | the pieces `abc123` and `42` survive trimming unchanged |
| Identifiers.MixedTextTokens | src/Controller/Admin/IndexController.php:294-302 | `abc123, 42` parses to the tokens `abc123` and `42` |
| Resolver.MatchingResources | src/Controller/Admin/IndexController.php:333-340 | an id is listed iff a value row of an existing item matches the token (by property when asked) |
| Resolver.MatchingOwners | src/Controller/Admin/IndexController.php:372-376 | an owner value is listed iff some media row with that owner has a source containing the token |
| Resolver.IntVals | src/Controller/Admin/IndexController.php:380 | `array_map('intval', …)`: same length, each entry the integer value of the matching column entry |
| Resolver.ValueTier | src/Controller/Admin/IndexController.php:332-370 | tiers 2 and 3 give distinct ids, at most 5, each a real match; the result is complete when fewer than 5 and empty iff nothing matches |
| Resolver.SourceTier | src/Controller/Admin/IndexController.php:372-380 | tier 4 gives distinct ids, at most 5 |
| Resolver.SourceTierSpec | src/Controller/Admin/IndexController.php:372-380 | every tier-4 id owns a media whose source contains the token; the tier is empty iff no media matches; when no media row names item 0 and fewer than five ids come back, every owner of a matching media is among them |
| Resolver.SourceTierCompleteWhenValid | src/Controller/Admin/IndexController.php:372-380 | under the schema's integrity, fewer than five tier-4 ids means every owner of a matching media is among them |
| Resolver.ResolveToken | src/Controller/Admin/IndexController.php:320-381 | a token resolves to distinct ids, at most 5 |
| Resolver.DigitTokenResolution | src/Controller/Admin/IndexController.php:326-330 | an all-digit token gives exactly [id] when that item exists and [] otherwise, whatever the values and media hold |
| Resolver.NonDigitTokenResolution | src/Controller/Admin/IndexController.php:332-380 | the tiers answer in order: identifier matches win; plain value matches come only when no identifier matches; the source tier only when neither matches; the result is empty iff no tier has a hit |
| Resolver.BlankTokenResolvesToNothing | src/Controller/Admin/IndexController.php:321-324 | a blank token resolves to nothing |
| Resolver.Collected | src/Controller/Admin/IndexController.php:308-313 | the collected ids are exactly the ids of each token |
| Resolver.Concat | src/Controller/Admin/IndexController.php:308-313 | appending the id lists one after another keeps exactly the ids of some list |
| Resolver.Resolved | src/Controller/Admin/IndexController.php:308-312 | one id list per token, the ids that token resolves to |
| Resolver.CollectedStep | src/Controller/Admin/IndexController.php:308-313 | one more token appends exactly that token's ids |
| Resolver.AppendIds | src/Controller/Admin/IndexController.php:309-311 | the inner loop appends every id of a token, in order |
| Resolver.ResolveTokenPair | src/Controller/Admin/IndexController.php:307-315 | two tokens give the distinct non-zero ids of the first followed by those of the second |
| Resolver.NonZero | src/Controller/Admin/IndexController.php:314 | `array_filter` keeps exactly the non-zero ids |
| Resolver.ResolveTokens | src/Controller/Admin/IndexController.php:307-315 | the resolved ids are distinct and non-zero, and an id is present iff some token resolves to it |
| Resolver.ResolveItemIdsForTokens | src/Controller/Admin/IndexController.php:307-315 | the nested loops compute `ResolveTokens`: distinct non-zero ids, each resolved from some token, and every such id present |
| Resolver.UnknownTokenResolvesToNothing | src/Controller/Admin/IndexController.php:332-380 | a token that no value or media source mentions resolves to nothing |
| Resolver.ItemIdTokenResolves | src/Controller/Admin/IndexController.php:326-329 | `42` resolves to [42] when item 42 exists |
| Resolver.MixedTokensResolution | src/Controller/Admin/IndexController.php:307-315 | the tokens `abc123` and `42` resolve to [42] when only item 42 is known |
| Tables.MinMedia | src/Controller/Admin/IndexController.php:418-422 | the least candidate in (position, id) order: a candidate that no candidate precedes; none iff there is no candidate |
| Tables.FirstMedia | src/Controller/Admin/IndexController.php:418-422 | the item's first media belongs to it and no media of the item precedes it; none iff the item has no media |
| Tables.SecondMedia | src/Controller/Admin/IndexController.php:440-444 | the `OFFSET 1` media belongs to the item and differs from the first |
| Tables.SecondMediaSpec | src/Controller/Admin/IndexController.php:440-444 | the second media follows the first and precedes every other media of the item; there is none iff the first is the item's only media |
| Tables.PrecedesTransitive | src/Controller/Admin/IndexController.php:419 | (position, id) order is transitive |
| Tables.PrecedesTotal | src/Controller/Admin/IndexController.php:419 | of two media with different ids, exactly one precedes the other |
| Tables.PrecedesNeither | src/Controller/Admin/IndexController.php:419 | two media neither of which precedes the other have the same id |
| Tables.FindMedia | src/Controller/Admin/IndexController.php:408-411 | `find` returns the row with that id, and nothing iff no row has it |
| Tables.FindItem | src/Controller/Admin/IndexController.php:413-416 | the item row with that id, and nothing iff no row has it |
| Tables.FirstMediaId | src/Controller/Admin/IndexController.php:418-422 | `(int) fetchOne` of the first-media query: the id of `FirstMedia`, or 0 with no media; `FirstOfIsFirstMedia` proves it is the id of the minimal media, and `FirstAndSecondOfSameLayout` that flags do not change it |
| Tables.FirstAndSecondOfSameLayout | src/Controller/Admin/IndexController.php:431-444 | changing flags moves neither the first nor the second media |
| Tables.MinMediaOfSameLayout | src/Controller/Admin/IndexController.php:418-444 | the least media depends only on ids, items and positions |
| Tables.FindMediaOfSameLayout | src/Controller/Admin/IndexController.php:408 | finding a media depends only on the ids |
| Tables.FindItemOfSameIds | src/Controller/Admin/IndexController.php:413 | finding an item depends only on the ids |
| Tables.MediaRowById | src/Controller/Admin/IndexController.php:408 | with unique ids, a media row is determined by its id |
| Listing.MediaTitleColumn | src/Controller/Admin/IndexController.php:149 | `COALESCE(NULLIF(title, ''), source, '')`: a non-empty title, else the source, else the empty string |
| Listing.JoinRow | src/Controller/Admin/IndexController.php:143-163 | the joined row carries the item's id, title and `COALESCE(modified, created)`; its media columns are those of the first media (`ORDER BY position, id LIMIT 1`) and are NULL, with an empty title, when the item has none |
| Listing.JoinedRows | src/Controller/Admin/IndexController.php:151-163 | one joined row per item, in table order |
| Listing.Holds | src/Controller/Admin/IndexController.php:78-108 | the SQL meaning of each `$whereParts` entry (title LIKE, `is_public = 1`/`0`, `1 = 0`, `i.id IN (…)`); `Filter`, `FiltersRestrictRows`, `FilterRejectingAll` and `OnlyResolvedItemPasses` state what the listing keeps under it |
| Listing.WhereParts | src/Controller/Admin/IndexController.php:78-110 | each part is present iff requested: the text part iff there is filter text, the flag part iff visibility is `public` or `private` with that flag, `1 = 0` iff there are tokens but no ids, `IN (ids)` iff there are tokens and ids |
| Listing.IdParamNamesDistinct | src/Controller/Admin/IndexController.php:103 | different indexes give different parameter names |
| Listing.BindIdentifierIds | src/Controller/Admin/IndexController.php:100-108 | one placeholder `:identifier_item_id_<i>` per id, each parameter bound to its id, and no other parameter; reading the bound values in placeholder order gives back `ids`, so the SQL condition is exactly `ItemIdIn(ids)` |
| Listing.Filter | src/Controller/Admin/IndexController.php:164 | a row is kept iff it satisfies every part, and the kept rows are a sub-multiset |
| Listing.FilterRejectingAll | src/Controller/Admin/IndexController.php:98 | a `1 = 0` part keeps nothing |
| Listing.FilterNone | src/Controller/Admin/IndexController.php:164 | a `WHERE` no row passes keeps nothing |
| Listing.FilterOnlyOne | src/Controller/Admin/IndexController.php:164 | a `WHERE` exactly one row passes keeps that row alone |
| Listing.LexLessTotal | src/Controller/Admin/IndexController.php:165 | string order is total |
| Listing.LexLessTransitive | src/Controller/Admin/IndexController.php:165 | string order is transitive |
| Listing.SortKey | src/Controller/Admin/IndexController.php:135-141 | the `$sortExpr` value per sort (media title column, modified-or-created, flag or -1, item title or ''); `RowLeTotal`, `RowLeTransitive`, `SortRowsSorted`, `TiesByItemId` and `PublicByVisibilityOrderedById` prove the order it induces |
| Listing.RowLeTotal | src/Controller/Admin/IndexController.php:165 | the two-key row order is total |
| Listing.RowLeTransitive | src/Controller/Admin/IndexController.php:165 | the two-key row order is transitive |
| Listing.Insert | src/Controller/Admin/IndexController.php:165 | insertion adds exactly one row (as a multiset) |
| Listing.SortRows | src/Controller/Admin/IndexController.php:165 | sorting is a permutation |
| Listing.SortRowsSorted | src/Controller/Admin/IndexController.php:165 | the sorted rows are in `ORDER BY sortExpr dir, i.id ASC` order |
| Listing.Window | src/Controller/Admin/IndexController.php:166 | `LIMIT/OFFSET` keeps at most `limit` rows |
| Listing.WindowOfSorted | src/Controller/Admin/IndexController.php:165-166 | a window of a sorted list is sorted |
| Listing.PageOf | src/Controller/Admin/IndexController.php:165-166 | every matching row is on some page |
| Listing.ListItems | src/Controller/Admin/IndexController.php:117-176 | the total is non-negative; the page holds min(perPage, total − offset) rows, none when the offset is past the total |
| Listing.ListedRowsMatch | src/Controller/Admin/IndexController.php:117-176 | the total is the number of filtered rows, and every listed row is some item's joined row satisfying every part |
| Listing.ListedRowsSorted | src/Controller/Admin/IndexController.php:165 | the page is in `ORDER BY` order |
| Listing.EveryMatchIsListed | src/Controller/Admin/IndexController.php:165-166 | every filtered row appears on some page |
| Listing.TiesByItemId | src/Controller/Admin/IndexController.php:165 | rows with equal sort keys are in ascending item id order in both directions |
| Listing.UnresolvedTokensMatchNothing | src/Controller/Admin/IndexController.php:96-99 | tokens that resolve to no id give total 0 and no rows |
| Listing.SingleIdListing | src/Controller/Admin/IndexController.php:96-108 | tokens resolving to one item list that item only; when it exists and no text or visibility filter applies, the count is 1 and the first page is its joined row |
| Listing.OneRowPage | src/Controller/Admin/IndexController.php:117-166 | a `WHERE` keeping one row gives count 1 and, at offset 0, that row alone |
| Listing.OnlyResolvedItemPasses | src/Controller/Admin/IndexController.php:96-108 | with no text or visibility filter, `i.id IN (:id)` keeps exactly that item's joined row |
| Listing.ResolvedItemListed | src/Controller/Admin/IndexController.php:96-166 | the item an identifier resolves to is counted once and listed on the first page |
| Listing.NoTokensNoIdentifierFilter | src/Controller/Admin/IndexController.php:96 | without tokens the resolved ids do not affect the listing |
| Listing.FiltersRestrictRows | src/Controller/Admin/IndexController.php:81-110 | listed rows are among the resolved ids, have the requested first-media flag, and match the text filter |
| Listing.PublicByVisibilityOrderedById | src/Controller/Admin/IndexController.php:135-165 | with `visibility=public&sort=visibility` the page is ordered by item id in either direction |
| Listing.MixedIdentifierText | src/Controller/Admin/IndexController.php:94-110 | `abc123, 42` with only item 42 known lists item 42 alone; with no text or visibility filter it is the one row counted and is on the first page |
| Listing.Index | src/Controller/Admin/IndexController.php:42-176 | the parameters are normalised; the page fits perPage ≤ 1000; tokens are well formed; with tokens, every listed item was resolved from one of them |
| Presentation.ItemSiteSlugs | src/Controller/Admin/IndexController.php:225-236 | the item's slugs are non-empty and trimmed, and every non-blank site slug is among them |
| Presentation.ItemSiteSlugsFromSites | src/Controller/Admin/IndexController.php:225-236 | each slug is the trimmed slug of one of the item's sites |
| Presentation.FirstItemSiteSlug | src/Controller/Admin/IndexController.php:225-246 | the first slug, the fallback of line 245, is that of the first site whose slug is not blank |
| Presentation.ChooseSlug | src/Controller/Admin/IndexController.php:239-246 | the slug is empty or one of the item's; a preferred slug is used iff the item has it and is otherwise dropped; with no preference the first slug is used |
| Presentation.Label | src/Controller/Admin/IndexController.php:214-217 | a displayed title is never empty: the trimmed title, or the placeholder when that is blank |
| Presentation.PresentMediaIds | src/Controller/Admin/IndexController.php:180-184 | exactly the non-zero media ids of the rows |
| Presentation.MediaIdsToFetch | src/Controller/Admin/IndexController.php:178-186 | the media to look up are the distinct non-zero media ids of the page |
| Presentation.PresentItemIds | src/Controller/Admin/IndexController.php:180-182 | exactly the non-zero item ids of the rows |
| Presentation.ItemIdsToFetch | src/Controller/Admin/IndexController.php:178-187 | the items to look up are the distinct non-zero item ids of the page |
| Presentation.PublicUrl | src/Controller/Admin/IndexController.php:219-250 | the item link: the URL of the chosen site slug when it has one, else empty; `DecoratedRow` proves it is the chosen slug's URL and exists only under one of the item's own sites |
| Presentation.DecorateRow | src/Controller/Admin/IndexController.php:211-262 | one pass of `foreach ($rows as &$row)`; `DecoratedRow` states every field of its result |
| Presentation.DecoratedRow | src/Controller/Admin/IndexController.php:211-270 | decoration keeps ids, media id and date; the item title is the trimmed title or `[Untitled]`; titles are never empty; rows without a known media get `[No media]`, no thumbnail and no flag; a known item whose chosen slug has a URL gets that URL as its link, and a link exists only under one of the item's own sites, the preferred one if any |
| Presentation.DecorateRows | src/Controller/Admin/IndexController.php:211-271 | every row of the array is rewritten in place by the per-row rule |
| Toggle.Step | src/Controller/Admin/IndexController.php:386-463 | the whole `toggleAction` on a snapshot of the tables; `StepByCheck`, `AcceptedIffAcceptable`, `ToggleEffects` and `StepPreservesValid` state its replies, its writes and the integrity it keeps |
| Toggle.Apply | src/Controller/Admin/IndexController.php:431-452 | the writes of an accepted request; `ApplyMediaEffect`, `ApplyItemEffect`, `ApplyPreservesValid` and `ApplyTwice` state that only the target's flag and its item's primary change, integrity is kept, and two writes restore the flags |
| Toggle.NewPrimary | src/Controller/Admin/IndexController.php:433-452 | the primary re-pointing; `NewPrimaryMeaning` and `NewPrimaryExists` prove it is the media itself when made public, else the second media or NULL, and never an id outside the media table |
| Toggle.Succeeded | src/Controller/Admin/IndexController.php:457-462 | `is_public` is 1 iff the new flag is set; the icon class and label agree with the flag |
| Toggle.Check | src/Controller/Admin/IndexController.php:391-429 | an accepted request is a POST with a valid token that names an existing media, with an existing item, which is that item's first media |
| Toggle.StepByCheck | src/Controller/Admin/IndexController.php:386-463 | a refusal returns the failure and leaves the tables alone; an acceptance applies the writes and reports the new flag |
| Toggle.FoundIsAcceptable | src/Controller/Admin/IndexController.php:418-429 | an accepted media is minimal among its item's media |
| Toggle.AcceptableIsFound | src/Controller/Admin/IndexController.php:418-429 | a media minimal among its item's media passes the first-media check |
| Toggle.FirstOfIsFirstMedia | src/Controller/Admin/IndexController.php:418-422 | the query returns the media that no media of the item precedes |
| Toggle.FoundIsFirst | src/Controller/Admin/IndexController.php:418-429 | an accepted media is the row the first-media query returns |
| Toggle.AcceptedIffAcceptable | src/Controller/Admin/IndexController.php:391-429 | a toggle succeeds iff the request is acceptable, and a refused request changes nothing |
| Toggle.EarlyRejections | src/Controller/Admin/IndexController.php:391-411 | non-POST, bad token, id ≤ 0 and unknown media are refused in that order, with nothing changed |
| Toggle.LateRejections | src/Controller/Admin/IndexController.php:413-429 | a media without an item is refused as such; a media that is not its item's first is refused as stale |
| Toggle.ApplyMediaEffect | src/Controller/Admin/IndexController.php:431-432 | the write changes the flag of the target row and of no other media row |
| Toggle.ApplyItemEffect | src/Controller/Admin/IndexController.php:434-452 | the write changes the primary media of the owning item only |
| Toggle.MediaEffect | src/Controller/Admin/IndexController.php:431-432 | only the named media's flag flips; no other media row changes |
| Toggle.ItemEffect | src/Controller/Admin/IndexController.php:434-452 | only the owning item's primary media changes |
| Toggle.NewPrimaryMeaning | src/Controller/Admin/IndexController.php:434-452 | made public: primary is the media; made private: primary is the least other media of the item, or none iff there is no other |
| Toggle.ToggleEffects | src/Controller/Admin/IndexController.php:431-462 | the whole success case: flag negated, primary re-pointed as above, nothing else changed, response agrees with the new flag |
| Toggle.ValidAfterRewrite | src/Controller/Admin/IndexController.php:431-455 | rewrites that keep ids and items and point primaries at existing media keep integrity |
| Toggle.ApplyKeepsLayout | src/Controller/Admin/IndexController.php:431-452 | the writes keep every id, owning item and position, and the values |
| Toggle.NewPrimaryExists | src/Controller/Admin/IndexController.php:434-452 | the new primary media is the toggled media or a media of the table |
| Toggle.ApplyPreservesValid | src/Controller/Admin/IndexController.php:431-455 | the writes keep unique ids and existing foreign keys |
| Toggle.StepPreservesValid | src/Controller/Admin/IndexController.php:431-455 | every toggle keeps unique ids and existing foreign keys |
| Toggle.NewPrimaryOfSameLayout | src/Controller/Admin/IndexController.php:440-444 | the re-pointing does not depend on flags |
| Toggle.CheckOfSameLayout | src/Controller/Admin/IndexController.php:391-429 | the guards give the same answer on tables that differ only in flags and primaries |
| Toggle.SecondCheckFindsSameTarget | src/Controller/Admin/IndexController.php:418-429 | after a toggle the same request still passes every check on the same rows |
| Toggle.StepTwice | src/Controller/Admin/IndexController.php:386-463 | a second identical request is accepted on the same rows and writes them again |
| Toggle.ApplyTwice | src/Controller/Admin/IndexController.php:431-452 | writing twice restores the flags, and the primary is what the restored flag calls for |
| Toggle.ToggleTwiceRestoresFlags | src/Controller/Admin/IndexController.php:431-462 | toggling twice succeeds twice with opposite answers, restores every flag, and leaves the primary following the first media |
| Toggle.ApplyTwiceFollowsFirst | src/Controller/Admin/IndexController.php:434-452 | after two writes the primary follows the first media's flag |
| Toggle.FollowsAtOwnRow | src/Controller/Admin/IndexController.php:434-452 | with unique item ids, only the owning row decides whether the primary follows |
| Toggle.ToggleTwiceIsIdentity | src/Controller/Admin/IndexController.php:431-455 | when the primary already followed the first media, toggling twice restores every table |
| Toggle.TwoMediaOrder | src/Controller/Admin/IndexController.php:418-444 | in the two-media example, media 1 is first and media 2 second |
| Toggle.TwoMediaAccepted | src/Controller/Admin/IndexController.php:391-429 | in the example, toggling media 1 passes every guard |
| Toggle.TwoMediaValid | src/Controller/Admin/IndexController.php:408-416 | the example tables are consistent |
| Toggle.TwoMediaOnce | src/Controller/Admin/IndexController.php:431-452 | in the example, one toggle makes media 1 private and media 2 primary |
| Toggle.TwoMediaFollows | src/Controller/Admin/IndexController.php:408-416 | in the example, the primary media of the item is its first media |
| Toggle.TwoMediaToggledTwice | src/Controller/Admin/IndexController.php:386-463 | toggling media 1 makes it private and media 2 primary; toggling again restores both |
| Toggle.TwoMediaRefusals | src/Controller/Admin/IndexController.php:408-429 | media 2 is refused as not first; media 3 as not found |
| Toggle.Store.Toggle | src/Controller/Admin/IndexController.php:386-430 | the method's new tables and reply are those of `Step` on the old tables; integrity is kept; a refusal changes nothing; values are untouched |
| Toggle.Store.Commit | src/Controller/Admin/IndexController.php:431-455 | the writes and the flush: the new tables are `Apply` of the old ones on the target, and integrity is kept |

## Left out

- SQL, DBAL and Doctrine: the queries become functions over in-memory tables. The entity manager's unit of work and `flush()` are one atomic assignment at the end of `Store.Toggle`.
- The check-then-act race between the first-media query and the write (lines 418–455): the model is sequential.
- Unordered `LIMIT 5` (lines 341, 363, 376): SQL may return any five of the distinct matches. The model returns the first five in table order, which is one of the results the database may give.
- Resolver.SourceTierSpec: completeness below five results needs that no media row names item 0. Otherwise a media row without an item and one of item 0 both become id 0, `array_unique` merges them, and an owner cut off by `LIMIT 5` can be missing. Item ids are positive, so this does not arise under the schema (`SourceTierCompleteWhenValid`).
- LIKE semantics (lines 82–83, 375–377): matching is plain case-sensitive substring containment. Collation-based case-insensitivity and the unescaped `%` and `_` in user text are not modelled. Value equality at lines 340 and 362 is exact code-point equality.
- Unicode white space in the split pattern (line 295): only the ASCII separators and the comma are separators.
- `(int)` overflow for long digit strings (line 327): ids are unbounded integers.
- Params.Normalise: PHP integer limits are not modelled. `(int)` saturates a huge page number at PHP_INT_MAX (line 43), and `($page - 1) * $perPage` becomes a float once it exceeds PHP_INT_MAX (line 76). Integers here are unbounded, so OffsetNonNegative holds for every page.
- Identifiers.ParseIdentifiers: invalid UTF-8 makes `preg_split('/…/u')` return false, and `?: []` then yields no tokens at all (line 295). Text here is a sequence of already-decoded characters, so that path does not arise.
- Datetimes: `modified` and `created` are integers.
- String ordering in `ORDER BY` uses code-point order; the database collation is not modelled.
- The site-slug query's own `ORDER BY slug`: site rows arrive as an input sequence in whatever order the query returned.
- Read-API hydration (lines 189–209): the item and media representations, `thumbnailUrl('square')`, `sites()`, `slug()` and `siteUrl()`, and the `method_exists` probing (lines 225–237) are inputs. A slug absent from an item's URL map stands for a NULL result or a caught exception.
- `translate()`: messages and placeholders are the English strings.
- CSRF validation, request-method detection and `fromQuery` casting are inputs: a boolean, a boolean, and already-cast optional values.
- `ViewModel` and `JsonModel` rendering, and the `confirmForm` handed to the view.
- Toggle.Check: a media whose item id names no item row is refused as "Item not found for media.". Under the schema's foreign keys no such row exists.
- Toggle.Store.Toggle: `find` on the second media id is taken to succeed, as the id was just read from the table.
- Presentation.DecoratedRow: rows come from the listing and their media title is already the `COALESCE` string, so the `?? ''` on a NULL media title is not modelled separately.
- config/module.config.php and Module.php are not part of this model: they hold routes, navigation, the controller factory and the access-control list, and contain no logic.
