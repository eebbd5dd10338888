# Preference stores of the r34bot front end, in Dafny

This project models the state logic of the bot's Pinia stores as pure functions over immutable data:

- the profile registry (`loadProfile`, `createNewProfile`, `deleteProfile`, `renameProfile`, `toggleLock`, `init`), which both store generations share;
- the first-generation profile store (`src/stores/profile.ts`), whose ratings are unbounded and whose `dislike` bans a tag once its rating falls below -100;
- the second-generation profile store (`src/stores/profiles.ts`), whose ratings are clamped to [-100, 100] and whose profiles also keep favourites, liked URLs, viewed post ids and a search history;
- the search-history store (`src/stores/search.ts`);
- the post feed (`src/stores/posts.ts`): its ban list, the tag filter sent to the API, the acceptance test for fetched posts, and the page cursor of `getNextPost`.

Modules:

| file | module | models |
|---|---|---|
| `options.dfy` | `Options` | the optional value used for a missing profile or attribute |
| `lists.dfy` | `Lists` | `indexOf`/`splice(i, 1)`, `includes` followed by `push` or `unshift`, and duplicate-freedom |
| `text.dfy` | `Text` | ECMAScript `String.prototype.trim`, `split(' ')` and `join` |
| `ratings.dfy` | `Ratings` | the rating record, where a missing or zero rating reads as 0, and the [-100, 100] clamp |
| `registry.dfy` | `Registry` | the profile list and active id, generic in the per-profile preferences |
| `profile_store.dfy` | `ProfileStore` | `src/stores/profile.ts` |
| `profiles_store.dfy` | `ProfilesStore` | `src/stores/profiles.ts` |
| `search_store.dfy` | `SearchStore` | `src/stores/search.ts` |
| `posts_store.dfy` | `PostsStore` | `src/stores/posts.ts` |
| `generations.dfy` | `Generations` | where the two profile-store generations agree and where they differ |

The registry code is line-for-line the same in the two profile stores. `Registry` therefore takes the preference fields as a type parameter, and each store module instantiates it with its own `Prefs` and empty profile.

JavaScript behaviour is modelled explicitly:

- The tests `!profile.tagsRate[tag]` and `tagsRate[tag] !== undefined` become `Ratings.Rate`, which reads a missing rating as 0, and a key-membership test.
- `indexOf` followed by `splice(index, 1)` removes the first occurrence (`Lists.RemoveFirst`).
- `includes` followed by `push` or `unshift` becomes `Lists.AddAbsent` or `Lists.PrependAbsent`.
- `crypto.randomUUID()` is a `freshId` argument supplied by the caller.
- The HTTP request and XML parsing of `fetchPosts` are a `Fetcher` function argument. It maps the tag filter and page number to the `<post>` elements of the response.

## Model

| member | source | states |
|---|---|---|
| Lists.IndexOf | src/stores/profiles.ts:63-64 | -1 exactly when the element is absent; otherwise the index of its first occurrence |
| Lists.RemoveFirst | src/stores/profiles.ts:60-68 | an absent element leaves the list alone; a present one is spliced out at the index `indexOf` reports, so exactly one copy goes (multiset difference) |
| Lists.SpliceOut | src/stores/profiles.ts:143 | `splice(index, 1)` removes exactly the entry at the index: one entry shorter, the others in order, the multiset less that entry |
| Lists.SpliceCons | src/stores/profiles.ts:63-66 | splicing position `i - 1` out of the tail and putting the head back is splicing position `i` out of the list |
| Lists.RemoveFirstNoDups | src/stores/profiles.ts:60-68 | on a duplicate-free list the removed element is gone entirely and the list stays duplicate-free |
| Lists.SpliceOutNoDups | src/stores/profiles.ts:63-66 | splicing an entry out of a duplicate-free list leaves it duplicate-free and without that entry |
| Lists.AddAbsent | src/stores/profiles.ts:53-58 | the element is present afterwards; the old list is a prefix; a present element changes nothing; duplicate-freedom is kept |
| Lists.RemoveFirstUndoesAddAbsent | src/stores/profiles.ts:53-68 | adding an absent element and then removing it gives back the original list |
| Lists.RemoveFirstOfAppended | src/stores/profiles.ts:53-68 | removing the last-pushed copy of an element that did not occur before gives back the list before the push |
| Lists.PrependAbsent | src/stores/profiles.ts:93-95 | an absent element goes to the front of the otherwise unchanged list; a present one changes nothing |
| Lists.RemoveFirstOfPrepended | src/stores/profiles.ts:189-199 | removing the element just put in front gives back the original list |
| Lists.FilterMap | src/stores/posts.ts:50-61 | at most one value per element; a value is kept exactly when some element maps to it |
| Lists.FilterMapAppend | src/stores/posts.ts:50-61 | filtering two parts and joining the results is filtering the whole, so kept values stay in element order |
| Lists.FilterMapExtremes | src/stores/posts.ts:50-61 | nothing is dropped when every element yields a value; nothing is kept when none does |
| Lists.FilterMapPicks | src/stores/posts.ts:50-61 | the kept values sit at increasing positions of the input, one per position, and every position that yields a value is among them |
| Lists.ShiftPicks | src/stores/posts.ts:50-61 | positions kept from the rest of the list, moved one place on, are kept positions of the whole list past its head |
| Lists.PicksCons | src/stores/posts.ts:50-61 | a kept head in front of the shifted positions of the rest gives the kept positions of the whole list |
| Text.Trim | src/stores/search.ts:26-27 | the result has no ECMAScript whitespace at either end; it is empty exactly when the query is all whitespace |
| Text.TrimStart | src/stores/search.ts:26 | the result is the suffix of the input after a run of whitespace, and starts with a non-blank |
| Text.TrimEnd | src/stores/search.ts:26 | the result is the prefix of the input before a run of whitespace, and ends with a non-blank |
| Text.TrimIsInfix | src/stores/search.ts:26 | the trimmed string sits inside the original, with only whitespace cut off on both sides |
| Text.TrimIdempotent | src/stores/search.ts:26 | trimming twice is trimming once |
| Text.Split | src/stores/posts.ts:53 | `split(' ')` gives one more piece than there are spaces, and no piece contains a space |
| Text.SplitAtHead | src/stores/posts.ts:39 | a split ends its first piece at the first separator |
| Text.SplitAtTail | src/stores/posts.ts:39 | the pieces after the first are the split of the text after the first separator |
| Text.SplitPrefix | src/stores/posts.ts:39 | a separator-free piece followed by the separator and more text splits into that piece and the split of the rest |
| Text.SplitNoSep | src/stores/posts.ts:39 | text with no separator splits into itself alone |
| Text.Join | src/stores/posts.ts:25 | `join(sep)`; what it builds is stated by Text.JoinEnds, Text.JoinEmpty and Text.SplitJoin |
| Text.JoinEnds | src/stores/posts.ts:25 | nothing joins to the empty string; otherwise the first piece opens the result and the last piece closes it |
| Text.JoinEmpty | src/stores/posts.ts:25-38 | the space-joined ban list is empty exactly when the list is empty or a single empty tag |
| Text.SplitJoin | src/stores/posts.ts:39 | splitting a space-joined list of space-free tags gives back the list |
| Ratings.Clamp | src/stores/profiles.ts:80 | the result lies in [-100, 100] and equals the input when the input is in range, otherwise the nearer bound |
| Ratings.ResetRate | src/stores/profiles.ts:70-75 | an existing rating becomes 0, a missing one gains no entry, other ratings and the key set are unchanged, and the [-100, 100] range is kept |
| Ratings.SetRate | src/stores/profiles.ts:77-82 | the tag gains or keeps an entry holding the value clamped to [-100, 100]; other ratings are unchanged and the range is kept |
| Registry.FindIndex | src/stores/profiles.ts:49-51 | None exactly when no profile has the id; otherwise the first profile with it |
| Registry.ActiveIndex | src/stores/profiles.ts:49-51 | `activeProfile`: none exactly when no profile has the active id, otherwise the first profile holding it |
| Registry.UpdateActive | src/stores/profiles.ts:49-51 | without an active profile nothing changes; otherwise only the active profile's preferences change, and the registry invariant holds afterwards iff it held before |
| Registry.LoadProfile | src/stores/profiles.ts:114-119 | exactly the profiles with the target id are flagged active and the target becomes the active id; nothing else changes; with unique ids and a known target the registry invariant holds |
| Registry.LoadProfileIdempotent | src/stores/profiles.ts:114-119 | loading an already loaded profile changes nothing |
| Registry.CreateNewProfile | src/stores/profiles.ts:121-137 | a profile with the fresh id, the given name and empty preferences is appended, unlocked, and becomes the only active one; earlier profiles lose their active flag and nothing else; unique ids give the registry invariant |
| Registry.LoadAppended | src/stores/profiles.ts:135-136 | loading a just-appended profile with an unused id flags it alone, finds it at the end, and only deactivates the others |
| Registry.AppendFresh | src/stores/profiles.ts:135 | a profile pushed under an unused id is found at the end, and unique ids stay unique |
| Registry.DeleteProfile | src/stores/profiles.ts:139-153 | an unknown id changes nothing; otherwise the first profile with the id is spliced out; a non-active one leaves the active id alone; deleting the active one loads the first remaining profile (only flags change, and it alone is flagged), or leaves a single new active `Default` profile when none remains |
| Registry.SpliceOutIds | src/stores/profiles.ts:143 | with unique ids, removing an entry keeps ids unique and removes exactly that entry's id |
| Registry.Reactivate | src/stores/profiles.ts:145-152 | after the active profile is deleted, the first remaining profile is loaded (only flags change), or a store holding just an active `Default` profile is created when none remains; either way exactly the active profile is flagged |
| Registry.DeleteKeepsConsistent | src/stores/profiles.ts:139-153 | deleting any profile keeps the registry invariant: unique ids, and the active id names the one flagged profile |
| Registry.DeleteRemovesTarget | src/stores/profiles.ts:139-143 | with unique ids the deleted id no longer occurs |
| Registry.RenameProfile | src/stores/profiles.ts:155-160 | only the name of the first profile with the id changes; an unknown id changes nothing; the registry invariant holds afterwards iff it held before |
| Registry.RenameBack | src/stores/profiles.ts:155-160 | renaming a profile back to its old name restores the store |
| Registry.ToggleLock | src/stores/profiles.ts:162-167 | only the lock of the first profile with the id flips; an unknown id changes nothing; the registry invariant holds afterwards iff it held before |
| Registry.ToggleLockTwice | src/stores/profiles.ts:162-167 | toggling the lock twice restores the store |
| Registry.FindFlagged | src/stores/profiles.ts:257 | None exactly when no profile is flagged active; otherwise the first flagged profile |
| Registry.Init | src/stores/profiles.ts:251-266 | an empty list gets a single active `Default` profile; otherwise the first profile flagged active gives the active id and nothing else changes, or, with none flagged, the first profile is loaded; the active id always names a profile; unique ids with at most one flagged profile give the registry invariant |
| Registry.ConsistentSingleActive | src/stores/profiles.ts:49-51 | in a consistent registry the looked-up active profile is the one and only flagged profile |
| ProfileStore.AddToBanList | src/stores/profile.ts:43-48 | the tag is banned afterwards; the old ban list is a prefix of the new one; ratings and every other profile are untouched |
| ProfileStore.RemoveFromBanList | src/stores/profile.ts:50-58 | the ban list is spliced at the tag's first occurrence, so exactly one copy goes; an unbanned tag changes nothing; ratings and every other profile are untouched |
| ProfileStore.UnbanUndoesBan | src/stores/profile.ts:43-58 | banning a tag that was not banned and then unbanning it restores the store |
| ProfileStore.ResetTagRating | src/stores/profile.ts:60-65 | an existing rating becomes 0 and nothing else changes; a missing rating gains no entry |
| ProfileStore.LikeRates | src/stores/profile.ts:70-75 | every tag's rating rises by its number of occurrences in the list, with no bound; each listed tag has an entry |
| ProfileStore.Like | src/stores/profile.ts:67-77 | a locked or missing active profile changes nothing; otherwise the ratings rise as above and nothing else changes |
| ProfileStore.DislikePrefs | src/stores/profile.ts:79-91 | every rating falls by its number of occurrences; a tag is banned afterwards iff it was banned before or its final rating is below -100; the old ban list stays in front, followed by the newly banned tags, each once, in the order their ratings sank below -100 |
| ProfileStore.DislikedStep | src/stores/profile.ts:82-90 | one pass of the loop followed by the rest of the list has the whole list's effect on ratings and bans |
| ProfileStore.DislikeOne | src/stores/profile.ts:82-89 | one pass of the loop: the tag's rating, 0 when missing, drops by one and the tag gains a key; other ratings stay; when the new rating is below -100 the tag is pushed onto the ban list unless already there, otherwise the ban list is unchanged |
| ProfileStore.NewBanSank | src/stores/profile.ts:82-90 | every tag the loop appends to the ban list was disliked and ended below -100 |
| ProfileStore.NewBansStep | src/stores/profile.ts:82-90 | one pass of the loop followed by the rest keeps the new bans distinct, new, and in the order they sank below -100 |
| ProfileStore.FirstStepBans | src/stores/profile.ts:85-88 | a tag the first pass takes below -100 counts as banned after every later pass |
| ProfileStore.BannedShift | src/stores/profile.ts:82-90 | for any tag the first pass does not ban, being below -100 after `k` passes is being below -100 after `k - 1` passes of the rest |
| ProfileStore.BanOrderFresh | src/stores/profile.ts:85-88 | when the first pass bans its tag, that tag ahead of the rest's new bans is in the order the tags sank below -100 |
| ProfileStore.BanOrderKept | src/stores/profile.ts:82-90 | when the first pass bans nothing new, the rest's new bans are already in the order the whole list sinks them |
| ProfileStore.Dislike | src/stores/profile.ts:79-91 | a locked or missing active profile changes nothing; otherwise the ratings and bans change as above |
| ProfileStore.DislikeUndoesLike | src/stores/profile.ts:67-91 | a like followed by a dislike of the same tags restores every rating; only tags already below -100 get newly banned |
| ProfileStore.CreateNewProfile | src/stores/profile.ts:101-113 | the new profile, with an empty ban list and no ratings, is appended, unlocked, and becomes the only active one; earlier profiles lose their active flag and nothing else; unique ids give the registry invariant |
| ProfileStore.DeleteProfile | src/stores/profile.ts:115-129 | an unknown id changes nothing; otherwise the profile is spliced out and, if it was active, the first remaining profile is loaded or an empty `Default` profile is left alone; the registry invariant is kept; with unique ids the deleted id is gone |
| ProfileStore.Init | src/stores/profile.ts:145-160 | an empty list gets an empty `Default` profile; otherwise the first flagged profile becomes active with nothing else changed, or the first profile is loaded; the active id names a profile afterwards |
| ProfilesStore.AddToBanList | src/stores/profiles.ts:53-58 | the tag is banned afterwards; the old ban list is a prefix of the new one; nothing else changes |
| ProfilesStore.RemoveFromBanList | src/stores/profiles.ts:60-68 | the ban list is spliced at the tag's first occurrence, so exactly one copy goes; nothing else changes |
| ProfilesStore.UnbanUndoesBan | src/stores/profiles.ts:53-68 | banning a tag that was not banned and then unbanning it restores the store |
| ProfilesStore.ResetTagRating | src/stores/profiles.ts:70-75 | an existing rating becomes 0, a missing one gains no entry; the range is kept; nothing else changes |
| ProfilesStore.SetTagRating | src/stores/profiles.ts:77-82 | the tag's rating becomes the value clamped to [-100, 100]; the range is kept; nothing else changes |
| ProfilesStore.LikeRates | src/stores/profiles.ts:87-92 | every listed tag's rating rises by its number of occurrences but ends no higher than 100; unlisted tags are untouched |
| ProfilesStore.LikeStep | src/stores/profiles.ts:87-92 | one step of the loop followed by the rest of the list has the whole list's effect |
| ProfilesStore.Truthy | src/stores/profiles.ts:93 | the `fileUrl &&` test: the argument was given and is not the empty string |
| ProfilesStore.Like | src/stores/profiles.ts:84-97 | a locked or missing active profile changes nothing; otherwise the ratings rise as above, and a non-empty URL not yet liked goes to the front of the liked list |
| ProfilesStore.LikeKeepsInRange | src/stores/profiles.ts:91 | no liked tag ends above 100, and an in-range record stays in range |
| ProfilesStore.DislikePrefs | src/stores/profiles.ts:102-110 | every listed tag's rating falls by its number of occurrences but ends no lower than -100; the ban list never changes, because the floor is applied before the `< -100` test |
| ProfilesStore.DislikeStep | src/stores/profiles.ts:102-110 | one step of the loop followed by the rest of the list has the whole list's effect |
| ProfilesStore.Dislike | src/stores/profiles.ts:99-112 | a locked or missing active profile changes nothing; otherwise the ratings fall as above and no tag is banned |
| ProfilesStore.DislikeKeepsInRange | src/stores/profiles.ts:106 | no disliked tag ends below -100, and an in-range record stays in range |
| ProfilesStore.CreateNewProfile | src/stores/profiles.ts:121-137 | the new profile, with all lists and ratings empty, is appended, unlocked, and becomes the only active one; earlier profiles lose their active flag and nothing else; unique ids give the registry invariant |
| ProfilesStore.DeleteProfile | src/stores/profiles.ts:139-153 | an unknown id changes nothing; otherwise the profile is spliced out and, if it was active, the first remaining profile is loaded or an empty `Default` profile is left alone; the registry invariant is kept; with unique ids the deleted id is gone |
| ProfilesStore.Init | src/stores/profiles.ts:251-266 | an empty list gets an empty `Default` profile; otherwise the first flagged profile becomes active with nothing else changed, or the first profile is loaded; the active id names a profile afterwards |
| ProfilesStore.RemoveFromFavorites | src/stores/profiles.ts:169-177 | the favourites are spliced at the URL's first occurrence, so exactly one copy goes, all of them when there are no duplicates; nothing else changes |
| ProfilesStore.RemoveFromLiked | src/stores/profiles.ts:179-187 | the liked list is spliced at the URL's first occurrence, so exactly one copy goes; nothing else changes |
| ProfilesStore.ToggleFavorite | src/stores/profiles.ts:189-199 | an absent URL goes to the front of the favourites; a present one is spliced out at its first occurrence; nothing else changes |
| ProfilesStore.ToggleFavoriteTwice | src/stores/profiles.ts:189-199 | toggling a URL that is not a favourite twice restores the store |
| ProfilesStore.PushViewed | src/stores/profiles.ts:204-207 | the id becomes the newest entry; below 9 999 entries nothing is dropped, and from 9 999 entries on, whatever the loaded length, exactly the oldest entry is dropped |
| ProfilesStore.AddToViewed | src/stores/profiles.ts:201-209 | the active profile's viewed list gets the id as its newest entry, dropping exactly the oldest entry once the pushed list reaches 10 000, and stays below 10 000 when it was; nothing else changes |
| ProfilesStore.IsViewed | src/stores/profiles.ts:211-214 | true exactly when there is an active profile and its viewed list holds the id |
| ProfilesStore.AddedIsViewed | src/stores/profiles.ts:201-214 | a post just added reads as viewed whenever there is an active profile |
| ProfilesStore.AddToSearchHistory | src/stores/profiles.ts:218-235 | a blank query changes nothing; otherwise the trimmed query heads the history, followed by the old history without its first copy of the query, in order, cut to 1000 entries in all; duplicate-freedom is kept with the query present once |
| ProfilesStore.DeleteSearchHistoryItem | src/stores/profiles.ts:237-242 | an index inside the history removes exactly that entry, keeping the others in order; any other index changes nothing |
| ProfilesStore.ClearSearchHistory | src/stores/profiles.ts:244-249 | the active profile's history becomes empty and nothing else changes |
| SearchStore.Remember | src/stores/search.ts:25-39 | a blank query changes nothing; otherwise the trimmed query comes first, followed by the old history without its first copy of the query, in order, as many entries as fit: the length is the smaller of `cap` and one more than that list's length |
| SearchStore.CappedFront | src/stores/search.ts:34-38 | `unshift` then `slice(0, cap)`: the new entry first, then as much of the old list as fits, in order |
| SearchStore.RememberNoDups | src/stores/search.ts:29-34 | a duplicate-free history stays duplicate-free and holds the query exactly once |
| SearchStore.AddToHistory | src/stores/search.ts:25-41 | `Remember` with room for 1000 entries, with the same front, order and length; a duplicate-free history stays so, with the query once |
| SearchStore.DeleteHistoryItem | src/stores/search.ts:43-46 | an index inside the history removes exactly that entry, keeping the others in order; any other index changes nothing |
| SearchStore.DeleteUndoesAdd | src/stores/search.ts:25-46 | deleting the front entry right after adding a query, when the cap cut nothing, leaves the old history minus the query; for a new query that is the old history |
| SearchStore.ClearHistory | src/stores/search.ts:48-51 | the history becomes empty |
| PostsStore.AddToBanList | src/stores/posts.ts:95-99 | the tag is banned afterwards; the old ban list is a prefix; a banned tag changes nothing; the rest of the feed is untouched |
| PostsStore.RemoveFromBanList | src/stores/posts.ts:101-106 | the ban list is spliced at the tag's first occurrence, so exactly one copy goes, all of them when there are no duplicates; the rest of the feed is untouched |
| PostsStore.UnbanUndoesBan | src/stores/posts.ts:95-106 | banning a tag that was not banned and then unbanning it restores the feed |
| PostsStore.TagFilter | src/stores/posts.ts:25-40 | the filter always begins with `-video+-gif`, and is exactly that for an empty ban list or a lone empty tag; otherwise it is followed by one `+-w` term per space-separated word `w` of the space-joined ban list, in order |
| PostsStore.BanSuffix | src/stores/posts.ts:38-40 | an empty joined ban list appends nothing; otherwise every space becomes `+-`, so the suffix is one `+-w` term per space-separated word `w`, in order, and a single space-free tag gives exactly `+-tag` |
| PostsStore.JoinExclusions | src/stores/posts.ts:39 | `'+-'` followed by the tags joined with `'+-'` is one `+-tag` term per tag |
| PostsStore.TagFilterExcludesBans | src/stores/posts.ts:25-40 | for space-free banned tags, the filter is `-video+-gif` followed by `+-t` for each banned tag `t`, in order |
| PostsStore.JoinSplit | src/stores/posts.ts:53 | joining the pieces of `split(' ')` with a space gives back the tag string |
| PostsStore.ParsePost | src/stores/posts.ts:52-58 | a post is kept iff its id is non-empty and its tag string has at least nine spaces; a kept post carries the id, the URL and at least ten space-free tags whose space join is the tag string |
| PostsStore.Attribute | src/stores/posts.ts:52-54 | an attribute read falls back to the empty string when the attribute is missing |
| PostsStore.ParsePosts | src/stores/posts.ts:50-61 | the kept posts are the parses of the accepted elements, one per accepted element, in response order, at increasing positions with no accepted element left out; each has a non-empty id and at least ten tags |
| PostsStore.ParsePostsAppend | src/stores/posts.ts:50-61 | parsing a response in two parts and joining the results is parsing it whole, so posts keep response order |
| PostsStore.ParsePostsExtremes | src/stores/posts.ts:50-61 | a response whose posts are all acceptable loses none; one with none acceptable yields nothing |
| PostsStore.FetchPosts | src/stores/posts.ts:24-61 | the fetched posts are the parses of the accepted elements of the response to the current ban list's filter, one per accepted element, in response order; each has a non-empty id and at least ten tags |
| PostsStore.Take | src/stores/posts.ts:82-88 | the cursor advances by one; the post under the cursor is handed out iff it exists, is unviewed and has at least ten tags, and its id is then appended to the viewed list |
| PostsStore.NeedsRefill | src/stores/posts.ts:70 | a page is fetched when the cursor has reached 100 or no posts are loaded |
| PostsStore.Acceptable | src/stores/posts.ts:85 | the cursor is on a loaded post whose id was not viewed and which has at least ten tags |
| PostsStore.NextStep | src/stores/posts.ts:70-88 | a refill fetches the current page with the ban list's filter; the pass ends with `null` exactly when a refill brings an empty batch, and then the page does not advance; otherwise the first fetched post is handed out iff it was not viewed; without a refill the post under the cursor is handed out iff it is acceptable, and skipped otherwise; the cursor never passes 100; the viewed list stays duplicate-free |
| PostsStore.GetNextPost | src/stores/posts.ts:64-93 | a delivered post was not viewed before and its id is now the last viewed entry; otherwise the viewed list is unchanged; `null` comes only when the fetch for the page then current is empty; the first pass returns `null` on an empty refill and delivers an acceptable post under the cursor or a new first post of a refill; the ban list is untouched; the page number never decreases and grows by at most one per pass |
| Generations.LikeAgreesBelowCeiling | src/stores/profiles.ts:84-97 | while no tag would pass 100, the clamped `like` gives the same ratings as the unclamped one in `src/stores/profile.ts` |
| Generations.DislikeAgreesAboveFloor | src/stores/profiles.ts:99-112 | while no tag would fall past -100, the clamped `dislike` gives the same ratings and bans as the one in `src/stores/profile.ts` |
| Generations.DislikeRatesAgree | src/stores/profiles.ts:102-110 | away from the floor, the unclamped and the clamped rating records `dislike` produces are equal |
| Generations.NoNewBans | src/stores/profile.ts:82-90 | a first-generation dislike that takes no rating below -100 leaves the ban list as it was |
| Generations.LikeAtCeiling | src/stores/profiles.ts:91 | at a rating of 100, a like takes the first generation to 101 but leaves the second at 100 |
| Generations.DislikeAtFloor | src/stores/profiles.ts:106-109 | at a rating of -100, a dislike bans the tag in the first generation but never in the second |

## Left out

- Persistence: `localStorage`, `JSON.parse`/`stringify`, the deep `watch` that saves on every change, and `loadHistory`'s error fallback. The model starts from whatever state was loaded.
- Vue reactivity, the Pinia store wrappers, and the `loading` flag of `getNextPost`. `loading` is set and reset around the loop and has no effect on the result.
- The URL of `fetchPosts`: the base URL, the API key and the user id from the environment, and the `limit` parameter. Only the `tags` filter and the page number reach the `Fetcher`. The HTTP request, `DOMParser` and `querySelectorAll` are outside the model.
- A failed request: the `Fetcher` is total, so a rejected fetch is not modelled. In the source, `currentIndex` is set to 0 before the fetch is awaited, so a rejected fetch leaves the cursor rewound over the old posts while the error propagates.
- Asynchrony: every store operation runs to completion without interleaving.
- PostsStore.GetNextPost: the source loop has no bound; the model runs at most `fuel` passes and reports `Undecided` when the fuel runs out first. Its contract pins the outcome of a first pass that delivers a post or finds an empty page, and says that `null` comes only from an empty fetch; a first pass that skips a post is followed only through what every result satisfies, and a run of skipped posts longer than the fuel ends in `Undecided`.
- Registry.CreateNewProfile: `crypto.randomUUID()` is a caller-supplied id. Its freshness is a precondition of creation instead of a property of the generator. The other registry operations take an id that is used only when the registry is empty, so it needs no precondition.
- SearchStore.DeleteHistoryItem: `splice` with a negative index counts from the end of the array. The model takes a `nat` index and assumes callers never pass a negative one; what a negative index would do is not modelled.
- ProfilesStore.DeleteSearchHistoryItem: the same negative-index restriction as `SearchStore.DeleteHistoryItem`.
- Ratings: JavaScript numbers are doubles, so a stored non-integer, `NaN` or a rating beyond 2^53 is not modelled. Ratings are mathematical integers.
- Ratings: the rating record is a plain object, so keys such as `toString` or `constructor` read values inherited from `Object.prototype`. The model's map has no inherited keys. For those tags the source differs: `resetTagRating("toString")` on an empty record finds the key present and stores 0, where the model leaves the map unchanged, and `like(["constructor"])` in `src/stores/profile.ts` stores `NaN`, where the model stores 1.
- Text.Trim: strings are sequences of code points, not UTF-16 units. The whitespace set is the one ECMAScript's `trim` removes, and no character of it is a surrogate pair.
- PostsStore.TagFilter: a banned tag containing a space contributes one exclusion per word, and a lone empty banned tag contributes none. `TagFilter` states the exclusion-per-word reading for every ban list; `TagFilterExcludesBans` states the exclusion-per-tag reading only for ban lists without such tags, because for them it does not hold.
- `src/stores/line.ts` is not part of this model: it is a store of six fields (search tags, posts, displayed posts, page, index, scroll position) whose only operation, `reset`, sets all but the search tags back to constants, so it holds no logic worth proving.
- The router, `vite.config.ts` and `src/utils/downloadFile.ts` are not part of this model: they are UI glue with no store state.
