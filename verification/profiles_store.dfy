/**
 * The second-generation profile store. Besides a ban list and tag ratings each profile
 * keeps favourites, liked file URLs, viewed post ids and its own search history. Ratings
 * are kept inside [-100, 100] on every write. The registry operations are those of
 * module Registry; this module fixes what an empty profile holds.
 */
module ProfilesStore {
  import opened Options
  import opened Lists
  import opened Ratings
  import opened Text
  import Registry
  import SearchStore

  datatype Prefs = Prefs(
    banList: seq<string>,
    tagsRate: map<string, int>,
    favorites: seq<string>,
    liked: seq<string>,
    viewed: seq<string>,
    searchHistory: seq<string>)

  type Store = Registry.Store<Prefs>

  /** A new profile starts with every list and the rating record empty. */
  const Blank := Prefs([], map[], [], [], [], [])

  const MaxViewedPosts := 10_000
  const MaxSearchHistory := 1000

  /** The `< -100` test `dislike` performs before banning a tag. */
  const BanThreshold := -100

  /** `addToBanList`: the tag joins the active profile's ban list unless already there. */
  function AddToBanList(s: Store, tag: string): (r: Store)
    ensures Registry.ActiveIndex(s).None? ==> r == s
    ensures Registry.ActiveIndex(s).Some? ==>
      Registry.SameExceptActivePrefs(s, r) &&
      (var p := Registry.ActivePrefs(s); var q := Registry.ActivePrefs(r);
       && tag in q.banList && p.banList <= q.banList && |q.banList| <= |p.banList| + 1
       && (tag in p.banList ==> q.banList == p.banList)
       && (NoDups(p.banList) ==> NoDups(q.banList))
       && q.(banList := p.banList) == p)
  {
    Registry.UpdateActive(s, (p: Prefs) => p.(banList := AddAbsent(p.banList, tag)))
  }

  /** `removeFromBanList`: the ban list of the active profile is spliced at the tag's first occurrence. */
  function RemoveFromBanList(s: Store, tag: string): (r: Store)
    ensures Registry.ActiveIndex(s).None? ==> r == s
    ensures Registry.ActiveIndex(s).Some? ==>
      Registry.SameExceptActivePrefs(s, r) &&
      (var p := Registry.ActivePrefs(s); var q := Registry.ActivePrefs(r);
       && (tag !in p.banList ==> q.banList == p.banList)
       && (tag in p.banList ==> q.banList == SpliceOut(p.banList, IndexOf(p.banList, tag)))
       && multiset(q.banList) == multiset(p.banList) - multiset{tag}
       && q.(banList := p.banList) == p)
  {
    Registry.UpdateActive(s, (p: Prefs) => p.(banList := RemoveFirst(p.banList, tag)))
  }

  /** Banning a tag the active profile had not banned and then unbanning it restores the store. */
  lemma UnbanUndoesBan(s: Store, tag: string)
    requires Registry.ActiveIndex(s).Some? ==> tag !in Registry.ActivePrefs(s).banList
    ensures RemoveFromBanList(AddToBanList(s, tag), tag) == s
  {
    if Registry.ActiveIndex(s).Some? {
      var r := AddToBanList(s, tag);
      var r2 := RemoveFromBanList(r, tag);
      RemoveFirstUndoesAddAbsent(Registry.ActivePrefs(s).banList, tag);
      Registry.PrefsRestored(s, r, r2);
    }
  }

  /** `resetTagRating`: an existing rating becomes 0; a tag without one gains no entry. */
  function ResetTagRating(s: Store, tag: string): (r: Store)
    ensures Registry.ActiveIndex(s).None? ==> r == s
    ensures Registry.ActiveIndex(s).Some? ==>
      Registry.SameExceptActivePrefs(s, r) &&
      (var p := Registry.ActivePrefs(s); var q := Registry.ActivePrefs(r);
       && q.tagsRate.Keys == p.tagsRate.Keys
       && (tag in p.tagsRate ==> q.tagsRate[tag] == 0)
       && (forall t :: t in p.tagsRate && t != tag ==> q.tagsRate[t] == p.tagsRate[t])
       && (InRange(p.tagsRate) ==> InRange(q.tagsRate))
       && q.(tagsRate := p.tagsRate) == p)
  {
    Registry.UpdateActive(s, (p: Prefs) => p.(tagsRate := ResetRate(p.tagsRate, tag)))
  }

  /**
   * `setTagRating`: the active profile rates `tag` with `rating` pulled into [-100, 100];
   * no other rating and no other field changes.
   */
  function SetTagRating(s: Store, tag: string, rating: int): (r: Store)
    ensures Registry.ActiveIndex(s).None? ==> r == s
    ensures Registry.ActiveIndex(s).Some? ==>
      Registry.SameExceptActivePrefs(s, r) &&
      (var p := Registry.ActivePrefs(s); var q := Registry.ActivePrefs(r);
       && q.tagsRate.Keys == p.tagsRate.Keys + {tag}
       && MinRating <= q.tagsRate[tag] <= MaxRating
       && (MinRating <= rating <= MaxRating ==> q.tagsRate[tag] == rating)
       && (rating > MaxRating ==> q.tagsRate[tag] == MaxRating)
       && (rating < MinRating ==> q.tagsRate[tag] == MinRating)
       && (forall t :: t in p.tagsRate && t != tag ==> q.tagsRate[t] == p.tagsRate[t])
       && (InRange(p.tagsRate) ==> InRange(q.tagsRate))
       && q.(tagsRate := p.tagsRate) == p)
  {
    Registry.UpdateActive(s, (p: Prefs) => p.(tagsRate := SetRate(p.tagsRate, tag, rating)))
  }

  /**
   * Each tag listed in `tags` rose by 1 per occurrence but not above 100; every listed tag
   * has an entry; unlisted tags are untouched.
   */
  ghost predicate RaisedClamped(m: map<string, int>, tags: seq<string>, r: map<string, int>) {
    && r.Keys == m.Keys + (set t | t in tags)
    && forall t :: Rate(r, t) == (if t in tags then Min(Rate(m, t) + multiset(tags)[t], MaxRating) else Rate(m, t))
  }

  /** The rating updates of `like`, tag by tag: `Math.min(rating + 1, 100)`. */
  function LikeRates(m: map<string, int>, tags: seq<string>): (r: map<string, int>)
    ensures RaisedClamped(m, tags, r)
    decreases |tags|
  {
    if |tags| == 0 then m
    else
      var t := tags[0];
      var m1 := m[t := Min(Rate(m, t) + 1, MaxRating)];
      var r := LikeRates(m1, tags[1..]);
      LikeStep(m, t, tags[1..], r);
      assert [t] + tags[1..] == tags;
      r
  }

  /** One `like` step followed by the rest of the list is the whole list's effect. */
  lemma LikeStep(m: map<string, int>, t: string, tail: seq<string>, r: map<string, int>)
    requires RaisedClamped(m[t := Min(Rate(m, t) + 1, MaxRating)], tail, r)
    ensures RaisedClamped(m, [t] + tail, r)
  {
    var tags := [t] + tail;
    ElementsCons(t, tail);
    forall u
      ensures Rate(r, u) == (if u in tags then Min(Rate(m, u) + multiset(tags)[u], MaxRating) else Rate(m, u))
    {
      LikeStepAt(m, t, tail, r, u);
    }
  }

  /** `LikeStep` for a single tag `u`. */
  lemma LikeStepAt(m: map<string, int>, t: string, tail: seq<string>, r: map<string, int>, u: string)
    requires var m1 := m[t := Min(Rate(m, t) + 1, MaxRating)];
      Rate(r, u) == (if u in tail then Min(Rate(m1, u) + multiset(tail)[u], MaxRating) else Rate(m1, u))
    ensures Rate(r, u) == (if u in [t] + tail then Min(Rate(m, u) + multiset([t] + tail)[u], MaxRating) else Rate(m, u))
  {
    var m1 := m[t := Min(Rate(m, t) + 1, MaxRating)];
    assert multiset([t] + tail)[u] == multiset([t])[u] + multiset(tail)[u];
    assert u in [t] + tail <==> u == t || u in tail;
    if u == t {
      assert multiset([t])[u] == 1;
      assert Rate(m1, u) == Min(Rate(m, u) + 1, MaxRating);
    } else {
      assert multiset([t])[u] == 0;
      assert Rate(m1, u) == Rate(m, u);
    }
  }

  /** A truthy `fileUrl` argument: given and not the empty string. */
  predicate Truthy(url: Option<string>) {
    url.Some? && url.value != ""
  }

  /**
   * `like`: nothing happens without an active profile or when it is locked. Otherwise each
   * listed tag's rating rises by 1 per occurrence, capped at 100, and a truthy `fileUrl`
   * not yet liked goes to the front of the liked list.
   */
  function Like(s: Store, tags: seq<string>, fileUrl: Option<string>): (r: Store)
    ensures !Registry.Editable(s) ==> r == s
    ensures Registry.Editable(s) ==>
      Registry.SameExceptActivePrefs(s, r) &&
      (var p := Registry.ActivePrefs(s); var q := Registry.ActivePrefs(r);
       && RaisedClamped(p.tagsRate, tags, q.tagsRate)
       && (Truthy(fileUrl) && fileUrl.value !in p.liked ==> q.liked == [fileUrl.value] + p.liked)
       && (!Truthy(fileUrl) || fileUrl.value in p.liked ==> q.liked == p.liked)
       && q.(tagsRate := p.tagsRate, liked := p.liked) == p)
  {
    if Registry.Editable(s) then
      Registry.UpdateActive(s, (p: Prefs) =>
        p.(tagsRate := LikeRates(p.tagsRate, tags),
           liked := if Truthy(fileUrl) then PrependAbsent(p.liked, fileUrl.value) else p.liked))
    else s
  }

  /** `like` never pushes a rating above 100 and keeps an in-range record in range. */
  lemma LikeKeepsInRange(m: map<string, int>, tags: seq<string>)
    ensures forall t :: t in tags ==> LikeRates(m, tags)[t] <= MaxRating
    ensures InRange(m) ==> InRange(LikeRates(m, tags))
  {
    var r := LikeRates(m, tags);
    forall t | t in tags
      ensures r[t] <= MaxRating
    {
      assert Rate(r, t) == r[t];
    }
    if InRange(m) {
      forall t | t in r
        ensures MinRating <= r[t] <= MaxRating
      {
        assert Rate(r, t) == r[t];
        if t in tags {
          assert multiset(tags)[t] >= 1;
        }
      }
    }
  }

  /**
   * Each tag listed in `tags` fell by 1 per occurrence but not below -100; every listed tag
   * has an entry; unlisted tags are untouched.
   */
  ghost predicate LoweredClamped(m: map<string, int>, tags: seq<string>, r: map<string, int>) {
    && r.Keys == m.Keys + (set t | t in tags)
    && forall t :: Rate(r, t) == (if t in tags then Max(Rate(m, t) - multiset(tags)[t], MinRating) else Rate(m, t))
  }

  /**
   * The updates of `dislike`, tag by tag: the rating becomes `Math.max(rating - 1, -100)`,
   * then a rating below -100 would ban the tag. Since the floor comes first, that test
   * never passes: the ban list, like every field but the ratings, is left as it was.
   */
  function DislikePrefs(p: Prefs, tags: seq<string>): (q: Prefs)
    ensures LoweredClamped(p.tagsRate, tags, q.tagsRate)
    ensures q.banList == p.banList
    ensures q.(tagsRate := p.tagsRate) == p
    decreases |tags|
  {
    if |tags| == 0 then p
    else
      var t := tags[0];
      var v := Max(Rate(p.tagsRate, t) - 1, MinRating);
      var p1 := p.(tagsRate := p.tagsRate[t := v]);
      var p2 := if v < BanThreshold then p1.(banList := AddAbsent(p1.banList, t)) else p1;
      var q := DislikePrefs(p2, tags[1..]);
      DislikeStep(p.tagsRate, t, tags[1..], q.tagsRate);
      assert [t] + tags[1..] == tags;
      q
  }

  /** One `dislike` step followed by the rest of the list is the whole list's effect on ratings. */
  lemma DislikeStep(m: map<string, int>, t: string, tail: seq<string>, r: map<string, int>)
    requires LoweredClamped(m[t := Max(Rate(m, t) - 1, MinRating)], tail, r)
    ensures LoweredClamped(m, [t] + tail, r)
  {
    var tags := [t] + tail;
    ElementsCons(t, tail);
    forall u
      ensures Rate(r, u) == (if u in tags then Max(Rate(m, u) - multiset(tags)[u], MinRating) else Rate(m, u))
    {
      DislikeStepAt(m, t, tail, r, u);
    }
  }

  /** `DislikeStep` for a single tag `u`. */
  lemma DislikeStepAt(m: map<string, int>, t: string, tail: seq<string>, r: map<string, int>, u: string)
    requires var m1 := m[t := Max(Rate(m, t) - 1, MinRating)];
      Rate(r, u) == (if u in tail then Max(Rate(m1, u) - multiset(tail)[u], MinRating) else Rate(m1, u))
    ensures Rate(r, u) == (if u in [t] + tail then Max(Rate(m, u) - multiset([t] + tail)[u], MinRating) else Rate(m, u))
  {
    var m1 := m[t := Max(Rate(m, t) - 1, MinRating)];
    assert multiset([t] + tail)[u] == multiset([t])[u] + multiset(tail)[u];
    assert u in [t] + tail <==> u == t || u in tail;
    if u == t {
      assert multiset([t])[u] == 1;
      assert Rate(m1, u) == Max(Rate(m, u) - 1, MinRating);
    } else {
      assert multiset([t])[u] == 0;
      assert Rate(m1, u) == Rate(m, u);
    }
  }

  /**
   * `dislike`: nothing happens without an active profile or when it is locked. Otherwise
   * each listed tag's rating falls by 1 per occurrence, floored at -100, and no tag is banned.
   */
  function Dislike(s: Store, tags: seq<string>): (r: Store)
    ensures !Registry.Editable(s) ==> r == s
    ensures Registry.Editable(s) ==>
      Registry.SameExceptActivePrefs(s, r) &&
      (var p := Registry.ActivePrefs(s); var q := Registry.ActivePrefs(r);
       && LoweredClamped(p.tagsRate, tags, q.tagsRate)
       && q.banList == p.banList
       && q.(tagsRate := p.tagsRate) == p)
  {
    if Registry.Editable(s) then
      Registry.UpdateActive(s, (p: Prefs) => DislikePrefs(p, tags))
    else s
  }

  /** `dislike` never pushes a rating below -100 and keeps an in-range record in range. */
  lemma DislikeKeepsInRange(p: Prefs, tags: seq<string>)
    ensures forall t :: t in tags ==> DislikePrefs(p, tags).tagsRate[t] >= MinRating
    ensures InRange(p.tagsRate) ==> InRange(DislikePrefs(p, tags).tagsRate)
  {
    var r := DislikePrefs(p, tags).tagsRate;
    forall t | t in tags
      ensures r[t] >= MinRating
    {
      assert Rate(r, t) == r[t];
    }
    if InRange(p.tagsRate) {
      forall t | t in r
        ensures MinRating <= r[t] <= MaxRating
      {
        assert Rate(r, t) == r[t];
        if t in tags {
          assert multiset(tags)[t] >= 1;
        }
      }
    }
  }

  /**
   * `createNewProfile`: appends an empty, unlocked profile and makes it the only active
   * one; the earlier profiles lose their active flag and nothing else.
   */
  function CreateNewProfile(s: Store, newName: string, freshId: string): (r: Store)
    requires !Registry.HasId(s.profiles, freshId)
    ensures Registry.Created(s, newName, freshId, Prefs([], map[], [], [], [], []), r)
    ensures Registry.DistinctIds(s.profiles) ==> Registry.Consistent(r)
  {
    Registry.CreateNewProfile(s, newName, freshId, Blank)
  }

  /**
   * `deleteProfile`: an unknown id is a no-op; otherwise the profile is spliced out and,
   * if it was active, the first remaining profile is loaded, or an empty `Default` one is
   * created when none remains. The registry invariant survives, and with unique ids the
   * deleted id is gone.
   */
  function DeleteProfile(s: Store, target: string, freshId: string): (r: Store)
    ensures Registry.Deleted(s, target, freshId, Prefs([], map[], [], [], [], []), r)
    ensures Registry.Consistent(s) ==> Registry.Consistent(r)
    ensures Registry.DistinctIds(s.profiles) && freshId != target ==> !Registry.HasId(r.profiles, target)
  {
    var r := Registry.DeleteProfile(s, target, freshId, Blank);
    assert Registry.Consistent(s) ==> Registry.Consistent(r) by {
      if Registry.Consistent(s) {
        Registry.DeleteKeepsConsistent(s, target, freshId, Blank);
      }
    }
    assert Registry.DistinctIds(s.profiles) && freshId != target ==> !Registry.HasId(r.profiles, target) by {
      if Registry.DistinctIds(s.profiles) && freshId != target {
        Registry.DeleteRemovesTarget(s, target, freshId, Blank);
      }
    }
    r
  }

  /**
   * `init`: an empty registry gets an empty `Default` profile; otherwise the first profile
   * flagged active becomes the active one, or the first profile is loaded when none is.
   */
  function Init(s: Store, freshId: string): (r: Store)
    ensures Registry.Initialised(s, freshId, Prefs([], map[], [], [], [], []), r)
    ensures Registry.HasId(r.profiles, r.activeId)
    ensures Registry.DistinctIds(s.profiles) && Registry.AtMostOneFlagged(s.profiles) ==> Registry.Consistent(r)
  {
    Registry.Init(s, freshId, Blank)
  }

  /** `removeFromFavorites`: the first occurrence of the URL leaves the active profile's favourites. */
  function RemoveFromFavorites(s: Store, fileUrl: string): (r: Store)
    ensures Registry.ActiveIndex(s).None? ==> r == s
    ensures Registry.ActiveIndex(s).Some? ==>
      Registry.SameExceptActivePrefs(s, r) &&
      (var p := Registry.ActivePrefs(s); var q := Registry.ActivePrefs(r);
       && (fileUrl !in p.favorites ==> q.favorites == p.favorites)
       && (fileUrl in p.favorites ==> q.favorites == SpliceOut(p.favorites, IndexOf(p.favorites, fileUrl)))
       && multiset(q.favorites) == multiset(p.favorites) - multiset{fileUrl}
       && (NoDups(p.favorites) ==> fileUrl !in q.favorites)
       && q.(favorites := p.favorites) == p)
  {
    var r := Registry.UpdateActive(s, (p: Prefs) => p.(favorites := RemoveFirst(p.favorites, fileUrl)));
    assert Registry.ActiveIndex(s).Some? && NoDups(Registry.ActivePrefs(s).favorites) ==>
      fileUrl !in Registry.ActivePrefs(r).favorites by {
      if Registry.ActiveIndex(s).Some? && NoDups(Registry.ActivePrefs(s).favorites) {
        RemoveFirstNoDups(Registry.ActivePrefs(s).favorites, fileUrl);
      }
    }
    r
  }

  /** `removeFromLiked`: the first occurrence of the URL leaves the active profile's liked list. */
  function RemoveFromLiked(s: Store, fileUrl: string): (r: Store)
    ensures Registry.ActiveIndex(s).None? ==> r == s
    ensures Registry.ActiveIndex(s).Some? ==>
      Registry.SameExceptActivePrefs(s, r) &&
      (var p := Registry.ActivePrefs(s); var q := Registry.ActivePrefs(r);
       && (fileUrl !in p.liked ==> q.liked == p.liked)
       && (fileUrl in p.liked ==> q.liked == SpliceOut(p.liked, IndexOf(p.liked, fileUrl)))
       && multiset(q.liked) == multiset(p.liked) - multiset{fileUrl}
       && q.(liked := p.liked) == p)
  {
    Registry.UpdateActive(s, (p: Prefs) => p.(liked := RemoveFirst(p.liked, fileUrl)))
  }

  /**
   * `toggleFavorite`: an absent URL goes to the front of the active profile's favourites,
   * a present one loses its first occurrence.
   */
  function ToggleFavorite(s: Store, fileUrl: string): (r: Store)
    ensures Registry.ActiveIndex(s).None? ==> r == s
    ensures Registry.ActiveIndex(s).Some? ==>
      Registry.SameExceptActivePrefs(s, r) &&
      (var p := Registry.ActivePrefs(s); var q := Registry.ActivePrefs(r);
       && (fileUrl !in p.favorites ==> q.favorites == [fileUrl] + p.favorites)
       && (fileUrl in p.favorites ==>
             q.favorites == SpliceOut(p.favorites, IndexOf(p.favorites, fileUrl))
             && multiset(q.favorites) == multiset(p.favorites) - multiset{fileUrl})
       && q.(favorites := p.favorites) == p)
  {
    Registry.UpdateActive(s, (p: Prefs) =>
      p.(favorites := if fileUrl in p.favorites then RemoveFirst(p.favorites, fileUrl) else [fileUrl] + p.favorites))
  }

  /** Toggling a URL that is not a favourite twice restores the store. */
  lemma ToggleFavoriteTwice(s: Store, fileUrl: string)
    requires Registry.ActiveIndex(s).Some? ==> fileUrl !in Registry.ActivePrefs(s).favorites
    ensures ToggleFavorite(ToggleFavorite(s, fileUrl), fileUrl) == s
  {
    if Registry.ActiveIndex(s).Some? {
      var r := ToggleFavorite(s, fileUrl);
      var r2 := ToggleFavorite(r, fileUrl);
      var p := Registry.ActivePrefs(s);
      RemoveFirstOfPrepended(p.favorites, fileUrl);
      assert Registry.ActivePrefs(r2).favorites == p.favorites;
      Registry.PrefsRestored(s, r, r2);
    }
  }

  /**
   * `push` then `shift` once the list reaches `MAX_VIEWED_POSTS`: the id becomes the newest
   * entry, at most the oldest entry is dropped, and nothing is dropped while there is room.
   */
  function PushViewed(viewed: seq<string>, postId: string): (r: seq<string>)
    ensures 0 < |r| && |viewed| <= |r| <= |viewed| + 1 && r[|r| - 1] == postId
    ensures r == (viewed + [postId])[|viewed| + 1 - |r|..]
    ensures |viewed| + 1 < MaxViewedPosts ==> r == viewed + [postId]
    ensures |viewed| + 1 >= MaxViewedPosts ==> r == viewed[1..] + [postId]
    ensures |viewed| < MaxViewedPosts ==> |r| < MaxViewedPosts
  {
    var pushed := viewed + [postId];
    if |pushed| >= MaxViewedPosts then pushed[1..] else pushed
  }

  /** `addToViewed`: the active profile's viewed list records the id and stays below 10 000 entries. */
  function AddToViewed(s: Store, postId: string): (r: Store)
    ensures Registry.ActiveIndex(s).None? ==> r == s
    ensures Registry.ActiveIndex(s).Some? ==>
      Registry.SameExceptActivePrefs(s, r) &&
      (var p := Registry.ActivePrefs(s); var q := Registry.ActivePrefs(r);
       && |q.viewed| > 0 && q.viewed[|q.viewed| - 1] == postId
       && |p.viewed| <= |q.viewed| <= |p.viewed| + 1 && q.viewed == (p.viewed + [postId])[|p.viewed| + 1 - |q.viewed|..]
       && (|p.viewed| + 1 < MaxViewedPosts ==> q.viewed == p.viewed + [postId])
       && (|p.viewed| + 1 >= MaxViewedPosts ==> q.viewed == p.viewed[1..] + [postId])
       && (|p.viewed| < MaxViewedPosts ==> |q.viewed| < MaxViewedPosts)
       && q.(viewed := p.viewed) == p)
  {
    var r := Registry.UpdateActive(s, (p: Prefs) => p.(viewed := PushViewed(p.viewed, postId)));
    assert Registry.ActiveIndex(s).Some? ==>
      Registry.ActivePrefs(r).viewed == PushViewed(Registry.ActivePrefs(s).viewed, postId);
    r
  }

  /** `isViewed`: the active profile exists and has the id in its viewed list. */
  function IsViewed(s: Store, postId: string): (b: bool)
    ensures b <==> Registry.ActiveIndex(s).Some? && postId in Registry.ActivePrefs(s).viewed
  {
    match Registry.ActiveIndex(s)
    case None => false
    case Some(_) => postId in Registry.ActivePrefs(s).viewed
  }

  /** A post just added to the viewed list reads as viewed, whenever there is an active profile. */
  lemma AddedIsViewed(s: Store, postId: string)
    ensures IsViewed(AddToViewed(s, postId), postId) <==> Registry.ActiveIndex(s).Some?
  {
    var r := AddToViewed(s, postId);
    if Registry.ActiveIndex(s).Some? {
      var v := Registry.ActivePrefs(r).viewed;
      assert v[|v| - 1] == postId;
    }
  }

  /** `addToSearchHistory`: the active profile's history remembers the trimmed query, capped at 1000. */
  function AddToSearchHistory(s: Store, query: string): (r: Store)
    ensures Registry.ActiveIndex(s).None? ==> r == s
    ensures Registry.ActiveIndex(s).Some? ==>
      Registry.SameExceptActivePrefs(s, r) &&
      (var p := Registry.ActivePrefs(s); var q := Registry.ActivePrefs(r);
       var h, h' := p.searchHistory, q.searchHistory;
       && (Trim(query) == "" ==> q == p)
       && (Trim(query) != "" ==>
             && SearchStore.Remembers(h, Trim(query), MaxSearchHistory, h')
             && (NoDups(h) ==> NoDups(h') && multiset(h')[Trim(query)] == 1))
       && q.(searchHistory := h) == p)
  {
    var r := Registry.UpdateActive(s, (p: Prefs) =>
      p.(searchHistory := SearchStore.Remember(p.searchHistory, query, MaxSearchHistory)));
    assert Registry.ActiveIndex(s).Some? && Trim(query) != "" && NoDups(Registry.ActivePrefs(s).searchHistory) ==>
      NoDups(Registry.ActivePrefs(r).searchHistory) && multiset(Registry.ActivePrefs(r).searchHistory)[Trim(query)] == 1 by {
      if Registry.ActiveIndex(s).Some? && Trim(query) != "" && NoDups(Registry.ActivePrefs(s).searchHistory) {
        SearchStore.RememberNoDups(Registry.ActivePrefs(s).searchHistory, query, MaxSearchHistory);
      }
    }
    r
  }

  /** `deleteSearchHistoryItem`: for an index inside the history, exactly that entry goes. */
  function DeleteSearchHistoryItem(s: Store, index: nat): (r: Store)
    ensures Registry.ActiveIndex(s).None? ==> r == s
    ensures Registry.ActiveIndex(s).Some? ==>
      Registry.SameExceptActivePrefs(s, r) &&
      (var p := Registry.ActivePrefs(s); var q := Registry.ActivePrefs(r);
       var h, h' := p.searchHistory, q.searchHistory;
       && (index >= |h| ==> q == p)
       && (index < |h| ==>
             && |h'| == |h| - 1
             && (forall k :: 0 <= k < index ==> h'[k] == h[k])
             && (forall k :: index <= k < |h'| ==> h'[k] == h[k + 1]))
       && q.(searchHistory := h) == p)
  {
    Registry.UpdateActive(s, (p: Prefs) =>
      p.(searchHistory := SearchStore.DeleteHistoryItem(p.searchHistory, index)))
  }

  /** `clearSearchHistory`: the active profile's history becomes empty; nothing else changes. */
  function ClearSearchHistory(s: Store): (r: Store)
    ensures Registry.ActiveIndex(s).None? ==> r == s
    ensures Registry.ActiveIndex(s).Some? ==>
      Registry.SameExceptActivePrefs(s, r) &&
      (var p := Registry.ActivePrefs(s); var q := Registry.ActivePrefs(r);
       q.searchHistory == [] && q.(searchHistory := p.searchHistory) == p)
  {
    Registry.UpdateActive(s, (p: Prefs) => p.(searchHistory := SearchStore.ClearHistory(p.searchHistory)))
  }
}
