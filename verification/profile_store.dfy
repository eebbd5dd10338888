/**
 * The first-generation profile store: each profile holds a ban list and a tag-rating
 * record. Ratings are unbounded, and `dislike` bans a tag once its rating falls below -100.
 * The registry operations (`loadProfile`, `renameProfile`, `toggleLock`, ...) are those
 * of module Registry; this module fixes what an empty profile holds.
 */
module ProfileStore {
  import opened Lists
  import opened Ratings
  import Registry

  datatype Prefs = Prefs(banList: seq<string>, tagsRate: map<string, int>)

  type Store = Registry.Store<Prefs>

  /** A new profile starts with no banned tags and no ratings. */
  const Blank := Prefs([], map[])

  /** A rating strictly below this bans the tag on `dislike`. */
  const BanThreshold := -100

  /** `addToBanList`: the tag joins the active profile's ban list unless already there. */
  function AddToBanList(s: Store, tag: string): (r: Store)
    ensures Registry.ActiveIndex(s).None? ==> r == s
    ensures Registry.ActiveIndex(s).Some? ==>
      Registry.SameExceptActivePrefs(s, r) &&
      (var p := Registry.ActivePrefs(s); var q := Registry.ActivePrefs(r);
       && tag in q.banList && p.banList <= q.banList && |q.banList| <= |p.banList| + 1
       && (tag in p.banList ==> q.banList == p.banList)
       && (NoDups(p.banList) ==> NoDups(q.banList))
       && q.tagsRate == p.tagsRate)
  {
    Registry.UpdateActive(s, (p: Prefs) => p.(banList := AddAbsent(p.banList, tag)))
  }

  /** `removeFromBanList`: the active profile's ban list is spliced at the tag's first occurrence. */
  function RemoveFromBanList(s: Store, tag: string): (r: Store)
    ensures Registry.ActiveIndex(s).None? ==> r == s
    ensures Registry.ActiveIndex(s).Some? ==>
      Registry.SameExceptActivePrefs(s, r) &&
      (var p := Registry.ActivePrefs(s); var q := Registry.ActivePrefs(r);
       && (tag !in p.banList ==> q.banList == p.banList)
       && (tag in p.banList ==> q.banList == SpliceOut(p.banList, IndexOf(p.banList, tag)))
       && multiset(q.banList) == multiset(p.banList) - multiset{tag}
       && q.tagsRate == p.tagsRate)
  {
    Registry.UpdateActive(s, (p: Prefs) => p.(banList := RemoveFirst(p.banList, tag)))
  }

  /** Banning a tag the active profile had not banned and then unbanning it restores the store. */
  lemma UnbanUndoesBan(s: Store, tag: string)
    requires Registry.ActiveIndex(s).Some? ==> tag !in Registry.ActivePrefs(s).banList
    ensures RemoveFromBanList(AddToBanList(s, tag), tag) == s
  {
    if Registry.ActiveIndex(s).Some? {
      var r := AddToBanList(s, tag);
      var r2 := RemoveFromBanList(r, tag);
      RemoveFirstUndoesAddAbsent(Registry.ActivePrefs(s).banList, tag);
      Registry.PrefsRestored(s, r, r2);
    }
  }

  /** `resetTagRating`: an existing rating becomes 0; a tag without one gains no entry. */
  function ResetTagRating(s: Store, tag: string): (r: Store)
    ensures Registry.ActiveIndex(s).None? ==> r == s
    ensures Registry.ActiveIndex(s).Some? ==>
      Registry.SameExceptActivePrefs(s, r) &&
      (var p := Registry.ActivePrefs(s); var q := Registry.ActivePrefs(r);
       && q.tagsRate.Keys == p.tagsRate.Keys
       && (tag in p.tagsRate ==> q.tagsRate[tag] == 0)
       && (forall t :: t in p.tagsRate && t != tag ==> q.tagsRate[t] == p.tagsRate[t])
       && q.banList == p.banList)
  {
    Registry.UpdateActive(s, (p: Prefs) => p.(tagsRate := ResetRate(p.tagsRate, tag)))
  }

  /** Each occurrence of a tag in `tags` added exactly 1 to its rating; every listed tag has an entry. */
  ghost predicate RaisedBy(m: map<string, int>, tags: seq<string>, r: map<string, int>) {
    && r.Keys == m.Keys + (set t | t in tags)
    && forall t :: Rate(r, t) == Rate(m, t) + multiset(tags)[t]
  }

  /** The rating updates of `like`, tag by tag in list order. */
  function LikeRates(m: map<string, int>, tags: seq<string>): (r: map<string, int>)
    ensures RaisedBy(m, tags, r)
    decreases |tags|
  {
    if |tags| == 0 then m
    else
      var t := tags[0];
      var m1 := m[t := Rate(m, t) + 1];
      assert tags == [t] + tags[1..];
      var r := LikeRates(m1, tags[1..]);
      assert forall u :: Rate(m1, u) == Rate(m, u) + multiset([t])[u];
      r
  }

  /** `like`: with an unlocked active profile, each listed tag's rating rises by 1 per occurrence. */
  function Like(s: Store, tags: seq<string>): (r: Store)
    ensures !Registry.Editable(s) ==> r == s
    ensures Registry.Editable(s) ==>
      Registry.SameExceptActivePrefs(s, r) &&
      (var p := Registry.ActivePrefs(s); var q := Registry.ActivePrefs(r);
       RaisedBy(p.tagsRate, tags, q.tagsRate) && q.banList == p.banList)
  {
    if Registry.Editable(s) then
      Registry.UpdateActive(s, (p: Prefs) => p.(tagsRate := LikeRates(p.tagsRate, tags)))
    else s
  }

  /**
   * The outcome of `dislike` on one profile: each occurrence lowers the rating by 1, and a
   * tag ends up banned exactly when it was banned before or its final rating is below -100
   * (ratings only fall, so that is when some intermediate rating fell below -100). The old
   * ban list stays in front; after it come the newly banned tags, each once, in the order
   * in which they sank below -100.
   */
  ghost predicate DislikedBy(p: Prefs, tags: seq<string>, q: Prefs) {
    && q.tagsRate.Keys == p.tagsRate.Keys + (set t | t in tags)
    && (forall t :: Rate(q.tagsRate, t) == Rate(p.tagsRate, t) - multiset(tags)[t])
    && p.banList <= q.banList
    && (forall t :: t in q.banList <==>
          t in p.banList || (t in tags && Rate(p.tagsRate, t) - multiset(tags)[t] < BanThreshold))
    && NewBans(p, tags, q.banList[|p.banList|..])
    && (NoDups(p.banList) ==> NoDups(q.banList))
  }

  /** After the first `k` tags of `tags`, tag `u` has been disliked and its rating is below -100. */
  ghost predicate BannedBy(p: Prefs, tags: seq<string>, u: string, k: nat)
    requires k <= |tags|
  {
    u in tags[..k] && Rate(p.tagsRate, u) - multiset(tags[..k])[u] < BanThreshold
  }

  /**
   * `extra` lists tags that were not banned, each once, and none of them is banned later
   * than a tag after it: the order in which disliking `tags` pushes them.
   */
  ghost predicate NewBans(p: Prefs, tags: seq<string>, extra: seq<string>) {
    && NoDups(extra)
    && (forall i :: 0 <= i < |extra| ==> extra[i] !in p.banList)
    && BanOrder(p, tags, extra)
  }

  /** No tag of `extra` is banned later, along `tags`, than a tag after it. */
  ghost predicate BanOrder(p: Prefs, tags: seq<string>, extra: seq<string>) {
    forall i, j, k :: 0 <= i < j < |extra| && 0 <= k <= |tags| && BannedBy(p, tags, extra[j], k) ==>
      BannedBy(p, tags, extra[i], k)
  }

  /** The updates of `dislike`, tag by tag in list order. */
  function DislikePrefs(p: Prefs, tags: seq<string>): (q: Prefs)
    ensures DislikedBy(p, tags, q)
    decreases |tags|
  {
    if |tags| == 0 then p
    else
      var q := DislikePrefs(DislikeOne(p, tags[0]), tags[1..]);
      DislikedStep(p, tags, q);
      q
  }

  /** One step of `dislike`: lower the rating by 1, and ban the tag if it is now below -100. */
  function DislikeOne(p: Prefs, t: string): (q: Prefs)
    ensures t in q.tagsRate && q.tagsRate[t] == Rate(p.tagsRate, t) - 1
    ensures forall u :: u != t ==> Rate(q.tagsRate, u) == Rate(p.tagsRate, u)
    ensures q.tagsRate.Keys == p.tagsRate.Keys + {t}
    ensures p.banList <= q.banList
    ensures forall u :: u in q.banList <==> u in p.banList || (u == t && Rate(p.tagsRate, t) - 1 < BanThreshold)
    ensures q.banList == if Rate(p.tagsRate, t) - 1 < BanThreshold then AddAbsent(p.banList, t) else p.banList
  {
    var v := Rate(p.tagsRate, t) - 1;
    var p1 := p.(tagsRate := p.tagsRate[t := v]);
    if v < BanThreshold then p1.(banList := AddAbsent(p1.banList, t)) else p1
  }

  /** One `dislike` step followed by the rest of the list is the whole list's effect. */
  lemma DislikedStep(p: Prefs, tags: seq<string>, q: Prefs)
    requires |tags| > 0 && DislikedBy(DislikeOne(p, tags[0]), tags[1..], q)
    ensures DislikedBy(p, tags, q)
  {
    var t, tail := tags[0], tags[1..];
    assert tags == [t] + tail;
    ElementsCons(t, tail);
    forall u
      ensures Rate(q.tagsRate, u) == Rate(p.tagsRate, u) - multiset(tags)[u]
      ensures u in q.banList <==>
        u in p.banList || (u in tags && Rate(p.tagsRate, u) - multiset(tags)[u] < BanThreshold)
    {
      DislikedStepAt(p, t, tail, q, u);
    }
    NewBansStep(p, t, tail, q.banList);
  }

  /** Every tag a `dislike` adds to the ban list was among the disliked tags and sank below -100. */
  lemma NewBanSank(p: Prefs, tags: seq<string>, q: Prefs, i: nat)
    requires DislikedBy(p, tags, q) && |p.banList| <= i < |q.banList|
    ensures q.banList[i] in tags && Rate(p.tagsRate, q.banList[i]) - multiset(tags)[q.banList[i]] < BanThreshold
  {
    var extra := q.banList[|p.banList|..];
    assert q.banList[i] == extra[i - |p.banList|];
  }

  /** The order of new bans, one `dislike` step at a time. */
  lemma NewBansStep(p: Prefs, t: string, tail: seq<string>, bans: seq<string>)
    requires DislikeOne(p, t).banList <= bans
    requires NewBans(DislikeOne(p, t), tail, bans[|DislikeOne(p, t).banList|..])
    ensures p.banList <= bans
    ensures NewBans(p, [t] + tail, bans[|p.banList|..])
  {
    var p1 := DislikeOne(p, t);
    var tags := [t] + tail;
    var extra1 := bans[|p1.banList|..];
    var extra := bans[|p.banList|..];
    if t !in p.banList && Rate(p.tagsRate, t) - 1 < BanThreshold {
      assert p1.banList == p.banList + [t];
      assert extra == [t] + extra1;
      assert t !in extra1;
      ConsNoDups(t, extra1);
      BanOrderFresh(p, t, tail, extra1);
    } else {
      assert p1.banList == p.banList;
      BanOrderKept(p, t, tail, extra);
    }
  }

  /** When the first step bans `t`, putting `t` in front of the rest's new bans keeps the order. */
  lemma BanOrderFresh(p: Prefs, t: string, tail: seq<string>, extra1: seq<string>)
    requires Rate(p.tagsRate, t) - 1 < BanThreshold
    requires t !in extra1
    requires BanOrder(DislikeOne(p, t), tail, extra1)
    ensures BanOrder(p, [t] + tail, [t] + extra1)
  {
    var tags, extra := [t] + tail, [t] + extra1;
    forall i, j, k | 0 <= i < j < |extra| && 0 <= k <= |tags| && BannedBy(p, tags, extra[j], k)
      ensures BannedBy(p, tags, extra[i], k)
    {
      assert k > 0;
      if i == 0 {
        FirstStepBans(p, t, tail, k);
      } else {
        BannedShift(p, t, tail, extra[j], k);
        BannedShift(p, t, tail, extra[i], k);
        assert extra[j] == extra1[j - 1] && extra[i] == extra1[i - 1];
      }
    }
  }

  /** When the first step bans nothing new, the rest's order of new bans is the whole order. */
  lemma BanOrderKept(p: Prefs, t: string, tail: seq<string>, extra: seq<string>)
    requires t in extra ==> Rate(p.tagsRate, t) - 1 >= BanThreshold
    requires BanOrder(DislikeOne(p, t), tail, extra)
    ensures BanOrder(p, [t] + tail, extra)
  {
    var tags := [t] + tail;
    forall i, j, k | 0 <= i < j < |extra| && 0 <= k <= |tags| && BannedBy(p, tags, extra[j], k)
      ensures BannedBy(p, tags, extra[i], k)
    {
      assert k > 0;
      BannedShift(p, t, tail, extra[j], k);
      BannedShift(p, t, tail, extra[i], k);
    }
  }

  /** A tag that sinks below -100 at the first step stays banned after every later step. */
  lemma FirstStepBans(p: Prefs, t: string, tail: seq<string>, k: nat)
    requires Rate(p.tagsRate, t) - 1 < BanThreshold
    requires 0 < k <= |tail| + 1
    ensures BannedBy(p, [t] + tail, t, k)
  {
    var tags := [t] + tail;
    assert tags[..k] == [t] + tail[..k - 1];
    assert multiset(tags[..k])[t] == 1 + multiset(tail[..k - 1])[t];
  }

  /**
   * Being banned within the first `k` tags, for a tag other than the first one (or the
   * first one when that step does not ban it), is being banned within the first `k - 1`
   * tags of the rest after that step.
   */
  lemma BannedShift(p: Prefs, t: string, tail: seq<string>, u: string, k: nat)
    requires 0 < k <= |tail| + 1
    requires u != t || Rate(p.tagsRate, t) - 1 >= BanThreshold
    ensures BannedBy(p, [t] + tail, u, k) <==> BannedBy(DislikeOne(p, t), tail, u, k - 1)
  {
    var tags := [t] + tail;
    var p1 := DislikeOne(p, t);
    assert tags[..k] == [t] + tail[..k - 1];
    assert multiset(tags[..k])[u] == multiset([t])[u] + multiset(tail[..k - 1])[u];
    if u == t {
      assert Rate(p1.tagsRate, u) == Rate(p.tagsRate, u) - 1;
      assert multiset([t])[u] == 1;
      if u !in tail[..k - 1] {
        assert multiset(tail[..k - 1])[u] == 0;
      }
    } else {
      assert Rate(p1.tagsRate, u) == Rate(p.tagsRate, u);
      assert multiset([t])[u] == 0;
    }
  }

  /** `DislikedStep` for a single tag `u`. */
  lemma DislikedStepAt(p: Prefs, t: string, tail: seq<string>, q: Prefs, u: string)
    requires Rate(q.tagsRate, u) == Rate(DislikeOne(p, t).tagsRate, u) - multiset(tail)[u]
    requires u in q.banList <==>
      u in DislikeOne(p, t).banList || (u in tail && Rate(DislikeOne(p, t).tagsRate, u) - multiset(tail)[u] < BanThreshold)
    ensures Rate(q.tagsRate, u) == Rate(p.tagsRate, u) - multiset([t] + tail)[u]
    ensures u in q.banList <==>
      u in p.banList || (u in [t] + tail && Rate(p.tagsRate, u) - multiset([t] + tail)[u] < BanThreshold)
  {
    var p2 := DislikeOne(p, t);
    assert multiset([t] + tail)[u] == multiset([t])[u] + multiset(tail)[u];
    assert u in [t] + tail <==> u == t || u in tail;
    if u == t {
      assert multiset([t])[u] == 1;
      assert Rate(p2.tagsRate, u) == Rate(p.tagsRate, u) - 1;
    } else {
      assert multiset([t])[u] == 0;
      assert Rate(p2.tagsRate, u) == Rate(p.tagsRate, u);
      assert u in p2.banList <==> u in p.banList;
    }
  }

  /** `dislike`: with an unlocked active profile, lowers ratings and bans tags that sink below -100. */
  function Dislike(s: Store, tags: seq<string>): (r: Store)
    ensures !Registry.Editable(s) ==> r == s
    ensures Registry.Editable(s) ==>
      Registry.SameExceptActivePrefs(s, r) &&
      DislikedBy(Registry.ActivePrefs(s), tags, Registry.ActivePrefs(r))
  {
    if Registry.Editable(s) then
      Registry.UpdateActive(s, (p: Prefs) => DislikePrefs(p, tags))
    else s
  }

  /**
   * A `like` followed by a `dislike` of the same tags brings every rating back, as long as
   * no tag ends up newly banned: without a clamp the two are exact inverses.
   */
  lemma DislikeUndoesLike(p: Prefs, tags: seq<string>)
    ensures var q := DislikePrefs(p.(tagsRate := LikeRates(p.tagsRate, tags)), tags);
      forall t :: Rate(q.tagsRate, t) == Rate(p.tagsRate, t)
    ensures var q := DislikePrefs(p.(tagsRate := LikeRates(p.tagsRate, tags)), tags);
      forall t :: t in q.banList <==> t in p.banList || (t in tags && Rate(p.tagsRate, t) < BanThreshold)
  {
    var m := LikeRates(p.tagsRate, tags);
    assert forall t :: Rate(m, t) - multiset(tags)[t] == Rate(p.tagsRate, t);
  }

  /**
   * `createNewProfile`: appends an empty, unlocked profile and makes it the only active
   * one; the earlier profiles lose their active flag and nothing else.
   */
  function CreateNewProfile(s: Store, newName: string, freshId: string): (r: Store)
    requires !Registry.HasId(s.profiles, freshId)
    ensures Registry.Created(s, newName, freshId, Prefs([], map[]), r)
    ensures Registry.DistinctIds(s.profiles) ==> Registry.Consistent(r)
  {
    Registry.CreateNewProfile(s, newName, freshId, Blank)
  }

  /**
   * `deleteProfile`: an unknown id is a no-op; otherwise the profile is spliced out and,
   * if it was active, the first remaining profile is loaded, or an empty `Default` one is
   * created when none remains. The registry invariant survives, and with unique ids the
   * deleted id is gone.
   */
  function DeleteProfile(s: Store, target: string, freshId: string): (r: Store)
    ensures Registry.Deleted(s, target, freshId, Prefs([], map[]), r)
    ensures Registry.Consistent(s) ==> Registry.Consistent(r)
    ensures Registry.DistinctIds(s.profiles) && freshId != target ==> !Registry.HasId(r.profiles, target)
  {
    var r := Registry.DeleteProfile(s, target, freshId, Blank);
    assert Registry.Consistent(s) ==> Registry.Consistent(r) by {
      if Registry.Consistent(s) {
        Registry.DeleteKeepsConsistent(s, target, freshId, Blank);
      }
    }
    assert Registry.DistinctIds(s.profiles) && freshId != target ==> !Registry.HasId(r.profiles, target) by {
      if Registry.DistinctIds(s.profiles) && freshId != target {
        Registry.DeleteRemovesTarget(s, target, freshId, Blank);
      }
    }
    r
  }

  /**
   * `init`: an empty registry gets an empty `Default` profile; otherwise the first profile
   * flagged active becomes the active one, or the first profile is loaded when none is.
   */
  function Init(s: Store, freshId: string): (r: Store)
    ensures Registry.Initialised(s, freshId, Prefs([], map[]), r)
    ensures Registry.HasId(r.profiles, r.activeId)
    ensures Registry.DistinctIds(s.profiles) && Registry.AtMostOneFlagged(s.profiles) ==> Registry.Consistent(r)
  {
    Registry.Init(s, freshId, Blank)
  }
}
