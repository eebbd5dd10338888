/**
 * How the two generations of the profile store differ on tag ratings: the first lets
 * ratings run without bound and bans a tag that sinks below -100; the second clamps to
 * [-100, 100] and, because the clamp comes first, never bans. Away from the bounds the
 * two agree.
 */
module Generations {
  import opened Ratings
  import ProfileStore
  import ProfilesStore

  /** Two rating records with the same keys and the same `Rate` everywhere are equal. */
  lemma SameRates(a: map<string, int>, b: map<string, int>)
    requires a.Keys == b.Keys
    requires forall t :: Rate(a, t) == Rate(b, t)
    ensures a == b
  {
    forall t | t in a
      ensures a[t] == b[t]
    {
      assert Rate(a, t) == Rate(b, t);
    }
  }

  /** While no liked tag would pass 100, both generations' `like` produce the same ratings. */
  lemma LikeAgreesBelowCeiling(m: map<string, int>, tags: seq<string>)
    requires forall t :: t in tags ==> Rate(m, t) + multiset(tags)[t] <= MaxRating
    ensures ProfileStore.LikeRates(m, tags) == ProfilesStore.LikeRates(m, tags)
  {
    var a := ProfileStore.LikeRates(m, tags);
    var b := ProfilesStore.LikeRates(m, tags);
    forall t
      ensures Rate(a, t) == Rate(b, t)
    {
      if t !in tags {
        assert multiset(tags)[t] == 0;
      }
    }
    SameRates(a, b);
  }

  /** While no disliked tag would fall past -100, both generations' `dislike` produce the same ratings and bans. */
  lemma DislikeAgreesAboveFloor(p: ProfileStore.Prefs, q: ProfilesStore.Prefs, tags: seq<string>)
    requires q.tagsRate == p.tagsRate && q.banList == p.banList
    requires forall t :: t in tags ==> Rate(p.tagsRate, t) - multiset(tags)[t] >= MinRating
    ensures ProfileStore.DislikePrefs(p, tags).tagsRate == ProfilesStore.DislikePrefs(q, tags).tagsRate
    ensures ProfileStore.DislikePrefs(p, tags).banList == ProfilesStore.DislikePrefs(q, tags).banList
  {
    var a := ProfileStore.DislikePrefs(p, tags);
    var b := ProfilesStore.DislikePrefs(q, tags);
    DislikeRatesAgree(p.tagsRate, tags, a.tagsRate, b.tagsRate);
    NoNewBans(p, tags, a);
  }

  /** The rating records both generations' `dislike` describe coincide away from the floor. */
  lemma DislikeRatesAgree(m: map<string, int>, tags: seq<string>, a: map<string, int>, b: map<string, int>)
    requires forall t :: t in tags ==> Rate(m, t) - multiset(tags)[t] >= MinRating
    requires a.Keys == m.Keys + (set t | t in tags)
    requires forall t :: Rate(a, t) == Rate(m, t) - multiset(tags)[t]
    requires ProfilesStore.LoweredClamped(m, tags, b)
    ensures a == b
  {
    forall t
      ensures Rate(a, t) == Rate(b, t)
    {
      if t !in tags {
        assert multiset(tags)[t] == 0;
      }
    }
    SameRates(a, b);
  }

  /** A first-generation `dislike` that takes no rating below -100 bans nothing new. */
  lemma NoNewBans(p: ProfileStore.Prefs, tags: seq<string>, a: ProfileStore.Prefs)
    requires ProfileStore.DislikedBy(p, tags, a)
    requires forall t :: t in tags ==> Rate(p.tagsRate, t) - multiset(tags)[t] >= MinRating
    ensures a.banList == p.banList
  {
    if |a.banList| > |p.banList| {
      ProfileStore.NewBanSank(p, tags, a, |p.banList|);
      assert false;
    }
  }

  /** At a rating of 100 a like takes the first generation to 101 and leaves the second at 100. */
  lemma LikeAtCeiling(m: map<string, int>, t: string)
    requires Rate(m, t) == MaxRating
    ensures ProfileStore.LikeRates(m, [t])[t] == MaxRating + 1
    ensures ProfilesStore.LikeRates(m, [t])[t] == MaxRating
  {
    assert Rate(ProfileStore.LikeRates(m, [t]), t) == MaxRating + 1;
    assert Rate(ProfilesStore.LikeRates(m, [t]), t) == MaxRating;
  }

  /** At a rating of -100 a dislike bans the tag in the first generation but not in the second. */
  lemma DislikeAtFloor(p: ProfileStore.Prefs, q: ProfilesStore.Prefs, t: string)
    requires Rate(p.tagsRate, t) == MinRating && t !in p.banList
    requires q.tagsRate == p.tagsRate && q.banList == p.banList
    ensures t in ProfileStore.DislikePrefs(p, [t]).banList
    ensures t !in ProfilesStore.DislikePrefs(q, [t]).banList
  {
    assert t in [t] && multiset([t])[t] == 1;
  }
}
