/**
 * The profile registry both profile stores share: a list of profile records and the id of
 * the active one. `loadProfile`, `createNewProfile`, `deleteProfile`, `renameProfile`,
 * `toggleLock` and `init` are the same code in both store generations; they are written
 * here once, over a type parameter `D` that stands for the generation's preference fields.
 */
module Registry {
  import opened Options
  import opened Lists

  /** One profile record: the fields every generation has, plus its preferences. */
  datatype Profile<D> = Profile(id: string, name: string, isActive: bool, isLocked: bool, prefs: D)

  /** The store state: the profile list and `activeProfileId`. */
  datatype Store<D> = Store(profiles: seq<Profile<D>>, activeId: string)

  const DefaultName := "Default"

  ghost predicate HasId<D>(ps: seq<Profile<D>>, id: string) {
    exists i :: 0 <= i < |ps| && ps[i].id == id
  }

  ghost predicate DistinctIds<D>(ps: seq<Profile<D>>) {
    forall i, j :: 0 <= i < j < |ps| ==> ps[i].id != ps[j].id
  }

  /** Exactly the profiles carrying `id` are flagged active. */
  ghost predicate FlagsMatch<D>(ps: seq<Profile<D>>, id: string) {
    forall i :: 0 <= i < |ps| ==> (ps[i].isActive <==> ps[i].id == id)
  }

  /** The registry invariant: unique ids, the active id names a profile, and only it is flagged. */
  ghost predicate Consistent<D>(s: Store<D>) {
    DistinctIds(s.profiles) && HasId(s.profiles, s.activeId) && FlagsMatch(s.profiles, s.activeId)
  }

  /** `findIndex(p => p.id === id)`, with None for -1. */
  function FindIndex<D>(ps: seq<Profile<D>>, id: string): (r: Option<nat>)
    ensures r.None? <==> !HasId(ps, id)
    ensures r.Some? ==> r.value < |ps| && ps[r.value].id == id
    ensures r.Some? ==> forall j :: 0 <= j < r.value ==> ps[j].id != id
  {
    if |ps| == 0 then None
    else if ps[0].id == id then Some(0)
    else
      match FindIndex(ps[1..], id)
      case None =>
        assert forall j :: 1 <= j < |ps| ==> ps[j].id == ps[1..][j - 1].id;
        None
      case Some(k) =>
        assert ps[k + 1].id == ps[1..][k].id;
        Some(k + 1)
  }

  /** Two lists with the same ids in the same places find the same index. */
  lemma {:induction false} FindIndexSameIds<D>(ps: seq<Profile<D>>, qs: seq<Profile<D>>, id: string)
    requires |ps| == |qs|
    requires forall i :: 0 <= i < |ps| ==> ps[i].id == qs[i].id
    ensures FindIndex(ps, id) == FindIndex(qs, id)
  {
    if |ps| > 0 && ps[0].id != id {
      FindIndexSameIds(ps[1..], qs[1..], id);
    }
  }

  /** Edits that keep every id, every active flag and the active id keep the active index and the invariant. */
  lemma SameShape<D>(s: Store<D>, r: Store<D>)
    requires r.activeId == s.activeId && |r.profiles| == |s.profiles|
    requires forall i :: 0 <= i < |s.profiles| ==>
      r.profiles[i].id == s.profiles[i].id && r.profiles[i].isActive == s.profiles[i].isActive
    ensures FindIndex(r.profiles, r.activeId) == FindIndex(s.profiles, s.activeId)
    ensures Consistent(r) <==> Consistent(s)
  {
    FindIndexSameIds(s.profiles, r.profiles, s.activeId);
  }

  /** The index of `activeProfile`: the first profile whose id is the active id. */
  function ActiveIndex<D>(s: Store<D>): (r: Option<nat>)
    ensures r.None? <==> !HasId(s.profiles, s.activeId)
    ensures r.Some? ==> r.value < |s.profiles| && s.profiles[r.value].id == s.activeId
    ensures r.Some? ==> forall j :: 0 <= j < r.value ==> s.profiles[j].id != s.activeId
  {
    FindIndex(s.profiles, s.activeId)
  }

  /** The preferences of the active profile. */
  function ActivePrefs<D>(s: Store<D>): D
    requires ActiveIndex(s).Some?
  {
    s.profiles[ActiveIndex(s).value].prefs
  }

  /** There is an active profile and it is not locked: `like` and `dislike` act only then. */
  predicate Editable<D>(s: Store<D>) {
    ActiveIndex(s).Some? && !s.profiles[ActiveIndex(s).value].isLocked
  }

  /** `r` is `s` with, at most, the active profile's preferences changed. */
  ghost predicate SameExceptActivePrefs<D>(s: Store<D>, r: Store<D>) {
    && ActiveIndex(s).Some?
    && ActiveIndex(r) == ActiveIndex(s)
    && r.activeId == s.activeId
    && |r.profiles| == |s.profiles|
    && (forall j :: 0 <= j < |s.profiles| && j != ActiveIndex(s).value ==> r.profiles[j] == s.profiles[j])
    && r.profiles[ActiveIndex(s).value] == s.profiles[ActiveIndex(s).value].(prefs := ActivePrefs(r))
  }

  /**
   * Applies a change to the active profile's preferences; with no active profile the
   * store is unchanged. Ids, names and flags are never touched, so the registry
   * invariant is kept.
   */
  function UpdateActive<D>(s: Store<D>, f: D -> D): (r: Store<D>)
    ensures ActiveIndex(s).None? ==> r == s
    ensures ActiveIndex(s).Some? ==> SameExceptActivePrefs(s, r) && ActivePrefs(r) == f(ActivePrefs(s))
    ensures Consistent(r) <==> Consistent(s)
  {
    match ActiveIndex(s)
    case None => s
    case Some(i) =>
      var p := s.profiles[i];
      var r := Store(s.profiles[i := p.(prefs := f(p.prefs))], s.activeId);
      SameShape(s, r);
      r
  }

  /** Two preference changes that end where they started leave the whole store as it was. */
  lemma PrefsRestored<D>(s: Store<D>, r: Store<D>, r2: Store<D>)
    requires SameExceptActivePrefs(s, r) && SameExceptActivePrefs(r, r2)
    requires ActivePrefs(r2) == ActivePrefs(s)
    ensures r2 == s
  {
    var i := ActiveIndex(s).value;
    assert s.profiles[i].prefs == ActivePrefs(s);
    assert r2.profiles[i] == s.profiles[i];
    assert r2.profiles == s.profiles;
  }

  /** `r` is the list `ps` with `target` loaded: it is the active id, and only the flags now follow it. */
  ghost predicate Loaded<D>(ps: seq<Profile<D>>, target: string, r: Store<D>) {
    && r.activeId == target
    && |r.profiles| == |ps|
    && FlagsMatch(r.profiles, target)
    && forall i :: 0 <= i < |ps| ==> r.profiles[i].(isActive := ps[i].isActive) == ps[i]
  }

  /** `loadProfile`: flags exactly the profiles whose id is `target` and makes `target` the active id. */
  function LoadProfile<D>(s: Store<D>, target: string): (r: Store<D>)
    ensures Loaded(s.profiles, target, r)
    ensures DistinctIds(s.profiles) && HasId(s.profiles, target) ==> Consistent(r)
  {
    var ps := seq(|s.profiles|, i requires 0 <= i < |s.profiles| =>
      s.profiles[i].(isActive := s.profiles[i].id == target));
    var r := Store(ps, target);
    assert forall i :: 0 <= i < |ps| ==> ps[i].id == s.profiles[i].id;
    assert HasId(s.profiles, target) ==> HasId(ps, target);
    r
  }

  /** Loading a profile that is already loaded changes nothing. */
  lemma LoadProfileIdempotent<D>(s: Store<D>, target: string)
    ensures LoadProfile(LoadProfile(s, target), target) == LoadProfile(s, target)
  {
    var r := LoadProfile(s, target);
    var r2 := LoadProfile(r, target);
    assert forall i :: 0 <= i < |r.profiles| ==> r2.profiles[i] == r.profiles[i];
  }

  /**
   * `r` is `s` after creating profile `freshId`: the earlier profiles lose only their flag,
   * the new unlocked profile comes last, flagged, and is the active one.
   */
  ghost predicate Created<D>(s: Store<D>, name: string, freshId: string, blank: D, r: Store<D>) {
    && |r.profiles| == |s.profiles| + 1
    && r.profiles[|s.profiles|] == Profile(freshId, name, true, false, blank)
    && r.activeId == freshId && ActiveIndex(r) == Some(|s.profiles|)
    && forall i :: 0 <= i < |s.profiles| ==> r.profiles[i] == s.profiles[i].(isActive := false)
  }

  /**
   * `createNewProfile`: appends an unlocked profile with id `freshId` (standing for
   * `crypto.randomUUID()`, hence unused) and the given blank preferences, and makes it
   * the one active profile.
   */
  function CreateNewProfile<D>(s: Store<D>, name: string, freshId: string, blank: D): (r: Store<D>)
    requires !HasId(s.profiles, freshId)
    ensures Created(s, name, freshId, blank, r)
    ensures DistinctIds(s.profiles) ==> Consistent(r)
  {
    var ps := s.profiles + [Profile(freshId, name, false, false, blank)];
    var r := LoadProfile(Store(ps, s.activeId), freshId);
    LoadAppended(s.profiles, Profile(freshId, name, false, false, blank), s.activeId, r);
    r
  }

  /** Loading a profile just appended under an unused id: it alone is flagged, and the others keep all but their flag. */
  lemma LoadAppended<D>(ps: seq<Profile<D>>, p: Profile<D>, activeId: string, r: Store<D>)
    requires !HasId(ps, p.id) && r == LoadProfile(Store(ps + [p], activeId), p.id)
    ensures |r.profiles| == |ps| + 1
    ensures r.profiles[|ps|] == p.(isActive := true)
    ensures r.activeId == p.id && ActiveIndex(r) == Some(|ps|)
    ensures forall i :: 0 <= i < |ps| ==> r.profiles[i] == ps[i].(isActive := false)
    ensures DistinctIds(ps) ==> Consistent(r)
  {
    var qs := ps + [p];
    AppendFresh(ps, p);
    FindIndexSameIds(qs, r.profiles, p.id);
    forall i | 0 <= i < |ps|
      ensures r.profiles[i] == ps[i].(isActive := false)
    {
      assert r.profiles[i].(isActive := qs[i].isActive) == qs[i] && !r.profiles[i].isActive;
    }
  }

  /** Appending a profile with an unused id: it is found at the end, and unique ids stay unique. */
  lemma AppendFresh<D>(ps: seq<Profile<D>>, p: Profile<D>)
    requires !HasId(ps, p.id)
    ensures FindIndex(ps + [p], p.id) == Some(|ps|)
    ensures forall i :: 0 <= i < |ps| ==> (ps + [p])[i] == ps[i] && ps[i].id != p.id
    ensures DistinctIds(ps) ==> DistinctIds(ps + [p])
  {
    var qs := ps + [p];
    assert qs[|ps|] == p;
    assert HasId(qs, p.id);
    assert forall i :: 0 <= i < |ps| ==> qs[i] == ps[i];
  }

  /** Removing an entry keeps ids distinct and keeps every id other than the removed one. */
  lemma SpliceOutIds<D>(ps: seq<Profile<D>>, i: nat, id: string)
    requires i < |ps| && DistinctIds(ps)
    ensures DistinctIds(SpliceOut(ps, i))
    ensures HasId(SpliceOut(ps, i), id) <==> HasId(ps, id) && id != ps[i].id
  {
    var rest := SpliceOut(ps, i);
    forall a, b | 0 <= a < b < |rest|
      ensures rest[a].id != rest[b].id
    {
      var a' := if a < i then a else a + 1;
      var b' := if b < i then b else b + 1;
      assert rest[a] == ps[a'] && rest[b] == ps[b'];
    }
    if HasId(ps, id) && id != ps[i].id {
      var a :| 0 <= a < |ps| && ps[a].id == id;
      var a' := if a < i then a else a - 1;
      assert rest[a'] == ps[a];
    }
  }

  /**
   * `r` is `s` after deleting `target`: nothing changes for an unknown id; otherwise the
   * first profile with that id is spliced out and, when it was the active one, the first
   * remaining profile is loaded, or a `Default` profile `freshId` is the only one left.
   */
  ghost predicate Deleted<D>(s: Store<D>, target: string, freshId: string, blank: D, r: Store<D>) {
    && (!HasId(s.profiles, target) ==> r == s)
    && (HasId(s.profiles, target) ==>
          var rest := SpliceOut(s.profiles, FindIndex(s.profiles, target).value);
          && (target != s.activeId ==> r == Store(rest, s.activeId))
          && (target == s.activeId && |rest| > 0 ==> Loaded(rest, rest[0].id, r))
          && (target == s.activeId && |rest| == 0 ==>
                r == Store([Profile(freshId, DefaultName, true, false, blank)], freshId)))
  }

  /**
   * `deleteProfile`: an unknown id changes nothing; otherwise the first profile with that
   * id is removed and, if it was the active one, the first remaining profile is loaded,
   * or a fresh `Default` profile is created when none remains. `freshId` is only used in
   * that last case, where the registry is empty, so it needs no freshness condition.
   */
  function DeleteProfile<D>(s: Store<D>, target: string, freshId: string, blank: D): (r: Store<D>)
    ensures Deleted(s, target, freshId, blank, r)
    ensures HasId(s.profiles, target) && target == s.activeId ==>
      HasId(r.profiles, r.activeId) && FlagsMatch(r.profiles, r.activeId)
  {
    match FindIndex(s.profiles, target)
    case None => s
    case Some(i) =>
      var rest := SpliceOut(s.profiles, i);
      if target == s.activeId then Reactivate(rest, s.activeId, freshId, blank)
      else Store(rest, s.activeId)
  }

  /**
   * What `deleteProfile` does after removing the active profile: load the first remaining
   * profile, or create a `Default` one when none remains.
   */
  function Reactivate<D>(rest: seq<Profile<D>>, activeId: string, freshId: string, blank: D): (r: Store<D>)
    ensures HasId(r.profiles, r.activeId) && FlagsMatch(r.profiles, r.activeId)
    ensures |rest| > 0 ==> Loaded(rest, rest[0].id, r)
    ensures |rest| == 0 ==> r == Store([Profile(freshId, DefaultName, true, false, blank)], freshId)
  {
    if |rest| > 0 then
      var r := LoadProfile(Store(rest, activeId), rest[0].id);
      assert r.profiles[0].id == rest[0].id;
      r
    else
      var r := CreateNewProfile(Store(rest, activeId), DefaultName, freshId, blank);
      assert r.profiles == [r.profiles[0]];
      r
  }

  /** Deleting a profile, active or not, keeps the registry invariant. */
  lemma DeleteKeepsConsistent<D>(s: Store<D>, target: string, freshId: string, blank: D)
    requires Consistent(s)
    ensures Consistent(DeleteProfile(s, target, freshId, blank))
  {
    if HasId(s.profiles, target) {
      var i := FindIndex(s.profiles, target).value;
      SpliceOutIds(s.profiles, i, s.activeId);
      if target == s.activeId && |s.profiles| > 1 {
        var rest := SpliceOut(s.profiles, i);
        assert HasId(rest, rest[0].id);
      }
    }
  }

  /** With unique ids, the deleted id is gone afterwards (unless the fresh id reuses it). */
  lemma DeleteRemovesTarget<D>(s: Store<D>, target: string, freshId: string, blank: D)
    requires DistinctIds(s.profiles) && freshId != target
    ensures !HasId(DeleteProfile(s, target, freshId, blank).profiles, target)
  {
    if HasId(s.profiles, target) {
      var i := FindIndex(s.profiles, target).value;
      var rest := SpliceOut(s.profiles, i);
      SpliceOutIds(s.profiles, i, target);
      var r := DeleteProfile(s, target, freshId, blank);
      if target == s.activeId && |rest| > 0 {
        assert Loaded(rest, rest[0].id, r);
        forall j | 0 <= j < |r.profiles|
          ensures r.profiles[j].id != target
        {
          assert r.profiles[j].id == rest[j].id;
        }
      }
    }
  }

  /** `renameProfile`: the first profile with id `target`, if any, takes the new name. */
  function RenameProfile<D>(s: Store<D>, target: string, newName: string): (r: Store<D>)
    ensures !HasId(s.profiles, target) ==> r == s
    ensures HasId(s.profiles, target) ==>
      var i := FindIndex(s.profiles, target).value;
      && |r.profiles| == |s.profiles| && r.activeId == s.activeId
      && r.profiles[i].name == newName
      && r.profiles[i].(name := s.profiles[i].name) == s.profiles[i]
      && forall j :: 0 <= j < |s.profiles| && j != i ==> r.profiles[j] == s.profiles[j]
    ensures Consistent(r) <==> Consistent(s)
  {
    match FindIndex(s.profiles, target)
    case None => s
    case Some(i) =>
      var r := s.(profiles := s.profiles[i := s.profiles[i].(name := newName)]);
      SameShape(s, r);
      r
  }

  /** Renaming a profile back to its old name restores the store. */
  lemma RenameBack<D>(s: Store<D>, target: string, newName: string)
    requires HasId(s.profiles, target)
    ensures var oldName := s.profiles[FindIndex(s.profiles, target).value].name;
      RenameProfile(RenameProfile(s, target, newName), target, oldName) == s
  {
    var r := RenameProfile(s, target, newName);
    FindIndexSameIds(s.profiles, r.profiles, target);
    var i := FindIndex(s.profiles, target).value;
    var r2 := RenameProfile(r, target, s.profiles[i].name);
    assert r2.profiles == s.profiles;
  }

  /** `toggleLock`: flips the lock of the first profile with id `target`, if any. */
  function ToggleLock<D>(s: Store<D>, target: string): (r: Store<D>)
    ensures !HasId(s.profiles, target) ==> r == s
    ensures HasId(s.profiles, target) ==>
      var i := FindIndex(s.profiles, target).value;
      && |r.profiles| == |s.profiles| && r.activeId == s.activeId
      && r.profiles[i].isLocked == !s.profiles[i].isLocked
      && r.profiles[i].(isLocked := s.profiles[i].isLocked) == s.profiles[i]
      && forall j :: 0 <= j < |s.profiles| && j != i ==> r.profiles[j] == s.profiles[j]
    ensures Consistent(r) <==> Consistent(s)
  {
    match FindIndex(s.profiles, target)
    case None => s
    case Some(i) =>
      var r := s.(profiles := s.profiles[i := s.profiles[i].(isLocked := !s.profiles[i].isLocked)]);
      SameShape(s, r);
      r
  }

  /** Toggling the lock twice restores the store. */
  lemma ToggleLockTwice<D>(s: Store<D>, target: string)
    ensures ToggleLock(ToggleLock(s, target), target) == s
  {
    var r := ToggleLock(s, target);
    if HasId(s.profiles, target) {
      FindIndexSameIds(s.profiles, r.profiles, target);
      var i := FindIndex(s.profiles, target).value;
      assert r.profiles[i].id == target;
      var r2 := ToggleLock(r, target);
      assert r2.profiles == s.profiles;
    }
  }

  /** The first profile flagged active in the stored list, if any. */
  function FindFlagged<D>(ps: seq<Profile<D>>): (r: Option<nat>)
    ensures r.None? ==> forall j :: 0 <= j < |ps| ==> !ps[j].isActive
    ensures r.Some? ==> r.value < |ps| && ps[r.value].isActive
    ensures r.Some? ==> forall j :: 0 <= j < r.value ==> !ps[j].isActive
  {
    if |ps| == 0 then None
    else if ps[0].isActive then Some(0)
    else
      match FindFlagged(ps[1..])
      case None =>
        assert forall j :: 1 <= j < |ps| ==> ps[j] == ps[1..][j - 1];
        None
      case Some(k) =>
        assert ps[k + 1] == ps[1..][k];
        Some(k + 1)
  }

  ghost predicate AtMostOneFlagged<D>(ps: seq<Profile<D>>) {
    forall i, j :: 0 <= i < |ps| && 0 <= j < |ps| && ps[i].isActive && ps[j].isActive ==> i == j
  }

  /** No profile before position `i` is flagged active. */
  ghost predicate NoneFlaggedBefore<D>(ps: seq<Profile<D>>, i: nat) {
    forall j :: 0 <= j < i && j < |ps| ==> !ps[j].isActive
  }

  /**
   * `r` is `s` after `init`: an empty registry holds just a `Default` profile `freshId`;
   * otherwise the first profile flagged active gives the active id and nothing else
   * changes, or, with none flagged, the first profile is loaded.
   */
  ghost predicate Initialised<D>(s: Store<D>, freshId: string, blank: D, r: Store<D>) {
    && (|s.profiles| == 0 ==> r == Store([Profile(freshId, DefaultName, true, false, blank)], freshId))
    && (forall i :: 0 <= i < |s.profiles| && s.profiles[i].isActive && NoneFlaggedBefore(s.profiles, i) ==>
          r == s.(activeId := s.profiles[i].id))
    && (|s.profiles| > 0 && NoneFlaggedBefore(s.profiles, |s.profiles|) ==> Loaded(s.profiles, s.profiles[0].id, r))
  }

  /**
   * `init`: an empty registry gets a fresh `Default` profile; otherwise the first profile
   * flagged active becomes the active one, or the first profile is loaded when none is
   * flagged. Afterwards the active id always names a profile. `freshId` is only used when
   * the registry is empty, so it needs no freshness condition.
   */
  function Init<D>(s: Store<D>, freshId: string, blank: D): (r: Store<D>)
    ensures Initialised(s, freshId, blank, r)
    ensures HasId(r.profiles, r.activeId)
    ensures |s.profiles| > 0 ==>
      && |r.profiles| == |s.profiles|
      && forall i :: 0 <= i < |s.profiles| ==> r.profiles[i].(isActive := s.profiles[i].isActive) == s.profiles[i]
    ensures DistinctIds(s.profiles) && AtMostOneFlagged(s.profiles) ==> Consistent(r)
  {
    if |s.profiles| == 0 then
      CreateNewProfile(s, DefaultName, freshId, blank)
    else
      match FindFlagged(s.profiles)
      case Some(i) =>
        var r := s.(activeId := s.profiles[i].id);
        assert HasId(r.profiles, r.activeId);
        forall k | 0 <= k < |s.profiles| && s.profiles[k].isActive && NoneFlaggedBefore(s.profiles, k)
          ensures k == i
        {
          assert !(k < i) && !(i < k);
        }
        r
      case None =>
        assert HasId(s.profiles, s.profiles[0].id);
        assert forall k :: 0 <= k < |s.profiles| ==> !s.profiles[k].isActive;
        LoadProfile(s, s.profiles[0].id)
  }

  /** A consistent registry has exactly one profile flagged active: the one the store looks up. */
  lemma ConsistentSingleActive<D>(s: Store<D>)
    requires Consistent(s)
    ensures ActiveIndex(s).Some?
    ensures forall i :: 0 <= i < |s.profiles| ==> (s.profiles[i].isActive <==> i == ActiveIndex(s).value)
  {
  }
}
