/** The storage service: moving digimon onto and off the team and the storage box. */
module StorageService {
  import opened Wrappers
  import opened JsArray
  import opened Roster

  /** At most this many digimon on the upfront team. */
  const UpfrontTeamLimit := 6

  /** Adding to the team: no id means `return;`, a full team throws, otherwise push. */
  function AddDigimonToList(d: Digimon, pd: PlayerData): (r: Outcome<PlayerData>)
    ensures r.Returned? <==> Truthy(d.id) && |pd.digimonList| < UpfrontTeamLimit
    ensures !Truthy(d.id) ==> r == Undefined
    ensures Truthy(d.id) && |pd.digimonList| >= UpfrontTeamLimit ==> r == Thrown("Team limit reached!")
    ensures r.Returned? ==> && r.value.digimonList == pd.digimonList + [d]
                            && |r.value.digimonList| <= UpfrontTeamLimit
                            && OnlyListChanged(pd, r.value, Team)
  {
    if !Truthy(d.id) then Undefined
    else if |pd.digimonList| >= UpfrontTeamLimit then Thrown("Team limit reached!")
    else Returned(Appended(pd, Team, d))
  }

  /** Removing from the team, answering the removed digimon as `find` saw it. */
  function RemoveDigimonFromList(pd: PlayerData, digimonId: Option<string>): (r: Outcome<Removal>)
    ensures r.Returned? <==> Truthy(digimonId)
    ensures r.Returned? ==>
      && RemovedById(pd.digimonList, r.value.playerData.digimonList, digimonId.value)
      && OnlyListChanged(pd, r.value.playerData, Team)
      && (r.value.digimon.Some? <==> Holds(pd.digimonList, digimonId.value))
      && (r.value.digimon.Some? ==> r.value.digimon.value.id == digimonId
                                    && r.value.digimon.value in pd.digimonList)
  {
    if !Truthy(digimonId) then Undefined
    else
      var id := digimonId.value;
      var found := Find(pd.digimonList, MatchesId(id));
      Returned(Removal(SplicedOut(pd, Team, id), found))
  }

  /** Adding to storage: a missing digimon or id means `return;`, otherwise push. */
  function AddDigimonToStorage(pd: PlayerData, digimon: Option<Digimon>): (r: Outcome<PlayerData>)
    ensures r.Returned? <==> digimon.Some? && Truthy(digimon.value.id)
    ensures r.Returned? ==> && r.value.digimonStorageList == pd.digimonStorageList + [digimon.value]
                            && OnlyListChanged(pd, r.value, Storage)
    ensures r.Undefined? || r.Returned?
  {
    if digimon.None? || !Truthy(digimon.value.id) then Undefined
    else Returned(Appended(pd, Storage, digimon.value))
  }

  /** Removing from storage by id. */
  function RemoveDigimonFromStorage(pd: PlayerData, digimonId: Option<string>): (r: Outcome<PlayerData>)
    ensures r.Returned? <==> Truthy(digimonId)
    ensures r.Returned? ==> && RemovedById(pd.digimonStorageList, r.value.digimonStorageList, digimonId.value)
                            && OnlyListChanged(pd, r.value, Storage)
    ensures r.Undefined? || r.Returned?
  {
    if !Truthy(digimonId) then Undefined
    else Returned(SplicedOut(pd, Storage, digimonId.value))
  }

  /** A digimon added to the team with a fresh id is removed again by that id, giving it back. */
  lemma TeamAddThenRemove(pd: PlayerData, d: Digimon)
    requires Truthy(d.id) && !Holds(pd.digimonList, d.id.value)
    requires |pd.digimonList| < UpfrontTeamLimit
    ensures var added := AddDigimonToList(d, pd).value;
            RemoveDigimonFromList(added, d.id) == Returned(Removal(pd, Some(d)))
  {
    var id := d.id.value;
    var added := AddDigimonToList(d, pd).value;
    AppendedThenSplicedOut(pd, Team, d, id);
    var i := FindIndex(added.digimonList, MatchesId(id));
    assert added.digimonList[|pd.digimonList|] == d;
    assert i == |pd.digimonList| by {
      assert forall k :: 0 <= k < |pd.digimonList| ==> added.digimonList[k] == pd.digimonList[k];
    }
  }

  /** The same round trip through the storage box. */
  lemma StorageAddThenRemove(pd: PlayerData, d: Digimon)
    requires Truthy(d.id) && !Holds(pd.digimonStorageList, d.id.value)
    ensures var added := AddDigimonToStorage(pd, Some(d)).value;
            RemoveDigimonFromStorage(added, d.id) == Returned(pd)
  {
    AppendedThenSplicedOut(pd, Storage, d, d.id.value);
  }
}
