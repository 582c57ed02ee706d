/**
 * The hospital: each tick heals HP and MP of every hospitalised digimon by
 * a random amount, never past the maximum. The random rolls are parameters.
 */
module HospitalService {
  import opened Wrappers
  import opened Roster

  /** The two draws for one digimon, each `floor(random * 10)`. */
  datatype HealDraw = HealDraw(hpRoll: nat, mpRoll: nat)

  predicate ValidDraw(t: HealDraw) {
    t.hpRoll < 10 && t.mpRoll < 10
  }

  /** Heal one pool: below the maximum it gains the roll, then anything above the maximum is cut back. */
  function HealPool(current: int, max: int, roll: nat): (r: int)
    ensures r <= max
    ensures current < max ==> r == (if current + roll > max then max else current + roll)
    ensures current >= max ==> r == max
  {
    var raised := if current < max then current + roll else current;
    if raised > max then max else raised
  }

  /** Healing never lowers a pool that starts at or below its maximum, and adds at most the roll. */
  lemma HealPoolMonotone(current: int, max: int, roll: nat)
    requires current <= max
    ensures current <= HealPool(current, max, roll) <= current + roll
  {
  }

  /** A full pool stays full, so a second tick after reaching the maximum is a no-op. */
  lemma HealPoolSettles(current: int, max: int, roll: nat, roll2: nat)
    requires HealPool(current, max, roll) == max
    ensures HealPool(HealPool(current, max, roll), max, roll2) == max
  {
  }

  /** Heal one digimon: HP and MP each follow `HealPool` with their own roll. */
  function HealOne(d: Digimon, t: HealDraw): (r: Digimon)
    ensures r.currentHp <= r.maxHp && r.currentMp <= r.maxMp
    ensures r.currentHp == HealPool(d.currentHp, d.maxHp, t.hpRoll)
    ensures r.currentMp == HealPool(d.currentMp, d.maxMp, t.mpRoll)
    ensures r.(currentHp := d.currentHp, currentMp := d.currentMp) == d
  {
    d.(currentHp := HealPool(d.currentHp, d.maxHp, t.hpRoll),
       currentMp := HealPool(d.currentMp, d.maxMp, t.mpRoll))
  }

  /** One healing tick over the hospital list; one pair of draws per digimon, in list order. */
  function HealDigimons(pd: PlayerData, draws: seq<HealDraw>): (r: PlayerData)
    requires |draws| == |pd.hospitalDigimonList|
    requires forall k :: 0 <= k < |draws| ==> ValidDraw(draws[k])
    ensures |r.hospitalDigimonList| == |pd.hospitalDigimonList|
    ensures forall k :: 0 <= k < |draws| ==>
              && r.hospitalDigimonList[k].currentHp <= r.hospitalDigimonList[k].maxHp
              && r.hospitalDigimonList[k].currentMp <= r.hospitalDigimonList[k].maxMp
              && r.hospitalDigimonList[k] == HealOne(pd.hospitalDigimonList[k], draws[k])
    ensures OnlyListChanged(pd, r, Hospital)
  {
    var list := pd.hospitalDigimonList;
    WithList(pd, Hospital, seq(|list|, k requires 0 <= k < |list| => HealOne(list[k], draws[k])))
  }

  /** Adding to the hospital: a missing digimon or id means `return;`, otherwise push. */
  function AddDigimonToHospital(pd: PlayerData, digimon: Option<Digimon>): (r: Outcome<PlayerData>)
    ensures r.Returned? <==> digimon.Some? && Truthy(digimon.value.id)
    ensures r.Undefined? || r.Returned?
    ensures r.Returned? ==> && r.value.hospitalDigimonList == pd.hospitalDigimonList + [digimon.value]
                            && OnlyListChanged(pd, r.value, Hospital)
  {
    if digimon.None? || !Truthy(digimon.value.id) then Undefined
    else Returned(Appended(pd, Hospital, digimon.value))
  }

  /**
   * Removing from the hospital. The trailing `filter` call builds a list
   * that nobody keeps, so only the splice has an effect.
   */
  function RemoveDigimonFromHospital(pd: PlayerData, digimonId: Option<string>): (r: Outcome<Removal>)
    ensures r.Returned? <==> Truthy(digimonId)
    ensures r.Undefined? || r.Returned?
    ensures r.Returned? ==>
      && RemovedById(pd.hospitalDigimonList, r.value.playerData.hospitalDigimonList, digimonId.value)
      && OnlyListChanged(pd, r.value.playerData, Hospital)
      && (r.value.digimon.Some? <==> Holds(pd.hospitalDigimonList, digimonId.value))
      && (r.value.digimon.Some? ==> r.value.digimon.value.id == digimonId)
  {
    if !Truthy(digimonId) then Undefined
    else
      var id := digimonId.value;
      Returned(Removal(SplicedOut(pd, Hospital, id), JsArray.Find(pd.hospitalDigimonList, MatchesId(id))))
  }

  /** A patient admitted with a fresh id is discharged again by that id. */
  lemma HospitalAddThenRemove(pd: PlayerData, d: Digimon)
    requires Truthy(d.id) && !Holds(pd.hospitalDigimonList, d.id.value)
    ensures var added := AddDigimonToHospital(pd, Some(d)).value;
            RemoveDigimonFromHospital(added, d.id) == Returned(Removal(pd, Some(d)))
  {
    var id := d.id.value;
    var added := AddDigimonToHospital(pd, Some(d)).value;
    AppendedThenSplicedOut(pd, Hospital, d, id);
    var i := JsArray.FindIndex(added.hospitalDigimonList, MatchesId(id));
    assert added.hospitalDigimonList[|pd.hospitalDigimonList|] == d;
    assert i == |pd.hospitalDigimonList| by {
      assert forall k :: 0 <= k < |pd.hospitalDigimonList| ==>
        added.hospitalDigimonList[k] == pd.hospitalDigimonList[k];
    }
  }
}
