/** The bit farm: digimon placed there produce bits at their farming rate. */
module FarmingService {
  import opened Wrappers
  import opened Roster

  /** Reference definition: the total farming rate of a list. */
  function RateSum(list: seq<Digimon>): int {
    if |list| == 0 then 0 else RateSum(list[..|list| - 1]) + list[|list| - 1].bitFarmingRate
  }

  /** Rates add up over concatenation: the farm's rate is the sum of its parts' rates. */
  lemma {:induction false} RateSumAppend(a: seq<Digimon>, b: seq<Digimon>)
    ensures RateSum(a + b) == RateSum(a) + RateSum(b)
    decreases |b|
  {
    if |b| == 0 {
      assert a + b == a;
    } else {
      var b' := b[..|b| - 1];
      assert (a + b)[..|a + b| - 1] == a + b';
      RateSumAppend(a, b');
    }
  }

  /** `reduce((acc, d) => acc + d.bitFarmingRate, 0)` over the farm list, accumulating from the left. */
  method GetBitGenerationTotalRate(pd: PlayerData) returns (total: int)
    ensures total == RateSum(pd.bitFarmDigimonList)
    ensures |pd.bitFarmDigimonList| == 0 ==> total == 0
  {
    var list := pd.bitFarmDigimonList;
    total := 0;
    var i := 0;
    while i < |list|
      invariant 0 <= i <= |list|
      invariant total == RateSum(list[..i])
    {
      assert list[..i + 1][..i] == list[..i];
      total := total + list[i].bitFarmingRate;
      i := i + 1;
    }
    assert list[..i] == list;
  }

  /** One farming tick: bits grow by exactly the total rate; nothing else changes. */
  method GenerateBitsBasedOnGenerationTotalRate(pd: PlayerData) returns (r: PlayerData)
    ensures r.bits == pd.bits + RateSum(pd.bitFarmDigimonList)
    ensures r == pd.(bits := r.bits)
  {
    var rate := GetBitGenerationTotalRate(pd);
    r := pd.(bits := pd.bits + rate);
  }

  /** Adding to the farm: no id means `return;`, otherwise push. */
  function AddDigimonToFarm(d: Digimon, pd: PlayerData): (r: Outcome<PlayerData>)
    ensures r.Returned? <==> Truthy(d.id)
    ensures r.Undefined? || r.Returned?
    ensures r.Returned? ==> && r.value.bitFarmDigimonList == pd.bitFarmDigimonList + [d]
                            && OnlyListChanged(pd, r.value, BitFarm)
  {
    if !Truthy(d.id) then Undefined else Returned(Appended(pd, BitFarm, d))
  }

  /** Removing from the farm by id. */
  function RemoveDigimonFromFarm(pd: PlayerData, digimonId: Option<string>): (r: Outcome<PlayerData>)
    ensures r.Returned? <==> Truthy(digimonId)
    ensures r.Undefined? || r.Returned?
    ensures r.Returned? ==> && RemovedById(pd.bitFarmDigimonList, r.value.bitFarmDigimonList, digimonId.value)
                            && OnlyListChanged(pd, r.value, BitFarm)
  {
    if !Truthy(digimonId) then Undefined else Returned(SplicedOut(pd, BitFarm, digimonId.value))
  }

  /** Placing a digimon on the farm raises the farm's rate by exactly its own rate. */
  lemma AddRaisesRate(d: Digimon, pd: PlayerData)
    requires Truthy(d.id)
    ensures RateSum(AddDigimonToFarm(d, pd).value.bitFarmDigimonList)
            == RateSum(pd.bitFarmDigimonList) + d.bitFarmingRate
  {
    RateSumAppend(pd.bitFarmDigimonList, [d]);
    assert RateSum([d]) == RateSum([]) + d.bitFarmingRate;
  }

  /** Adding a digimon with a fresh id and removing it again restores the player data. */
  lemma FarmAddThenRemove(pd: PlayerData, d: Digimon)
    requires Truthy(d.id) && !Holds(pd.bitFarmDigimonList, d.id.value)
    ensures RemoveDigimonFromFarm(AddDigimonToFarm(d, pd).value, d.id) == Returned(pd)
  {
    AppendedThenSplicedOut(pd, BitFarm, d, d.id.value);
  }
}
