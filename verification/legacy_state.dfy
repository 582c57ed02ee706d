/**
 * The older global state, which moves digimon with plain `push` and
 * `filter` instead of the services' `findIndex` + `splice`.
 */
module LegacyState {
  import opened Wrappers
  import opened JsArray
  import opened Roster

  /** The `digimon.id !== digimonId` test the filters keep. */
  function Keeps(id: string): Digimon -> bool {
    (d: Digimon) => d.id != Some(id)
  }

  /** `addDigimonToTraining`: push, with no id check. */
  function AddDigimonToTraining(pd: PlayerData, d: Digimon): (r: PlayerData)
    ensures r.inTrainingDigimonList == pd.inTrainingDigimonList + [d]
    ensures OnlyListChanged(pd, r, InTraining)
  {
    Appended(pd, InTraining, d)
  }

  /** Remove every entry carrying `id` from one list, keeping the rest in order. */
  function WithoutId(list: seq<Digimon>, id: string): (r: seq<Digimon>)
    ensures !Holds(r, id)
    ensures forall k :: 0 <= k < |r| ==> r[k] in list
    ensures forall k :: 0 <= k < |list| && list[k].id != Some(id) ==> list[k] in r
  {
    var r := Filter(list, Keeps(id));
    assert forall k :: 0 <= k < |r| ==> Keeps(id)(r[k]);
    r
  }

  /** `removeDigimonFromTraining`: filter the training list. */
  function RemoveDigimonFromTraining(pd: PlayerData, id: string): (r: PlayerData)
    ensures !Holds(r.inTrainingDigimonList, id)
    ensures r.inTrainingDigimonList == WithoutId(pd.inTrainingDigimonList, id)
    ensures OnlyListChanged(pd, r, InTraining)
  {
    WithList(pd, InTraining, WithoutId(pd.inTrainingDigimonList, id))
  }

  /** `removeDigimonFromList`: filter the team. */
  function RemoveDigimonFromList(pd: PlayerData, id: string): (r: PlayerData)
    ensures !Holds(r.digimonList, id)
    ensures r.digimonList == WithoutId(pd.digimonList, id)
    ensures OnlyListChanged(pd, r, Team)
  {
    WithList(pd, Team, WithoutId(pd.digimonList, id))
  }

  /** Unlike `splice(-1, 1)`, filtering out an absent id leaves the list as it was. */
  lemma AbsentIdChangesNothing(list: seq<Digimon>, id: string)
    requires !Holds(list, id)
    ensures WithoutId(list, id) == list
  {
    FilterKeepsAll(list, Keeps(id));
  }

  /** Filtering distributes over concatenation, so the survivors keep their relative order. */
  lemma WithoutIdAppend(a: seq<Digimon>, b: seq<Digimon>, id: string)
    ensures WithoutId(a + b, id) == WithoutId(a, id) + WithoutId(b, id)
  {
    FilterAppend(a, b, Keeps(id));
  }

  /** Pushing a digimon with a fresh id into training and removing it restores the player data. */
  lemma TrainingAddThenRemove(pd: PlayerData, d: Digimon, id: string)
    requires d.id == Some(id) && !Holds(pd.inTrainingDigimonList, id)
    ensures RemoveDigimonFromTraining(AddDigimonToTraining(pd, d), id) == pd
  {
    var list := pd.inTrainingDigimonList;
    WithoutIdAppend(list, [d], id);
    AbsentIdChangesNothing(list, id);
    assert WithoutId([d], id) == [] by {
      assert Filter([d], Keeps(id)) == Filter([d][1..], Keeps(id));
    }
  }
}
