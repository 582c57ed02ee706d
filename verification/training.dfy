/**
 * The training ground: each tick raises one randomly chosen attribute of
 * every digimon in training. The two random draws are parameters.
 */
module TrainingService {
  import opened Wrappers
  import opened Roster

  /** The attributes training may raise. */
  datatype Attribute = MaxHp | MaxMp | Atk | Def

  /** `modifiableAttributes`, in the order the random index picks from. */
  const ModifiableAttributes: seq<Attribute> := [MaxHp, MaxMp, Atk, Def]

  /**
   * The two draws for one digimon: `attributeIndex` is `floor(random * 4)`,
   * `roll` is `floor(random * 10)`.
   */
  datatype TrainingDraw = TrainingDraw(attributeIndex: nat, roll: nat)

  predicate ValidDraw(t: TrainingDraw) {
    t.attributeIndex < |ModifiableAttributes| && t.roll < 10
  }

  function Stat(d: Digimon, a: Attribute): int {
    match a
    case MaxHp => d.maxHp
    case MaxMp => d.maxMp
    case Atk => d.atk
    case Def => d.def
  }

  /** The amount added: the roll, plus 10 for the two pool attributes. */
  function Increment(a: Attribute, roll: nat): (n: nat)
    requires roll < 10
    ensures a == MaxHp || a == MaxMp ==> 10 <= n <= 19
    ensures a == Atk || a == Def ==> n <= 9
    ensures n == roll || n == roll + 10
  {
    if a == MaxHp || a == MaxMp then roll + 10 else roll
  }

  /** Training one digimon: the drawn attribute grows by its increment and nothing else changes. */
  function TrainOne(d: Digimon, t: TrainingDraw): (r: Digimon)
    requires ValidDraw(t)
    ensures var a := ModifiableAttributes[t.attributeIndex];
            && Stat(r, a) == Stat(d, a) + Increment(a, t.roll)
            && (forall b: Attribute :: b != a ==> Stat(r, b) == Stat(d, b))
    ensures r.(maxHp := d.maxHp, maxMp := d.maxMp, atk := d.atk, def := d.def) == d
  {
    var a := ModifiableAttributes[t.attributeIndex];
    var n := Increment(a, t.roll);
    match a
    case MaxHp => d.(maxHp := d.maxHp + n)
    case MaxMp => d.(maxMp := d.maxMp + n)
    case Atk => d.(atk := d.atk + n)
    case Def => d.(def := d.def + n)
  }

  /** One training tick over the whole training list; one draw per digimon, in list order. */
  function TrainDigimons(pd: PlayerData, draws: seq<TrainingDraw>): (r: PlayerData)
    requires |draws| == |pd.inTrainingDigimonList|
    requires forall k :: 0 <= k < |draws| ==> ValidDraw(draws[k])
    ensures |r.inTrainingDigimonList| == |pd.inTrainingDigimonList|
    ensures forall k :: 0 <= k < |draws| ==>
              r.inTrainingDigimonList[k] == TrainOne(pd.inTrainingDigimonList[k], draws[k])
    ensures OnlyListChanged(pd, r, InTraining)
  {
    var list := pd.inTrainingDigimonList;
    WithList(pd, InTraining, seq(|list|, k requires 0 <= k < |list| => TrainOne(list[k], draws[k])))
  }

  /** Training keeps every digimon in its slot: ids, names, seeds and the rest are untouched. */
  lemma TrainingKeepsMembership(pd: PlayerData, draws: seq<TrainingDraw>)
    requires |draws| == |pd.inTrainingDigimonList|
    requires forall k :: 0 <= k < |draws| ==> ValidDraw(draws[k])
    ensures var after := TrainDigimons(pd, draws).inTrainingDigimonList;
            forall k :: 0 <= k < |after| ==>
              && after[k].id == pd.inTrainingDigimonList[k].id
              && after[k].seed == pd.inTrainingDigimonList[k].seed
              && after[k].currentHp == pd.inTrainingDigimonList[k].currentHp
  {
    var after := TrainDigimons(pd, draws).inTrainingDigimonList;
    forall k | 0 <= k < |after|
      ensures after[k].id == pd.inTrainingDigimonList[k].id
      ensures after[k].seed == pd.inTrainingDigimonList[k].seed
      ensures after[k].currentHp == pd.inTrainingDigimonList[k].currentHp
    {
      var d := pd.inTrainingDigimonList[k];
      assert after[k].(maxHp := d.maxHp, maxMp := d.maxMp, atk := d.atk, def := d.def) == d;
    }
  }

  /** Training never lowers a stat, and raises the four attributes together by at most 19. */
  lemma TrainingIsBounded(d: Digimon, t: TrainingDraw)
    requires ValidDraw(t)
    ensures var r := TrainOne(d, t);
            forall b: Attribute :: Stat(d, b) <= Stat(r, b) <= Stat(d, b) + 19
  {
  }

  /** Adding to training: a missing digimon or id means `return;`, otherwise push. */
  function AddDigimonToTraining(pd: PlayerData, digimon: Option<Digimon>): (r: Outcome<PlayerData>)
    ensures r.Returned? <==> digimon.Some? && Truthy(digimon.value.id)
    ensures r.Undefined? || r.Returned?
    ensures r.Returned? ==> && r.value.inTrainingDigimonList == pd.inTrainingDigimonList + [digimon.value]
                            && OnlyListChanged(pd, r.value, InTraining)
  {
    if digimon.None? || !Truthy(digimon.value.id) then Undefined
    else Returned(Appended(pd, InTraining, digimon.value))
  }

  /** Removing from training, answering the removed digimon as `find` saw it. */
  function RemoveDigimonFromTraining(pd: PlayerData, digimonId: Option<string>): (r: Outcome<Removal>)
    ensures r.Returned? <==> Truthy(digimonId)
    ensures r.Undefined? || r.Returned?
    ensures r.Returned? ==>
      && RemovedById(pd.inTrainingDigimonList, r.value.playerData.inTrainingDigimonList, digimonId.value)
      && OnlyListChanged(pd, r.value.playerData, InTraining)
      && (r.value.digimon.Some? <==> Holds(pd.inTrainingDigimonList, digimonId.value))
      && (r.value.digimon.Some? ==> r.value.digimon.value.id == digimonId)
  {
    if !Truthy(digimonId) then Undefined
    else
      var id := digimonId.value;
      Returned(Removal(SplicedOut(pd, InTraining, id), JsArray.Find(pd.inTrainingDigimonList, MatchesId(id))))
  }

  /** A digimon sent to training with a fresh id comes back out by that id. */
  lemma TrainingAddThenRemove(pd: PlayerData, d: Digimon)
    requires Truthy(d.id) && !Holds(pd.inTrainingDigimonList, d.id.value)
    ensures var added := AddDigimonToTraining(pd, Some(d)).value;
            RemoveDigimonFromTraining(added, d.id) == Returned(Removal(pd, Some(d)))
  {
    var id := d.id.value;
    var added := AddDigimonToTraining(pd, Some(d)).value;
    AppendedThenSplicedOut(pd, InTraining, d, id);
    var i := JsArray.FindIndex(added.inTrainingDigimonList, MatchesId(id));
    assert added.inTrainingDigimonList[|pd.inTrainingDigimonList|] == d;
    assert i == |pd.inTrainingDigimonList| by {
      assert forall k :: 0 <= k < |pd.inTrainingDigimonList| ==>
        added.inTrainingDigimonList[k] == pd.inTrainingDigimonList[k];
    }
  }
}
