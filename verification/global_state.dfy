/**
 * The game's global state: roster queries over the player's five lists,
 * Digi Data rewards, conversion costs, the countdown behind the periodic
 * training/farming/healing ticks, and evolution-route reconstruction.
 */
module GlobalState {
  import opened Wrappers
  import opened JsArray
  import opened Roster

  // ----- roster queries -----

  /** `totalDigimonCount`: every digimon the player owns, storage included. */
  function TotalDigimonCount(pd: PlayerData): nat {
    |pd.digimonList| + |pd.inTrainingDigimonList| + |pd.bitFarmDigimonList|
    + |pd.hospitalDigimonList| + |pd.digimonStorageList|
  }

  /** `allPlayerDigimonList`: team, training, farm and hospital flattened in that order; storage is not included. */
  function AllPlayerDigimonList(pd: PlayerData): (all: seq<Digimon>)
    ensures |all| + |pd.digimonStorageList| == TotalDigimonCount(pd)
    // the four lists follow each other in this order: team, training, farm, hospital
    ensures var a, b, c := |pd.digimonList|, |pd.inTrainingDigimonList|, |pd.bitFarmDigimonList|;
            && all[..a] == pd.digimonList
            && all[a..a + b] == pd.inTrainingDigimonList
            && all[a + b..a + b + c] == pd.bitFarmDigimonList
            && all[a + b + c..] == pd.hospitalDigimonList
  {
    pd.digimonList + pd.inTrainingDigimonList + pd.bitFarmDigimonList + pd.hospitalDigimonList
  }

  /** A digimon is among the active ones exactly when it sits in one of the four non-storage lists. */
  lemma AllPlayerDigimonMembership(pd: PlayerData, d: Digimon)
    ensures d in AllPlayerDigimonList(pd) <==>
      d in pd.digimonList || d in pd.inTrainingDigimonList
      || d in pd.bitFarmDigimonList || d in pd.hospitalDigimonList
  {
    var all := AllPlayerDigimonList(pd);
    var a, b, c := pd.digimonList, pd.inTrainingDigimonList, pd.bitFarmDigimonList;
    assert all == a + b + c + pd.hospitalDigimonList;
  }

  /** The order `findDigimonInLists` searches in. */
  const SearchOrder: seq<ListName> := [Team, BitFarm, InTraining, Hospital, Storage]

  /** The property name reported as `listName`. */
  function ListNameText(n: ListName): string {
    match n
    case Team => "digimonList"
    case BitFarm => "bitFarmDigimonList"
    case InTraining => "inTrainingDigimonList"
    case Hospital => "hospitalDigimonList"
    case Storage => "digimonStorageList"
  }

  datatype Found = Found(digimon: Digimon, listName: ListName)

  /** Search `order` front to back; in the first list holding `id`, answer its first match. */
  function FindIn(pd: PlayerData, id: string, order: seq<ListName>): (r: Option<Found>)
    ensures r.None? <==> forall q :: 0 <= q < |order| ==> !Holds(ListOf(pd, order[q]), id)
    ensures r.Some? ==> exists p :: 0 <= p < |order| && order[p] == r.value.listName
                          && (forall q :: 0 <= q < p ==> !Holds(ListOf(pd, order[q]), id))
    ensures r.Some? ==> Find(ListOf(pd, r.value.listName), MatchesId(id)) == Some(r.value.digimon)
  {
    if |order| == 0 then None
    else
      var f := Find(ListOf(pd, order[0]), MatchesId(id));
      if f.Some? then
        Some(Found(f.value, order[0]))
      else
        assert !Holds(ListOf(pd, order[0]), id) by {
          var list := ListOf(pd, order[0]);
          assert forall k :: 0 <= k < |list| ==> !MatchesId(id)(list[k]);
        }
        var rest := FindIn(pd, id, order[1..]);
        assert forall q :: 1 <= q < |order| ==> order[q] == order[1..][q - 1];
        assert rest.Some? ==> exists p :: 0 <= p < |order| && order[p] == rest.value.listName
                                && (forall q :: 0 <= q < p ==> !Holds(ListOf(pd, order[q]), id)) by {
          if rest.Some? {
            var p :| 0 <= p < |order[1..]| && order[1..][p] == rest.value.listName
                     && (forall q :: 0 <= q < p ==> !Holds(ListOf(pd, order[1..][q]), id));
            assert order[p + 1] == rest.value.listName;
          }
        }
        rest
  }

  /** No list among the five holds `id`. */
  predicate HeldNowhere(pd: PlayerData, id: string) {
    && !Holds(pd.digimonList, id) && !Holds(pd.bitFarmDigimonList, id)
    && !Holds(pd.inTrainingDigimonList, id) && !Holds(pd.hospitalDigimonList, id)
    && !Holds(pd.digimonStorageList, id)
  }

  /** `findDigimonInLists`: team, farm, training, hospital, storage, in that order. */
  function FindDigimonInLists(pd: PlayerData, id: string): (r: Option<Found>)
    ensures r.None? <==> HeldNowhere(pd, id)
    ensures r.Some? ==> r.value.digimon.id == Some(id) && r.value.digimon in ListOf(pd, r.value.listName)
  {
    var r := FindIn(pd, id, SearchOrder);
    assert SearchOrder[0] == Team && SearchOrder[1] == BitFarm && SearchOrder[2] == InTraining;
    assert SearchOrder[3] == Hospital && SearchOrder[4] == Storage;
    if r.Some? then
      var list := ListOf(pd, r.value.listName);
      assert MatchesId(id)(list[FindIndex(list, MatchesId(id))]);
      r
    else r
  }

  /** The search order is a priority: a digimon on the team is always reported from the team. */
  lemma TeamComesFirst(pd: PlayerData, id: string)
    requires Holds(pd.digimonList, id)
    ensures var r := FindDigimonInLists(pd, id);
            r.Some? && r.value.listName == Team
            && r.value.digimon == Find(pd.digimonList, MatchesId(id)).value
  {
    var r := FindIn(pd, id, SearchOrder);
    var p :| 0 <= p < |SearchOrder| && SearchOrder[p] == r.value.listName
             && (forall q :: 0 <= q < p ==> !Holds(ListOf(pd, SearchOrder[q]), id));
    assert p == 0;
  }

  /** Storage is searched last: it is reported only when no other list holds the id. */
  lemma StorageComesLast(pd: PlayerData, id: string)
    ensures var r := FindDigimonInLists(pd, id);
            r.Some? && r.value.listName == Storage ==>
              && !Holds(pd.digimonList, id) && !Holds(pd.bitFarmDigimonList, id)
              && !Holds(pd.inTrainingDigimonList, id) && !Holds(pd.hospitalDigimonList, id)
  {
    var r := FindIn(pd, id, SearchOrder);
    if r.Some? && r.value.listName == Storage {
      var p :| 0 <= p < |SearchOrder| && SearchOrder[p] == r.value.listName
               && (forall q :: 0 <= q < p ==> !Holds(ListOf(pd, SearchOrder[q]), id));
      assert p == 4;
      assert SearchOrder[0] == Team && SearchOrder[1] == BitFarm;
      assert SearchOrder[2] == InTraining && SearchOrder[3] == Hospital;
    }
  }

  // ----- costs and rewards -----

  /** The ranks, lowest first. */
  const Ranks: seq<string> := ["Fresh", "In-Training", "Rookie", "Champion", "Ultimate", "Mega"]

  /** `getBitCost`: the cost table by rank; a rank outside the table costs 1000. */
  function GetBitCost(rank: string): (cost: nat)
    ensures rank !in Ranks <==> cost == 1000
    ensures cost in {100, 200, 500, 1000, 1500, 5000, 15000}
  {
    if rank == "Fresh" then 100
    else if rank == "In-Training" then 200
    else if rank == "Rookie" then 500
    else if rank == "Champion" then 1500
    else if rank == "Ultimate" then 5000
    else if rank == "Mega" then 15000
    else 1000
  }

  /** Higher ranks cost strictly more bits. */
  lemma BitCostGrowsWithRank(i: nat, j: nat)
    requires i < j < |Ranks|
    ensures GetBitCost(Ranks[i]) < GetBitCost(Ranks[j])
  {
  }

  /** The cap on a seed's Digi Data. */
  const DigiDataCap := 999

  /** One `{ seed, amount }` entry of the battle's Digi Data gains. */
  datatype DigiDataGain = DigiDataGain(seed: string, amount: int)

  /** `data[seed] || 0`. */
  function Current(data: map<string, int>, seed: string): int {
    if seed in data then data[seed] else 0
  }

  /** One gain: the seed's amount grows by `amount`, capped at 999. */
  function AddCapped(data: map<string, int>, g: DigiDataGain): (r: map<string, int>)
    ensures r.Keys == data.Keys + {g.seed}
    ensures r[g.seed] <= DigiDataCap
    // together with the bound above: the seed's new amount is min(current + amount, 999)
    ensures r[g.seed] <= Current(data, g.seed) + g.amount
    ensures r[g.seed] == Current(data, g.seed) + g.amount || r[g.seed] == DigiDataCap
    ensures forall s :: s in data && s != g.seed ==> r[s] == data[s]
  {
    var v := Current(data, g.seed) + g.amount;
    data[g.seed := if v < DigiDataCap then v else DigiDataCap]
  }

  /** Reference definition: the gains applied one after another, in order. */
  function ApplyGains(data: map<string, int>, gains: seq<DigiDataGain>): map<string, int>
    decreases |gains|
  {
    if |gains| == 0 then data else AddCapped(ApplyGains(data, gains[..|gains| - 1]), gains[|gains| - 1])
  }

  /** Reference definition for one seed: its amounts folded in order with the cap. */
  function SeedAfter(start: int, seed: string, gains: seq<DigiDataGain>): int
    decreases |gains|
  {
    if |gains| == 0 then start
    else
      var before := SeedAfter(start, seed, gains[..|gains| - 1]);
      var g := gains[|gains| - 1];
      if g.seed != seed then before
      else if before + g.amount < DigiDataCap then before + g.amount
      else DigiDataCap
  }

  /** Gains are per seed: each seed's final amount depends only on its own gains. */
  lemma {:induction false} ApplyGainsPerSeed(data: map<string, int>, gains: seq<DigiDataGain>, seed: string)
    ensures Current(ApplyGains(data, gains), seed) == SeedAfter(Current(data, seed), seed, gains)
    decreases |gains|
  {
    if |gains| > 0 {
      ApplyGainsPerSeed(data, gains[..|gains| - 1], seed);
    }
  }

  /** A seed that gained anything ends at or below 999; untouched seeds keep their amount. */
  lemma {:induction false} ApplyGainsBounds(data: map<string, int>, gains: seq<DigiDataGain>)
    ensures var r := ApplyGains(data, gains);
            && (forall k :: 0 <= k < |gains| ==> gains[k].seed in r && r[gains[k].seed] <= DigiDataCap)
            && (forall s :: s in data && (forall k :: 0 <= k < |gains| ==> gains[k].seed != s) ==> s in r && r[s] == data[s])
    decreases |gains|
  {
    if |gains| > 0 {
      var init := gains[..|gains| - 1];
      ApplyGainsBounds(data, init);
      var r := ApplyGains(data, gains);
      forall k | 0 <= k < |gains|
        ensures gains[k].seed in r && r[gains[k].seed] <= DigiDataCap
      {
        var s := gains[k].seed;
        ApplyGainsPerSeed(data, gains, s);
        if k < |init| {
          assert init[k] == gains[k];
          ApplyGainsPerSeed(data, init, s);
        }
      }
    }
  }

  /** The Digi Data update of `calculateRewards`: a loop over the gains with `Math.min(... , 999)`. */
  method UpdateDigiData(data: map<string, int>, gains: seq<DigiDataGain>) returns (updated: map<string, int>)
    ensures updated == ApplyGains(data, gains)
    ensures forall k :: 0 <= k < |gains| ==> gains[k].seed in updated && updated[gains[k].seed] <= DigiDataCap
  {
    updated := data;
    var i := 0;
    while i < |gains|
      invariant 0 <= i <= |gains|
      invariant updated == ApplyGains(data, gains[..i])
    {
      assert gains[..i + 1][..i] == gains[..i];
      var g := gains[i];
      var v := (if g.seed in updated then updated[g.seed] else 0) + g.amount;
      updated := updated[g.seed := if v < DigiDataCap then v else DigiDataCap];
      i := i + 1;
    }
    assert gains[..i] == gains;
    ApplyGainsBounds(data, gains);
  }

  /** `calculateRewards` after the battle service has answered: bits grow by the total, Digi Data by the gains. */
  method CalculateRewards(pd: PlayerData, totalBits: int, gains: seq<DigiDataGain>) returns (r: PlayerData)
    ensures r.bits == pd.bits + totalBits
    ensures forall s :: Current(r.digiData, s) == SeedAfter(Current(pd.digiData, s), s, gains)
    ensures r == pd.(bits := r.bits, digiData := r.digiData)
  {
    var updated := UpdateDigiData(pd.digiData, gains);
    forall s
      ensures Current(updated, s) == SeedAfter(Current(pd.digiData, s), s, gains)
    {
      ApplyGainsPerSeed(pd.digiData, gains, s);
    }
    r := pd.(bits := pd.bits + totalBits, digiData := updated);
  }

  // ----- periodic ticks -----

  const TrainingIntervalSeconds := 30
  const BitFarmingIntervalSeconds := 60
  const HospitalHealingIntervalSeconds := 20

  datatype TickResult = TickResult(countdown: int, fires: bool, isFirstRun: bool)

  /** One emission `s` of the one-second interval for a task of period `period`. */
  function Tick(isFirstRun: bool, s: nat, period: nat): (r: TickResult)
    requires period > 0
    ensures 1 <= r.countdown <= period
    ensures !r.isFirstRun
    ensures r.fires ==> !isFirstRun
  {
    var remaining := period - s % period;
    TickResult(remaining, remaining == period && !isFirstRun, false)
  }

  /** `isFirstRun` as it stands when emission `s` arrives: true only for the very first one. */
  function FirstRunAt(s: nat): bool {
    s == 0
  }

  /** The action runs exactly at the emissions `s > 0` that are multiples of the period. */
  lemma TickFiresOnMultiples(s: nat, period: nat)
    requires period > 0
    ensures Tick(FirstRunAt(s), s, period).fires <==> s > 0 && s % period == 0
    ensures Tick(FirstRunAt(s), s, period).isFirstRun == FirstRunAt(s + 1)
  {
  }

  // ----- evolution routes -----

  /** One `{ seed, rank }` entry of a route. */
  datatype RouteStep = RouteStep(seed: string, rank: string)

  function StepOf(d: Digimon): RouteStep {
    RouteStep(d.seed, d.rank)
  }

  function SeedIs(seed: string): Digimon -> bool {
    (d: Digimon) => d.seed == seed
  }

  /** `getBaseDigimonDataBySeed`: the first base entry with that seed. */
  function BaseDigimonBySeed(db: seq<Digimon>, seed: string): (r: Option<Digimon>)
    ensures r.Some? ==> r.value.seed == seed && r.value in db
    ensures r.None? <==> forall k :: 0 <= k < |db| ==> db[k].seed != seed
    // the entry found is the first one with the seed
    ensures r.Some? ==> exists k :: 0 <= k < |db| && db[k] == r.value && forall j :: 0 <= j < k ==> db[j].seed != seed
  {
    var r := Find(db, SeedIs(seed));
    if r.Some? then
      var i := FindIndex(db, SeedIs(seed));
      assert SeedIs(seed)(db[i]);
      assert forall j :: 0 <= j < i ==> !SeedIs(seed)(db[j]);
      r
    else
      assert forall k :: 0 <= k < |db| ==> !SeedIs(seed)(db[k]);
      r
  }

  /** The digimon a route steps back to: the base entry of the first degenerate seed, if any. */
  function Previous(d: Digimon, db: seq<Digimon>): Option<Digimon> {
    if |d.degenerateSeedList| == 0 then None else BaseDigimonBySeed(db, d.degenerateSeedList[0])
  }

  /** Reference definition: the digimon visited walking back from `d`, at most `fuel` steps. */
  function Lineage(d: Digimon, db: seq<Digimon>, fuel: nat): (c: seq<Digimon>)
    ensures 1 <= |c| <= fuel + 1 && c[0] == d
    ensures forall k :: 0 <= k < |c| - 1 ==> Previous(c[k], db) == Some(c[k + 1])
    ensures |c| <= fuel ==> Previous(c[|c| - 1], db).None?
    decreases fuel
  {
    var p := Previous(d, db);
    if fuel == 0 || p.None? then [d]
    else
      var rest := Lineage(p.value, db, fuel - 1);
      assert forall k :: 1 <= k < |rest| + 1 ==> ([d] + rest)[k] == rest[k - 1];
      [d] + rest
  }

  /** Position `k` of a lineage has a successor exactly when fuel is left and a previous digimon exists. */
  lemma LineageStep(d: Digimon, db: seq<Digimon>, fuel: nat, k: nat)
    requires k < |Lineage(d, db, fuel)|
    ensures var c := Lineage(d, db, fuel);
            && (k + 1 < |c| <==> k < fuel && Previous(c[k], db).Some?)
            && (k + 1 < |c| ==> Previous(c[k], db) == Some(c[k + 1]))
  {
    var c := Lineage(d, db, fuel);
    if k + 1 < |c| {
      assert Previous(c[k], db) == Some(c[k + 1]);
    } else {
      assert k == |c| - 1;
    }
  }

  /** The route of the first `n` digimon of a lineage: the `n`-th first, `c[0]` last. */
  function RouteOf(c: seq<Digimon>, n: nat): seq<RouteStep>
    requires n <= |c|
  {
    if n == 0 then [] else [StepOf(c[n - 1])] + RouteOf(c, n - 1)
  }

  /** `RouteOf` lists the steps in reverse lineage order. */
  lemma {:induction false} RouteOfReversed(c: seq<Digimon>, n: nat)
    requires n <= |c|
    ensures |RouteOf(c, n)| == n
    ensures forall k :: 0 <= k < n ==> RouteOf(c, n)[k] == StepOf(c[n - 1 - k])
  {
    if n > 0 {
      RouteOfReversed(c, n - 1);
      assert forall k :: 1 <= k < n ==> RouteOf(c, n)[k] == RouteOf(c, n - 1)[k - 1];
    }
  }

  /**
   * `generateEvolutionRoute`: walk back through first degenerate seeds,
   * putting each visited digimon at the front of the route. The source
   * loop has no cycle guard; `fuel` bounds the number of lookups.
   */
  method GenerateEvolutionRoute(base: Digimon, db: seq<Digimon>, fuel: nat) returns (route: seq<RouteStep>)
    ensures var c := Lineage(base, db, fuel);
            |route| == |c| && forall k :: 0 <= k < |route| ==> route[k] == StepOf(c[|c| - 1 - k])
    ensures |route| >= 1 && route[|route| - 1] == StepOf(base)
  {
    ghost var c := Lineage(base, db, fuel);
    route := [];
    var current: Option<Digimon> := Some(base);
    var left := fuel;
    ghost var n: nat := 0;
    while current.Some?
      invariant n + left == fuel && n <= |c|
      invariant current.Some? ==> n < |c| && current.value == c[n]
      invariant current.None? ==> n == |c|
      invariant route == RouteOf(c, n)
      decreases left, current.Some?
    {
      var d := current.value;
      route := [StepOf(d)] + route;
      LineageStep(base, db, fuel, n);
      n := n + 1;
      if |d.degenerateSeedList| == 0 || left == 0 {
        current := None;
        break;
      }
      current := BaseDigimonBySeed(db, d.degenerateSeedList[0]);
      left := left - 1;
    }
    RouteOfReversed(c, n);
  }
}
