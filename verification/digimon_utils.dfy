/** Per-rank stat caps and default potentials. */
module DigimonUtils {
  import opened Wrappers

  datatype StatCaps = StatCaps(hp: int, mp: int, atk: int, def: int, speed: int)

  /** `RANK_STAT_CAPS`. */
  const RankStatCaps: map<string, StatCaps> := map[
    "Fresh" := StatCaps(500, 500, 50, 50, 50),
    "In-Training" := StatCaps(1000, 1000, 100, 100, 100),
    "Rookie" := StatCaps(2000, 2000, 200, 200, 200),
    "Champion" := StatCaps(4000, 4000, 400, 400, 400),
    "Ultimate" := StatCaps(6000, 6000, 600, 600, 600),
    "Mega" := StatCaps(9999, 9999, 999, 999, 999)]

  /** `RANK_DEFAULT_POTENTIAL`. */
  const RankDefaultPotential: map<string, int> := map[
    "Fresh" := 10, "In-Training" := 15, "Rookie" := 25,
    "Champion" := 45, "Ultimate" := 65, "Mega" := 100]

  /** The farming rate cap, the same for every rank. */
  const BitFarmingRateCap := 2000

  /** The stats `applyCaps` may touch; each may be absent (`Partial<Digimon>`). */
  datatype Stats = Stats(
    maxHp: Option<int>,
    maxMp: Option<int>,
    atk: Option<int>,
    def: Option<int>,
    speed: Option<int>,
    bitFarmingRate: Option<int>)

  /**
   * `RANK_STAT_CAPS[rank] || RANK_STAT_CAPS['Mega']`. The table is a plain
   * object, so a rank named like an `Object.prototype` member ("constructor",
   * "toString") would find that member rather than fall back to Mega; ranks
   * come from the game's fixed rank list, so that lookup is not modelled.
   */
  function CapsFor(rank: string): (c: StatCaps)
    ensures rank in RankStatCaps ==> c == RankStatCaps[rank]
    ensures rank !in RankStatCaps ==> c == RankStatCaps["Mega"]
  {
    if rank in RankStatCaps then RankStatCaps[rank] else RankStatCaps["Mega"]
  }

  /** `if (v !== undefined) v = Math.min(v, cap)`. */
  function CapField(v: Option<int>, cap: int): (r: Option<int>)
    ensures r.None? <==> v.None?
    ensures r.Some? ==> r.value <= cap && r.value <= v.value
    ensures r.Some? && v.value <= cap ==> r.value == v.value
    ensures r.Some? && v.value > cap ==> r.value == cap
  {
    if v.None? then None else Some(if v.value < cap then v.value else cap)
  }

  /** Every present stat is within the caps of `rank`. */
  predicate WithinCaps(rank: string, s: Stats) {
    var c := CapsFor(rank);
    && (s.maxHp.Some? ==> s.maxHp.value <= c.hp)
    && (s.maxMp.Some? ==> s.maxMp.value <= c.mp)
    && (s.atk.Some? ==> s.atk.value <= c.atk)
    && (s.def.Some? ==> s.def.value <= c.def)
    && (s.speed.Some? ==> s.speed.value <= c.speed)
    && (s.bitFarmingRate.Some? ==> s.bitFarmingRate.value <= BitFarmingRateCap)
  }

  /** `applyCaps`: each present stat is lowered to its cap; absent stats stay absent. */
  function ApplyCaps(rank: string, s: Stats): (r: Stats)
    ensures WithinCaps(rank, r)
    ensures r.maxHp.None? == s.maxHp.None? && r.maxMp.None? == s.maxMp.None?
    ensures r.atk.None? == s.atk.None? && r.def.None? == s.def.None?
    ensures r.speed.None? == s.speed.None? && r.bitFarmingRate.None? == s.bitFarmingRate.None?
    ensures WithinCaps(rank, s) ==> r == s
  {
    var c := CapsFor(rank);
    Stats(CapField(s.maxHp, c.hp), CapField(s.maxMp, c.mp), CapField(s.atk, c.atk),
          CapField(s.def, c.def), CapField(s.speed, c.speed),
          CapField(s.bitFarmingRate, BitFarmingRateCap))
  }

  /** Capping twice is capping once. */
  lemma ApplyCapsIdempotent(rank: string, s: Stats)
    ensures ApplyCaps(rank, ApplyCaps(rank, s)) == ApplyCaps(rank, s)
  {
  }

  /** `applyCaps` changes nothing exactly when every present stat is already within the caps. */
  lemma ApplyCapsFixedIff(rank: string, s: Stats)
    ensures ApplyCaps(rank, s) == s <==> WithinCaps(rank, s)
  {
  }

  /** Any rank outside the table is capped exactly like Mega. */
  lemma UnknownRankIsMega(rank: string, s: Stats)
    requires rank !in RankStatCaps
    ensures ApplyCaps(rank, s) == ApplyCaps("Mega", s)
  {
  }

  /** `getDefaultPotential`: the table value, or 99 for a rank outside the table. */
  function GetDefaultPotential(rank: string): (p: int)
    ensures rank in RankDefaultPotential ==> p == RankDefaultPotential[rank]
    ensures rank !in RankDefaultPotential ==> p == 99
  {
    if rank in RankDefaultPotential then RankDefaultPotential[rank] else 99
  }

  /** Both tables know exactly the same six ranks. */
  lemma TablesAgreeOnRanks()
    ensures RankStatCaps.Keys == RankDefaultPotential.Keys
    ensures |RankStatCaps.Keys| == 6
  {
    assert RankStatCaps.Keys == {"Fresh", "In-Training", "Rookie", "Champion", "Ultimate", "Mega"};
  }
}
