/**
 * The player's roster: the digimon record, the five lists of the player
 * data, and the list operations every state service shares (append an
 * id-bearing digimon; remove by `findIndex` + `splice(index, 1)`).
 */
module Roster {
  import opened Wrappers
  import opened JsArray

  /** A digimon as the game state stores it. `id` is optional: wild or template digimon have none. */
  datatype Digimon = Digimon(
    id: Option<string>,
    seed: string,
    name: string,
    rank: string,
    currentHp: int,
    maxHp: int,
    currentMp: int,
    maxMp: int,
    atk: int,
    def: int,
    speed: int,
    level: int,
    bitFarmingRate: int,
    degenerateSeedList: seq<string>)

  /** The five places a player's digimon can live. */
  datatype ListName = Team | BitFarm | InTraining | Hospital | Storage

  /** The parts of the player data the services read and write. */
  datatype PlayerData = PlayerData(
    digimonList: seq<Digimon>,
    bitFarmDigimonList: seq<Digimon>,
    inTrainingDigimonList: seq<Digimon>,
    hospitalDigimonList: seq<Digimon>,
    digimonStorageList: seq<Digimon>,
    bits: int,
    digiData: map<string, int>)

  /** What a service call does: `return;` (undefined), returns a value, or throws. */
  datatype Outcome<T> = Undefined | Returned(value: T) | Thrown(message: string)

  /** The `{ playerData, digimon }` object the remove operations return. */
  datatype Removal = Removal(playerData: PlayerData, digimon: Option<Digimon>)

  /** JavaScript truthiness of an optional string: present and non-empty. */
  predicate Truthy(s: Option<string>) {
    s.Some? && s.value != ""
  }

  /** The `digimon.id === digimonId` test used by every lookup. */
  function MatchesId(id: string): Digimon -> bool {
    (d: Digimon) => d.id == Some(id)
  }

  function ListOf(pd: PlayerData, name: ListName): seq<Digimon> {
    match name
    case Team => pd.digimonList
    case BitFarm => pd.bitFarmDigimonList
    case InTraining => pd.inTrainingDigimonList
    case Hospital => pd.hospitalDigimonList
    case Storage => pd.digimonStorageList
  }

  /** `pd` with one list replaced; every other field is kept. */
  function WithList(pd: PlayerData, name: ListName, list: seq<Digimon>): (r: PlayerData)
    ensures ListOf(r, name) == list
    ensures OnlyListChanged(pd, r, name)
  {
    match name
    case Team => pd.(digimonList := list)
    case BitFarm => pd.(bitFarmDigimonList := list)
    case InTraining => pd.(inTrainingDigimonList := list)
    case Hospital => pd.(hospitalDigimonList := list)
    case Storage => pd.(digimonStorageList := list)
  }

  /** `after` differs from `before` at most in the list called `name`. */
  predicate OnlyListChanged(before: PlayerData, after: PlayerData, name: ListName) {
    && (forall n: ListName :: n != name ==> ListOf(after, n) == ListOf(before, n))
    && after.bits == before.bits
    && after.digiData == before.digiData
  }

  /** Some entry of `list` carries `id`. */
  predicate Holds(list: seq<Digimon>, id: string) {
    exists k :: 0 <= k < |list| && list[k].id == Some(id)
  }

  /**
   * `list.splice(list.findIndex(d => d.id === id), 1)`. With a match, the
   * first matching entry goes; without one, `findIndex` answers -1 and
   * `splice(-1, 1)` drops the LAST entry, whatever its id.
   */
  function SpliceOutById(list: seq<Digimon>, id: string): (r: seq<Digimon>)
    ensures Holds(list, id) ==> |r| == |list| - 1
    ensures !Holds(list, id) && |list| > 0 ==> r == list[..|list| - 1]
    ensures |list| == 0 ==> r == []
  {
    Splice1(list, FindIndex(list, MatchesId(id)))
  }

  /** Reference definition: delete the first entry carrying `id`, keep everything else in order. */
  function RemoveFirst(list: seq<Digimon>, id: string): seq<Digimon> {
    if |list| == 0 then []
    else if list[0].id == Some(id) then list[1..]
    else [list[0]] + RemoveFirst(list[1..], id)
  }

  /** When `id` is present, the splice removes exactly the first entry carrying it. */
  lemma {:induction false} SpliceOutIsRemoveFirst(list: seq<Digimon>, id: string)
    requires Holds(list, id)
    ensures SpliceOutById(list, id) == RemoveFirst(list, id)
  {
    SplicesAtFound(list, id);
    if list[0].id != Some(id) {
      var t := list[1..];
      HoldsInTail(list, id);
      var i := FindIndex(t, MatchesId(id));
      calc {
        SpliceOutById(list, id);
        list[..i + 1] + list[i + 2..];
        { DropAfterHead(list, i); }
        [list[0]] + (t[..i] + t[i + 1..]);
        { SplicesAtFound(t, id); }
        [list[0]] + SpliceOutById(t, id);
        { SpliceOutIsRemoveFirst(t, id); }
        [list[0]] + RemoveFirst(t, id);
      }
    } else {
      assert list[..0] + list[1..] == list[1..];
    }
  }

  /** With a match, the splice cuts out the position `findIndex` reports. */
  lemma SplicesAtFound(list: seq<Digimon>, id: string)
    requires Holds(list, id)
    ensures var i := FindIndex(list, MatchesId(id));
            0 <= i < |list| && SpliceOutById(list, id) == list[..i] + list[i + 1..]
  {
    FoundWhenHeld(list, id);
  }

  /** `findIndex` finds a held id. */
  lemma FoundWhenHeld(list: seq<Digimon>, id: string)
    requires Holds(list, id)
    ensures FindIndex(list, MatchesId(id)) >= 0
  {
    var k :| 0 <= k < |list| && list[k].id == Some(id);
    assert MatchesId(id)(list[k]);
  }

  /** An id held by a list whose head does not carry it is held by the tail, one position earlier. */
  lemma HoldsInTail(list: seq<Digimon>, id: string)
    requires Holds(list, id) && list[0].id != Some(id)
    ensures Holds(list[1..], id)
    ensures FindIndex(list, MatchesId(id)) == FindIndex(list[1..], MatchesId(id)) + 1
  {
    var k :| 0 <= k < |list| && list[k].id == Some(id);
    assert list[1..][k - 1] == list[k];
  }

  /** Dropping position `i + 1` of a list keeps its head in front of `list[1..]` with position `i` dropped. */
  lemma DropAfterHead(list: seq<Digimon>, i: nat)
    requires i + 1 < |list|
    ensures list[..i + 1] + list[i + 2..] == [list[0]] + (list[1..][..i] + list[1..][i + 1..])
  {
    assert list[..i + 1] == [list[0]] + list[1..][..i];
    assert list[i + 2..] == list[1..][i + 1..];
  }

  /** The entry the splice removes is the one `find` returns. */
  lemma SpliceOutRemovesFound(list: seq<Digimon>, id: string)
    requires Holds(list, id)
    ensures var f := Find(list, MatchesId(id));
            f.Some? && f.value.id == Some(id)
            && multiset(SpliceOutById(list, id)) + multiset{f.value} == multiset(list)
  {
    var i := FindIndex(list, MatchesId(id));
    assert MatchesId(id)(list[i]);
    assert list == list[..i] + [list[i]] + list[i + 1..];
  }

  /** Appending a digimon whose id is new, then removing that id, gives back the list. */
  lemma AppendThenSpliceOut(list: seq<Digimon>, d: Digimon, id: string)
    requires d.id == Some(id) && !Holds(list, id)
    ensures SpliceOutById(list + [d], id) == list
  {
    var s := list + [d];
    assert s[|list|] == d;
    var i := FindIndex(s, MatchesId(id));
    assert i == |list| by {
      assert forall k :: 0 <= k < |list| ==> !MatchesId(id)(s[k]);
    }
    assert s[..i] == list;
  }

  /**
   * What removing `id` from `before` must leave: the list without its first
   * entry carrying `id`, or, when no entry carries it, without its last entry.
   */
  predicate RemovedById(before: seq<Digimon>, after: seq<Digimon>, id: string) {
    if Holds(before, id) then after == RemoveFirst(before, id)
    else if |before| == 0 then after == []
    else after == before[..|before| - 1]
  }

  lemma SpliceOutRemoves(list: seq<Digimon>, id: string)
    ensures RemovedById(list, SpliceOutById(list, id), id)
  {
    if Holds(list, id) {
      SpliceOutIsRemoveFirst(list, id);
    }
  }

  /** `list.push(d)` on one of the player's lists. */
  function Appended(pd: PlayerData, name: ListName, d: Digimon): (r: PlayerData)
    ensures ListOf(r, name) == ListOf(pd, name) + [d]
    ensures OnlyListChanged(pd, r, name)
  {
    WithList(pd, name, ListOf(pd, name) + [d])
  }

  /** The `findIndex` + `splice(index, 1)` removal on one of the player's lists. */
  function SplicedOut(pd: PlayerData, name: ListName, id: string): (r: PlayerData)
    ensures RemovedById(ListOf(pd, name), ListOf(r, name), id)
    ensures OnlyListChanged(pd, r, name)
  {
    SpliceOutRemoves(ListOf(pd, name), id);
    WithList(pd, name, SpliceOutById(ListOf(pd, name), id))
  }

  /** Pushing a digimon with a fresh id and then removing that id restores the player data. */
  lemma AppendedThenSplicedOut(pd: PlayerData, name: ListName, d: Digimon, id: string)
    requires d.id == Some(id) && !Holds(ListOf(pd, name), id)
    ensures SplicedOut(Appended(pd, name, d), name, id) == pd
  {
    AppendThenSpliceOut(ListOf(pd, name), d, id);
  }
}
