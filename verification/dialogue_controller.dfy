/**
 * The idle-chat scheduler: every so often it picks one of the team,
 * training and hospital lists (never the one it chatted in last time),
 * falls back to another non-empty one, and starts a dialogue there.
 * Timers and the random source are parameters: `pick` stands for the
 * index `Math.floor(Math.random() * length)` lands on.
 */
module DialogueController {
  import opened Wrappers
  import opened Roster

  /** The lists a dialogue can happen in, in their fixed order. */
  const EligibleLists: seq<ListName> := [Team, InTraining, Hospital]

  const DefaultInitialDelayMs := 10000
  const DefaultMinDelayMs := 25000
  const DefaultMaxDelayMs := 60000

  /** The controller's fields: whether a subscription is live, the last list chatted in, and the delay bounds. */
  datatype Controller = Controller(running: bool, lastList: Option<ListName>, minDelayMs: int, maxDelayMs: int)

  const Initial := Controller(false, None, DefaultMinDelayMs, DefaultMaxDelayMs)

  /** JavaScript truthiness of an optional number: present and non-zero. */
  predicate NumTruthy(x: Option<int>) {
    x.Some? && x.value != 0
  }

  /** The delay bounds `randomBetween` draws from are ordered. */
  predicate DelaysOrdered(c: Controller) {
    c.minDelayMs <= c.maxDelayMs
  }

  /** `start`: does nothing while running; otherwise adopts both delays when both are given, non-zero and ordered. */
  function Start(c: Controller, minDelayMs: Option<int>, maxDelayMs: Option<int>): (r: Controller)
    ensures c.running ==> r == c
    ensures !c.running ==> r.running && r.lastList == c.lastList
    ensures !c.running && NumTruthy(minDelayMs) && NumTruthy(maxDelayMs) && maxDelayMs.value >= minDelayMs.value ==>
              r.minDelayMs == minDelayMs.value && r.maxDelayMs == maxDelayMs.value
    ensures !(NumTruthy(minDelayMs) && NumTruthy(maxDelayMs) && maxDelayMs.value >= minDelayMs.value) ==>
              r.minDelayMs == c.minDelayMs && r.maxDelayMs == c.maxDelayMs
  {
    if c.running then c
    else if NumTruthy(minDelayMs) && NumTruthy(maxDelayMs) && maxDelayMs.value >= minDelayMs.value then
      c.(running := true, minDelayMs := minDelayMs.value, maxDelayMs := maxDelayMs.value)
    else
      c.(running := true)
  }

  /** `stop`: drops the subscription if there is one; the last list and delays are kept. */
  function Stop(c: Controller): (r: Controller)
    ensures !r.running
    ensures r.lastList == c.lastList && r.minDelayMs == c.minDelayMs && r.maxDelayMs == c.maxDelayMs
  {
    c.(running := false)
  }

  /** Whatever is passed to `start`, the delay bounds stay ordered. */
  lemma StartKeepsDelaysOrdered(c: Controller, minDelayMs: Option<int>, maxDelayMs: Option<int>)
    requires DelaysOrdered(c)
    ensures DelaysOrdered(Start(c, minDelayMs, maxDelayMs))
    ensures DelaysOrdered(Stop(c))
  {
  }

  /** Stopping and starting again without arguments resumes with the same settings. */
  lemma StopThenStart(c: Controller)
    requires c.running
    ensures Start(Stop(c), None, None) == c
  {
  }

  /** `getDigimonsByList`: the list for an eligible location, `[]` for any other. */
  function GetDigimonsByList(pd: PlayerData, location: ListName): (r: seq<Digimon>)
    ensures location in EligibleLists ==> r == ListOf(pd, location)
    ensures location !in EligibleLists ==> r == []
  {
    match location
    case Team => pd.digimonList
    case InTraining => pd.inTrainingDigimonList
    case Hospital => pd.hospitalDigimonList
    case _ => []
  }

  /** `randomFrom`: the element at the drawn index, or `undefined` for an empty array. */
  function RandomFrom(options: seq<ListName>, pick: nat): (r: Option<ListName>)
    ensures r.Some? <==> |options| > 0
    ensures r.Some? ==> r.value in options
  {
    if |options| == 0 then None else Some(options[pick % |options|])
  }

  /** The eligible lists other than `last`, in order (`filter(l => l !== lastList)`). */
  function OtherThanLast(last: Option<ListName>): (r: seq<ListName>)
    ensures forall l :: l in r <==> l in EligibleLists && Some(l) != last
    ensures |r| >= 2
  {
    (if Some(Team) != last then [Team] else [])
    + (if Some(InTraining) != last then [InTraining] else [])
    + (if Some(Hospital) != last then [Hospital] else [])
  }

  /** `pickNextLocation`: a random eligible list other than the last one (the `??` fallback is never needed). */
  function PickNextLocation(c: Controller, pick: nat): (loc: ListName)
    ensures loc in EligibleLists
    ensures Some(loc) != c.lastList
  {
    var chosen := RandomFrom(OtherThanLast(c.lastList), pick);
    chosen.GetOr(EligibleLists[0])
  }

  /** The eligible lists other than `start` that hold a digimon, in order. */
  function AvailableOtherThan(pd: PlayerData, start: ListName): (r: seq<ListName>)
    ensures forall l :: l in r <==> l in EligibleLists && l != start && |GetDigimonsByList(pd, l)| > 0
  {
    (if Team != start && |GetDigimonsByList(pd, Team)| > 0 then [Team] else [])
    + (if InTraining != start && |GetDigimonsByList(pd, InTraining)| > 0 then [InTraining] else [])
    + (if Hospital != start && |GetDigimonsByList(pd, Hospital)| > 0 then [Hospital] else [])
  }

  /** `findNextAvailableLocation`: a random other eligible list that is not empty, or nothing when there is none. */
  function FindNextAvailableLocation(pd: PlayerData, start: ListName, pick: nat): (r: Option<ListName>)
    ensures r.Some? ==> r.value in EligibleLists && r.value != start && |GetDigimonsByList(pd, r.value)| > 0
    ensures r.None? <==> forall l :: l in EligibleLists && l != start ==> |GetDigimonsByList(pd, l)| == 0
  {
    var available := AvailableOtherThan(pd, start);
    if |available| > 0 then
      RandomFrom(available, pick)
    else
      assert forall l :: l in EligibleLists && l != start ==> l !in available;
      None
  }

  /** What one round does: nothing, or a dialogue among the digimon of one list. */
  datatype Round = Skipped | Dialogue(location: ListName, digimons: seq<Digimon>)

  /** `triggerDialogue`: an empty list yields nothing; otherwise the list is remembered and chatted in. */
  function TriggerDialogue(c: Controller, pd: PlayerData, location: ListName): (r: (Controller, Round))
    ensures |GetDigimonsByList(pd, location)| == 0 ==> r == (c, Skipped)
    ensures |GetDigimonsByList(pd, location)| > 0 ==>
              r == (c.(lastList := Some(location)), Dialogue(location, GetDigimonsByList(pd, location)))
  {
    var digimons := GetDigimonsByList(pd, location);
    if |digimons| == 0 then (c, Skipped)
    else (c.(lastList := Some(location)), Dialogue(location, digimons))
  }

  /** Every eligible list is empty. */
  predicate NobodyToChat(pd: PlayerData) {
    |pd.digimonList| == 0 && |pd.inTrainingDigimonList| == 0 && |pd.hospitalDigimonList| == 0
  }

  /** A non-empty eligible list means somebody can chat. */
  lemma SomebodyAt(pd: PlayerData, l: ListName)
    requires |GetDigimonsByList(pd, l)| > 0
    ensures !NobodyToChat(pd)
  {
  }

  /** If nothing is available besides `start` and `start` is empty, nobody can chat. */
  lemma NobodyWhenNothingAvailable(pd: PlayerData, start: ListName)
    requires |GetDigimonsByList(pd, start)| == 0
    requires forall l :: l in EligibleLists && l != start ==> |GetDigimonsByList(pd, l)| == 0
    ensures NobodyToChat(pd)
  {
    assert Team in EligibleLists && InTraining in EligibleLists && Hospital in EligibleLists;
  }

  /** `runOnce`, with `pick` and `fallbackPick` the two random draws it may make. */
  function RunOnce(c: Controller, pd: PlayerData, pick: nat, fallbackPick: nat): (r: (Controller, Round))
    ensures r.1.Skipped? <==> NobodyToChat(pd)
    ensures r.1.Skipped? ==> r.0 == c
    ensures r.1.Dialogue? ==>
              && r.1.location in EligibleLists
              && |r.1.digimons| > 0
              && r.1.digimons == ListOf(pd, r.1.location)
              && r.0 == c.(lastList := Some(r.1.location))
    ensures r.1.Dialogue? && r.1.location != PickNextLocation(c, pick) ==>
              |ListOf(pd, PickNextLocation(c, pick))| == 0
  {
    var location := PickNextLocation(c, pick);
    if |GetDigimonsByList(pd, location)| == 0 then
      var next := FindNextAvailableLocation(pd, location, fallbackPick);
      if next.None? then
        NobodyWhenNothingAvailable(pd, location);
        (c, Skipped)
      else
        SomebodyAt(pd, next.value);
        TriggerDialogue(c, pd, next.value)
    else
      SomebodyAt(pd, location);
      TriggerDialogue(c, pd, location)
  }

  /** When all three lists are populated, two rounds in a row never chat in the same list. */
  lemma ConsecutiveRoundsMove(c: Controller, pd: PlayerData, p1: nat, f1: nat, p2: nat, f2: nat)
    requires |pd.digimonList| > 0 && |pd.inTrainingDigimonList| > 0 && |pd.hospitalDigimonList| > 0
    ensures var first := RunOnce(c, pd, p1, f1);
            var second := RunOnce(first.0, pd, p2, f2);
            first.1.Dialogue? && second.1.Dialogue? && first.1.location != second.1.location
  {
    RoundAtPick(c, pd, p1, f1);
    var first := RunOnce(c, pd, p1, f1);
    RoundAtPick(first.0, pd, p2, f2);
  }

  /** When all three lists are populated, a round chats in the list first drawn and remembers it. */
  lemma RoundAtPick(c: Controller, pd: PlayerData, pick: nat, fallbackPick: nat)
    requires |pd.digimonList| > 0 && |pd.inTrainingDigimonList| > 0 && |pd.hospitalDigimonList| > 0
    ensures var r := RunOnce(c, pd, pick, fallbackPick);
            && r.1.Dialogue? && r.1.location == PickNextLocation(c, pick)
            && r.0.lastList == Some(r.1.location)
  {
    var loc := PickNextLocation(c, pick);
    assert |GetDigimonsByList(pd, loc)| > 0;
  }
}
