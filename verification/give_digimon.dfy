/**
 * The debug dialog that hands the player any base digimon: rank toggles
 * and a search box filter the list, and the level field is clamped.
 */
module GiveDigimon {
  import opened Wrappers
  import opened JsText
  import opened JsArray

  datatype BaseEntry = BaseEntry(seed: string, name: string, rank: string)

  /** The six "show rank" switches; all start on. */
  datatype RankToggles = RankToggles(freshRank: bool, inTraining: bool, rookie: bool,
                                     champion: bool, ultimate: bool, mega: bool)

  const AllShown := RankToggles(true, true, true, true, true, true)

  /** `rankSignalMap[rank]`: the switch for one of the six ranks, or nothing for any other rank. */
  function ToggleFor(t: RankToggles, rank: string): (r: Option<bool>)
    ensures r.Some? <==> rank in ["Fresh", "In-Training", "Rookie", "Champion", "Ultimate", "Mega"]
  {
    if rank == "Fresh" then Some(t.freshRank)
    else if rank == "In-Training" then Some(t.inTraining)
    else if rank == "Rookie" then Some(t.rookie)
    else if rank == "Champion" then Some(t.champion)
    else if rank == "Ultimate" then Some(t.ultimate)
    else if rank == "Mega" then Some(t.mega)
    else None
  }

  /** What `filteredDigimonList` yields: the list, or the TypeError of calling an undefined switch. */
  datatype Listing = Listed(entries: seq<BaseEntry>) | TypeError

  /** An entry is shown when its rank's switch is on and its lower-cased name contains the lower-cased term. */
  predicate Shown(t: RankToggles, term: string, e: BaseEntry) {
    && ToggleFor(t, e.rank) == Some(true)
    && (term == "" || Includes(LowerStr(e.name), LowerStr(term)))
  }

  /** Every entry's rank has a switch. */
  predicate AllRanksKnown(t: RankToggles, all: seq<BaseEntry>) {
    forall k :: 0 <= k < |all| ==> ToggleFor(t, all[k].rank).Some?
  }

  function ShownBy(t: RankToggles, term: string): BaseEntry -> bool {
    (e: BaseEntry) => Shown(t, term, e)
  }

  /** The `filter` callback applied front to back; an unknown rank throws. */
  function FilterOrThrow(all: seq<BaseEntry>, t: RankToggles, term: string): (r: Listing)
    ensures r.TypeError? <==> !AllRanksKnown(t, all)
    // when nothing throws, exactly `Array.filter`: order and duplicates kept
    ensures r.Listed? ==> r.entries == Filter(all, ShownBy(t, term))
    ensures r.Listed? ==> forall e :: e in r.entries <==> e in all && Shown(t, term, e)
  {
    if |all| == 0 then Listed([])
    else
      var rest := FilterOrThrow(all[1..], t, term);
      assert AllRanksKnown(t, all) <==> ToggleFor(t, all[0].rank).Some? && AllRanksKnown(t, all[1..]) by {
        assert forall k :: 1 <= k < |all| ==> all[k] == all[1..][k - 1];
      }
      assert forall e :: e in all <==> e == all[0] || e in all[1..] by {
        assert all == [all[0]] + all[1..];
      }
      if ToggleFor(t, all[0].rank).None? then TypeError
      else if rest.TypeError? then TypeError
      else if Shown(t, term, all[0]) then Listed([all[0]] + rest.entries)
      else rest
  }

  /** `filteredDigimonList`: an empty source gives an empty list; otherwise the filter above. */
  function FilteredDigimonList(all: seq<BaseEntry>, t: RankToggles, searchTerm: string): (r: Listing)
    ensures |all| == 0 ==> r == Listed([])
    ensures r.TypeError? <==> !AllRanksKnown(t, all)
    ensures r.Listed? ==> r.entries == Filter(all, ShownBy(t, searchTerm))
    ensures r.Listed? ==> forall e :: e in r.entries <==> e in all && Shown(t, searchTerm, e)
  {
    if |all| == 0 then Listed([]) else FilterOrThrow(all, t, searchTerm)
  }

  /** With every switch on and no search term, every entry of a list of known ranks is shown. */
  lemma DefaultsShowAll(all: seq<BaseEntry>)
    requires AllRanksKnown(AllShown, all)
    ensures FilteredDigimonList(all, AllShown, "") == Listed(all)
  {
    forall k | 0 <= k < |all| ensures ShownBy(AllShown, "")(all[k]) {
      assert ToggleFor(AllShown, all[k].rank).Some?;
    }
    FilterKeepsAll(all, ShownBy(AllShown, ""));
  }

  /** Lower-casing the search term makes the search case-insensitive in the term. */
  lemma SearchIgnoresTermCase(t: RankToggles, e: BaseEntry, a: string, b: string)
    requires LowerStr(a) == LowerStr(b) && (a == "" <==> b == "")
    ensures Shown(t, a, e) <==> Shown(t, b, e)
  {
  }

  /** `validateLevel`: `Math.max(1, Math.min(value, 100))`. */
  function ValidateLevel(value: int): (level: int)
    ensures 1 <= level <= 100
    ensures 1 <= value <= 100 ==> level == value
    ensures value < 1 ==> level == 1
    ensures value > 100 ==> level == 100
  {
    var capped := if value < 100 then value else 100;
    if 1 < capped then capped else 1
  }

  /** Validating a validated level changes nothing. */
  lemma ValidateLevelIdempotent(value: int)
    ensures ValidateLevel(ValidateLevel(value)) == ValidateLevel(value)
  {
  }

  /** `onOpen`: the base data (already sorted by name) is loaded only into an empty list. */
  function OnOpen(selectable: seq<BaseEntry>, loaded: seq<BaseEntry>): (r: seq<BaseEntry>)
    ensures |selectable| > 0 ==> r == selectable
    ensures |selectable| == 0 ==> r == loaded
  {
    if |selectable| != 0 then selectable else loaded
  }

  /** Once something is loaded, opening again never reloads. */
  lemma OnOpenLoadsOnce(selectable: seq<BaseEntry>, first: seq<BaseEntry>, second: seq<BaseEntry>)
    requires |OnOpen(selectable, first)| > 0
    ensures OnOpen(OnOpen(selectable, first), second) == OnOpen(selectable, first)
  {
  }
}
