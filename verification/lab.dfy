/**
 * The lab screen: Digi Data entries filtered by rank and "obtained", laid
 * out in rows of a fixed number of columns, and the filter controls.
 */
module Lab {
  import opened JsArray

  /** A base digimon with the player's Digi Data for it. */
  datatype LabEntry = LabEntry(seed: string, name: string, rank: string, amount: int, cost: int, obtained: bool)

  datatype SortKey = ByName | ByRank | ByAmount
  datatype SortDirection = Asc | Desc

  /** The filter controls, with the rank check-boxes keyed by rank. */
  datatype LabFilters = LabFilters(
    sortBy: SortKey,
    filterObtained: bool,
    sortDirection: SortDirection,
    selectedRanks: seq<string>,
    rankForm: map<string, bool>)

  function IsObtained(): LabEntry -> bool {
    (e: LabEntry) => e.obtained
  }

  function RankIn(ranks: seq<string>): LabEntry -> bool {
    (e: LabEntry) => e.rank in ranks
  }

  /** `obtainedDigimonsAmount`: how many entries are obtained. */
  function ObtainedDigimonsAmount(entries: seq<LabEntry>): (n: nat)
    ensures n <= |entries|
    ensures n == |Filter(entries, IsObtained())|
  {
    Count(entries, IsObtained())
  }

  /** The test an entry must pass to be listed: its rank is selected (or none is), and it is obtained (or that switch is off). */
  function Keeps(selectedRanks: seq<string>, filterObtained: bool): LabEntry -> bool {
    (e: LabEntry) => (|selectedRanks| == 0 || e.rank in selectedRanks) && (!filterObtained || e.obtained)
  }

  /** The filtering part of `filteredDigimons` (before sorting): the two `filter` calls, each applied only when its control is set. */
  function FilterEntries(entries: seq<LabEntry>, selectedRanks: seq<string>, filterObtained: bool): (r: seq<LabEntry>)
    // one order-preserving pass with the combined test: order and duplicates are kept
    ensures r == Filter(entries, Keeps(selectedRanks, filterObtained))
    ensures forall e :: e in r <==>
              e in entries && (|selectedRanks| == 0 || e.rank in selectedRanks) && (!filterObtained || e.obtained)
  {
    var keep := Keeps(selectedRanks, filterObtained);
    var byRank := if |selectedRanks| > 0 then Filter(entries, RankIn(selectedRanks)) else entries;
    var r := if filterObtained then Filter(byRank, IsObtained()) else byRank;
    assert r == Filter(entries, keep) by {
      if |selectedRanks| > 0 && filterObtained {
        FilterConj(entries, RankIn(selectedRanks), IsObtained(), keep);
      } else if |selectedRanks| > 0 {
        FilterExt(entries, RankIn(selectedRanks), keep);
      } else if filterObtained {
        FilterExt(entries, IsObtained(), keep);
      } else {
        FilterKeepsAll(entries, keep);
      }
    }
    assert forall e :: e in r <==> e in entries && keep(e) by {
      forall e | e in r ensures e in entries && keep(e) {
        var k :| 0 <= k < |r| && r[k] == e;
      }
    }
    r
  }

  /** With no rank selected and only the obtained switch on, the list shown has `obtainedDigimonsAmount` entries. */
  lemma ObtainedCountMatchesFilter(entries: seq<LabEntry>)
    ensures |FilterEntries(entries, [], true)| == ObtainedDigimonsAmount(entries)
  {
  }

  /** `Math.max(1, columns)`. */
  function Cols(columns: int): (c: nat)
    ensures c >= 1 && (columns >= 1 ==> c == columns)
  {
    if columns < 1 then 1 else columns
  }

  /** Rows laid end to end. */
  function Flatten<T>(rows: seq<seq<T>>): seq<T> {
    if |rows| == 0 then [] else Flatten(rows[..|rows| - 1]) + rows[|rows| - 1]
  }

  /** `src.slice(i, i + cols)`: the end is clamped to the length. */
  function SliceFrom<T>(src: seq<T>, i: nat, cols: nat): (r: seq<T>)
    requires i <= |src|
    ensures |r| <= cols
    ensures i + cols <= |src| ==> |r| == cols
  {
    if i + cols <= |src| then src[i..i + cols] else src[i..]
  }

  /** Row shape: every row holds `cols` entries except the last, which holds between one and `cols`. */
  predicate RowShape<T>(rows: seq<seq<T>>, cols: nat) {
    && (forall k :: 0 <= k < |rows| ==> 0 < |rows[k]| <= cols)
    && (forall k :: 0 <= k < |rows| - 1 ==> |rows[k]| == cols)
  }

  /** `virtualRows`: the filtered entries cut into rows of `max(1, columns)`. */
  method VirtualRows(src: seq<LabEntry>, columns: int) returns (rows: seq<seq<LabEntry>>)
    ensures Flatten(rows) == src
    ensures RowShape(rows, Cols(columns))
    ensures |src| == 0 <==> |rows| == 0
  {
    var cols := Cols(columns);
    rows := [];
    var i := 0;
    while i < |src|
      invariant i <= |src| && Flatten(rows) == src[..i]
      invariant forall k :: 0 <= k < |rows| ==> |rows[k]| == cols
      invariant |rows| == 0 <==> i == 0
      decreases |src| - i
    {
      var row := SliceFrom(src, i, cols);
      var next := if i + cols <= |src| then i + cols else |src|;
      assert src[..next] == src[..i] + row;
      if next < i + cols {
        rows := rows + [row];
        i := next;
        assert Flatten(rows) == src;
        assert RowShape(rows, cols) by {
          assert forall k :: 0 <= k < |rows| - 1 ==> |rows[k]| == cols;
        }
        return;
      }
      rows := rows + [row];
      i := next;
    }
  }

  /** A selection with no rank listed twice. */
  predicate NoDuplicates(s: seq<string>) {
    forall a, b :: 0 <= a < b < |s| ==> s[a] != s[b]
  }

  function IsRank(rank: string): string -> bool {
    (x: string) => x == rank
  }

  /** `updateSelectedRanks`: a checked rank is pushed if absent; an unchecked one is spliced out if present. */
  function UpdateSelectedRanks(current: seq<string>, rank: string, value: bool): (r: seq<string>)
    ensures value ==> rank in r
    ensures forall x :: x != rank ==> (x in r <==> x in current)
    ensures NoDuplicates(current) ==> NoDuplicates(r) && (rank in r <==> value)
  {
    var idx := FindIndex(current, IsRank(rank));
    if value && idx == -1 then
      current + [rank]
    else if !value && idx != -1 then
      var r := current[..idx] + current[idx + 1..];
      assert current == current[..idx] + [current[idx]] + current[idx + 1..];
      assert NoDuplicates(current) ==> forall j :: 0 <= j < |r| ==> r[j] != rank by {
        if NoDuplicates(current) {
          forall j | 0 <= j < |r| ensures r[j] != rank {
            if j < idx {
              assert r[j] == current[j];
            } else {
              assert r[j] == current[j + 1];
            }
          }
        }
      }
      r
    else
      assert value ==> rank in current by {
        if value {
          assert IsRank(rank)(current[idx]);
        }
      }
      assert !value ==> forall j :: 0 <= j < |current| ==> current[j] != rank by {
        if !value {
          assert forall j :: 0 <= j < |current| ==> !IsRank(rank)(current[j]);
        }
      }
      current
  }

  /** The filter controls the screen starts with. */
  function ResetFilters(f: LabFilters): (r: LabFilters)
    ensures r.sortBy == ByName && r.sortDirection == Asc
    ensures !r.filterObtained && r.selectedRanks == []
    ensures r.rankForm.Keys == f.rankForm.Keys
    ensures forall k :: k in r.rankForm ==> !r.rankForm[k]
  {
    LabFilters(ByName, false, Asc, [], map k | k in f.rankForm :: false)
  }

  /** After a reset no rank filter applies, so only the obtained switch (now off) could hide entries. */
  lemma ResetShowsEverything(f: LabFilters, entries: seq<LabEntry>)
    ensures var r := ResetFilters(f);
            FilterEntries(entries, r.selectedRanks, r.filterObtained) == entries
  {
    FilterKeepsAll(entries, Keeps([], false));
  }
}
