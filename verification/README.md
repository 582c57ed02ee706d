# digimon-ng game core in Dafny

This project models the logic core of digimon-ng, a desktop Digimon-raising game.
The game is an Angular front end inside a Tauri shell.
The model covers:

- the shell's start-up check that the local Ollama server is up (`ensure_ollama`);
- the text handling of the AI dialogue generator: the streamed-JSON scanner, the first-object extractor, NDJSON line framing of the download stream, and the id-to-name mapping;
- the configuration data source: settings patches, their side effects, and the local-model install state machine;
- the global game state: roster queries, bit costs, Digi Data rewards, the interval ticker, battle turn order, and evolution routes;
- the player-data services for team, storage, bit farm, training and hospital, plus the older data source;
- stat caps;
- the dialogue controller that picks where digimon chat;
- the UI rules the game relies on: the HP badge and delete-on-hover of the status card, the age line of the details dialog, the three modal services, toasts, keyboard shortcuts, the lab filters and rows, and the debug "give digimon" list;
- the `bump-version` release script's argument check and manifest rewrite.

Every operation is a pure function, or a method with loops, over immutable datatypes.
JavaScript mutation in place becomes a returned new value.
`return;` (undefined), a returned value and a thrown error are the three cases of an `Outcome`.
Randomness (`Math.random`), the clock, HTTP responses and the translation service become parameters.
`JsText` and `JsArray` model the JavaScript built-ins the code calls: `trim`, `split`/`join`, ASCII case mapping, `indexOf`, `findIndex`, `find`, `filter` and `splice` with its negative-index rule.
`Wrappers` holds `Option`.
The Dafny files are flat, one module per source unit.

## Model

| member | source | states |
|---|---|---|
| OllamaSupervisor.EnsureOllama | src-tauri/src/main.rs:7-21 | ready exactly when one of the eleven probes (the first and ten retries) succeeds; an immediate success neither spawns nor sleeps; otherwise exactly one spawn, probes stop at the first success, and every failed retry, the tenth included, is followed by a 400 ms sleep, so a failure costs 10 × 400 ms = 4000 ms |
| DialogueText.Step | src/app/services/ai.service.ts:422-459 | one scan step keeps depth, string and escape state consistent; an object closes only on a top-level `}` that ends an open object |
| DialogueText.StepInsideString | src/app/services/ai.service.ts:422-459 | inside a string only escapes and the closing quote change the state; depth never moves and nothing closes |
| DialogueText.StepOutsideString | src/app/services/ai.service.ts:422-459 | outside strings only braces move the depth, by one; a stray `}` at depth 0 is ignored; `}` at depth 1 closes an object |
| DialogueText.ScanPrefix | src/app/services/ai.service.ts:414-463 | reference fold of the scan step over a prefix: the scanner state stays consistent, and the unconsumed text starts no later than the prefix end or the open object |
| DialogueText.ScanOne | src/app/services/ai.service.ts:422-459 | one loop iteration is exactly one `Step`: the scanner moves to the step's next state, and the object from `currentStart` to this `}` is emitted (and `remainingStart` moves past it) exactly when the step closes one |
| DialogueText.ExtractBalancedJsonObjects | src/app/services/ai.service.ts:414-463 | the objects and the remaining text are exactly those of the reference fold `ScanPrefix` over the whole buffer; the objects are brace-framed slices of the buffer, in order and non-overlapping; `remaining` is the text after the last one, and the whole buffer when none closed |
| DialogueText.InsidePlainObject | src/app/services/ai.service.ts:444-458 | while a quote-free object opened at top level is being read, the scanner's depth is the open-minus-close brace count and the object stays open |
| DialogueText.PlainObjectEmitted | src/app/services/ai.service.ts:444-458 | a quote-free balanced object starting at top level is emitted whole when its last brace is read, and the scanner is back at top level |
| DialogueText.NoOpenBraceNoObject | src/app/services/ai.service.ts:414-463 | text without `{` yields no object and leaves the whole buffer unconsumed |
| DialogueText.SinglePlainObject | src/app/services/ai.service.ts:414-463 | a reply that is one quote-free balanced object is returned as that single object, with nothing remaining |
| DialogueText.EmptyObjectFound | src/app/services/ai.service.ts:414-463 | `{}` is found as one object |
| DialogueText.BraceInStringIgnored | src/app/services/ai.service.ts:425-442 | a `}` inside a string literal does not close the object: `{"a":"}"}` comes out whole |
| DialogueText.FirstObjectIn | src/app/services/ai.service.ts:407-411 | empty, or a span starting with `{` and ending with `}`; non-empty exactly when a `{` occurs before the last `}` |
| DialogueText.RemoveAll | src/app/services/ai.service.ts:406 | the global replace of a code fence by the empty string never lengthens the text |
| DialogueText.RemoveAllOccurrences | src/app/services/ai.service.ts:406 | text with no occurrence of the fence is unchanged; text with an occurrence loses at least one whole copy |
| DialogueText.RemoveAllKeepsOrder | src/app/services/ai.service.ts:406 | what the replace leaves is a subsequence of the input: characters are only dropped, never reordered or invented |
| DialogueText.SanitizeWithoutFences | src/app/services/ai.service.ts:406 | text without a backtick is only trimmed: fence removal does nothing to it |
| DialogueText.FirstObjectPlacement | src/app/services/ai.service.ts:407-411 | a non-empty result runs from the first `{` to the last `}` of the text |
| DialogueText.FirstObjectTrimmed | src/app/services/ai.service.ts:411 | the closing `trim()` leaves the extracted span unchanged |
| DialogueText.ExtractFirstJsonObject | src/app/services/ai.service.ts:405-412 | after fence removal and trimming, the result is empty or brace-framed |
| DialogueText.FrameSegment | src/app/services/ai.service.ts:121-123 | no complete line and not the carried tail holds a newline, and lines plus tail rejoin to carry + segment |
| DialogueText.IsNonEmptyString | src/app/services/ai.service.ts:397-399 | true exactly for a string with a non-whitespace character |
| DialogueText.IsNonEmptyStringTrims | src/app/services/ai.service.ts:397-399 | agrees with `value.trim().length > 0` |
| DialogueText.OnDownloadProgress | src/app/services/ai.service.ts:113-123 | as written: a blank or missing `partialText` leaves the state alone; any other event moves `processedLength` to the full text; a blank new segment leaves carry and lines untouched; otherwise the new lines extend the old ones, hold no newline, and together with the new carry rejoin to the old carry plus the segment |
| DialogueText.AsWrittenAccountsNonBlank | src/app/services/ai.service.ts:113-123 | as written, an event whose new segment has a visible character keeps lines plus carry equal to everything consumed |
| DialogueText.FirstRecordArrives | src/app/services/ai.service.ts:113-123 | the first event `{}` is carried whole, with no line handed on |
| DialogueText.NewlineArrivesAlone | src/app/services/ai.service.ts:117-119 | a later event whose only new text is `\n` advances the consumed count but frames nothing |
| DialogueText.LoneNewlineIsLost | src/app/services/ai.service.ts:117-123 | as written, after `{}` and then `{}\n` the newline is consumed but framed nowhere: lines and carry no longer rejoin to the text consumed |
| DialogueText.OnDownloadProgressFixed | src/app/services/ai.service.ts:113-123 | corrected handler: the consumed count advances only together with framing the new text |
| DialogueText.FixedHandlerFrames | src/app/services/ai.service.ts:121-123 | the corrected handler frames every non-empty new segment onto the carry |
| DialogueText.FixedHandlerAccounts | src/app/services/ai.service.ts:113-123 | with the corrected handler, the handed-on lines plus the carry always rejoin to exactly the text consumed so far |
| DialogueText.ActiveLanguageCode | src/app/services/ai.service.ts:235 | the lower-cased active language, or `en` when it is missing or empty; never empty |
| DialogueText.ActiveLanguageCodeStable | src/app/services/ai.service.ts:235 | a resolved code resolves to itself: it is already lower-case and never empty |
| DialogueText.ResolveCurrentLanguage | src/app/services/ai.service.ts:234-239 | the label of the first language option whose value is the active code, else `English` |
| DialogueText.BuildIdToNameMap | src/app/services/ai.service.ts:401-403 | the keys are exactly the lower-cased participant ids |
| DialogueText.MapAgreesWithLastName | src/app/services/ai.service.ts:401-403 | each key maps to the name of the last participant with that lower-cased id, as `new Map` overwrites |
| DialogueText.MapAgreesWithLastNameAll | src/app/services/ai.service.ts:401-403 | the same, for every key at once |
| DialogueText.MapRealIds | src/app/services/ai.service.ts:371-379 | ids and texts are kept; a line's speaker becomes the mapped name when its lower-cased id is known and the name is non-empty, and is kept otherwise |
| ConfigState.Merge | src/app/state/config-state.datasource.ts:91 | `{ ...previous, ...partial }`: every field the partial gives overrides, every field it omits keeps the previous value |
| ConfigState.MergeIdempotent | src/app/state/config-state.datasource.ts:91 | applying the same partial twice is applying it once |
| ConfigState.MergeNoFields | src/app/state/config-state.datasource.ts:91 | an empty partial leaves the configuration unchanged |
| ConfigState.ChangedEffects | src/app/state/config-state.datasource.ts:123-136 | each effect pushes the new value of a field that changed, in the fixed order fullscreen, audio, theme, language; every changed field of the four gets its effect |
| ConfigState.Patch | src/app/state/config-state.datasource.ts:89-94 | the new configuration is the merge; the effects are exactly one per effectful field that changed, in the fixed order, so every such change fires and nothing else does |
| ConfigState.PatchQuietWhenNothingEffectfulChanges | src/app/state/config-state.datasource.ts:89-94 | re-sending current values, or touching only `enableLocalAi`, issues no effect |
| ConfigState.Initialize | src/app/state/config-state.datasource.ts:77-86 | with the persisted marker and no model, an install resumes at `0%`; with the model present, the marker is cleared; the result is coherent |
| ConfigState.RequestInstall | src/app/state/config-state.datasource.ts:168-172 | a no-op while installing or once installed; otherwise installing at `0%` with the marker set |
| ConfigState.OnInstallEvent | src/app/state/config-state.datasource.ts:141-203 | a failed invoke clears everything; progress sets the marker, installing and the text; done acts only while installing; a detection tick replaces both detections |
| ConfigState.EventsKeepCoherent | src/app/state/config-state.datasource.ts:141-203 | every event keeps the marker, the installing flag and the progress text coherent |
| ConfigState.ReplayKeepsCoherent | src/app/state/config-state.datasource.ts:141-203 | any sequence of events from a coherent state stays coherent |
| ConfigState.GuardLocalAi | src/app/state/config-state.datasource.ts:45-49 | local AI stays enabled only when both Ollama and the model are detected; otherwise the flag is switched off and nothing else changes |
| ConfigState.Step | src/app/state/config-state.datasource.ts:45-49 | after any install event and the guard, local AI is enabled only if it can be toggled |
| ConfigState.UserPatch | src/app/state/config-state.datasource.ts:89-94 | a user patch followed by the guard never leaves local AI enabled without the model, and is the plain merge when toggling is allowed |
| GlobalState.AllPlayerDigimonList | src/app/state/global-state.datasource.ts:125-132 | the team, training, farm and hospital lists follow each other in that order, and together with storage they account for `totalDigimonCount` |
| GlobalState.AllPlayerDigimonMembership | src/app/state/global-state.datasource.ts:125-132 | a digimon is active exactly when it sits in team, training, farm or hospital |
| GlobalState.FindIn | src/app/state/global-state.datasource.ts:436-446 | nothing found exactly when no searched list holds the id; otherwise the first list holding it, and that list's first match |
| GlobalState.FindDigimonInLists | src/app/state/global-state.datasource.ts:410-447 | none exactly when no list holds the id; a hit carries the id and lies in the list reported |
| GlobalState.TeamComesFirst | src/app/state/global-state.datasource.ts:413-434 | a digimon on the team is always reported from the team |
| GlobalState.StorageComesLast | src/app/state/global-state.datasource.ts:413-434 | storage is reported only when none of the other four lists holds the id |
| GlobalState.GetBitCost | src/app/state/global-state.datasource.ts:882-892 | 1000 exactly for a rank outside the table; otherwise one of the table costs |
| GlobalState.BitCostGrowsWithRank | src/app/state/global-state.datasource.ts:883-890 | higher ranks cost strictly more |
| GlobalState.AddCapped | src/app/state/global-state.datasource.ts:729 | one gain sets its seed to min(current + amount, 999), with a missing seed counting as 0, and leaves every other seed alone |
| GlobalState.ApplyGainsPerSeed | src/app/state/global-state.datasource.ts:727-730 | each seed's final amount depends only on its own gains, folded in order with the cap |
| GlobalState.ApplyGainsBounds | src/app/state/global-state.datasource.ts:727-730 | every seed that gained ends at most 999; untouched seeds keep their amount |
| GlobalState.UpdateDigiData | src/app/state/global-state.datasource.ts:725-730 | the loop computes the in-order fold of the gains |
| GlobalState.CalculateRewards | src/app/state/global-state.datasource.ts:715-736 | bits grow by the total, Digi Data per seed by its capped gains, and nothing else changes |
| GlobalState.Tick | src/app/state/global-state.datasource.ts:825-835 | the countdown stays in 1..period, the first emission never fires, and `isFirstRun` is off afterwards |
| GlobalState.TickFiresOnMultiples | src/app/state/global-state.datasource.ts:820-838 | the action runs exactly at emissions that are positive multiples of the period |
| GlobalState.BaseDigimonBySeed | src/app/services/digimon.service.ts:19-21 | the first base entry with the seed; none exactly when no entry has it |
| GlobalState.Lineage | src/app/state/global-state.datasource.ts:678-694 | the reference walk back through first degenerate seeds: starts at the base, each step is the previous form, and it stops only for lack of one (or the fuel bound) |
| GlobalState.LineageStep | src/app/state/global-state.datasource.ts:684-693 | a position has a successor exactly when fuel remains and a previous form exists |
| GlobalState.GenerateEvolutionRoute | src/app/state/global-state.datasource.ts:674-697 | the route is the lineage reversed (earliest form first), as `unshift` builds it, and ends with the base digimon |
| BattleTurns.RepopulateTurnOrder | src/app/state/global-state.datasource.ts:543-547 | the queue followed by five copies of the base order, the same sequence `nextTurn` reads after a refill |
| BattleTurns.RepeatFive | src/app/state/global-state.datasource.ts:544-546 | five repeats of the base order are the base order appended five times |
| BattleTurns.QueueForTurn | src/app/state/global-state.datasource.ts:574-576 | a queue with more than five entries is kept; otherwise it is followed by five copies of the base order: the queue first, then the base order, repeating with period `|base|`, five times in length |
| BattleTurns.Dispatch | src/app/state/global-state.datasource.ts:587-596 | a player entry shows the attack button, an enemy entry attacks |
| BattleTurns.NextTurn | src/app/state/global-state.datasource.ts:554-597 | an inactive battle just ends; victory is checked before defeat; otherwise the refilled queue's front entry acts, or the battle ends when the queue is empty; every ending leaves the battle inactive, as `endBattle` does |
| BattleTurns.VictoryBeforeDefeat | src/app/state/global-state.datasource.ts:561-566 | an empty enemy side counts as defeated, so the result is victory |
| BattleTurns.NonEmptyBaseNeverStalls | src/app/state/global-state.datasource.ts:574-584 | with a non-empty base order an undecided battle always hands out a turn |
| LegacyState.AddDigimonToTraining | src/app/global-state.datasource.ts:125-132 | push onto training with no id check; nothing else changes |
| LegacyState.WithoutId | src/app/global-state.datasource.ts:135 | the filter drops every entry with the id and keeps every other entry |
| LegacyState.RemoveDigimonFromTraining | src/app/global-state.datasource.ts:134-140 | training loses every entry with the id; nothing else changes |
| LegacyState.RemoveDigimonFromList | src/app/global-state.datasource.ts:142-148 | the team loses every entry with the id; nothing else changes |
| LegacyState.AbsentIdChangesNothing | src/app/global-state.datasource.ts:135 | filtering out an absent id leaves the list as it was |
| LegacyState.WithoutIdAppend | src/app/global-state.datasource.ts:135 | filtering distributes over concatenation |
| LegacyState.TrainingAddThenRemove | src/app/global-state.datasource.ts:125-140 | adding a fresh digimon to training and removing it restores the player data |
| Roster.SpliceOutById | src/app/state/services/storage.service.ts:43-51 | `findIndex` then `splice(index, 1)`: one fewer entry when the id is held; the last entry goes when it is not |
| Roster.SpliceOutIsRemoveFirst | src/app/state/services/storage.service.ts:43-51 | with the id present, the splice deletes exactly the first entry carrying it |
| Roster.SpliceOutRemovesFound | src/app/state/services/storage.service.ts:20-35 | the removed entry is the one `find` returns |
| Roster.AppendThenSpliceOut | src/app/state/services/storage.service.ts:37-52 | pushing a digimon with a fresh id and splicing that id out gives back the list |
| Roster.Appended | src/app/state/services/storage.service.ts:39 | `push` on one of the five lists: that list gains the digimon at the end, nothing else changes |
| Roster.SplicedOut | src/app/state/services/storage.service.ts:43-51 | the splice removal on one of the five lists: that list loses its first match (or its last entry), nothing else changes |
| Roster.SpliceOutRemoves | src/app/state/services/storage.service.ts:43-51 | the splice result is the list with the first match removed when one exists, and without its last entry otherwise |
| Roster.AppendedThenSplicedOut | src/app/state/services/storage.service.ts:37-52 | push then splice-out by a fresh id restores the player data, for any of the five lists |
| StorageService.AddDigimonToList | src/app/state/services/storage.service.ts:11-18 | no id is `return;`, a full team of six throws `Team limit reached!`, otherwise push; nothing else changes |
| StorageService.RemoveDigimonFromList | src/app/state/services/storage.service.ts:20-35 | no id is `return;`; otherwise the splice removal plus the entry `find` saw |
| StorageService.AddDigimonToStorage | src/app/state/services/storage.service.ts:37-41 | a missing digimon or id is `return;`, otherwise push |
| StorageService.RemoveDigimonFromStorage | src/app/state/services/storage.service.ts:43-52 | no id is `return;`, otherwise the splice removal |
| StorageService.TeamAddThenRemove | src/app/state/services/storage.service.ts:11-35 | a digimon added to a non-full team with a fresh id comes back out, restoring the data |
| StorageService.StorageAddThenRemove | src/app/state/services/storage.service.ts:37-52 | the same round trip through storage |
| FarmingService.RateSumAppend | src/app/state/services/farming.service.ts:15-21 | the farm rate adds up over concatenation |
| FarmingService.GetBitGenerationTotalRate | src/app/state/services/farming.service.ts:15-21 | the left fold of `reduce` is the farm's total rate; 0 for an empty farm |
| FarmingService.GenerateBitsBasedOnGenerationTotalRate | src/app/state/services/farming.service.ts:9-13 | bits grow by exactly the total rate and nothing else changes |
| FarmingService.AddDigimonToFarm | src/app/state/services/farming.service.ts:23-28 | no id is `return;`, otherwise push |
| FarmingService.RemoveDigimonFromFarm | src/app/state/services/farming.service.ts:30-40 | no id is `return;`, otherwise the splice removal |
| FarmingService.AddRaisesRate | src/app/state/services/farming.service.ts:15-28 | placing a digimon raises the farm rate by exactly its own rate |
| FarmingService.FarmAddThenRemove | src/app/state/services/farming.service.ts:23-40 | add then remove by a fresh id restores the data |
| TrainingService.Increment | src/app/state/services/training.service.ts:19-24 | the roll, plus 10 for max HP and max MP |
| TrainingService.TrainOne | src/app/state/services/training.service.ts:13-28 | only the drawn attribute grows, by its increment |
| TrainingService.TrainDigimons | src/app/state/services/training.service.ts:12-31 | every digimon in training is trained once, in order; nothing else changes |
| TrainingService.TrainingKeepsMembership | src/app/state/services/training.service.ts:12-31 | training keeps every digimon in its slot with its identity |
| TrainingService.TrainingIsBounded | src/app/state/services/training.service.ts:13-28 | no attribute falls, and none rises by more than 19 |
| TrainingService.AddDigimonToTraining | src/app/state/services/training.service.ts:33-37 | a missing digimon or id is `return;`, otherwise push |
| TrainingService.RemoveDigimonFromTraining | src/app/state/services/training.service.ts:39-55 | no id is `return;`; otherwise the splice removal plus the entry `find` saw |
| TrainingService.TrainingAddThenRemove | src/app/state/services/training.service.ts:33-55 | add then remove by a fresh id gives the digimon back and restores the data |
| HospitalService.HealPool | src/app/state/services/hospital.service.ts:12-17 | below the maximum the roll is added, then capped; the result never exceeds the maximum |
| HospitalService.HealPoolMonotone | src/app/state/services/hospital.service.ts:12-17 | healing never lowers a pool and adds at most the roll |
| HospitalService.HealPoolSettles | src/app/state/services/hospital.service.ts:12-17 | a full pool stays full |
| HospitalService.HealOne | src/app/state/services/hospital.service.ts:11-18 | HP and MP each heal with their own roll; nothing else changes |
| HospitalService.HealDigimons | src/app/state/services/hospital.service.ts:10-20 | every patient heals once, in order; nothing else changes |
| HospitalService.AddDigimonToHospital | src/app/state/services/hospital.service.ts:22-26 | a missing digimon or id is `return;`, otherwise push |
| HospitalService.RemoveDigimonFromHospital | src/app/state/services/hospital.service.ts:28-45 | no id is `return;`; otherwise the splice removal, whose result the discarded `filter` does not change |
| HospitalService.HospitalAddThenRemove | src/app/state/services/hospital.service.ts:22-45 | admit then discharge by a fresh id restores the data |
| DigimonUtils.CapsFor | src/app/core/utils/digimon.utils.ts:32 | the rank's caps, or Mega's for an unknown rank |
| DigimonUtils.CapField | src/app/core/utils/digimon.utils.ts:33-38 | an absent stat stays absent; a present one becomes its minimum with the cap |
| DigimonUtils.ApplyCaps | src/app/core/utils/digimon.utils.ts:31-39 | every present stat ends within the caps, absence is kept, and stats already within caps are untouched |
| DigimonUtils.ApplyCapsIdempotent | src/app/core/utils/digimon.utils.ts:31-39 | capping twice is capping once |
| DigimonUtils.ApplyCapsFixedIff | src/app/core/utils/digimon.utils.ts:31-39 | capping changes nothing exactly when every present stat is already within the caps |
| DigimonUtils.UnknownRankIsMega | src/app/core/utils/digimon.utils.ts:32 | an unknown rank is capped exactly like Mega |
| DigimonUtils.GetDefaultPotential | src/app/core/utils/digimon.utils.ts:41-43 | the table value, or 99 for an unknown rank |
| DigimonUtils.TablesAgreeOnRanks | src/app/core/utils/digimon.utils.ts:3-19 | both tables know the same six ranks |
| Lab.ObtainedDigimonsAmount | src/app/modules/lab/lab.component.ts:62 | the number of obtained entries, at most the total |
| Lab.FilterEntries | src/app/modules/lab/lab.component.ts:74-76 | the list is `filter` by the combined test, in order with duplicates kept: an entry stays exactly when its rank is selected (or none is) and it is obtained (or that switch is off) |
| Lab.ObtainedCountMatchesFilter | src/app/modules/lab/lab.component.ts:62-76 | with only the obtained switch on, the list shown has `obtainedDigimonsAmount` entries |
| Lab.Cols | src/app/modules/lab/lab.component.ts:89 | at least one column; the requested count when it is positive |
| Lab.VirtualRows | src/app/modules/lab/lab.component.ts:88-94 | the rows concatenate back to the source; every row is full except a non-empty last one; no rows exactly for an empty source |
| Lab.UpdateSelectedRanks | src/app/modules/lab/lab.component.ts:155-161 | a checked rank becomes selected; other ranks are unaffected; without duplicates before, none after and the rank is selected exactly when checked |
| Lab.ResetFilters | src/app/modules/lab/lab.component.ts:180-188 | sort by name ascending, obtained filter off, no rank selected, every rank box cleared |
| Lab.ResetShowsEverything | src/app/modules/lab/lab.component.ts:73-76 | after a reset the filtered list is the entry list itself |
| GiveDigimon.ToggleFor | src/app/common/action-bar/debug-modal/components/give-selected-digimon-modal/give-selected-digimon-modal.component.ts:55-62 | a switch exists exactly for the six ranks |
| GiveDigimon.FilterOrThrow | src/app/common/action-bar/debug-modal/components/give-selected-digimon-modal/give-selected-digimon-modal.component.ts:73-76 | a TypeError exactly when some entry's rank has no switch; otherwise exactly `Array.filter` by "switch on and name contains the term", in order with duplicates kept |
| GiveDigimon.FilteredDigimonList | src/app/common/action-bar/debug-modal/components/give-selected-digimon-modal/give-selected-digimon-modal.component.ts:67-77 | an empty source gives an empty list; otherwise the TypeError of an unknown rank, or exactly the order-preserving filter of the source |
| GiveDigimon.DefaultsShowAll | src/app/common/action-bar/debug-modal/components/give-selected-digimon-modal/give-selected-digimon-modal.component.ts:48-77 | all switches on and no term list the source itself, in order |
| GiveDigimon.SearchIgnoresTermCase | src/app/common/action-bar/debug-modal/components/give-selected-digimon-modal/give-selected-digimon-modal.component.ts:71-75 | terms equal up to ASCII case select the same entries |
| GiveDigimon.ValidateLevel | src/app/common/action-bar/debug-modal/components/give-selected-digimon-modal/give-selected-digimon-modal.component.ts:137-139 | the level clamped to 1..100, unchanged inside it |
| GiveDigimon.ValidateLevelIdempotent | src/app/common/action-bar/debug-modal/components/give-selected-digimon-modal/give-selected-digimon-modal.component.ts:137-139 | validating twice is validating once |
| GiveDigimon.OnOpen | src/app/common/action-bar/debug-modal/components/give-selected-digimon-modal/give-selected-digimon-modal.component.ts:101-110 | loads only into an empty list |
| GiveDigimon.OnOpenLoadsOnce | src/app/common/action-bar/debug-modal/components/give-selected-digimon-modal/give-selected-digimon-modal.component.ts:101-110 | once loaded, reopening never reloads |
| DialogueController.Start | src/app/services/dialogue-controller.service.ts:41-58 | no-op while running; adopts both delays only when both are non-zero and ordered |
| DialogueController.Stop | src/app/services/dialogue-controller.service.ts:60-66 | no longer running; last list and delays kept |
| DialogueController.StartKeepsDelaysOrdered | src/app/services/dialogue-controller.service.ts:41-66 | the delay bounds stay ordered whatever `start` is given |
| DialogueController.StopThenStart | src/app/services/dialogue-controller.service.ts:41-66 | stopping and starting again without arguments resumes with the same settings |
| DialogueController.GetDigimonsByList | src/app/services/dialogue-controller.service.ts:115-123 | the list for team, training or hospital, `[]` for any other location |
| DialogueController.RandomFrom | src/app/services/dialogue-controller.service.ts:139-141 | undefined exactly for an empty array; otherwise an element of it |
| DialogueController.OtherThanLast | src/app/services/dialogue-controller.service.ts:103 | the eligible lists other than the last one; at least two remain |
| DialogueController.PickNextLocation | src/app/services/dialogue-controller.service.ts:102-106 | an eligible list different from the last one |
| DialogueController.FindNextAvailableLocation | src/app/services/dialogue-controller.service.ts:108-113 | another non-empty eligible list, or none exactly when every other list is empty |
| DialogueController.TriggerDialogue | src/app/services/dialogue-controller.service.ts:84-100 | an empty list skips and remembers nothing; otherwise the list is remembered and chatted in |
| DialogueController.NobodyWhenNothingAvailable | src/app/services/dialogue-controller.service.ts:72-77 | an empty pick with nothing else available means every list is empty |
| DialogueController.RunOnce | src/app/services/dialogue-controller.service.ts:68-82 | skips exactly when all three lists are empty; otherwise chats in a non-empty list, the picked one when it has digimon |
| DialogueController.RoundAtPick | src/app/services/dialogue-controller.service.ts:68-106 | with all lists populated a round chats in the list first drawn and remembers it |
| DialogueController.ConsecutiveRoundsMove | src/app/services/dialogue-controller.service.ts:68-106 | with all lists populated two consecutive rounds never chat in the same list |
| StatusCard.HandleHpChange | src/app/state/global-state.datasource.ts:212-221 | the event carries the old and new HP, a non-negative difference between them, and `isPositive` exactly when HP rose |
| StatusCard.SetHp | src/app/state/global-state.datasource.ts:198-210 | the proxy stores the new HP and emits a change exactly when it differs from the stored one, always with a positive difference |
| StatusCard.OnHpChange | src/app/shared/components/digi-status-card/digi-status-card.component.ts:69-84 | other digimon are ignored; a zero difference shows Miss; healing and damage badges match the sign; only damage plays the hit |
| StatusCard.BadgeMatchesHpChange | src/app/state/global-state.datasource.ts:198-221 | setting HP to its current value emits nothing; any emitted change shows healing exactly when HP rose and damage with the hit exactly when it fell, never Miss |
| StatusCard.OtherCardsIgnore | src/app/shared/components/digi-status-card/digi-status-card.component.ts:72 | the card of another digimon does nothing |
| StatusCard.OnMouseEnter | src/app/shared/components/digi-status-card/digi-status-card.component.ts:95-103 | hovered; deletable exactly when the digimon is the player's, the player has more than one, and no battle runs |
| StatusCard.OnMouseLeave | src/app/shared/components/digi-status-card/digi-status-card.component.ts:105-109 | neither hovered nor deletable |
| StatusCard.NeverDeleteLastOrInBattle | src/app/shared/components/digi-status-card/digi-status-card.component.ts:99-101 | the last digimon, or any digimon during a battle, is never offered for deletion |
| DetailsAge.DaysInMonth | src/app/shared/components/digimon-details-modal/digimon-details-modal.component.ts:119-124 | 28 to 31 days; February has 29 exactly in leap years |
| DetailsAge.PreviousMonthDays | src/app/shared/components/digimon-details-modal/digimon-details-modal.component.ts:119-124 | the length of the month before, December of the year before for January |
| DetailsAge.CalculateDetailedAge | src/app/shared/components/digimon-details-modal/digimon-details-modal.component.ts:96-134 | as written: hours in 0..23, months in 0..11, days as low as -3, years non-negative for a past birth |
| DetailsAge.NegativeDaysAtMonthStart | src/app/shared/components/digimon-details-modal/digimon-details-modal.component.ts:118-126 | born 31 January 23:00, seen 1 March 00:00 of a common year, the age has -3 days |
| DetailsAge.CalculateDetailedAgeFixed | src/app/shared/components/digimon-details-modal/digimon-details-modal.component.ts:96-134 | corrected: days stay in 0..30, and the result agrees with the written one whenever its days are not negative |
| DetailsAge.FixedAgeIsNonNegative | src/app/shared/components/digimon-details-modal/digimon-details-modal.component.ts:96-134 | for a past birth no field of the corrected age is negative |
| DetailsAge.AddPart | src/app/shared/components/digimon-details-modal/digimon-details-modal.component.ts:140-147 | a phrase only for a positive value, appended, singular key exactly for one |
| DetailsAge.AgePhrases | src/app/shared/components/digimon-details-modal/digimon-details-modal.component.ts:149-152 | exactly one phrase per positive component, in the order years, months, days, hours, each with its count and singular or plural key; none when no component is positive |
| DetailsAge.FormatAge | src/app/shared/components/digimon-details-modal/digimon-details-modal.component.ts:136-157 | with no phrase, the less-than-an-hour text; with one phrase, its translation |
| DetailsAge.NegativeDaysAreHidden | src/app/shared/components/digimon-details-modal/digimon-details-modal.component.ts:140-152 | in the counterexample the negative days drop out of the text, leaving only "1 month" and "1 hour" |
| ModalStack.Open | src/app/shared/components/modalV2/modal.service.ts:10-31 | a registered id is refused and changes nothing; otherwise the id is registered and pushed |
| ModalStack.Close | src/app/shared/components/modalV2/modal.service.ts:33-49 | an unknown id is ignored; otherwise it is unregistered and only its first stack entry is spliced out, the other entries keeping their order; an id not on the stack leaves the stack alone |
| ModalStack.CloseLast | src/app/shared/components/modalV2/modal.service.ts:57-65 | pops the top id and closes it; an empty stack is left alone |
| ModalStack.OpenKeepsWf | src/app/shared/components/modalV2/modal.service.ts:10-31 | opening keeps every registered id on the stack exactly once |
| ModalStack.CloseKeepsWf | src/app/shared/components/modalV2/modal.service.ts:33-49 | closing by id keeps that invariant |
| ModalStack.CloseLastKeepsWf | src/app/shared/components/modalV2/modal.service.ts:57-65 | closing the top dialog keeps it too |
| ModalStack.OpenThenClose | src/app/shared/components/modalV2/modal.service.ts:10-65 | opening a new dialog and closing it, by id or as the top one, restores the state |
| ModalStack.CloseAll | src/app/shared/components/modalV2/modal.service.ts:51-55 | ends with an empty stack, and with nothing registered from a well-formed state |
| ModalRegistry.Add | src/app/shared/components/modal/modal.service.ts:9-15 | a new id is appended; a known id is ignored when unique and throws otherwise |
| ModalRegistry.Remove | src/app/shared/components/modal/modal.service.ts:17-19 | every dialog with the id is dropped and the others keep their order |
| ModalRegistry.AddThenRemove | src/app/shared/components/modal/modal.service.ts:9-19 | add then remove of a fresh id restores the registry |
| ModalRegistry.Open | src/app/shared/components/modal/modal.service.ts:21-27 | a registered dialog is pushed on the open list and shown; an unknown id does nothing |
| ModalRegistry.Close | src/app/shared/components/modal/modal.service.ts:29-34 | a registered dialog is hidden, the open list untouched |
| ModalRegistry.GetLastOpenModal | src/app/shared/components/modal/modal.service.ts:40-42 | the last opened dialog; undefined exactly when none is open |
| ModalRegistry.RemoveLastOpenModal | src/app/shared/components/modal/modal.service.ts:44-46 | pops the open list; a no-op when it is empty |
| ModalRegistry.OpenThenPop | src/app/shared/components/modal/modal.service.ts:21-46 | an opened dialog is the last open one, and popping restores the open list |
| ModalRegistry.CloseLeavesOpenList | src/app/shared/components/modal/modal.service.ts:29-42 | closing does not pop: the closed dialog is still reported as the last open one |
| SharedModal.Add | src/app/shared/modal/modal.service.ts:8-13 | a known id throws the duplicate message; otherwise it is appended, keeping ids unique |
| SharedModal.Remove | src/app/shared/modal/modal.service.ts:15-17 | the id is gone and every other id is kept |
| SharedModal.AddThenRemove | src/app/shared/modal/modal.service.ts:8-17 | add then remove of a fresh id restores the registry |
| SharedModal.Open | src/app/shared/modal/modal.service.ts:19-22 | a registered dialog is shown; an unknown id does nothing |
| SharedModal.Close | src/app/shared/modal/modal.service.ts:24-27 | a registered dialog is hidden; an unknown id does nothing |
| SharedModal.OpenThenClose | src/app/shared/modal/modal.service.ts:19-27 | opening then closing a hidden dialog restores the registry |
| Toasts.ShowToast | src/app/shared/components/toast/toast.service.ts:20-37 | a missing or empty icon becomes the type's icon; the position defaults to bottom |
| Toasts.OnToast | src/app/shared/components/toast/toast.component.ts:44-51 | the oldest toast is dropped when five are shown, then the new one is appended last |
| Toasts.RemoveToast | src/app/shared/components/toast/toast.component.ts:54-56 | `splice(index, 1)`: negative indexes count from the end, past the end removes nothing |
| Toasts.Expire | src/app/shared/components/toast/toast.component.ts:50 | each timer removes the front toast |
| Toasts.ShowAllKeepsNewest | src/app/shared/components/toast/toast.component.ts:44-51 | without expiry, the list holds exactly the last five toasts shown, oldest first |
| Shortcuts.Pressed | src/app/services/shortcut.service.ts:55-60 | the set of modifiers held down |
| Shortcuts.AllPressed | src/app/services/shortcut.service.ts:62 | every required modifier is down; an unknown name reads falsy |
| Shortcuts.CheckModifiers | src/app/services/shortcut.service.ts:54-64 | the required modifiers are exactly the ones held down |
| Shortcuts.RunMatching | src/app/services/shortcut.service.ts:45-51 | the actions run are exactly those of the shortcuts that fire |
| Shortcuts.HandleKeyDown | src/app/services/shortcut.service.ts:44-52 | the default is prevented exactly when some configured shortcut fires |
| Shortcuts.AtMostOneAction | src/app/services/shortcut.service.ts:18-30 | the configured keys differ ignoring case, so a press runs at most one action |
| Shortcuts.AltF4Exits | src/app/services/shortcut.service.ts:19-23 | Alt+F4 exits |
| Shortcuts.F5IsSwallowed | src/app/services/shortcut.service.ts:24-28 | a bare F5 is swallowed, so the page never reloads |
| Shortcuts.CtrlSSaves | src/app/services/shortcut.service.ts:29 | Ctrl+S saves whether the key reads `s` or `S` |
| Shortcuts.CtrlShiftSIgnored | src/app/services/shortcut.service.ts:54-64 | with Shift also down, Ctrl+S does nothing |
| BumpVersion.ArgValue | scripts/bump-version.js:13 | the text between the first and second `=`, trimmed |
| BumpVersion.DigitRunSpec | scripts/bump-version.js:15 | the leading digit run is digits and is not followed by one |
| BumpVersion.MatchVersion | scripts/bump-version.js:15 | a greedy match of three dot-separated digit runs at the start of the text ends after at least five characters |
| BumpVersion.MatchVersionSound | scripts/bump-version.js:15 | a reported match has the shape digits, dot, digits, dot, digits |
| BumpVersion.MatchVersionComplete | scripts/bump-version.js:15 | whenever the shape is there, the matcher reports it |
| BumpVersion.ValidVersionIff | scripts/bump-version.js:15 | the whole-text test passes exactly when the matcher covers the whole text |
| BumpVersion.JoinedIsValid | scripts/bump-version.js:15 | three digit runs joined by dots form a valid version |
| BumpVersion.VersionExamples | scripts/bump-version.js:9-17 | `0.4.0` passes; `0.4`, `v0.4.0` and `0.4.0-beta` do not |
| BumpVersion.CargoMatchShape | scripts/bump-version.js:34 | a manifest match is `version = "`, a valid version and a closing quote |
| BumpVersion.CargoMatch | scripts/bump-version.js:34 | a match of `version = "<d>.<d>.<d>"` at the start of the text, longer than its literal prefix |
| BumpVersion.WrittenMatch | scripts/bump-version.js:35 | the replacement text `version = "<new>"` matches the pattern again and reads back the new version |
| BumpVersion.FirstMatch | scripts/bump-version.js:33-36 | the leftmost manifest match, none exactly when no position starts one |
| BumpVersion.FirstMatchIsLeftmost | scripts/bump-version.js:33-36 | a match with none before it is the one reported |
| BumpVersion.ReadVersion | scripts/bump-version.js:34 | the first declared version is valid; none exactly when there is no match |
| BumpVersion.ReadVersionNone | scripts/bump-version.js:33-36 | no version is declared exactly when no position starts a match |
| BumpVersion.ReplaceFirstVersion | scripts/bump-version.js:33-36 | only the leftmost match is rewritten; a manifest without one is unchanged |
| BumpVersion.ReplaceThenRead | scripts/bump-version.js:33-36 | after the rewrite the manifest's first version is the new one |
| BumpVersion.ParseArgs | scripts/bump-version.js:5-20 | exit for a missing argument exactly when no argument has the prefix; a bump carries a valid version and a rejection an invalid one |
| BumpVersion.FormattedArgumentRoundTrip | scripts/bump-version.js:5-20 | `--new-version=<v>` with a valid `v` reads back `v` |
| BumpVersion.BumpCargo | scripts/bump-version.js:5-37 | the manifest is rewritten exactly when the arguments are accepted, and then declares the new version first |

## Left out

- The Tauri commands `close_splashscreen` and `exit_app` and the window wiring in `main`: window handles only, with no logic to state.
- `ensure_ollama` spawning the server and the HTTP request itself: the spawn result and each probe's outcome are inputs; only `is_ok()` is consulted, as in the source.
- The per-line loop of the download handler (`JSON.parse`, `wrapError`, `wrapText`) and the HTTP, Observable and streaming plumbing: parsing JSON and network I/O are outside the model; the scanner and the framing that feed them are modelled.
- `localStorage` is a boolean marker; `invoke` and `listen` become install events.
- Randomness: `Math.random` draws (training, hospital, dialogue picks, `randomBetween`, `calculateGains`) are parameters; `calculateGains` has nothing to state beyond its ranges and is not modelled.
- The battle service (`calculateTotalGainedExp`, `calculateTotalGainedBits`, `calculateGainedDigiData`) is not part of this model; its results are inputs to `CalculateRewards`.
- DialogueText.BuildIdToNameMap: a participant id is always a string. The source's `d.id.toLowerCase()` (src/app/services/ai.service.ts:402) throws a TypeError on a digimon without an id, and that failure is not modelled.
- `enemyAttack` (src/app/state/global-state.datasource.ts:487-522): it sits in the modelled file but is left out. It runs after a one-second timer and applies the random damage of `attack`, which is not modelled. It also shifts the queue and drops a defeated target from both turn orders. `NextTurn` only reports that the enemy is to act.
- `endBattle` (src/app/state/global-state.datasource.ts:455-485): it sits in the modelled file. Its audio, logs, toasts and the two attacker/defender signals are left out. Its one change to the battle, `isBattleActive = false`, is modelled: `NextTurn` clears the flag on every way a battle ends. The victory rewards it grants are `CalculateRewards`.
- Floating point: rates, HP and bits are integers; `Math.floor` of random draws is a natural number below 10.
- Timers and the DOM: toast timers, modal mounting, hover animations and change detection become explicit events or are left out.
- Time zones and `Date` normalisation: a date is its local calendar fields.
- `translate` of the translation service is a function parameter; case mapping is ASCII-only, as `JsText` documents.
- The lab sort (`localeCompare` and comparators) is not modelled; `VirtualRows` works on whatever order it is given.
- `ShortcutService.destroy` and the `keydown` binding: listener bookkeeping only.
- bump-version's JSON and npm steps (reading and writing `package.json` and `tauri.conf.json`, `npm install`): file and process I/O.
- GlobalState.GenerateEvolutionRoute: a `fuel` bound stops the walk back; the source loops for ever on a cyclic degenerate chain, which the fuel does not model.
- GlobalState.Tick: the countdown setter and change detection are left out; only the countdown value and whether the action fires are stated.
- DialogueText.ExtractFirstJsonObject: states the brace framing of its result, not the contents after code-fence removal.
- DialogueText.RemoveAll: its own contract states only that the text does not grow; no-change without an occurrence, at least one removal with one, and the subsequence property are the lemmas RemoveAllOccurrences and RemoveAllKeepsOrder; neither states that every leftmost occurrence is removed.
- DialogueText.PlainObjectEmitted: completeness of the scanner is proved for objects without string literals; objects with strings are covered by the reference fold `ScanPrefix` and the `BraceInStringIgnored` example.
- DetailsAge.FormatAge: states the zero- and one-phrase cases; longer ages are the translations joined with `, `, which the contract does not spell out.
- BattleTurns.NextTurn: the attack button signal and the enemy attack call are not modelled beyond the returned decision.
- DetailsAge.CalculateDetailedAgeFixed: the correction only clamps a still-negative day count to zero, the least change that keeps every field non-negative; it does not recount days from a month-end anniversary.
- ConfigState.Initialize: the settings loading and `applyAllEffects` (lines 52-70) are I/O and are left out; only the install-flag reconciliation is modelled.

## Findings

| source | as written | input that shows it | evidently intended | confidence | as-written member | corrected member |
|---|---|---|---|---|---|---|
| src/app/services/ai.service.ts:117-119 | `processedLength` advances before the blank-segment early return, so a segment that is only whitespace is consumed but never framed | progress events with `partialText` `{}` and then `{}\n`: the second event's new text is the lone newline, which is dropped, so the carried `{}` is later glued to the next record | a blank segment is either framed or left unconsumed, so line breaks are never lost | high, not executed | DialogueText.LoneNewlineIsLost | DialogueText.FixedHandlerAccounts |
| src/app/shared/components/digimon-details-modal/digimon-details-modal.component.ts:118-126 | a negative day difference borrows the previous month's length only once, which leaves it negative when that month is shorter than the birth day | born 2023-01-31 23:00, now 2023-03-01 00:00 gives 0 years, 1 month, -3 days, 1 hour | the days field is never negative | high, not executed | DetailsAge.NegativeDaysAtMonthStart | DetailsAge.FixedAgeIsNonNegative |
