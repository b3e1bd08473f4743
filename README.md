# colo-calc target resolution, modelled in Dafny

colo-calc is a battle-position calculator. Two parties of up to four characters
stand on a grid whose good side is columns 1-4, whose separator columns are
5-10, and whose evil side starts at column 11. The model takes the grid to be
14 columns wide, so the evil side is columns 11-14; the width constant is
defined outside the modelled files (see "## Left out"). For every character the calculator works
out which opponent (or, for healers, which ally) it will target, and lists the
attacks as events. This project models the calculator component's engine: the
grid geometry and zones, candidate selection per AI archetype, the
nearest/farthest pick, one pass of a roster against the other with the shared
"already targeted" list, the four passes of a recalculation, the party
bookkeeping of a click on a tile, and the pair encoding a party is shared in.

Files:

- `types.dfy` (module `CalculatorTypes`): characters, tiles (a class: the engine
  writes `targets`, `summonTargets` and `lineColour` in place), parties (a
  class with the roster and its occupied count) and attack records.
- `grid.dfy` (module `Grid`): column and row of a slot, the side a slot belongs
  to, the squared distance used for ranking.
- `targeting.dfy` (module `Targeting`): the rules as functions. `GetTargets`
  gives the candidates, `SelectTarget` makes the pick and `Resolve` resolves one
  attacker. `PassSteps` and `PassAttacks` give the outcomes of one pass, and
  `ResolveAll` gives the four-pass schedule.
- `calculator.dfy` (module `Calculator`): the component as a class. Its state is
  the grid, both parties, the line toggles and the event list. `CalcTeamTarget`,
  `CalculateEvents` and `OnTileClick` are imperative and are proved against the
  functions of `Targeting`.
- `share.dfy` (module `Share`): the `[slot, character id]` pairs of `partyToShare`.

An attack event is modelled as the attack record: who attacked, which
character acted, the target, and the distance. The display string built from
the record is not modelled, except for one consequence of building it: it
reads the target's character name, so when an Ally picks a placeholder entry
that holds no character, the string cannot be built and the exception ends
`calculateEvents`. The model states this as a recalculation that stops: the
attacker that threw has already had its line written, no later attacker or
pass runs, and the event list keeps its previous value (`Throws`, `PassRun`,
`Schedule.EventsAfter`).

## Model

| member | source | states |
|---|---|---|
| Grid.PositionInLine | src/app/calculator/calculator.component.ts:218-220 | the column of a slot is between 1 and 14 |
| Grid.PositionInColumn | src/app/calculator/calculator.component.ts:222-224 | the row of a slot is at least 1 |
| Grid.PositionRoundTrip | src/app/calculator/calculator.component.ts:218-224 | a slot lies within the id range of its row, and rebuilding the id from its column and row gives the slot back |
| Grid.SlotRoundTrip | src/app/calculator/calculator.component.ts:218-224 | every in-range column and row is the position of exactly the slot built from them |
| Grid.SideFailsExactlyOnSeparators | src/app/calculator/calculator.component.ts:226-234 | `returnParty` fails exactly on the columns `generateMatrix` disables (5 to 10); it gives the good party for columns up to 4 and the evil party for columns 11 and up |
| Grid.SideAtCoordinates | src/app/calculator/calculator.component.ts:226-234 | in every row, the side of a slot depends only on its column: good, separator, evil |
| Targeting.MeleeCandidates | src/app/calculator/calculator.component.ts:247-254 | Melee candidates are occupied defenders on a slot, and every unclaimed one is a candidate. A claimed tile is a candidate only when every eligible defender is claimed, and then every eligible defender is one. They are empty exactly when no eligible defender exists |
| Targeting.RangedCandidates | src/app/calculator/calculator.component.ts:256-257 | Ranged candidates are exactly the eligible defenders, claims ignored |
| Targeting.AllyCandidates | src/app/calculator/calculator.component.ts:259-260 | Ally candidates are exactly the attacker's own roster entries with a different id; placeholders included |
| Targeting.AssassinCandidates | src/app/calculator/calculator.component.ts:264-268 | Assassin candidates are Ranged-class eligible defenders. With more than one of them the claimed ones are dropped; with at most one, claims are ignored |
| Targeting.UnknownAiCandidates | src/app/calculator/calculator.component.ts:245-271 | an archetype outside the four has no candidates |
| Targeting.AssassinFallsBack | src/app/calculator/calculator.component.ts:264-315 | the Assassin rule finds nobody exactly when no eligible defender is Ranged-class, or two or more are and all of them are claimed; an Assassin with a fallback archetype then uses it |
| Targeting.SelectTarget | src/app/calculator/calculator.component.ts:326-342 | the pick is a candidate at the least distance (the greatest for Ally), and no earlier candidate ranks as well (stable sort, first element) |
| Targeting.SelectTargetUnique | src/app/calculator/calculator.component.ts:326-342 | those two properties determine the picked index uniquely |
| Targeting.ResolveOutcome | src/app/calculator/calculator.component.ts:282-342 | an attacker that sits out resolves nothing; otherwise it resolves nothing exactly when the archetype in use has no candidates. That archetype is the primary one when it finds somebody, the fallback when the primary finds nobody and a fallback exists, and differs from the primary only in that case. A resolved target is a candidate at the least distance (the greatest for Ally), the earliest such in candidate order, with its distance, and the actor is the acting character |
| Targeting.MeleeNeverStarved | src/app/calculator/calculator.component.ts:247-254 | a Melee attacker facing any eligible defender always resolves an eligible defender, even when all are claimed |
| Targeting.ResolveTargetAllowed | src/app/calculator/calculator.component.ts:245-271 | a resolved target is an eligible defender or, for Ally, another entry of the attacker's roster |
| Targeting.PassSteps | src/app/calculator/calculator.component.ts:281-370 | a pass has exactly one outcome per attacker |
| Targeting.PassAttacks | src/app/calculator/calculator.component.ts:281-370 | a pass produces no more attacks than it has attackers |
| Targeting.PassStepsAt | src/app/calculator/calculator.component.ts:281-370 | outcome `j` of a pass is attacker `j`'s resolution against the input claims plus the claims of the attackers before it |
| Targeting.PassAdvance | src/app/calculator/calculator.component.ts:366-369 | one reduce step extends the outcomes by this attacker's outcome, and extends the attacks only when it resolved |
| Targeting.ClaimsAdvance | src/app/calculator/calculator.component.ts:367 | pushing a target onto the claims matches appending its attack |
| Targeting.PassAttacksWellFormed | src/app/calculator/calculator.component.ts:281-370 | every attack of a pass comes from a roster entry that does not sit out, and hits a target its archetype allows |
| Targeting.SkippedAttackerSitsOut | src/app/calculator/calculator.component.ts:288-290 | an attacker that is skipped has no outcome and no attack in the pass, so it adds no claim |
| Targeting.ResolveAll | src/app/calculator/calculator.component.ts:377-393 | each pass runs at most one step per entry of its roster, and exactly one per entry when no pass threw |
| Targeting.ScheduleOfPasses | src/app/calculator/calculator.component.ts:381-393 | four passes, each run on the claims of those before it starting from none, and each run only when none before it threw, are `ResolveAll`; when none threw, their attacks concatenated in order are its events |
| Targeting.ScheduleClaims | src/app/calculator/calculator.component.ts:381-386 | in any schedule the claims before each pass extend the previous ones, and the final claims are the targets of the event list |
| Targeting.ClaimsGrowAcrossPasses | src/app/calculator/calculator.component.ts:377-394 | for a recalculation: claims start empty and only grow, one per event, so the final claims are the targets of the events in order; each roster resolves at most two attacks per entry |
| Targeting.PassesSeePriorClaims | src/app/calculator/calculator.component.ts:381-386 | in a recalculation the first pass runs on no claims and pass `k` runs on the claims of the passes before it (`ClaimsBefore(k)`), and only when none of them threw; otherwise it runs no step |
| Targeting.ThrowsOnlyOnAllyPick | src/app/calculator/calculator.component.ts:245-364 | a step throws only when the attacker does not sit out and its archetype in use is Ally; the target is then another entry of its own roster, and a placeholder when every roster entry on a slot holds a character |
| Targeting.StepsRun | src/app/calculator/calculator.component.ts:361-364 | the steps a pass gets through: all of them when none throws, otherwise exactly those up to and including the first that throws |
| Targeting.PassRun | src/app/calculator/calculator.component.ts:281-370 | the steps a pass runs are no more than its attackers, all of them when none throws, and otherwise end with the one step that throws, none before it throwing |
| Targeting.PassRunIsPrefix | src/app/calculator/calculator.component.ts:281-370 | the steps a pass runs are the steps of its first attackers, each against the claims of those before it |
| Targeting.PassStepsPrefix | src/app/calculator/calculator.component.ts:281-370 | the first steps of a longer pass are the steps of the shorter one |
| Targeting.PassRunStops | src/app/calculator/calculator.component.ts:361-364 | a pass that reaches attacker `i` without a throw and throws there runs exactly the first `i + 1` steps |
| Targeting.PassRunCompletes | src/app/calculator/calculator.component.ts:281-370 | a pass in which no attacker throws runs every attacker's step |
| Targeting.PassNoThrow | src/app/calculator/calculator.component.ts:361-364 | when every entry of the attacking roster holds a character, no step of its pass throws |
| Targeting.AllyPicksBarePlaceholder | src/app/calculator/calculator.component.ts:259-364 | an Ally on slot 28 with a mate on slot 29 and a placeholder without a character picks the placeholder, at squared distance 4, and its event throws |
| Targeting.BarePlaceholderIsFarther | src/app/calculator/calculator.component.ts:259-342 | for that Ally, its candidates are the mate and the placeholder, and the placeholder, counted at slot 0, is the farther and is picked |
| Targeting.RecalculationStopsAtBarePlaceholder | src/app/calculator/calculator.component.ts:377-394 | with that roster the first pass runs only the Ally's step, the recalculation does not complete, and no later pass runs |
| Targeting.CompletesWhenEveryEntryHoldsACharacter | src/app/calculator/calculator.component.ts:377-394 | when every entry of both rosters holds a character, a recalculation runs all four passes to their end |
| Targeting.TargetsOfConcat | src/app/calculator/calculator.component.ts:367 | the claims of concatenated attack lists are the concatenated claims |
| CalculatorTypes.TargetsOf | src/app/calculator/calculator.component.ts:367 | one claim per attack, the attack's target, in order |
| CalculatorTypes.OccupiedCount | src/app/calculator/calculator.component.ts:58 | the occupied count never exceeds the roster length |
| CalculatorTypes.UniqueSlotsUpdate | src/app/calculator/calculator.component.ts:52-57 | putting a placeholder, or an entry on a slot the party does not hold, keeps every slot in the party at most once |
| Calculator.GenerateMatrix | src/app/calculator/calculator.component.ts:111-131 | one fresh, distinct tile per slot, with id equal to its index. Separator columns are disabled and marked `x`; other tiles are enabled, with an empty value and no character or lines |
| Calculator.Calculator.constructor | src/app/calculator/calculator.component.ts:35-43 | both line toggles on, no parties, no events, and the grid as `GenerateMatrix` builds it, which `ngOnInit` assigns (line 145): one tile per slot with its index as id, disabled exactly on separator slots, without a character |
| Calculator.Calculator.ResolveAttacker | src/app/calculator/calculator.component.ts:288-342 | the step's outcome is `Resolve` of the attacker against the claims so far |
| Calculator.Calculator.ResolveAndRecord | src/app/calculator/calculator.component.ts:282-355 | the pass's output field is reset, then holds the target when the line toggle is on (null otherwise). The other output field is untouched, and the colour is set only when a target is drawn |
| Calculator.Calculator.ReduceStep | src/app/calculator/calculator.component.ts:281-370 | one reduce step on attacker `i`: its outcome extends the steps of the first `i` attackers; its output field and colour are written as the toggle says (lines 344-355). It throws exactly when the target holds no character (lines 361 and 364), and then appends nothing; otherwise the attacks and claims become those of the first `i + 1` attackers |
| Calculator.Calculator.CalcTeamTarget | src/app/calculator/calculator.component.ts:273-375 | the steps run are `PassRun`: the pass completes exactly when no step threw. The events are the attacks of the steps before any throw, and the returned claims are the input claims followed by one target per event. Each attacker reached has its output field set to its outcome's target when the toggle is on; entries not reached keep theirs, the other field is unchanged, and the colour changes only when a line is drawn |
| Calculator.Calculator.CalculateEvents | src/app/calculator/calculator.component.ts:377-398 | with a party missing, nothing changes. Otherwise the events become those of the four passes over the current rosters (`ResolveAll`) when no pass threw, and keep their old value when one threw (`EventsAfter`); the grid, the parties and their rosters stay as they were |
| Calculator.Calculator.Recalculate | src/app/calculator/calculator.component.ts:381-393 | the four passes over two rosters complete exactly when `ResolveAll`'s schedule does, and then produce its events. Each good entry ends with its first-pass target in `targets` and its summon's in `summonTargets` (null when ally lines are hidden), for the passes of `ResolveAll` that reached it; its colour changes only when a line is drawn; the evil entries likewise |
| Calculator.Calculator.RunPasses | src/app/calculator/calculator.component.ts:381-393 | the passes run are `ResolveAll`'s schedule, completed exactly when none threw, and then the events are its events. Each good entry ends with its first-pass target in `targets` and its summon's in `summonTargets` (null when ally lines are hidden), for the passes that reached it; its colour changes only when a line is drawn; the evil entries likewise |
| Calculator.Calculator.RunRound | src/app/calculator/calculator.component.ts:381-386 | the good pass, then, only when it did not throw, the evil pass on the claims it leaves; completed exactly when neither threw. Each roster's output fields are written as its pass decides, and the other mode's fields are untouched |
| Calculator.Calculator.OnTileClick | src/app/calculator/calculator.component.ts:46-90 | a click on a separator slot fails and a click on a side slot succeeds. The clicked side's roster is edited as `RosterEdited` says, and the other party is unchanged. When nothing changes, grid, events, parties and every roster entry stay as they were. After a change, the grid differs only at the clicked slot, which shows a fresh tile with no character exactly when one was removed, and which is in its side's party when one was added. The events are then recomputed from the new rosters, or stay as they were when the recalculation throws; the component stays valid |
| Calculator.Calculator.EditSide | src/app/calculator/calculator.component.ts:47-88 | the zone check, then the edit of the clicked side's roster as `RosterEdited` says, with the other party untouched; roster entries are old or fresh; the grid is redrawn at the slot on a change |
| Calculator.Calculator.EditRoster | src/app/calculator/calculator.component.ts:49-88 | the roster is edited as `RosterEdited` says: the entry on the clicked slot becomes a placeholder keeping its character, one fewer occupied; otherwise, below four occupied, the first placeholder entry takes the slot with that placeholder's character or the chosen one, one more occupied; else nothing changes. The party stays valid and apart from the other one, and a tile is placed on the grid exactly when something changed |
| Calculator.EditParty | src/app/calculator/calculator.component.ts:49-88 | a click on a slot the party holds vacates that entry. Otherwise, with fewer than four occupied, the first placeholder's character (or the chosen one) is placed on the slot, and with neither nothing changes. With four occupied nothing changes. The party stays valid |
| Calculator.RemoveEntry | src/app/calculator/calculator.component.ts:51-66 | the entry becomes a fresh placeholder keeping the character at its position, and the count drops by one. The grid tile is a copy of the clicked one without character, position or targets, keeping its colour |
| Calculator.PlaceEntry | src/app/calculator/calculator.component.ts:76-84 | the placeholder entry becomes a fresh copy of the clicked tile, with the character and its position, keeping targets and colour; the count rises by one; the party stays valid |
| Calculator.FindIndex | src/app/calculator/calculator.component.ts:49 | `findIndex`: the first matching index, or -1 exactly when nothing matches |
| Calculator.FreeEntryExists | src/app/calculator/calculator.component.ts:69-71 | with fewer than four occupied, a placeholder entry exists, so `unusedIndex` is a real index |
| Calculator.OccupiedCountUpdate | src/app/calculator/calculator.component.ts:58 | replacing one entry changes the occupied count by the difference of the two entries |
| Calculator.FreshEntryKeepsDistinct | src/app/calculator/calculator.component.ts:83 | putting a fresh entry into a roster keeps its entries distinct |
| Calculator.SeparateAfterEdit | src/app/calculator/calculator.component.ts:52 | replacing entries by fresh ones keeps the two rosters apart |
| Share.PartyToShare | src/app/calculator/calculator.component.ts:426-434 | one pair per entry, in roster order: the slot (null for a placeholder) and the character id (null when missing or empty) |
| Share.ShareRoundTrip | src/app/calculator/calculator.component.ts:451-459 | reading the pairs back as `resetParty` does restores every entry's slot and character, for characters the catalog knows |
| Share.EmptyCharacterIdIsDropped | src/app/calculator/calculator.component.ts:429 | a character with an empty id is shared as null and not restored |

## Left out

- Rendering, the dialogs, the RxJS subscriptions, local storage (`syncMyTeam`, `rememberMyTeamChecked`), the share URL and base64 text, the language and background controls and `console.log` calls are not modelled. The hero-select dialog in `onTileClick` becomes the `chosen` parameter; `None` is a dialog closed without a choice.
- The event text (`attackTemplate`, character names, `toFixed(2)`) is not modelled; an event is the attack record it is built from, distance included.
- `Math.sqrt` is not modelled: distances are squared integers, which rank candidates in the same order because the square root is monotone.
- `partyToShare`'s `JSON.stringify` and `resetParty`'s `JSON.parse` are not modelled; the pairs are a sequence of records.
- NumericId: a placeholder entry counts as slot 0 (column 1, row 1) when distances are measured. This is what JavaScript does with a `null` id, which the placeholders `onTileClick` makes carry (line 53). The placeholders that `createParty` makes are assumed to carry `null` too. An `undefined` id would instead make the distance at line 331 `NaN`, the comparator at lines 337-341 would then return `NaN`, and where such a placeholder lands in the sort, and so whether an Ally picks it, would be up to the JavaScript engine.
- The grid width `LINE_LENGTH` is taken as 14 (four columns per side, six separators); `calculator.types.ts`, where it is defined, is not part of this model. `LINE_HEIGHT` is a parameter of `GenerateMatrix`.
- `createParty` and `validTileId` (`src/fn/helpers`) are not part of this model; a placeholder entry is a tile without an id, and `validTileId` is read as "has an id".
- AiInUse: `fallbackAiType` is read as present or absent. The source tests it for truthiness (line 306), which agrees with this only because `AiType` is a string enum; a falsy enum value would never be taken as a fallback.
- Calculator.Calculator.constructor: the grid is built in the constructor; the source builds it in `ngOnInit` (line 145), which runs once before any click.
- `getCharacter` becomes the `catalog` function; the catalog itself is not modelled. An AI type outside the four the engine knows is `UnknownAi`.
- `resetParty`, `resetPartyTiles`, `onChangeCharacter`, `updatePartyCharNames` and the rest of `ngOnInit` (its subscriptions and the party restore) are not modelled. Only the pair reading of `resetParty` is captured, in `RestoreEntry`.
- CalculateEvents: the exception thrown when an event's target holds no character is modelled as the recalculation stopping there: the writes made before it stay, the event list keeps its old value, and the shallow copies at lines 395-397 are not reached. What the exception does further up (the click handler and dialog callback that called `calculateEvents`) is not modelled.
- CalculateEvents: the shallow copies of the grid and parties at the end (they only re-trigger change detection) are not modelled; the model keeps the same objects. Its contract states the event list; the per-entry `targets`, `summonTargets` and `lineColour` writes are stated on `Recalculate`, `RunPasses` and `CalcTeamTarget`, because stating them here puts the method over the verifier's resource limit.
- CalculateEvents: the toggles are read once per recalculation and passed down, where the source reads them per attacker; nothing in between can change them.
- CalculateEvents: it requires the two rosters to hold distinct entries and share none, which the component's validity invariant provides; the source states no such requirement.
- CalcTeamTarget: it requires the roster's entries to be distinct objects. Otherwise a later write to the same object would overwrite an earlier one, and the per-entry postcondition would not hold.
- OnTileClick: it requires both parties to exist and the clicked slot to be on the grid, as the component guarantees once initialised.
- OnTileClick: after a change, its contract states the recomputed event list but not the `targets`, `summonTargets` and `lineColour` the recalculation writes into the roster entries; those are stated on `Recalculate`, `RunPasses` and `CalcTeamTarget`. Carrying them up through `CalculateEvents`, where the rosters are read from the parties' fields, puts that method over the verifier's resource limit.
- EditParty: the asynchronous dialog callback is modelled as running at once, before anything else can change the party.
