// The calculator component's engine state: the grid of tiles, the two
// parties, the line toggles and the event list, with the operations that
// update them in place.

module Calculator {
  import opened CalculatorTypes
  import opened Grid
  import opened Targeting

  /** `generateMatrix`: one fresh tile per slot, the separator columns disabled and marked `x`. */
  method GenerateMatrix(lineHeight: nat) returns (matrix: seq<Tile>)
    ensures |matrix| == LINE_LENGTH * lineHeight
    ensures DistinctTiles(matrix)
    ensures forall i :: 0 <= i < |matrix| ==> fresh(matrix[i])
    ensures forall i :: 0 <= i < |matrix| ==>
      && matrix[i].id == Some(i)
      && (matrix[i].disabled <==> SideOf(i).Err?)
      && matrix[i].value == Some(if matrix[i].disabled then "x" else "")
      && matrix[i].character == None && matrix[i].positionInParty == None
      && matrix[i].targets == null && matrix[i].summonTargets == null && matrix[i].lineColour == None
  {
    matrix := [];
    for i := 0 to LINE_LENGTH * lineHeight
      invariant |matrix| == i
      invariant DistinctTiles(matrix)
      invariant forall k :: 0 <= k < i ==> fresh(matrix[k])
      invariant forall k :: 0 <= k < i ==>
        && matrix[k].id == Some(k)
        && (matrix[k].disabled <==> SideOf(k).Err?)
        && matrix[k].value == Some(if matrix[k].disabled then "x" else "")
        && matrix[k].character == None && matrix[k].positionInParty == None
        && matrix[k].targets == null && matrix[k].summonTargets == null && matrix[k].lineColour == None
    {
      SideFailsExactlyOnSeparators(i);
      var posInLine := PositionInLine(i);
      var tile: Tile;
      if posInLine < 5 {
        tile := new Tile(Some(i), Some(""), false, None, None);
      } else if posInLine > 4 && posInLine < 11 {
        tile := new Tile(Some(i), Some("x"), true, None, None);
      } else {
        tile := new Tile(Some(i), Some(""), false, None, None);
      }
      matrix := matrix + [tile];
    }
  }

  /** The engine-written field a pass resets and sets: `summonTargets` in summon mode, else `targets`. */
  function OutputOf(t: Tile, summonMode: bool): Tile?
    reads t
  {
    if summonMode then t.summonTargets else t.targets
  }

  function TargetTile(r: Option<Attack>): Tile? {
    if r.Some? then r.value.target else null
  }

  /**
   * What a pass leaves in an entry's output field: the target of its step (null
   * with the lines hidden) when the pass reached entry `j`, else what it held.
   */
  function Written(steps: seq<Option<Attack>>, j: nat, shown: bool, before: Tile?): Tile? {
    if j < |steps| then (if shown then TargetTile(steps[j]) else null) else before
  }

  /** The pass reached entry `j` and it resolved a target. */
  predicate Drew(steps: seq<Option<Attack>>, j: nat) {
    j < |steps| && steps[j].Some?
  }

  /** The entries of a party, none for a missing one. */
  function TilesOf(p: Party?): seq<Tile>
    reads p
  {
    if p == null then [] else p.tiles
  }

  /** No tile is shared between the two rosters. */
  predicate Separate(a: seq<Tile>, b: seq<Tile>) {
    forall t :: t in a ==> t !in b
  }

  /** The first index whose entry satisfies `p`, or -1 (`Array.prototype.findIndex`). */
  function FindIndex(tiles: seq<Tile>, p: Tile -> bool): (k: int)
    ensures -1 <= k < |tiles|
    ensures k >= 0 ==> p(tiles[k]) && forall j :: 0 <= j < k ==> !p(tiles[j])
    ensures k == -1 ==> forall j :: 0 <= j < |tiles| ==> !p(tiles[j])
  {
    if tiles == [] then -1
    else if p(tiles[0]) then 0
    else
      var k := FindIndex(tiles[1..], p);
      if k == -1 then -1 else k + 1
  }

  /** In a valid party, an occupied count below four leaves an entry without a slot. */
  lemma {:induction false} FreeEntryExists(tiles: seq<Tile>)
    requires forall i :: 0 <= i < |tiles| && ValidTileId(tiles[i]) ==> tiles[i].character.Some?
    requires OccupiedCount(tiles) < |tiles|
    ensures exists i :: 0 <= i < |tiles| && !ValidTileId(tiles[i])
  {
    var last := |tiles| - 1;
    if ValidTileId(tiles[last]) {
      FreeEntryExists(tiles[..last]);
      var i :| 0 <= i < last && !ValidTileId(tiles[..last][i]);
      assert !ValidTileId(tiles[i]);
    }
  }

  /** Replacing one entry changes the occupied count by the difference of the two entries. */
  lemma {:induction false} OccupiedCountUpdate(tiles: seq<Tile>, i: nat, t: Tile)
    requires i < |tiles|
    ensures OccupiedCount(tiles[i := t]) ==
      OccupiedCount(tiles) - (if Occupied(tiles[i]) then 1 else 0) + (if Occupied(t) then 1 else 0)
    decreases |tiles|
  {
    var last := |tiles| - 1;
    var u := tiles[i := t];
    assert u[..last] == if i == last then tiles[..last] else tiles[..last][i := t];
    if i < last {
      OccupiedCountUpdate(tiles[..last], i, t);
    }
  }

  /** What a click on a side slot did to that side's party. */
  datatype ClickEffect = Removed | Added | Unchanged

  /** `member?.id === tile.id`: the entry stands on the given slot. */
  function OnSlot(id: Option<nat>): Tile -> bool {
    (m: Tile) => m.id == id
  }

  /** `!validTileId(member)`: the entry is a placeholder. */
  predicate IsPlaceholder(m: Tile) {
    !ValidTileId(m)
  }

  /**
   * The party bookkeeping of `onTileClick`. A click on a slot the party holds
   * puts a placeholder keeping the character in its entry, one fewer occupied;
   * a click on another slot, with fewer than four occupied, places the first
   * placeholder's character there (or the `chosen` one, for a placeholder
   * without a character), one more occupied; otherwise nothing changes.
   * `placed` is the tile the grid shows on the slot afterwards.
   */
  method EditParty(party: Party, tile: Tile, chosen: Option<Character>)
    returns (effect: ClickEffect, placed: Tile?)
    requires party.Valid() && tile.id.Some?
    modifies party
    ensures party.Valid()
    ensures var k := FindIndex(old(party.tiles), OnSlot(tile.id));
      k != -1 ==> effect == Removed && placed != null && Vacated(party, old(party.tiles), old(party.size), k, tile, placed)
    ensures var k := FindIndex(old(party.tiles), OnSlot(tile.id));
      var u := FindIndex(old(party.tiles), IsPlaceholder);
      k == -1 && old(party.size) < PARTY_SIZE ==>
        && 0 <= u
        && var c := if old(party.tiles)[u].character.Some? then old(party.tiles)[u].character else chosen;
        && (c.None? ==> effect == Unchanged && placed == null && unchanged(party))
        && (c.Some? ==> effect == Added && placed != null && Occupies(party, old(party.tiles), old(party.size), u, tile, c.value, placed))
    ensures FindIndex(old(party.tiles), OnSlot(tile.id)) == -1 && old(party.size) >= PARTY_SIZE ==>
      effect == Unchanged && placed == null && unchanged(party)
  {
    var tileIndexInParty := FindIndex(party.tiles, OnSlot(tile.id));
    if tileIndexInParty != -1 {
      placed := RemoveEntry(party, tileIndexInParty, tile);
      effect := Removed;
    } else if party.size < PARTY_SIZE {
      FreeEntryExists(party.tiles);
      var unusedIndex := FindIndex(party.tiles, IsPlaceholder);
      var selectedCharacter := party.tiles[unusedIndex].character;
      var character := if selectedCharacter.Some? then selectedCharacter else chosen;
      if character.Some? {
        placed := PlaceEntry(party, unusedIndex, tile, character.value);
        effect := Added;
      } else {
        effect, placed := Unchanged, null;
      }
    } else {
      effect, placed := Unchanged, null;
    }
  }

  /**
   * What a click on the slot of `tile` does to that side's roster `before`
   * holding `sizeBefore` occupied entries: when an entry stands on the slot,
   * it becomes a placeholder keeping the character and one fewer is occupied;
   * otherwise, with fewer than four occupied, the first placeholder's entry
   * becomes the slot holding that placeholder's character, or `chosen` when it
   * has none, and one more is occupied; in every other case nothing changes.
   */
  predicate RosterEdited(before: seq<Tile>, sizeBefore: int, after: seq<Tile>, sizeAfter: int,
                         tile: Tile, chosen: Option<Character>, effect: ClickEffect)
  {
    var k := FindIndex(before, OnSlot(tile.id));
    var u := FindIndex(before, IsPlaceholder);
    && |after| == |before|
    && (k != -1 ==>
          && effect == Removed && sizeAfter == sizeBefore - 1
          && after == before[k := after[k]] && after[k].id == None && after[k].character == tile.character)
    && (k == -1 && sizeBefore < PARTY_SIZE ==>
          && 0 <= u
          && var c := if before[u].character.Some? then before[u].character else chosen;
          && (c.None? ==> effect == Unchanged)
          && (c.Some? ==>
                && effect == Added && sizeAfter == sizeBefore + 1
                && after == before[u := after[u]] && after[u].id == tile.id && after[u].character == c))
    && (k == -1 && sizeBefore >= PARTY_SIZE ==> effect == Unchanged)
    && (effect == Unchanged ==> after == before && sizeAfter == sizeBefore)
  }

  /**
   * After a removal: entry `k` is a fresh placeholder keeping the character,
   * the others are as `before`, one fewer is occupied, and the grid's tile for
   * the slot is a fresh copy of the clicked one without character or lines.
   */
  twostate predicate Vacated(party: Party, before: seq<Tile>, sizeBefore: int, k: nat, tile: Tile, new placed: Tile)
    reads party, party.tiles, placed
  {
    && k < |before| && |party.tiles| == |before|
    && party.size == sizeBefore - 1
    && party.tiles == before[k := party.tiles[k]]
    && fresh(party.tiles[k])
    && party.tiles[k].id == None && party.tiles[k].character == tile.character
    && party.tiles[k].positionInParty == Some(k)
    && fresh(placed)
    && placed.id == tile.id && placed.value == tile.value && placed.disabled == tile.disabled
    && placed.character == None && placed.positionInParty == None
    && placed.targets == null && placed.summonTargets == null && placed.lineColour == old(tile.lineColour)
  }

  /**
   * After an addition: entry `u` is `placed`, a fresh copy of the clicked tile
   * holding character `c` at position `u` and keeping its lines; the others are
   * as `before`; one more is occupied.
   */
  twostate predicate Occupies(party: Party, before: seq<Tile>, sizeBefore: int, u: nat, tile: Tile, c: Character,
                              new placed: Tile)
    reads party, placed
  {
    && u < |before|
    && party.size == sizeBefore + 1
    && party.tiles == before[u := placed]
    && fresh(placed)
    && placed.id == tile.id && placed.value == tile.value && placed.disabled == tile.disabled
    && placed.character == Some(c) && placed.positionInParty == Some(u)
    && placed.targets == old(tile.targets) && placed.summonTargets == old(tile.summonTargets)
    && placed.lineColour == old(tile.lineColour)
  }

  /** The removal branch: a placeholder replaces entry `k`, which stands on the clicked slot. */
  method RemoveEntry(party: Party, k: nat, tile: Tile) returns (placed: Tile)
    requires party.Valid() && k < |party.tiles| && tile.id.Some? && party.tiles[k].id == tile.id
    modifies party
    ensures party.Valid()
    ensures Vacated(party, old(party.tiles), old(party.size), k, tile, placed)
  {
    var placeholder := new Tile(None, None, false, tile.character, Some(k));
    OccupiedCountUpdate(party.tiles, k, placeholder);
    UniqueSlotsUpdate(party.tiles, k, placeholder);
    FreshEntryKeepsDistinct(party.tiles, k, placeholder);
    party.tiles := party.tiles[k := placeholder];
    party.size := party.size - 1;
    placed := new Tile(tile.id, tile.value, tile.disabled, None, None);
    placed.lineColour := tile.lineColour;
  }

  /** The addition branch: the clicked slot, holding `c`, replaces placeholder entry `u`. */
  method PlaceEntry(party: Party, u: nat, tile: Tile, c: Character) returns (placed: Tile)
    requires party.Valid() && u < |party.tiles| && tile.id.Some? && !ValidTileId(party.tiles[u])
    requires forall j :: 0 <= j < |party.tiles| ==> party.tiles[j].id != tile.id
    modifies party
    ensures party.Valid()
    ensures Occupies(party, old(party.tiles), old(party.size), u, tile, c, placed)
  {
    placed := new Tile(tile.id, tile.value, tile.disabled, Some(c), Some(u));
    placed.targets := tile.targets;
    placed.summonTargets := tile.summonTargets;
    placed.lineColour := tile.lineColour;
    OccupiedCountUpdate(party.tiles, u, placed);
    UniqueSlotsUpdate(party.tiles, u, placed);
    FreshEntryKeepsDistinct(party.tiles, u, placed);
    party.tiles := party.tiles[u := placed];
    party.size := party.size + 1;
  }

  /** Replacing entries of a roster by fresh ones keeps it apart from another roster. */
  lemma SeparateAfterEdit(before: seq<Tile>, after: seq<Tile>, other: seq<Tile>)
    requires |after| == |before| && Separate(before, other) && Separate(other, before)
    requires forall j :: 0 <= j < |after| ==> after[j] == before[j] || after[j] !in other
    ensures Separate(after, other) && Separate(other, after)
  {
  }

  /** Putting an entry that occurs nowhere in a roster of distinct entries keeps them distinct. */
  lemma FreshEntryKeepsDistinct(tiles: seq<Tile>, i: nat, t: Tile)
    requires DistinctTiles(tiles) && i < |tiles| && t !in tiles
    ensures DistinctTiles(tiles[i := t])
  {
    var u := tiles[i := t];
    forall j | 0 <= j < |u| ensures u[j] !in u[..j] {
      forall k | 0 <= k < j ensures u[..j][k] != u[j] {
        if j == i {
          assert u[k] == tiles[k];
        } else if k == i {
          assert u[j] == tiles[j];
        } else {
          DistinctAt(tiles, j, k);
        }
      }
    }
  }

  class Calculator {
    /** The character catalog (`characterService.getCharacter`). */
    const catalog: CharId -> Character
    var showAllyLinesChecked: bool
    var showEnemyLinesChecked: bool
    var goodParty: Party?
    var evilParty: Party?
    var events: seq<Attack>
    var matrix: seq<Tile>

    /** Each party present is valid; two present parties are different objects sharing no tile. */
    ghost predicate Valid()
      reads this, goodParty, evilParty
    {
      && (goodParty != null ==> goodParty.Valid())
      && (evilParty != null ==> evilParty.Valid())
      && (goodParty != null && evilParty != null ==>
            goodParty != evilParty && Separate(goodParty.tiles, evilParty.tiles))
    }

    constructor (catalog: CharId -> Character, lineHeight: nat)
      ensures Valid()
      ensures this.catalog == catalog
      ensures showAllyLinesChecked && showEnemyLinesChecked
      ensures goodParty == null && evilParty == null && events == []
      ensures |matrix| == LINE_LENGTH * lineHeight
      ensures forall i :: 0 <= i < |matrix| ==>
        matrix[i].id == Some(i) && (matrix[i].disabled <==> SideOf(i).Err?) && matrix[i].character == None
    {
      this.catalog := catalog;
      showAllyLinesChecked := true;
      showEnemyLinesChecked := true;
      goodParty := null;
      evilParty := null;
      events := [];
      matrix := [];
      new;
      matrix := GenerateMatrix(lineHeight);
    }

    /** Whether the display toggle for a line colour is on. */
    function LinesShown(colour: LineColour): bool
      reads this
    {
      (colour == AllyColour && showAllyLinesChecked) || (colour == EnemyColour && showEnemyLinesChecked)
    }

    /**
     * The body of `calcTeamTarget`'s per-attacker step, without its writes: the
     * skip tests, the acting character, the archetype with its single fallback,
     * and the pick after sorting by distance.
     */
    method ResolveAttacker(attacker: Tile, attackers: seq<Tile>, defenders: seq<Tile>,
                           alreadyInTarget: seq<Tile>, summonMode: bool)
      returns (outcome: Option<Attack>)
      ensures outcome == Resolve(attacker, attackers, defenders, alreadyInTarget, summonMode, catalog)
    {
      if !ValidTileId(attacker) || (summonMode && !(attacker.character.Some? && HasSummon(attacker.character.value)))
         || attacker.character.None? {
        return None;
      }

      var attackerCharacter := if summonMode then catalog(attacker.character.value.summonId.value)
                               else attacker.character.value;
      var usingAi := attackerCharacter.aiType;
      var potentialTargets := GetTargets(attacker, usingAi, attackers, defenders, alreadyInTarget);

      if potentialTargets == [] {
        if attackerCharacter.fallbackAiType.Some? {
          usingAi := attackerCharacter.fallbackAiType.value;
          potentialTargets := GetTargets(attacker, usingAi, attackers, defenders, alreadyInTarget);
        }
        if potentialTargets == [] {
          return None;
        }
      }

      var attackerPos := PositionOf(attacker.id.value);
      var k := SelectTarget(attackerPos, potentialTargets, usingAi == Ally);
      var target := potentialTargets[k];
      outcome := Some(Attack(attacker, attackerCharacter, target, DistanceTo(attackerPos, target)));
    }

    /**
     * The per-attacker callback of `calcTeamTarget`'s reduce: reset the output
     * field, resolve, and write the target and colour when the lines are shown.
     */
    method ResolveAndRecord(attacker: Tile, attackers: seq<Tile>, defenders: seq<Tile>,
                            alreadyInTarget: seq<Tile>, lineColour: LineColour, shown: bool, summonMode: bool)
      returns (outcome: Option<Attack>)
      modifies attacker
      ensures outcome == Resolve(attacker, attackers, defenders, alreadyInTarget, summonMode, catalog)
      ensures OutputOf(attacker, summonMode) == if shown then TargetTile(outcome) else null
      ensures OutputOf(attacker, !summonMode) == old(OutputOf(attacker, !summonMode))
      ensures attacker.lineColour ==
        if shown && outcome.Some? then Some(lineColour) else old(attacker.lineColour)
    {
      if summonMode {
        attacker.summonTargets := null;
      } else {
        attacker.targets := null;
      }
      outcome := ResolveAttacker(attacker, attackers, defenders, alreadyInTarget, summonMode);
      if outcome.Some? && shown {
        if summonMode {
          attacker.summonTargets := outcome.value.target;
          attacker.lineColour := Some(lineColour);
        } else {
          attacker.targets := outcome.value.target;
          attacker.lineColour := Some(lineColour);
        }
      }
    }

    /**
     * One call of `calcTeamTarget`'s reduce callback on the `i`-th attacker: the
     * step resolves and records it; then building its event text throws when
     * the target holds no character, before anything is appended; otherwise
     * the step appends its attack and claim.
     */
    method ReduceStep(attackers: seq<Tile>, i: nat, defenders: seq<Tile>, lineColour: LineColour, shown: bool,
                      targeted: seq<Tile>, summonMode: bool,
                      events: seq<Attack>, alreadyInTarget: seq<Tile>, ghost steps: seq<Option<Attack>>)
      returns (events': seq<Attack>, alreadyInTarget': seq<Tile>, thrown: bool, ghost steps': seq<Option<Attack>>)
      requires i < |attackers|
      requires events == PassAttacks(attackers, i, defenders, targeted, summonMode, catalog)
      requires alreadyInTarget == targeted + TargetsOf(events)
      requires steps == PassSteps(attackers, i, defenders, targeted, summonMode, catalog)
      modifies attackers[i]
      ensures steps' == PassSteps(attackers, i + 1, defenders, targeted, summonMode, catalog)
      ensures steps' == steps + [steps'[i]]
      ensures thrown <==> Throws(steps'[i])
      ensures !thrown ==> events' == PassAttacks(attackers, i + 1, defenders, targeted, summonMode, catalog)
      ensures thrown ==> events' == events
      ensures alreadyInTarget' == targeted + TargetsOf(events')
      ensures OutputOf(attackers[i], summonMode) == if shown then TargetTile(steps'[i]) else null
      ensures OutputOf(attackers[i], !summonMode) == old(OutputOf(attackers[i], !summonMode))
      ensures attackers[i].lineColour ==
        if shown && steps'[i].Some? then Some(lineColour) else old(attackers[i].lineColour)
    {
      var outcome := ResolveAndRecord(attackers[i], attackers, defenders, alreadyInTarget, lineColour, shown, summonMode);
      PassAdvance(attackers, i, defenders, targeted, summonMode, catalog, events, steps, outcome);
      steps' := steps + [outcome];
      if outcome.Some? && outcome.value.target.character.None? {
        return events, alreadyInTarget, true, steps';
      }
      thrown := false;
      if outcome.Some? {
        ClaimsAdvance(targeted, events, alreadyInTarget, outcome.value);
        events' := events + [outcome.value];
        alreadyInTarget' := alreadyInTarget + [outcome.value.target];
      } else {
        events' := events;
        alreadyInTarget' := alreadyInTarget;
      }
    }

    /**
     * `calcTeamTarget`: one pass of a roster against the other, threading the
     * claimed list; a throw stops the pass after the attacker that threw.
     */
    method CalcTeamTarget(attackers: seq<Tile>, defenders: seq<Tile>, lineColour: LineColour, shown: bool,
                          targeted: seq<Tile>, summonMode: bool)
      returns (events: seq<Attack>, targetedUpd: seq<Tile>, completed: bool, ghost steps: seq<Option<Attack>>)
      requires DistinctTiles(attackers)
      modifies attackers
      ensures steps == PassRun(attackers, defenders, targeted, summonMode, catalog)
      ensures completed <==> NoThrow(steps)
      ensures completed ==> events == Resolved(steps)
      ensures !completed ==> events == Resolved(steps[..|steps| - 1])
      ensures targetedUpd == targeted + TargetsOf(events)
      ensures forall j :: 0 <= j < |attackers| ==>
        && OutputOf(attackers[j], summonMode) == Written(steps, j, shown, old(OutputOf(attackers[j], summonMode)))
        && OutputOf(attackers[j], !summonMode) == old(OutputOf(attackers[j], !summonMode))
        && attackers[j].lineColour ==
             (if shown && Drew(steps, j) then Some(lineColour) else old(attackers[j].lineColour))
    {
      events := [];
      var alreadyInTarget := targeted;
      steps := [];
      for i := 0 to |attackers|
        invariant events == PassAttacks(attackers, i, defenders, targeted, summonMode, catalog)
        invariant alreadyInTarget == targeted + TargetsOf(events)
        invariant steps == PassSteps(attackers, i, defenders, targeted, summonMode, catalog)
        invariant NoThrow(steps)
        invariant forall j :: 0 <= j < |attackers| ==>
          && OutputOf(attackers[j], summonMode) == Written(steps, j, shown, old(OutputOf(attackers[j], summonMode)))
          && OutputOf(attackers[j], !summonMode) == old(OutputOf(attackers[j], !summonMode))
          && attackers[j].lineColour ==
               (if shown && Drew(steps, j) then Some(lineColour) else old(attackers[j].lineColour))
      {
        label Before:
        ghost var steps';
        var thrown;
        events, alreadyInTarget, thrown, steps' :=
          ReduceStep(attackers, i, defenders, lineColour, shown, targeted, summonMode, events, alreadyInTarget, steps);
        forall j | 0 <= j < |attackers|
          ensures OutputOf(attackers[j], summonMode) ==
            Written(steps', j, shown, old(OutputOf(attackers[j], summonMode)))
          ensures OutputOf(attackers[j], !summonMode) == old(OutputOf(attackers[j], !summonMode))
          ensures attackers[j].lineColour ==
            (if shown && Drew(steps', j) then Some(lineColour) else old(attackers[j].lineColour))
        {
          if j != i {
            DistinctAt(attackers, i, j);
            assert OutputOf(attackers[j], summonMode) == old@Before(OutputOf(attackers[j], summonMode));
            assert OutputOf(attackers[j], !summonMode) == old@Before(OutputOf(attackers[j], !summonMode));
            assert attackers[j].lineColour == old@Before(attackers[j].lineColour);
          }
          if j < i {
            assert steps'[j] == steps[j];
          }
        }
        if thrown {
          assert steps'[..i] == steps;
          PassRunStops(attackers, i, defenders, targeted, summonMode, catalog);
          return events, alreadyInTarget, false, steps';
        }
        steps := steps';
      }
      PassRunCompletes(attackers, defenders, targeted, summonMode, catalog);
      targetedUpd := alreadyInTarget;
      completed := true;
    }

    /**
     * `calculateEvents`: with both parties present, the four passes in their
     * fixed order with the claims threaded from empty; when none threw, the
     * event list becomes their attacks concatenated, and when one threw it
     * keeps its old value. Each good entry ends with its own pass's target in
     * `targets` and its summon's in `summonTargets` (null when the ally lines
     * are hidden) for every pass that reached it, and the evil entries
     * likewise; with a party missing, nothing changes.
     */
    method CalculateEvents()
      requires goodParty != null && evilParty != null ==>
        DistinctTiles(goodParty.tiles) && DistinctTiles(evilParty.tiles) && Separate(goodParty.tiles, evilParty.tiles)
      modifies this`events, TilesOf(goodParty), TilesOf(evilParty)
      ensures old(goodParty) == null || old(evilParty) == null ==>
        events == old(events) && unchanged(old(TilesOf(goodParty))) && unchanged(old(TilesOf(evilParty)))
      ensures old(goodParty) != null && old(evilParty) != null ==>
        events == ResolveAll(old(goodParty.tiles), old(evilParty.tiles), catalog).EventsAfter(old(events))
      ensures goodParty == old(goodParty) && evilParty == old(evilParty) && matrix == old(matrix)
      ensures goodParty != null ==> goodParty.tiles == old(goodParty.tiles) && goodParty.size == old(goodParty.size)
      ensures evilParty != null ==> evilParty.tiles == old(evilParty.tiles) && evilParty.size == old(evilParty.size)
    {
      if goodParty == null || evilParty == null {
        return;
      }
      var newEvents, completed := Recalculate(goodParty.tiles, evilParty.tiles, LinesShown(AllyColour),
                                              LinesShown(EnemyColour));
      events := if completed then newEvents else events;
    }

    /**
     * The event list of the four passes over two rosters and whether they ran
     * to their end, their writes left to `RunPasses`'s contract.
     */
    method Recalculate(good: seq<Tile>, evil: seq<Tile>, allyShown: bool, enemyShown: bool)
      returns (events: seq<Attack>, completed: bool)
      requires DistinctTiles(good) && DistinctTiles(evil) && Separate(good, evil)
      modifies good, evil
      ensures completed <==> ResolveAll(good, evil, catalog).Completed()
      ensures completed ==> events == ResolveAll(good, evil, catalog).Events()
      ensures var s := ResolveAll(good, evil, catalog);
        forall j :: 0 <= j < |good| ==>
          && good[j].targets == Written(s.goodSteps, j, allyShown, old(good[j].targets))
          && good[j].summonTargets == Written(s.goodSummonSteps, j, allyShown, old(good[j].summonTargets))
          && good[j].lineColour ==
               (if allyShown && (Drew(s.goodSteps, j) || Drew(s.goodSummonSteps, j)) then Some(AllyColour)
                else old(good[j].lineColour))
      ensures var s := ResolveAll(good, evil, catalog);
        forall j :: 0 <= j < |evil| ==>
          && evil[j].targets == Written(s.evilSteps, j, enemyShown, old(evil[j].targets))
          && evil[j].summonTargets == Written(s.evilSummonSteps, j, enemyShown, old(evil[j].summonTargets))
          && evil[j].lineColour ==
               (if enemyShown && (Drew(s.evilSteps, j) || Drew(s.evilSummonSteps, j)) then Some(EnemyColour)
                else old(evil[j].lineColour))
    {
      ghost var schedule;
      events, completed, schedule := RunPasses(good, evil, allyShown, enemyShown);
    }

    /** The party on one side of the grid (`returnParty` once the zone is known). */
    function PartyOn(side: Side): Party?
      reads this
    {
      if side == GoodSide then goodParty else evilParty
    }

    /**
     * `onTileClick`: a click on a separator slot fails; a click on a side slot
     * edits that side's party as `RosterEdited` says, leaves the other party
     * as it was, shows the edited tile on the slot and, when anything changed,
     * recalculates from the new rosters (the events stay as they were when the
     * recalculation throws).
     */
    method OnTileClick(tile: Tile, chosen: Option<Character>) returns (r: Result<ClickEffect>)
      requires Valid() && goodParty != null && evilParty != null
      requires tile.id.Some? && tile.id.value < |matrix|
      modifies this`matrix, this`events, goodParty, evilParty, TilesOf(goodParty), TilesOf(evilParty)
      ensures Valid()
      ensures goodParty == old(goodParty) && evilParty == old(evilParty)
      ensures r.Err? <==> IsSeparatorColumn(PositionInLine(tile.id.value))
      ensures r.Err? || r == Ok(Unchanged) ==>
        && matrix == old(matrix) && events == old(events)
        && unchanged(goodParty, evilParty) && unchanged(goodParty.tiles) && unchanged(evilParty.tiles)
      ensures r.Ok? ==>
        && var p := PartyOn(SideOf(tile.id.value).value);
        && RosterEdited(old(p.tiles), old(p.size), p.tiles, p.size, tile, chosen, r.value)
        && var q := PartyOn(if SideOf(tile.id.value).value == GoodSide then EvilSide else GoodSide);
        && q.tiles == old(q.tiles) && q.size == old(q.size)
      ensures r.Ok? && r.value != Unchanged ==>
        && SlotRedrawn(old(matrix), matrix, tile, r.value, goodParty.tiles, evilParty.tiles)
        && fresh(matrix[tile.id.value])
        && events == ResolveAll(goodParty.tiles, evilParty.tiles, catalog).EventsAfter(old(events))
    {
      r := EditSide(tile, chosen);
      assert events == old(events);
      if r.Err? || r.value == Unchanged {
        assert goodParty.tiles == old(goodParty.tiles) && evilParty.tiles == old(evilParty.tiles);
        return;
      }
      ghost var edited := (matrix, goodParty.tiles, goodParty.size, evilParty.tiles, evilParty.size);
      ghost var p, q := goodParty, evilParty;
      CalculateEvents();
      assert edited == (matrix, p.tiles, p.size, q.tiles, q.size);
    }

    /**
     * After a change: the grid `after` differs from `before` only at the
     * clicked slot, whose tile stands on that slot, has no character exactly
     * when the click removed one, and is in the roster of its side (`good` or
     * `evil`) when the click added one.
     */
    static predicate SlotRedrawn(before: seq<Tile>, after: seq<Tile>, tile: Tile, effect: ClickEffect,
                                 good: seq<Tile>, evil: seq<Tile>)
      requires tile.id.Some?
    {
      var slot := tile.id.value;
      && slot < |after| == |before|
      && (forall i :: 0 <= i < |after| && i != slot ==> after[i] == before[i])
      && after[slot].id == tile.id
      && (effect == Removed <==> after[slot].character.None?)
      && (effect == Added ==>
            SideOf(slot).Ok? && after[slot] in (if SideOf(slot).value == GoodSide then good else evil))
    }

    /**
     * The part of `onTileClick` before the recalculation: the zone check, the
     * edit of the clicked side's party, which leaves the other party as it
     * was, and the grid update.
     */
    method EditSide(tile: Tile, chosen: Option<Character>) returns (r: Result<ClickEffect>)
      requires Valid() && goodParty != null && evilParty != null
      requires tile.id.Some? && tile.id.value < |matrix|
      modifies this`matrix, goodParty, evilParty
      ensures Valid()
      ensures goodParty == old(goodParty) && evilParty == old(evilParty)
      ensures r.Err? <==> IsSeparatorColumn(PositionInLine(tile.id.value))
      ensures r.Err? || r == Ok(Unchanged) ==> matrix == old(matrix) && unchanged(goodParty, evilParty)
      ensures r.Ok? ==> unchanged(PartyOn(if SideOf(tile.id.value).value == GoodSide then EvilSide else GoodSide))
      ensures r.Ok? ==> var p := PartyOn(SideOf(tile.id.value).value);
        RosterEdited(old(p.tiles), old(p.size), p.tiles, p.size, tile, chosen, r.value)
      ensures forall j :: 0 <= j < |goodParty.tiles| ==> goodParty.tiles[j] in old(goodParty.tiles) || fresh(goodParty.tiles[j])
      ensures forall j :: 0 <= j < |evilParty.tiles| ==> evilParty.tiles[j] in old(evilParty.tiles) || fresh(evilParty.tiles[j])
      ensures r.Ok? && r.value != Unchanged ==>
        SlotRedrawn(old(matrix), matrix, tile, r.value, goodParty.tiles, evilParty.tiles) && fresh(matrix[tile.id.value])
    {
      var slot := tile.id.value;
      SideFailsExactlyOnSeparators(slot);
      var side := SideOf(slot);
      if side.Err? {
        return Err(InvalidZone);
      }
      var effect, placed;
      if side.value == GoodSide {
        effect, placed := EditRoster(goodParty, evilParty, tile, chosen);
      } else {
        effect, placed := EditRoster(evilParty, goodParty, tile, chosen);
      }
      matrix := if effect != Unchanged then matrix[slot := placed] else matrix;
      r := Ok(effect);
    }

    /**
     * `EditParty` on one party, seen from the other: the roster is edited as
     * the click demands, stays valid and apart from the other one, its entries
     * are old or fresh, and `placed` is present exactly when something changed.
     */
    static method EditRoster(party: Party, other: Party, tile: Tile, chosen: Option<Character>)
      returns (effect: ClickEffect, placed: Tile?)
      requires party.Valid() && party != other && tile.id.Some?
      requires Separate(party.tiles, other.tiles) && Separate(other.tiles, party.tiles)
      modifies party
      ensures party.Valid() && Separate(party.tiles, other.tiles) && Separate(other.tiles, party.tiles)
      ensures |party.tiles| == |old(party.tiles)|
      ensures forall j :: 0 <= j < |party.tiles| ==> party.tiles[j] in old(party.tiles) || fresh(party.tiles[j])
      ensures effect == Unchanged <==> placed == null
      ensures effect == Unchanged ==> unchanged(party)
      ensures RosterEdited(old(party.tiles), old(party.size), party.tiles, party.size, tile, chosen, effect)
      ensures placed != null ==>
        && fresh(placed) && placed.id == tile.id
        && (effect == Removed <==> placed.character.None?)
        && (effect == Added ==> placed in party.tiles)
    {
      effect, placed := EditParty(party, tile, chosen);
      if effect != Unchanged {
        SeparateAfterEdit(old(party.tiles), party.tiles, other.tiles);
      }
    }

    /**
     * The four `calcTeamTarget` calls of `calculateEvents`, the later ones made
     * only when none before threw, with what each roster's entries hold
     * afterwards in terms of the passes' steps.
     */
    method RunPasses(good: seq<Tile>, evil: seq<Tile>, allyShown: bool, enemyShown: bool)
      returns (events: seq<Attack>, completed: bool, ghost schedule: Schedule)
      requires DistinctTiles(good) && DistinctTiles(evil) && Separate(good, evil)
      modifies good, evil
      ensures schedule == ResolveAll(good, evil, catalog)
      ensures completed <==> schedule.Completed()
      ensures completed ==> events == schedule.Events()
      ensures forall j :: 0 <= j < |good| ==>
        && good[j].targets == Written(schedule.goodSteps, j, allyShown, old(good[j].targets))
        && good[j].summonTargets == Written(schedule.goodSummonSteps, j, allyShown, old(good[j].summonTargets))
        && good[j].lineColour ==
             (if allyShown && (Drew(schedule.goodSteps, j) || Drew(schedule.goodSummonSteps, j)) then Some(AllyColour)
              else old(good[j].lineColour))
      ensures forall j :: 0 <= j < |evil| ==>
        && evil[j].targets == Written(schedule.evilSteps, j, enemyShown, old(evil[j].targets))
        && evil[j].summonTargets == Written(schedule.evilSummonSteps, j, enemyShown, old(evil[j].summonTargets))
        && evil[j].lineColour ==
             (if enemyShown && (Drew(schedule.evilSteps, j) || Drew(schedule.evilSummonSteps, j)) then Some(EnemyColour)
              else old(evil[j].lineColour))
    {
      var e1, e2, c1, c2, firstRound;
      ghost var s1, s2;
      e1, e2, c1, c2, firstRound, s1, s2 := RunRound(good, evil, allyShown, enemyShown, [], false);
      label AfterFirst:
      var e3, e4, c3, claims, secondRound := [], [], c2, c2, false;
      ghost var s3: seq<Option<Attack>>, s4: seq<Option<Attack>> := [], [];
      if firstRound {
        e3, e4, c3, claims, secondRound, s3, s4 := RunRound(good, evil, allyShown, enemyShown, c2, true);
      }
      completed := firstRound && secondRound;
      events := e1 + e2 + e3 + e4;
      ScheduleOfPasses(good, evil, catalog, e1, e2, e3, e4, c1, c2, c3, s1, s2, s3, s4);
      schedule := Schedule(s1, s2, s3, s4);
      forall j | 0 <= j < |good|
        ensures good[j].targets == Written(s1, j, allyShown, old(good[j].targets))
        ensures good[j].summonTargets == Written(s3, j, allyShown, old(good[j].summonTargets))
        ensures good[j].lineColour ==
          (if allyShown && (Drew(s1, j) || Drew(s3, j)) then Some(AllyColour) else old(good[j].lineColour))
      {
        assert good[j].targets == old@AfterFirst(good[j].targets);
      }
      forall j | 0 <= j < |evil|
        ensures evil[j].targets == Written(s2, j, enemyShown, old(evil[j].targets))
        ensures evil[j].summonTargets == Written(s4, j, enemyShown, old(evil[j].summonTargets))
        ensures evil[j].lineColour ==
          (if enemyShown && (Drew(s2, j) || Drew(s4, j)) then Some(EnemyColour) else old(evil[j].lineColour))
      {
        assert evil[j].targets == old@AfterFirst(evil[j].targets);
      }
    }

    /**
     * Two consecutive passes of `calculateEvents` in one mode: the good roster
     * on the evil one, then, unless the first threw, the evil roster on the
     * good one seeing its claims.
     */
    method RunRound(good: seq<Tile>, evil: seq<Tile>, allyShown: bool, enemyShown: bool,
                    claims: seq<Tile>, summonMode: bool)
      returns (eg: seq<Attack>, ee: seq<Attack>, cg: seq<Tile>, ce: seq<Tile>, completed: bool,
               ghost sg: seq<Option<Attack>>, ghost se: seq<Option<Attack>>)
      requires DistinctTiles(good) && DistinctTiles(evil) && Separate(good, evil)
      modifies good, evil
      ensures sg == PassRun(good, evil, claims, summonMode, catalog)
      ensures NoThrow(sg) ==> eg == Resolved(sg) && cg == claims + TargetsOf(eg)
      ensures se == if NoThrow(sg) then PassRun(evil, good, cg, summonMode, catalog) else []
      ensures NoThrow(sg) && NoThrow(se) ==> ee == Resolved(se) && ce == cg + TargetsOf(ee)
      ensures completed <==> NoThrow(sg) && NoThrow(se)
      ensures forall j :: 0 <= j < |good| ==>
        && OutputOf(good[j], summonMode) == Written(sg, j, allyShown, old(OutputOf(good[j], summonMode)))
        && OutputOf(good[j], !summonMode) == old(OutputOf(good[j], !summonMode))
        && good[j].lineColour ==
             (if allyShown && Drew(sg, j) then Some(AllyColour) else old(good[j].lineColour))
      ensures forall j :: 0 <= j < |evil| ==>
        && OutputOf(evil[j], summonMode) == Written(se, j, enemyShown, old(OutputOf(evil[j], summonMode)))
        && OutputOf(evil[j], !summonMode) == old(OutputOf(evil[j], !summonMode))
        && evil[j].lineColour ==
             (if enemyShown && Drew(se, j) then Some(EnemyColour) else old(evil[j].lineColour))
    {
      var goodDone;
      eg, cg, goodDone, sg := CalcTeamTarget(good, evil, AllyColour, allyShown, claims, summonMode);
      if !goodDone {
        ee, ce, completed, se := [], cg, false, [];
        forall j | 0 <= j < |evil|
          ensures OutputOf(evil[j], summonMode) == old(OutputOf(evil[j], summonMode))
          ensures OutputOf(evil[j], !summonMode) == old(OutputOf(evil[j], !summonMode))
          ensures evil[j].lineColour == old(evil[j].lineColour)
        {
          assert evil[j] !in good;
        }
        return;
      }
      label AfterGood:
      ee, ce, completed, se := CalcTeamTarget(evil, good, EnemyColour, enemyShown, cg, summonMode);
      forall j | 0 <= j < |good|
        ensures OutputOf(good[j], summonMode) == Written(sg, j, allyShown, old(OutputOf(good[j], summonMode)))
        ensures OutputOf(good[j], !summonMode) == old(OutputOf(good[j], !summonMode))
        ensures good[j].lineColour ==
          (if allyShown && Drew(sg, j) then Some(AllyColour) else old(good[j].lineColour))
      {
        assert good[j] !in evil;
        assert OutputOf(good[j], summonMode) == old@AfterGood(OutputOf(good[j], summonMode));
        assert OutputOf(good[j], !summonMode) == old@AfterGood(OutputOf(good[j], !summonMode));
        assert good[j].lineColour == old@AfterGood(good[j].lineColour);
      }
      forall j | 0 <= j < |evil|
        ensures OutputOf(evil[j], summonMode) == Written(se, j, enemyShown, old(OutputOf(evil[j], summonMode)))
        ensures OutputOf(evil[j], !summonMode) == old(OutputOf(evil[j], !summonMode))
        ensures evil[j].lineColour ==
          (if enemyShown && Drew(se, j) then Some(EnemyColour) else old(evil[j].lineColour))
      {
        assert evil[j] !in good;
        assert old@AfterGood(OutputOf(evil[j], summonMode)) == old(OutputOf(evil[j], summonMode));
        assert old@AfterGood(OutputOf(evil[j], !summonMode)) == old(OutputOf(evil[j], !summonMode));
        assert old@AfterGood(evil[j].lineColour) == old(evil[j].lineColour);
      }
    }
  }
}
