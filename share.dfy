// The pair list a party is shared and remembered as: one `[slot, character id]`
// pair per roster entry, either half null when absent.

module Share {
  import opened CalculatorTypes

  /** One shared pair: the entry's slot id and its character's id, each possibly null. */
  datatype SharedEntry = SharedEntry(slot: Option<nat>, characterId: Option<CharId>)

  /** `e.character?.id || null`: an empty character id is falsy and is shared as null. */
  function SharedCharacterId(t: Tile): Option<CharId> {
    if t.character.Some? && t.character.value.id != "" then Some(t.character.value.id) else None
  }

  /** `partyToShare` without the JSON text: the pairs of the entries, in roster order. */
  function PartyToShare(tiles: seq<Tile>): (r: seq<SharedEntry>)
    ensures |r| == |tiles|
    ensures forall i :: 0 <= i < |tiles| ==>
      r[i].slot == tiles[i].id && r[i].characterId == SharedCharacterId(tiles[i])
  {
    if tiles == [] then []
    else PartyToShare(tiles[..|tiles| - 1]) + [SharedEntry(tiles[|tiles| - 1].id, SharedCharacterId(tiles[|tiles| - 1]))]
  }

  /**
   * How `resetParty` reads one pair back: the slot as given, and the character
   * looked up in the catalog when its id is truthy.
   */
  function RestoreEntry(e: SharedEntry, catalog: CharId -> Character): (Option<nat>, Option<Character>) {
    (e.slot, if e.characterId.Some? && e.characterId.value != "" then Some(catalog(e.characterId.value)) else None)
  }

  /** The catalog returns each character under its own, non-empty id. */
  predicate CatalogKnows(catalog: CharId -> Character, c: Character) {
    c.id != "" && catalog(c.id) == c
  }

  /**
   * Sharing loses nothing the catalog can restore: reading the pairs back gives
   * every entry its slot and its character, in roster order.
   */
  lemma ShareRoundTrip(tiles: seq<Tile>, catalog: CharId -> Character)
    requires forall i :: 0 <= i < |tiles| && tiles[i].character.Some? ==>
      CatalogKnows(catalog, tiles[i].character.value)
    ensures var shared := PartyToShare(tiles);
      forall i :: 0 <= i < |tiles| ==> RestoreEntry(shared[i], catalog) == (tiles[i].id, tiles[i].character)
  {
  }

  /**
   * A character whose id is empty is shared as if the entry had none, so it is
   * not restored.
   */
  lemma EmptyCharacterIdIsDropped(tiles: seq<Tile>, catalog: CharId -> Character, i: nat)
    requires i < |tiles| && tiles[i].character.Some? && tiles[i].character.value.id == ""
    ensures PartyToShare(tiles)[i].characterId == None
    ensures RestoreEntry(PartyToShare(tiles)[i], catalog).1 == None
  {
  }
}
