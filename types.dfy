// Data model of the calculator: characters, grid tiles, parties and the
// attack records the target-resolution engine produces.

module CalculatorTypes {

  datatype Option<T> = None | Some(value: T)

  /** The one failure the engine raises itself: asking for the side of a separator slot. */
  datatype EngineError = InvalidZone

  datatype Result<T> = Ok(value: T) | Err(error: EngineError)

  type CharId = string

  /** A character's targeting archetype; `UnknownAi` stands for any other value the catalog may hold. */
  datatype AiType = Melee | Ranged | Ally | Assassin | UnknownAi

  /** Only the Ranged class matters to the engine (the Assassin rule). */
  datatype CharacterClass = RangedClass | OtherClass

  /** Which side drew an attack line. */
  datatype LineColour = AllyColour | EnemyColour

  /** Reference data from the character catalog; the engine only reads it. */
  datatype Character = Character(
    id: CharId,
    charClass: CharacterClass,
    aiType: AiType,
    fallbackAiType: Option<AiType>,
    summonId: Option<CharId>)

  /** 1-based column `x` and row `y` of a slot. */
  datatype Coordinates = Coordinates(x: int, y: int)

  /**
   * One cell of the grid, or a placeholder entry of a party (id `None`).
   * The engine writes only `targets`, `summonTargets` and `lineColour`.
   */
  class Tile {
    const id: Option<nat>
    const value: Option<string>
    const disabled: bool
    const character: Option<Character>
    const positionInParty: Option<nat>
    var targets: Tile?
    var summonTargets: Tile?
    var lineColour: Option<LineColour>

    constructor (id: Option<nat>, value: Option<string>, disabled: bool,
                 character: Option<Character>, positionInParty: Option<nat>)
      ensures this.id == id && this.value == value && this.disabled == disabled
      ensures this.character == character && this.positionInParty == positionInParty
      ensures targets == null && summonTargets == null && lineColour == None
    {
      this.id := id;
      this.value := value;
      this.disabled := disabled;
      this.character := character;
      this.positionInParty := positionInParty;
      targets := null;
      summonTargets := null;
      lineColour := None;
    }
  }

  /** `validTileId`: the tile stands on a grid slot (placeholders have no id). */
  predicate ValidTileId(t: Tile) {
    t.id.Some?
  }

  /** A tile that can be attacked: on a slot and holding a character. */
  predicate Occupied(t: Tile) {
    ValidTileId(t) && t.character.Some?
  }

  /** JavaScript coerces a `null` id to 0 in arithmetic. */
  function NumericId(t: Tile): nat {
    if t.id.Some? then t.id.value else 0
  }

  /** Number of tiles of a roster that stand on a slot and hold a character. */
  function OccupiedCount(tiles: seq<Tile>): (n: nat)
    ensures n <= |tiles|
  {
    if tiles == [] then 0
    else OccupiedCount(tiles[..|tiles| - 1]) + (if Occupied(tiles[|tiles| - 1]) then 1 else 0)
  }

  /** No entry occurs twice: each differs from all before it. */
  predicate DistinctTiles(tiles: seq<Tile>) {
    forall j :: 0 <= j < |tiles| ==> tiles[j] !in tiles[..j]
  }

  lemma DistinctAt(tiles: seq<Tile>, i: nat, j: nat)
    requires DistinctTiles(tiles)
    requires i < |tiles| && j < |tiles| && i != j
    ensures tiles[i] != tiles[j]
  {
    if i < j {
      assert tiles[..j][i] == tiles[i];
    } else {
      assert tiles[..i][j] == tiles[j];
    }
  }

  /** No entry of `tiles` stands on slot `id`. */
  predicate SlotFree(tiles: seq<Tile>, id: Option<nat>) {
    forall i :: 0 <= i < |tiles| ==> tiles[i].id != id
  }

  /** No two entries of `tiles` stand on the same slot: each one on a slot finds it free before it. */
  predicate UniqueSlots(tiles: seq<Tile>) {
    tiles == [] ||
    (UniqueSlots(tiles[..|tiles| - 1]) &&
     (ValidTileId(tiles[|tiles| - 1]) ==> SlotFree(tiles[..|tiles| - 1], tiles[|tiles| - 1].id)))
  }

  /** Putting an entry off the grid, or on a slot no entry holds, keeps the slots unique. */
  lemma {:induction false} UniqueSlotsUpdate(tiles: seq<Tile>, i: nat, t: Tile)
    requires UniqueSlots(tiles) && i < |tiles|
    requires !ValidTileId(t) || SlotFree(tiles, t.id)
    ensures UniqueSlots(tiles[i := t])
  {
    var n := |tiles| - 1;
    var u := tiles[i := t];
    if i == n {
      assert u[..n] == tiles[..n];
    } else {
      assert u[..n] == tiles[..n][i := t];
      UniqueSlotsUpdate(tiles[..n], i, t);
    }
  }

  const PARTY_SIZE: nat := 4

  /** One side's roster of four entries, with the count of occupied slots kept beside it. */
  class Party {
    var tiles: seq<Tile>
    var size: int

    /**
     * Four distinct entries; every entry on a slot holds a character; no slot
     * appears twice; and `size` counts the occupied entries.
     */
    ghost predicate Valid()
      reads this
    {
      && |tiles| == PARTY_SIZE
      && DistinctTiles(tiles)
      && (forall i :: 0 <= i < |tiles| && ValidTileId(tiles[i]) ==> tiles[i].character.Some?)
      && UniqueSlots(tiles)
      && size == OccupiedCount(tiles)
    }

    constructor (tiles: seq<Tile>)
      requires |tiles| == PARTY_SIZE && DistinctTiles(tiles) && UniqueSlots(tiles)
      requires forall i :: 0 <= i < |tiles| && ValidTileId(tiles[i]) ==> tiles[i].character.Some?
      ensures Valid() && this.tiles == tiles && size == OccupiedCount(tiles)
    {
      this.tiles := tiles;
      size := OccupiedCount(tiles);
    }
  }

  /**
   * A resolved attack: who attacked, which character acted (the summon in a
   * summon pass), the chosen target and the squared distance between them.
   */
  datatype Attack = Attack(attacker: Tile, actor: Character, target: Tile, distance: nat)

  /** The claims a list of attacks adds, in order. */
  function TargetsOf(attacks: seq<Attack>): (r: seq<Tile>)
    ensures |r| == |attacks|
    ensures forall i :: 0 <= i < |attacks| ==> r[i] == attacks[i].target
  {
    if attacks == [] then [] else TargetsOf(attacks[..|attacks| - 1]) + [attacks[|attacks| - 1].target]
  }
}
