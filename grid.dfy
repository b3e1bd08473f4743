// Grid geometry: slot ids, 1-based columns and rows, the three column zones
// and the distance used to rank targets.

module Grid {
  import opened CalculatorTypes

  /** Width of the grid: four good columns, six separator columns, four evil columns. */
  const LINE_LENGTH: nat := 14

  /** `returnPositionInLine`: the 1-based column of a slot. */
  function PositionInLine(id: nat): (col: nat)
    ensures 1 <= col <= LINE_LENGTH
  {
    id % LINE_LENGTH + 1
  }

  /** `returnPositionInColumn`: the 1-based row of a slot. */
  function PositionInColumn(id: nat): (row: nat)
    ensures 1 <= row
  {
    id / LINE_LENGTH + 1
  }

  function PositionOf(id: nat): Coordinates {
    Coordinates(PositionInLine(id), PositionInColumn(id))
  }

  /** The slot at a column and row: the inverse of `PositionOf`. */
  function SlotOf(c: Coordinates): nat
    requires 1 <= c.x <= LINE_LENGTH && 1 <= c.y
  {
    (c.y - 1) * LINE_LENGTH + (c.x - 1)
  }

  /**
   * A slot lies in the row its `returnPositionInColumn` names, at the column its
   * `returnPositionInLine` names: slot ids run row by row, `LINE_LENGTH` per row.
   */
  lemma PositionRoundTrip(id: nat)
    ensures (PositionInColumn(id) - 1) * LINE_LENGTH <= id < PositionInColumn(id) * LINE_LENGTH
    ensures SlotOf(PositionOf(id)) == id
  {
    assert id == (id / LINE_LENGTH) * LINE_LENGTH + id % LINE_LENGTH;
  }

  lemma SlotRoundTrip(c: Coordinates)
    requires 1 <= c.x <= LINE_LENGTH && 1 <= c.y
    ensures PositionOf(SlotOf(c)) == c
  {
    var id := SlotOf(c);
    assert id == (c.y - 1) * LINE_LENGTH + (c.x - 1);
    assert id / LINE_LENGTH == c.y - 1;
    assert id % LINE_LENGTH == c.x - 1;
  }

  /** The separator columns, drawn disabled with an `x` by `generateMatrix`. */
  predicate IsSeparatorColumn(col: int) {
    col > 4 && col < 11
  }

  datatype Side = GoodSide | EvilSide

  /** `returnParty`'s zone test: good below column 5, evil above column 10, an error between. */
  function SideOf(id: nat): Result<Side> {
    var col := PositionInLine(id);
    if col < 5 then Ok(GoodSide)
    else if col > 10 then Ok(EvilSide)
    else Err(InvalidZone)
  }

  /** The side lookup fails exactly on the columns the grid draws as separators. */
  lemma SideFailsExactlyOnSeparators(id: nat)
    ensures SideOf(id).Err? <==> IsSeparatorColumn(PositionInLine(id))
    ensures SideOf(id) == Ok(GoodSide) <==> PositionInLine(id) <= 4
    ensures SideOf(id) == Ok(EvilSide) <==> PositionInLine(id) >= 11
  {
  }

  /**
   * Reading a slot off the grid by column and row: in every row the first four
   * columns are the good side, the next six separators and the rest the evil side.
   */
  lemma SideAtCoordinates(c: Coordinates)
    requires 1 <= c.x <= LINE_LENGTH && 1 <= c.y
    ensures SideOf(SlotOf(c)) == if c.x <= 4 then Ok(GoodSide)
                                 else if c.x <= 10 then Err(InvalidZone)
                                 else Ok(EvilSide)
  {
    SlotRoundTrip(c);
  }

  /**
   * `calcDistance` without the square root: the square root is monotone, so
   * ranking by the squared distance orders targets the same way.
   */
  function SquaredDistance(p: Coordinates, q: Coordinates): nat {
    var a := p.x - q.x;
    var b := p.y - q.y;
    a * a + b * b
  }

  /** Squared distance from a position to the slot of a tile (a placeholder counts as slot 0). */
  function DistanceTo(origin: Coordinates, t: Tile): nat {
    SquaredDistance(origin, PositionOf(NumericId(t)))
  }
}
