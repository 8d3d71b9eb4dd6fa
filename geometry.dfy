/**
 * The fixed grid of boxes and its mapping to window pixels.
 *
 * Box (x, y) is drawn with its top-left corner at
 * (XMargin + (BoxSize + Gap) * x, YMargin + (BoxSize + Gap) * y); a click is
 * attributed to a box when it falls in the box's 9x9 collision square (the box
 * plus the gap to its right and below), left and top edges inclusive, right
 * and bottom edges exclusive.
 */
module Geometry {

  const FieldWidth: int := 137
  const FieldHeight: int := 70
  const BoxSize: int := 8
  const Gap: int := 1
  const XMargin: int := 10
  const YMargin: int := 10

  /** Side of a box's collision square. */
  const Pitch: int := BoxSize + Gap

  type Cell = (int, int)
  type Pixel = (int, int)

  datatype Option<T> = None | Some(value: T)

  predicate InField(c: Cell) {
    0 <= c.0 < FieldWidth && 0 <= c.1 < FieldHeight
  }

  /** Every cell of s lies in the field. */
  predicate InsideField(s: set<Cell>) {
    forall c :: c in s ==> InField(c)
  }

  /** Window coordinates of the top-left corner of box c. */
  function BoxPlacement(c: Cell): (p: Pixel)
    ensures InField(c) ==>
      XMargin <= p.0 <= p.0 + Pitch <= XMargin + Pitch * FieldWidth &&
      YMargin <= p.1 <= p.1 + Pitch <= YMargin + Pitch * FieldHeight
  {
    (XMargin + (BoxSize + Gap) * c.0, YMargin + (BoxSize + Gap) * c.1)
  }

  /** The half-open collision square of box c contains pixel p. */
  predicate Collides(c: Cell, p: Pixel) {
    var corner := BoxPlacement(c);
    corner.0 <= p.0 < corner.0 + Pitch && corner.1 <= p.1 < corner.1 + Pitch
  }

  /** The box whose collision square holds p, computed by division. */
  function TileOf(p: Pixel): (r: Option<Cell>)
    ensures r.Some? ==> InField(r.value) && Collides(r.value, p)
    ensures r.None? ==> !(XMargin <= p.0 < XMargin + Pitch * FieldWidth && YMargin <= p.1 < YMargin + Pitch * FieldHeight)
  {
    if XMargin <= p.0 < XMargin + Pitch * FieldWidth && YMargin <= p.1 < YMargin + Pitch * FieldHeight then
      Some(((p.0 - XMargin) / Pitch, (p.1 - YMargin) / Pitch))
    else
      None
  }

  /** A quotient by Pitch is pinned down by the bounds it satisfies. */
  lemma QuotientUnique(d: int, q: int)
    requires Pitch * q <= d < Pitch * q + Pitch
    ensures d / Pitch == q
  {
  }

  /** Collision squares do not overlap: a pixel in box c's square has c as its tile. */
  lemma TileOfComplete(c: Cell, p: Pixel)
    requires InField(c) && Collides(c, p)
    ensures TileOf(p) == Some(c)
  {
    QuotientUnique(p.0 - XMargin, c.0);
    QuotientUnique(p.1 - YMargin, c.1);
  }

  /** Mapping a field box to pixels and back gives the box. */
  lemma PlacementRoundTrip(c: Cell)
    requires InField(c)
    ensures TileOf(BoxPlacement(c)) == Some(c)
  {
  }

  /**
   * Scan of every box of the field, column by column, for the first one whose
   * collision square holds the mouse position; None when there is none.
   */
  method FindClickedBox(mouse: Pixel) returns (r: Option<Cell>)
    ensures r == TileOf(mouse)
    ensures r.Some? ==> InField(r.value) && Collides(r.value, mouse)
    ensures r.None? ==> forall c :: InField(c) ==> !Collides(c, mouse)
  {
    var x := 0;
    while x < FieldWidth
      invariant 0 <= x <= FieldWidth
      invariant forall c :: InField(c) && c.0 < x ==> !Collides(c, mouse)
    {
      var y := 0;
      while y < FieldHeight
        invariant 0 <= y <= FieldHeight
        invariant forall c :: InField(c) && (c.0 < x || (c.0 == x && c.1 < y)) ==> !Collides(c, mouse)
      {
        if Collides((x, y), mouse) {
          TileOfComplete((x, y), mouse);
          return Some((x, y));
        }
        y := y + 1;
      }
      x := x + 1;
    }
    return None;
  }
}
