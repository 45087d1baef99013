/**
 * Integer rectangles and points, as SDL_Rect and SDL_Point are used by the
 * sprite packer: a rectangle is its top-left corner and its width and height,
 * and it covers the pixel cells x <= px < x + w, y <= py < y + h.
 */
module Geometry {

  datatype Point = Point(x: int, y: int)

  datatype Rect = Rect(x: int, y: int, w: int, h: int)
  {
    /** The pixel cell (px, py) lies inside this rectangle. */
    predicate Covers(px: int, py: int)
    {
      x <= px < x + w && y <= py < y + h
    }

    /** This rectangle lies inside `outer`. */
    predicate Within(outer: Rect)
    {
      outer.x <= x && x + w <= outer.x + outer.w && outer.y <= y && y + h <= outer.y + outer.h
    }

    /** This rectangle covers no cell. */
    predicate IsEmpty()
    {
      w <= 0 || h <= 0
    }
  }

  /** Two rectangles share a cell. */
  predicate Overlap(a: Rect, b: Rect)
  {
    !a.IsEmpty() && !b.IsEmpty()
    && a.x < b.x + b.w && b.x < a.x + a.w
    && a.y < b.y + b.h && b.y < a.y + a.h
  }

  /** Overlap means exactly that some cell is covered by both rectangles. */
  lemma OverlapIsSharedCell(a: Rect, b: Rect)
    ensures Overlap(a, b) <==> exists px, py :: a.Covers(px, py) && b.Covers(px, py)
  {
    if Overlap(a, b) {
      var px := if a.x < b.x then b.x else a.x;
      var py := if a.y < b.y then b.y else a.y;
      assert a.Covers(px, py) && b.Covers(px, py);
    }
  }
}
