/** Axis-aligned boxes of the arena: a player's body box, the box its sword
    sweeps, and the closed-interval overlap test between two boxes. */
module Geometry {

  /** The four directions a player can face. */
  datatype Facing = Up | Down | Left | Right

  /** A box with its top-left corner at (x, y), width w and height h, in canvas pixels. */
  datatype Rect = Rect(x: int, y: int, w: int, h: int)

  const PixelScale: int := 3  // each sprite "pixel" is a 3x3 block of canvas pixels
  const SpriteW: int := 6     // sprite width in sprite pixels
  const SpriteH: int := 8     // sprite height in sprite pixels
  const SwingRange: int := 20 // how far the sword reaches beyond the body box

  /** True when the box has no negative extent. */
  predicate Proper(r: Rect) {
    r.w >= 0 && r.h >= 0
  }

  /** The point (px, py) lies in the closed box r, edges included. */
  predicate InRect(r: Rect, px: int, py: int) {
    r.x <= px <= r.x + r.w && r.y <= py <= r.y + r.h
  }

  /** The point (px, py) lies strictly inside r. */
  predicate InInterior(r: Rect, px: int, py: int) {
    r.x < px < r.x + r.w && r.y < py < r.y + r.h
  }

  /** Two boxes overlap unless one lies strictly to one side of the other.
      The comparisons are strict, so boxes that share only an edge or a corner overlap. */
  function RectsOverlap(r1: Rect, r2: Rect): bool {
    !(r1.x + r1.w < r2.x || r2.x + r2.w < r1.x || r1.y + r1.h < r2.y || r2.y + r2.h < r1.y)
  }

  /** The body box of a player whose sprite is drawn at (x, y). */
  function PlayerRect(x: int, y: int): (r: Rect)
    ensures r.x == x && r.y == y && r.w == 18 && r.h == 24
  {
    Rect(x, y, SpriteW * PixelScale, SpriteH * PixelScale)
  }

  /** The box the sword sweeps for a player at (x, y) with the given facing.
      Only a right facing puts it on the right of the body; every other facing,
      up and down included, puts it on the left. */
  function SwingRectFor(x: int, y: int, facing: Facing): (r: Rect)
    ensures r.w == 20 && r.h == 12 && r.y == y + 6
    ensures r.x == if facing == Right then x + 18 else x - 20
  {
    var w := SpriteW * PixelScale;
    var h := SpriteH * PixelScale;
    if facing == Right then
      Rect(x + w, y + h / 4, SwingRange, h / 2)
    else
      Rect(x - SwingRange, y + h / 4, SwingRange, h / 2)
  }

  /** For boxes with no negative extent, the overlap test holds exactly when
      some point lies in both closed boxes. */
  lemma OverlapIffCommonPoint(r1: Rect, r2: Rect)
    requires Proper(r1) && Proper(r2)
    ensures RectsOverlap(r1, r2) <==> exists px, py :: InRect(r1, px, py) && InRect(r2, px, py)
  {
    if RectsOverlap(r1, r2) {
      var px := if r1.x < r2.x then r2.x else r1.x;
      var py := if r1.y < r2.y then r2.y else r1.y;
      assert InRect(r1, px, py) && InRect(r2, px, py);
    }
  }

  /** The overlap test does not depend on the order of its arguments. */
  lemma OverlapSymmetric(r1: Rect, r2: Rect)
    ensures RectsOverlap(r1, r2) == RectsOverlap(r2, r1)
  {
  }

  /** Boxes that share only their vertical edges, with vertical extents that meet,
      count as overlapping: their interiors are disjoint yet the test holds. */
  lemma TouchingEdgesOverlap(r1: Rect, r2: Rect)
    requires Proper(r1) && Proper(r2)
    requires r1.x + r1.w == r2.x
    requires r1.y <= r2.y + r2.h && r2.y <= r1.y + r1.h
    ensures RectsOverlap(r1, r2)
    ensures forall px, py :: !(InInterior(r1, px, py) && InInterior(r2, px, py))
  {
  }

  /** The sword box sits flush against the side of the body box the facing
      selects (the right side only for a right facing), has half the body's
      height, is centred on it vertically, and so always touches it. */
  lemma SwingRectAdjacent(x: int, y: int, facing: Facing)
    ensures var body, sword := PlayerRect(x, y), SwingRectFor(x, y, facing);
      (if facing == Right then sword.x == body.x + body.w else sword.x + sword.w == body.x)
      && sword.w == SwingRange
      && 2 * sword.h == body.h
      && sword.y - body.y == (body.y + body.h) - (sword.y + sword.h)
      && RectsOverlap(sword, body)
  {
  }
}
