/** The tilt-on-hover cards of the mosaic section (`TiltCard` in src/components/Mosaic.tsx).

    The pointer's position inside the card's bounding rectangle is normalised to
    [-0.5, 0.5] on each axis and scaled to a rotation in degrees: the vertical offset
    drives `rotateX` (negated), the horizontal offset drives `rotateY`. */
module Mosaic {
  import opened Common

  /** Rotation about the X and Y axes, in degrees. */
  datatype Tilt = Tilt(x: real, y: real)

  /** A bounding client rectangle. */
  datatype Rect = Rect(left: real, top: real, width: real, height: real)

  /** Degrees of rotation per unit of normalised offset. */
  const Gain: real := 8.0

  const Level: Tilt := Tilt(0.0, 0.0)

  predicate HasArea(r: Rect) {
    r.width > 0.0 && r.height > 0.0
  }

  predicate Inside(r: Rect, cx: real, cy: real) {
    r.left <= cx <= r.left + r.width && r.top <= cy <= r.top + r.height
  }

  /** Offset of a coordinate from the middle of an extent, as a fraction of the extent. */
  function Normalise(c: real, start: real, extent: real): (n: real)
    requires extent > 0.0
    ensures start <= c <= start + extent ==> -0.5 <= n <= 0.5
    ensures c == start + extent / 2.0 ==> n == 0.0
  {
    assert c == start + extent / 2.0 ==> (c - start) / extent == (extent / 2.0) / extent == 0.5;
    (c - start) / extent - 0.5
  }

  /** `handleMouseMove`: with no element mounted the tilt is left alone; otherwise it is
      recomputed from the pointer's place in the card. */
  function MouseMove(t: Tilt, card: Option<Rect>, cx: real, cy: real): (r: Tilt)
    requires card.Some? ==> HasArea(card.value)
    ensures card.None? ==> r == t
    ensures card.Some? && Inside(card.value, cx, cy) ==> -4.0 <= r.x <= 4.0 && -4.0 <= r.y <= 4.0
    ensures (card.Some? && cx == card.value.left + card.value.width / 2.0
                        && cy == card.value.top + card.value.height / 2.0) ==> r == Level
  {
    match card
    case None => t
    case Some(rect) =>
      var nx := Normalise(cx, rect.left, rect.width);
      var ny := Normalise(cy, rect.top, rect.height);
      Tilt(ny * -Gain, nx * Gain)
  }

  /** `handleMouseLeave`: the card returns to level. */
  function MouseLeave(t: Tilt): (r: Tilt)
    ensures r.x == 0.0 && r.y == 0.0
  {
    Level
  }

  /** The pointer position a tilt was computed from, recovered from the tilt. */
  function PointerFor(rect: Rect, t: Tilt): (real, real) {
    (rect.left + (t.y / Gain + 0.5) * rect.width, rect.top + (-t.x / Gain + 0.5) * rect.height)
  }

  /** Inside a card with area, the tilt determines the pointer: distinct pointer
      positions give distinct tilts. */
  lemma TiltDeterminesPointer(t: Tilt, rect: Rect, cx: real, cy: real)
    requires HasArea(rect)
    ensures PointerFor(rect, MouseMove(t, Some(rect), cx, cy)) == (cx, cy)
  {
    var r := MouseMove(t, Some(rect), cx, cy);
    var nx := (cx - rect.left) / rect.width - 0.5;
    var ny := (cy - rect.top) / rect.height - 0.5;
    assert r.y / Gain == (nx * Gain) / Gain == nx;
    assert -r.x / Gain == -((ny * -Gain) / Gain) == ny;
    assert (nx + 0.5) * rect.width == ((cx - rect.left) / rect.width) * rect.width == cx - rect.left;
    assert (ny + 0.5) * rect.height == ((cy - rect.top) / rect.height) * rect.height == cy - rect.top;
    var p := PointerFor(rect, r);
    assert p.0 == rect.left + (nx + 0.5) * rect.width;
    assert p.1 == rect.top + (ny + 0.5) * rect.height;
    assert p.0 == cx;
    assert p.1 == cy;
    assert p == (cx, cy);
  }

  /** Moving the pointer right (down) never decreases the Y (never increases the X) rotation. */
  lemma TiltMonotone(t: Tilt, rect: Rect, cx: real, cy: real, cx': real, cy': real)
    requires HasArea(rect)
    requires cx <= cx' && cy <= cy'
    ensures MouseMove(t, Some(rect), cx, cy).y <= MouseMove(t, Some(rect), cx', cy').y
    ensures MouseMove(t, Some(rect), cx, cy).x >= MouseMove(t, Some(rect), cx', cy').x
  {
    assert (cx' - rect.left) / rect.width - (cx - rect.left) / rect.width == (cx' - cx) / rect.width;
    assert (cy' - rect.top) / rect.height - (cy - rect.top) / rect.height == (cy' - cy) / rect.height;
  }
}
