/**
 * `MapParameters`: the visible part of the map, as a zoom level in
 * `[6, 19]` and the Web Mercator coordinates of its top-left corner at that
 * zoom. The JavaFX properties are plain fields, and `double` coordinates are
 * exact `real`s.
 */
module MapParameter {
  import Bits
  import Math2

  const MIN_VALUE_ZOOM: int := 6
  const MAX_VALUE_ZOOM: int := 19

  /** The three observable values. */
  datatype View = View(zoom: Bits.Int, minX: real, minY: real)

  predicate ValidZoom(zoom: int)
  {
    MIN_VALUE_ZOOM <= zoom <= MAX_VALUE_ZOOM
  }

  /** `Math.scalb(x, n)`: `x` times `2^n`, for either sign of `n`. */
  function Scalb(x: real, n: int): real
  {
    if n >= 0 then x * Bits.Pow2(n) as real else x / Bits.Pow2(-n) as real
  }

  /** Scaling by `2^n` and then by `2^-n` gives back the value. */
  lemma ScalbInverse(x: real, n: int)
    ensures Scalb(Scalb(x, n), -n) == x
  {
    var m := if n >= 0 then n else -n;
    var p := Bits.Pow2(m) as real;
    assert p >= 1.0;
    if n > 0 {
      assert Scalb(x, n) == x * p;
      assert Scalb(x * p, -n) == (x * p) / p;
    } else if n < 0 {
      assert Scalb(x, n) == x / p;
      assert Scalb(x / p, -n) == (x / p) * p;
    }
  }

  /** The zoom `changeZoomLevel(delta)` aims at: `zoom + delta` in `int` arithmetic, clamped to `[6, 19]`. */
  function NextZoom(zoom: Bits.Int, deltaZoomLevel: Bits.Int): (z: Bits.Int)
    ensures ValidZoom(z)
  {
    Math2.Clamp(MIN_VALUE_ZOOM, Bits.WrapInt(zoom + deltaZoomLevel), MAX_VALUE_ZOOM)
  }

  /** `changeZoomLevel`: when the clamped zoom differs, both coordinates are scaled by `2^delta`, `delta` being the requested change. */
  function Zoomed(v: View, deltaZoomLevel: Bits.Int): View
  {
    var next := NextZoom(v.zoom, deltaZoomLevel);
    if next != v.zoom then View(next, Scalb(v.minX, deltaZoomLevel), Scalb(v.minY, deltaZoomLevel)) else v
  }

  /** The zoom stays in `[6, 19]`; a change the clamp cancels leaves the view as it is. */
  lemma ZoomedRange(v: View, deltaZoomLevel: Bits.Int)
    requires ValidZoom(v.zoom)
    ensures ValidZoom(Zoomed(v, deltaZoomLevel).zoom)
    ensures deltaZoomLevel == 0 ==> Zoomed(v, deltaZoomLevel) == v
    ensures v.zoom == MAX_VALUE_ZOOM && 0 <= deltaZoomLevel < 0x8000_0000 - MAX_VALUE_ZOOM ==> Zoomed(v, deltaZoomLevel) == v
    ensures v.zoom == MIN_VALUE_ZOOM && deltaZoomLevel <= 0 ==> Zoomed(v, deltaZoomLevel) == v
  {
    assert Bits.WrapInt(v.zoom + deltaZoomLevel) == v.zoom + deltaZoomLevel <== v.zoom + deltaZoomLevel < 0x8000_0000;
  }

  /** The sum `zoom + delta` wraps around in `int` arithmetic: from zoom 19, the largest `int` delta lands on zoom 6. */
  lemma ZoomOverflow()
    ensures NextZoom(19, 0x7FFF_FFFF) == MIN_VALUE_ZOOM
  {
    assert Bits.WrapInt(19 + 0x7FFF_FFFF) == -0x8000_0000 + 18;
  }

  /** A change that stays within `[6, 19]` is applied as asked: zoom and scale both move by `delta`. */
  lemma ZoomedExact(v: View, deltaZoomLevel: Bits.Int)
    requires ValidZoom(v.zoom) && ValidZoom(v.zoom + deltaZoomLevel) && deltaZoomLevel != 0
    ensures Zoomed(v, deltaZoomLevel) == View(v.zoom + deltaZoomLevel, Scalb(v.minX, deltaZoomLevel), Scalb(v.minY, deltaZoomLevel))
  {
  }

  /** Zooming by an in-range `delta` and then by `-delta` gives the view back. */
  lemma ZoomedUndo(v: View, deltaZoomLevel: Bits.Int)
    requires ValidZoom(v.zoom) && ValidZoom(v.zoom + deltaZoomLevel)
    ensures Zoomed(Zoomed(v, deltaZoomLevel), -deltaZoomLevel as Bits.Int) == v
  {
    if deltaZoomLevel != 0 {
      ZoomedExact(v, deltaZoomLevel);
      var w := Zoomed(v, deltaZoomLevel);
      ZoomedExact(w, -deltaZoomLevel);
      ScalbInverse(v.minX, deltaZoomLevel);
      ScalbInverse(v.minY, deltaZoomLevel);
    }
  }

  /** A change the clamp cuts short still scales by the requested delta: from zoom 18, `+3` reaches zoom 19 but scales by 8. */
  lemma ZoomedByRequestedDelta()
    ensures Zoomed(View(18, 1.0, 2.0), 3) == View(19, 8.0, 16.0)
  {
    assert Bits.Pow2(3) == 8;
  }

  class MapParameters {
    var zoom: Bits.Int
    var minX: real
    var minY: real

    function Current(): View
      reads this
    {
      View(zoom, minX, minY)
    }

    ghost predicate Valid()
      reads this
    {
      ValidZoom(zoom)
    }

    constructor (zoom: Bits.Int, minX: real, minY: real)
      requires ValidZoom(zoom)
      ensures Valid() && Current() == View(zoom, minX, minY)
    {
      this.zoom := zoom;
      this.minX := minX;
      this.minY := minY;
    }

    /** `scroll`: the corner moves by `(x, y)`; the zoom stays. */
    method Scroll(x: real, y: real)
      requires Valid()
      modifies this
      ensures Valid() && Current() == View(old(zoom), old(minX) + x, old(minY) + y)
    {
      var newVisiblePositionX := minX + x;
      var newVisiblePositionY := minY + y;
      minX := newVisiblePositionX;
      minY := newVisiblePositionY;
    }

    method ChangeZoomLevel(deltaZoomLevel: Bits.Int)
      requires Valid()
      modifies this
      ensures Valid() && Current() == Zoomed(old(Current()), deltaZoomLevel)
    {
      var currentZoomLevel := zoom;
      var nextZoomLevel := Math2.Clamp(MIN_VALUE_ZOOM, Bits.WrapInt(zoom + deltaZoomLevel), MAX_VALUE_ZOOM);
      if nextZoomLevel != currentZoomLevel {
        var xInZoomLevel := Scalb(minX, deltaZoomLevel);
        var yInZoomLevel := Scalb(minY, deltaZoomLevel);
        zoom := nextZoomLevel;
        minX := xInZoomLevel;
        minY := yInZoomLevel;
      }
    }
  }
}
