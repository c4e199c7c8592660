/** `TileManager.TileId.isValid`: the tiles of the OpenStreetMap grid, `2^zoom` by `2^zoom` at each zoom from 0 to 19. */
module Tiles {
  import Bits

  const MINIMUM_ZOOM_LEVEL: int := 0
  const MAXIMUM_ZOOM_LEVEL: int := 19

  /** `1 << zoom` is `2^zoom` for the zooms it is computed at. */
  function IsValid(zoom: Bits.Int, x: Bits.Int, y: Bits.Int): (b: bool)
    ensures b <==> 0 <= zoom <= 19 && 0 <= x < Bits.Pow2(zoom) && 0 <= y < Bits.Pow2(zoom)
  {
    if MINIMUM_ZOOM_LEVEL <= zoom && zoom <= MAXIMUM_ZOOM_LEVEL then
      var maxIndexN := Bits.Pow2(zoom);
      0 <= x && x < maxIndexN && 0 <= y && y < maxIndexN
    else false
  }

  /** At zoom 0 only tile (0, 0) exists; negative indices never do; at zoom 19 the largest index is `2^19 - 1`. */
  lemma IsValidExamples(zoom: Bits.Int, x: Bits.Int, y: Bits.Int)
    ensures IsValid(0, x, y) <==> x == 0 && y == 0
    ensures x < 0 || y < 0 ==> !IsValid(zoom, x, y)
    ensures IsValid(19, 0x7_FFFF, 0x7_FFFF) && !IsValid(19, 0x8_0000, 0) && !IsValid(20, 0, 0)
  {
    assert Bits.Pow2(19) == 0x8_0000 by {
      Bits.Pow2Value16();
      Bits.Pow2Add(16, 3);
      assert Bits.Pow2(3) == 8;
    }
  }
}
