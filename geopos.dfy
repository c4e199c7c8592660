/**
 * `GeoPos`: a position whose longitude and latitude are `int`s in T32 units
 * (`2^32` units per turn). The constructor rejects latitudes beyond a
 * quarter turn either way; every longitude is accepted.
 */
module Geo {
  import Bits
  import opened Wrappers

  const QUARTER_TURN: int := 0x4000_0000

  /** `isValidLatitudeT32`: the `double` comparisons against `2^30` are exact on `int`s. */
  predicate IsValidLatitudeT32(latitudeT32: Bits.Int)
  {
    QUARTER_TURN >= latitudeT32 && latitudeT32 >= -QUARTER_TURN
  }

  datatype Position = Position(longitudeT32: Bits.Int, latitudeT32: Bits.Int)

  /** The positions the constructor accepts. */
  type GeoPos = p: Position | IsValidLatitudeT32(p.latitudeT32) witness Position(0, 0)

  /** The constructor: `None` stands for the `IllegalArgumentException` it throws. */
  function NewGeoPos(longitudeT32: Bits.Int, latitudeT32: Bits.Int): (r: Option<GeoPos>)
    ensures r.Some? <==> -0x4000_0000 <= latitudeT32 <= 0x4000_0000
    ensures r.Some? ==> r.value.longitudeT32 == longitudeT32 && r.value.latitudeT32 == latitudeT32
  {
    if IsValidLatitudeT32(latitudeT32) then Some(Position(longitudeT32, latitudeT32)) else None
  }

  /** Every longitude is accepted; `±2^30` are the extreme valid latitudes. */
  lemma GeoPosBounds(longitudeT32: Bits.Int)
    ensures NewGeoPos(longitudeT32, 0).Some?
    ensures NewGeoPos(longitudeT32, 0x4000_0000).Some? && NewGeoPos(longitudeT32, -0x4000_0000).Some?
    ensures NewGeoPos(longitudeT32, 0x4000_0001).None? && NewGeoPos(longitudeT32, -0x4000_0001).None?
  {
  }
}
