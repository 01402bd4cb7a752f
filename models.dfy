/** The geometric fingerprint the similarity engine reads (core/models.py). */
module Models {

  /** Axis-aligned bounding box, in the source's order
      (min_x, min_y, min_z, max_x, max_y, max_z). */
  datatype BoundingBox = BoundingBox(minX: real, minY: real, minZ: real,
                                     maxX: real, maxY: real, maxZ: real)

  /** GeometricSignature: bounding box, volume, surface area and an opaque hash
      that the producer sets equal for identical geometry. */
  datatype GeometricSignature = GeometricSignature(
    boundingBox: BoundingBox,
    volume: real,
    surfaceArea: real,
    geometricHash: string)

  /** The extents of a box along x, y and z (max minus min on each axis). */
  datatype Extents = Extents(width: real, depth: real, height: real)

  function ExtentsOf(b: BoundingBox): Extents {
    Extents(b.maxX - b.minX, b.maxY - b.minY, b.maxZ - b.minZ)
  }

  /** What the producer promises but nothing checks: max >= min on every axis. */
  predicate NonInverted(b: BoundingBox) {
    b.minX <= b.maxX && b.minY <= b.maxY && b.minZ <= b.maxZ
  }

  /** Non-negative volume and area and a box that is not inverted. */
  predicate WellFormed(s: GeometricSignature) {
    s.volume >= 0.0 && s.surfaceArea >= 0.0 && NonInverted(s.boundingBox)
  }
}
