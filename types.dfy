/** The records declared in types.ts, as values. */
module Types {
  /** `OutputFormat = 'png' | 'jpg'`. */
  datatype OutputFormat = Png | Jpg

  /**
   * `SliceConfig`: grid size, the margin trimmed from each side of a cell, and the
   * output format. The numbers are whatever the settings panel stores, so a grid
   * size of 0 or below (a typed 0 or negative number) is representable.
   */
  datatype SliceConfig = SliceConfig(rows: int, cols: int, format: OutputFormat, trimX: int, trimY: int)

  /** Encoded image bytes (the `Blob` of a slice). */
  type Blob = seq<bv8>

  /** A crop rectangle in source-image pixels; the arithmetic is exact (see README). */
  datatype Rect = Rect(x: real, y: real, w: real, h: real)

  /**
   * `SlicedImage`: id, encoded bytes and file name, with the grid cell and crop
   * rectangle it was produced from recorded beside them.
   */
  datatype SlicedImage = SlicedImage(id: int, row: nat, col: nat, crop: Rect, blob: Blob, fileName: string)
}
