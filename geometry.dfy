/** Raster geometry: the fixed size of every frame, its grid of square blocks,
    and the index arithmetic that the encoder and the decoder share. */
module Geometry {

  /** Frame width and height in pixels (WIDTH, HEIGHT). */
  const Width: nat := 1920
  const Height: nat := 1080

  /** Side of a block in pixels (PIXEL_SIZE): each block carries one 2-bit
      symbol or the end marker. */
  const PixelSize: nat := 4

  /** Blocks per row and block rows per frame. */
  const Cols: nat := 480
  const Rows: nat := 270

  /** Symbols one frame holds, one per block. */
  const Blocks: nat := 129600

  /** Bytes one frame holds: four 2-bit symbols per byte. */
  const Capacity: nat := 32400

  /** Length of the RGBA buffer of one frame, four channels per pixel. */
  const RasterLength: nat := 8294400

  /** The derived sizes: the blocks tile the frame exactly, four symbols make
      a byte, and the buffer holds four channels per pixel. */
  lemma FrameSizes()
    ensures Cols == Width / PixelSize && Cols * PixelSize == Width
    ensures Rows == Height / PixelSize && Rows * PixelSize == Height
    ensures Blocks == Cols * Rows && Capacity == Blocks / 4 && Blocks == 4 * Capacity
    ensures RasterLength == Width * Height * 4
  {
  }

  /** Row-major index of the block that holds pixel (x, y). */
  function BlockAt(x: nat, y: nat): (g: nat)
    requires x < Width && y < Height
    ensures g < Blocks
    ensures g % Cols == x / PixelSize && g / Cols == y / PixelSize
  {
    x / PixelSize + (y / PixelSize) * Cols
  }

  /** Coordinate of the pixel the decoder samples in block column (or row) k:
      its scan starts at PIXEL_SIZE / 2 and steps by PIXEL_SIZE. */
  function SamplePoint(k: nat): (p: nat)
    ensures p / PixelSize == k
  {
    k * PixelSize + PixelSize / 2
  }
}
