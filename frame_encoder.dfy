/** The frame encoder: one chunk of bytes becomes one RGBA raster in which
    every block shows one 2-bit symbol, or white past the end of the data. */
module FrameEncoder {
  import opened Geometry
  import opened BitPacking
  import opened Palette

  /** The colour of block g: bit pair g % 4 of byte g / 4 while there is such
      a byte, the end marker after that. */
  function BlockColour(bytes: seq<bv8>, g: nat): Rgba {
    if g / 4 < |bytes| then SymbolColour(BitPair(bytes[g / 4], g % 4)) else White
  }

  /** Entry i of the RGBA buffer: channel i % 4 of pixel i / 4, whose colour
      is the colour of the block the pixel lies in. */
  function PixelChannel(bytes: seq<bv8>, i: nat): Level
    requires i < RasterLength
  {
    var p := i / 4;
    Channel(BlockColour(bytes, BlockAt(p % Width, p / Width)), i % 4)
  }

  /** The raster that encodes `bytes`: Width x Height pixels, row by row,
      four channels each, every pixel opaque. */
  function Raster(bytes: seq<bv8>): (image: seq<Level>)
    ensures |image| == RasterLength
    ensures forall i :: 0 <= i < |image| && i % 4 == 3 ==> image[i] == 255
  {
    seq(RasterLength, i requires 0 <= i < RasterLength => PixelChannel(bytes, i))
  }

  /** The four entries of pixel (x, y), starting at (y * Width + x) * 4, hold
      the channels of the colour of the block containing the pixel. */
  lemma PixelChannels(bytes: seq<bv8>, x: nat, y: nat)
    requires x < Width && y < Height
    ensures (y * Width + x) * 4 + 3 < RasterLength
    ensures forall i :: (y * Width + x) * 4 <= i < (y * Width + x) * 4 + 4 ==>
              PixelChannel(bytes, i) == Channel(BlockColour(bytes, BlockAt(x, y)), i - (y * Width + x) * 4)
  {
    var p := y * Width + x;
    forall i | p * 4 <= i < p * 4 + 4
      ensures PixelChannel(bytes, i) == Channel(BlockColour(bytes, BlockAt(x, y)), i - p * 4)
    {
      assert i / 4 == p;
      assert p % Width == x && p / Width == y;
    }
  }

  /** Every pixel of the raster shows the colour of its block. */
  lemma PixelShowsBlock(bytes: seq<bv8>, x: nat, y: nat, k: nat)
    requires x < Width && y < Height && k < 4
    ensures (y * Width + x) * 4 + k < |Raster(bytes)|
    ensures Raster(bytes)[(y * Width + x) * 4 + k] == Channel(BlockColour(bytes, BlockAt(x, y)), k)
  {
    PixelChannels(bytes, x, y);
  }

  /** An empty chunk encodes to an all-white raster. */
  lemma EmptyChunkIsWhite()
    ensures forall i :: 0 <= i < |Raster([])| ==> Raster([])[i] == 255
  {
    forall i | 0 <= i < RasterLength ensures PixelChannel([], i) == 255 {
      var p := i / 4;
      assert BlockColour([], BlockAt(p % Width, p / Width)) == White;
    }
  }

  /** Fills a fresh RGBA buffer pixel by pixel, row by row, painting each
      pixel with the colour of the block it lies in. */
  method GenerateImageVector(bytes: seq<bv8>) returns (image: array<Level>)
    ensures fresh(image)
    ensures image[..] == Raster(bytes)
  {
    image := new Level[Width * Height * 4];
    var y := 0;
    while y < Height
      invariant y <= Height
      invariant forall i :: 0 <= i < y * Width * 4 ==> image[i] == PixelChannel(bytes, i)
    {
      var x := 0;
      while x < Width
        invariant x <= Width
        invariant forall i :: 0 <= i < (y * Width + x) * 4 ==> image[i] == PixelChannel(bytes, i)
      {
        var pixelIndex := (y * Width + x) * 4;
        // blocks are PixelSize x PixelSize pixels
        var gridPosition := (x / PixelSize) + (y / PixelSize) * (Width / PixelSize);
        assert gridPosition == BlockAt(x, y);
        PixelChannels(bytes, x, y);
        PaintPixel(bytes, gridPosition, image, pixelIndex);
        x := x + 1;
      }
      y := y + 1;
    }
    assert forall i :: 0 <= i < image.Length ==> image[..][i] == Raster(bytes)[i];
  }

  /** Paints the pixel whose entries start at `pixelIndex` with the colour of
      block `gridPosition`: the colour of its bit pair while the chunk has a
      byte for it, white after that. */
  method PaintPixel(bytes: seq<bv8>, gridPosition: nat, image: array<Level>, pixelIndex: nat)
    requires pixelIndex + 3 < image.Length
    modifies image
    ensures forall i :: 0 <= i < image.Length && !(pixelIndex <= i < pixelIndex + 4) ==> image[i] == old(image[i])
    ensures forall i :: pixelIndex <= i < pixelIndex + 4 ==>
              image[i] == Channel(BlockColour(bytes, gridPosition), i - pixelIndex)
  {
    if gridPosition / 4 < |bytes| {
      // the two bits of this block, taken from the right pair of its byte
      var bits := (bytes[gridPosition / 4] >> (6 - ((gridPosition % 4) * 2))) & 3;
      BitPairShiftMask(bytes[gridPosition / 4], gridPosition % 4);
      if bits == 0 {
        image[pixelIndex], image[pixelIndex + 1], image[pixelIndex + 2], image[pixelIndex + 3] := 0, 0, 0, 255;
      } else if bits == 1 {
        image[pixelIndex], image[pixelIndex + 1], image[pixelIndex + 2], image[pixelIndex + 3] := 255, 0, 0, 255;
      } else if bits == 2 {
        image[pixelIndex], image[pixelIndex + 1], image[pixelIndex + 2], image[pixelIndex + 3] := 0, 255, 0, 255;
      } else {
        image[pixelIndex], image[pixelIndex + 1], image[pixelIndex + 2], image[pixelIndex + 3] := 0, 0, 255, 255;
      }
    } else {
      image[pixelIndex], image[pixelIndex + 1], image[pixelIndex + 2], image[pixelIndex + 3] := 255, 255, 255, 255;
    }
  }
}
