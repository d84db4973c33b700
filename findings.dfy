/** The program as written, where it departs from what its comments and its
    design evidently intend: each departure is modelled here on its own, with
    an input that exhibits it. The rest of the model uses the intended
    behaviour (Geometry.Capacity, Chunking.GetNthSetOfBytes,
    Sequencing.Sequencer.Encode, FrameDecoder.SampleIndex). */
module Findings {
  import opened Geometry
  import opened FrameEncoder
  import opened FrameDecoder
  import opened Chunking

  /** NUM_BYTES as the program computes it: the pixel count of a frame scaled
      up by the block side in both directions, divided by four (NumBytesFormula). */
  const NumBytesAsWritten: nat := 8294400

  lemma NumBytesFormula()
    ensures NumBytesAsWritten == ((Width * PixelSize) * (Height * PixelSize)) / 4
  {
  }

  /** A chunk of NUM_BYTES bytes does not fit in a frame, whose blocks hold
      only Capacity bytes: decoding its raster cannot give it back. */
  lemma OversizedChunkLosesData(tolerance: int, chunk: seq<bv8>)
    requires |chunk| == NumBytesAsWritten
    ensures NumBytesAsWritten == 256 * Capacity
    ensures DecodeRaster(tolerance, Raster(chunk)) != chunk
  {
    assert |DecodeRaster(tolerance, Raster(chunk))| <= Capacity;
  }

  /** The chunk read as the program reads it: the offset of chunk n is
      computed but the stream is never moved there, so the read starts at the
      beginning of the file; and a read that finds fewer than `size` bytes
      leaves the stream failed, so the result is empty. */
  function ReadChunkAsWritten(file: seq<bv8>, size: nat, n: nat): (chunk: seq<bv8>)
    ensures |chunk| == if |file| < size then 0 else size
    ensures forall i :: 0 <= i < |chunk| ==> chunk[i] == file[i]
  {
    if |file| < size then [] else file[..size]
  }

  /** Without the seek, chunk 1 of a two-chunk file is its first chunk again. */
  lemma ReadIgnoresOffset()
    ensures var file := seq(2 * Capacity, i requires 0 <= i < 2 * Capacity => if i < Capacity then 0 else 1);
            ReadChunkAsWritten(file, Capacity, 1) != GetNthSetOfBytes(file, 1)
  {
    var file := seq(2 * Capacity, i requires 0 <= i < 2 * Capacity => if i < Capacity then 0 as bv8 else 1);
    assert ReadChunkAsWritten(file, Capacity, 1)[0] == 0;
    assert GetNthSetOfBytes(file, 1)[0] == file[Capacity] == 1;
  }

  /** With the failed short read, a file smaller than a chunk reads as
      nothing: its bytes never reach a frame. */
  lemma ShortReadDropsTail()
    ensures ReadChunkAsWritten([0x41], Capacity, 0) == []
    ensures GetNthSetOfBytes([0x41], 0) == [0x41]
  {
  }

  /** The encode loop as written, run for `iterations` rounds: every round
      asks for chunk PIXEL_SIZE * WIDTH * HEIGHT, whatever the frame number,
      and nothing ever sets the end-of-file flag, so the loop has not finished
      after any number of rounds. */
  method EncodeLoopAsWritten(file: seq<bv8>, iterations: nat) returns (chunks: seq<seq<bv8>>, endfile: bool)
    ensures !endfile && |chunks| == iterations
    ensures forall k :: 0 <= k < |chunks| ==> chunks[k] == ReadChunkAsWritten(file, NumBytesAsWritten, 0)
  {
    endfile := false;
    chunks := [];
    var numPNG := 0;
    while !endfile && numPNG < iterations
      invariant !endfile && numPNG <= iterations && |chunks| == numPNG
      invariant forall k :: 0 <= k < |chunks| ==> chunks[k] == ReadChunkAsWritten(file, NumBytesAsWritten, 0)
    {
      var bytes := ReadChunkAsWritten(file, NumBytesAsWritten, PixelSize * Width * Height);
      chunks := chunks + [bytes];
      numPNG := numPNG + 1;
    }
  }

  /** Buffer position of the pixel the decoder samples as written: the
      matrix accessor takes (row, column), but it is given (x, y). */
  function SampleIndexAsWritten(x: nat, y: nat): (i: nat)
    ensures y < Width ==> i % 4 == 0 && i / 4 / Width == x && i / 4 % Width == y
  {
    (x * Width + y) * 4
  }

  /** The transposed access reads the wrong pixel: for the second block of the
      first row it reads a pixel of the second block row; and in the last
      block column the row index is beyond the frame's height altogether. */
  lemma TransposedSampleMisses()
    ensures SampleIndexAsWritten(SamplePoint(1), SamplePoint(0)) / 4 / Width == SamplePoint(1)
    ensures SampleIndex(1, 0) / 4 / Width == SamplePoint(0)
    ensures SamplePoint(Cols - 1) >= Height
    ensures SampleIndexAsWritten(SamplePoint(Cols - 1), SamplePoint(0)) >= RasterLength
  {
  }
}
