/** The sequencer: `encode` turns a file into numbered frames, one chunk per
    frame, and `decode` reads the frames back in order and appends each
    frame's bytes to the output file. The video container between the two is
    taken to be lossless: the frames decode reads are the frames encode wrote. */
module Sequencing {
  import opened Geometry
  import opened Palette
  import opened FrameEncoder
  import opened FrameDecoder
  import opened Chunking

  /** The frames that encode a file: the raster of each chunk, in order. */
  function EncodeFile(file: seq<bv8>): (frames: seq<seq<Level>>)
    ensures |frames| == FrameCount(|file|)
    ensures forall n :: 0 <= n < |frames| ==> |frames[n]| == RasterLength
  {
    var chunks := Chunks(file);
    seq(|chunks|, n requires 0 <= n < |chunks| => Raster(chunks[n]))
  }

  /** The bytes each frame decodes to, in frame order. */
  function DecodedChunks(tolerance: int, frames: seq<seq<Level>>): (pieces: seq<seq<bv8>>)
    requires forall n :: 0 <= n < |frames| ==> |frames[n]| == RasterLength
    ensures |pieces| == |frames|
    ensures forall n :: 0 <= n < |pieces| ==> |pieces[n]| <= Capacity
  {
    seq(|frames|, n requires 0 <= n < |frames| => DecodeRaster(tolerance, frames[n]))
  }

  /** Whole-file round trip: decoding the frames that encode a file, and
      concatenating what they decode to, gives the file back. */
  lemma FileRoundTrip(tolerance: int, file: seq<bv8>)
    requires 0 <= tolerance < 255
    ensures Flatten(DecodedChunks(tolerance, EncodeFile(file))) == file
  {
    var chunks := Chunks(file);
    var pieces := DecodedChunks(tolerance, EncodeFile(file));
    forall n | 0 <= n < |chunks| ensures pieces[n] == chunks[n] {
      RasterRoundTrip(tolerance, chunks[n]);
    }
    assert pieces == chunks;
    ChunksReassemble(file);
  }

  /** The last frame of an encoded file always holds a white block, so the
      decoder of that frame stops inside it; an empty file is one all-white
      frame. */
  lemma LastFrameHoldsEnd(file: seq<bv8>)
    ensures |Chunks(file)[FrameCount(|file|) - 1]| < Capacity
    ensures |file| == 0 ==> EncodeFile(file) == [Raster([])]
  {
    ChunkSizes(file, FrameCount(|file|) - 1);
  }

  /** The program's state across encode and decode: the frame counter, the
      end-of-file flag, and the frames written so far (the numbered images
      from which the video is made). */
  class Sequencer {
    var numPNG: nat
    var endfile: bool
    var frames: seq<seq<Level>>

    /** Every frame is a full RGBA raster. */
    ghost predicate Valid()
      reads this
    {
      forall n :: 0 <= n < |frames| ==> |frames[n]| == RasterLength
    }

    /** The state the program starts in. */
    constructor ()
      ensures Valid()
      ensures numPNG == 0 && !endfile && frames == []
    {
      numPNG := 0;
      endfile := false;
      frames := [];
    }

    /** Writes one frame per chunk, chunk numPNG into frame numPNG, and stops
        after the chunk that does not fill its frame. */
    method Encode(file: seq<bv8>)
      requires numPNG == 0 && !endfile
      modifies this
      ensures Valid()
      ensures frames == EncodeFile(file)
      ensures numPNG == |frames| == FrameCount(|file|) && endfile
    {
      // the image directory starts out empty
      frames := [];
      while !endfile
        invariant numPNG <= FrameCount(|file|)
        invariant endfile <==> numPNG == FrameCount(|file|)
        invariant frames == EncodeFile(file)[..numPNG]
        decreases FrameCount(|file|) - numPNG
      {
        var bytes := GetNthSetOfBytes(file, numPNG);
        var image := GenerateImageVector(bytes);
        frames := frames + [image[..]];
        ChunkSizes(file, numPNG);
        numPNG := numPNG + 1;
        if |bytes| < Capacity {
          // the chunk that leaves white blocks in its frame is the last one
          endfile := true;
        }
      }
      assert EncodeFile(file)[..numPNG] == EncodeFile(file);
    }

    /** Reads back every frame the video holds, in order, and appends the
        bytes each decodes to onto the (freshly emptied) output file. */
    method Decode(tolerance: int) returns (outfile: seq<bv8>)
      requires Valid()
      modifies this
      ensures frames == old(frames) && numPNG == |frames| && endfile == old(endfile)
      ensures outfile == Flatten(DecodedChunks(tolerance, frames))
    {
      // a lossless video has exactly the frames that were written
      numPNG := |frames|;
      outfile := [];
      var pieces := DecodedChunks(tolerance, frames);
      var i := 0;
      while i < numPNG
        invariant frames == old(frames) && numPNG == |frames| && endfile == old(endfile)
        invariant i <= numPNG
        invariant outfile == Flatten(pieces[..i])
      {
        var bytes := PNGToData(tolerance, frames[i]);
        assert pieces[..i + 1][..i] == pieces[..i];
        outfile := outfile + bytes;
        i := i + 1;
      }
      assert pieces[..i] == pieces;
    }
  }

  /** Encoding a file and then decoding the video gives the file back. */
  method EncodeThenDecode(tolerance: int, file: seq<bv8>) returns (outfile: seq<bv8>)
    requires 0 <= tolerance < 255
    ensures outfile == file
  {
    var sequencer := new Sequencer();
    sequencer.Encode(file);
    outfile := sequencer.Decode(tolerance);
    FileRoundTrip(tolerance, file);
  }
}
