/** Chunking: a file's bytes are split into consecutive one-frame pieces, and
    the pieces, concatenated in frame order, give the file back. */
module Chunking {
  import opened Geometry

  function Min(a: nat, b: nat): nat {
    if a <= b then a else b
  }

  /** Number of frames a file of `size` bytes takes: one per full chunk, plus
      the last chunk, which is shorter than a frame's capacity (empty when the
      size is a multiple of it) and so always leaves a white block behind the
      data. */
  function FrameCount(size: nat): (count: nat)
    ensures count > 0
    ensures (count - 1) * Capacity <= size < count * Capacity
  {
    size / Capacity + 1
  }

  /** Chunk n of the file: the bytes from offset n * Capacity on, at most
      Capacity of them; nothing once the offset is at or past the end. */
  function GetNthSetOfBytes(file: seq<bv8>, n: nat): (chunk: seq<bv8>)
    ensures |chunk| == if |file| <= n * Capacity then 0 else Min(Capacity, |file| - n * Capacity)
    ensures forall i :: 0 <= i < |chunk| ==> chunk[i] == file[n * Capacity + i]
  {
    if |file| <= n * Capacity then [] else file[n * Capacity .. Min((n + 1) * Capacity, |file|)]
  }

  /** Every chunk but the last fills a frame; the last one does not. */
  lemma ChunkSizes(file: seq<bv8>, n: nat)
    requires n < FrameCount(|file|)
    ensures n < FrameCount(|file|) - 1 ==> |GetNthSetOfBytes(file, n)| == Capacity
    ensures n == FrameCount(|file|) - 1 ==> |GetNthSetOfBytes(file, n)| == |file| % Capacity < Capacity
  {
  }

  /** The chunks the encoder reads, in frame order. */
  function Chunks(file: seq<bv8>): (chunks: seq<seq<bv8>>)
    ensures |chunks| == FrameCount(|file|)
  {
    seq(FrameCount(|file|), n requires 0 <= n => GetNthSetOfBytes(file, n))
  }

  /** The bytes of the pieces, in order, as appending them one after the other
      to an output file leaves them. */
  function Flatten(pieces: seq<seq<bv8>>): seq<bv8> {
    if pieces == [] then [] else Flatten(pieces[..|pieces| - 1]) + pieces[|pieces| - 1]
  }

  /** The first k chunks together are the first k * Capacity bytes of the file
      (or all of it). */
  lemma {:induction false} ChunksPrefix(file: seq<bv8>, k: nat)
    requires k <= FrameCount(|file|)
    ensures Flatten(Chunks(file)[..k]) == file[..Min(k * Capacity, |file|)]
  {
    var chunks := Chunks(file);
    if k == 0 {
      assert chunks[..0] == [];
    } else {
      ChunksPrefix(file, k - 1);
      assert chunks[..k][..k - 1] == chunks[..k - 1];
      var before := file[..Min((k - 1) * Capacity, |file|)];
      var chunk := GetNthSetOfBytes(file, k - 1);
      assert before + chunk == file[..Min(k * Capacity, |file|)];
    }
  }

  /** Reassembly: concatenating all chunks in frame order gives the file. */
  lemma ChunksReassemble(file: seq<bv8>)
    ensures Flatten(Chunks(file)) == file
  {
    var chunks := Chunks(file);
    ChunksPrefix(file, |chunks|);
    assert chunks[..|chunks|] == chunks;
  }
}
