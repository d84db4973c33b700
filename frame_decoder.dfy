/** The frame decoder: one RGBA raster becomes the bytes it carries. One pixel
    per block is sampled, in row-major block order; the first white block ends
    the data, and a trailing group of fewer than four symbols is dropped. */
module FrameDecoder {
  import opened Geometry
  import opened BitPacking
  import opened Palette
  import opened FrameEncoder

  /** Position in the RGBA buffer of the pixel sampled in block (col, row):
      the pixel half a block right of and below the block's top-left corner. */
  function SampleIndex(col: nat, row: nat): (i: nat)
    requires col < Cols && row < Rows
    ensures i + 3 < RasterLength
  {
    (SamplePoint(row) * Width + SamplePoint(col)) * 4
  }

  /** The pixel whose four channels start at entry i of the RGBA buffer. */
  function PixelOf(image: seq<Level>, i: nat): Rgba
    requires i + 3 < |image|
  {
    Rgba(image[i], image[i + 1], image[i + 2], image[i + 3])
  }

  /** The colour of the pixel sampled in block g, blocks numbered row-major. */
  function SampleAt(image: seq<Level>, g: nat): Rgba
    requires |image| == RasterLength && g < Blocks
  {
    PixelOf(image, SampleIndex(g % Cols, g / Cols))
  }

  /** What the decoder reads from every block of the raster, in row-major order. */
  function Readings(tolerance: int, image: seq<Level>): (rs: seq<Reading>)
    requires |image| == RasterLength
    ensures |rs| == Blocks
  {
    seq(Blocks, g requires 0 <= g < Blocks => Classify(tolerance, SampleAt(image, g)))
  }

  /** The symbols read before the first end marker. */
  function TakeData(rs: seq<Reading>): (syms: seq<Sym>)
    ensures |syms| <= |rs|
    ensures forall i :: 0 <= i < |syms| ==> rs[i] == Data(syms[i])
    ensures |syms| < |rs| ==> rs[|syms|] == EndMarker
  {
    if rs == [] || rs[0] == EndMarker then [] else [rs[0].sym] + TakeData(rs[1..])
  }

  /** TakeData is determined by its contract: the symbols of a run of data
      readings that the end of the raster or an end marker closes. */
  lemma TakeDataUpTo(rs: seq<Reading>, syms: seq<Sym>)
    requires |syms| <= |rs|
    requires forall i :: 0 <= i < |syms| ==> rs[i] == Data(syms[i])
    requires |syms| < |rs| ==> rs[|syms|] == EndMarker
    ensures TakeData(rs) == syms
  {
  }

  /** The bytes one raster carries. */
  function DecodeRaster(tolerance: int, image: seq<Level>): (bytes: seq<bv8>)
    requires |image| == RasterLength
    ensures |bytes| <= Capacity
  {
    PackSymbols(TakeData(Readings(tolerance, image)))
  }

  /** With k data blocks before the first white block (or the end of the
      raster), decoding yields floor(k / 4) bytes, the packed groups of those
      blocks' symbols in order. */
  lemma DecodeStopsAtEnd(tolerance: int, image: seq<Level>, syms: seq<Sym>)
    requires |image| == RasterLength && |syms| <= Blocks
    requires forall g :: 0 <= g < |syms| ==> Readings(tolerance, image)[g] == Data(syms[g])
    requires |syms| < Blocks ==> Readings(tolerance, image)[|syms|] == EndMarker
    ensures DecodeRaster(tolerance, image) == PackSymbols(syms)
    ensures |DecodeRaster(tolerance, image)| == |syms| / 4
  {
    TakeDataUpTo(Readings(tolerance, image), syms);
  }

  /** The pixel sampled in block g of an encoded raster shows block g's colour. */
  lemma SampleOfRaster(bytes: seq<bv8>, g: nat)
    requires g < Blocks
    ensures SampleAt(Raster(bytes), g) == BlockColour(bytes, g)
  {
    var col, row := g % Cols, g / Cols;
    var x, y := SamplePoint(col), SamplePoint(row);
    assert BlockAt(x, y) == g;
    assert SampleIndex(col, row) == (y * Width + x) * 4;
    PixelShowsBlock(bytes, x, y, 0);
    PixelShowsBlock(bytes, x, y, 1);
    PixelShowsBlock(bytes, x, y, 2);
    PixelShowsBlock(bytes, x, y, 3);
  }

  /** Reading block g of an encoded raster gives back the symbol the encoder
      put there, or the end marker past the data. */
  lemma ReadingOfRaster(tolerance: int, bytes: seq<bv8>, g: nat)
    requires 0 <= tolerance < 255 && g < Blocks
    ensures Readings(tolerance, Raster(bytes))[g]
            == if g / 4 < |bytes| then Data(BitPair(bytes[g / 4], g % 4)) else EndMarker
  {
    SampleOfRaster(bytes, g);
    if g / 4 < |bytes| {
      ReadsSymbolColour(tolerance, BitPair(bytes[g / 4], g % 4));
    } else {
      ReadsWhite(tolerance);
    }
  }

  /** Round trip of one raster: a chunk that fits decodes to itself. */
  lemma RasterRoundTrip(tolerance: int, chunk: seq<bv8>)
    requires 0 <= tolerance < 255 && |chunk| <= Capacity
    ensures DecodeRaster(tolerance, Raster(chunk)) == chunk
  {
    var rs := Readings(tolerance, Raster(chunk));
    var syms := Expand(chunk);
    forall g | 0 <= g < |syms| ensures rs[g] == Data(syms[g]) {
      ReadingOfRaster(tolerance, chunk, g);
    }
    if |syms| < |rs| {
      ReadingOfRaster(tolerance, chunk, |syms|);
    }
    TakeDataUpTo(rs, syms);
    PackExpand(chunk);
  }

  /** `syms` are the symbols of the first |syms| readings, all of them data. */
  ghost predicate DataPrefix(rs: seq<Reading>, syms: seq<Sym>)
  {
    |syms| <= |rs| && forall i :: 0 <= i < |syms| ==> rs[i] == Data(syms[i])
  }

  /** The decoder's loop state after it has read the data blocks `syms`: they
      are the first readings of the raster; the completed groups of four are
      the bytes emitted so far; the counter is the length of the open group;
      the accumulator has had every symbol shifted into it. */
  ghost predicate DecoderState(rs: seq<Reading>, syms: seq<Sym>, bytes: seq<bv8>, acc: bv8, byteCounter: int)
  {
    && DataPrefix(rs, syms)
    && bytes == PackSymbols(syms)
    && byteCounter == |syms| % 4
    && acc == Accumulated(syms)
  }

  /** Reading one more data block keeps the loop state: the symbol is shifted
      into the accumulator, and the fourth symbol of a group emits it. */
  lemma DecoderStep(rs: seq<Reading>, syms: seq<Sym>, bytes: seq<bv8>, acc: bv8, byteCounter: int, s: Sym)
    requires DecoderState(rs, syms, bytes, acc, byteCounter)
    requires |syms| < |rs| && rs[|syms|] == Data(s)
    ensures DecoderState(rs, syms + [s],
                         if byteCounter == 3 then bytes + [Shift(acc, s)] else bytes,
                         Shift(acc, s),
                         if byteCounter == 3 then 0 else byteCounter + 1)
  {
    var longer := syms + [s];
    PackSnoc(syms, s);
    AccumulatedSnoc(syms, s);
    if byteCounter == 3 {
      AccumulatedLastFour(longer);
      assert longer[|longer| - 4] == syms[|syms| - 3];
    }
  }

  /** At scan position (x, y) = (SamplePoint(col), SamplePoint(row)) the
      decoder reads, from entry i = (y * Width + x) * 4 on, the reading of block
      g = row * Cols + col. */
  lemma ScanReading(tolerance: int, image: seq<Level>, col: nat, row: nat, x: nat, y: nat, i: nat, g: nat)
    requires |image| == RasterLength && col < Cols && row < Rows
    requires x == SamplePoint(col) && y == SamplePoint(row) && i == (y * Width + x) * 4
    requires g == row * Cols + col
    ensures g < Blocks && i + 3 < |image|
    ensures Readings(tolerance, image)[g] == Classify(tolerance, PixelOf(image, i))
  {
    assert g % Cols == col && g / Cols == row;
  }

  /** Decodes one raster: visits the sampled pixel of every block, row by row,
      shifting each block's symbol into an 8-bit accumulator and emitting the
      accumulator after every fourth symbol; returns at the first white block. */
  method PNGToData(tolerance: int, image: seq<Level>) returns (bytes: seq<bv8>)
    requires |image| == RasterLength
    ensures bytes == DecodeRaster(tolerance, image)
  {
    ghost var rs := Readings(tolerance, image);
    ghost var syms: seq<Sym> := [];
    bytes := [];
    var acc: bv8 := 0;
    var byteCounter := 0;
    var y := PixelSize / 2;
    ghost var row := 0;
    while y < Height
      invariant row <= Rows && y == SamplePoint(row)
      invariant |syms| == row * Cols
      invariant DecoderState(rs, syms, bytes, acc, byteCounter)
    {
      var x := PixelSize / 2;
      ghost var col := 0;
      while x < Width
        invariant col <= Cols && x == SamplePoint(col)
        invariant |syms| == row * Cols + col
        invariant DecoderState(rs, syms, bytes, acc, byteCounter)
      {
        var atEnd;
        syms, bytes, acc, byteCounter, atEnd := DecodeBlock(tolerance, image, x, y, col, row, syms, bytes, acc, byteCounter);
        if atEnd {
          // a white block marks the end of the data
          TakeDataUpTo(rs, syms);
          return;
        }
        x := x + PixelSize;
        col := col + 1;
      }
      y := y + PixelSize;
      row := row + 1;
    }
    assert row == Rows;
    TakeDataUpTo(rs, syms);
  }

  /** The body of the decoder's scan: reads the sampled pixel of block
      (col, row), shifts the accumulator, and either reports the end marker
      or shifts the block's symbol in, emitting the accumulator when it
      completes a group of four. */
  method DecodeBlock(tolerance: int, image: seq<Level>, x: nat, y: nat, ghost col: nat, ghost row: nat,
                     ghost syms0: seq<Sym>, bytes0: seq<bv8>, acc0: bv8, counter0: int)
    returns (ghost syms: seq<Sym>, bytes: seq<bv8>, acc: bv8, byteCounter: int, atEnd: bool)
    requires |image| == RasterLength && col < Cols && row < Rows
    requires x == SamplePoint(col) && y == SamplePoint(row) && |syms0| == row * Cols + col
    requires DecoderState(Readings(tolerance, image), syms0, bytes0, acc0, counter0)
    ensures atEnd ==> syms == syms0 && bytes == bytes0 && Readings(tolerance, image)[|syms0|] == EndMarker
    ensures !atEnd ==> |syms| == |syms0| + 1 && DecoderState(Readings(tolerance, image), syms, bytes, acc, byteCounter)
  {
    var i := (y * Width + x) * 4;
    ScanReading(tolerance, image, col, row, x, y, i, |syms0|);
    var colour := Rgba(image[i], image[i + 1], image[i + 2], image[i + 3]);
    assert colour == PixelOf(image, i);
    syms, bytes, acc, byteCounter := syms0, bytes0, acc0 << 2, counter0;
    var reading := Classify(tolerance, colour);
    assert Readings(tolerance, image)[|syms0|] == reading;
    if reading == EndMarker {
      atEnd := true;
      return;
    }
    atEnd := false;
    acc := acc | reading.sym;
    DecoderStep(Readings(tolerance, image), syms0, bytes0, acc0, counter0, reading.sym);
    syms := syms0 + [reading.sym];
    if byteCounter == 3 {
      bytes := bytes + [acc];
      byteCounter := 0;
    } else {
      byteCounter := byteCounter + 1;
    }
  }
}
