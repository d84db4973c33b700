/** The five block colours and how the decoder tells them apart. */
module Palette {
  import opened BitPacking

  /** The level of one colour channel, an unsigned 8-bit value. */
  type Level = v: int | 0 <= v < 256

  /** One pixel, channels in RGBA order. */
  datatype Rgba = Rgba(r: Level, g: Level, b: Level, a: Level)

  /** The end marker: a block past the end of the data. */
  const White := Rgba(255, 255, 255, 255)

  /** The opaque colour the encoder paints a symbol with: 0 black, 1 red,
      2 green, 3 blue. */
  function SymbolColour(s: Sym): (c: Rgba)
    ensures c.a == 255 && c != White
  {
    if s == 0 then Rgba(0, 0, 0, 255)
    else if s == 1 then Rgba(255, 0, 0, 255)
    else if s == 2 then Rgba(0, 255, 0, 255)
    else Rgba(0, 0, 255, 255)
  }

  /** Channel k of a pixel as it lies in the RGBA buffer. */
  function Channel(c: Rgba, k: nat): Level
    requires k < 4
  {
    if k == 0 then c.r else if k == 1 then c.g else if k == 2 then c.b else c.a
  }

  /** What the decoder reads from one block. */
  datatype Reading = EndMarker | Data(sym: Sym)

  /** A channel counts as lit when it exceeds the tolerance. */
  predicate Lit(v: Level, tolerance: int) {
    v > tolerance
  }

  /** The decoder's fixed-priority colour test: all three channels lit is the
      end marker, whatever else holds; otherwise red, then blue, then green
      decide, and a pixel with no channel lit is black. */
  function Classify(tolerance: int, c: Rgba): (reading: Reading)
    ensures reading == EndMarker <==> Lit(c.r, tolerance) && Lit(c.g, tolerance) && Lit(c.b, tolerance)
    ensures reading != EndMarker && Lit(c.r, tolerance) ==> reading == Data(1)
    ensures reading != EndMarker && !Lit(c.r, tolerance) && Lit(c.b, tolerance) ==> reading == Data(3)
    ensures !Lit(c.r, tolerance) && !Lit(c.b, tolerance) && Lit(c.g, tolerance) ==> reading == Data(2)
    ensures !Lit(c.r, tolerance) && !Lit(c.g, tolerance) && !Lit(c.b, tolerance) ==> reading == Data(0)
  {
    if Lit(c.b, tolerance) && Lit(c.g, tolerance) && Lit(c.r, tolerance) then EndMarker
    else if Lit(c.r, tolerance) then Data(1)
    else if Lit(c.b, tolerance) then Data(3)
    else if Lit(c.g, tolerance) then Data(2)
    else Data(0)
  }

  /** With a tolerance below full intensity, every symbol colour the encoder
      paints reads back as its symbol. */
  lemma ReadsSymbolColour(tolerance: int, s: Sym)
    requires 0 <= tolerance < 255
    ensures Classify(tolerance, SymbolColour(s)) == Data(s)
  {
  }

  /** With a tolerance below full intensity, white reads as the end marker. */
  lemma ReadsWhite(tolerance: int)
    requires 0 <= tolerance < 255
    ensures Classify(tolerance, White) == EndMarker
  {
  }
}
