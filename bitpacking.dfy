/** Bytes as 2-bit symbols and back: the bit-pair extraction of the frame
    encoder and the shift-and-or accumulator of the frame decoder. */
module BitPacking {

  /** A 2-bit symbol, the payload of one block. */
  type Sym = s: bv8 | s < 4

  /** Bit pair k of `b`, most significant pair first: pair 0 is bits 7-6,
      pair 3 is bits 1-0. */
  function BitPair(b: bv8, k: nat): (s: Sym)
    requires k < 4
  {
    if k == 0 then b >> 6 else if k == 1 then (b >> 4) & 3 else if k == 2 then (b >> 2) & 3 else b & 3
  }

  /** The program computes bit pair k with one shift by 6 - 2k and a mask. */
  lemma BitPairShiftMask(b: bv8, k: nat)
    requires k < 4
    ensures BitPair(b, k) == (b >> (6 - 2 * k)) & 3
  {
  }

  /** One byte from four symbols, the first in the most significant pair. */
  function Pack4(s0: Sym, s1: Sym, s2: Sym, s3: Sym): (b: bv8)
    ensures BitPair(b, 0) == s0 && BitPair(b, 1) == s1
    ensures BitPair(b, 2) == s2 && BitPair(b, 3) == s3
  {
    (s0 << 6) | (s1 << 4) | (s2 << 2) | s3
  }

  /** Splitting a byte into its four pairs and packing them again gives the byte. */
  lemma PackBitPairs(b: bv8, s0: Sym, s1: Sym, s2: Sym, s3: Sym)
    requires s0 == BitPair(b, 0) && s1 == BitPair(b, 1) && s2 == BitPair(b, 2) && s3 == BitPair(b, 3)
    ensures Pack4(s0, s1, s2, s3) == b
  {
  }

  /** Read as a number, a byte is its four pairs weighted 64, 16, 4 and 1:
      the pairs are its bits 7-6, 5-4, 3-2 and 1-0. */
  lemma PairWeights(b: bv8)
    ensures b as int == 64 * BitPair(b, 0) as int + 16 * BitPair(b, 1) as int
                        + 4 * BitPair(b, 2) as int + BitPair(b, 3) as int
  {
  }

  /** The symbol stream of a byte sequence: four symbols per byte, in byte
      order, each byte most significant pair first. */
  function Expand(bytes: seq<bv8>): seq<Sym> {
    seq(4 * |bytes|, i requires 0 <= i < 4 * |bytes| => BitPair(bytes[i / 4], i % 4))
  }

  /** Bytes from a symbol stream: each run of four symbols makes one byte; a
      trailing run of fewer than four symbols is dropped. */
  function PackSymbols(syms: seq<Sym>): seq<bv8> {
    seq(|syms| / 4, j requires 0 <= j < |syms| / 4 =>
      Pack4(syms[4 * j], syms[4 * j + 1], syms[4 * j + 2], syms[4 * j + 3]))
  }

  /** Packing undoes expanding. */
  lemma PackExpand(bytes: seq<bv8>)
    ensures PackSymbols(Expand(bytes)) == bytes
  {
    var back := PackSymbols(Expand(bytes));
    DivFour(|bytes|, 0);
    forall j | 0 <= j < |bytes|
      ensures back[j] == bytes[j]
    {
      PackExpandAt(bytes, j);
    }
  }

  lemma PackExpandAt(bytes: seq<bv8>, j: nat)
    requires j < |bytes|
    ensures |PackSymbols(Expand(bytes))| == |bytes|
    ensures PackSymbols(Expand(bytes))[j] == bytes[j]
  {
    var syms := Expand(bytes);
    assert |PackSymbols(syms)| == |bytes| by { DivFour(|bytes|, 0); }
    ExpandAt(bytes, j, 0);
    ExpandAt(bytes, j, 1);
    ExpandAt(bytes, j, 2);
    ExpandAt(bytes, j, 3);
    PackBitPairs(bytes[j], syms[4 * j], syms[4 * j + 1], syms[4 * j + 2], syms[4 * j + 3]);
  }

  /** Symbol 4j + k of the stream is bit pair k of byte j. */
  lemma ExpandAt(bytes: seq<bv8>, j: nat, k: nat)
    requires j < |bytes| && k < 4
    ensures 4 * j + k < |Expand(bytes)| && Expand(bytes)[4 * j + k] == BitPair(bytes[j], k)
  {
    DivFour(j, k);
  }

  lemma DivFour(j: nat, k: nat)
    requires k < 4
    ensures (4 * j + k) / 4 == j && (4 * j + k) % 4 == k
  {
  }

  /** Appending one symbol completes a byte exactly when it makes the symbol
      count a multiple of four. */
  lemma PackSnoc(syms: seq<Sym>, s: Sym)
    ensures (|syms| + 1) % 4 != 0 ==> PackSymbols(syms + [s]) == PackSymbols(syms)
    ensures (|syms| + 1) % 4 == 0 ==>
              PackSymbols(syms + [s]) == PackSymbols(syms)
                + [Pack4(syms[|syms| - 3], syms[|syms| - 2], syms[|syms| - 1], s)]
  {
    var longer := syms + [s];
    var a, b := PackSymbols(syms), PackSymbols(longer);
    if (|syms| + 1) % 4 == 0 {
      var c := a + [Pack4(syms[|syms| - 3], syms[|syms| - 2], syms[|syms| - 1], s)];
      assert |b| == |c|;
      forall j | 0 <= j < |b| ensures b[j] == c[j] {
        if j == |a| {
          assert 4 * j == |syms| - 3;
        }
      }
    } else {
      assert |b| == |a|;
      forall j | 0 <= j < |b| ensures b[j] == a[j] {
      }
    }
  }

  /** One step of the decoder's accumulator: shift the byte two places left,
      dropping the bits pushed out of it, and put the new symbol in the low pair. */
  function Shift(acc: bv8, s: Sym): bv8 {
    (acc << 2) | s
  }

  /** Four steps of the accumulator, whatever it held before, leave exactly
      the byte those four symbols pack to. */
  lemma AccumulatorPacks(acc: bv8, s0: Sym, s1: Sym, s2: Sym, s3: Sym)
    ensures Shift(Shift(Shift(Shift(acc, s0), s1), s2), s3) == Pack4(s0, s1, s2, s3)
  {
  }

  /** The accumulator after the symbols `syms` have been shifted in, one at a
      time, starting from 0. */
  function Accumulated(syms: seq<Sym>): bv8 {
    if syms == [] then 0 else Shift(Accumulated(syms[..|syms| - 1]), syms[|syms| - 1])
  }

  /** Shifting in one more symbol is one more accumulator step. */
  lemma AccumulatedSnoc(syms: seq<Sym>, s: Sym)
    ensures Accumulated(syms + [s]) == Shift(Accumulated(syms), s)
  {
    assert (syms + [s])[..|syms|] == syms;
  }

  /** Once at least four symbols have been shifted in, the accumulator holds
      exactly the byte the last four pack to: older bits have been shifted out. */
  lemma {:induction false} AccumulatedLastFour(syms: seq<Sym>)
    requires |syms| >= 4
    ensures Accumulated(syms) == Pack4(syms[|syms| - 4], syms[|syms| - 3], syms[|syms| - 2], syms[|syms| - 1])
  {
    var n := |syms|;
    var s0, s1, s2, s3 := syms[n - 4], syms[n - 3], syms[n - 2], syms[n - 1];
    var base := syms[..n - 4];
    assert base + [s0] == syms[..n - 3];
    assert syms[..n - 3] + [s1] == syms[..n - 2];
    assert syms[..n - 2] + [s2] == syms[..n - 1];
    assert syms[..n - 1] + [s3] == syms;
    AccumulatedSnoc(base, s0);
    AccumulatedSnoc(syms[..n - 3], s1);
    AccumulatedSnoc(syms[..n - 2], s2);
    AccumulatedSnoc(syms[..n - 1], s3);
    AccumulatorPacks(Accumulated(base), s0, s1, s2, s3);
  }
}
