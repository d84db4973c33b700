# Video steganography codec, modelled in Dafny

The program stores a file in a video. Encoding splits the file's bytes into
chunks, one per frame. Each chunk is drawn as a 1920 x 1080 RGBA raster.
The raster is cut into 4 x 4-pixel blocks, and every block carries one 2-bit
symbol as one of four opaque colours: black 0, red 1, green 2 and blue 3.
The bit pairs of each byte are taken most significant first. Blocks past the
end of the chunk are white, which marks the end of the data. Decoding samples
one pixel per block and classifies its colour against a tolerance. It shifts
the symbols into an 8-bit accumulator and emits a byte after every fourth
symbol. It stops at the first white block. The bytes of all frames are
appended in frame order to rebuild the file.

The model is split into these modules:

- `Geometry` holds the frame, block and capacity constants. It also has the
  block index of a pixel and the sample point of a block.
- `BitPacking` covers bit-pair extraction, packing four symbols into a byte,
  the symbol stream of a byte sequence, and the decoder's shift-and-or
  accumulator.
- `Palette` holds the colour table and the decoder's fixed-priority
  classification.
- `FrameEncoder` is `generateImageVector`: a method that fills a fresh array
  pixel by pixel, proved equal to the raster function `Raster`.
- `FrameDecoder` is the scan of `PNGToData`: a method whose loop state
  (accumulator, counter, bytes pushed so far) is proved to follow the
  function `DecodeRaster`. The raster round trip is proved there.
- `Chunking` and `Sequencing` cover `getNthSetOfBytes` and the `encode` and
  `decode` loops. A `Sequencer` class owns the program's global counter
  `numPNG`, the flag `endfile` and the frames written. The whole-file round
  trip is proved there.
- `Findings` models, separately, the places where the code as written
  departs from what it evidently intends.

The decoder reads pixels as OpenCV does, in BGR order. Its `color[2]`,
`color[0]` and `color[1]` are therefore the red, blue and green channels of
the RGBA raster the encoder writes. The model reads the raster in RGBA
order with that mapping. The classification order follows the code: white
first, then red, then blue, then green, then black. (A red, green, blue
order gives the same result for the encoder's colours.) The
end-of-decode rule also follows the code: `decode` reads every frame the
video holds rather than stopping after the first frame that contains white.
The frames the encoder writes never continue past that frame, so the result
is the same.

## Model

| member | source | states |
|---|---|---|
| Geometry.FrameSizes | main.cpp:23-25 | blocks tile the frame exactly (480 x 270); a frame holds 129600 symbols, i.e. 32400 bytes; the buffer holds 4 channels per pixel |
| Geometry.BlockAt | main.cpp:307 | the block of pixel (x, y) is in range; its column is x / PIXEL_SIZE and its row is y / PIXEL_SIZE, row-major |
| Geometry.SamplePoint | main.cpp:142-143 | the sampled coordinate of block k lies inside block k |
| BitPacking.BitPairShiftMask | main.cpp:312 | the shift by 6 - 2k and the mask with 3 select bit pair k, most significant first |
| BitPacking.Pack4 | main.cpp:310-312 | the byte packed from four symbols has exactly those symbols as its four bit pairs |
| BitPacking.PackBitPairs | main.cpp:310-312 | a byte is recovered from its four bit pairs |
| BitPacking.PairWeights | main.cpp:310-312 | read as a number, a byte is 64, 16, 4 and 1 times its pairs 0 to 3 |
| BitPacking.ExpandAt | main.cpp:307-312 | symbol 4j + k of the stream the encoder draws is bit pair k of byte j |
| BitPacking.PackExpand | main.cpp:145-165 | packing the symbol stream in groups of four gives back the bytes it was expanded from |
| BitPacking.PackExpandAt | main.cpp:160-161 | the j-th byte packed from the stream is byte j |
| BitPacking.PackSnoc | main.cpp:160-165 | one more symbol emits a byte exactly when it completes a group of four, and that byte packs the group; otherwise the bytes are unchanged |
| BitPacking.AccumulatorPacks | main.cpp:145-158 | four shift-and-or steps leave the byte the four symbols pack to, whatever the accumulator held before |
| BitPacking.AccumulatedSnoc | main.cpp:145 | shifting in one more symbol is one accumulator step |
| BitPacking.AccumulatedLastFour | main.cpp:145-161 | after four or more symbols, the 8-bit accumulator holds exactly the packed byte of the last four; older bits have been shifted out |
| Palette.SymbolColour | main.cpp:313-339 | each symbol colour is opaque and is not white |
| Palette.Classify | main.cpp:148-158 | all three channels lit is the end marker, with priority over the single-channel tests; otherwise red lit reads 1, else blue lit reads 3, else green lit reads 2, and no channel lit reads 0 |
| Palette.ReadsSymbolColour | main.cpp:148-158 | for every tolerance 0 <= t < 255, each symbol's colour reads back as that symbol |
| Palette.ReadsWhite | main.cpp:148-149 | for every tolerance 0 <= t < 255, white reads as the end marker |
| FrameEncoder.Raster | main.cpp:299-300 | the raster has WIDTH * HEIGHT * 4 entries and every alpha entry is 255 |
| FrameEncoder.PixelChannels | main.cpp:302-307 | the four entries of pixel (x, y) hold the colour of the block containing it |
| FrameEncoder.PixelShowsBlock | main.cpp:304-345 | every pixel shows its block's colour, so all pixels of a block agree |
| FrameEncoder.EmptyChunkIsWhite | main.cpp:340-345 | an empty chunk gives an all-white raster |
| FrameEncoder.GenerateImageVector | main.cpp:299-349 | the buffer, newly allocated and filled row by row, pixel by pixel, equals the raster of the chunk |
| FrameEncoder.PaintPixel | main.cpp:309-345 | a pixel gets the colour of its block's bit pair while the chunk has a byte for it, white after; no other entry changes |
| FrameDecoder.SampleIndex | main.cpp:142-144 | the sampled pixel of every block lies inside the buffer |
| FrameDecoder.Readings | main.cpp:142-158 | the decoder reads one value per block |
| FrameDecoder.TakeData | main.cpp:147-149 | the symbols read are a prefix of data readings, closed by the end marker or by the end of the frame |
| FrameDecoder.DecodeRaster | main.cpp:140-168 | a frame decodes to at most 32400 bytes |
| FrameDecoder.DecodeStopsAtEnd | main.cpp:148-165 | with k data blocks before the first white block, the decoder returns floor(k / 4) bytes, the packed groups in order; a trailing partial group is dropped |
| FrameDecoder.SampleOfRaster | main.cpp:142-144 | the sampled pixel of block g of an encoded raster has block g's colour |
| FrameDecoder.ReadingOfRaster | main.cpp:148-158 | block g of an encoded raster reads as bit pair g % 4 of byte g / 4, or as the end marker past the data |
| FrameDecoder.RasterRoundTrip | main.cpp:140-168 | a chunk of at most 32400 bytes decodes from its raster to itself, for every tolerance 0 <= t < 255 |
| FrameDecoder.DecoderStep | main.cpp:145-165 | one more data block keeps the loop state: accumulator, group counter and bytes pushed |
| FrameDecoder.ScanReading | main.cpp:142-144 | the pixel at scan position (x, y) is the sampled pixel of block row * 480 + col |
| FrameDecoder.PNGToData | main.cpp:131-168 | the scan with its accumulator returns exactly the bytes the frame decodes to |
| FrameDecoder.DecodeBlock | main.cpp:144-165 | one scan step either stops at white, with the state unchanged, or reads a data block and keeps the loop state |
| Chunking.FrameCount | main.cpp:72-78 | a file takes one frame per full chunk plus one, and the frames cover the file |
| Chunking.GetNthSetOfBytes | main.cpp:254-291 | chunk n is the file's bytes from offset n * 32400 on, as many as fit in a frame |
| Chunking.ChunkSizes | main.cpp:254-291 | every chunk but the last fills a frame; the last holds the remainder and is shorter |
| Chunking.Chunks | main.cpp:72-78 | there is one chunk per frame |
| Chunking.ChunksPrefix | main.cpp:95-99 | the first k chunks concatenated are the first k * 32400 bytes of the file |
| Chunking.ChunksReassemble | main.cpp:95-99 | all chunks concatenated in frame order are the file |
| Sequencing.EncodeFile | main.cpp:72-78 | one raster per chunk, each of full length |
| Sequencing.DecodedChunks | main.cpp:95-99 | one decoded piece per frame, none longer than a frame's capacity |
| Sequencing.FileRoundTrip | main.cpp:88-100 | decoding the frames of an encoded file and concatenating the pieces gives the file |
| Sequencing.LastFrameHoldsEnd | main.cpp:72-78 | the last frame always holds a white block; an empty file is one all-white frame |
| Sequencing.Sequencer.constructor | main.cpp:31-32 | the program starts with no frames, counter 0 and the end-of-file flag clear, and the class invariant holds |
| Sequencing.Sequencer.Encode | main.cpp:63-83 | encode writes exactly the frames of the file, counting them, and ends with the flag set |
| Sequencing.Sequencer.Decode | main.cpp:88-100 | decode appends, in frame order, the bytes of every frame the video holds; the frames stay as they were |
| Sequencing.EncodeThenDecode | main.cpp:49-52 | encoding and then decoding gives back the file |
| Findings.NumBytesFormula | main.cpp:28 | NUM_BYTES as written is 8294400 |
| Findings.OversizedChunkLosesData | main.cpp:28 | a chunk of NUM_BYTES bytes is 256 times what a frame holds and cannot come back from its raster |
| Findings.ReadChunkAsWritten | main.cpp:261-291 | the read starts at offset 0 whatever n, and a short read yields nothing |
| Findings.ReadIgnoresOffset | main.cpp:274-281 | chunk 1 as read differs from the file's second slice |
| Findings.ShortReadDropsTail | main.cpp:281-285 | a one-byte file reads as an empty chunk |
| Findings.EncodeLoopAsWritten | main.cpp:72-78 | after any number of rounds the flag is still clear, and every round read the same chunk |
| Findings.SampleIndexAsWritten | main.cpp:144 | the transposed accessor reads row x, column y |
| Findings.TransposedSampleMisses | main.cpp:144 | the transposed read lands in the wrong block row, and beyond the frame in the last block columns |

## Left out

- The interactive prompt of `main` (main.cpp:38-58) is console I/O. Only its
  encode-then-decode branch is modelled, as `Sequencing.EncodeThenDecode`.
- `appendBytesToFile` (main.cpp:108-122) is modelled as appending to a byte
  sequence. Its open and write error messages are left out.
- `generatePNG` and lodepng (main.cpp:244-252) are left out. A frame is
  stored as its in-memory raster, and the encoder's failure return is not
  modelled.
- `imread` and its empty-image error path (main.cpp:134-138) are left out.
  The decoder takes the raster itself; OpenCV's 3-channel BGR matrix is
  read as the RGBA buffer, with the channel mapping described above.
- `generateVideo` and `generatePNGSequence` (main.cpp:176-235) are foreign
  video calls. The video is taken to be lossless: `decode` sees exactly the
  frames `encode` wrote, and `numPNG` becomes their number. This also
  assumes away a name mismatch: `encode` writes "video.avi" (main.cpp:214),
  while `decode` reads "videos/output.mp4" (main.cpp:91).
- The directory management in `encode` and `decode` (main.cpp:69-70,
  90-92) is modelled only as starting with no frames and an empty output.
- The stream mechanics of `getNthSetOfBytes` (main.cpp:265-285) become
  slicing of the file's bytes. The open-failure path is left out.
- The tolerance, which the code never defines, is a parameter. The round
  trips hold for every tolerance 0 <= t < 255.
- Identifiers that do not compile are read as their evident meaning: the
  accumulator `byte` that clashes with the vector `bytes`, `VideoCaputure`,
  `videoPath` and `outfileExtension`.
- Unsigned 32-bit pixel and block index arithmetic is modelled as unbounded
  integers. Every pixel and block index stays below 8294400, so none of them
  wraps around.
- Chunking.GetNthSetOfBytes: chunk offsets are unbounded integers in the
  model. The source's 32-bit offset `n * bytesToUse` (main.cpp:277) would
  wrap for files of 4 GiB or more, which the model does not capture.
- Sequencing.Sequencer.Encode: requires the counter at 0 and the flag clear,
  which is the program's initial state. A second `encode` in one run, with
  a counter already advanced, is not modelled.
- Sequencing.Sequencer.Decode: follows the code and reads all frames. It
  does not stop after the first frame that holds white.

## Findings

| source | as written | input that shows it | evidently intended | confidence | as-written member | corrected member |
|---|---|---|---|---|---|---|
| main.cpp:28 | NUM_BYTES is ((WIDTH * PIXEL_SIZE) * (HEIGHT * PIXEL_SIZE)) / 4 = 8294400 | any chunk of 8294400 bytes: its raster decodes to at most 32400 bytes | (WIDTH / PIXEL_SIZE) * (HEIGHT / PIXEL_SIZE) / 4 = 32400, the bytes one frame holds | high, not executed | Findings.OversizedChunkLosesData | FrameDecoder.RasterRoundTrip |
| main.cpp:274-281 | startPosition is computed but the stream is never moved there | with NUM_BYTES corrected to 32400, a file of 32400 zero bytes then 32400 one bytes: chunk 1 reads zeros | read chunk n from offset n * chunk size | high, not executed | Findings.ReadIgnoresOffset | Chunking.ChunksReassemble |
| main.cpp:281-285 | a read that finds fewer bytes than asked for fails, and the chunk comes back empty | the one-byte file [0x41] reads as [] | return the remaining bytes as the last, short chunk | high, not executed | Findings.ShortReadDropsTail | Chunking.ChunkSizes |
| main.cpp:72-78 | `endfile` is never set, and n is always PIXEL_SIZE * WIDTH * HEIGHT | any file: after any number of rounds the loop continues and reads the same chunk | read chunk numPNG and stop after the chunk shorter than a frame | high, not executed | Findings.EncodeLoopAsWritten | Sequencing.Sequencer.Encode |
| main.cpp:144 | `image.at<Vec3b>(x, y)` takes x as the row and y as the column | block column 479, x = 1918, is past the 1080 rows; block (1, 0) is read from block row 1 | `image.at<Vec3b>(y, x)`, row y and column x | high, not executed | Findings.TransposedSampleMisses | FrameDecoder.ScanReading |
