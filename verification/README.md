# rvc in Dafny

A Dafny model of the core of **rvc**, a palette video codec. The repository has two halves:

- an encoder written in Go;
- a player written in C.

The encoder quantises a clip's colours into a palette of at most 256 colours. It has two quantisers: a k-means++ quantiser (`ColorCalc`) and a smaller one (`ColorCalcMini`). It maps each frame onto that palette and cuts the frame into 4 x 4 blocks. It then encodes those blocks along a Hilbert curve:

- solid colour;
- a sub-palette of 2, 4 or 8 colours;
- a motion reference into the previous frame.

Finally it writes an RVF file, raw or compressed. An RVF file holds a header, the palette, optional audio, and one record per frame.

The player opens an RVF file and reads the frames back one at a time. It unpacks the bit-packed palette indices and walks the same Hilbert curve.

What the model covers, module by module:

| module | file | models |
|---|---|---|
| `Numeric`, `Bytes`, `Results`, `ArgMin` | numeric.dfy, bytes.dfy, results.dfy, argmin.dfy | integer helpers, bytes and little-endian fields, result values, first-minimum search |
| `Colors` | colors.dfy | `IntColor` / `FloatColor` with clipping, normalising and conversion (encoder/colors.go) |
| `PaletteCompare` | palcomp.dfy | the palette distance matrix and its float palette (encoder/palcomp.go) |
| `Quantizer`, `ColorCalcMini`, `ColorCalc` | quantizer.dfy, colorcalcmini.dfy, colorcalc.dfy | k-means++ seeding, cluster assignment, centroid update, the attempt loop, the colour cube, the worker ranges and the progress display |
| `Encoding`, `Patterns` | encoding.dfy, patterns.dfy | cutting images into blocks, block comparison, sub-palettes, the block-pattern table |
| `MotionOffsets`, `Motion` | offsets.dfy, motion.dfy | the spiral of motion offsets and the rectangle comparison of the motion search |
| `Hilbert`, `HilbertC` | hilbert.dfy, hilbertc.dfy | the encoder's Hilbert curve (encoder/hilbert.go) and the player's curve over its block grid (player/src/decoding.c) |
| `Wave` | wave.dfy | the WAV reader's header checks |
| `RvfFile`, `Cli` | rvf.dfy, cli.dfy | the RVF writer and the `encode` command that picks the writer and the frame flags |
| `Stream`, `RvfDecode`, `Unpack` | stream.dfy, rvfdecode.dfy, unpack.dfy | the player's file reader (player/src/rvf_decode.c) and its index unpacking (player/src/decoding.c) |

Some things the code computes are not modelled as operations. They are taken as parameters, and every contract holds for any value a caller supplies:

- Floating-point values are `real`.
- Go's `math.Round` is a parameter `round`.
- Colour distances and luma are parameters.
- Random draws are a fraction in [0, 1).
- Parallel workers are modelled as the sequential passes they split the work into.

File contents are byte sequences. A read past the end of one delivers zeros: this is a modelling choice, and "## Left out" lists where the C and Go readers differ from it.

The central results:

- A file written by the encoder's writer opens in the player with the same header and palette. The player's k-th call to `rvf_next_frame` returns the k-th frame that was written (`RvfDecode`, `Cli`).
- Packing and the player's unpacking are inverses for 1, 2 and 3 bits per index (`Unpack`).
- The Hilbert curve visits every cell of a power-of-two square exactly once, with unit steps. The player's curve and the encoder's curve agree on such squares (`Hilbert`, `HilbertC`).
- The quantiser's steps keep every point in a valid cluster. The attempt loop keeps the best result (`Quantizer`, `ColorCalc`).

## Model

| member | source | states |
|---|---|---|
| Colors.ClipFloat | encoder/colors.go:15-23 | the result lies in [0, 1], equals the input inside [0, 1], is 1 above and 0 below |
| Colors.ClipInt | encoder/colors.go:25-33 | the result lies in [0, 255], equals the input inside [0, 255], is 255 above and 0 below |
| Colors.NormalizedFloat | encoder/colors.go:37-42 | every component of the result lies in [0, 1]; a colour already in range is unchanged |
| Colors.NormalizedInt | encoder/colors.go:66-71 | every component of the result lies in [0, 255]; a byte colour is unchanged |
| Colors.IntToFloat | encoder/colors.go:77-79 | a byte colour becomes a colour with components in [0, 1] |
| Colors.FloatToInt | encoder/colors.go:56-62 | whatever the rounding function returns, every component lies in [0, 255] |
| Colors.IntFloatRoundTrip | encoder/colors.go:56-62 | a byte colour converted to a real colour and back is itself, whenever rounding is exact on integers |
| Bytes.LE32RoundTrip | encoder/rvffile.go:26-28 | a 32-bit value written little-endian reads back as itself |
| Bytes.ReadLE32Inverse | encoder/rvffile.go:26-28 | any four bytes are the little-endian encoding of the value they read as |
| Bytes.ReadLE16Inverse | encoder/wave.go:43-61 | any two bytes are the little-endian encoding of the value they read as |
| Bytes.U32 | encoder/rvffile.go:42-44 | `uint32(x)` is x modulo 2^32: below 2^32, congruent to x, and x itself when x fits |
| Bytes.Low8 | encoder/rvffile.go:76-80 | `byte(x)` is x modulo 256, and x itself when x fits |
| RvfFile.FixedHeader | encoder/rvffile.go:38-45 | 20 bytes: the magic 'R','V','F',3 first and the four frame-time bytes last |
| RvfFile.FlagsByte | encoder/rvffile.go:46-49 | the compression bit is the caller's; with audio the AudioBlock bit is set; without audio the byte is the caller's flags |
| RvfFile.AudioFields | encoder/rvffile.go:48-57 | no bytes without audio; six bytes (channels, rate, quality) with audio |
| RvfFile.PaletteBytes | encoder/rvffile.go:59-65 | a count byte and three bytes per colour; for 1 .. 256 colours the count byte plus one is the palette size |
| RvfFile.AudioData | encoder/rvffile.go:67-71 | no bytes without audio; with audio a 4-byte length followed by exactly the audio data |
| RvfFile.NewRvfFile | encoder/rvffile.go:30-74 | the header is 21 bytes, then the audio fields, the palette section and the audio block |
| RvfFile.WriteRaw | encoder/rvffile.go:76-80 | one byte per index, each index in [0, 256) written as itself |
| RvfFile.WriteCompressed | encoder/rvffile.go:82-88 | len + 9 bytes: flags at 4, the data between the two length fields, equal leading and trailing 4-byte lengths reading len + 5 |
| RvfFile.ConcatPrefix | encoder/rvffile.go:76-88 | the records written so far are a prefix of the whole frame section |
| RvfFile.RecordAt | encoder/rvffile.go:76-88 | record k sits in the frame section right after the records before it |
| RvfFile.CompressedRecordIs | encoder/main.go:288-311 | record i of the compressed frame section is frame i as WriteCompressed writes it |
| RvfFile.RawRecordIs | encoder/main.go:236-247 | record i of the uncompressed frame section is frame i as WriteRaw writes it |
| Stream.Take | player/src/rvf_decode.c:109 | a read of n bytes yields n bytes: the file's own bytes when they are all there, zero where the file has ended |
| Stream.After | player/src/rvf_decode.c:109 | the position advances by n, or stops at the end of the file on a short read |
| Stream.ReadU32 | player/src/rvf_decode.c:36-39 | a 32-bit field is below 2^32 and reads 0 when the file ends before it |
| Stream.ReadU32At | player/src/rvf_decode.c:36-39 | a field the encoder wrote with its little-endian helper reads back as the value written |
| RvfDecode.MagicValueIff | player/src/rvf_decode.c:19-21 | the three magic bytes read as 0x465652 exactly when they are 'R','V','F' |
| RvfDecode.ReadHeader | player/src/rvf_decode.c:19-45 | the header is accepted iff the file starts with 'R','V','F',3; a bad magic is WrongFormat and a bad version WrongVersion |
| RvfDecode.ReadAudioFields | player/src/rvf_decode.c:47-58 | audio metadata is present iff the AudioBlock or AudioStream flag is set; the bit depth is 16 or 8 |
| RvfDecode.ReadPalette | player/src/rvf_decode.c:60-65 | the palette has the count byte plus one colours, between 1 and 256, each a byte colour |
| RvfDecode.ReadAudioBuffer | player/src/rvf_decode.c:67-73 | the audio buffer is read iff AudioBlock is set, with as many bytes as its length field says |
| RvfDecode.ReadBody | player/src/rvf_decode.c:41-78 | the opened file keeps the header's size, length and frame time; it is compressed iff CompressionFull is set; the frame size is width x height |
| RvfDecode.Open | player/src/rvf_decode.c:15-83 | rvf_open succeeds iff the file starts with the magic and version 3; WrongFormat iff the three magic bytes differ |
| RvfDecode.ReadHeaderOf | player/src/rvf_decode.c:19-45 | the 21 header bytes NewRVFfile writes read back as its width, height, length, frame time and flags |
| RvfDecode.ReadAudioFieldsOf | player/src/rvf_decode.c:47-58 | the audio fields the encoder writes read back as the channels, rate and quality it was given |
| RvfDecode.TriplesOfColors | player/src/rvf_decode.c:64-65 | reading three bytes per colour undoes the encoder's palette write |
| RvfDecode.ReadPaletteOf | player/src/rvf_decode.c:60-65 | the palette section the encoder writes reads back as the same palette |
| RvfDecode.ReadAudioBufferOf | player/src/rvf_decode.c:67-73 | the audio block the encoder writes reads back as the same audio data |
| RvfDecode.OpenNewRvfFile | player/src/rvf_decode.c:15-83 | any header NewRVFfile writes opens with the same size, length, frame time, compression, audio and palette, and the frames start right after it |
| RvfDecode.ReadFrame | player/src/rvf_decode.c:101-110 | a compressed frame hands `dec_decode` length - 5 (wrapping as uint32) and takes it to consume that many payload bytes before the 4-byte skip; an uncompressed one reads frame-size bytes |
| RvfDecode.NextFrame | player/src/rvf_decode.c:94-112 | each call advances the frame counter; once the counter reaches `length` read as a C `int` it rewinds to the first frame's offset; from a counter >= -1 it stays in [0, length) |
| RvfDecode.HugeLengthRewinds | player/src/rvf_decode.c:96-99 | a header length of 2^31 or more is negative as an `int`, so every call rewinds and returns the first frame |
| RvfDecode.StepsCounter | player/src/rvf_decode.c:95-99 | after n calls the frame counter is (n - 1) mod length |
| RvfDecode.CompressedSection | encoder/rvffile.go:82-88 | a WriteCompressed record reads back as its length + 5, its flags and its data |
| RvfDecode.ReadFrameOfCompressed | player/src/rvf_decode.c:101-107 | the player reads a WriteCompressed record as exactly its flags and data and steps past the trailing length |
| RvfDecode.RawRecordRead | player/src/rvf_decode.c:108-110 | the player reads a WriteRaw record as its bytes and steps to the next record |
| RvfDecode.PlaysFrames | player/src/rvf_decode.c:94-112 | when every record reads as its frame, call k + 1 of rvf_next_frame returns frame k and moves to the next record |
| RvfDecode.PlaysInOrder | player/src/rvf_decode.c:94-112 | over the compressed records the encoder writes, call k + 1 returns frame k with its flags and data |
| RvfDecode.PlaysRawInOrder | player/src/rvf_decode.c:94-112 | over the uncompressed records the encoder writes, call k + 1 returns frame k's pixels |
| RvfDecode.PlaysAgain | player/src/rvf_decode.c:96-99 | the call after the last frame returns the first frame again, as the first call did |
| RvfDecode.CompressedRecordsWritten | encoder/main.go:288-311 | the encoder's compressed frame section is one WriteCompressed record per frame |
| RvfDecode.RawRecordsWritten | encoder/main.go:236-247 | the encoder's uncompressed frame section is one WriteRaw record per frame |
| RvfDecode.EncodedFilePlays | player/src/rvf_decode.c:15-112 | a file with compressed frames opens as compressed with its palette, and call k + 1 returns frame k |
| RvfDecode.RawFilePlays | player/src/rvf_decode.c:15-112 | a file with uncompressed frames opens as uncompressed with its palette, and call k + 1 returns frame k's pixels |
| Cli.IncreasingByNeighbours | encoder/main.go:16-27 | a table that grows from each entry to the next grows between any two entries |
| Cli.CompressionLevelsIncreasing | encoder/main.go:16-27 | the ten compression thresholds strictly increase with the level |
| Cli.ChooseRoute | encoder/main.go:155-178 | level 0 selects RawEncode and every other level selects Encode; a negative level gets the first threshold, one past the table the last, any other the table's entry |
| Cli.ChooseRouteMonotone | encoder/main.go:163-176 | a higher non-zero level never gives a lower threshold, and levels 1 to 9 give strictly increasing thresholds |
| Cli.RouteCompression | encoder/main.go:231 | the header's compression bit is set iff the route is Encode, and the writer sets no audio bit itself |
| Cli.FrameFlags | encoder/main.go:301-310 | a frame is marked first iff it is frame 0, last iff it is the final frame, keyframe iff the encoder is clean; no other bit is set |
| Cli.SingleFrameFlags | encoder/main.go:301-310 | the only frame of a one-frame file is marked both first and last |
| Cli.CurveGrid | encoder/main.go:280-281 | the curve's block grid is the smallest grid of 4 x 4 blocks that covers the frame |
| Cli.FlaggedFrames | encoder/main.go:301-311 | frame i is written with its own data and the flags of its place among the frames |
| Cli.EncodeFile | encoder/main.go:252-322 | no file without input frames; otherwise a file that starts with the compressed header |
| Cli.EncodeFilePlays | encoder/main.go:252-322 | a file Encode writes opens as compressed with its palette and size, and the player's call k + 1 returns frame k's data with the flags of its place |
| Cli.RawEncodeFile | encoder/main.go:212-250 | no file without input frames; otherwise a file that starts with the uncompressed header |
| Cli.RawEncodeFilePlays | encoder/main.go:212-250 | a file RawEncode writes opens as uncompressed with its palette and size, and the player's call k + 1 returns frame k's palette indices |
| Wave.ExpectChunk | encoder/wave.go:16-27 | the chunk is accepted iff the four bytes read are its name; otherwise the error names the expected chunk |
| Wave.ReadFormat | encoder/wave.go:42-58 | every format field read fits its declared width: 32 bits for sizes and rate, 16 bits for tag, channels and bits |
| Wave.CheckFormat | encoder/wave.go:43-61 | the format passes iff it is PCM with at most two channels, at least 8000 Hz and 8 or 16 bits; each failure gives the error of the first check that fails |
| Wave.Preamble | encoder/wave.go:36-41 | the file must start with "RIFF", then "WAVE" and "fmt " at offsets 8 and 12; a file that does not start with "RIFF" is rejected for that |
| Wave.ReadData | encoder/wave.go:65-69 | the "data" chunk must be named; its samples are as many bytes as its size field says |
| Wave.OpenWav | encoder/wave.go:29-77 | an accepted file has the RIFF/WAVE/fmt preamble, at most two channels and at least 8000 Hz |
| Wave.WavBytesLayout | encoder/wave.go:36-69 | a well-formed WAV file has its chunk names, format fields and data at the offsets OpenWAV reads them from |
| Wave.ReadFormatOfHead | encoder/wave.go:42-58 | the format fields of a well-formed file read back as the values written, skipping the byte rate and block alignment |
| Wave.PreambleOfHead | encoder/wave.go:36-41 | a file with the right chunk names passes the preamble checks |
| Wave.ReadDataOf | encoder/wave.go:65-69 | a "data" chunk with its size reads back as exactly its samples |
| Wave.OpenWavOfBytes | encoder/wave.go:29-77 | on any well-formed file, including a "fmt " chunk with extra bytes, OpenWAV gives the format checks' verdict, and on success the channels, rate, quality and data written |
| Wave.OpenWavStages | encoder/wave.go:29-77 | once the preamble, format and data chunk have been read, OpenWAV's result is the format checks' verdict |
| Unpack.Field | player/src/decoding.c:99-154 | a field taken with a mask never exceeds the mask |
| Unpack.UnpackBits2 | player/src/decoding.c:99-116 | two bytes unpack into sixteen 1-bit indices |
| Unpack.UnpackPackByte1 | player/src/decoding.c:99-116 | unpacking a byte of eight packed 1-bit indices gives those indices back |
| Unpack.UnpackPackBits2 | player/src/decoding.c:99-116 | sixteen 1-bit indices packed into two bytes unpack into the same indices |
| Unpack.PackUnpackBits2 | player/src/decoding.c:99-116 | every pair of bytes is the packing of its unpacked indices: no bit is dropped |
| Unpack.UnpackBits4 | player/src/decoding.c:118-135 | four bytes unpack into sixteen 2-bit indices, byte i holding indices 4i .. 4i + 3 |
| Unpack.UnpackBits4AsWritten | player/src/decoding.c:118-135 | the player's unpacking of 2-bit indices, reading indices 13 .. 15 from a fifth byte |
| Unpack.UnpackPackByte2 | player/src/decoding.c:118-135 | unpacking a byte of four packed 2-bit indices gives those indices back |
| Unpack.UnpackPackBits4 | player/src/decoding.c:118-135 | sixteen 2-bit indices packed into four bytes unpack into the same indices |
| Unpack.PackUnpackBits4 | player/src/decoding.c:118-135 | every four bytes are the packing of their unpacked indices |
| Unpack.UnpackBits4AsWrittenLosesFields | player/src/decoding.c:131-134 | sixteen indices of value 3 packed into four bytes come back with indices 13 .. 15 zero |
| Unpack.UnpackBits4AsWrittenAgrees | player/src/decoding.c:131-134 | the player's unpacking agrees on indices 0 .. 12, and never reads the low six bits of the fourth byte |
| Unpack.UnpackTriple | player/src/decoding.c:137-145 | three bytes unpack into eight 3-bit indices, two of them straddling byte boundaries |
| Unpack.UnpackTripleAsWritten | player/src/decoding.c:137-145 | the player's unpacking of three bytes, where `<<` binds looser than `+` and `&` looser than `<<` |
| Unpack.UnpackBits8 | player/src/decoding.c:137-154 | six bytes unpack into sixteen 3-bit indices |
| Unpack.UnpackBits8AsWritten | player/src/decoding.c:137-154 | the player's unpacking of six bytes as C parses it |
| Unpack.UnpackBits8AsWrittenZeros | player/src/decoding.c:140-151 | the player's unpacking always yields 0 for indices 2, 5, 10 and 13 |
| Unpack.UnpackPackTriple | player/src/decoding.c:137-145 | eight 3-bit indices packed into three bytes unpack into the same indices |
| Unpack.PackUnpackTriple | player/src/decoding.c:137-145 | every three bytes are the packing of their unpacked indices |
| Unpack.UnpackPackBits8 | player/src/decoding.c:137-154 | sixteen 3-bit indices packed into six bytes unpack into the same indices |
| Unpack.PackUnpackBits8 | player/src/decoding.c:137-154 | every six bytes are the packing of their unpacked indices |
| Unpack.UnpackBits8AsWrittenLosesFields | player/src/decoding.c:140 | sixteen indices of value 7 packed into six bytes come back with index 2 zero |
| Hilbert.Log2Floor | encoder/hilbert.go:25 | the number of doublings from 4 up to n: the largest power of two not above n |
| Hilbert.LevelCount | encoder/hilbert.go:25 | hindex2xy runs one level per power of two from 4 up to n, so 2^levels is at most n and 2^(levels + 1) exceeds n |
| Hilbert.LevelsIsRun | encoder/hilbert.go:21-44 | the loop of hindex2xy, level by level, computes the recursive curve placement |
| Hilbert.HIndexToXYIsRun | encoder/hilbert.go:21-44 | hindex2xy(h, n) is the recursive placement of h over LevelCount(n) levels |
| Hilbert.InitPointsArePlace | encoder/hilbert.go:14-22 | InitPoints is the first level of the placement |
| Hilbert.Unplace | encoder/hilbert.go:27-40 | every point of the doubled square is the placement of exactly one quadrant and point: each level's switch is invertible |
| Hilbert.RunBounds | encoder/hilbert.go:25-42 | each level keeps the point inside the square of that level |
| Hilbert.RunMod | encoder/hilbert.go:22-23 | only the two index bits of each level matter |
| Hilbert.RunInjective | encoder/hilbert.go:25-42 | distinct indices below 4^levels give distinct points |
| Hilbert.RunAdjacent | encoder/hilbert.go:27-40 | each level's switch keeps grid neighbours neighbours |
| Hilbert.RunEndToStart | encoder/hilbert.go:25-42 | the end of one sub-curve is a grid neighbour of the start of the next |
| Hilbert.RunLast | encoder/hilbert.go:25-42 | the last index of a level ends at that level's end point |
| Hilbert.Unrun | encoder/hilbert.go:21-44 | every point of the square is reached from some index: the curve is onto |
| Hilbert.LevelCountOfPow2 | encoder/hilbert.go:25 | for n = 2^k, hindex2xy runs exactly k levels |
| Hilbert.HIndexToXYPow2 | encoder/hilbert.go:21-44 | for n = 2^k, hindex2xy is the placement over k levels |
| Hilbert.HIndexToXYBounds | encoder/hilbert.go:21-44 | for n >= 2 every result lies in the n x n square |
| Hilbert.HIndexToXYMod | encoder/hilbert.go:22-41 | for n = 2^k, hindex2xy(h, n) depends only on h mod n^2 |
| Hilbert.HIndexToXYInjective | encoder/hilbert.go:21-44 | for n = 2^k, distinct indices below n^2 give distinct points |
| Hilbert.HIndexToXYSurjective | encoder/hilbert.go:21-44 | for n = 2^k, every point of the n x n square has an index below n^2 |
| Hilbert.HIndexToXYAdjacent | encoder/hilbert.go:21-44 | for n = 2^k, consecutive indices give grid-adjacent points |
| Hilbert.HIndexToXYEnds | encoder/hilbert.go:21-44 | for n = 2^k, the curve starts at (0, 0) and ends at (n - 1, 0) |
| Hilbert.RunZero | encoder/hilbert.go:21-44 | index 0 stays at the origin on every level |
| Hilbert.GetHilbertCurve | encoder/hilbert.go:46-54 | the curve has width^2 entries whatever the height |
| Hilbert.GetHilbertCurveInRange | encoder/hilbert.go:46-54 | for width >= 1 every entry indexes the width x width grid |
| Hilbert.GetHilbertCurvePermutation | encoder/hilbert.go:46-54 | for width = 2^k the entries are 0 .. width^2 - 1, each exactly once |
| Hilbert.Gather | encoder/debug.go:66-70 | the reordered blocks have one entry per curve entry |
| Hilbert.ScatterAt | encoder/debug.go:84-90 | writing back along an injective curve puts entry i at cell curve[i] and leaves every other cell alone |
| Hilbert.ScatterGather | encoder/debug.go:84-90 | reordering along a permutation and writing back restores the blocks |
| Hilbert.HilbertReorderRoundTrip | encoder/debug.go:84-90 | for a 2^k x 2^k grid, reordering along GetHilbertCurve and writing back restores the blocks |
| HilbertC.HIndexToXYC | player/src/decoding.c:33-60 | the C hindex2xy computes the same point as the Go one for every index and size |
| HilbertC.Log2Ceil | player/src/decoding.c:71-75 | the exponent of the smallest power of two not below m |
| HilbertC.SquareSide | player/src/decoding.c:71-75 | the doubling loop ends at the smallest power of two not below the size |
| HilbertC.Log2CeilUnique | player/src/decoding.c:71-75 | only one exponent has a power of two not below m with half of it below m |
| HilbertC.CurveWindow | player/src/decoding.c:65-77 | the side is the smallest power of two not below max(width, height), and the offsets keep the w x h window inside the square |
| HilbertC.Search | player/src/decoding.c:83-93 | the search returns the first curve point from the start index that is inside the window, or stops at side^2 |
| HilbertC.SearchHitInRange | player/src/decoding.c:86-94 | a search that stops inside the window gives a write index in [0, w x h) |
| HilbertC.Fill | player/src/decoding.c:81-95 | the write loop keeps the curve's length, or stops at the first block whose write index would leave the array |
| HilbertC.GetHilbertCurveC | player/src/decoding.c:62-97 | a completed curve has one entry per block of the grid |
| HilbertC.SquareWindow | player/src/decoding.c:65-77 | for a 2^k x 2^k grid the window is the whole square |
| HilbertC.SearchSquare | player/src/decoding.c:83-93 | when the window is the whole square, each search stops on the very next curve point |
| HilbertC.FillSquare | player/src/decoding.c:81-95 | on the whole square the write loop completes and puts block j at the cell the encoder's curve gives it |
| HilbertC.HilbertCurvesAgree | player/src/decoding.c:62-97 | for a 2^k x 2^k grid the player's curve completes and is the inverse of the encoder's GetHilbertCurve |
| HilbertC.DecNew | player/src/decoding.c:156-168 | the block grid is ceil(w/4) x ceil(h/4) in exact arithmetic, with that many zeroed 16-pixel blocks |
| Numeric.Clamp | encoder/main.go:163-169 | the result lies in [lo, hi], equals v inside it and saturates at the nearer end outside |
| Numeric.CeilDiv | encoder/encoding.go:46-47 | the smallest multiple count of d that covers n: ceil(n / d) computed exactly |
| ArgMin.FirstMin | encoder/encoding.go:125-134 | the scan with a strict `<` ends on a score no larger than any entry or the start; when some entry beats the start it ends on the first minimal entry, otherwise on the start |
| ArgMin.HeadScanIs | encoder/palcomp.go:47-60 | a scan seeded with entry 0 ends on the first index of a minimal entry |
| ArgMin.FirstMinUnique | encoder/encoding.go:125-134 | the first minimal entry is the only possible result of the scan, so any index with that description is it |
| Encoding.Fill | encoder/encoding.go:135-138 | a block with all sixteen pixels set to the colour |
| Encoding.ImageToBlocks | encoder/encoding.go:45-70 | the grid is ceil(width/4) x ceil(height/4) with one block per grid cell |
| Encoding.ImageToBlocksPixel | encoder/encoding.go:49-68 | pixel (px, py) of block (x, y) is the image pixel at (min(4x + px, w - 1), min(4y + py, h - 1)): edge pixels pad the blocks |
| Encoding.BlocksToImage | encoder/encoding.go:72-91 | the image is 4bw x 4bh pixels |
| Encoding.BlocksToImagePixel | encoder/encoding.go:76-89 | the output pixel of block (x, y), pixel (px, py) is blocks[x + y bw][px + 4 py] |
| Encoding.BlocksToImageWritesOnce | encoder/encoding.go:76-89 | every output pixel is written by exactly one block pixel |
| Encoding.ImageBlocksRoundTrip | encoder/encoding.go:45-91 | for sizes that are multiples of 4, tiling an image and joining the blocks gives the image back |
| Encoding.ImageBlocksPixelRoundTrip | encoder/encoding.go:45-91 | for sizes that are multiples of 4, each pixel survives tiling and joining |
| Encoding.BlocksImageRoundTrip | encoder/encoding.go:45-91 | joining any blocks into an image and tiling it again gives the blocks back |
| Encoding.AddSuggestion | encoder/encoding.go:107-119 | a first suggestion appends an entry with count 1 and its type, metadata and pixel data, earlier entries untouched; any other suggestion adds its pixel data to the last entry and changes nothing else |
| Encoding.AddSuggestionsCounts | encoder/encoding.go:107-119 | over a run of suggestions the chain grows by the number of first ones, every pixel datum lands in some entry, and no count ever exceeds 1 |
| Encoding.PixelDiffs | encoder/encoding.go:93-99 | one palette-colour distance per pixel pair |
| Encoding.CompareBlocksMetric | encoder/encoding.go:93-99 | for a distance that is non-negative and zero on equal colours, block distance is non-negative and zero on equal blocks |
| Encoding.SolidScores | encoder/encoding.go:125-129 | one summed distance per palette colour |
| Encoding.ChooseSolid | encoder/encoding.go:121-140 | -1 with the MaxFloat64 score iff no colour scores below it; otherwise the first palette colour of least summed distance and a block filled with it |
| Encoding.ChooseSolidUniform | encoder/encoding.go:121-140 | a block of one palette colour gets a solid colour with score 0 |
| Encoding.SubpalDiffs | encoder/encoding.go:145-146 | one distance per sub-palette entry |
| Encoding.ChooseColor | encoder/encoding.go:142-153 | 0 for an empty sub-palette or when no entry is below MaxFloat64; otherwise the first sub-palette entry of least distance |
| Encoding.ApplySubpal | encoder/encoding.go:155-165 | every data pixel indexes the sub-palette, every result pixel is the sub-palette entry it names, and each is a nearest entry |
| Encoding.ApplySubpalExact | encoder/encoding.go:155-165 | a block whose colours are all in the sub-palette is reproduced at zero distance |
| PaletteCompare.NewPalComp | encoder/palcomp.go:12-31 | an n-colour palette gets n float colours, n lumas and an n x n matrix whose entry (i, j) is the distance from colour i to colour j |
| PaletteCompare.CompareColorsSymmetric | encoder/palcomp.go:21-35 | CompareColors is symmetric whenever the colour distance is |
| PaletteCompare.ColorDiff | encoder/palcomp.go:37-45 | the weighted colour-and-luma distance is non-negative, and zero for the entry's own colour and luma |
| PaletteCompare.ColorDists | encoder/palcomp.go:51-52 | one weighted distance per palette entry |
| PaletteCompare.GetColorIndex | encoder/palcomp.go:47-60 | 0 for an empty palette; otherwise an index into the palette, the first one of least distance whenever some distance is below MaxFloat64, and 0 when none is |
| PaletteCompare.GetColorIndexExact | encoder/palcomp.go:47-60 | a palette colour is matched at distance 0 |
| Patterns.NewPattern | encoder/patterns.go:41-50 | a negative order becomes width x height and any other order is kept; the data is width x height zeros |
| Patterns.TileAt | encoder/patterns.go:85-86 | the tiled value at (x, y) is one of the pattern's values |
| Patterns.Tiled | encoder/patterns.go:82-88 | width x height values, value x + y w being the pattern's value at (x mod W, y mod H) |
| Patterns.Reshape | encoder/patterns.go:80-90 | the requested size and the pattern's order, with the pattern tiled over the new size |
| Patterns.ReshapeAt | encoder/patterns.go:82-88 | the value written at (x, y) is the pattern's value at (x mod W, y mod H) |
| Patterns.ReshapeInOrder | encoder/patterns.go:80-90 | a pattern whose values lie in [0, order) keeps that property when reshaped |
| Patterns.ReshapeIdentity | encoder/patterns.go:80-90 | reshaping a pattern to its own size gives the pattern back |
| Patterns.TileAtHome | encoder/patterns.go:85-86 | inside the pattern, the tiled value is the pattern's own value |
| Patterns.PermutationByInverse | encoder/patterns.go:15-39 | a table with a two-sided inverse position table is a permutation of 0 .. n - 1 |
| Patterns.BayerBigUndoTop | encoder/patterns.go:19-23 | the first four rows of the 8 x 8 Bayer table are undone by the position table |
| Patterns.BayerBigUndoBottom | encoder/patterns.go:24-27 | the last four rows of the 8 x 8 Bayer table are undone by the position table |
| Patterns.BayerBigIsPermutation | encoder/patterns.go:15-28 | the 8 x 8 Bayer table is well formed and a permutation of 0 .. 63 |
| Patterns.BayerSmallIsPermutation | encoder/patterns.go:30-39 | the 4 x 4 Bayer table is well formed and a permutation of 0 .. 15 |
| MotionOffsets.RingStartStep | encoder/motion.go:15-185 | each ring of the table starts where the previous one ends: ring k holds 8k offsets after the (2k - 1)^2 before it |
| MotionOffsets.Ring1Walk | encoder/motion.go:17-24 | the eight offsets of ring 1 are the clockwise walk of the square at distance 1 from its top-left corner |
| MotionOffsets.Ring2Walk | encoder/motion.go:25-40 | the sixteen offsets of ring 2 are the clockwise walk of the square at distance 2 |
| MotionOffsets.Ring3Walk | encoder/motion.go:41-64 | the 24 offsets of ring 3 are the clockwise walk of the square at distance 3 |
| MotionOffsets.Ring4WalkA | encoder/motion.go:65-80 | the first half of ring 4 is the clockwise walk of the square at distance 4 |
| MotionOffsets.Ring4WalkB | encoder/motion.go:81-96 | the second half of ring 4 continues the walk |
| MotionOffsets.Ring5WalkA | encoder/motion.go:97-116 | the first half of ring 5 is the clockwise walk of the square at distance 5 |
| MotionOffsets.Ring5WalkB | encoder/motion.go:117-136 | the second half of ring 5 continues the walk |
| MotionOffsets.Ring6WalkA | encoder/motion.go:137-160 | the first half of ring 6 is the clockwise walk of the square at distance 6 |
| MotionOffsets.Ring6WalkB | encoder/motion.go:161-184 | the second half of ring 6 continues the walk |
| MotionOffsets.RingOf | encoder/motion.go:15-185 | every table index falls in exactly the ring whose start and size enclose it |
| Motion.OffsetsRing0At | encoder/motion.go:16 | the table has 169 entries and starts with (0, 0) |
| Motion.OffsetsRing1At | encoder/motion.go:17-24 | entries 1 .. 8 are the walk of ring 1 |
| Motion.OffsetsRing2At | encoder/motion.go:25-40 | entries 9 .. 24 are the walk of ring 2 |
| Motion.OffsetsRing3At | encoder/motion.go:41-64 | entries 25 .. 48 are the walk of ring 3 |
| Motion.OffsetsRing4At | encoder/motion.go:65-96 | entries 49 .. 80 are the walk of ring 4 |
| Motion.OffsetsRing5At | encoder/motion.go:97-136 | entries 81 .. 120 are the walk of ring 5 |
| Motion.OffsetsRing6At | encoder/motion.go:137-184 | entries 121 .. 168 are the walk of ring 6 |
| Motion.OffsetsSpiral | encoder/motion.go:15-185 | entry i is step i - start of its ring's clockwise walk |
| Motion.RingOfWalk | encoder/motion.go:15-185 | step p of ring k sits at table index start(k) + p |
| Motion.OffsetsOnRings | encoder/motion.go:15-185 | every entry lies in the 13 x 13 window, on the ring its index belongs to |
| Motion.OffsetsNearestFirst | encoder/motion.go:15-185 | entries never move further from (0, 0) as the index grows |
| Motion.OffsetsDistinct | encoder/motion.go:15-185 | no offset appears twice |
| Motion.OffsetsCover | encoder/motion.go:15-185 | every offset with both components in [-6, 6] appears, and the first is (0, 0) |
| Motion.GetXY | encoder/motion.go:199-213 | the read is the pixel at the coordinates clamped into the image, and the pixel itself for coordinates inside it |
| Motion.Col | encoder/motion.go:220-221 | the column of comparison k lies in [0, 8) |
| Motion.Row | encoder/motion.go:220-221 | the row of comparison k lies in [0, 8) |
| Motion.RejectIffOutside | encoder/motion.go:217 | the corrected guard rejects exactly the blocks that do not fit inside the second image |
| Motion.RectScores | encoder/motion.go:220-224 | one colour comparison per pixel of the 8 x 8 block |
| Motion.CompareRectAsWritten | encoder/motion.go:215-226 | compareRect as written returns MaxFloat64 whenever its guard fires |
| Motion.CompareRectAsWrittenRejectsWholeImage | encoder/motion.go:217 | an 8 x 8 block at (0, 0) of an 8 x 8 image is rejected as written, though it fits; the corrected guard scores it |
| Motion.CompareRect | encoder/motion.go:215-226 | MaxFloat64 for a block that leaves the second image; otherwise a quarter of the sum of its 64 comparisons |
| Motion.RectScoresInside | encoder/motion.go:220-224 | for a block inside the image, every read of the second image is in range and unclamped |
| Motion.BlockScores | encoder/motion.go:261-262 | one score per table offset, entry i being `Score` of offset i (`Motion.BlockScoresAt`) |
| Motion.Score | encoder/motion.go:215-226 | compareRect for one candidate: with its guard as written (`asWritten`) a candidate the `>=` guard rejects scores MaxFloat64; with the corrected guard a candidate that leaves the image does |
| Motion.BestOffset | encoder/motion.go:259-267 | the kept score is no larger than any offset's; (0, 0) with MaxFloat64 when nothing beats it; otherwise the first offset with the least score |
| Motion.BestOffsetPrefersNearest | encoder/motion.go:259-267 | any offset on a nearer ring than the chosen one scores strictly worse |
| Motion.GetMotion | encoder/motion.go:247-269 | ceil(w/8) x ceil(h/8) vectors, none with an error above MaxFloat64; asWritten = true is getMotion as the source has it, false the search with the corrected guard |
| Motion.GetMotionAt | encoder/motion.go:256-269 | vector c + r cols is the best offset of block (c, r): the vectors are in row-major order |
| Motion.KeptVectorAccepted | encoder/motion.go:259-267 | a kept vector with a real score points at a block the guard accepted: strictly inside the right and bottom edges as written, inside the image when corrected |
| Motion.GetMotionWholeImage | encoder/motion.go:215-269 | on an 8 x 8 frame getMotion as written returns the single vector (0, 0) with MaxFloat64; the corrected search scores the undisplaced block |
| Quantizer.Entries | encoder/colorcalc.go:16-21 | one (colour, cluster, count) entry per point, the part of a point that seeding must not lose |
| Quantizer.Swap | encoder/colorcalc.go:45-47 | swapPoints exchanges two points and keeps every other one: the points stay a permutation |
| Quantizer.EntriesSwap | encoder/colorcalc.go:45-47 | a swap keeps the multiset of point entries |
| Quantizer.SegmentsInPermutation | encoder/colorcalcmini.go:48-73 | reordering the points keeps every cluster index in range |
| Quantizer.PointDistance | encoder/colorcalc.go:129-136 | the point's running distance becomes min(old, d) and that is the value returned, so it never grows |
| Quantizer.Refresh | encoder/colorcalcmini.go:52-55 | the first pass of a seeding round updates the running distance of every later point against the newest centroid and touches nothing else |
| Quantizer.Roulette | encoder/colorcalcmini.go:58-66 | the draw stops at the first point whose running sum passes rnd, or falls back to the last point when none does |
| Quantizer.RouletteHits | encoder/colorcalcmini.go:58-66 | when rnd is below the total, the draw stops at the first point whose running sum passes it |
| Quantizer.HitIsPositive | encoder/colorcalcmini.go:60-64 | for rnd >= 0 the point a draw stops on has a positive running distance |
| Quantizer.RouletteStart | encoder/colorcalcmini.go:57-60 | the roulette starts one or two places after the newest centroid: two as written, one as intended |
| Quantizer.Draw | encoder/colorcalcmini.go:52-66 | the chosen next point lies strictly after the newest centroid |
| Quantizer.Advance | encoder/colorcalcmini.go:51-68 | one seeding round keeps the points a permutation, keeps the centroids placed so far, and swaps the drawn point into the next slot |
| Quantizer.SeedRounds | encoder/colorcalcmini.go:51-68 | the seeding rounds keep the points a permutation and never move a placed centroid |
| Quantizer.InitCentroids | encoder/colorcalcmini.go:48-74 | seeding is swap-only, puts the drawn first point in front, and its centroids are the colours of the first `colors` points |
| Quantizer.DrawLandsPositive | encoder/colorcalcmini.go:58-67 | with the intended roulette start and positive remaining distance, the drawn point is away from every centroid so far |
| Quantizer.RoulettePositive | encoder/colorcalcmini.go:56-66 | a scaled draw below a positive total lands on a point of positive distance |
| Quantizer.DrawIsPositive | encoder/colorcalcmini.go:51-68 | with the intended roulette start, each new centroid differs from the previous one whenever some remaining point does |
| Quantizer.UnseededSlotAsWritten | encoder/colorcalcmini.go:48-67 | as written, the point right after the newest centroid is drawn only as the fallback: 16 points with b in slot 1 and a elsewhere, two colours and a first draw that leaves slot 1 in place, seed the centroids a, a; the intended start seeds a, b |
| Quantizer.OddOneOutDraws | encoder/colorcalcmini.go:52-66 | on those 16 points the roulette started after b passes only points at distance 0 and falls back to slot 15; started at b it stops on b |
| Quantizer.TwoColorCentroids | encoder/colorcalcmini.go:48-74 | with two colours the centroids are the colour of the first draw's point and of the point the single roulette round picks |
| ColorCalcMini.OddBlockInput | encoder/colorcalcmini.go:37-46 | a block with one palette entry at pixel 1 and another everywhere else becomes those 16 points |
| ColorCalcMini.BlockSeedsTwiceAsWritten | encoder/colorcalcmini.go:48-67 | on such a block with two colours, initCentroids as written gives both centroids the colour of the other pixels for 15 first draws in 16; the intended start gives pixel 1's colour |
| Quantizer.Scores | encoder/colorcalcmini.go:107-108 | one distance per centroid |
| Quantizer.Reassign | encoder/colorcalcmini.go:103-118 | a point changes at most its cluster, and the new cluster is a valid index |
| Quantizer.Scan | encoder/colorcalcmini.go:107-113 | the centroid loop always holds a valid cluster index |
| Quantizer.Segments | encoder/colorcalc.go:192-227 | calcSegments of either type: the sequential pass over all points, or with one worker no change and a zero count; the count is zero iff no point changed |
| Quantizer.ScanIsFirstMin | encoder/colorcalcmini.go:106-113 | the centroid loop, started from the old cluster, is the first-strict-minimum scan over all distances |
| Quantizer.ReassignNearest | encoder/colorcalcmini.go:103-118 | the new cluster is a nearest centroid; the point stays iff its old centroid is already nearest; a move goes to a strictly closer centroid, the first of least distance |
| Quantizer.ReassignIdempotent | encoder/colorcalcmini.go:103-118 | reassigning a point twice changes nothing the second time |
| Quantizer.MovedZero | encoder/colorcalcmini.go:114-117 | no point moved iff every cluster is unchanged |
| Quantizer.Assign | encoder/colorcalcmini.go:100-119 | calcSegments reassigns exactly the points of its range, keeps the rest and keeps every cluster in range |
| Quantizer.ChangedIsMoved | encoder/colorcalcmini.go:114-117 | the changed-points counter equals the number of points whose cluster differs afterwards, on every prefix |
| Quantizer.AssignCountsMoves | encoder/colorcalcmini.go:100-119 | pointsChanged equals the number of points that moved |
| Quantizer.AssignKeepsSegments | encoder/colorcalcmini.go:100-119 | clusters stay in range, and a point that moves gets a strictly closer centroid |
| Quantizer.AssignIdempotent | encoder/colorcalcmini.go:100-119 | a second calcSegments with the same centroids moves nothing and counts no change |
| Quantizer.Mean | encoder/colorcalcmini.go:91-94 | the mean scaled back by the size is the weighted sum it came from |
| Quantizer.CalcCentroids | encoder/colorcalcmini.go:76-98 | an empty cluster keeps its centroid; any other gets the count-weighted mean of its points |
| Quantizer.WeightedUniform | encoder/colorcalcmini.go:79-85 | a cluster whose points all share one colour sums to that colour times the cluster size |
| Quantizer.ScaleAdd | encoder/colorcalcmini.go:82-84 | adding a colour scaled by n and by k gives the colour scaled by n + k |
| Quantizer.CalcCentroidsUniform | encoder/colorcalcmini.go:76-98 | a non-empty cluster of one colour gets that colour as centroid |
| Quantizer.CalcErrorBounds | encoder/colorcalcmini.go:121-127 | for a non-negative error distance, zero on equal colours, the error is non-negative and zero when every point sits on its centroid |
| Quantizer.Steps | encoder/colorcalcmini.go:133-139 | the step loop keeps the state's shape, and stops early only when the last calcSegments moved nothing; with a single worker (encoder/colorcalc.go:285-293) it leaves the state unchanged |
| Quantizer.StepsStopFixed | encoder/colorcalcmini.go:134-137 | an attempt that stopped early sits at a fixed point of calcSegments |
| Quantizer.Attempt | encoder/colorcalcmini.go:132-141 | one attempt keeps the shape and clusters in range, and its error is CalcError of the state it ends in; `mode.asWritten` picks the source's roulette start, `Intended` the corrected one |
| Quantizer.BestIsFirstMin | encoder/colorcalcmini.go:142-146 | the best attempt kept by the bookkeeping is the first one of least error |
| Quantizer.Record | encoder/colorcalcmini.go:142-147 | each attempt appends its error; the best palette changes exactly when this attempt becomes the best |
| Quantizer.Attempts | encoder/colorcalcmini.go:131-148 | one outcome per attempt, each with `colors` centroids, the k-th computed from the points the previous attempt left |
| Quantizer.RecordAll | encoder/colorcalcmini.go:131-148 | the errors recorded are the outcomes' errors in attempt order, after those already there, and the best stays the first minimum |
| Quantizer.Tally | encoder/colorcalcmini.go:142-147 | the bookkeeping over a list of outcomes records their errors in order and keeps the palette of the best one |
| Quantizer.Outcomes | encoder/colorcalcmini.go:131-148 | the first `attempts` outcomes of the attempt loop, each with `colors` centroids |
| Quantizer.Run | encoder/colorcalcmini.go:129-149 | for 0 <= attempts: one error per attempt; without attempts bestAtt is 0; with attempts bestAtt is the first attempt of least error, bestError that error, and the palette has `colors` entries |
| Quantizer.RunRecords | encoder/colorcalcmini.go:142-147 | error i of Run is the error of attempt i + 1, and bestPalette is the centroids of attempt bestAtt |
| Quantizer.RunBest | encoder/colorcalc.go:296-301 | any bookkeeping that keeps the first minimum has bestAtt the first attempt of least error, and 0 without attempts |
| Quantizer.SameEntriesSameCluster | encoder/colorcalcmini.go:48-73 | a reordering of points that all sit in cluster s leaves them all in cluster s |
| Quantizer.SingleWorkerAttempt | encoder/colorcalc.go:283-295 | with a single worker an attempt only reorders the points: their entries, clusters included, are kept as a multiset |
| Quantizer.SingleWorkerNeverClusters | encoder/colorcalc.go:283-302 | with a single worker and every point starting in cluster 0, every point of every attempt ends in cluster 0 |
| ColorCalcMini.NewColorCalcMini | encoder/colorcalcmini.go:27-35 | colors is clamped into [1, 8]; steps and attempts are kept as given |
| ColorCalcMini.Input | encoder/colorcalcmini.go:37-46 | all 16 points get their palette colour, cluster 0, count 1 and the MaxFloat64 sentinel |
| ColorCalcMini.RunMini | encoder/colorcalcmini.go:129-149 | for 0 <= maxAttempt: one error per attempt; bestAtt is the first attempt of least error and the palette has `colors` entries |
| ColorCalcMini.RunMiniBest | encoder/colorcalcmini.go:142-146 | bestError is the error of attempt bestAtt, no attempt has a smaller error, and every earlier attempt a larger one |
| ColorCalcMini.RunMiniErrors | encoder/colorcalcmini.go:141-147 | error j is the error attempt j + 1 ended with, in attempt order |
| ColorCalcMini.RunMiniPalette | encoder/colorcalcmini.go:142-147 | bestPalette is the centroids that attempt bestAtt ended with |
| ColorCalcMini.Insert | encoder/colorcalcmini.go:162 | inserting into a sorted list keeps it sorted and adds exactly the element |
| ColorCalcMini.SortInts | encoder/colorcalcmini.go:162 | sort.Ints returns a sorted permutation of its input |
| ColorCalcMini.GetSubPal | encoder/colorcalcmini.go:157-164 | exactly `colors` indices in ascending order, a permutation of the best palette's lookups padded with 0 |
| ColorCalcMini.GetSubPalMembers | encoder/colorcalcmini.go:157-164 | with a full best palette, every colour's index is in the sub-palette and every entry is some colour's index |
| ColorCalc.NewColorCalc | encoder/colorcalc.go:49-57 | colors is clamped into [1, 256]; steps and attempts are kept as given |
| ColorCalc.CubeColor | encoder/colorcalc.go:109 | the colour of a cube cell is a unit colour |
| ColorCalc.NonZero | encoder/colorcalc.go:104-116 | the occupied cells, each once, in ascending cell order, and every occupied cell is among them |
| ColorCalc.CubePoints | encoder/colorcalc.go:108-112 | one point per occupied cell, with its colour, cluster 0, the cell's count and the MaxFloat64 sentinel |
| ColorCalc.InputCube | encoder/colorcalc.go:83-116 | an error iff the cube is empty; otherwise colors is lowered to the number of distinct colours when larger, and the points are the occupied cells in cube order |
| ColorCalc.NonZeroEmpty | encoder/colorcalc.go:84-92 | no occupied cell is found iff every count is zero |
| ColorCalc.InputCubeCovers | encoder/colorcalc.go:104-116 | every occupied cell appears as a point with its count |
| ColorCalc.InputCubeDistinct | encoder/colorcalc.go:104-116 | no cell appears twice among the points |
| ColorCalc.InputCubeReady | encoder/colorcalc.go:95-101 | after a successful Input, 1 <= colors <= number of points and every point's cluster is a valid index, so seeding and Run can start |
| ColorCalc.Ranges | encoder/colorcalc.go:118-126 | with more than one worker there is one range per worker; with one worker there are none |
| ColorCalc.EvenSpan | encoder/colorcalc.go:122-124 | worker i's range is [i size, (i + 1) size) |
| ColorCalc.TilesInside | encoder/colorcalc.go:118-126 | ranges that tile [lo, hi) each lie inside it |
| ColorCalc.TilesCoverOnce | encoder/colorcalc.go:118-126 | ranges that tile [lo, hi) hold every point of it exactly once |
| ColorCalc.RangesTile | encoder/colorcalc.go:118-126 | with more than one worker the ranges tile all points: workers - 1 slices of n / workers and a remainder slice |
| ColorCalc.RangesTileSuffix | encoder/colorcalc.go:122-125 | the ranges from worker k on tile the points from k (n / workers) to the end |
| ColorCalc.RangesFixed | encoder/colorcalc.go:118-126 | the intended ranges tile all points for any worker count, one worker included |
| ColorCalc.AssignRanges | encoder/colorcalc.go:192-227 | the workers' passes keep the number of points and every cluster in range |
| ColorCalc.ChangedSplit | encoder/colorcalc.go:214-218 | the change counts of two adjacent ranges add up to the count of their union |
| ColorCalc.ChangedFrame | encoder/colorcalc.go:203-220 | a worker's count depends only on the points of its own range |
| ColorCalc.AssignSplit | encoder/colorcalc.go:200-224 | reassigning two adjacent ranges one after the other is reassigning their union, and the counts add up |
| ColorCalc.AssignRangesTiled | encoder/colorcalc.go:192-227 | over ranges that tile [lo, hi), the workers' passes together are one sequential calcSegments over [lo, hi) with the same count |
| ColorCalc.CalcSegmentsAsWritten | encoder/colorcalc.go:192-227 | as written, more than one worker gives the sequential calcSegments, and a single worker changes nothing and counts nothing |
| ColorCalc.SingleWorkerSkipsCloserCentroid | encoder/colorcalc.go:118-126 | on a single-CPU machine a point whose own colour is the second centroid stays in cluster 0, with no change counted |
| ColorCalc.CalcSegments | encoder/colorcalc.go:192-227 | with ranges that cover every point, calcSegments is the sequential reassignment of all points, whatever the worker count |
| ColorCalc.WorkersSegmentsAsWritten | encoder/colorcalc.go:192-227 | the calcSegments the run uses on `workers` CPUs is calcSegments as written over the source's ranges |
| ColorCalc.SequentialSegmentsFixed | encoder/colorcalc.go:192-227 | with the corrected ranges, calcSegments is the sequential pass for any CPU count |
| ColorCalc.RunFull | encoder/colorcalc.go:279-305 | for 0 <= maxAttempt: one error per attempt; without attempts bestAtt is 0; otherwise bestAtt is the first attempt of least error and the palette has `colors` entries |
| ColorCalc.SingleCpuRunNeverClusters | encoder/colorcalc.go:283-302 | as written on one CPU, every point of every attempt stays in cluster 0: the whole run never clusters |
| ColorCalc.FullPalette | encoder/colorcalc.go:307-314 | one byte colour per centroid, each the centroid's rounded colour |
| ColorCalc.FullPaletteOfByteColors | encoder/colorcalc.go:307-314 | centroids that are byte colours come back as those colours under a rounding exact on integers |
| ColorCalc.Quo | encoder/colorcalc.go:232-236 | Go's `/` on durations: the quotient truncated toward zero |
| ColorCalc.QuoBounds | encoder/colorcalc.go:232-236 | the truncated quotient is pinned down by its bounds for either sign |
| ColorCalc.Rem | encoder/colorcalc.go:232-236 | what `d -= q * unit` leaves: the remainder with the sign of the dividend |
| ColorCalc.RoundDuration | encoder/colorcalc.go:231 | time.Duration.Round: a multiple of the unit within half a unit, halves away from zero, saturating at the int64 bounds, sign kept |
| ColorCalc.Split | encoder/colorcalc.go:231-236 | h hours, m minutes and s seconds with the leftover add up to the duration, with m and s in [0, 60) for a non-negative one |
| ColorCalc.Digits | encoder/colorcalc.go:238 | the decimal digits of a natural number |
| ColorCalc.DigitsRoundTrip | encoder/colorcalc.go:238 | the digits printed read back as the number |
| ColorCalc.Pad2 | encoder/colorcalc.go:247 | `%2d` is at least two characters and never ends in a blank |
| ColorCalc.Pad2Small | encoder/colorcalc.go:247 | for 0 .. 99, `%2d` is exactly two characters that read back as the number |
| ColorCalc.Field | encoder/colorcalc.go:237-246 | the hours or minutes field is five blanks iff the value is not positive; otherwise it ends with its unit, and for 1 .. 99 it is five characters |
| ColorCalc.FormatTimeFields | encoder/colorcalc.go:229-249 | below 100 hours, h 3600 + m 60 + s is the rounded duration with m, s in [0, 60); the text is 14 characters, the h and m fields blank iff zero, ending in " s" |
| ColorCalc.SplitWhole | encoder/colorcalc.go:231-236 | a whole number of seconds splits into hours, minutes and seconds with nothing left over |
| ColorCalc.ClockText | encoder/colorcalc.go:237-248 | the text of a clock is 14 characters with blank hours and minutes exactly when they are zero |
| ColorCalc.RemOfMultiple | encoder/colorcalc.go:231-236 | a whole number of seconds leaves no remainder below a second |

## Code and design differ

- **Run count (encoder/encoding.go:115-118).** The codec's design says a run's count grows by one with every block that joins it. `AddSuggestion` in this version of the encoder appends the block's pixel data but never increments `Count`. The model follows the code: `Encoding.AddSuggestionsCounts` proves every run keeps count 1.
- **Empty colour cube (encoder/colorcalc.go:99-101).** The design lists an empty palette as a configuration error. The code panics when the cube is empty. `ColorCalc.InputCube` returns `Err` in exactly that case.

## Left out

- Encoder parts not part of this model:
  - the frame encoder's decision engine, sub-palette caches, bit packer and chain decoder (`FrameEncoder.Encode`, `Pack`, `Decode`, `IsClean`);
  - the player's `dec_decode` and `ApplyCurve`. The model takes `dec_decode` to consume exactly the `data_length - 4 - 1` bytes it is handed (player/src/rvf_decode.c:106), so the 4-byte skip after it lands on the next record. `RvfDecode.ReadFrame`, `RvfDecode.PlaysInOrder`, `RvfDecode.EncodedFilePlays` and `Cli.EncodeFilePlays` rest on that assumption.
  
  `IsClean` enters `Cli.FrameFlags` as a boolean and the encoded frame as bytes.
- Functions used but not defined in the modelled files are parameters: `FloatColor.Difference`, `FloatColor.Luma`, the square root of the distance, `math.Round`, `Palette.GetFloatColorIndex`, `ImageLoad`, `PaletteLoad` and `CalcPalette`.
- `Palette.Sort` in the palette computation is not modelled. `ColorCalc.FullPalette` gives the colours in centroid order.
- Floating point is modelled as exact reals, with no IEEE rounding, overflow or NaN. The float32 `1/frameRate` is carried as four opaque bytes.
- Random draws in the k-means++ seeding are parameters: a fraction in [0, 1) per draw.
- Concurrency is modelled as sequential work:
  - the mutex and WaitGroup of `calcSegments` are modelled as the sequential passes over the worker ranges;
  - the number of CPUs is a parameter.
- I/O is not modelled: file handles, `fread`/`fseek`, `os.File`, and the panic when `os.Create` fails (encoder/rvffile.go:33-35). The writer drops the result of every `binary.Write` (encoder/rvffile.go:25-27), so write errors are ignored, and the model has none. Files are byte sequences, and a read past the end yields zeros. That zero fill is a modelling choice, not what the readers do:
  - `rvf_open` reads the header into uninitialised locals (player/src/rvf_decode.c:33-40), so a short file leaves them undefined;
  - the audio fields `channels`, `frequency` and `quality` (player/src/rvf_decode.c:47-50), the palette's `color_count` (60-61) and the audio block's `buffer_size` (68-69) are uninitialised locals too; `RvfDecode.ReadAudioFields`, `RvfDecode.ReadPalette` and `RvfDecode.ReadAudioBuffer` read zeros where they are missing;
  - the audio buffer comes from `malloc` (player/src/rvf_decode.c:70-71) and is not zeroed, so a truncated audio block leaves its tail undefined;
  - in a compressed frame `data_length` is an uninitialised local too (player/src/rvf_decode.c:102-104);
  - a raw frame is read into the reused `data` buffer (player/src/rvf_decode.c:109), so a truncated frame keeps the tail of the frame before it;
  - Go's `binary.Read` on a short read returns an error that the WAV reader ignores, and it leaves the whole field at zero (encoder/wave.go:38-67). The model zero-fills only the missing bytes, so the two differ when part of a field is present. The sample data is read into a fresh zeroed slice (encoder/wave.go:68-69), which the zero fill matches.
- The writer's panic when a frame's size differs from the header's is not modelled. `RvfDecode.RawFilePlays` and `Cli.RawEncodeFilePlays` require frames of the header's size instead.
- Not part of this model: the SDL player loop (player/src/main.c), and in the encoder `printState`, `progressbar`, `pprof`, JSON output, gob pattern files, dithering (encoder/dithering.go), preview, terminal, debug and file-sequence code.
- RvfFile.NewRvfFile: the palette byte `len - 1` is faithful only for 1 .. 256 colours, and the round-trip lemmas require such a palette.
- Cli.CurveGrid: uses exact integer ceiling division where main.go uses `math.Ceil` on float64, which is exact for these sizes.
- HilbertC.DecNew: uses the exact ceiling (w + 3) / 4 where decoding.c:162-163 computes `ceil((float)frame_width / 4.0)` in float32. The two agree only for sizes up to 2^24. Above that, `(float)w` rounds: for w = 2^24 + 1 the C grid is 2^22 blocks wide and the model's 2^22 + 1.
- Encoding.ApplySubpal: requires a non-empty sub-palette. On an empty one `chooseColor` returns 0 and `subpal[0]` panics (encoder/encoding.go:162), and that panic is not modelled. The encoder always passes the 1 .. 8 entries of `GetSubPal`.
- Patterns.NewPattern: takes natural sizes. Go's `make` rejects only a negative product, so two negative sizes would build a pattern; the only caller passes a frame's width and height, which are never negative.
- Encoding.ImageToBlocks: requires an image of at least width x height pixels; the Go code would panic on a shorter one.
- HilbertC.HilbertCurvesAgree: is proved only for square power-of-two grids. The Go `GetHilbertCurve` ignores the height, so it is compared with the player's curve only on such squares. The player's windowed curve on other grids is covered by its own contracts only.
- HilbertC.GetHilbertCurveC: uses unbounded integers, so it does not model the C `int` overflow of `size * size` on grids wider than 46340 blocks.
- Quantizer.Attempts: its contract states only the number of outcomes and their centroid count. The error each attempt reaches depends on the distance and draw parameters and is not stated. `Quantizer.RecordAll`, `Quantizer.Run` and `Quantizer.RunRecords` state the best-of-attempts selection over those outcomes.
- Quantizer.Run: requires 0 <= attempts. A negative `maxAttempt` makes `make([]float64, 0, cc.maxAttempt)` panic (encoder/colorcalcmini.go:130, encoder/colorcalc.go:280), and the panic is not modelled.
- ColorCalcMini.RunMini: requires 0 <= maxAttempt; a negative one panics in `make` (encoder/colorcalcmini.go:130), which is not modelled.
- ColorCalc.RunFull: requires 0 <= maxAttempt; a negative one panics in `make` (encoder/colorcalc.go:280), which is not modelled.
- RvfDecode.Writable: the writer's frame size is the exact product width x height. The C `int` overflow of `width * height` at or above 2^31, and negative widths or heights, are excluded rather than modelled.
- PaletteCompare.CompareColors: a lookup into the distance matrix, with no contract of its own; what it returns is stated by `PaletteCompare.NewPalComp`. The same holds for `PaletteCompare.ToFloatColor` and the float palette.

## Findings

| source | as written | input that shows it | evidently intended | confidence | as-written member | corrected member |
|---|---|---|---|---|---|---|
| player/src/decoding.c:132-134 | `unpack_bits4` takes indices 13 .. 15 from `src[4]`, a fifth byte past the four that hold 16 two-bit indices | sixteen indices of value 3 packed into four bytes: indices 13 .. 15 come back 0 | take them from `src[3]`, like index 12 | high; not executed | Unpack.UnpackBits4AsWrittenLosesFields | Unpack.UnpackPackBits4 |
| player/src/decoding.c:140 | `(src[0] & 3) << 1 + (src[1] >> 7) & 1` parses as `((src[0] & 3) << (1 + (src[1] >> 7))) & 1`, and the same holds at lines 143, 148 and 151 | sixteen indices of value 7 packed into six bytes: indices 2, 5, 10 and 13 come back 0 | `((src[0] & 3) << 1) + ((src[1] >> 7) & 1)`, the 3-bit field straddling two bytes | high; not executed | Unpack.UnpackBits8AsWrittenLosesFields | Unpack.UnpackPackBits8 |
| encoder/colorcalcmini.go:60 | (the same at encoder/colorcalc.go:150) after `centInd++` the roulette starts at `centInd + 1`, so the point in slot `centInd` is never drawn as the next centroid | a 4 x 4 block with palette colour b at pixel 1 and a at the other 15, 2 colours and a first draw other than 1 mod 16: the centroids are a and a. In ColorCalc (encoder/colorcalc.go:150) the points are distinct cube cells, so the flaw skews the draw rather than repeating a centroid | start the roulette at `centInd` | medium; not executed | ColorCalcMini.BlockSeedsTwiceAsWritten | Quantizer.DrawIsPositive |
| encoder/colorcalc.go:118-126 | with one worker (one CPU) no range is created, so `calcSegments` reassigns no point and reports no change | one point x in cluster 0 with centroids a and x on a single-CPU machine: it stays in cluster 0 | with one worker, one range over all points | high; not executed | ColorCalc.SingleWorkerSkipsCloserCentroid | ColorCalc.CalcSegments |
| encoder/motion.go:217 | the guard `x2+8 >= width` (and `y2+8 >= height`) rejects a block that ends exactly at the image edge | an 8 x 8 image with the block at (0, 0): scored MaxFloat64 | `x2+8 > width` | medium; not executed | Motion.GetMotionWholeImage | Motion.CompareRect |
