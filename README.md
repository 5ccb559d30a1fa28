# FreeImage codec core, modelled in Dafny

This project models the decoding and encoding core of four FreeImage image
plugins and of the library's file-type detection:

- **GIF** (`Source/Plugins/PluginGIF.cpp`): the `StringTable` LZW compressor and
  decompressor with their code widths and bit accumulator, and the round trip
  from one to the other; the block scan of
  `Open`, `PageCount` and the page number `Load` accepts; the interlaced
  row order; the playback compositor that builds a frame on the logical screen
  from the frames before it (disposal, transparency, background); and the
  packed-field and Netscape-extension conversions of the headers.
- **BMP** (`Source/Plugins/PluginBMP.cpp`): `Validate`, the dispatch of `Load` on
  the info-header size, the palette and bit-field rules of `LoadWindowsBMP`,
  the RLE4 and RLE8 decoders, `RLEEncodeLine` and the header arithmetic of
  `Save`.
- **PCX** (`Source/Plugins/PluginPCX.cpp`): `Validate`, the header checks,
  `readLine` with its 2048-byte refill buffer, the skip loop after each line,
  the palettes and the unpacking of one, three and four planes into scanlines.
- **SGI** (`Source/Plugins/PluginSGI.cpp`): the header checks in their order,
  the run-length row index, `get_rlechar`, the channel placement and the
  grey-plus-alpha fix-up.
- **GetType** (`Source/FreeImage/GetType.cpp`): the first-match search of the
  plugin registry and the TIFF-to-RAW re-validation.

A stream is a `seq<byte>` with a cursor: a read past its end fails and a seek
past its end does not. Bitmaps are sequences of scanlines (`Bitmap.Scanlines`,
bottom-up as FreeImage stores them). Code that the source writes as loops
over mutable state is modelled as methods (the `StringTable` class, the
decoders writing into a bitmap, `readLine`, the playback canvas), each proved
against a function that states the same computation on values; the
properties are then proved about those functions.

## Model

| member | source | states |
|---|---|---|
| FormatDetect.FirstMatch | Source/FreeImage/GetType.cpp:38-45 | the index found is an enabled entry whose check accepts the stream and no earlier entry accepts it; none means no entry accepts |
| FormatDetect.DetectFromHandle | Source/FreeImage/GetType.cpp:36-57 | a null handle or no accepting entry gives unknown; any other result but RAW is the format of an accepting entry |
| FormatDetect.DetectIsFirstAccepted | Source/FreeImage/GetType.cpp:38-54 | the result is the format of the first accepting entry, except that TIFF becomes RAW exactly when the RAW check accepts |
| FormatDetect.DisabledNeverDetected | Source/FreeImage/GetType.cpp:39-40 | a format whose entries are all absent or disabled is never the result |
| FormatDetect.DetectIgnoresSize | Source/FreeImage/GetType.cpp:36 | the size argument never changes the outcome |
| BmpHeader.ValidateExactly | Source/Plugins/PluginBMP.cpp:1035-1049 | a stream is accepted exactly when it starts with "BM" or "BA"; a stream shorter than two bytes never is |
| BmpHeader.Dispatch | Source/Plugins/PluginBMP.cpp:1076-1134 | a loader is chosen only for a stream holding a file header with a valid signature |
| BmpHeader.DispatchValidates | Source/Plugins/PluginBMP.cpp:1094 | the bfType test of Load and Validate accept the same streams |
| BmpHeader.DispatchBySize | Source/Plugins/PluginBMP.cpp:1101-1128 | info-header size 12 selects the OS/2 1.x loader, 64 the OS/2 2.x loader, 40/52/56/108/124 the Windows loader (told the size), anything else no loader; the pixel offset is the start of the file plus bfOffBits |
| BmpHeader.UsedColors | Source/Plugins/PluginBMP.cpp:487-489 | biClrUsed is kept exactly when it is between 1 and 2^bitcount, otherwise the full palette is read |
| BmpHeader.BitfieldCount | Source/Plugins/PluginBMP.cpp:568-573 | three masks for BI_BITFIELDS or a 52-byte header, four for BI_ALPHABITFIELDS or a header of 56 bytes or more, none otherwise |
| BmpHeader.PlanWindowsOutcomes | Source/Plugins/PluginBMP.cpp:470-563 | a negative width is refused first; a palettized bitmap fails only on a compression other than RGB/RLE4/RLE8 outside header-only mode; 16/24/32 bits read uncompressed pixels; other depths give no bitmap |
| BmpHeader.SaveFileHeaderSizes | Source/Plugins/PluginBMP.cpp:1299-1313 | when the file fits in 32 bits, bfOffBits is the headers, palette and masks, and bfSize adds height * pitch |
| BmpHeader.SaveFileHeader | Source/Plugins/PluginBMP.cpp:1299-1313 | bfType is "BM" and both sizes are 32-bit values |
| BmpHeader.SaveCompression | Source/Plugins/PluginBMP.cpp:1327-1336 | bit fields exactly for 16 bits, RLE8 exactly for 8 bits with BMP_SAVE_RLE, RGB otherwise |
| BmpHeader.SavedHeaderLoads | Source/Plugins/PluginBMP.cpp:1327-1336 | for every depth Save writes, the Windows loader accepts the chosen compression: RLE8 through the RLE8 decoder, three masks for 16 bits |
| BmpRle4.Nibble | Source/Plugins/PluginBMP.cpp:238 | pixel i of a run is the high nibble of the byte for even i and the low nibble for odd i, always below 16 |
| BmpRle4.Rle4Next | Source/Plugins/PluginBMP.cpp:225-307 | one pass of the decoding loop consumes at least one byte of the stream, stays within it and keeps the width * height buffer size; a short read fails |
| BmpRle4.Rle4From | Source/Plugins/PluginBMP.cpp:224-308 | the decoding loop ends with a buffer of width * height pixels or fails on a short read |
| BmpRle4.Rle4FromNibbles | Source/Plugins/PluginBMP.cpp:238-294 | decoding stores only 4-bit values, so a buffer of palette indices stays one |
| BmpRle4.PackedReadBack | Source/Plugins/PluginBMP.cpp:313-328 | packing two pixels per byte loses nothing: each pixel is read back from its nibble, an odd width leaves the last low nibble 0, and the bytes past the packed ones are untouched |
| BmpRle4.DecodedReadBack | Source/Plugins/PluginBMP.cpp:208-331 | the pixel decoded for column x of scanline y is the nibble read back at (x, y) of the bitmap, and it is below 16 |
| BmpRle4.PackRowsAt | Source/Plugins/PluginBMP.cpp:313-328 | scanline y of the bitmap is row y of the pixel buffer, packed |
| BmpRle4.FillNibbles | Source/Plugins/PluginBMP.cpp:237-239 | an encoded run stores the alternating nibbles of the second byte at q and nothing else |
| BmpRle4.CopyNibbles | Source/Plugins/PluginBMP.cpp:287-303 | an absolute run succeeds exactly when the stream holds its bytes and its pad byte (when the count & 3 is 1 or 2), moves past them, and stores the nibbles read at q |
| BmpRle4.DecodeStep | Source/Plugins/PluginBMP.cpp:228-306 | one pass in place is the decoder step Rle4Next, failing exactly when it does |
| BmpRle4.DecodeRle4 | Source/Plugins/PluginBMP.cpp:221-308 | the decoding loop in place yields the buffer Rle4From gives, failing exactly when it does |
| BmpRle4.PackLine | Source/Plugins/PluginBMP.cpp:314-327 | one scanline in place becomes the packed row of its pixels, the other scanlines unchanged |
| BmpRle4.PackPixels | Source/Plugins/PluginBMP.cpp:310-329 | the conversion to 4 bits packs every row of the buffer into its scanline |
| BmpRle4.LoadPixelDataRle4 | Source/Plugins/PluginBMP.cpp:208-336 | succeeds exactly when the stream decodes, and then the scanlines are the packed decoded buffer; on failure the bitmap is unchanged |
| BmpRle8.Flush | Source/Plugins/PluginBMP.cpp:1168-1197 | emptying the literal buffer writes one byte as a run of 1, two bytes as two runs of 1, three or more as one absolute run; at most two tokens |
| BmpRle8.RunEndSame | Source/Plugins/PluginBMP.cpp:1156-1160 | the run scan stops before the last byte and within 254 bytes of i, and every byte it covers repeats source[i] |
| BmpRle8.PassEndSame | Source/Plugins/PluginBMP.cpp:1153-1160 | one pass covers a block of at most 255 bytes, all equal to its first |
| BmpRle8.EncodeStep | Source/Plugins/PluginBMP.cpp:1152-1240 | one pass of the main loop moves forward and stays within the line, and the literal buffer stays below 254 bytes |
| BmpRle8.LineTokensWellFormed | Source/Plugins/PluginBMP.cpp:1146-1284 | every token of an encoded line can be written in the format: runs of 1 to 255 bytes, absolute runs of 3 to 255 bytes |
| BmpRle8.StepExpands | Source/Plugins/PluginBMP.cpp:1152-1240 | one pass neither loses nor invents bytes: its tokens followed by the new buffer spell the old buffer and the bytes it consumed |
| BmpRle8.EncodeFromExpands | Source/Plugins/PluginBMP.cpp:1152-1274 | the tokens from index i on spell the pending buffer followed by the rest of the line |
| BmpRle8.LineTokensExpand | Source/Plugins/PluginBMP.cpp:1146-1284 | the tokens of an encoded line expand back to exactly the line |
| BmpRle8.StepSize | Source/Plugins/PluginBMP.cpp:1152-1240 | one pass writes no more than the byte budget of what it consumes |
| BmpRle8.LineFits | Source/Plugins/PluginBMP.cpp:1389-1392 | an encoded line, end-of-line escape included, fits the 2 * pitch buffer Save allocates, for a pitch of at least 4 holding the line |
| BmpRle8.Rle8From | Source/Plugins/PluginBMP.cpp:348-450 | the decoder keeps the number of scanlines; running out of input fails |
| BmpRle8.EscapeRules | Source/Plugins/PluginBMP.cpp:360-430 | end of line moves to column 0 of the next scanline, end of bitmap succeeds with the bitmap as it is, a delta moves right by the first byte and down by the second, and any run met at or below the last scanline ends with success |
| BmpRle8.WriteRowAt | Source/Plugins/PluginBMP.cpp:404-444 | a write inside a scanline replaces exactly its bytes there and changes no other scanline |
| BmpRle8.DecodeKeepsPadding | Source/Plugins/PluginBMP.cpp:402-432 | runs are clipped to width - bits, so whatever the stream holds, decoding never changes a byte of a scanline past the width |
| BmpRle8.DecodeToken | Source/Plugins/PluginBMP.cpp:396-447 | a well-formed token written at pos that fits the scanline is decoded into exactly its bytes, and decoding continues after it (after the pad byte of an odd absolute run) |
| BmpRle8.DecodeLine | Source/Plugins/PluginBMP.cpp:354-369 | an encoded line spelling a whole scanline is decoded into that scanline, and decoding continues at column 0 of the next |
| BmpRle8.DecodeLines | Source/Plugins/PluginBMP.cpp:354-372 | encoded lines followed by the end-of-bitmap escape decode into one scanline each, with success |
| BmpRle8.RoundTrip | Source/Plugins/PluginBMP.cpp:1388-1404 | decoding what Save writes succeeds, puts every line back into the pixels of its scanline, keeps the padding, and leaves the other scanlines as they were, whatever the pad bytes hold |
| BmpRle8Codec.CopyBytes | Source/Plugins/PluginBMP.cpp:1187 | memcpy stores the buffered bytes at the position and changes nothing else |
| BmpRle8Codec.WriteAbsolute | Source/Plugins/PluginBMP.cpp:1184-1196 | writes the absolute-run token of the buffer, steps over the pad position after an odd count, and keeps the bytes before pos |
| BmpRle8Codec.FlushBuffer | Source/Plugins/PluginBMP.cpp:1168-1197 | writes the tokens of Flush for the buffer and keeps the bytes before pos |
| BmpRle8Codec.PushByte | Source/Plugins/PluginBMP.cpp:1207-1220 | appends a byte to the buffer and writes it out as an absolute run when it reaches 254 bytes, as Push says |
| BmpRle8Codec.AppendBytes | Source/Plugins/PluginBMP.cpp:1206-1221 | the short-block loop leaves the buffer and writes the tokens AppendLiteral gives |
| BmpRle8Codec.WriteRun | Source/Plugins/PluginBMP.cpp:1165-1204 | empties the buffer, then writes the count and the repeated byte |
| BmpRle8Codec.ScanRun | Source/Plugins/PluginBMP.cpp:1156-1160 | the scan returns the block end PassEnd gives |
| BmpRle8Codec.EncodePass | Source/Plugins/PluginBMP.cpp:1153-1240 | one pass writes the tokens of EncodeStep, leaves its buffer, and returns the index before the next pass |
| BmpRle8Codec.EndLine | Source/Plugins/PluginBMP.cpp:1245-1283 | empties the buffer, writes the end-of-line escape and returns the offset after it |
| BmpRle8Codec.ProgressStep | Source/Plugins/PluginBMP.cpp:1152-1241 | the loop invariant: emitted tokens followed by those still to come make up the line's tokens, and the emitted ones are in place |
| BmpRle8Codec.EncodeLoop | Source/Plugins/PluginBMP.cpp:1152-1241 | the main loop ends with the invariant holding at the end of the line |
| BmpRle8Codec.RleEncodeLine | Source/Plugins/PluginBMP.cpp:1146-1284 | the target holds the tokens of LineTokens and the end-of-line escape, and the returned size is their length |
| BmpRle8Codec.SaveRle8 | Source/Plugins/PluginBMP.cpp:1388-1404 | the written stream is every scanline encoded in turn, then the end-of-bitmap escape |
| BmpRle8Codec.FillRun | Source/Plugins/PluginBMP.cpp:440-444 | count copies of the value are stored from column bits of the scanline |
| BmpRle8Codec.AbsoluteRun | Source/Plugins/PluginBMP.cpp:396-421 | the absolute run in place is the decoder step Rle8Absolute: it either stops with its outcome or continues where Rle8From continues |
| BmpRle8Codec.EncodedRun | Source/Plugins/PluginBMP.cpp:426-447 | the encoded run in place is the decoder step Rle8Encoded, in the same sense |
| BmpRle8Codec.LoadPixelDataRle8 | Source/Plugins/PluginBMP.cpp:348-450 | the outcome and the scanlines are those Rle8From gives |
| GifHeader.ValidateExactly | Source/Plugins/PluginGIF.cpp:496-509 | a stream is accepted exactly when its first six bytes are "GIF89a" or "GIF87a"; a shorter stream never is |
| GifHeader.TableSize | Source/Plugins/PluginGIF.cpp:855-878 | the size field of a packed byte announces 2^((packed & 7) + 1) colour-table entries |
| GifHeader.PaletteFieldRounds | Source/Plugins/PluginGIF.cpp:1154-1178 | Save rounds a global palette down to the largest power of two not above its size, capped at 256, and the field it writes announces exactly that size |
| GifHeader.PaletteFieldRoundTrip | Source/Plugins/PluginGIF.cpp:1154-1178 | a palette of a size the field can announce is saved unchanged, with the same field |
| GifHeader.GcePackedRoundTrip | Source/Plugins/PluginGIF.cpp:1266-1267 | Load reads back the low three bits of the disposal method and the transparency flag Save packed |
| GifHeader.IdPackedFlags | Source/Plugins/PluginGIF.cpp:1290-1292 | Load reads back the interlace flag and whether the frame has a local palette |
| GifHeader.IdPackedPalette | Source/Plugins/PluginGIF.cpp:852-860 | a local palette is read back with 2^bpp entries and Load chooses the depth Save wrote |
| GifHeader.DelayRoundTrip | Source/Plugins/PluginGIF.cpp:1273 | a delay that fits the field comes back rounded down to a multiple of 10 ms; a negative delay above -10 ms comes back as 0 |
| GifHeader.DelayWraps | Source/Plugins/PluginGIF.cpp:1273 | the 16-bit cast wraps: 655360 ms comes back as 0 and -10 ms as 655350 |
| GifHeader.LoopCount | Source/Plugins/PluginGIF.cpp:989-1010 | the first application extension holding a repeat field decides the loop count; without one it is 1 |
| GifHeader.NetscapeBlockRead | Source/Plugins/PluginGIF.cpp:993-1004 | the block Save writes is read back as its repeat field wherever it sits in the stream |
| GifHeader.LoopRoundTrip | Source/Plugins/PluginGIF.cpp:1210-1226 | a loop count of 0 (forever) or 2 to 0x10000 survives Save and Load; 1 is written as no block |
| GifHeader.LoopSaturates | Source/Plugins/PluginGIF.cpp:1216-1218 | larger counts, and -1, come back as 0x10000 |
| GifInterlace.NextRow | Source/Plugins/PluginGIF.cpp:932-936 | one step adds the pass increment; when that leaves the frame the next pass starts at its offset, and after the last pass the row stays past the frame |
| GifInterlace.PassRowsAre | Source/Plugins/PluginGIF.cpp:140-141 | the rows of a pass are offset + k * increment below the height, in increasing order |
| GifInterlace.InterlacedIsPassOrder | Source/Plugins/PluginGIF.cpp:932-943 | for a frame of one row or of five rows or more, Load and Save visit the rows of the four passes in order, every row exactly once |
| GifInterlace.InterlacedShort | Source/Plugins/PluginGIF.cpp:932-943 | an interlaced frame of two to four rows visits row 0 only, and misses row 1, which the four passes visit |
| GifInterlace.PassOrderCovers | Source/Plugins/PluginGIF.cpp:140-141 | the four passes visit every row of a frame of any height, and no row outside it |
| GifInterlace.PassOrderOnce | Source/Plugins/PluginGIF.cpp:140-141 | the four passes visit no row twice |
| GifLzw.ClearCodeOf | Source/Plugins/PluginGIF.cpp:208-211 | the clear code is 2^minCodeSize, capped at 4096 |
| GifLzw.InitializeSets | Source/Plugins/PluginGIF.cpp:202-220 | Initialize leaves clear and end codes of the minimum code size, the first free code after them, the narrowest width and its mask, no previous code, an empty map and accumulator, and a one-byte string for every code below the clear code |
| GifLzw.ResetLoop | Source/Plugins/PluginGIF.cpp:449-452 | each of the first clearCode strings becomes the one byte of its code |
| GifLzw.FlushKeeps | Source/Plugins/PluginGIF.cpp:300-304 | the flush moves whole bytes only, and stops with 8 or more bits pending only when the output is full |
| GifLzw.PixelStep | Source/Plugins/PluginGIF.cpp:285-358 | one pixel moves the cursor forward, extends the output without changing what it held and without passing the room, and stops exactly when the output is full |
| GifLzw.CodeStep | Source/Plugins/PluginGIF.cpp:377-422 | one code extends the output without changing what it held; unless it stops, it uses up pending bits and keeps the input position |
| GifLzw.BytesFrom | Source/Plugins/PluginGIF.cpp:374-428 | the decoding loop extends the output without changing what it held and never passes the room |
| GifLzw.StringTable.Initialize | Source/Plugins/PluginGIF.cpp:202-220 | the new state is Initial of the old |
| GifLzw.StringTable.FillInputBuffer | Source/Plugins/PluginGIF.cpp:222-236 | the caller's bytes become the input, read from its first pixel |
| GifLzw.StringTable.CompressStart | Source/Plugins/PluginGIF.cpp:238-246 | records the depth and the row padding, emits the clear code and clears the map |
| GifLzw.StringTable.Compress | Source/Plugins/PluginGIF.cpp:277-365 | the result, state and bytes are those of Compressed, whose bounds and invariant GifLzwOutput and GifLzwWidth prove |
| GifLzw.StringTable.CompressEnd | Source/Plugins/PluginGIF.cpp:248-275 | the state and bytes are those of Ended, whose length GifLzwOutput proves |
| GifLzw.StringTable.Decompress | Source/Plugins/PluginGIF.cpp:367-429 | the result, state and bytes are those of Decompressed, whose invariant GifLzwDecoder proves |
| GifLzw.StringTable.DecodeEntry | Source/Plugins/PluginGIF.cpp:392-421 | a code with an entry adds the previous string plus the first byte of this one, then writes its string or pushes the code back when it does not fit |
| GifLzw.StringTable.ClearCompressorTable | Source/Plugins/PluginGIF.cpp:436-445 | the map is emptied, the next code follows the end code, the prefix is 0 and the width the narrowest |
| GifLzw.StringTable.ClearDecompressorTable | Source/Plugins/PluginGIF.cpp:447-458 | the new state is ClearDecompressor of the old |
| GifLzwWidth.InsertKeeps | Source/Plugins/PluginGIF.cpp:306-320 | a table miss keeps the compressor's table: the new code is the next one, the width grows exactly at 2^width, and 4096 codes restart the table |
| GifLzwWidth.PixelStepKeeps | Source/Plugins/PluginGIF.cpp:285-358 | one pixel keeps the compressor's invariant |
| GifLzwWidth.CompressedKeeps | Source/Plugins/PluginGIF.cpp:277-365 | Compress keeps the compressor's invariant for any room |
| GifLzwWidth.EncoderStarts | Source/Plugins/PluginGIF.cpp:202-246 | Initialize and CompressStart, for a minimum code size from 1 to 11 not below the depth, establish the invariant |
| GifLzwWidth.FilledKeeps | Source/Plugins/PluginGIF.cpp:222-236 | new input keeps the compressor's invariant |
| GifLzwWidth.CodesFit | Source/Plugins/PluginGIF.cpp:297-318 | every code the compressor writes, prefix, clear or end, fits the width it is written at, and the width never passes 12 bits |
| GifLzwOutput.CompressFromFills | Source/Plugins/PluginGIF.cpp:285-359 | the loop extends its output without passing the room, and ends with the input used up or the output full |
| GifLzwOutput.CompressedFills | Source/Plugins/PluginGIF.cpp:277-365 | Compress returns false exactly when there is no input or the image is done; it writes at most len bytes, and on returning true either the input is used up or the output is full |
| GifLzwOutput.InsertBits | Source/Plugins/PluginGIF.cpp:316-319 | a table miss adds at most 12 pending bits |
| GifLzwOutput.CompressFromBits | Source/Plugins/PluginGIF.cpp:285-359 | started with at most 19 bits pending, Compress fills its output or leaves at most 19 bits pending |
| GifLzwOutput.DrainLength | Source/Plugins/PluginGIF.cpp:265-270 | the last flush writes one byte per started 8 bits |
| GifLzwOutput.EndedLength | Source/Plugins/PluginGIF.cpp:248-275 | CompressEnd writes the pending bits and two codes, rounded up to whole bytes |
| GifLzwOutput.EndedWithinFour | Source/Plugins/PluginGIF.cpp:272-274 | with at most 7 bits pending, CompressEnd writes at most 4 bytes, as the source's comment counts |
| GifLzwOutput.EndOverrun | Source/Plugins/PluginGIF.cpp:248-275 | a miss on the last pixel that takes code 4095 leaves 19 bits pending, and CompressEnd then writes 5 bytes into Save's 4-byte buffer |
| GifLzwOutput.EndedFits | Source/Plugins/PluginGIF.cpp:248-275 | after a Compress call that did not fill its output, CompressEnd writes at most 6 bytes |
| GifLzwDecoder.StartDecoder | Source/Plugins/PluginGIF.cpp:202-220 | the decompressor starts exactly for a minimum code size from 2 to 11, with its invariant and a width one above it |
| GifLzwDecoder.DecoderStarts | Source/Plugins/PluginGIF.cpp:202-220 | Initialize with a minimum code size from 2 to 11 establishes the decompressor's invariant |
| GifLzwDecoder.ClearKeeps | Source/Plugins/PluginGIF.cpp:387-389 | the clear code keeps the invariant |
| GifLzwDecoder.GrowKeeps | Source/Plugins/PluginGIF.cpp:411-419 | the width grows exactly when the next free code reaches 2^width below 4096, so the invariant holds |
| GifLzwDecoder.CodeFits | Source/Plugins/PluginGIF.cpp:378-382 | every code read is below 2^width and 4096, so the check as written and the model's check agree |
| GifLzwDecoder.CodeStepKeeps | Source/Plugins/PluginGIF.cpp:377-422 | one code keeps the invariant |
| GifLzwDecoder.DecompressedKeeps | Source/Plugins/PluginGIF.cpp:367-429 | Decompress keeps the invariant whatever the input and the room |
| GifLzwDecoder.WideCodeAccepted | Source/Plugins/PluginGIF.cpp:382-394 | with minimum code size 12 the check as written accepts code 4098 as an entry of a 4096-string table; the model's check refuses it |
| GifLzwDecoder.NarrowStartAsWritten | Source/Plugins/PluginGIF.cpp:411-419 | with minimum code size 1 the compressor widens to 3 bits at its first new code while the decompressor stays at 2 bits with a next code of 5 it cannot read |
| GifLzwStream.DecompressReads | Source/Plugins/PluginGIF.cpp:367-429 | a Decompress call on a fresh decompressor, given bytes whose bits are a run of codes at the widths it reads them, followed by fewer bits than one code (or anything once a code stops it), writes exactly what those codes write |
| GifLzwRoundTrip.FlushStreamed | Source/Plugins/PluginGIF.cpp:300-304 | the flush of a miss moves whole bytes to the output without changing the order of the bits written so far |
| GifLzwRoundTrip.EndStreamed | Source/Plugins/PluginGIF.cpp:248-275 | CompressEnd appends the prefix code and the end code, both at the current width, then zero bits up to a whole byte |
| GifLzwRoundTrip.ReadFollow | Source/Plugins/PluginGIF.cpp:392-421 | the decompressor reading the compressor's prefix code adds the entry the compressor added one code earlier, the previous string plus the prefix's first pixel, and writes the pixels of the prefix |
| GifLzwRoundTrip.FollowMiss | Source/Plugins/PluginGIF.cpp:306-326 | a miss gives the key (prefix, pixel) the code whose string the decompressor holds as the prefix's string plus that pixel, so every key of the map keeps naming the string it stands for |
| GifLzwRoundTrip.LastRound | Source/Plugins/PluginGIF.cpp:306-326 | a miss that takes code 4095 writes the prefix code and then the clear code, and the decompressor that reads them restarts its table in step with the compressor's cleared map |
| GifLzwRoundTrip.ConsumeRound | Source/Plugins/PluginGIF.cpp:285-326 | each case of one pixel (the first pixel, a map hit, a miss right after a clear, a later miss, a miss that takes code 4095) keeps the compressor and the decompressor that reads its codes in step, with that pixel added to the pixels consumed |
| GifLzwRoundTrip.CompressRound | Source/Plugins/PluginGIF.cpp:285-359 | through the Compress loop, the bytes written and the pending bits are codes a decompressor reads, which has then written every pixel consumed except those of the current prefix |
| GifLzwRoundTrip.EndRead | Source/Plugins/PluginGIF.cpp:262-270 | the end code stops the decompressor at the compressor's width; when the decompressor has already widened, the first zero padding bit completes the end code, or too few bits remain for a code |
| GifLzwRoundTrip.EndWritten | Source/Plugins/PluginGIF.cpp:248-275 | after CompressEnd the decompressor has written every pixel consumed and reads no further code |
| GifLzwRoundTrip.RoundTrip | Source/Plugins/PluginGIF.cpp:238-429 | for minimum code sizes 2 to 11 and depths up to it, one Decompress call, with room for the image, on the bytes that CompressStart, one Compress call whose output did not fill and CompressEnd wrote, gives back exactly the pixels of the input |
| GifOpen.SubBlocksEnd | Source/Plugins/PluginGIF.cpp:605-615 | the end of a chain of data sub-blocks, when the stream holds one, lies after its start and within the stream |
| GifOpen.BlockAt | Source/Plugins/PluginGIF.cpp:563-615 | reading one block, when it succeeds, moves forward and stays within the stream |
| GifOpen.FinishStep | Source/Plugins/PluginGIF.cpp:563-616 | reading one block moves its offsets from what the rest of the scan records to what has been recorded |
| GifOpen.Open | Source/Plugins/PluginGIF.cpp:526-628 | the block loop in place returns the outcome Scan gives |
| GifOpen.ReadBlock | Source/Plugins/PluginGIF.cpp:564-615 | one pass of the loop reads the block BlockAt gives |
| GifOpen.LoadPage | Source/Plugins/PluginGIF.cpp:663-668 | a page is loaded exactly when it is -1 with at least one page, or from 0 to PageCount - 1; -1 stands for page 0 |
| GifOpen.RecordImages | Source/Plugins/PluginGIF.cpp:567-568 | the descriptor offsets Open records are those of the image descriptor blocks, in order |
| GifOpen.GcePaired | Source/Plugins/PluginGIF.cpp:569-593 | each descriptor is paired with the last graphic-control extension since the previous descriptor, or 0 when there is none |
| GifOpen.BlocksTagged | Source/Plugins/PluginGIF.cpp:563-616 | every recorded block follows the byte that introduced it, and the offsets increase strictly |
| GifOpen.RecordFrom | Source/Plugins/PluginGIF.cpp:567-598 | every recorded descriptor offset is that of a descriptor block, and every graphic-control offset is 0 or that of a graphic-control extension |
| GifOpen.InvalidOnlyOnBadByte | Source/Plugins/PluginGIF.cpp:599-603 | "Invalid GIF block found" is thrown only when the scan meets a byte that introduces no block |
| GifOpen.OpenRecords | Source/Plugins/PluginGIF.cpp:526-654 | after a successful Open, PageCount is the number of image descriptors, the two offset vectors have the same length, and each descriptor has its graphic-control offset |
| GifPlayback.ScanReadable | Source/Plugins/PluginGIF.cpp:723-732 | every stream Open accepts holds the bytes playback reads for its recorded offsets |
| GifPlayback.Background | Source/Plugins/PluginGIF.cpp:688-700 | the background colour always has alpha 0 |
| GifPlayback.LastStop | Source/Plugins/PluginGIF.cpp:721-756 | the backward scan stops at the latest earlier full-screen page that hides what is below it, and at no page after it |
| GifPlayback.LastStopIs | Source/Plugins/PluginGIF.cpp:721-756 | the stopping page is the one a downward search meets first |
| GifPlayback.StartPageIs | Source/Plugins/PluginGIF.cpp:742-759 | the first page drawn is the page after an erased full-screen page, the full-screen opaque page itself, or 0 when no earlier page stops the scan |
| GifPlayback.ScanBack | Source/Plugins/PluginGIF.cpp:719-759 | the loop returns the start page and one PageInfo per page from the requested one down to it |
| GifPlayback.PaintRect | Source/Plugins/PluginGIF.cpp:771-818 | the pass over a rectangle in place leaves the canvas PaintRows describes, stopping at the first row above the canvas |
| GifPlayback.PaintRowsMiss | Source/Plugins/PluginGIF.cpp:771-818 | a pixel the pass never targets keeps its value |
| GifPlayback.TargetsDistinct | Source/Plugins/PluginGIF.cpp:772-776 | distinct pixels of a rectangle inside the logical width land on distinct canvas pixels |
| GifPlayback.PaintRowsHit | Source/Plugins/PluginGIF.cpp:803-818 | inside a rectangle that fits the logical width, each painted pixel ends with the value the pass writes there, or keeps its value when the frame's pixel is transparent |
| GifPlayback.TransparentIndex | Source/Plugins/PluginGIF.cpp:790-801 | the transparent index is the first entry of the table with alpha 0; none exactly when no entry has alpha 0 |
| GifPlayback.FindTransparent | Source/Plugins/PluginGIF.cpp:790-801 | the search returns the index TransparentIndex gives |
| GifPlayback.Playback | Source/Plugins/PluginGIF.cpp:678-831 | the canvas is the background followed by the pages from the start page to the requested one as Step handles them, and the delay is the requested frame's time |
| GifPlayback.PlayPage | Source/Plugins/PluginGIF.cpp:764-825 | one page of the scan leaves the canvas as Step says: unchanged for a restored page before the requested one, erased to background for a disposed one, and otherwise painted with the frame, its transparent index left out |
| GifPlayback.FillCanvas | Source/Plugins/PluginGIF.cpp:708-716 | every pixel of the canvas is the background |
| GifPlayback.StepMiss | Source/Plugins/PluginGIF.cpp:763-827 | a pixel outside every painted position of a page's rectangle keeps its value |
| GifPlayback.StepHit | Source/Plugins/PluginGIF.cpp:763-827 | inside a page's rectangle: an earlier page disposed to previous changes nothing, one disposed to background paints the background, and a drawn page paints its palette colour at full alpha unless the pixel is transparent |
| GifPlayback.DisposedFramesUnused | Source/Plugins/PluginGIF.cpp:766-786 | the frames of earlier pages disposed to background or previous are never decoded: changing them changes nothing |
| GifPlayback.NoGceReadsSignature | Source/Plugins/PluginGIF.cpp:723-726 | for a page with no graphic-control extension, the scan reads byte 1 of the file ('I' of "GIF"), so it takes disposal to background and a transparent colour |
| GifPlayback.NoGceErased | Source/Plugins/PluginGIF.cpp:723-726 | as written, a page with no graphic-control extension before the requested one is erased to the background instead of being drawn |
| GifPlayback.NoGceDrawn | Source/Plugins/PluginGIF.cpp:1032 | with the defaults single-frame Load uses (no disposal method, no transparency, when a page has no graphic-control extension), such a page is drawn wherever it is in the scan, never erased to the background, and not taken as transparent |
| GifPlayback.IntendedStepAgrees | Source/Plugins/PluginGIF.cpp:723-726 | for a page with a graphic-control extension the corrected step and the step as written agree |
| GifPlayback.WideFrameSpills | Source/Plugins/PluginGIF.cpp:776-779 | a rectangle wider than the logical screen is not clipped: erasing it overwrites column 0 of the next scanline, outside the rectangle |
| GifPlayback.Clip | Source/Plugins/PluginGIF.cpp:776-779 | the clipped rectangle keeps its position and rows and lies within the logical width |
| GifPlayback.ClippedStaysInside | Source/Plugins/PluginGIF.cpp:776-779 | the pass over the clipped rectangle leaves every pixel outside the rectangle's columns unchanged |
| GifPlayback.ClippedHit | Source/Plugins/PluginGIF.cpp:776-818 | the pass over the clipped rectangle still paints every pixel of the rectangle inside the logical width |
| Pcx.ValidateVersions | Source/Plugins/PluginPCX.cpp:84-106 | a stream whose first four bytes are the 0x0A signature, a version up to 5, encoding 0 or 1 and 1 or 8 bits per plane is accepted |
| Pcx.ValidateShort | Source/Plugins/PluginPCX.cpp:88-90 | a stream shorter than four bytes is rejected |
| Pcx.GeometryFacts | Source/Plugins/PluginPCX.cpp:379-408 | an empty window is a parse error before the depth is looked at; a geometry exists exactly when the window is non-empty and bits per plane times planes is 1, 4, 8 or 24; the bitmap spans the inclusive window, so it is at least two pixels wide and high |
| Pcx.Refill | Source/Plugins/PluginPCX.cpp:137-148 | a refill leaves ReadPos at 0 and the buffer consistent with the stream |
| Pcx.RefillBuf | Source/Plugins/PluginPCX.cpp:137-148 | the refill in place of ReadBuf leaves the buffer and stream position Refill describes |
| Pcx.StartRun | Source/Plugins/PluginPCX.cpp:136-158 | the start of a run in place yields the count, value and reader NextRun describes |
| Pcx.RleLine | Source/Plugins/PluginPCX.cpp:132-164 | the run-length branch appends exactly the n bytes asked for and keeps the reader consistent |
| Pcx.ReadLine | Source/Plugins/PluginPCX.cpp:127-172 | a run-length line is the line RleLine decodes, an uncompressed line is the bytes the stream still holds over the old contents with the item count returned, and no byte past the line is written |
| Pcx.RefillHolds | Source/Plugins/PluginPCX.cpp:137-148 | a refill changes where the coming bytes are kept, not which bytes come next |
| Pcx.Transparent | Source/Plugins/PluginPCX.cpp:132-164 | the refill buffer is invisible: the line decoded through ReadBuf is the line decoded straight from the bytes to come, and the reader is left before the same remaining bytes |
| Pcx.DecodePacket | Source/Plugins/PluginPCX.cpp:150-162 | a control byte with the two top bits set repeats the next byte count & 0x3F times, any other byte stands for itself |
| Pcx.RepeatCut | Source/Plugins/PluginPCX.cpp:135-163 | a repeat longer than what is left of the line is cut at the line's end, and the next line starts after the repeat |
| Pcx.DecodePackets | Source/Plugins/PluginPCX.cpp:132-164 | a line made of whole packets decodes to the concatenation of their pixels and leaves the stream after them |
| Pcx.PlaneIndexIn | Source/Plugins/PluginPCX.cpp:555-558 | when width is at most 8 * bytes_per_line, every byte a four-plane pixel reads lies inside the line |
| Pcx.PlaneIndexOut | Source/Plugins/PluginPCX.cpp:555-558 | pixel 8 * bytes_per_line of plane 3 would read the byte just past the line |
| Pcx.NibbleBits | Source/Plugins/PluginPCX.cpp:552-560 | bit p of a built pixel is bit 7 - x % 8 of byte x / 8 of plane p |
| Pcx.OrPlane | Source/Plugins/PluginPCX.cpp:553-558 | or-ing the plane's bit into a pixel holding the lower planes adds plane p |
| Pcx.BuildNibbles | Source/Plugins/PluginPCX.cpp:550-560 | after clearing and the four plane loops, each pixel of buffer is the 4-bit value of its plane bits |
| Pcx.AddPlane | Source/Plugins/PluginPCX.cpp:555-559 | the pixel loop of plane p adds plane p to every pixel |
| Pcx.SetPlaneBit | Source/Plugins/PluginPCX.cpp:556-558 | pixel x, holding the planes below plane p, comes out holding planes 0 to p, bit p taken from bit 7 - x % 8 of byte x / 8 of plane p |
| Pcx.NibblePairReadBack | Source/Plugins/PluginPCX.cpp:564-566 | both 4-bit pixels of a written byte are read back from its high and low nibble |
| Pcx.PackedNibblesAt | Source/Plugins/PluginPCX.cpp:564-566 | bytes below width / 2 hold pixel pairs and the rest of the scanline keeps its bytes |
| Pcx.PackNibbleRow | Source/Plugins/PluginPCX.cpp:564-566 | the write loop in place changes only scanline y, to PackedNibbles |
| Pcx.PlaneToRow | Source/Plugins/PluginPCX.cpp:591-603 | one plane loop of the 24-bit branch in place changes only scanline y, placing the plane at one byte of each pixel |
| Pcx.RgbPixel | Source/Plugins/PluginPCX.cpp:585-604 | pixel x of a 24-bit scanline is (blue, green, red) taken from byte x of the third, second and first plane |
| Pcx.SetPalette | Source/Plugins/PluginPCX.cpp:423-488 | 1 bit: black and white; 4 bits: the 16 header triplets; 8 bits: after a 0x0C marker at MarkerAt, every triplet the colour map read gets from the file, else a grey ramp when palette_info is 2, else zeros |
| Pcx.ReadColourMap | Source/Plugins/PluginPCX.cpp:455-467 | entry i is the triplet just after the marker when the file holds all three bytes, and is untouched otherwise |
| Pcx.TrailingMapRead | Source/Plugins/PluginPCX.cpp:450-455 | a file of at least 769 bytes has all 256 entries read, from its last 768 bytes |
| Pcx.ShortFileMarker | Source/Plugins/PluginPCX.cpp:450-453 | in a file shorter than 769 bytes the failed seek leaves the position after the header, so the marker is the byte at offset 128 and only the triplets before the end of the file are read |
| Pcx.RawItems | Source/Plugins/PluginPCX.cpp:168 | an uncompressed readLine returns 1 exactly when a non-empty line was read whole, else 0 |
| Pcx.RawWritten | Source/Plugins/PluginPCX.cpp:168 | the count the skip loop evidently expects is the number of bytes read |
| Pcx.Skipped | Source/Plugins/PluginPCX.cpp:529-535 | the skip loop never moves ReadPos past 2048 nor the stream past its end, and leaves ReadPos alone once it is at the end of ReadBuf |
| Pcx.SkipGarbage | Source/Plugins/PluginPCX.cpp:529-535 | the loop in place returns the ReadPos and stream position Skipped describes |
| Pcx.SkipStream | Source/Plugins/PluginPCX.cpp:529-535 | with ReadPos at the end of ReadBuf, the loop moves the stream on by the bytes the line fell short of, as far as the stream goes |
| Pcx.RawSkipAsWritten | Source/Plugins/PluginPCX.cpp:529-535 | an uncompressed line of two or more bytes read whole makes the skip loop read length - 1 bytes of the next line |
| Pcx.RawSkipCorrected | Source/Plugins/PluginPCX.cpp:529-535 | with readLine returning the bytes read, the skip loop of an uncompressed line never moves the stream |
| Pcx.RleSkipNothing | Source/Plugins/PluginPCX.cpp:529-535 | a run-length line is read whole, so its skip loop changes nothing |
| Pcx.NextLine | Source/Plugins/PluginPCX.cpp:523-535 | one readLine and skip loop keep the line's length and the reader consistent; an uncompressed read leaves ReadBuf and a spent ReadPos alone |
| Pcx.RawNext | Source/Plugins/PluginPCX.cpp:523-535 | an uncompressed line read with the stream holding enough bytes is exactly the next line-length bytes, and the stream moves on by the stride the skip loop gives |
| Pcx.LinesEndIs | Source/Plugins/PluginPCX.cpp:521-538 | n uncompressed lines a stride apart end n strides after the 128-byte header |
| Pcx.RawLines | Source/Plugins/PluginPCX.cpp:521-538 | uncompressed lines read whole are the stored lines 2 * length - 1 bytes apart when the skip loop runs, length bytes apart for three planes |
| Pcx.RleLines | Source/Plugins/PluginPCX.cpp:521-538 | the run-length lines Load reads through ReadBuf are those decoded straight from the bytes after the header |
| Pcx.FitsUnlessOverrun | Source/Plugins/PluginPCX.cpp:498-500 | unless width exceeds what the planes hold, the line and the scanline Load allocates hold every byte the unpacking reads and writes |
| Pcx.PlaceLineInto | Source/Plugins/PluginPCX.cpp:525-604 | the unpacking in place changes only scanline t, to PlaceLine |
| Pcx.PaintLinesAt | Source/Plugins/PluginPCX.cpp:513-537 | line y lands on scanline height - 1 - y, and scanlines not reached yet keep their bytes |
| Pcx.ReadAndPlace | Source/Plugins/PluginPCX.cpp:521-606 | one pass of the scanline loop in place leaves the line, reader and scanline NextLine and PlaceLine describe |
| Pcx.LoadLine | Source/Plugins/PluginPCX.cpp:521-606 | a pass keeps the loop invariant: the scanlines are the first y + 1 lines painted bottom up |
| Pcx.LoadLines | Source/Plugins/PluginPCX.cpp:509-610 | the scanline loop paints the height lines readLine returns, bottom up |
| Pcx.LoadPixels | Source/Plugins/PluginPCX.cpp:495-610 | the zero-filled bitmap, the buffers and the scanline loop leave the scanlines Pixels describes |
| Pcx.Load | Source/Plugins/PluginPCX.cpp:345-623 | the outcome is the signature check, the header read, the window and depth checks and the layout in that order; on success the palette is SetPalette's, a header-only load has no scanlines, and a full load the scanlines Pixels describes |
| Sgi.ValidateExactly | Source/Plugins/PluginSGI.cpp:195-201 | exactly the streams starting with 01 DA are accepted |
| Sgi.LayoutOf | Source/Plugins/PluginSGI.cpp:235-260 | run-length encoding when storage is 1; one row when the dimension is below 2, one channel when below 3 |
| Sgi.BitCount | Source/Plugins/PluginSGI.cpp:287-303 | 1, 2, 3 and 4 channels give 8, 32, 24 and 32 bits; any other count is "Invalid channel count" |
| Sgi.RowIndex | Source/Plugins/PluginSGI.cpp:263-285 | the row-start table is read exactly when the header is followed by both tables of height * zsize entries, else "EOF in run length encoding" |
| Sgi.Prepare | Source/Plugins/PluginSGI.cpp:222-303 | a successful preparation has 1 to 4 channels and, when run-length encoded, one row start per row of each channel |
| Sgi.PrepareErrors | Source/Plugins/PluginSGI.cpp:224-303 | the checks come in the source's order, each with its own message: header size, magic number, 16-bit components, colormap, row index, channel count |
| Sgi.SkipZeros | Source/Plugins/PluginSGI.cpp:134-141 | the control byte get_rlechar takes is the first non-zero byte at or after the cursor |
| Sgi.RleChar | Source/Plugins/PluginSGI.cpp:131-167 | each call returns EOF, a byte value, or the pending repeated value |
| Sgi.GetRleChar | Source/Plugins/PluginSGI.cpp:131-167 | the in-place version returns the value, cursor and status RleChar describes |
| Sgi.StartFill | Source/Plugins/PluginSGI.cpp:145-166 | a control byte below 128 returns the next byte and leaves count - 1 repeats of it |
| Sgi.StartCopy | Source/Plugins/PluginSGI.cpp:145-163 | a control byte of 128 or more starts a literal run and returns the byte after it |
| Sgi.RleCharsEof | Source/Plugins/PluginSGI.cpp:362-364 | a call that returns EOF ends the row with no result |
| Sgi.DecodeFill | Source/Plugins/PluginSGI.cpp:131-167 | a repeat packet yields count copies of its value and moves the cursor two bytes |
| Sgi.DecodeCopy | Source/Plugins/PluginSGI.cpp:131-167 | a literal packet yields its bytes and moves the cursor past them |
| Sgi.DecodePacket | Source/Plugins/PluginSGI.cpp:131-167 | every well-formed packet decodes to its pixels and leaves the cursor after it with no count pending |
| Sgi.EmptyLiteralNeverEnds | Source/Plugins/PluginSGI.cpp:145-163 | a control byte 0x80 gives a count that goes negative, after which every call reads one more literal byte |
| Sgi.RawCharsAt | Source/Plugins/PluginSGI.cpp:359-365 | an uncompressed row is the next bytes of the stream, zero-filled past its end, and a short read is not EOF |
| Sgi.SeekTo | Source/Plugins/PluginSGI.cpp:350 | seeking to a non-negative row start moves there; a negative one leaves the cursor where it was |
| Sgi.OffsetsDistinct | Source/Plugins/PluginSGI.cpp:328-341 | the channels of an image land on distinct bytes inside the pixel |
| Sgi.PaintChannelAt | Source/Plugins/PluginSGI.cpp:345-367 | row y after a channel's loop has the channel's row y placed at its offset, or is unchanged when the channel has no row y |
| Sgi.PaintAllHit | Source/Plugins/PluginSGI.cpp:344-368 | pixel k of row y of channel i is at byte k * numChannels + offset_table[i] of scanline y |
| Sgi.PaintAllMiss | Source/Plugins/PluginSGI.cpp:344-368 | a byte that no channel writes keeps its value |
| Sgi.ReadRowInto | Source/Plugins/PluginSGI.cpp:352-366 | the pixel loop succeeds exactly when the row reads without EOF, and then changes only scanline j, placing the row at byte off of each pixel |
| Sgi.LoadRow | Source/Plugins/PluginSGI.cpp:346-367 | a row clears the pending count and seeks to its row start when run-length encoded, then behaves as ReadRow describes |
| Sgi.LoadChannel | Source/Plugins/PluginSGI.cpp:344-367 | the row loop of channel i succeeds exactly when ReadChannel does and paints its rows at the channel's offset |
| Sgi.LoadPixels | Source/Plugins/PluginSGI.cpp:324-368 | the channel loop succeeds exactly when every channel reads without EOF and then paints them all |
| Sgi.ReadChannelFails | Source/Plugins/PluginSGI.cpp:362-364 | once a row fails, the rest of the channel fails |
| Sgi.ReadChannelsFail | Source/Plugins/PluginSGI.cpp:362-364 | once a channel fails, the image fails |
| Sgi.ReadRowLength | Source/Plugins/PluginSGI.cpp:352-366 | every row read holds width bytes |
| Sgi.ReadChannelsShape | Source/Plugins/PluginSGI.cpp:344-368 | each channel read holds height rows of width bytes |
| Sgi.RawNeverFails | Source/Plugins/PluginSGI.cpp:359-364 | in an uncompressed file the pixel data never ends early, however short the stream |
| Sgi.RleRowIndependent | Source/Plugins/PluginSGI.cpp:348-351 | a run-length row with a non-negative row start does not depend on the rows read before it |
| Sgi.GreyedPixel | Source/Plugins/PluginSGI.cpp:377-381 | each visited pixel has its three colour bytes equal to its byte 0 and keeps its alpha |
| Sgi.GreyedBeyond | Source/Plugins/PluginSGI.cpp:377-381 | bytes after the visited pixels are untouched |
| Sgi.GreyRow | Source/Plugins/PluginSGI.cpp:376-381 | the pixel loop in place changes only scanline y, to Greyed |
| Sgi.FakeRgba | Source/Plugins/PluginSGI.cpp:370-383 | the post-pass in place greys the first width pixels of every scanline |
| Sgi.GreyAlphaPixel | Source/Plugins/PluginSGI.cpp:370-383 | a grey and alpha image ends with every pixel (g, g, g, a), g from channel 0 and a from channel 1 |
| Sgi.Load | Source/Plugins/PluginSGI.cpp:215-395 | a failed check reports its error; otherwise the load fails with "EOF in image data" exactly when a channel hits EOF, and else the scanlines are the decoded channels; an 8-bit image has the grey palette |
| Sgi.DecodedPixel | Source/Plugins/PluginSGI.cpp:328-368 | in a grey, RGB or RGBA image, pixel k of row y of channel i ends at byte k * zsize + offset_table[i] |
| Sgi.DecodedGreyAlpha | Source/Plugins/PluginSGI.cpp:370-383 | Load turns a grey and alpha image into RGBA pixels (g, g, g, a) |
| Sgi.RawCharsCheckedAt | Source/Plugins/PluginSGI.cpp:360-364 | with a short read treated as the end of the data, an uncompressed row is read exactly when the stream holds it, and is then the next bytes |
| Sgi.ShortRawRow | Source/Plugins/PluginSGI.cpp:360-364 | as written, a row that starts at the end of the stream reads as zeros, where the intended check reports the end of the data |
| Bitmap.GreyPalette | Source/Plugins/PluginSGI.cpp:313-319 | entry i of the 256-entry palette is grey level i with alpha 0 |
| Bitmap.FillTriplets | Source/Plugins/PluginPCX.cpp:463-468 | entry i of the palette takes the i-th red, green, blue triplet of the source bytes |
| Bitmap.Pitch | Source/Plugins/PluginPCX.cpp:500 | the scanline length is a multiple of four and the smallest one that holds width * bitcount bits |
| Bitmap.PlaceRowHit | Source/Plugins/PluginSGI.cpp:352-366 | byte off of pixel k of a placed row holds the k-th value |
| Bitmap.PlaceRowMiss | Source/Plugins/PluginSGI.cpp:352-366 | every other byte of a placed row keeps its value |

## Left out

- I/O: `FreeImageIO` handles, `tell_proc` and the exceptions become byte sequences, cursors and `Result` values. Metadata (dots per metre, comments, ICC profiles) is not modelled, nor are FreeImage's allocation and palette calls.
- Floating point: the dots-per-metre conversions of the PCX and BMP loaders are not modelled.
- The OS/2 BMP loaders and the bit-field and 16/24/32-bit pixel copies of the BMP loader are not part of this model. Only the header arithmetic and the RLE8 encoder of BMP `Save` are.
- The GIF `Load` pipeline around the LZW decoder (sub-block reads into the decode buffer, the palette and metadata of one page, the loop over pixels of a row) is modelled only in what reaches the interlace order (`GifInterlace`) and the page map (`GifOpen.LoadPage`). `GifPlayback` takes the decoded frames of the pages as inputs.
- GifPlayback.Playback: writes that fall past the end of the canvas buffer are dropped. In the source they corrupt memory; see the unclipped-frame finding.
- GifLzw.StringTable.Decompress: with the pending code pushed back on the last byte of the last sub-block, the source only re-reads it when more bytes arrive. The model keeps the pushed-back state and proves nothing about streams cut there.
- GifLzw.Classify: it adds an invalid case for codes of 4096 and above other than the clear code, which the check at PluginGIF.cpp:382 does not have. It matters only for a minimum code size of 12, where the source indexes `m_strings` out of range. `ClassifyAsWritten` keeps the source's check, and `GifLzwDecoder.CodeFits` proves the two agree for minimum code sizes 2 to 11.
- GifLzw.StringTable.Compress: the round trip (`GifLzwRoundTrip.RoundTrip`) covers one `Compress` call on a freshly constructed table, with at least one byte of input and an output that does not fill up, then `CompressEnd`. It does not cover several `Compress` calls with new input between them, or a call that fills its output, as `Save`'s 255-byte sub-blocks do (PluginGIF.cpp:1318-1330).
- GifLzw.StringTable.Decompress: the round trip gives the whole stream to one `Decompress` call with room for every pixel. It does not cover `Load`'s sub-block splitting, several calls, or the push-back of a string that does not fit the output.
- GifPlayback.Playback: the composition follows the source as written, with `Step`. The corrected `IntendedStep` stands beside it, and the backward scan that picks the first page drawn (`StartPage`) is not re-derived with the corrected defaults.
- Pcx.LoadResult: the `LineOverrun` outcome (and so `Pcx.Load`) stands for a four-plane line narrower than `width / 8` bytes per plane, or a three-plane line narrower than `width`. The source reads past its line buffer there and goes on.
- Pcx.SetPalette: in an 8-bit file shorter than 769 bytes, with a 0x0C after the header, the colour map read comes up short; the source leaves the entries past the end of the file as uninitialised heap memory, so the contract does not constrain them (the model leaves them zero). When the file is exactly the 128-byte header, nothing is read and `palette_id` is uninitialised; the model treats that as no marker.
- Sgi.Prepare: the allocation failure (`bad_alloc`) of a huge row index is not modelled. The index is read whenever the stream holds it.
- Sgi.Decoded: scanlines are `width * numChannels` bytes long. The padding bytes FreeImage adds to reach its pitch are never written by the loader and are not modelled.
- BmpRle8Codec.LoadPixelDataRle8: a literal run that starts past the row width gives a negative count. The source turns it into a huge read and an out-of-range write; the model stops there with an `Overrun` outcome.
- GetType: only the search of the plugin registry is modelled. The registry is a parameter, and each plugin's validator is a predicate on the stream.

## Findings

| source | as written | input that shows it | evidently intended | confidence | as-written member | corrected member |
|---|---|---|---|---|---|---|
| Source/Plugins/PluginPCX.cpp:168 | an uncompressed `readLine` returns `read_proc`'s item count, 1. The skip loop then reads `lineLength - 1` more bytes, so every uncompressed line after the first starts `lineLength - 1` bytes late. `Pcx.Load` follows this, and `Pcx.RawLines` gives the stride of `2 * lineLength - 1` | an uncompressed 8-bit file with `bytes_per_line` 2 and two lines | `readLine` returns the bytes read, so the skip loop does nothing and the lines follow one another | high; not executed | Pcx.RawSkipAsWritten | Pcx.RawSkipCorrected |
| Source/Plugins/PluginSGI.cpp:360-364 | a short uncompressed read returns 0, which is compared with `EOF` (-1). A truncated file therefore never fails, and the missing pixels read as 0 | an uncompressed file that ends right after its 512-byte header | report "EOF in image data" when a read returns no byte | high; not executed | Sgi.ShortRawRow | Sgi.RawCharsCheckedAt |
| Source/Plugins/PluginGIF.cpp:1341-1342 | `CompressEnd` is given a 4-byte buffer, but it can write 5 bytes. This happens when the table fills with bits still pending: the clear code and the last code are flushed together | minimum code size 8, table at code 4095, 7 bits pending when the output buffer filled | room for every pending bit; 6 bytes always suffice | medium; not executed | GifLzwOutput.EndOverrun | GifLzwOutput.EndedFits |
| Source/Plugins/PluginGIF.cpp:382 | with minimum code size 12, the first free code is 4098, and the check accepts it although the table holds 4096 strings | an image block whose minimum code size byte is 12, followed by code 4098 | refuse minimum code sizes above 11 (or codes without an entry) | medium; not executed | GifLzwDecoder.WideCodeAccepted | GifLzwDecoder.StartDecoder |
| Source/Plugins/PluginGIF.cpp:411-419 | with minimum code size 1, the decoder widens its codes one entry later than the encoder does (PluginGIF.cpp:310-313), so the two fall out of step | an image block whose minimum code size byte is 1 | accept minimum code sizes 2 to 11 only, where the widths agree | medium; not executed | GifLzwDecoder.NarrowStartAsWritten | GifLzwDecoder.CodeFits |
| Source/Plugins/PluginGIF.cpp:723-726 | a page without a graphic-control extension has offset 0, so playback reads file byte 1 ('I' of "GIF") as its packed field: disposal to background and a transparent colour | an animated GIF with a page that has no graphic-control extension | no disposal and no transparency, as single-frame `Load` has it | high; not executed | GifPlayback.NoGceErased | GifPlayback.NoGceDrawn |
| Source/Plugins/PluginGIF.cpp:776-779 | the frame rectangle is not clipped to the logical width, so its pixels spill into the next scanline | a page whose left + width exceeds the logical screen width | clip the rectangle to the logical screen | high; not executed | GifPlayback.WideFrameSpills | GifPlayback.ClippedStaysInside |
| Source/Plugins/PluginGIF.cpp:932-943 | an interlaced frame of 2 to 4 rows decodes row 0 only: the second pass starts at row 4, which already ends the loop | an interlaced image 2 rows high | every row decoded once, in the four-pass order | high; not executed | GifInterlace.InterlacedShort | GifInterlace.PassOrderCovers |
