/** The BMP plugin's header logic: the signature check, the dispatch on the
    info-header size, the palette and bit-field rules of the Windows loader
    and the header fields Save computes (Source/Plugins/PluginBMP.cpp). */
module BmpHeader {
  import opened Wrappers
  import opened Bytes

  const BI_RGB: nat := 0
  const BI_RLE8: nat := 1
  const BI_RLE4: nat := 2
  const BI_BITFIELDS: nat := 3
  const BI_ALPHABITFIELDS: nat := 6

  /** sizeof(BITMAPFILEHEADER), sizeof(FIBITMAPINFOHEADER), sizeof(FIRGBA8). */
  const FILE_HEADER_SIZE: nat := 14
  const INFO_HEADER_SIZE: nat := 40
  const PALETTE_ENTRY_SIZE: nat := 4

  // ---------------------------------------------------------------------
  // Validate
  // ---------------------------------------------------------------------

  /** Validate: two bytes are read into a zeroed buffer and compared with
      "BM" and "BA". */
  predicate Validate(data: seq<byte>)
  {
    var signature := PadTo(data, 2);
    signature == [0x42, 0x4D] || signature == [0x42, 0x41]
  }

  /** A stream is accepted exactly when it starts with "BM" or "BA"; a short
      stream never is, since the zero filling matches neither. */
  lemma ValidateExactly(data: seq<byte>)
    ensures Validate(data) <==> |data| >= 2 && data[0] == 0x42 && (data[1] == 0x4D || data[1] == 0x41)
  {
    var signature := PadTo(data, 2);
    assert signature[0] == (if 0 < |data| then data[0] else 0);
    assert signature[1] == (if 1 < |data| then data[1] else 0);
    if |data| >= 2 && data[0] == 0x42 && data[1] == 0x4D {
      assert signature == [0x42, 0x4D];
    }
    if |data| >= 2 && data[0] == 0x42 && data[1] == 0x41 {
      assert signature == [0x42, 0x41];
    }
  }

  // ---------------------------------------------------------------------
  // Load: dispatch on the info-header size
  // ---------------------------------------------------------------------

  /** The loader Load hands the stream to, with the absolute offset of the
      pixel data (offset of the file header plus bfOffBits). */
  datatype Loader =
    | Os21x(bitsOffset: int)
    | Os22x(bitsOffset: int)
    | Windows(bitsOffset: int, headerSize: nat)

  /** The info-header sizes of the Windows versions: BITMAPINFOHEADER, the
      undocumented V2 and V3 headers, BITMAPV4HEADER and BITMAPV5HEADER. */
  predicate IsWindowsHeaderSize(size: nat)
  {
    size == 40 || size == 52 || size == 56 || size == 108 || size == 124
  }

  /** Load: data is the stream from the file header on, which starts at
      offsetInFile. The magic number must be "BM" or "BA" (as a little-endian
      bfType); the first four bytes of the info header, read into a zeroed
      value, give its size. Any other size selects no loader. */
  function Dispatch(data: seq<byte>, offsetInFile: int): (r: Option<Loader>)
    ensures r.Some? ==> |data| >= FILE_HEADER_SIZE && Validate(data)
  {
    if |data| < FILE_HEADER_SIZE then None
    else
      var bfType := U16LE(data, 0);
      if bfType != 0x4D42 && bfType != 0x4142 then None
      else
        var bitsOffset := offsetInFile + U32LE(data, 10);
        var size := U32LE(PadTo(data[FILE_HEADER_SIZE..], 4), 0);
        if size == 12 then Some(Os21x(bitsOffset))
        else if size == 64 then Some(Os22x(bitsOffset))
        else if IsWindowsHeaderSize(size) then Some(Windows(bitsOffset, size))
        else None
  }

  /** The magic number test of Load and Validate agree on every stream long
      enough to hold a file header. */
  lemma DispatchValidates(data: seq<byte>, offsetInFile: int)
    requires |data| >= FILE_HEADER_SIZE
    ensures (U16LE(data, 0) == 0x4D42 || U16LE(data, 0) == 0x4142) <==> Validate(data)
  {
    ValidateExactly(data);
  }

  /** Which loader each info-header size selects: 12 the OS/2 1.x loader, 64
      the OS/2 2.x loader, the five Windows sizes the Windows loader (which
      is told the size), and nothing else any loader. */
  lemma DispatchBySize(data: seq<byte>, offsetInFile: int, size: nat)
    requires |data| >= FILE_HEADER_SIZE + 4 && Validate(data)
    requires size == U32LE(data, FILE_HEADER_SIZE)
    ensures var r := Dispatch(data, offsetInFile);
      && (r.Some? <==> size == 12 || size == 64 || IsWindowsHeaderSize(size))
      && (r.Some? ==> r.value.bitsOffset == offsetInFile + U32LE(data, 10))
      && (size == 12 ==> r.value.Os21x?)
      && (size == 64 ==> r.value.Os22x?)
      && (IsWindowsHeaderSize(size) ==> r == Some(Windows(offsetInFile + U32LE(data, 10), size)))
  {
    ValidateExactly(data);
    var tail := PadTo(data[FILE_HEADER_SIZE..], 4);
    assert tail == data[FILE_HEADER_SIZE..FILE_HEADER_SIZE + 4];
    assert U32LE(tail, 0) == U32LE(data, FILE_HEADER_SIZE);
  }

  // ---------------------------------------------------------------------
  // LoadWindowsBMP: palette and bit-field rules
  // ---------------------------------------------------------------------

  /** How the pixel data is read after the header. */
  datatype PixelLoad = HeaderOnly | LoadRgb | LoadRle4 | LoadRle8

  /** What LoadWindowsBMP does with a header: a palettized bitmap reads
      usedColors palette entries, a 16-, 24- or 32-bit one reads bitfields
      masks (0 means the default masks). */
  datatype WindowsPlan =
    | Palettized(usedColors: nat, load: PixelLoad)
    | Masked(bitfields: nat, load: PixelLoad)

  /** Why LoadWindowsBMP returns no bitmap. UnsupportedDepth is the bit count
      the switch has no case for, which returns without a message. */
  datatype WindowsError = NegativeWidth | UnsupportedCompression | UnsupportedDepth

  /** 2^bitCount palette entries for the palettized depths. */
  function PaletteEntries(bitCount: nat): (n: nat)
    requires bitCount == 1 || bitCount == 4 || bitCount == 8
    ensures n == (if bitCount == 1 then 2 else if bitCount == 4 then 16 else 256)
  {
    if bitCount == 1 then 2 else if bitCount == 4 then 16 else 256
  }

  /** The number of palette entries read: biClrUsed, unless it is 0 or larger
      than the depth allows, in which case the full palette. */
  function UsedColors(bitCount: nat, clrUsed: nat): (n: nat)
    requires bitCount == 1 || bitCount == 4 || bitCount == 8
    ensures 1 <= n <= PaletteEntries(bitCount)
    ensures n == clrUsed <==> 0 < clrUsed <= PaletteEntries(bitCount)
    ensures n != clrUsed ==> n == PaletteEntries(bitCount)
  {
    if clrUsed == 0 || clrUsed > PaletteEntries(bitCount) then PaletteEntries(bitCount) else clrUsed
  }

  /** The number of colour masks read for a 16-, 24- or 32-bit bitmap. */
  function BitfieldCount(compression: nat, headerSize: nat): (n: nat)
    ensures n == 0 || n == 3 || n == 4
    ensures compression == BI_BITFIELDS ==> n == 3
    ensures compression == BI_ALPHABITFIELDS ==> n == 4
    ensures n == 0 <==> compression != BI_BITFIELDS && compression != BI_ALPHABITFIELDS && headerSize != 52
                          && headerSize < 56
    ensures compression != BI_BITFIELDS && compression != BI_ALPHABITFIELDS ==>
              (headerSize == 52 ==> n == 3) && (headerSize >= 56 ==> n == 4)
  {
    if compression == BI_BITFIELDS then 3
    else if compression == BI_ALPHABITFIELDS then 4
    else if headerSize == 52 then 3
    else if headerSize >= 56 then 4
    else 0
  }

  /** LoadWindowsBMP's decisions, from the info-header fields. */
  function PlanWindows(width: int, bitCount: nat, compression: nat, clrUsed: nat, headerSize: nat,
                       headerOnly: bool): Result<WindowsPlan, WindowsError>
  {
    if width < 0 then Err(NegativeWidth)
    else if bitCount == 1 || bitCount == 4 || bitCount == 8 then
      var used := UsedColors(bitCount, clrUsed);
      if headerOnly then Ok(Palettized(used, HeaderOnly))
      else if compression == BI_RGB then Ok(Palettized(used, LoadRgb))
      else if compression == BI_RLE4 then Ok(Palettized(used, LoadRle4))
      else if compression == BI_RLE8 then Ok(Palettized(used, LoadRle8))
      else Err(UnsupportedCompression)
    else if bitCount == 16 || bitCount == 24 || bitCount == 32 then
      Ok(Masked(BitfieldCount(compression, headerSize), if headerOnly then HeaderOnly else LoadRgb))
    else Err(UnsupportedDepth)
  }

  /** The outcomes of LoadWindowsBMP: a negative width is refused before
      anything else, a palettized bitmap fails only on a compression other
      than RGB, RLE4 and RLE8 (and not at all when only the header is
      loaded), a 16-, 24- or 32-bit bitmap never fails and always reads its
      pixels uncompressed, and any other depth yields no bitmap. */
  lemma PlanWindowsOutcomes(width: int, bitCount: nat, compression: nat, clrUsed: nat, headerSize: nat,
                            headerOnly: bool)
    ensures var r := PlanWindows(width, bitCount, compression, clrUsed, headerSize, headerOnly);
      && (width < 0 <==> r == Err(NegativeWidth))
      && (r == Err(UnsupportedDepth) <==>
            width >= 0 && bitCount !in {1, 4, 8, 16, 24, 32})
      && (r == Err(UnsupportedCompression) <==>
            width >= 0 && bitCount in {1, 4, 8} && !headerOnly && compression !in {BI_RGB, BI_RLE4, BI_RLE8})
      && (r.Ok? && r.value.Masked? ==> r.value.load == (if headerOnly then HeaderOnly else LoadRgb))
      && (r.Ok? && r.value.Palettized? ==> !headerOnly ==>
            r.value.load == (if compression == BI_RGB then LoadRgb
                             else if compression == BI_RLE4 then LoadRle4 else LoadRle8))
  {
  }

  // ---------------------------------------------------------------------
  // Save: file header and compression
  // ---------------------------------------------------------------------

  /** The file-header fields Save writes; both are 32-bit unsigned. */
  datatype FileHeader = FileHeader(bfType: nat, bfSize: nat, bfOffBits: nat)

  /** Save's file header for a bitmap of the given height, bits per pixel,
      pitch and palette size. Every sum is stored in a 32-bit field and the
      product height * pitch is taken in 32-bit unsigned arithmetic; a
      16-bit bitmap carries three masks after the info header. */
  function SaveFileHeader(height: nat, bpp: nat, pitch: nat, colorsUsed: nat): (h: FileHeader)
    ensures h.bfType == 0x4D42 && h.bfSize < 0x1_0000_0000 && h.bfOffBits < 0x1_0000_0000
  {
    var offBits := ToUInt32(FILE_HEADER_SIZE + INFO_HEADER_SIZE + colorsUsed * PALETTE_ENTRY_SIZE);
    var size := ToUInt32(offBits + ToUInt32(height * pitch));
    if bpp == 16 then FileHeader(0x4D42, ToUInt32(size + 3 * 4), ToUInt32(offBits + 3 * 4))
    else FileHeader(0x4D42, size, offBits)
  }

  /** The bytes before the pixels, as Save lays them out. */
  function HeaderBytes(bpp: nat, colorsUsed: nat): nat
  {
    FILE_HEADER_SIZE + INFO_HEADER_SIZE + colorsUsed * PALETTE_ENTRY_SIZE + (if bpp == 16 then 12 else 0)
  }

  /** When the file fits in 32 bits, bfOffBits is the size of the headers,
      the palette and the masks, and bfSize adds the height * pitch bytes of
      the pixel rows. */
  lemma SaveFileHeaderSizes(height: nat, bpp: nat, pitch: nat, colorsUsed: nat)
    requires HeaderBytes(bpp, colorsUsed) + height * pitch < 0x1_0000_0000
    ensures var h := SaveFileHeader(height, bpp, pitch, colorsUsed);
      && h.bfOffBits == HeaderBytes(bpp, colorsUsed)
      && h.bfSize == h.bfOffBits + height * pitch
  {
    var pixels := height * pitch;
    var base := FILE_HEADER_SIZE + INFO_HEADER_SIZE + colorsUsed * PALETTE_ENTRY_SIZE;
    assert base + pixels < 0x1_0000_0000;
    assert ToUInt32(pixels) == pixels;
    assert ToUInt32(base) == base;
    assert ToUInt32(base + pixels) == base + pixels;
  }

  /** Save's choice of biCompression: bit fields for 16 bits, RLE8 for 8 bits
      when BMP_SAVE_RLE is among the flags, uncompressed otherwise. */
  function SaveCompression(bpp: nat, saveRle: bool): (c: nat)
    ensures c == BI_BITFIELDS <==> bpp == 16
    ensures c == BI_RLE8 <==> bpp == 8 && saveRle
    ensures c == BI_RGB <==> bpp != 16 && !(bpp == 8 && saveRle)
  {
    if bpp == 16 then BI_BITFIELDS
    else if bpp == 8 && saveRle then BI_RLE8
    else BI_RGB
  }

  /** What Save writes is loaded back the way it was written: for every
      depth Save supports the Windows loader accepts the compression Save
      chose, reads an RLE8 file through the RLE8 decoder, and takes the three
      masks of a 16-bit file. */
  lemma SavedHeaderLoads(width: nat, bpp: nat, saveRle: bool, colorsUsed: nat)
    requires bpp in {1, 4, 8, 16, 24, 32}
    ensures var r := PlanWindows(width, bpp, SaveCompression(bpp, saveRle), colorsUsed, INFO_HEADER_SIZE, false);
      && r.Ok?
      && (bpp == 8 && saveRle ==> r.value == Palettized(UsedColors(8, colorsUsed), LoadRle8))
      && (bpp == 16 ==> r.value == Masked(3, LoadRgb))
      && (bpp in {24, 32} ==> r.value == Masked(0, LoadRgb))
      && (bpp in {1, 4, 8} && !(bpp == 8 && saveRle) ==> r.value.load == LoadRgb)
  {
  }
}
