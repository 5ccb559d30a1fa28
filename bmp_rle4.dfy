/** The BI_RLE4 decoder of the BMP plugin, LoadPixelDataRLE4
    (Source/Plugins/PluginBMP.cpp): runs are decoded one pixel per byte into
    a zeroed width * |height| buffer, which is then packed two pixels per
    byte into the scanlines. */
module BmpRle4 {
  import opened Wrappers
  import opened Bytes
  import opened BmpRle8
  import opened Bitmap

  // ---------------------------------------------------------------------
  // Pixels of a run
  // ---------------------------------------------------------------------

  /** Pixel i of a run drawn from byte b: the high nibble for even i, the low
      nibble for odd i. */
  function Nibble(b: byte, i: nat): (r: byte)
    ensures r < 16
    ensures r == (if i % 2 == 0 then b / 16 else b % 16)
  {
    if i % 2 == 1 then b % 16 else b / 16
  }

  /** The n pixels of an encoded run of byte b. */
  function RunPixels(b: byte, n: nat): (r: seq<byte>)
    ensures |r| == n
  {
    seq(n, i requires 0 <= i < n => Nibble(b, i))
  }

  /** The n pixels of an absolute run: pixel i comes from byte i / 2. */
  function LiteralPixels(bytes: seq<byte>, n: nat): (r: seq<byte>)
    requires (n + 1) / 2 <= |bytes|
    ensures |r| == n
  {
    seq(n, i requires 0 <= i < n => Nibble(bytes[i / 2], i))
  }

  /** The bytes an absolute run of n pixels occupies in the stream: one byte
      per two pixels, then a pad byte when n & 3 is 1 or 2. */
  function LiteralLength(n: nat): nat
  {
    (n + 1) / 2 + (if n % 4 == 1 || n % 4 == 2 then 1 else 0)
  }

  /** px with part stored from index q on. */
  function Overwrite(px: seq<byte>, q: nat, part: seq<byte>): (r: seq<byte>)
    requires q + |part| <= |px|
    ensures |r| == |px|
  {
    seq(|px|, i requires 0 <= i < |px| => if q <= i < q + |part| then part[i - q] else px[i])
  }

  /** Every pixel is a 4-bit palette index. */
  predicate AllNibbles(px: seq<byte>)
  {
    forall i :: 0 <= i < |px| ==> px[i] < 16
  }

  function Abs(x: int): nat
  {
    if x < 0 then -x else x
  }

  // ---------------------------------------------------------------------
  // Decoding into the pixel buffer
  // ---------------------------------------------------------------------

  /** The decoder between two status bytes: the stream position, the index
      q of the next pixel in the w * h buffer px, the scanline and the column
      counter bits. */
  datatype Decoder = Decoder(pos: nat, q: nat, scanline: nat, bits: nat, px: seq<byte>)

  /** One pass of the decoding loop, or None on a short read. Runs are
      clipped to the end of the buffer, not to the end of the row; the pad
      decision of an absolute run is taken on the clipped count. An
      end-of-bitmap escape moves q to the end of the buffer. */
  function Rle4Next(data: seq<byte>, w: nat, h: nat, d: Decoder): (r: Option<Decoder>)
    requires |d.px| == w * h && d.q < w * h
    ensures r.Some? ==> d.pos < r.value.pos <= |data| && |r.value.px| == w * h
  {
    var pos := d.pos;
    if pos + 1 >= |data| then None
    else if data[pos] != RLE_COMMAND then
      var n: nat := Min(data[pos] as int, w * h - d.q);
      Some(Decoder(pos + 2, d.q + n, d.scanline, d.bits + n, Overwrite(d.px, d.q, RunPixels(data[pos + 1], n))))
    else
      var escape := data[pos + 1];
      if escape == RLE_ENDOFLINE then
        Some(Decoder(pos + 2, (d.scanline + 1) * w, d.scanline + 1, 0, d.px))
      else if escape == RLE_ENDOFBITMAP then
        Some(d.(pos := pos + 2, q := w * h))
      else if escape == RLE_DELTA then
        if pos + 3 >= |data| then None
        else
          var bits := d.bits + data[pos + 2] as nat;
          var scanline := d.scanline + data[pos + 3] as nat;
          Some(Decoder(pos + 4, scanline * w + bits, scanline, bits, d.px))
      else
        var n: nat := Min(escape as int, w * h - d.q);
        if pos + 2 + LiteralLength(n) > |data| then None
        else Some(Decoder(pos + 2 + LiteralLength(n), d.q + n, d.scanline, d.bits + n,
                          Overwrite(d.px, d.q, LiteralPixels(data[pos + 2..], n))))
  }

  /** The decoding loop: it ends with the buffer once every scanline is
      passed or q has left the buffer, and with None on a short read. */
  function Rle4From(data: seq<byte>, w: nat, h: nat, d: Decoder): (r: Option<seq<byte>>)
    requires |d.px| == w * h
    ensures r.Some? ==> |r.value| == w * h
    decreases |data| - d.pos
  {
    if d.scanline >= h || d.q >= w * h then Some(d.px)
    else match Rle4Next(data, w, h, d)
      case None => None
      case Some(d') => Rle4From(data, w, h, d')
  }

  /** The pixel buffer LoadPixelDataRLE4 decodes for a stream: zeroed, then
      filled from the start of the stream. */
  function Rle4Decode(data: seq<byte>, w: nat, height: int): Option<seq<byte>>
  {
    Rle4From(data, w, Abs(height), Decoder(0, 0, 0, 0, Repeat(w * Abs(height), 0)))
  }

  lemma OverwriteNibbles(px: seq<byte>, q: nat, part: seq<byte>)
    requires q + |part| <= |px| && AllNibbles(px) && AllNibbles(part)
    ensures AllNibbles(Overwrite(px, q, part))
  {
  }

  /** A pass stores only 4-bit values. */
  lemma Rle4NextNibbles(data: seq<byte>, w: nat, h: nat, d: Decoder)
    requires |d.px| == w * h && d.q < w * h && AllNibbles(d.px)
    ensures var r := Rle4Next(data, w, h, d); r.Some? ==> AllNibbles(r.value.px)
  {
    var pos := d.pos;
    if pos + 1 < |data| {
      if data[pos] != RLE_COMMAND {
        var n: nat := Min(data[pos] as int, w * h - d.q);
        OverwriteNibbles(d.px, d.q, RunPixels(data[pos + 1], n));
      } else if data[pos + 1] > RLE_DELTA {
        var n: nat := Min(data[pos + 1] as int, w * h - d.q);
        if pos + 2 + LiteralLength(n) <= |data| {
          OverwriteNibbles(d.px, d.q, LiteralPixels(data[pos + 2..], n));
        }
      }
    }
  }

  /** Decoding only ever stores 4-bit values, so a buffer of palette indices
      stays one. */
  lemma {:induction false} Rle4FromNibbles(data: seq<byte>, w: nat, h: nat, d: Decoder)
    requires |d.px| == w * h && AllNibbles(d.px)
    ensures var r := Rle4From(data, w, h, d); r.Some? ==> AllNibbles(r.value)
    decreases |data| - d.pos
  {
    if d.scanline < h && d.q < w * h {
      Rle4NextNibbles(data, w, h, d);
      match Rle4Next(data, w, h, d)
      case None =>
      case Some(d') => Rle4FromNibbles(data, w, h, d');
    }
  }

  // ---------------------------------------------------------------------
  // Packing two pixels per byte
  // ---------------------------------------------------------------------

  /** Byte c of a packed row: pixel 2c in the high nibble, pixel 2c + 1 (when
      the width has one) or'ed into the low nibble. */
  function PackedByte(src: seq<byte>, c: nat): byte
    requires 2 * c < |src|
  {
    if 2 * c + 1 < |src| then Or(Shl4(src[2 * c]), src[2 * c + 1]) else Shl4(src[2 * c])
  }

  /** A scanline after the pixels of src are packed into it; the bytes past
      (|src| + 1) / 2 are left alone. */
  function PackedRow(row: seq<byte>, src: seq<byte>): (r: seq<byte>)
    requires (|src| + 1) / 2 <= |row|
    ensures |r| == |row|
  {
    seq(|row|, c requires 0 <= c < |row| => if c < (|src| + 1) / 2 then PackedByte(src, c) else row[c])
  }

  /** Pixel x of a packed row, read back. */
  function NibbleAt(row: seq<byte>, x: nat): byte
    requires x / 2 < |row|
  {
    Nibble(row[x / 2], x)
  }

  /** Packing 4-bit pixels loses nothing: each one is read back from its
      nibble, and an odd width leaves the low nibble of the last byte 0. */
  lemma PackedReadBack(row: seq<byte>, src: seq<byte>)
    requires (|src| + 1) / 2 <= |row| && AllNibbles(src)
    ensures forall x :: 0 <= x < |src| ==> NibbleAt(PackedRow(row, src), x) == src[x]
    ensures |src| % 2 == 1 ==> NibbleAt(PackedRow(row, src), |src|) == 0
    ensures forall c :: (|src| + 1) / 2 <= c < |row| ==> PackedRow(row, src)[c] == row[c]
  {
    forall x | 0 <= x < |src|
      ensures NibbleAt(PackedRow(row, src), x) == src[x]
    {
      PackedNibble(row, src, x);
    }
    if |src| % 2 == 1 {
      PackedOddTail(row, src);
    }
  }

  /** An odd width leaves the low nibble of the last packed byte 0. */
  lemma PackedOddTail(row: seq<byte>, src: seq<byte>)
    requires (|src| + 1) / 2 <= |row| && AllNibbles(src) && |src| % 2 == 1
    ensures NibbleAt(PackedRow(row, src), |src|) == 0
  {
    var c := |src| / 2;
    var hi := src[|src| - 1];
    assert 2 * c == |src| - 1;
    assert PackedRow(row, src)[c] == Shl4(hi);
    assert Shl4(hi) as int == hi as int * 16;
    assert (hi as int * 16) % 16 == 0;
  }

  lemma PackedNibble(row: seq<byte>, src: seq<byte>, x: nat)
    requires (|src| + 1) / 2 <= |row| && AllNibbles(src) && x < |src|
    ensures NibbleAt(PackedRow(row, src), x) == src[x]
  {
    var r := PackedRow(row, src);
    var c := x / 2;
    var hi := src[2 * c];
    assert Shl4(hi) == hi * 16;
    if 2 * c + 1 < |src| {
      OrLowNibble(Shl4(hi), src[2 * c + 1]);
      assert r[c] == hi * 16 + src[2 * c + 1];
    }
  }

  lemma NibblesSlice(px: seq<byte>, a: nat, b: nat)
    requires a <= b <= |px| && AllNibbles(px)
    ensures AllNibbles(px[a..b])
  {
  }

  /** Scanline y of the pixel buffer. */
  function PixelRow(px: seq<byte>, w: nat, y: nat): (r: seq<byte>)
    requires y * w + w <= |px|
    ensures |r| == w
  {
    px[y * w..y * w + w]
  }

  /** Every scanline holds room for (w + 1) / 2 packed bytes. */
  predicate Packable(rows: seq<seq<byte>>, w: nat)
  {
    forall y :: 0 <= y < |rows| ==> (w + 1) / 2 <= |rows[y]|
  }

  /** The scanlines after the pixel buffer is packed into them, row by row. */
  function PackRows(rows: seq<seq<byte>>, px: seq<byte>, w: nat): (r: seq<seq<byte>>)
    requires |px| == w * |rows| && Packable(rows, w)
    ensures |r| == |rows|
  {
    seq(|rows|, y requires 0 <= y < |rows| =>
      RowInBuffer(y, |rows|, w);
      PackedRow(rows[y], PixelRow(px, w, y)))
  }

  /** The pixel decoded for column x of scanline y is read back from the
      bitmap that LoadPixelDataRLE4 fills. */
  lemma DecodedReadBack(data: seq<byte>, w: nat, rows: seq<seq<byte>>, y: nat, x: nat)
    requires Packable(rows, w) && y < |rows| && x < w
    requires Rle4Decode(data, w, |rows|).Some?
    ensures var px := Rle4Decode(data, w, |rows|).value;
      (RowInBuffer(y, |rows|, w); NibbleAt(PackRows(rows, px, w)[y], x) == px[y * w + x] < 16)
  {
    var h := |rows|;
    Rle4FromNibbles(data, w, h, Decoder(0, 0, 0, 0, Repeat(w * h, 0)));
    var px := Rle4Decode(data, w, h).value;
    RowInBuffer(y, h, w);
    var src := PixelRow(px, w, y);
    PackRowsAt(rows, px, w, y);
    NibblesSlice(px, y * w, y * w + w);
    PackedNibble(rows[y], src, x);
  }

  lemma PackRowsAt(rows: seq<seq<byte>>, px: seq<byte>, w: nat, y: nat)
    requires |px| == w * |rows| && Packable(rows, w) && y < |rows|
    ensures (RowInBuffer(y, |rows|, w); PackRows(rows, px, w)[y] == PackedRow(rows[y], PixelRow(px, w, y)))
  {
    RowInBuffer(y, |rows|, w);
  }

  // ---------------------------------------------------------------------
  // LoadPixelDataRLE4
  // ---------------------------------------------------------------------

  lemma OverwriteEmpty(px: seq<byte>, q: nat)
    requires q <= |px|
    ensures Overwrite(px, q, []) == px
  {
  }

  /** Storing one more pixel right after part extends it. */
  lemma OverwriteSnoc(px: seq<byte>, q: nat, part: seq<byte>, v: byte)
    requires q + |part| < |px|
    ensures Overwrite(px, q, part)[q + |part| := v] == Overwrite(px, q, part + [v])
  {
  }

  lemma RunPixelsSnoc(b: byte, i: nat)
    ensures RunPixels(b, i + 1) == RunPixels(b, i) + [Nibble(b, i)]
  {
  }

  lemma LiteralPixelsSnoc(bytes: seq<byte>, i: nat)
    requires (i + 2) / 2 <= |bytes|
    ensures LiteralPixels(bytes, i + 1) == LiteralPixels(bytes, i) + [Nibble(bytes[i / 2], i)]
  {
  }

  /** An encoded run: n pixels alternating between the nibbles of b. */
  method FillNibbles(pixels: array<byte>, q: nat, n: nat, b: byte)
    requires q + n <= pixels.Length
    modifies pixels
    ensures pixels[..] == Overwrite(old(pixels[..]), q, RunPixels(b, n))
  {
    ghost var px := pixels[..];
    OverwriteEmpty(px, q);
    var i := 0;
    while i < n
      invariant i <= n && pixels[..] == Overwrite(px, q, RunPixels(b, i))
    {
      pixels[q + i] := if i % 2 == 1 then b % 16 else b / 16;
      OverwriteSnoc(px, q, RunPixels(b, i), Nibble(b, i));
      RunPixelsSnoc(b, i);
      i := i + 1;
    }
  }

  /** An absolute run of n pixels read from data[pos..]: a byte is read
      before every even pixel, then the pad byte if there is one. Fails on a
      short read. */
  method CopyNibbles(pixels: array<byte>, q: nat, n: nat, data: seq<byte>, pos: nat) returns (ok: bool, next: nat)
    requires q + n <= pixels.Length && pos <= |data|
    modifies pixels
    ensures ok <==> pos + LiteralLength(n) <= |data|
    ensures ok ==> next == pos + LiteralLength(n)
    ensures ok ==> pixels[..] == Overwrite(old(pixels[..]), q, LiteralPixels(data[pos..], n))
  {
    ghost var px := pixels[..];
    ghost var bytes := data[pos..];
    OverwriteEmpty(px, q);
    var second: byte := 0;
    next := pos;
    var i := 0;
    while i < n
      invariant i <= n && next == pos + (i + 1) / 2 && next <= |data|
      invariant i % 2 == 1 ==> second == bytes[i / 2]
      invariant pixels[..] == Overwrite(px, q, LiteralPixels(bytes, i))
    {
      if i % 2 == 0 {
        if next >= |data| {
          assert next == pos + i / 2 && i / 2 < (n + 1) / 2 <= LiteralLength(n);
          return false, next;
        }
        second := data[next];
        next := next + 1;
      }
      pixels[q + i] := if i % 2 == 1 then second % 16 else second / 16;
      OverwriteSnoc(px, q, LiteralPixels(bytes, i), Nibble(second, i));
      LiteralPixelsSnoc(bytes, i);
      i := i + 1;
    }
    if n % 4 == 1 || n % 4 == 2 {
      if next >= |data| {
        return false, next;
      }
      next := next + 1;
    }
    ok := true;
  }

  /** One pass of the decoding loop on the buffer: reads a status byte and
      what follows it. */
  method DecodeStep(data: seq<byte>, w: nat, h: nat, pixels: array<byte>, pos: nat, q: nat, scanline: nat, bits: nat)
    returns (ok: bool, pos': nat, q': nat, scanline': nat, bits': nat)
    requires pixels.Length == w * h && q < w * h
    modifies pixels
    ensures var r := Rle4Next(data, w, h, Decoder(pos, q, scanline, bits, old(pixels[..])));
      ok == r.Some? && (ok ==> r.value == Decoder(pos', q', scanline', bits', pixels[..]))
  {
    pos', q', scanline', bits' := pos, q, scanline, bits;
    if pos' >= |data| {
      return false, pos', q', scanline', bits';
    }
    var status := data[pos'];
    pos' := pos' + 1;
    if status != RLE_COMMAND {
      var n: nat := Min(status as int, w * h - q');
      if pos' >= |data| {
        return false, pos', q', scanline', bits';
      }
      var second := data[pos'];
      pos' := pos' + 1;
      FillNibbles(pixels, q', n, second);
      q' := q' + n;
      bits' := bits' + n;
    } else {
      if pos' >= |data| {
        return false, pos', q', scanline', bits';
      }
      status := data[pos'];
      pos' := pos' + 1;
      if status == RLE_ENDOFLINE {
        bits' := 0;
        scanline' := scanline' + 1;
        q' := scanline' * w;
      } else if status == RLE_ENDOFBITMAP {
        q' := w * h;
      } else if status == RLE_DELTA {
        if pos' + 1 >= |data| {
          return false, pos', q', scanline', bits';
        }
        var dx, dy := data[pos'], data[pos' + 1];
        pos' := pos' + 2;
        bits' := bits' + dx as nat;
        scanline' := scanline' + dy as nat;
        q' := scanline' * w + bits';
      } else {
        var n: nat := Min(status as int, w * h - q');
        var read;
        read, pos' := CopyNibbles(pixels, q', n, data, pos');
        if !read {
          return false, pos', q', scanline', bits';
        }
        q' := q' + n;
        bits' := bits' + n;
      }
    }
    ok := true;
  }

  /** The decoding loop of LoadPixelDataRLE4 over the zeroed buffer. */
  method DecodeRle4(data: seq<byte>, w: nat, h: nat, pixels: array<byte>) returns (ok: bool)
    requires pixels.Length == w * h
    modifies pixels
    ensures var r := Rle4From(data, w, h, Decoder(0, 0, 0, 0, old(pixels[..])));
      ok == r.Some? && (ok ==> pixels[..] == r.value)
  {
    ghost var result := Rle4From(data, w, h, Decoder(0, 0, 0, 0, pixels[..]));
    var pos: nat, q: nat, scanline: nat, bits: nat := 0, 0, 0, 0;
    while scanline < h
      invariant pos <= |data| && pixels.Length == w * h
      invariant Rle4From(data, w, h, Decoder(pos, q, scanline, bits, pixels[..])) == result
      decreases |data| - pos
    {
      if q >= w * h {
        break;
      }
      ok, pos, q, scanline, bits := DecodeStep(data, w, h, pixels, pos, q, scanline, bits);
      if !ok {
        return false;
      }
    }
    return true;
  }

  lemma PackedRowEmpty(row: seq<byte>)
    ensures PackedRow(row, []) == row
  {
  }

  /** One more pixel: an even one stores its shifted value into the next
      byte, an odd one is or'ed into the byte of its partner. */
  lemma PackedRowStep(row: seq<byte>, src: seq<byte>, v: byte)
    requires (|src| + 2) / 2 <= |row|
    ensures var before := PackedRow(row, src);
      PackedRow(row, src + [v])
        == before[|src| / 2 := if |src| % 2 == 0 then Shl4(v) else Or(before[|src| / 2], v)]
  {
    var before := PackedRow(row, src);
    var after := PackedRow(row, src + [v]);
    var c := |src| / 2;
    forall k | 0 <= k < |row| && k != c
      ensures after[k] == before[k]
    {
      if k < (|src| + 1) / 2 {
        assert 2 * k + 1 < |src|;
        assert (src + [v])[2 * k] == src[2 * k];
        assert (src + [v])[2 * k + 1] == src[2 * k + 1];
      }
    }
    if |src| % 2 == 1 {
      assert (src + [v])[2 * c] == src[2 * c];
    }
  }

  /** Packs scanline y of the pixel buffer, which starts at index start,
      into dib.rows[y], alternating between the high and the low nibble. */
  method PackLine(dib: Scanlines, y: nat, pixels: array<byte>, start: nat, w: nat)
    requires y < |dib.rows| && (w + 1) / 2 <= |dib.rows[y]| && start + w <= pixels.Length
    modifies dib
    ensures dib.rows == old(dib.rows)[y := PackedRow(old(dib.rows[y]), pixels[start..start + w])]
  {
    ghost var row := dib.rows[y];
    PackedRowEmpty(row);
    var hinibble := true;
    var cols := 0;
    while cols < w
      invariant cols <= w && hinibble == (cols % 2 == 0)
      invariant dib.rows == old(dib.rows)[y := PackedRow(row, pixels[start..start + cols])]
    {
      var dst := dib.rows[y];
      if hinibble {
        dst := dst[cols / 2 := Shl4(pixels[start + cols])];
      } else {
        dst := dst[cols / 2 := Or(dst[cols / 2], pixels[start + cols])];
      }
      dib.rows := dib.rows[y := dst];
      assert pixels[start..start + cols + 1] == pixels[start..start + cols] + [pixels[start + cols]];
      PackedRowStep(row, pixels[start..start + cols], pixels[start + cols]);
      hinibble := !hinibble;
      cols := cols + 1;
    }
  }

  /** The conversion to 4 bits: every scanline of the buffer packed into its
      row of the bitmap. */
  method PackPixels(dib: Scanlines, pixels: array<byte>, w: nat)
    requires pixels.Length == w * |dib.rows| && Packable(dib.rows, w)
    modifies dib
    ensures Packable(old(dib.rows), w)
    ensures dib.rows == PackRows(old(dib.rows), pixels[..], w)
  {
    ghost var rows := dib.rows;
    var h := |dib.rows|;
    var start := 0;
    var y := 0;
    while y < h
      invariant y <= h && start == y * w && |dib.rows| == h
      invariant forall k :: 0 <= k < h ==> |dib.rows[k]| == |rows[k]|
      invariant forall k :: 0 <= k < y ==> dib.rows[k] == PackRows(rows, pixels[..], w)[k]
      invariant forall k :: y <= k < h ==> dib.rows[k] == rows[k]
    {
      RowInBuffer(y, h, w);
      PackLine(dib, y, pixels, start, w);
      assert pixels[start..start + w] == PixelRow(pixels[..], w, y);
      start := start + w;
      y := y + 1;
    }
  }

  /** LoadPixelDataRLE4: decodes into a zeroed width * |height| buffer and,
      when decoding succeeds, packs it into the scanlines. On a short read
      the bitmap is left as it was. */
  method LoadPixelDataRle4(data: seq<byte>, width: nat, height: int, dib: Scanlines) returns (ok: bool)
    requires |dib.rows| == Abs(height) && Packable(dib.rows, width)
    modifies dib
    ensures ok == Rle4Decode(data, width, height).Some?
    ensures ok ==> dib.rows == PackRows(old(dib.rows), Rle4Decode(data, width, height).value, width)
    ensures !ok ==> dib.rows == old(dib.rows)
  {
    var h := Abs(height);
    var pixels := new byte[width * h](_ => 0);
    assert pixels[..] == Repeat(width * h, 0);
    ok := DecodeRle4(data, width, h, pixels);
    if ok {
      PackPixels(dib, pixels, width);
    }
  }
}
