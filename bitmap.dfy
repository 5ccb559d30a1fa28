/** The pixel memory of a FreeImage bitmap that the loaders fill in place. */
module Bitmap {
  import opened Bytes

  /** A palette entry. */
  datatype Rgba = Rgba(red: byte, green: byte, blue: byte, alpha: byte)

  /** The scanlines of a bitmap, as FreeImage_GetScanLine exposes them: row
      y holds the bytes of scanline y. */
  class Scanlines {
    var rows: seq<seq<byte>>

    /** A zero-filled bitmap of height rows of line bytes each. */
    constructor (height: nat, line: nat)
      ensures rows == seq(height, _ => seq(line, _ => 0 as byte))
    {
      rows := seq(height, _ => seq(line, _ => 0 as byte));
    }
  }

  /** A row after a pixel loop that wrote b[k] to byte k * nc + off for
      each k, one byte of each nc-byte pixel (a write past the row is
      dropped; the loaders never make one). */
  function PlaceRow(row: seq<byte>, off: nat, nc: nat, b: seq<byte>): (r: seq<byte>)
    ensures |r| == |row|
    decreases |b|
  {
    if |b| == 0 then row
    else
      var k := |b| - 1;
      var p := PlaceRow(row, off, nc, b[..k]);
      if k * nc + off < |p| then p[k * nc + off := b[k]] else p
  }

  /** Byte off of pixel k of a placed row holds b[k]. */
  lemma {:induction false} PlaceRowHit(row: seq<byte>, off: nat, nc: nat, b: seq<byte>, k: nat)
    requires off < nc && k < |b| && k * nc + off < |row|
    ensures PlaceRow(row, off, nc, b)[k * nc + off] == b[k]
    decreases |b|
  {
    var last := |b| - 1;
    if k < last {
      PlaceRowHit(row, off, nc, b[..last], k);
      assert (k + 1) * nc == k * nc + nc;
      MulLe(k + 1, last, nc);
    }
  }

  /** Every other byte of a placed row keeps its value: one at another
      offset of its pixel, or in a pixel past the end of b. */
  lemma {:induction false} PlaceRowMiss(row: seq<byte>, off: nat, nc: nat, b: seq<byte>, x: nat)
    requires off < nc && x < |row| && (x % nc != off || x / nc >= |b|)
    ensures PlaceRow(row, off, nc, b)[x] == row[x]
    decreases |b|
  {
    if |b| > 0 {
      var last := |b| - 1;
      DivModOf(last, nc, off);
      PlaceRowMiss(row, off, nc, b[..last], x);
    }
  }

  /** In particular a byte at another offset of its pixel keeps its value. */
  lemma PlaceRowOther(row: seq<byte>, off: nat, nc: nat, b: seq<byte>, k: nat, off': nat)
    requires off < nc && off' < nc && off != off' && k * nc + off' < |row|
    ensures PlaceRow(row, off, nc, b)[k * nc + off'] == row[k * nc + off']
  {
    DivModOf(k, nc, off');
    PlaceRowMiss(row, off, nc, b, k * nc + off');
  }

  /** k * nc + off is inside a row of width * nc bytes when k < width. */
  lemma PixelInRow(k: nat, width: nat, nc: nat, off: nat)
    requires k < width && off < nc
    ensures k * nc + off < width * nc
  {
    assert (k + 1) * nc == k * nc + nc;
    MulLe(k + 1, width, nc);
  }

  /** A grey palette of 256 entries: entry i is grey level i with alpha 0. */
  method GreyPalette(pal: array<Rgba>)
    requires pal.Length == 256
    modifies pal
    ensures forall i :: 0 <= i < 256 ==> pal[i] == Rgba(i as byte, i as byte, i as byte, 0)
  {
    for i := 0 to 256
      invariant forall i' :: 0 <= i' < i ==> pal[i'] == Rgba(i' as byte, i' as byte, i' as byte, 0)
    {
      pal[i] := Rgba(i as byte, i as byte, i as byte, 0);
    }
  }

  /** Fills a palette from consecutive red, green, blue triplets of src
      starting at base; alpha stays 0. */
  method FillTriplets(pal: array<Rgba>, src: seq<byte>, base: nat)
    requires base + 3 * pal.Length <= |src|
    modifies pal
    ensures forall i :: 0 <= i < pal.Length ==>
      pal[i] == Rgba(src[base + 3 * i], src[base + 3 * i + 1], src[base + 3 * i + 2], 0)
  {
    for i := 0 to pal.Length
      invariant forall i' :: 0 <= i' < i ==>
        pal[i'] == Rgba(src[base + 3 * i'], src[base + 3 * i' + 1], src[base + 3 * i' + 2], 0)
    {
      pal[i] := Rgba(src[base + 3 * i], src[base + 3 * i + 1], src[base + 3 * i + 2], 0);
    }
  }

  /** FreeImage_GetPitch: the bytes of a scanline of width pixels of
      bitCount bits, rounded up to a multiple of four. */
  function Pitch(width: nat, bitCount: nat): (p: nat)
    ensures p % 4 == 0 && (width * bitCount + 7) / 8 <= p < (width * bitCount + 7) / 8 + 4
  {
    ((width * bitCount + 7) / 8 + 3) / 4 * 4
  }

  /** A zero-filled bitmap: height scanlines of line bytes. */
  function Blank(height: nat, line: nat): (rows: seq<seq<byte>>)
    ensures |rows| == height && forall y :: 0 <= y < height ==> rows[y] == Repeat(line, 0)
  {
    seq(height, _ => Repeat(line, 0))
  }
}
