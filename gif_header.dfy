/** The GIF header fields that Load and Save convert between their file form
    and their in-memory form (Source/Plugins/PluginGIF.cpp): the signature,
    the colour-table size field, the graphic-control and image-descriptor
    packed bytes, the delay time and the Netscape loop count. */
module GifHeader {
  import opened Wrappers
  import opened Bytes

  // ---------------------------------------------------------------------
  // Signature
  // ---------------------------------------------------------------------

  const GIF89A: seq<byte> := [0x47, 0x49, 0x46, 0x38, 0x39, 0x61]
  const GIF87A: seq<byte> := [0x47, 0x49, 0x46, 0x38, 0x37, 0x61]

  /** Validate: six bytes read into a zeroed buffer, compared with "GIF89a"
      and "GIF87a". */
  predicate Validate(data: seq<byte>)
  {
    PadTo(data, 6) == GIF89A || PadTo(data, 6) == GIF87A
  }

  /** Exactly the streams that start with one of the two signatures are
      accepted. */
  lemma ValidateExactly(data: seq<byte>)
    ensures Validate(data) <==> |data| >= 6 && (data[..6] == GIF89A || data[..6] == GIF87A)
  {
    var signature := PadTo(data, 6);
    if |data| >= 6 {
      assert signature == data[..6];
    } else {
      assert signature[5] == 0;
    }
  }

  // ---------------------------------------------------------------------
  // Colour-table size field
  // ---------------------------------------------------------------------

  /** 2 << (packed & 7): the number of entries of the colour table that a
      packed byte announces (Open for the global table, Load for a local
      one). */
  function TableSize(packed: byte): (n: nat)
    ensures n == Pow2(packed as nat % 8 + 1)
  {
    AndLowBits(packed as nat, 3);
    assert Pow2(3) == 8;
    2 * Pow2(AndNat(packed as nat, 7))
  }

  /** Save's rounding of a global palette of size entries (at least 2) to a
      power of two, with the size field that announces it. */
  function PaletteField(size: int): (r: (nat, nat))
    requires size >= 2
  {
    if size < 4 then (2, 0)
    else if size < 8 then (4, 1)
    else if size < 16 then (8, 2)
    else if size < 32 then (16, 3)
    else if size < 64 then (32, 4)
    else if size < 128 then (64, 5)
    else if size < 256 then (128, 6)
    else (256, 7)
  }

  /** The field read back announces the rounded size, which is the largest
      power of two not above the palette size, capped at 256. */
  lemma PaletteFieldRounds(size: int)
    requires size >= 2
    ensures PaletteField(size).1 < 8
    ensures TableSize(PaletteField(size).1 as byte) == PaletteField(size).0
    ensures 2 <= PaletteField(size).0 <= size
    ensures size < 256 ==> size < 2 * PaletteField(size).0
    ensures size >= 256 ==> PaletteField(size).0 == 256
  {
    var f := PaletteField(size).1;
    SmallPowers();
    assert TableSize(f as byte) == Pow2(f + 1);
  }

  /** A palette of a size the field can announce survives Save and Open
      unchanged, together with its field. */
  lemma PaletteFieldRoundTrip(field: byte)
    requires field < 8
    ensures PaletteField(TableSize(field)) == (TableSize(field), field as nat)
  {
    SmallPowers();
    var n := TableSize(field);
    assert n == Pow2(field as nat + 1);
    if field == 0 { assert n == 2; }
    else if field == 1 { assert n == 4; }
    else if field == 2 { assert n == 8; }
    else if field == 3 { assert n == 16; }
    else if field == 4 { assert n == 32; }
    else if field == 5 { assert n == 64; }
    else if field == 6 { assert n == 128; }
    else { assert n == 256; }
  }

  lemma SmallPowers()
    ensures Pow2(1) == 2 && Pow2(2) == 4 && Pow2(3) == 8 && Pow2(4) == 16
    ensures Pow2(5) == 32 && Pow2(6) == 64 && Pow2(7) == 128 && Pow2(8) == 256
  {
  }

  // ---------------------------------------------------------------------
  // Graphic control extension packed byte
  // ---------------------------------------------------------------------

  /** (packed & 0x1C) >> 2: bits 2 to 4. */
  function Disposal(packed: byte): (d: nat)
    ensures d < 8
  {
    (packed as nat / 4) % 8
  }

  /** packed & 0x01. */
  predicate HaveTransparent(packed: byte)
  {
    packed % 2 == 1
  }

  /** Save: ((disposal << 2) & 0x1C), or-ed with 0x01 when the image has a
      transparent index; the two fields share no bit. */
  function GcePacked(disposal: byte, transparent: bool): (b: byte)
  {
    ((disposal as nat % 8) * 4 + (if transparent then 1 else 0)) as byte
  }

  /** Load reads back the low three bits of the disposal method Save was
      given, and the transparency flag. */
  lemma GcePackedRoundTrip(disposal: byte, transparent: bool)
    ensures Disposal(GcePacked(disposal, transparent)) == disposal as nat % 8
    ensures HaveTransparent(GcePacked(disposal, transparent)) <==> transparent
  {
  }

  // ---------------------------------------------------------------------
  // Image descriptor packed byte
  // ---------------------------------------------------------------------

  /** Save: 0x80 | ((bpp - 1) & 7) when the frame has a local palette,
      or-ed with 0x40 when it is interlaced. */
  function IdPacked(bpp: nat, localPalette: bool, interlaced: bool): (b: byte)
    requires 1 <= bpp <= 8
  {
    ((if localPalette then 0x80 + (bpp - 1) else 0) + (if interlaced then 0x40 else 0)) as byte
  }

  /** Load's depth for a colour table of size entries (without the
      GIF_LOAD256 flag): 1 bit up to 2 entries, 4 bits up to 16, else 8. */
  function LoadBpp(size: nat): (bpp: nat)
  {
    if size <= 2 then 1 else if size <= 16 then 4 else 8
  }

  /** Load reads back the interlace flag and whether the frame has a local
      palette. */
  lemma IdPackedFlags(bpp: nat, localPalette: bool, interlaced: bool)
    requires bpp == 1 || bpp == 4 || bpp == 8
    ensures (IdPacked(bpp, localPalette, interlaced) as nat / 0x40) % 2 == 1 <==> interlaced
    ensures IdPacked(bpp, localPalette, interlaced) >= 0x80 <==> localPalette
  {
    var p := IdPacked(bpp, localPalette, interlaced) as nat;
    var i := if interlaced then 0x40 else 0;
    if localPalette {
      assert p == 0x80 + i + (bpp - 1);
    } else {
      assert p == i;
    }
  }

  /** For a local palette, Load reads back its 2^bpp entries and the depth
      Save wrote. */
  lemma IdPackedPalette(bpp: nat, interlaced: bool)
    requires bpp == 1 || bpp == 4 || bpp == 8
    ensures TableSize(IdPacked(bpp, true, interlaced)) == Pow2(bpp)
    ensures LoadBpp(TableSize(IdPacked(bpp, true, interlaced))) == bpp
  {
    var p := IdPacked(bpp, true, interlaced);
    var i := if interlaced then 0x40 else 0;
    assert p as nat == 0x80 + i + (bpp - 1);
    assert p as nat % 8 == bpp - 1;
    assert TableSize(p) == Pow2(bpp);
    SmallPowers();
    if bpp == 1 {
      assert Pow2(bpp) == 2;
    } else if bpp == 4 {
      assert Pow2(bpp) == 16;
    } else {
      assert Pow2(bpp) == 256;
    }
  }

  // ---------------------------------------------------------------------
  // Delay time
  // ---------------------------------------------------------------------

  /** Load: the 16-bit field in centiseconds, as milliseconds. */
  function DelayOfField(w: nat): (ms: nat)
    requires w < 0x1_0000
    ensures ms % 10 == 0 && ms < 655360
  {
    w * 10
  }

  /** Save: (uint16_t)(delay_time / 10), with C's truncating division. */
  function FieldOfDelay(ms: int): (w: nat)
    ensures w < 0x1_0000
  {
    ToUInt16(DivTrunc(ms, 10))
  }

  /** A delay that fits the field comes back rounded down to a multiple of
      10 ms; a negative delay above -10 ms comes back as 0. */
  lemma DelayRoundTrip(ms: int)
    ensures 0 <= ms < 655360 ==> DelayOfField(FieldOfDelay(ms)) == ms - ms % 10
    ensures -10 < ms < 0 ==> DelayOfField(FieldOfDelay(ms)) == 0
  {
  }

  /** A delay from 655360 ms up wraps around modulo 2^16 centiseconds. */
  lemma DelayWraps()
    ensures DelayOfField(FieldOfDelay(655360)) == 0
    ensures DelayOfField(FieldOfDelay(-10)) == 655350
  {
  }

  // ---------------------------------------------------------------------
  // Netscape loop count
  // ---------------------------------------------------------------------

  const NETSCAPE: seq<byte> := [0x4E, 0x45, 0x54, 0x53, 0x43, 0x41, 0x50, 0x45, 0x32, 0x2E, 0x30]
  const ANIMEXTS: seq<byte> := [0x41, 0x4E, 0x49, 0x4D, 0x45, 0x58, 0x54, 0x53, 0x31, 0x2E, 0x30]

  /** Save: no application extension for a loop count of 1; otherwise the
      repeat count loop - 1 (loop itself when it is 0 or negative), capped
      at 0xFFFF and stored as a 16-bit field. */
  function RepeatsOfLoop(loop: int): (r: Option<nat>)
    ensures r.Some? ==> r.value < 0x1_0000
  {
    if loop == 1 then None
    else
      var n := if loop > 1 then loop - 1 else loop;
      Some(ToUInt16(if n > 0xFFFF then 0xFFFF else n))
  }

  /** Load: the loop count of a repeat field; 0 means forever. */
  function LoopOfRepeats(w: nat): (loop: nat)
  {
    if w > 0 then w + 1 else w
  }

  /** The bytes Save writes for a repeat field w: the extension introducer,
      the application label, the 11-byte identifier, the 3-byte data
      sub-block and the terminator. */
  function NetscapeBlock(w: nat): (b: seq<byte>)
    requires w < 0x1_0000
    ensures |b| == 19
  {
    [0x21, 0xFF, 0x0B] + NETSCAPE + [0x03, 0x01, (w % 256) as byte, (w / 256) as byte, 0x00]
  }

  /** Load's reading of the application extension whose data starts at off
      (the offset Open records, just after the label): an 11-byte
      "NETSCAPE2.0" or "ANIMEXTS1.0" block followed by a 3-byte block holds
      the repeat field in its last two bytes. */
  function RepeatsAt(data: seq<byte>, off: nat): (r: Option<nat>)
    ensures r.Some? ==> r.value < 0x1_0000
  {
    if off + 16 <= |data| && data[off] == 11 && (data[off + 1..off + 12] == NETSCAPE || data[off + 1..off + 12] == ANIMEXTS)
       && data[off + 12] == 3
    then Some(U16LE(data, off + 14))
    else None
  }

  /** Load: the first application extension that holds a repeat field
      decides the loop count; without one it is 1. */
  function LoopCount(data: seq<byte>, offsets: seq<nat>): (loop: nat)
    ensures (forall i :: 0 <= i < |offsets| ==> RepeatsAt(data, offsets[i]).None?) ==> loop == 1
    ensures forall i :: 0 <= i < |offsets| && RepeatsAt(data, offsets[i]).Some? &&
                        (forall j :: 0 <= j < i ==> RepeatsAt(data, offsets[j]).None?)
                        ==> loop == LoopOfRepeats(RepeatsAt(data, offsets[i]).value)
  {
    if |offsets| == 0 then 1
    else match RepeatsAt(data, offsets[0])
      case Some(w) => LoopOfRepeats(w)
      case None =>
        var rest := LoopCount(data, offsets[1..]);
        assert forall i :: 1 <= i < |offsets| ==> offsets[i] == offsets[1..][i - 1];
        rest
  }

  /** The block Save writes is read back as its repeat field, wherever it
      sits in the stream. */
  lemma NetscapeBlockRead(pre: seq<byte>, w: nat, post: seq<byte>)
    requires w < 0x1_0000
    ensures RepeatsAt(pre + NetscapeBlock(w) + post, |pre| + 2) == Some(w)
  {
    var data := pre + NetscapeBlock(w) + post;
    var off := |pre| + 2;
    assert data[off] == 11 && data[off + 12] == 3;
    assert data[off + 1..off + 12] == NETSCAPE;
    assert data[off + 14] as nat == w % 256 && data[off + 15] as nat == w / 256;
  }

  /** The loop count survives Save and Load whenever it fits the field
      (0 for forever, or 2 to 0x10000 repeats; 1 is written as no block). */
  lemma LoopRoundTrip(loop: int)
    requires 0 <= loop <= 0x1_0000
    ensures RepeatsOfLoop(loop).None? ==> loop == 1
    ensures RepeatsOfLoop(loop).Some? ==> LoopOfRepeats(RepeatsOfLoop(loop).value) == loop
  {
  }

  /** Larger counts come back as 0x10000 and a count of -1 wraps to 0x10000
      too. */
  lemma LoopSaturates(loop: int)
    requires loop > 0x1_0000 || loop == -1
    ensures LoopOfRepeats(RepeatsOfLoop(loop).value) == 0x1_0000
  {
  }
}
