/** Code widths of the GIF string table (Source/Plugins/PluginGIF.cpp:
    77-113, 366-456): the compressor and the decompressor each keep their
    codes within 12 bits and every code they handle within the current
    width, for the minimum code sizes Save writes (2 to 8) and, more
    generally, from 2 to 11. */
module GifLzwWidth {
  import opened Bytes
  import opened GifLzw

  // ---------------------------------------------------------------------
  // Compressor
  // ---------------------------------------------------------------------

  /** The compressor's table: the reserved codes of the minimum code size,
      a width from minCodeSize + 1 to 12 bits that holds every code in
      use, fewer than 4096 codes, and map entries that are codes in use
      past the end code. */
  predicate EncoderTable(s: Lzw)
  {
    && 1 <= s.minCodeSize <= 11
    && s.clearCode == Pow2(s.minCodeSize) && s.endCode == s.clearCode + 1
    && s.minCodeSize + 1 <= s.codeSize <= 12
    && s.endCode < s.nextCode <= Pow2(s.codeSize) && s.nextCode < MAX_LZW_CODE
    && MapBelow(s.strmap, s.endCode, s.nextCode)
  }

  /** Every code of the map lies strictly between lo and hi. */
  predicate MapBelow(strmap: map<nat, nat>, lo: nat, hi: nat)
  {
    forall k :: k in strmap ==> lo < strmap[k] < hi
  }

  /** The compressor between pixels: its table, pixels below the clear code
      and a prefix that is a code in use. */
  predicate EncoderOk(s: Lzw)
  {
    && Ready(s) && EncoderTable(s)
    && Pow2(s.bpp) <= s.clearCode
    && s.prefix < s.nextCode
  }

  /** A width whose power is below 4096 is below 12 bits. */
  lemma NarrowWidth(cs: nat)
    requires Pow2(cs) < MAX_LZW_CODE
    ensures cs < 12
  {
    assert Pow2(12) == MAX_LZW_CODE;
    if cs > 12 {
      PowMono(12, cs);
    }
  }

  /** The first free code after a clear fits the narrowest width: 2^m + 2
      is at most 2^(m + 1) once m >= 1. */
  lemma ClearedFits(m: nat)
    requires m >= 1
    ensures Pow2(m) + 2 <= Pow2(m + 1)
  {
    PowMono(0, m);
  }

  /** A miss keeps the table: the new entry is the next code, the width
      grows exactly when that code needs the next bit, and at 4096 codes
      the table starts over. */
  lemma InsertKeeps(s: Lzw, key: nat)
    requires EncoderTable(s) && s.partialSize >= 0
    ensures EncoderTable(Insert(s, key))
  {
    var widen := s.nextCode == Pow2(s.codeSize);
    var s1 := s.(strmap := s.strmap[key := s.nextCode],
                 codeSize := if widen then s.codeSize + 1 else s.codeSize,
                 nextCode := s.nextCode + 1);
    if s1.nextCode == MAX_LZW_CODE {
      ClearedKeeps(s1);
    } else {
      AddedKeeps(s, key);
    }
  }

  /** Below 4096 codes, the new entry takes the next code and the width
      follows it. */
  lemma AddedKeeps(s: Lzw, key: nat)
    requires EncoderTable(s) && s.nextCode + 1 < MAX_LZW_CODE
    ensures EncoderTable(s.(strmap := s.strmap[key := s.nextCode],
                            codeSize := if s.nextCode == Pow2(s.codeSize) then s.codeSize + 1 else s.codeSize,
                            nextCode := s.nextCode + 1))
  {
    if s.nextCode == Pow2(s.codeSize) {
      NarrowWidth(s.codeSize);
    }
  }

  /** The table started over, after the clear code went out. */
  lemma ClearedKeeps(t: Lzw)
    requires 1 <= t.minCodeSize <= 11 && t.clearCode == Pow2(t.minCodeSize) && t.endCode == t.clearCode + 1
    requires t.partialSize >= 0
    ensures EncoderTable(ClearCompressor(Emit(t, t.clearCode)))
  {
    ClearedFits(t.minCodeSize);
    ClearCodeBound(t.minCodeSize);
  }

  /** One pixel keeps the compressor's invariant. */
  lemma ConsumeKeeps(s: Lzw, room: nat)
    requires EncoderOk(s) && s.bufferPos < s.bufferSize
    ensures EncoderOk(Consume(s, room).0)
  {
    var ch := Pixel(s);
    PixelBound(s);
    if s.firstPixelPassed {
      var key := Key(s.prefix, ch);
      if Lookup(s.strmap, key) <= 0 {
        var f := Flush(Emit(s, s.prefix), room, []);
        FlushKeeps(Emit(s, s.prefix), room, []);
        InsertKeeps(f.0, key);
        var t := Insert(f.0, key);
        assert t.clearCode == s.clearCode && t.bpp == s.bpp;
        assert ch < t.nextCode;
      }
    }
  }

  lemma PixelStepKeeps(s: Lzw, room: nat, out: seq<byte>)
    requires EncoderOk(s) && |out| <= room && s.bufferPos < s.bufferSize
    ensures EncoderOk(PixelStep(s, room, out).s)
  {
    ConsumeKeeps(s, room - |out|);
    AdvanceOk(Consume(s, room - |out|).0);
  }

  /** Moving the cursor keeps the compressor's invariant. */
  lemma AdvanceOk(s: Lzw)
    requires EncoderOk(s) && s.bufferPos < s.bufferSize
    ensures EncoderOk(Advance(s))
  {
    AdvanceKeeps(s);
  }

  /** Compress keeps the compressor's invariant, whatever the room. */
  lemma {:induction false} CompressFromKeeps(s: Lzw, room: nat, out: seq<byte>)
    requires EncoderOk(s) && |out| <= room
    ensures EncoderOk(CompressFrom(s, room, out).0)
    decreases Cursor(s)
  {
    if s.bufferPos < s.bufferSize {
      var r := PixelStep(s, room, out);
      PixelStepKeeps(s, room, out);
      if !r.stop {
        CompressFromKeeps(r.s, room, r.out);
      }
    }
  }

  lemma CompressedKeeps(s: Lzw, len: nat)
    requires EncoderOk(s)
    ensures EncoderOk(Compressed(s, len).1)
  {
    if s.bufferSize != 0 && !s.done {
      CompressFromKeeps(s, len, []);
    }
  }

  /** Initialize followed by CompressStart, with a minimum code size from 1
      to 11 that holds the pixels (Save passes the bit depth, and 2 for
      1-bit images), starts the compressor's invariant. */
  lemma EncoderStarts(s: Lzw, m: nat, bpp: nat, width: nat)
    requires |s.strings| == MAX_LZW_CODE && 1 <= m <= 11
    requires (bpp == 1 || bpp == 2 || bpp == 4 || bpp == 8) && bpp <= m
    ensures Ready(Initial(s, m)) && Initial(s, m).bufferSize == 0
    ensures EncoderOk(Started(Initial(s, m), bpp, width))
  {
    InitializeSets(s, m);
    ClearedFits(m);
    if bpp < m {
      PowMono(bpp, m);
    }
  }

  /** New input keeps the compressor's invariant. */
  lemma FilledKeeps(s: Lzw, data: seq<byte>)
    requires EncoderOk(s)
    ensures EncoderOk(Filled(s, data))
  {
  }

  /** Every code the compressor writes fits the width it is written at:
      the prefix code, the clear code and the end code are all below
      2^codeSize, and the width is at most 12 bits. */
  lemma CodesFit(s: Lzw)
    requires EncoderOk(s)
    ensures s.prefix < Pow2(s.codeSize) && s.clearCode < s.endCode < Pow2(s.codeSize)
    ensures s.codeSize <= 12 && Pow2(s.codeSize) <= MAX_LZW_CODE
  {
    PowMono(s.minCodeSize, s.minCodeSize + 1);
    if s.minCodeSize + 1 < s.codeSize {
      PowMono(s.minCodeSize + 1, s.codeSize);
    }
    ClearedFits(s.minCodeSize);
    if s.codeSize < 12 {
      PowMono(s.codeSize, 12);
    }
    assert Pow2(12) == MAX_LZW_CODE;
  }
}
