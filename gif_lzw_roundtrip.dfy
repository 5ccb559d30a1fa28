/** The GIF string table's round trip (Source/Plugins/PluginGIF.cpp:
    77-113, 115-160, 162-179, 366-456): the bytes Compress and CompressEnd
    write, given to Decompress in one call, give back the pixels Compress
    consumed. The compressor is followed code by code; after each code it
    writes, the decompressor that reads that code has the table the
    compressor's map describes. */
module GifLzwRoundTrip {
  import opened Bytes
  import opened GifLzw
  import opened GifLzwWidth
  import opened GifLzwBits
  import opened GifLzwDecoder
  import opened GifLzwStream

  // ---------------------------------------------------------------------
  // The bits the compressor writes
  // ---------------------------------------------------------------------

  /** The accumulator's bits: the pending bits, all below 2^count. */
  predicate Holds(s: Lzw)
  {
    s.partialSize >= 0 && s.partial < Pow2(s.partialSize)
  }

  /** A code of the current width goes above the pending bits. */
  lemma EmitBits(s: Lzw, code: nat)
    requires Holds(s) && code < Pow2(s.codeSize)
    ensures Holds(Emit(s, code))
    ensures NatBits(Emit(s, code).partial, Emit(s, code).partialSize) == NatBits(s.partial, s.partialSize) + NatBits(code, s.codeSize)
  {
    Append(s.partial, s.partialSize, code, s.codeSize);
  }

  /** The lowest byte of the pending bits moved to the output keeps the
      bits in order. */
  lemma ByteOut(out: seq<byte>, p: nat, ps: nat)
    requires ps >= 8 && p < Pow2(ps)
    ensures p / 256 < Pow2(ps - 8)
    ensures BitsOf(out + [(p % 256) as byte]) + NatBits(p / 256, ps - 8) == BitsOf(out) + NatBits(p, ps)
  {
    var x := (p % 256) as byte;
    assert Pow2(8) == 256;
    Take(p, ps, 8);
    ShrDiv(p, 8);
    var lo, hi := NatBits(x as nat, 8), NatBits(p / 256, ps - 8);
    assert NatBits(p, ps) == lo + hi;
    BitsOfSnoc(out, x);
    calc {
      BitsOf(out + [x]) + hi;
      (BitsOf(out) + lo) + hi;
      BitsOf(out) + (lo + hi);
    }
  }

  /** Flush moves whole bytes from the accumulator to the output and keeps
      the bits in order. */
  lemma {:induction false} FlushBits(s: Lzw, room: nat, out: seq<byte>)
    requires Holds(s) && |out| <= room
    ensures var (t, o) := Flush(s, room, out);
      Holds(t) && BitsOf(o) + NatBits(t.partial, t.partialSize) == BitsOf(out) + NatBits(s.partial, s.partialSize)
    decreases room - |out|
  {
    if s.partialSize >= 8 && |out| < room {
      ByteOut(out, s.partial, s.partialSize);
      FlushBits(s.(partial := s.partial / 256, partialSize := s.partialSize - 8), room, out + [(s.partial % 256) as byte]);
    }
  }

  /** FlushAll likewise. */
  lemma {:induction false} FlushAllBits(s: Lzw, out: seq<byte>)
    requires Holds(s)
    ensures var (t, o) := FlushAll(s, out);
      Holds(t) && BitsOf(o) + NatBits(t.partial, t.partialSize) == BitsOf(out) + NatBits(s.partial, s.partialSize)
    decreases s.partialSize
  {
    if s.partialSize >= 8 {
      ByteOut(out, s.partial, s.partialSize);
      FlushAllBits(s.(partial := s.partial / 256, partialSize := s.partialSize - 8), out + [(s.partial % 256) as byte]);
    }
  }

  /** The zero bits that fill the last byte. */
  function Padding(count: int): (n: nat)
    ensures count >= 0 ==> (count + n) % 8 == 0 && n < 8
  {
    if count % 8 == 0 then 0 else 8 - count % 8
  }

  /** A byte less leaves the same padding. */
  lemma PaddingLess(count: int)
    ensures Padding(count - 8) == Padding(count)
  {
    var q, r := count / 8, count % 8;
    assert count == 8 * q + r;
    assert count - 8 == 8 * (q - 1) + r;
    assert (count - 8) % 8 == r;
  }

  /** Drain writes every pending bit, then zeros up to a whole byte. */
  lemma {:induction false} DrainBits(s: Lzw, out: seq<byte>)
    requires Holds(s)
    ensures BitsOf(Drain(s, out).1) == BitsOf(out) + NatBits(s.partial, s.partialSize) + NatBits(0, Padding(s.partialSize))
    decreases s.partialSize
  {
    var p, ps := s.partial, s.partialSize;
    var t := s.(partial := p / 256, partialSize := ps - 8);
    var x := (p % 256) as byte;
    if ps >= 8 {
      ByteOut(out, p, ps);
      DrainBits(t, out + [x]);
      var z := NatBits(0, Padding(ps));
      PaddingLess(ps);
      calc {
        BitsOf(Drain(s, out).1);
        BitsOf(Drain(t, out + [x]).1);
        BitsOf(out + [x]) + NatBits(p / 256, ps - 8) + z;
        (BitsOf(out + [x]) + NatBits(p / 256, ps - 8)) + z;
        (BitsOf(out) + NatBits(p, ps)) + z;
      }
    } else if ps > 0 {
      assert Drain(t, out + [x]) == (t, out + [x]);
      LastByte(out, p, ps);
    }
  }

  /** Fewer than 8 pending bits go out as one byte padded with zeros. */
  lemma LastByte(out: seq<byte>, p: nat, ps: nat)
    requires 0 < ps < 8 && p < Pow2(ps)
    ensures BitsOf(out + [(p % 256) as byte]) == BitsOf(out) + NatBits(p, ps) + NatBits(0, Padding(ps))
  {
    var x := (p % 256) as byte;
    PowMono(ps, 8);
    assert Pow2(8) == 256;
    DivModOf(0, 256, p);
    assert x as nat == p;
    assert Padding(ps) == 8 - ps;
    NatBitsWiden(p, ps, 8 - ps);
    BitsOfSnoc(out, x);
  }

  // ---------------------------------------------------------------------
  // The pixels the compressor reads
  // ---------------------------------------------------------------------

  /** The pixels from the cursor to the end of the input, in the order
      Compress reads them. */
  function Pixels(s: Lzw): (p: seq<byte>)
    requires Ready(s)
    decreases Cursor(s)
  {
    if s.bufferPos >= s.bufferSize then []
    else
      PixelBound(s);
      AdvanceKeeps(s);
      [Pixel(s) as byte] + Pixels(Advance(s))
  }

  /** The cursor moves the same way for the same input and cursor. */
  lemma AdvanceSame(s: Lzw, t: Lzw)
    requires Ready(s) && Ready(t) && s.bufferPos < s.bufferSize
    requires t.buffer == s.buffer && t.bufferSize == s.bufferSize && t.bufferPos == s.bufferPos
    requires t.bufferShift == s.bufferShift && t.bpp == s.bpp && t.slack == s.slack
    ensures Advance(t).bufferPos == Advance(s).bufferPos && Advance(t).bufferShift == Advance(s).bufferShift
  {
    if s.bufferShift > 0 && !(s.bufferPos + 1 == s.bufferSize && s.bufferShift <= s.slack) {
      assert Advance(t).bufferShift == s.bufferShift - s.bpp == Advance(s).bufferShift;
    }
  }

  /** The pixels depend only on the input and the cursor. */
  lemma {:induction false} PixelsFrame(s: Lzw, t: Lzw)
    requires Ready(s) && Ready(t)
    requires t.buffer == s.buffer && t.bufferSize == s.bufferSize && t.bufferPos == s.bufferPos
    requires t.bufferShift == s.bufferShift && t.bpp == s.bpp && t.slack == s.slack
    ensures Pixels(t) == Pixels(s)
    decreases Cursor(s)
  {
    if s.bufferPos < s.bufferSize {
      AdvanceKeeps(s);
      AdvanceKeeps(t);
      assert Pixel(t) == Pixel(s);
      AdvanceSame(s, t);
      PixelsFrame(Advance(s), Advance(t));
    }
  }

  // ---------------------------------------------------------------------
  // The codes written so far and the decompressor that reads them
  // ---------------------------------------------------------------------

  /** The compressor's bytes so far and its pending bits, read as bits. */
  predicate Streamed(bits: seq<bool>, e: Lzw, bytes: seq<byte>)
  {
    Holds(e) && BitsOf(bytes) + NatBits(e.partial, e.partialSize) == bits
  }

  /** A code of the current width goes after the bits so far. */
  lemma EmitStreamed(bits: seq<bool>, e: Lzw, bytes: seq<byte>, c: nat)
    requires Streamed(bits, e, bytes) && c < Pow2(e.codeSize)
    ensures Streamed(bits + NatBits(c, e.codeSize), Emit(e, c), bytes)
  {
    EmitBits(e, c);
    var b, p := BitsOf(bytes), NatBits(e.partial, e.partialSize);
    assert b + (p + NatBits(c, e.codeSize)) == (b + p) + NatBits(c, e.codeSize);
  }

  /** Bytes moved from the accumulator to the output keep the bits. */
  lemma FlushStreamed(bits: seq<bool>, e: Lzw, bytes: seq<byte>, len: nat)
    requires Streamed(bits, e, bytes)
    ensures Streamed(bits, Flush(e, len, []).0, bytes + Flush(e, len, []).1)
  {
    var f := Flush(e, len, []);
    FlushBits(e, len, []);
    BitsOfAppend(bytes, f.1);
    var b, o, p := BitsOf(bytes), BitsOf(f.1), NatBits(f.0.partial, f.0.partialSize);
    assert (b + o) + p == b + (o + p);
    assert BitsOf([]) == [];
  }

  /** The codes written so far: a decompressor that starts at d0 reads them
      from bits and reaches r. */
  predicate Decodes(d0: Lzw, codes: seq<nat>, room: nat, r: Step, bits: seq<bool>)
  {
    && Ready(d0)
    && RunFrom(d0, codes, room, []) == r
    && StreamFrom(d0, codes, room, []) == bits
    && FitsFrom(d0, codes, room, [])
  }

  /** One more code of the decompressor's current width. */
  lemma Sent(d0: Lzw, codes: seq<nat>, room: nat, r: Step, bits: seq<bool>, c: nat)
    requires Decodes(d0, codes, room, r, bits) && !r.stop && c < Pow2(r.s.codeSize)
    ensures Decodes(d0, codes + [c], room, Apply(r.s, c, room, r.out), bits + NatBits(c, r.s.codeSize))
  {
    RunSnoc(d0, codes, c, room, []);
  }

  // ---------------------------------------------------------------------
  // The compressor's map and the decompressor's strings
  // ---------------------------------------------------------------------

  /** A key names its prefix code and its pixel. */
  lemma KeyParts(p: nat, ch: nat)
    requires p < MAX_LZW_CODE && ch < 256
    ensures Key(p, ch) / 256 == p && Key(p, ch) % 256 == ch
  {
    DivModOf(0, MAX_LZW_CODE, p);
    DivModOf(p, 256, ch);
  }

  /** The one-pixel strings of the codes below the clear code. */
  predicate Singles(d: Lzw)
  {
    && |d.strings| == MAX_LZW_CODE && d.clearCode <= MAX_LZW_CODE
    && forall i :: 0 <= i < d.clearCode ==> d.strings[i] == [(i % 256) as byte]
  }

  /** The strings the decompressor holds once it reads its next code: the
      entry it then adds, the previous string and lead, the first pixel of
      the compressor's prefix. */
  function Ahead(d: Lzw, lead: byte): seq<seq<byte>>
    requires |d.strings| == MAX_LZW_CODE && d.oldCode < MAX_LZW_CODE && d.nextCode < MAX_LZW_CODE
  {
    d.strings[d.nextCode := d.strings[d.oldCode] + [lead]]
  }

  /** Each key of the compressor's map names a later code whose string is
      the string of the key's prefix code followed by its pixel. */
  predicate MapStrings(strmap: map<nat, nat>, t: seq<seq<byte>>)
    requires |t| == MAX_LZW_CODE
  {
    forall p, ch :: 0 <= p < MAX_LZW_CODE && 0 <= ch < 256 && Key(p, ch) in strmap ==>
      p < strmap[Key(p, ch)] < MAX_LZW_CODE && t[strmap[Key(p, ch)]] == t[p] + [ch as byte]
  }

  /** Right after a clear: both sides have the first free code after the
      end code and the narrowest width, the map is empty, and the prefix,
      if any, is a single pixel the decompressor has not read yet. */
  predicate Fresh(e: Lzw, d: Lzw, done: seq<byte>, out: seq<byte>)
  {
    && e.nextCode == d.nextCode == d.endCode + 1 && e.strmap == map[]
    && d.codeSize == d.minCodeSize + 1
    && (e.firstPixelPassed ==> e.prefix < Pow2(e.bpp) && e.prefix < 256 && out + [e.prefix as byte] == done)
    && (!e.firstPixelPassed ==> out == done)
  }

  /** Later: the compressor is one code ahead of the decompressor, which
      will define that code from its previous string once it reads the
      prefix, and the prefix's string is what the decompressor has yet to
      write of the pixels consumed. */
  predicate Follows(e: Lzw, d: Lzw, done: seq<byte>, out: seq<byte>, lead: byte)
    requires |d.strings| == MAX_LZW_CODE
  {
    && e.firstPixelPassed
    && d.oldCode < d.nextCode && e.nextCode == d.nextCode + 1 && e.nextCode < MAX_LZW_CODE
    && |d.strings[d.oldCode]| >= 1 && e.prefix < MAX_LZW_CODE
    && var t := Ahead(d, lead);
       && |t[e.prefix]| >= 1 && t[e.prefix][0] == lead && out + t[e.prefix] == done
       && MapStrings(e.strmap, t)
  }

  /** The compressor e and the decompressor d that has read its codes so
      far: the same reserved codes and width, and, of the pixels consumed,
      done, the decompressor has written out. */
  predicate Mirrors(e: Lzw, d: Lzw, done: seq<byte>, out: seq<byte>, lead: byte)
  {
    && EncoderOk(e) && DecoderOk(d) && Singles(d) && !d.done
    && e.minCodeSize == d.minCodeSize && e.codeSize == d.codeSize
    && (e.prefix < e.clearCode || e.endCode < e.prefix)
    && if d.oldCode == MAX_LZW_CODE then Fresh(e, d, done, out) else Follows(e, d, done, out, lead)
  }

  // ---------------------------------------------------------------------
  // The decompressor reading the compressor's codes
  // ---------------------------------------------------------------------

  /** Right after a clear, the prefix is a single pixel: the decompressor
      writes it and takes it as its previous code, without a new entry. */
  lemma ReadFresh(e: Lzw, d: Lzw, done: seq<byte>, out: seq<byte>, lead: byte, room: nat)
    requires Mirrors(e, d, done, out, lead) && d.oldCode == MAX_LZW_CODE && e.firstPixelPassed && |done| <= room
    ensures |out| <= room && Apply(d, e.prefix, room, out) == Step(d.(oldCode := e.prefix), done, false)
  {
    var p := e.prefix;
    assert Classify(d, p) == Entry;
    assert AddEntry(d, p) == d;
    DivModOf(0, 256, p);
    assert d.strings[p] == [p as byte];
    assert Grow(d) == d;
  }

  /** Later, the decompressor adds the entry the compressor added before
      this code, which gives the strings Ahead, then writes the prefix's
      string and takes the prefix as its previous code. */
  lemma ReadFollow(e: Lzw, d: Lzw, done: seq<byte>, out: seq<byte>, lead: byte, room: nat)
    requires Mirrors(e, d, done, out, lead) && d.oldCode != MAX_LZW_CODE && |done| <= room
    ensures |out| <= room
    ensures Apply(d, e.prefix, room, out) == Step(Grow(d.(strings := Ahead(d, lead))).(oldCode := e.prefix), done, false)
  {
    var p := e.prefix;
    var t := Ahead(d, lead);
    assert Classify(d, p) == Entry;
    var source := if p == d.nextCode then d.oldCode else p;
    assert FirstByte(d.strings[source]) == lead;
    assert AddEntry(d, p) == d.(strings := t);
  }

  /** The clear code resets the decompressor's table. */
  lemma ReadClear(d: Lzw, room: nat, out: seq<byte>)
    requires DecoderOk(d) && |out| <= room
    ensures Apply(d, d.clearCode, room, out) == Step(ClearDecompressor(d), out, false)
  {
    assert Classify(d, d.clearCode) == Clear;
  }

  /** Growing after a new entry below the last code: the next free code
      moves on, and the width grows when that code is 2^width. */
  lemma GrowNext(x: Lzw)
    requires DecoderOk(x) && x.oldCode != MAX_LZW_CODE && x.nextCode + 1 < MAX_LZW_CODE
    ensures DecoderOk(Grow(x)) && Grow(x).nextCode == x.nextCode + 1
    ensures Grow(x).codeSize == if x.nextCode + 1 == Pow2(x.codeSize) then x.codeSize + 1 else x.codeSize
  {
    WidenWhen(x);
    GrowKeeps(x);
    if x.nextCode + 1 == Pow2(x.codeSize) {
      WidenTo(x);
    } else {
      StayTo(x);
    }
  }

  // ---------------------------------------------------------------------
  // Each pixel keeps the correspondence
  // ---------------------------------------------------------------------

  /** The image's first pixel starts the prefix; nothing is written. */
  lemma FirstMirrors(e: Lzw, d: Lzw, done: seq<byte>, out: seq<byte>, lead: byte, ch: nat)
    requires Mirrors(e, d, done, out, lead) && !e.firstPixelPassed && ch < Pow2(e.bpp)
    ensures ch < 256
    ensures Mirrors(e.(firstPixelPassed := true, prefix := ch), d, done + [ch as byte], out, lead)
  {
    if e.bpp < 8 {
      PowMono(e.bpp, 8);
    }
  }

  /** A pixel that extends the prefix to a string in the map: the longer
      string's code becomes the prefix. */
  lemma HitMirrors(e: Lzw, d: Lzw, done: seq<byte>, out: seq<byte>, lead: byte, ch: nat)
    requires Mirrors(e, d, done, out, lead) && e.firstPixelPassed && ch < 256
    requires Lookup(e.strmap, Key(e.prefix, ch)) > 0
    ensures Mirrors(e.(prefix := e.strmap[Key(e.prefix, ch)]), d, done + [ch as byte], out, lead)
  {
    var key := Key(e.prefix, ch);
    assert key in e.strmap;
    assert d.oldCode != MAX_LZW_CODE;
    var t := Ahead(d, lead);
    var c := e.strmap[key];
    assert t[c] == t[e.prefix] + [ch as byte];
    assert out + t[c] == done + [ch as byte];
  }

  /** The map of a single key after a clear. */
  lemma SingleMap(p: nat, ch: nat, n: nat, t: seq<seq<byte>>)
    requires p < n < MAX_LZW_CODE && ch < 256 && |t| == MAX_LZW_CODE && t[n] == t[p] + [ch as byte]
    ensures MapStrings(map[Key(p, ch) := n], t)
  {
    forall p', ch' | 0 <= p' < MAX_LZW_CODE && 0 <= ch' < 256 && Key(p', ch') in map[Key(p, ch) := n]
      ensures p' == p && ch' == ch
    {
      KeyParts(p', ch');
      KeyParts(p, ch);
    }
  }

  /** Insert below the last code: the pair gets the next code, and the
      width grows when that code is 2^width. */
  lemma InsertBelow(s: Lzw, key: nat)
    requires s.partialSize >= 0 && s.codeSize >= 1 && s.nextCode + 1 < MAX_LZW_CODE
    ensures Insert(s, key) == s.(strmap := s.strmap[key := s.nextCode],
                                 codeSize := if s.nextCode == Pow2(s.codeSize) then s.codeSize + 1 else s.codeSize,
                                 nextCode := s.nextCode + 1)
  {
  }



  /** A new key for the next code, whose string is the prefix's string and
      the pixel, keeps every other key's string. */
  lemma MapExtend(strmap: map<nat, nat>, lo: nat, t: seq<seq<byte>>, p: nat, ch: nat, n: nat)
    requires |t| == MAX_LZW_CODE && MapStrings(strmap, t) && MapBelow(strmap, lo, n)
    requires p < n < MAX_LZW_CODE && ch < 256
    ensures MapStrings(strmap[Key(p, ch) := n], t[n := t[p] + [ch as byte]])
  {
    var m, t2 := strmap[Key(p, ch) := n], t[n := t[p] + [ch as byte]];
    forall p', ch' | 0 <= p' < MAX_LZW_CODE && 0 <= ch' < 256 && Key(p', ch') in m
      ensures p' < m[Key(p', ch')] < MAX_LZW_CODE && t2[m[Key(p', ch')]] == t2[p'] + [ch' as byte]
    {
      if Key(p', ch') == Key(p, ch) {
        KeyParts(p', ch');
        KeyParts(p, ch);
      } else {
        assert Key(p', ch') in strmap;
      }
    }
  }

  /** The decompressor after it reads the prefix p, later on: the strings
      Ahead, the next free code one on, the width grown at 2^width, and p
      as the previous code. */
  lemma FollowRead(d: Lzw, lead: byte, p: nat)
    requires DecoderOk(d) && Singles(d) && !d.done && d.oldCode < d.nextCode && d.nextCode + 1 < MAX_LZW_CODE
    requires |d.strings[d.oldCode]| >= 1 && p < d.nextCode + 1
    ensures var d2 := Grow(d.(strings := Ahead(d, lead))).(oldCode := p);
      && DecoderOk(d2) && Singles(d2) && !d2.done
      && d2.strings == Ahead(d, lead) && d2.nextCode == d.nextCode + 1 && d2.oldCode == p
      && d2.minCodeSize == d.minCodeSize && d2.clearCode == d.clearCode && d2.endCode == d.endCode
      && d2.codeSize == if d.nextCode + 1 == Pow2(d.codeSize) then d.codeSize + 1 else d.codeSize
  {
    var x := d.(strings := Ahead(d, lead));
    assert DecoderOk(x);
    GrowNext(x);
  }

  /** The compressor after a miss below the last code: the pair gets the
      next code, the width grows when that code is 2^width, and the pixel
      is the new prefix. */
  lemma InsertNext(e: Lzw, e1: Lzw, ch: nat)
    requires EncoderOk(e) && e.firstPixelPassed && e.nextCode + 1 < MAX_LZW_CODE && ch < Pow2(e.bpp) && ch < 256
    requires e1 == e.(partial := e1.partial, partialSize := e1.partialSize) && e1.partialSize >= 0
    ensures var e2 := Insert(e1, Key(e.prefix, ch)).(prefix := ch);
      && EncoderOk(e2) && e2.firstPixelPassed && e2.prefix == ch
      && e2.strmap == e.strmap[Key(e.prefix, ch) := e.nextCode] && e2.nextCode == e.nextCode + 1
      && e2.codeSize == (if e.nextCode == Pow2(e.codeSize) then e.codeSize + 1 else e.codeSize)
      && e2.minCodeSize == e.minCodeSize && e2.clearCode == e.clearCode && e2.endCode == e.endCode
  {
    var key := Key(e.prefix, ch);
    InsertKeeps(e1, key);
    InsertBelow(e1, key);
  }

  /** The correspondence later on, from its parts: the decompressor will
      define the compressor's last code from its previous string and the
      prefix's pixel ch, and every string in the compressor's map is the
      decompressor's. */
  lemma FollowsAfter(e2: Lzw, d2: Lzw, done: seq<byte>, ch: nat)
    requires EncoderOk(e2) && DecoderOk(d2) && Singles(d2) && !d2.done
    requires e2.minCodeSize == d2.minCodeSize && e2.codeSize == d2.codeSize && e2.firstPixelPassed
    requires d2.oldCode < d2.nextCode && e2.nextCode == d2.nextCode + 1 && |d2.strings[d2.oldCode]| >= 1
    requires e2.prefix == ch < e2.clearCode && ch < 256
    requires MapStrings(e2.strmap, Ahead(d2, ch as byte))
    ensures Mirrors(e2, d2, done + [ch as byte], done, ch as byte)
  {
    DivModOf(0, 256, ch);
    assert Ahead(d2, ch as byte)[ch] == [ch as byte];
  }

  /** A miss right after a clear: the compressor gives the pair the first
      free code, and the decompressor, having read the single pixel, will
      define that code from it and the new prefix's pixel. The compressor
      e1 is e with its accumulator flushed. */
  lemma FreshMiss(e: Lzw, e1: Lzw, d: Lzw, done: seq<byte>, out: seq<byte>, lead: byte, ch: nat)
    requires Mirrors(e, d, done, out, lead) && d.oldCode == MAX_LZW_CODE && e.firstPixelPassed
    requires ch < Pow2(e.bpp) && ch < 256
    requires e1 == e.(partial := e1.partial, partialSize := e1.partialSize) && e1.partialSize >= 0
    ensures Mirrors(Insert(e1, Key(e.prefix, ch)).(prefix := ch), d.(oldCode := e.prefix), done + [ch as byte], done, ch as byte)
  {
    var p, n := e.prefix, e.nextCode;
    FirstCodeNarrow(e.minCodeSize);
    ClearCodeBound(e.minCodeSize);
    InsertNext(e, e1, ch);
    var d2 := d.(oldCode := p);
    SingleMap(p, ch, n, Ahead(d2, ch as byte));
    FollowsAfter(Insert(e1, Key(p, ch)).(prefix := ch), d2, done, ch);
  }

  /** A miss later on, below the last code: the compressor gives the pair
      its next code, and the decompressor, having read the prefix and added
      the entry before it, will define that code from the prefix's string
      and the new prefix's pixel. The width grows on both sides at the
      same code. The compressor e1 is e with its accumulator flushed. */
  lemma FollowMiss(e: Lzw, e1: Lzw, d: Lzw, done: seq<byte>, out: seq<byte>, lead: byte, ch: nat)
    requires Mirrors(e, d, done, out, lead) && d.oldCode != MAX_LZW_CODE && e.nextCode + 1 < MAX_LZW_CODE
    requires ch < Pow2(e.bpp) && ch < 256
    requires e1 == e.(partial := e1.partial, partialSize := e1.partialSize) && e1.partialSize >= 0
    ensures Mirrors(Insert(e1, Key(e.prefix, ch)).(prefix := ch), Grow(d.(strings := Ahead(d, lead))).(oldCode := e.prefix),
                    done + [ch as byte], done, ch as byte)
  {
    var t := Ahead(d, lead);
    FollowRead(d, lead, e.prefix);
    InsertNext(e, e1, ch);
    MapExtend(e.strmap, e.endCode, t, e.prefix, ch, e.nextCode);
    FollowsAfter(Insert(e1, Key(e.prefix, ch)).(prefix := ch), Grow(d.(strings := t)).(oldCode := e.prefix), done, ch);
  }


  /** The correspondence right after a clear, from its parts: both sides
      at the first free code and the narrowest width, an empty map, and
      the single pixel ch as the prefix. */
  lemma FreshAfter(e2: Lzw, d2: Lzw, done: seq<byte>, ch: nat, lead: byte)
    requires EncoderOk(e2) && DecoderOk(d2) && Singles(d2) && !d2.done && d2.oldCode == MAX_LZW_CODE
    requires e2.minCodeSize == d2.minCodeSize && e2.codeSize == d2.codeSize == d2.minCodeSize + 1
    requires e2.nextCode == d2.nextCode == d2.endCode + 1 && e2.strmap == map[] && e2.firstPixelPassed
    requires e2.prefix == ch < Pow2(e2.bpp) && ch < 256
    ensures Mirrors(e2, d2, done + [ch as byte], done, lead)
  {
  }

  /** 4095 is odd, so no width's power. */
  lemma LastNotPower(cs: nat)
    requires cs >= 1
    ensures Pow2(cs) != MAX_LZW_CODE - 1
  {
  }

  /** The compressor's last code: 4096 codes in use, so the clear code goes
      out at the width the last code needed, and the table starts over. */
  lemma InsertLast(s: Lzw, key: nat)
    requires s.partialSize >= 0 && s.codeSize >= 1 && s.nextCode + 1 == MAX_LZW_CODE
    ensures Insert(s, key) == ClearCompressor(Emit(s.(strmap := s.strmap[key := s.nextCode], nextCode := MAX_LZW_CODE), s.clearCode))
  {
    LastNotPower(s.codeSize);
  }

  /** The compressor after a miss that uses the last code: the table
      started over with the pixel as the prefix. */
  lemma InsertRestarts(e: Lzw, e1: Lzw, ch: nat)
    requires EncoderOk(e) && e.firstPixelPassed && e.nextCode + 1 == MAX_LZW_CODE && ch < Pow2(e.bpp) && ch < 256
    requires e1 == e.(partial := e1.partial, partialSize := e1.partialSize) && e1.partialSize >= 0
    ensures var e2 := Insert(e1, Key(e.prefix, ch)).(prefix := ch);
      && EncoderOk(e2) && e2.firstPixelPassed && e2.prefix == ch && e2.bpp == e.bpp
      && e2.strmap == map[] && e2.nextCode == e.endCode + 1 && e2.codeSize == e.minCodeSize + 1
      && e2.minCodeSize == e.minCodeSize
  {
    var key := Key(e.prefix, ch);
    InsertLast(e1, key);
    ClearedKeeps(e1.(strmap := e1.strmap[key := e1.nextCode], nextCode := MAX_LZW_CODE));
  }

  /** The decompressor after it reads the prefix p and then the clear code:
      its table started over. */
  lemma ReadRestarts(d: Lzw, lead: byte, p: nat)
    requires DecoderOk(d) && Singles(d) && !d.done && d.oldCode < d.nextCode && d.nextCode + 1 < MAX_LZW_CODE
    requires |d.strings[d.oldCode]| >= 1 && p < d.nextCode + 1
    ensures var d3 := ClearDecompressor(Grow(d.(strings := Ahead(d, lead))).(oldCode := p));
      && DecoderOk(d3) && Singles(d3) && !d3.done && d3.oldCode == MAX_LZW_CODE
      && d3.codeSize == d3.minCodeSize + 1 && d3.nextCode == d3.endCode + 1
      && d3.minCodeSize == d.minCodeSize && d3.endCode == d.endCode
  {
    FollowRead(d, lead, p);
    ClearKeeps(Grow(d.(strings := Ahead(d, lead))).(oldCode := p));
  }

  /** A miss that uses the last code: after the decompressor reads the
      prefix as in FollowMiss, both sides are at the same width, and the
      clear code that follows starts both tables over, with the pixel as
      the prefix. */
  lemma LastMiss(e: Lzw, e1: Lzw, d: Lzw, done: seq<byte>, out: seq<byte>, lead: byte, ch: nat)
    requires Mirrors(e, d, done, out, lead) && d.oldCode != MAX_LZW_CODE && e.nextCode + 1 == MAX_LZW_CODE
    requires ch < Pow2(e.bpp) && ch < 256
    requires e1 == e.(partial := e1.partial, partialSize := e1.partialSize) && e1.partialSize >= 0
    ensures var d2 := Grow(d.(strings := Ahead(d, lead))).(oldCode := e.prefix);
      && DecoderOk(d2) && !d2.done
      && d2.codeSize == e.codeSize && e.clearCode < Pow2(d2.codeSize)
      && Mirrors(Insert(e1, Key(e.prefix, ch)).(prefix := ch), ClearDecompressor(d2), done + [ch as byte], done, ch as byte)
  {
    FollowRead(d, lead, e.prefix);
    ReadRestarts(d, lead, e.prefix);
    InsertRestarts(e, e1, ch);
    CodesFit(e);
    LastNotPower(e.codeSize);
    FreshAfter(Insert(e1, Key(e.prefix, ch)).(prefix := ch), ClearDecompressor(Grow(d.(strings := Ahead(d, lead))).(oldCode := e.prefix)), done, ch, ch as byte);
  }


  // ---------------------------------------------------------------------
  // One pixel of Compress, and the decompressor reading along
  // ---------------------------------------------------------------------

  /** Between pixels: the bytes out so far and the pending bits are the
      stream of codes, the decompressor that read them has not stopped and
      mirrors the compressor, and done, the pixels consumed, fits the
      decompressor's output. */
  predicate Encoded(e: Lzw, out: seq<byte>, d0: Lzw, codes: seq<nat>, room: nat, r: Step, bits: seq<bool>,
                    done: seq<byte>, lead: byte)
  {
    && Decodes(d0, codes, room, r, bits) && !r.stop
    && Streamed(bits, e, out)
    && Mirrors(e, r.s, done, r.out, lead)
    && |done| <= room
  }

  /** The pixel of a miss: the table part of Consume. */
  lemma MissConsume(e: Lzw, len: nat)
    requires Ready(e) && e.bufferPos < e.bufferSize && e.firstPixelPassed
    requires Pixel(e) < 256 && Lookup(e.strmap, Key(e.prefix, Pixel(e))) <= 0
    ensures var f := Flush(Emit(e, e.prefix), len, []);
      && f.0.partialSize >= 0 && f.0.codeSize >= 1
      && Consume(e, len) == (Insert(f.0, Key(e.prefix, Pixel(e))).(prefix := Pixel(e)), f.1)
  {
    FlushKeeps(Emit(e, e.prefix), len, []);
  }

  /** The prefix code of a miss, written and flushed by the compressor and
      read by the decompressor. */
  lemma MissSend(e: Lzw, out: seq<byte>, d0: Lzw, codes: seq<nat>, room: nat, r: Step, bits: seq<bool>, len: nat)
    requires Decodes(d0, codes, room, r, bits) && !r.stop && Streamed(bits, e, out)
    requires EncoderOk(e) && e.codeSize == r.s.codeSize
    ensures var f := Flush(Emit(e, e.prefix), len, []);
      && Decodes(d0, codes + [e.prefix], room, Apply(r.s, e.prefix, room, r.out), bits + NatBits(e.prefix, e.codeSize))
      && Streamed(bits + NatBits(e.prefix, e.codeSize), f.0, out + f.1)
      && f.0 == e.(partial := f.0.partial, partialSize := f.0.partialSize) && f.0.partialSize >= 0
  {
    CodesFit(e);
    Sent(d0, codes, room, r, bits, e.prefix);
    EmitStreamed(bits, e, out, e.prefix);
    FlushStreamed(bits + NatBits(e.prefix, e.codeSize), Emit(e, e.prefix), out, len);
    FlushKeeps(Emit(e, e.prefix), len, []);
  }

  /** A miss right after a clear: one more code, the single pixel. */
  lemma FreshRound(e: Lzw, out: seq<byte>, d0: Lzw, codes: seq<nat>, room: nat, r: Step, bits: seq<bool>,
                   done: seq<byte>, lead: byte, len: nat) returns (codes2: seq<nat>, r2: Step, bits2: seq<bool>)
    requires Encoded(e, out, d0, codes, room, r, bits, done, lead) && r.s.oldCode == MAX_LZW_CODE
    requires e.bufferPos < e.bufferSize && e.firstPixelPassed && Pixel(e) < Pow2(e.bpp) && Pixel(e) < 256
    requires Lookup(e.strmap, Key(e.prefix, Pixel(e))) <= 0 && |done| < room
    ensures var c := Consume(e, len);
      Encoded(c.0, out + c.1, d0, codes2, room, r2, bits2, done + [Pixel(e) as byte], Pixel(e) as byte)
  {
    var f := Flush(Emit(e, e.prefix), len, []);
    MissConsume(e, len);
    MissSend(e, out, d0, codes, room, r, bits, len);
    ReadFresh(e, r.s, done, r.out, lead, room);
    FreshMiss(e, f.0, r.s, done, r.out, lead, Pixel(e));
    ClearCodeBound(e.minCodeSize);
    InsertBelow(f.0, Key(e.prefix, Pixel(e)));
    codes2, r2, bits2 := codes + [e.prefix], Apply(r.s, e.prefix, room, r.out), bits + NatBits(e.prefix, e.codeSize);
  }

  /** A miss later on, below the last code: one more code, the prefix. */
  lemma FollowRound(e: Lzw, out: seq<byte>, d0: Lzw, codes: seq<nat>, room: nat, r: Step, bits: seq<bool>,
                    done: seq<byte>, lead: byte, len: nat) returns (codes2: seq<nat>, r2: Step, bits2: seq<bool>)
    requires Encoded(e, out, d0, codes, room, r, bits, done, lead) && r.s.oldCode != MAX_LZW_CODE
    requires e.bufferPos < e.bufferSize && e.nextCode + 1 < MAX_LZW_CODE && Pixel(e) < Pow2(e.bpp) && Pixel(e) < 256
    requires e.firstPixelPassed && Lookup(e.strmap, Key(e.prefix, Pixel(e))) <= 0 && |done| < room
    ensures var c := Consume(e, len);
      Encoded(c.0, out + c.1, d0, codes2, room, r2, bits2, done + [Pixel(e) as byte], Pixel(e) as byte)
  {
    var f := Flush(Emit(e, e.prefix), len, []);
    MissConsume(e, len);
    MissSend(e, out, d0, codes, room, r, bits, len);
    ReadFollow(e, r.s, done, r.out, lead, room);
    FollowMiss(e, f.0, r.s, done, r.out, lead, Pixel(e));
    InsertBelow(f.0, Key(e.prefix, Pixel(e)));
    codes2, r2, bits2 := codes + [e.prefix], Apply(r.s, e.prefix, room, r.out), bits + NatBits(e.prefix, e.codeSize);
  }

  /** A miss that uses the last code: two more codes, the prefix and the
      clear code. */
  lemma LastRound(e: Lzw, out: seq<byte>, d0: Lzw, codes: seq<nat>, room: nat, r: Step, bits: seq<bool>,
                  done: seq<byte>, lead: byte, len: nat) returns (codes2: seq<nat>, r2: Step, bits2: seq<bool>)
    requires Encoded(e, out, d0, codes, room, r, bits, done, lead) && r.s.oldCode != MAX_LZW_CODE
    requires e.bufferPos < e.bufferSize && e.nextCode + 1 == MAX_LZW_CODE && Pixel(e) < Pow2(e.bpp) && Pixel(e) < 256
    requires e.firstPixelPassed && Lookup(e.strmap, Key(e.prefix, Pixel(e))) <= 0 && |done| < room
    ensures var c := Consume(e, len);
      Encoded(c.0, out + c.1, d0, codes2, room, r2, bits2, done + [Pixel(e) as byte], Pixel(e) as byte)
  {
    var p, key := e.prefix, Key(e.prefix, Pixel(e));
    var f := Flush(Emit(e, p), len, []);
    MissConsume(e, len);
    MissSend(e, out, d0, codes, room, r, bits, len);
    ReadFollow(e, r.s, done, r.out, lead, room);
    LastMiss(e, f.0, r.s, done, r.out, lead, Pixel(e));
    var a := Apply(r.s, p, room, r.out);
    var bits1 := bits + NatBits(p, e.codeSize);
    var s1 := f.0.(strmap := f.0.strmap[key := f.0.nextCode], nextCode := MAX_LZW_CODE);
    InsertLast(f.0, key);
    Sent(d0, codes + [p], room, a, bits1, e.clearCode);
    ReadClear(a.s, room, done);
    EmitStreamed(bits1, s1, out + f.1, e.clearCode);
    codes2, r2, bits2 := codes + [p] + [e.clearCode], Step(ClearDecompressor(a.s), done, false), bits1 + NatBits(e.clearCode, s1.codeSize);
  }

  /** The image's first pixel: no code. */
  lemma FirstRound(e: Lzw, out: seq<byte>, d0: Lzw, codes: seq<nat>, room: nat, r: Step, bits: seq<bool>,
                   done: seq<byte>, lead: byte, len: nat)
    requires Encoded(e, out, d0, codes, room, r, bits, done, lead)
    requires e.bufferPos < e.bufferSize && !e.firstPixelPassed && Pixel(e) < Pow2(e.bpp) && Pixel(e) < 256 && |done| < room
    ensures var c := Consume(e, len);
      c.1 == [] && Encoded(c.0, out, d0, codes, room, r, bits, done + [Pixel(e) as byte], lead)
  {
    FirstMirrors(e, r.s, done, r.out, lead, Pixel(e));
  }

  /** A pixel that extends the prefix: no code. */
  lemma HitRound(e: Lzw, out: seq<byte>, d0: Lzw, codes: seq<nat>, room: nat, r: Step, bits: seq<bool>,
                 done: seq<byte>, lead: byte, len: nat)
    requires Encoded(e, out, d0, codes, room, r, bits, done, lead)
    requires e.bufferPos < e.bufferSize && e.firstPixelPassed && Pixel(e) < 256 && |done| < room
    requires Lookup(e.strmap, Key(e.prefix, Pixel(e))) > 0
    ensures var c := Consume(e, len);
      c.1 == [] && Encoded(c.0, out, d0, codes, room, r, bits, done + [Pixel(e) as byte], lead)
  {
    HitMirrors(e, r.s, done, r.out, lead, Pixel(e));
  }

  /** Consume keeps the pixel depth and marks the first pixel passed. */
  lemma ConsumeDepth(e: Lzw, len: nat)
    requires Ready(e) && e.bufferPos < e.bufferSize
    ensures Consume(e, len).0.bpp == e.bpp && Consume(e, len).0.firstPixelPassed
  {
    if e.firstPixelPassed {
      PixelBound(e);
      if Lookup(e.strmap, Key(e.prefix, Pixel(e))) <= 0 {
        FlushKeeps(Emit(e, e.prefix), len, []);
      }
    }
  }

  /** Moving the cursor changes nothing the correspondence is about. */
  lemma AdvanceEncoded(e: Lzw, out: seq<byte>, d0: Lzw, codes: seq<nat>, room: nat, r: Step, bits: seq<bool>,
                       done: seq<byte>, lead: byte)
    requires Encoded(e, out, d0, codes, room, r, bits, done, lead) && e.bufferPos < e.bufferSize
    ensures Encoded(Advance(e), out, d0, codes, room, r, bits, done, lead)
  {
    AdvanceOk(e);
  }

  /** One pixel before the cursor moves, in each of its cases: the bytes
      Consume writes carry the codes the decompressor reads to catch up. */
  lemma ConsumeRound(e: Lzw, out: seq<byte>, d0: Lzw, codes: seq<nat>, room: nat, r: Step, bits: seq<bool>,
                     done: seq<byte>, lead: byte, len: nat)
    returns (codes2: seq<nat>, r2: Step, bits2: seq<bool>, lead2: byte)
    requires Encoded(e, out, d0, codes, room, r, bits, done, lead) && e.bufferPos < e.bufferSize && |done| < room
    ensures Pixel(e) < 256
    ensures var c := Consume(e, len);
      Encoded(c.0, out + c.1, d0, codes2, room, r2, bits2, done + [Pixel(e) as byte], lead2)
  {
    PixelBound(e);
    var ch := Pixel(e);
    codes2, r2, bits2, lead2 := codes, r, bits, lead;
    if !e.firstPixelPassed {
      FirstRound(e, out, d0, codes, room, r, bits, done, lead, len);
      assert out + [] == out;
    } else if Lookup(e.strmap, Key(e.prefix, ch)) > 0 {
      HitRound(e, out, d0, codes, room, r, bits, done, lead, len);
      assert out + [] == out;
    } else if r.s.oldCode == MAX_LZW_CODE {
      codes2, r2, bits2 := FreshRound(e, out, d0, codes, room, r, bits, done, lead, len);
      lead2 := ch as byte;
    } else if e.nextCode + 1 < MAX_LZW_CODE {
      codes2, r2, bits2 := FollowRound(e, out, d0, codes, room, r, bits, done, lead, len);
      lead2 := ch as byte;
    } else {
      codes2, r2, bits2 := LastRound(e, out, d0, codes, room, r, bits, done, lead, len);
      lead2 := ch as byte;
    }
  }

  /** One pixel of Compress: the correspondence carries over to the next
      cursor, with one more pixel decoded. */
  lemma PixelRound(e: Lzw, out: seq<byte>, d0: Lzw, codes: seq<nat>, room: nat, r: Step, bits: seq<bool>,
                   done: seq<byte>, lead: byte, len: nat, all: seq<byte>)
    returns (codes2: seq<nat>, r2: Step, bits2: seq<bool>, lead2: byte, done2: seq<byte>)
    requires Encoded(e, out, d0, codes, room, r, bits, done, lead) && e.bufferPos < e.bufferSize && |out| <= len
    requires done + Pixels(e) == all && |all| <= room
    ensures var st := PixelStep(e, len, out);
      Encoded(st.s, st.out, d0, codes2, room, r2, bits2, done2, lead2) && done2 + Pixels(st.s) == all
    ensures PixelStep(e, len, out).s.firstPixelPassed
  {
    var c := Consume(e, len - |out|);
    codes2, r2, bits2, lead2 := ConsumeRound(e, out, d0, codes, room, r, bits, done, lead, len - |out|);
    done2 := done + [Pixel(e) as byte];
    AdvanceEncoded(c.0, out + c.1, d0, codes2, room, r2, bits2, done2, lead2);
    ConsumeDepth(e, len - |out|);
    AdvanceKeeps(e);
    AdvanceKeeps(c.0);
    AdvanceSame(e, c.0);
    PixelsFrame(Advance(e), Advance(c.0));
    MovePixel(done, Pixel(e) as byte, Pixels(PixelStep(e, len, out).s), all);
  }

  /** The first pixel left moves to the pixels done. */
  lemma MovePixel(done: seq<byte>, x: byte, rest: seq<byte>, all: seq<byte>)
    requires done + ([x] + rest) == all
    ensures (done + [x]) + rest == all
  {
  }

  /** Releasing the input at the end of Compress changes nothing the
      correspondence is about. */
  lemma ReleaseEncoded(e: Lzw, out: seq<byte>, d0: Lzw, codes: seq<nat>, room: nat, r: Step, bits: seq<bool>,
                       done: seq<byte>, lead: byte)
    requires Encoded(e, out, d0, codes, room, r, bits, done, lead)
    ensures Encoded(e.(bufferSize := 0), out, d0, codes, room, r, bits, done, lead)
  {
  }

  /** The loop of Compress: when the output does not fill up, every pixel
      left in the input has been decoded once the loop ends. */
  lemma {:induction false} CompressRound(e: Lzw, out: seq<byte>, d0: Lzw, codes: seq<nat>, room: nat, r: Step,
                                         bits: seq<bool>, done: seq<byte>, lead: byte, len: nat, all: seq<byte>)
    returns (codes2: seq<nat>, r2: Step, bits2: seq<bool>, lead2: byte, e2: Lzw, out2: seq<byte>)
    requires Encoded(e, out, d0, codes, room, r, bits, done, lead) && |out| <= len
    requires done + Pixels(e) == all && |all| <= room && |CompressFrom(e, len, out).1| < len
    ensures (e2, out2) == CompressFrom(e, len, out)
    ensures Encoded(e2, out2, d0, codes2, room, r2, bits2, all, lead2)
    ensures e.firstPixelPassed || e.bufferPos < e.bufferSize ==> e2.firstPixelPassed
    decreases Cursor(e)
  {
    if e.bufferPos >= e.bufferSize {
      ReleaseEncoded(e, out, d0, codes, room, r, bits, done, lead);
      codes2, r2, bits2, lead2, e2, out2 := codes, r, bits, lead, e.(bufferSize := 0), out;
    } else {
      var st := PixelStep(e, len, out);
      var c1, r1, b1, l1, done1 := PixelRound(e, out, d0, codes, room, r, bits, done, lead, len, all);
      CompressFromNext(e, len, out, st);
      if st.stop {
        assert false;
      }
      codes2, r2, bits2, lead2, e2, out2 := CompressRound(st.s, st.out, d0, c1, room, r1, b1, done1, l1, len, all);
    }
  }

  // ---------------------------------------------------------------------
  // CompressEnd and the whole stream
  // ---------------------------------------------------------------------

  /** CompressEnd writes the prefix code and the end code at the current
      width, then zeros up to a whole byte. */
  lemma EndStreamed(bits: seq<bool>, e: Lzw, out: seq<byte>) returns (pad: nat)
    requires Streamed(bits, e, out) && EncoderOk(e)
    ensures BitsOf(out + Ended(e).1) == bits + NatBits(e.prefix, e.codeSize) + NatBits(e.endCode, e.codeSize) + NatBits(0, pad)
  {
    CodesFit(e);
    var x1 := Emit(e, e.prefix);
    EmitBits(e, e.prefix);
    var f := FlushAll(x1, []);
    FlushAllBits(x1, []);
    FlushAllKeeps(x1, []);
    var x2 := Emit(f.0, f.0.endCode);
    EmitBits(f.0, f.0.endCode);
    DrainBits(x2, f.1);
    pad := Padding(x2.partialSize);
    BitsOfAppend(out, Ended(e).1);
    assert BitsOf([]) == [];
    EndOrder(BitsOf(out), BitsOf(Ended(e).1), BitsOf(f.1), NatBits(x2.partial, x2.partialSize),
             NatBits(f.0.partial, f.0.partialSize), NatBits(x1.partial, x1.partialSize), NatBits(e.partial, e.partialSize),
             NatBits(e.prefix, e.codeSize), NatBits(e.endCode, e.codeSize), NatBits(0, pad), bits);
  }

  /** The bit strings of CompressEnd, put in order. */
  lemma EndOrder(b: seq<bool>, d: seq<bool>, o: seq<bool>, x2: seq<bool>, f0: seq<bool>, x1: seq<bool>,
                 pe: seq<bool>, pc: seq<bool>, ec: seq<bool>, z: seq<bool>, bits: seq<bool>)
    requires d == o + x2 + z && x2 == f0 + ec && o + f0 == x1 && x1 == pe + pc && b + pe == bits
    ensures b + d == bits + pc + ec + z
  {
    calc {
      b + d;
      b + (o + (f0 + ec) + z);
      (b + (o + f0)) + ec + z;
      (b + pe) + pc + ec + z;
    }
  }

  /** CompressEnd's prefix code, read: the pixels of the prefix come out
      and the width is the compressor's, or one more when the next free
      code reaches 2^width. */
  lemma EndPrefix(e: Lzw, out: seq<byte>, d0: Lzw, codes: seq<nat>, room: nat, r: Step, bits: seq<bool>,
                  done: seq<byte>, lead: byte)
    requires Encoded(e, out, d0, codes, room, r, bits, done, lead) && e.firstPixelPassed
    ensures var a := Apply(r.s, e.prefix, room, r.out);
      && Decodes(d0, codes + [e.prefix], room, a, bits + NatBits(e.prefix, e.codeSize)) && !a.stop && a.out == done
      && DecoderOk(a.s) && a.s.endCode == e.endCode && e.endCode < Pow2(e.codeSize)
      && (a.s.codeSize == e.codeSize || a.s.codeSize == e.codeSize + 1)
  {
    CodesFit(e);
    Sent(d0, codes, room, r, bits, e.prefix);
    if r.s.oldCode == MAX_LZW_CODE {
      ReadFresh(e, r.s, done, r.out, lead, room);
    } else {
      ReadFollow(e, r.s, done, r.out, lead, room);
      FollowRead(r.s, lead, e.prefix);
    }
  }

  /** The end code ends the image. */
  lemma ReadEnd(d: Lzw, room: nat, out: seq<byte>)
    requires DecoderOk(d) && |out| <= room
    ensures Apply(d, d.endCode, room, out) == Step(d.(done := true), out, true)
  {
    assert Classify(d, d.endCode) == Invalid;
  }

  /** Zero bits split anywhere. */
  lemma {:induction false} ZerosSplit(a: nat, b: nat)
    ensures NatBits(0, a + b) == NatBits(0, a) + NatBits(0, b)
    decreases a
  {
    if a > 0 {
      ZerosSplit(a - 1, b);
      assert NatBits(0, a + b) == [false] + NatBits(0, a - 1 + b);
    }
  }

  /** The bits of the whole stream: the codes a decompressor from d0 reads,
      then a tail too short for one more code unless it has stopped, and
      out is what it writes. */
  predicate Ends(d0: Lzw, codes: seq<nat>, room: nat, bits: seq<bool>, tail: seq<bool>, out: seq<byte>)
  {
    && Ready(d0)
    && bits == StreamFrom(d0, codes, room, []) + tail && FitsFrom(d0, codes, room, [])
    && RunFrom(d0, codes, room, []).out == out
    && (!RunFrom(d0, codes, room, []).stop ==> |tail| < RunFrom(d0, codes, room, []).s.codeSize)
  }

  /** The end code read at the compressor's width, or one bit wider with
      a padding bit to complete it: it ends the image. */
  lemma EndCode(d0: Lzw, codes: seq<nat>, room: nat, a: Step, b1: seq<bool>, w: nat)
    requires Decodes(d0, codes, room, a, b1) && !a.stop && DecoderOk(a.s) && a.s.codeSize == w
    requires a.s.endCode < Pow2(w)
    ensures var z := RunFrom(d0, codes + [a.s.endCode], room, []);
      && StreamFrom(d0, codes + [a.s.endCode], room, []) == b1 + NatBits(a.s.endCode, w)
      && FitsFrom(d0, codes + [a.s.endCode], room, []) && z.out == a.out && z.stop
  {
    Sent(d0, codes, room, a, b1, a.s.endCode);
    ReadEnd(a.s, room, a.out);
  }

  /** The end code at the compressor's width: the padding is left over. */
  lemma EndNarrow(d0: Lzw, codes: seq<nat>, room: nat, a: Step, b1: seq<bool>, pad: nat)
    requires Decodes(d0, codes, room, a, b1) && !a.stop && DecoderOk(a.s) && a.s.endCode < Pow2(a.s.codeSize)
    ensures Ends(d0, codes + [a.s.endCode], room, b1 + NatBits(a.s.endCode, a.s.codeSize) + NatBits(0, pad),
                 NatBits(0, pad), a.out)
  {
    EndCode(d0, codes, room, a, b1, a.s.codeSize);
  }

  /** The end code one bit wider than written: the first padding bit, a
      zero, completes it. */
  lemma EndWide(d0: Lzw, codes: seq<nat>, room: nat, a: Step, b1: seq<bool>, cs: nat, pad: nat)
    requires Decodes(d0, codes, room, a, b1) && !a.stop && DecoderOk(a.s) && a.s.endCode < Pow2(cs)
    requires a.s.codeSize == cs + 1 && pad > 0
    ensures Ends(d0, codes + [a.s.endCode], room, b1 + NatBits(a.s.endCode, cs) + NatBits(0, pad),
                 NatBits(0, pad - 1), a.out)
  {
    var end := a.s.endCode;
    PowMono(cs, cs + 1);
    EndCode(d0, codes, room, a, b1, cs + 1);
    NatBitsWiden(end, cs, 1);
    ZerosSplit(1, pad - 1);
    EndOrderWide(b1, NatBits(end, cs), NatBits(0, 1), NatBits(0, pad), NatBits(0, pad - 1), NatBits(end, cs + 1));
  }

  /** The first padding bit joins the end code. */
  lemma EndOrderWide(b: seq<bool>, c: seq<bool>, one: seq<bool>, z: seq<bool>, rest: seq<bool>, wide: seq<bool>)
    requires wide == c + one && z == one + rest
    ensures b + c + z == (b + wide) + rest
  {
    assert b + c + (one + rest) == b + (c + one) + rest;
  }

  /** The end code one bit wider than written, with no padding: too few
      bits remain for a code. */
  lemma EndShort(d0: Lzw, codes: seq<nat>, room: nat, a: Step, b1: seq<bool>, cs: nat)
    requires Decodes(d0, codes, room, a, b1) && !a.stop && a.s.codeSize == cs + 1
    ensures Ends(d0, codes, room, b1 + NatBits(a.s.endCode, cs) + NatBits(0, 0), NatBits(a.s.endCode, cs), a.out)
  {
    assert NatBits(0, 0) == [];
  }

  /** CompressEnd's end code and padding, read: at the compressor's width
      the end code stops the decompressor; one bit wider, the first padding
      bit completes it, and with no padding left the bits that remain are
      too few for a code. Either way no more pixels come out. */
  lemma EndRead(d0: Lzw, codes: seq<nat>, room: nat, a: Step, b1: seq<bool>, cs: nat, pad: nat)
    returns (codes2: seq<nat>, tail: seq<bool>)
    requires Decodes(d0, codes, room, a, b1) && !a.stop && DecoderOk(a.s) && a.s.endCode < Pow2(cs)
    requires a.s.codeSize == cs || a.s.codeSize == cs + 1
    ensures Ends(d0, codes2, room, b1 + NatBits(a.s.endCode, cs) + NatBits(0, pad), tail, a.out)
  {
    if a.s.codeSize == cs {
      EndNarrow(d0, codes, room, a, b1, pad);
      codes2, tail := codes + [a.s.endCode], NatBits(0, pad);
    } else if pad > 0 {
      EndWide(d0, codes, room, a, b1, cs, pad);
      codes2, tail := codes + [a.s.endCode], NatBits(0, pad - 1);
    } else {
      EndShort(d0, codes, room, a, b1, cs);
      codes2, tail := codes, NatBits(a.s.endCode, cs);
    }
  }

  /** The compressor of an image: Initialize, CompressStart for its depth
      and width, then its bytes as the input. */
  function Source(x: Lzw, m: nat, bpp: nat, width: nat, data: seq<byte>): (e: Lzw)
    requires |x.strings| == MAX_LZW_CODE && 2 <= m <= 11
    requires (bpp == 1 || bpp == 2 || bpp == 4 || bpp == 8) && bpp <= m
    ensures EncoderOk(e) && e.firstPixelPassed == x.firstPixelPassed && e.bufferSize == |data| && e.bufferPos == 0
    ensures !e.done && e.minCodeSize == m
  {
    EncoderStarts(x, m, bpp, width);
    FilledKeeps(Started(Initial(x, m), bpp, width), data);
    Filled(Started(Initial(x, m), bpp, width), data)
  }

  /** What one Compress call with room len, then CompressEnd, write. */
  function Written(e: Lzw, len: nat): (bytes: seq<byte>)
    requires EncoderOk(e)
    ensures |Compressed(e, len).2| <= |bytes|
  {
    CompressedKeeps(e, len);
    Compressed(e, len).2 + Ended(Compressed(e, len).1).1
  }

  /** CompressStart's clear code is the compressor's first code; read by
      a decompressor after Initialize, it clears the table again. */
  lemma StartDecodes(d0: Lzw, room: nat)
    requires DecoderOk(d0)
    ensures Decodes(d0, [d0.clearCode], room, Step(ClearDecompressor(d0), [], false), NatBits(d0.clearCode, d0.codeSize))
  {
    CodesBound(d0);
    assert Decodes(d0, [], room, Step(d0, [], false), []);
    Sent(d0, [], room, Step(d0, [], false), [], d0.clearCode);
    ReadClear(d0, room, []);
  }

  /** The clear code is below 2^width. */
  lemma CodesBound(d: Lzw)
    requires DecoderOk(d)
    ensures d.clearCode < Pow2(d.codeSize)
  {
  }

  /** After CompressStart the clear code is the only bits pending. */
  lemma StartStreamed(x: Lzw, m: nat, bpp: nat, width: nat, data: seq<byte>)
    requires |x.strings| == MAX_LZW_CODE && 2 <= m <= 11
    requires (bpp == 1 || bpp == 2 || bpp == 4 || bpp == 8) && bpp <= m
    ensures Streamed(NatBits(Pow2(m), m + 1), Source(x, m, bpp, width, data), [])
  {
    InitializeSets(x, m);
    var s := Initial(x, m);
    var t := s.(bpp := bpp, slack := (8 - (width * bpp) % 8) % 8);
    PowMono(m, m + 1);
    FirstEmit(t, s.clearCode, m + 1);
    var e := Source(x, m, bpp, width, data);
    assert e.partial == Emit(t, s.clearCode).partial && e.partialSize == Emit(t, s.clearCode).partialSize;
  }

  /** The first code into an empty accumulator. */
  lemma FirstEmit(t: Lzw, c: nat, w: nat)
    requires t.partial == 0 && t.partialSize == 0 && t.codeSize == w && c < Pow2(w)
    ensures Streamed(NatBits(c, w), Emit(t, c), [])
  {
    EmitBits(t, c);
    assert BitsOf([]) == [];
  }

  /** The compressor after CompressStart: an empty map, the first free
      code after the end code, the narrowest width. */
  lemma SourceTable(x: Lzw, m: nat, bpp: nat, width: nat, data: seq<byte>)
    requires |x.strings| == MAX_LZW_CODE && 2 <= m <= 11
    requires (bpp == 1 || bpp == 2 || bpp == 4 || bpp == 8) && bpp <= m
    ensures var e := Source(x, m, bpp, width, data);
      && e.strmap == map[] && e.prefix == 0 && e.codeSize == m + 1
      && e.clearCode == Pow2(m) && e.endCode == e.clearCode + 1 && e.nextCode == e.endCode + 1
  {
    InitializeSets(x, m);
  }

  /** The decompressor after Initialize and the clear code it reads first. */
  lemma ClearedTable(y: Lzw, m: nat)
    requires |y.strings| == MAX_LZW_CODE && 2 <= m <= 11
    ensures DecoderOk(Initial(y, m)) && Initial(y, m).clearCode == Pow2(m) && Initial(y, m).codeSize == m + 1
    ensures var d := ClearDecompressor(Initial(y, m));
      && DecoderOk(d) && Singles(d) && !d.done && d.oldCode == MAX_LZW_CODE && d.minCodeSize == m
      && d.codeSize == m + 1 && d.clearCode == Pow2(m) && d.endCode == d.clearCode + 1 && d.nextCode == d.endCode + 1
  {
    InitializeSets(y, m);
    DecoderStarts(y, m);
    ClearKeeps(Initial(y, m));
  }

  /** Before the first pixel, the decompressor that has read the clear
      code and the compressor mirror each other. */
  lemma StartMirrors(x: Lzw, y: Lzw, m: nat, bpp: nat, width: nat, data: seq<byte>)
    requires |x.strings| == MAX_LZW_CODE && |y.strings| == MAX_LZW_CODE && !x.firstPixelPassed && 2 <= m <= 11
    requires (bpp == 1 || bpp == 2 || bpp == 4 || bpp == 8) && bpp <= m
    ensures DecoderOk(Initial(y, m)) && Initial(y, m).clearCode == Pow2(m) && Initial(y, m).codeSize == m + 1
    ensures Mirrors(Source(x, m, bpp, width, data), ClearDecompressor(Initial(y, m)), [], [], 0)
  {
    SourceTable(x, m, bpp, width, data);
    ClearedTable(y, m);
  }

  /** The whole correspondence before the first pixel. */
  lemma StartEncoded(x: Lzw, y: Lzw, m: nat, bpp: nat, width: nat, data: seq<byte>, room: nat)
    requires |x.strings| == MAX_LZW_CODE && |y.strings| == MAX_LZW_CODE && !x.firstPixelPassed && 2 <= m <= 11
    requires (bpp == 1 || bpp == 2 || bpp == 4 || bpp == 8) && bpp <= m
    ensures DecoderOk(Initial(y, m)) && !Initial(y, m).done
    ensures Initial(y, m).partial == 0 && Initial(y, m).partialSize == 0
    ensures Encoded(Source(x, m, bpp, width, data), [], Initial(y, m), [Pow2(m)], room,
                    Step(ClearDecompressor(Initial(y, m)), [], false), NatBits(Pow2(m), m + 1), [], 0)
  {
    InitializeSets(y, m);
    StartMirrors(x, y, m, bpp, width, data);
    StartStreamed(x, m, bpp, width, data);
    StartDecodes(Initial(y, m), room);
  }

  /** CompressEnd after the correspondence: the bytes so far and the
      bytes it writes are the codes a decompressor from d0 reads, and
      what it writes is every pixel consumed. */
  lemma EndWritten(e: Lzw, out: seq<byte>, d0: Lzw, codes: seq<nat>, room: nat, r: Step, bits: seq<bool>,
                   done: seq<byte>, lead: byte)
    returns (codes2: seq<nat>, tail: seq<bool>)
    requires Encoded(e, out, d0, codes, room, r, bits, done, lead) && e.firstPixelPassed
    ensures Ends(d0, codes2, room, BitsOf(out + Ended(e).1), tail, done)
  {
    var pad := EndStreamed(bits, e, out);
    EndPrefix(e, out, d0, codes, room, r, bits, done, lead);
    var a := Apply(r.s, e.prefix, room, r.out);
    codes2, tail := EndRead(d0, codes + [e.prefix], room, a, bits + NatBits(e.prefix, e.codeSize), e.codeSize, pad);
  }

  /** The round trip of the GIF string table: a decompressor given, in one
      Decompress call with room for the image, the bytes that one Compress
      call (whose output did not fill up) and CompressEnd wrote, gives back
      every pixel of the image, for every minimum code size from 2 to 11. */
  lemma RoundTrip(x: Lzw, y: Lzw, m: nat, bpp: nat, width: nat, data: seq<byte>, len: nat, room: nat)
    requires |x.strings| == MAX_LZW_CODE && |y.strings| == MAX_LZW_CODE && !x.firstPixelPassed && 2 <= m <= 11
    requires (bpp == 1 || bpp == 2 || bpp == 4 || bpp == 8) && bpp <= m && |data| > 0
    requires |Compressed(Source(x, m, bpp, width, data), len).2| < len
    requires |Pixels(Source(x, m, bpp, width, data))| <= room
    ensures DecoderOk(Initial(y, m))
    ensures Decompressed(Filled(Initial(y, m), Written(Source(x, m, bpp, width, data), len)), room).2
            == Pixels(Source(x, m, bpp, width, data))
  {
    var e0, d0 := Source(x, m, bpp, width, data), Initial(y, m);
    var all := Pixels(e0);
    StartEncoded(x, y, m, bpp, width, data, room);
    assert [] + all == all;
    var codes, r, bits, lead, e2, out2 :=
      CompressRound(e0, [], d0, [Pow2(m)], room, Step(ClearDecompressor(d0), [], false), NatBits(Pow2(m), m + 1), [], 0, len, all);
    var codes2, tail := EndWritten(e2, out2, d0, codes, room, r, bits, all, lead);
    DecompressReads(d0, codes2, room, Written(e0, len), tail);
  }
}
