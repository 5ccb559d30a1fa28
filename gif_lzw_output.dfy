/** What the GIF compressor hands back (Source/Plugins/PluginGIF.cpp:
    246-364): Compress fills the caller's buffer unless it runs out of
    input, and CompressEnd writes the pending bits and two codes, rounded
    up to whole bytes. That is at most 4 bytes only while at most 7 bits
    are pending; a table restart on the last pixel leaves up to 19, and
    then the end of the image takes 5 or 6 bytes. */
module GifLzwOutput {
  import opened Bytes
  import opened GifLzw
  import opened GifLzwWidth

  // ---------------------------------------------------------------------
  // Compress
  // ---------------------------------------------------------------------

  /** The loop of Compress extends the output it is given, never past
      room, and returns with input left only when the output is full. */
  lemma {:induction false} CompressFromFills(s: Lzw, room: nat, out: seq<byte>)
    requires Ready(s) && |out| <= room
    ensures var (t, o) := CompressFrom(s, room, out);
      && |out| <= |o| <= room && o[..|out|] == out
      && (t.bufferSize != 0 ==> |o| == room)
    decreases Cursor(s)
  {
    if s.bufferPos < s.bufferSize {
      var r := PixelStep(s, room, out);
      if !r.stop {
        CompressFromFills(r.s, room, r.out);
        var o := CompressFrom(r.s, room, r.out).1;
        assert o[..|out|] == o[..|r.out|][..|out|];
      }
    }
  }

  /** Compress: false exactly when there is no input or the table is done;
      otherwise at most len bytes, and exactly len unless the whole input
      was consumed (the input is then released). */
  lemma CompressedFills(s: Lzw, len: nat)
    requires Ready(s)
    ensures var (more, t, o) := Compressed(s, len);
      && (more <==> s.bufferSize != 0 && !s.done)
      && |o| <= len
      && (more ==> t.bufferSize == 0 || |o| == len)
  {
    if s.bufferSize != 0 && !s.done {
      CompressFromFills(s, len, []);
    }
  }

  /** A table miss adds at most 12 pending bits: the clear code of a
      restart, at a width of at most 12. */
  lemma InsertBits(s: Lzw, key: nat)
    requires EncoderTable(s) && s.partialSize >= 0 && s.codeSize >= 1
    ensures s.partialSize <= Insert(s, key).partialSize <= s.partialSize + 12
  {
    if s.nextCode == Pow2(s.codeSize) {
      NarrowWidth(s.codeSize);
    }
  }

  /** A pixel that leaves room in the output leaves at most 19 bits
      pending: the flush of a miss stops below 8 bits, and a restart adds a
      clear code of at most 12. */
  lemma PixelStepBits(s: Lzw, room: nat, out: seq<byte>)
    requires EncoderOk(s) && s.partialSize <= 19 && |out| <= room && s.bufferPos < s.bufferSize
    ensures var r := PixelStep(s, room, out);
      !r.stop ==> r.s.partialSize <= 19
  {
    var ch := Pixel(s);
    PixelBound(s);
    if s.firstPixelPassed && Lookup(s.strmap, Key(s.prefix, ch)) <= 0 {
      var room' := room - |out|;
      var f := Flush(Emit(s, s.prefix), room', []);
      FlushKeeps(Emit(s, s.prefix), room', []);
      InsertBits(f.0, Key(s.prefix, ch));
    }
  }

  /** Compress, started with at most 19 bits pending, either fills the
      output or returns with at most 19 bits pending; it keeps the
      compressor's invariant either way. */
  lemma {:induction false} CompressFromBits(s: Lzw, room: nat, out: seq<byte>)
    requires EncoderOk(s) && s.partialSize <= 19 && |out| <= room
    ensures var (t, o) := CompressFrom(s, room, out);
      EncoderOk(t) && (|o| < room ==> t.partialSize <= 19)
    decreases Cursor(s)
  {
    CompressFromKeeps(s, room, out);
    if s.bufferPos < s.bufferSize {
      var r := PixelStep(s, room, out);
      PixelStepBits(s, room, out);
      PixelStepKeeps(s, room, out);
      if !r.stop {
        CompressFromBits(r.s, room, r.out);
      }
    }
  }

  // ---------------------------------------------------------------------
  // CompressEnd
  // ---------------------------------------------------------------------

  /** The last flush writes one byte per started 8 bits. */
  lemma {:induction false} DrainLength(s: Lzw, out: seq<byte>)
    ensures |Drain(s, out).1| == |out| + (if s.partialSize > 0 then (s.partialSize + 7) / 8 else 0)
    decreases s.partialSize
  {
    if s.partialSize > 0 {
      DrainLength(s.(partial := s.partial / 256, partialSize := s.partialSize - 8), out + [(s.partial % 256) as byte]);
    }
  }

  /** CompressEnd writes the pending bits and two codes, rounded up to
      whole bytes. */
  lemma EndedLength(s: Lzw)
    requires s.partialSize >= 0 && s.codeSize >= 1
    ensures |Ended(s).1| == (s.partialSize + 2 * s.codeSize + 7) / 8
  {
    var e := Emit(s, s.prefix);
    var f := FlushAll(e, []);
    FlushAllKeeps(e, []);
    var a := s.partialSize + s.codeSize;
    DrainLength(Emit(f.0, f.0.endCode), f.1);
    assert |Ended(s).1| == a / 8 + (a % 8 + s.codeSize + 7) / 8;
    assert a == 8 * (a / 8) + a % 8;
  }

  /** The count the source's comment makes: with at most 7 bits pending
      and codes of at most 12 bits, CompressEnd writes at most 4 bytes. */
  lemma EndedWithinFour(s: Lzw)
    requires 0 <= s.partialSize <= 7 && 1 <= s.codeSize <= 12
    ensures |Ended(s).1| <= 4
  {
    EndedLength(s);
  }

  /** A miss on the last pixel that takes code 4095 restarts the table: the
      clear code goes out at 12 bits after the flush, the width drops back
      to 9 bits for an 8-bit image, and CompressEnd then writes 5 bytes,
      one more than the 4-byte buffer Save gives it. */
  lemma EndOverrun(s: Lzw, key: nat)
    requires EncoderTable(s) && s.minCodeSize == 8 && s.codeSize == 12
    requires s.nextCode == MAX_LZW_CODE - 1 && s.partialSize == 7
    ensures var t := Insert(s, key);
      && t.partialSize == 19 && t.codeSize == 9
      && |Ended(t).1| == 5
  {
    assert Pow2(12) == MAX_LZW_CODE;
    EndedLength(Insert(s, key));
  }

  /** The room CompressEnd needs after a Compress call that returned with
      output to spare. */
  const END_ROOM: nat := 6

  /** With at most 19 bits pending, which CompressFromBits guarantees
      after a Compress call that did not fill its output, CompressEnd
      writes at most END_ROOM bytes. */
  lemma EndedFits(s: Lzw)
    requires EncoderOk(s) && s.partialSize <= 19
    ensures |Ended(s).1| <= END_ROOM
  {
    EndedLength(s);
  }
}
