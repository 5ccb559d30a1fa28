/** The LZW string table of the GIF codec (class StringTable in
    Source/Plugins/PluginGIF.cpp): a compressor and a decompressor that share
    the code-width state and an LSB-first bit accumulator. The functions of
    this module specify the methods of the class one call at a time; the
    class itself is at the end. */
module GifLzw {
  import opened Bytes

  /** GIF codes are at most 12 bits wide. */
  const MAX_LZW_CODE: nat := 4096

  /** The fields of a StringTable, as a value. strmap holds the keys of the
      compressor's 2^20-entry map that have been set since its last clear;
      every other entry of that map reads -1. */
  datatype Lzw = Lzw(
    done: bool,
    minCodeSize: nat, clearCode: nat, endCode: nat, nextCode: nat,
    bpp: nat, slack: nat,
    prefix: nat, codeSize: nat, codeMask: nat, oldCode: nat,
    partial: nat, partialSize: int,
    firstPixelPassed: bool,
    strings: seq<seq<byte>>, strmap: map<nat, nat>,
    buffer: seq<byte>, bufferSize: nat, bufferPos: nat, bufferShift: nat)

  /** What every method between Initialize and CompressEnd keeps: a table of
      4096 strings, a non-negative bit count, a pixel depth that divides a
      byte and, while there is input, a bit shift on a pixel boundary. */
  predicate Ready(s: Lzw)
  {
    && |s.strings| == MAX_LZW_CODE
    && s.clearCode <= MAX_LZW_CODE
    && s.codeSize >= 1
    && s.partialSize >= 0
    && s.oldCode <= MAX_LZW_CODE
    && s.bufferSize <= |s.buffer|
    && (s.bpp == 1 || s.bpp == 2 || s.bpp == 4 || s.bpp == 8)
    && (s.bufferSize > 0 ==> s.bufferShift + s.bpp <= 8 && s.bufferShift % s.bpp == 0)
  }

  /** The state and the whole output after one step of Compress or
      Decompress; stop says whether the method returns at once. */
  datatype Step = Step(s: Lzw, out: seq<byte>, stop: bool)

  // ---------------------------------------------------------------------
  // Initialisation and the two clear routines
  // ---------------------------------------------------------------------

  /** 1 << minCodeSize, capped at 4096. */
  function ClearCodeOf(minCodeSize: nat): (c: nat)
    ensures c <= MAX_LZW_CODE
    ensures minCodeSize < 12 ==> c == Pow2(minCodeSize) <= 2048
    ensures minCodeSize >= 12 ==> c == MAX_LZW_CODE
  {
    ClearCodeBound(minCodeSize);
    var c := Pow2(minCodeSize);
    if c > MAX_LZW_CODE then MAX_LZW_CODE else c
  }

  /** ClearCompressorTable: every map entry back to -1, the first free code
      after the end code, an empty prefix and the narrowest width. */
  function ClearCompressor(s: Lzw): (t: Lzw)
  {
    s.(strmap := map[], nextCode := s.endCode + 1, prefix := 0, codeSize := s.minCodeSize + 1)
  }

  /** The first n strings of the table replaced by the one-byte strings of
      their codes. */
  function ResetStrings(strings: seq<seq<byte>>, n: nat): (r: seq<seq<byte>>)
    requires n <= |strings|
  {
    seq(|strings|, i requires 0 <= i < |strings| => if i < n then [(i % 256) as byte] else strings[i])
  }

  lemma ResetStep(strings: seq<seq<byte>>, i: nat)
    requires i < |strings|
    ensures ResetStrings(strings, i)[i := [(i % 256) as byte]] == ResetStrings(strings, i + 1)
  {
  }

  /** ClearDecompressorTable: one-byte strings for the codes below the clear
      code, the first free code after the end code, the narrowest width with
      its mask, and no previous code (the 4096 sentinel). */
  function ClearDecompressor(s: Lzw): (t: Lzw)
    requires |s.strings| == MAX_LZW_CODE && s.clearCode <= MAX_LZW_CODE
    ensures t == s.(strings := t.strings, nextCode := t.nextCode, codeSize := t.codeSize,
                    codeMask := t.codeMask, oldCode := t.oldCode)
    ensures |t.strings| == MAX_LZW_CODE && t.codeSize >= 1 && t.oldCode == MAX_LZW_CODE
  {
    s.(strings := ResetStrings(s.strings, s.clearCode), nextCode := s.endCode + 1,
       codeSize := s.minCodeSize + 1, codeMask := Pow2(s.minCodeSize + 1) - 1, oldCode := MAX_LZW_CODE)
  }

  /** Initialize before the two clears: the reserved codes of the minimum
      code size, an empty accumulator and no input. */
  function Codes(s: Lzw, minCodeSize: nat): (t: Lzw)
  {
    var clear := ClearCodeOf(minCodeSize);
    s.(done := false, bpp := 8, minCodeSize := minCodeSize, clearCode := clear,
       endCode := clear + 1, partial := 0, partialSize := 0, bufferSize := 0)
  }

  function Initial(s: Lzw, minCodeSize: nat): (t: Lzw)
    requires |s.strings| == MAX_LZW_CODE
  {
    ClearDecompressor(ClearCompressor(Codes(s, minCodeSize)))
  }

  /** The state Initialize leaves: the codes, widths and sentinels of a fresh
      table for both directions. */
  lemma InitializeSets(s: Lzw, minCodeSize: nat)
    requires |s.strings| == MAX_LZW_CODE
    ensures var t := Initial(s, minCodeSize);
      && Ready(t)
      && t.clearCode == (if minCodeSize >= 12 then MAX_LZW_CODE else Pow2(minCodeSize))
      && t.endCode == t.clearCode + 1 && t.nextCode == t.endCode + 1
      && t.codeSize == minCodeSize + 1 && t.codeMask == Pow2(t.codeSize) - 1
      && t.oldCode == MAX_LZW_CODE && t.strmap == map[] && t.prefix == 0
      && t.partial == 0 && t.partialSize == 0 && t.bufferSize == 0 && !t.done
      && (forall i :: 0 <= i < t.clearCode ==> t.strings[i] == [(i % 256) as byte])
  {
  }

  /** 1 << m for m below 12 is at most 2048. */
  lemma {:induction false} ClearCodeBound(m: nat)
    ensures m < 12 ==> Pow2(m) <= 2048
    ensures m >= 12 ==> Pow2(m) >= MAX_LZW_CODE
  {
    if m < 11 {
      PowMono(m, 11);
    } else if m > 12 {
      PowMono(12, m);
    }
    assert Pow2(11) == 2048 && Pow2(12) == MAX_LZW_CODE;
  }

  /** FillInputBuffer: the caller copies data into the input buffer. */
  function Filled(s: Lzw, data: seq<byte>): (t: Lzw)
    requires s.bpp <= 8
  {
    s.(buffer := data, bufferSize := |data|, bufferPos := 0, bufferShift := 8 - s.bpp)
  }

  // ---------------------------------------------------------------------
  // The bit accumulator
  // ---------------------------------------------------------------------

  /** m_partial |= code << m_partialSize; m_partialSize += m_codeSize. */
  function Emit(s: Lzw, code: nat): (t: Lzw)
    requires s.partialSize >= 0
    ensures t == s.(partial := t.partial, partialSize := t.partialSize)
    ensures t.partialSize == s.partialSize + s.codeSize
  {
    s.(partial := OrNat(s.partial, Shl(code, s.partialSize)), partialSize := s.partialSize + s.codeSize)
  }

  /** Compress's flush: whole bytes, lowest first, appended to out while at
      least 8 bits are pending and out holds fewer than room bytes. */
  function Flush(s: Lzw, room: nat, out: seq<byte>): (r: (Lzw, seq<byte>))
    requires |out| <= room
    decreases room - |out|
  {
    if s.partialSize >= 8 && |out| < room then
      Flush(s.(partial := s.partial / 256, partialSize := s.partialSize - 8), room, out + [(s.partial % 256) as byte])
    else (s, out)
  }

  /** CompressEnd's first flush: every whole byte. */
  function FlushAll(s: Lzw, out: seq<byte>): (r: (Lzw, seq<byte>))
    decreases s.partialSize
  {
    if s.partialSize >= 8 then
      FlushAll(s.(partial := s.partial / 256, partialSize := s.partialSize - 8), out + [(s.partial % 256) as byte])
    else (s, out)
  }

  /** CompressEnd's last flush: bytes while any bit is pending. */
  function Drain(s: Lzw, out: seq<byte>): (r: (Lzw, seq<byte>))
    decreases s.partialSize
  {
    if s.partialSize > 0 then
      Drain(s.(partial := s.partial / 256, partialSize := s.partialSize - 8), out + [(s.partial % 256) as byte])
    else (s, out)
  }

  // ---------------------------------------------------------------------
  // Compressor
  // ---------------------------------------------------------------------

  /** CompressStart: the pixel depth, the padding bits at the end of a row,
      the clear code at the current width, and a cleared map. It runs
      before the first input is supplied. */
  function Started(s: Lzw, bpp: nat, width: nat): (t: Lzw)
    requires Ready(s) && s.bufferSize == 0
    requires bpp == 1 || bpp == 2 || bpp == 4 || bpp == 8
  {
    ClearCompressor(Emit(s.(bpp := bpp, slack := (8 - (width * bpp) % 8) % 8), s.clearCode))
  }

  /** The current pixel: (m_buffer[m_bufferPos] >> m_bufferShift) & ((1 << m_bpp) - 1). */
  function Pixel(s: Lzw): (ch: nat)
    requires s.bufferPos < |s.buffer|
  {
    AndNat(Shr(s.buffer[s.bufferPos] as nat, s.bufferShift), Pow2(s.bpp) - 1)
  }

  /** The step to the next pixel: the next lower field of the same byte,
      unless this is the last byte of the row and only padding bits remain. */
  function Advance(s: Lzw): (t: Lzw)
    requires Ready(s) && s.bufferPos < s.bufferSize
    ensures t == s.(bufferPos := t.bufferPos, bufferShift := t.bufferShift)
  {
    if s.bufferShift > 0 && !(s.bufferPos + 1 == s.bufferSize && s.bufferShift <= s.slack) then
      ShiftStep(s.bufferShift, s.bpp);
      s.(bufferShift := s.bufferShift - s.bpp)
    else s.(bufferPos := s.bufferPos + 1, bufferShift := 8 - s.bpp)
  }

  /** A non-zero shift on a pixel boundary leaves room for one more pixel. */
  lemma ShiftStep(shift: nat, bpp: nat)
    requires bpp == 1 || bpp == 2 || bpp == 4 || bpp == 8
    requires shift > 0 && shift + bpp <= 8 && shift % bpp == 0
    ensures shift >= bpp && (shift - bpp) % bpp == 0
  {
  }

  /** The map key of a prefix code followed by a pixel:
      ((prefix << 8) & 0xFFF00) + (ch & 0xFF). */
  function Key(prefix: nat, ch: nat): (k: nat)
    requires ch < 256
  {
    (prefix % 4096) * 256 + ch
  }

  /** The code of a key in the compressor's map, -1 when it is unset. */
  function Lookup(strmap: map<nat, nat>, key: nat): (c: int)
  {
    if key in strmap then strmap[key] else -1
  }

  /** The table part of a miss: insert the next code for the key, widen
      when that code was 2^width, and restart the table with a clear code
      once 4096 codes are in use. */
  function Insert(s: Lzw, key: nat): (t: Lzw)
    requires s.partialSize >= 0 && s.codeSize >= 1
    ensures t == s.(strmap := t.strmap, codeSize := t.codeSize, nextCode := t.nextCode, prefix := t.prefix,
                    partial := t.partial, partialSize := t.partialSize)
    ensures t.codeSize >= 1 && t.partialSize >= s.partialSize
  {
    var s1 := s.(strmap := s.strmap[key := s.nextCode],
                 codeSize := if s.nextCode == Pow2(s.codeSize) then s.codeSize + 1 else s.codeSize,
                 nextCode := s.nextCode + 1);
    if s1.nextCode == MAX_LZW_CODE then ClearCompressor(Emit(s1, s1.clearCode)) else s1
  }

  /** One pixel of Compress into an output that already holds out: the
      first pixel of the image only starts the prefix; a (prefix, pixel)
      pair in the map extends it; otherwise the prefix code is emitted and
      flushed, the pair gets the next code and the pixel starts a new
      prefix. Then the cursor moves on, and Compress returns if the output
      is full. */
  function PixelStep(s: Lzw, room: nat, out: seq<byte>): (r: Step)
    requires Ready(s) && |out| <= room && s.bufferPos < s.bufferSize
    ensures Ready(r.s) && |out| <= |r.out| <= room && r.out[..|out|] == out
    ensures r.s.bufferSize == s.bufferSize && r.s.buffer == s.buffer && r.s.bufferPos <= r.s.bufferSize
    ensures 0 <= Cursor(r.s) < Cursor(s)
    ensures r.stop <==> |r.out| == room
  {
    var c := Consume(s, room - |out|);
    AdvanceKeeps(c.0);
    assert (out + c.1)[..|out|] == out;
    Step(Advance(c.0), out + c.1, |out| + |c.1| == room)
  }

  /** The table and accumulator part of a pixel, before the cursor moves. */
  function Consume(s: Lzw, room: nat): (r: (Lzw, seq<byte>))
    requires Ready(s) && s.bufferPos < s.bufferSize
    ensures Ready(r.0) && |r.1| <= room
    ensures r.0.buffer == s.buffer && r.0.bufferSize == s.bufferSize
    ensures r.0.bufferPos == s.bufferPos && r.0.bufferShift == s.bufferShift && r.0.slack == s.slack
  {
    var ch := Pixel(s);
    PixelBound(s);
    if !s.firstPixelPassed then (s.(firstPixelPassed := true, prefix := ch), [])
    else
      var key := Key(s.prefix, ch);
      var code := Lookup(s.strmap, key);
      if code > 0 then (s.(prefix := code), [])
      else
        var f := Flush(Emit(s, s.prefix), room, []);
        FlushKeeps(Emit(s, s.prefix), room, []);
        (Insert(f.0, key).(prefix := ch), f.1)
  }

  lemma PixelBound(s: Lzw)
    requires Ready(s) && s.bufferPos < s.bufferSize
    ensures Pixel(s) < Pow2(s.bpp) <= 256
  {
    AndLowBits(Shr(s.buffer[s.bufferPos] as nat, s.bufferShift), s.bpp);
    assert Pow2(s.bpp) <= 256 by {
      if s.bpp < 8 { PowMono(s.bpp, 8); }
    }
  }

  /** Flush only moves whole bytes out of the accumulator, and stops with 8
      or more bits pending only when the output is full. */
  lemma {:induction false} FlushKeeps(s: Lzw, room: nat, out: seq<byte>)
    requires s.partialSize >= 0 && |out| <= room
    ensures var (t, o) := Flush(s, room, out);
      && t == s.(partial := t.partial, partialSize := t.partialSize)
      && t.partialSize >= 0 && |out| <= |o| <= room
      && t.partialSize == s.partialSize - 8 * (|o| - |out|)
      && (t.partialSize >= 8 ==> |o| == room)
    decreases room - |out|
  {
    if s.partialSize >= 8 && |out| < room {
      FlushKeeps(s.(partial := s.partial / 256, partialSize := s.partialSize - 8), room, out + [(s.partial % 256) as byte]);
    }
  }

  /** The pixels left in the input, as a measure: whole bytes count 8. */
  function Cursor(s: Lzw): (n: int)
  {
    (s.bufferSize - s.bufferPos) * 8 + s.bufferShift
  }

  /** The loop of Compress from an output that already holds out: one pixel
      at a time until the input is used up (the input is then released) or
      the output holds exactly room bytes. */
  function CompressFrom(s: Lzw, room: nat, out: seq<byte>): (r: (Lzw, seq<byte>))
    requires Ready(s) && |out| <= room
    decreases Cursor(s)
  {
    if s.bufferPos >= s.bufferSize then (s.(bufferSize := 0), out)
    else
      var r := PixelStep(s, room, out);
      if r.stop then (r.s, r.out) else CompressFrom(r.s, room, r.out)
  }

  /** One unfolding of the loop of Compress, for a pixel already taken. */
  lemma CompressFromNext(s: Lzw, room: nat, out: seq<byte>, r: Step)
    requires Ready(s) && |out| <= room && s.bufferPos < s.bufferSize
    requires r == PixelStep(s, room, out)
    ensures Ready(r.s) && |r.out| <= room
    ensures CompressFrom(s, room, out) == if r.stop then (r.s, r.out) else CompressFrom(r.s, room, r.out)
  {
  }

  lemma AdvanceKeeps(s: Lzw)
    requires Ready(s) && s.bufferPos < s.bufferSize
    ensures var t := Advance(s);
      && Ready(t) && t.bufferSize == s.bufferSize && t.buffer == s.buffer && t.bufferPos <= t.bufferSize
      && 0 <= Cursor(t) < Cursor(s)
  {
  }

  /** Compress: nothing when there is no input or the table is done;
      otherwise the bytes of the pixels consumed, at most len of them. */
  function Compressed(s: Lzw, len: nat): (r: (bool, Lzw, seq<byte>))
    requires Ready(s)
  {
    if s.bufferSize == 0 || s.done then (false, s, [])
    else
      var r := CompressFrom(s, len, []);
      (true, r.0, r.1)
  }

  /** CompressEnd: the pending prefix code, the end code and every pending
      bit, padded to whole bytes. */
  function Ended(s: Lzw): (r: (Lzw, seq<byte>))
    requires s.partialSize >= 0
  {
    var f := FlushAll(Emit(s, s.prefix), []);
    FlushAllKeeps(Emit(s, s.prefix), []);
    Drain(Emit(f.0, f.0.endCode), f.1)
  }

  lemma {:induction false} FlushAllKeeps(s: Lzw, out: seq<byte>)
    requires s.partialSize >= 0
    ensures var (t, o) := FlushAll(s, out);
      && t == s.(partial := t.partial, partialSize := t.partialSize)
      && t.partialSize == s.partialSize % 8 && |o| == |out| + s.partialSize / 8
    decreases s.partialSize
  {
    if s.partialSize >= 8 {
      FlushAllKeeps(s.(partial := s.partial / 256, partialSize := s.partialSize - 8), out + [(s.partial % 256) as byte]);
    }
  }

  // ---------------------------------------------------------------------
  // Decompressor
  // ---------------------------------------------------------------------

  /** m_partial |= m_buffer[m_bufferPos] << m_partialSize; m_partialSize += 8. */
  function Feed(s: Lzw): (t: Lzw)
    requires s.bufferPos < |s.buffer| && s.partialSize >= 0
  {
    s.(partial := OrNat(s.partial, Shl(s.buffer[s.bufferPos] as nat, s.partialSize)), partialSize := s.partialSize + 8)
  }

  /** How the decompressor treats a code read from the accumulator: an
      invalid code (past the next free code, or the end code) ends the
      image, the clear code resets the table, any other code names an
      entry. */
  datatype Verdict = Invalid | Clear | Entry

  /** The check as the source writes it. */
  function ClassifyAsWritten(s: Lzw, code: nat): (v: Verdict)
  {
    if code > s.nextCode || code == s.endCode then Invalid
    else if code == s.clearCode then Clear
    else Entry
  }

  /** The check the decompressor of this model uses: a code with no entry
      in the 4096-string table is invalid too. */
  function Classify(s: Lzw, code: nat): (v: Verdict)
    ensures v == Entry ==> code < MAX_LZW_CODE
  {
    if code > s.nextCode || code == s.endCode || (code >= MAX_LZW_CODE && code != s.clearCode) then Invalid
    else if code == s.clearCode then Clear
    else Entry
  }

  /** The first byte of a string; the terminating zero of an empty one. */
  function FirstByte(str: seq<byte>): (b: byte)
  {
    if |str| > 0 then str[0] else 0
  }

  /** Unless this is the first code since a clear or the table is full, the
      next free code gets the previous code's string plus the first byte of
      the string of code (of the previous code, when code is the one being
      defined). */
  function AddEntry(s: Lzw, code: nat): (t: Lzw)
    requires |s.strings| == MAX_LZW_CODE && s.oldCode <= MAX_LZW_CODE && code < MAX_LZW_CODE
    ensures t == s.(strings := t.strings) && |t.strings| == MAX_LZW_CODE
  {
    if s.oldCode != MAX_LZW_CODE && s.nextCode < MAX_LZW_CODE then
      var source := if code == s.nextCode then s.oldCode else code;
      s.(strings := s.strings[s.nextCode := s.strings[s.oldCode] + [FirstByte(s.strings[source])]])
    else s
  }

  /** After an entry is added, the next free code moves on; when it is below
      4096 and has no bit in common with the mask, the width grows by one
      and the mask takes its bit. */
  function Grow(s: Lzw): (t: Lzw)
    ensures t == s.(nextCode := t.nextCode, codeSize := t.codeSize, codeMask := t.codeMask)
    ensures t.codeSize >= s.codeSize
  {
    if s.oldCode != MAX_LZW_CODE && s.nextCode < MAX_LZW_CODE then
      var next := s.nextCode + 1;
      if next < MAX_LZW_CODE && AndNat(next, s.codeMask) == 0 then
        s.(nextCode := next, codeSize := s.codeSize + 1, codeMask := OrNat(s.codeMask, next))
      else s.(nextCode := next)
    else s
  }

  /** A string that does not fit the output: the code goes back under the
      pending bits and the current input byte counts as consumed. */
  function Pushback(s: Lzw, code: nat): (t: Lzw)
    ensures t == s.(partial := t.partial, partialSize := t.partialSize, bufferPos := t.bufferPos)
    ensures t.partialSize == s.partialSize + s.codeSize
  {
    s.(partial := OrNat(Shl(s.partial, s.codeSize), code), partialSize := s.partialSize + s.codeSize,
       bufferPos := s.bufferPos + 1)
  }

  /** One code out of the accumulator: an invalid code ends the image, the
      clear code resets the table, an entry whose string does not fit the
      output is pushed back, any other entry is written out. */
  function CodeStep(s: Lzw, room: nat, out: seq<byte>): (r: Step)
    requires Ready(s) && |out| <= room && s.partialSize >= s.codeSize
    ensures Ready(r.s) && |out| <= |r.out| <= room && r.out[..|out|] == out
    ensures r.s.bufferSize == s.bufferSize && r.s.buffer == s.buffer
    ensures !r.stop ==> r.s.bufferPos == s.bufferPos && r.s.partialSize < s.partialSize
  {
    Apply(Taken(s), AndNat(s.partial, s.codeMask), room, out)
  }

  /** What the decompressor does with a code already taken from the
      accumulator. */
  function Apply(s: Lzw, code: nat, room: nat, out: seq<byte>): (r: Step)
    requires Ready(s) && |out| <= room
    ensures Ready(r.s) && |out| <= |r.out| <= room && r.out[..|out|] == out
    ensures r.s.bufferSize == s.bufferSize && r.s.buffer == s.buffer
    ensures !r.stop ==> r.s.bufferPos == s.bufferPos && r.s.partialSize == s.partialSize
  {
    match Classify(s, code)
    case Invalid => Step(s.(done := true), out, true)
    case Clear => Step(ClearDecompressor(s), out, false)
    case Entry => EntryStep(s, code, room, out)
  }

  /** The accumulator without its lowest code: m_partial >>= m_codeSize;
      m_partialSize -= m_codeSize. */
  function Taken(s: Lzw): (t: Lzw)
    requires Ready(s) && s.partialSize >= s.codeSize
    ensures Ready(t) && t == s.(partial := t.partial, partialSize := t.partialSize)
    ensures t.partialSize == s.partialSize - s.codeSize
  {
    s.(partial := Shr(s.partial, s.codeSize), partialSize := s.partialSize - s.codeSize)
  }

  /** A code with an entry: the table grows by the previous string and the
      first byte of this one, then the string is written out, or pushed back
      when it does not fit. */
  function EntryStep(s: Lzw, code: nat, room: nat, out: seq<byte>): (r: Step)
    requires Ready(s) && |out| <= room && code < MAX_LZW_CODE
    ensures Ready(r.s) && |out| <= |r.out| <= room && r.out[..|out|] == out
    ensures r.s.bufferSize == s.bufferSize && r.s.buffer == s.buffer
    ensures !r.stop ==> r.s.bufferPos == s.bufferPos && r.s.partialSize == s.partialSize
  {
    var s2 := AddEntry(s, code);
    if |s2.strings[code]| > room - |out| then Step(Pushback(s2, code), out, true)
    else
      assert (out + s2.strings[code])[..|out|] == out;
      Step(Grow(s2).(oldCode := code), out + s2.strings[code], false)
  }

  /** The inner loop of Decompress: whole codes out of the accumulator. */
  function CodesFrom(s: Lzw, room: nat, out: seq<byte>): (r: Step)
    requires Ready(s) && |out| <= room
    ensures Ready(r.s) && |out| <= |r.out| <= room && r.out[..|out|] == out
    ensures r.s.bufferSize == s.bufferSize && r.s.buffer == s.buffer
    ensures !r.stop ==> r.s.bufferPos == s.bufferPos
    decreases s.partialSize
  {
    if s.partialSize < s.codeSize then Step(s, out, false)
    else
      var r := CodeStep(s, room, out);
      if r.stop then r
      else
        var t := CodesFrom(r.s, room, r.out);
        assert t.out[..|out|] == r.out[..|r.out|][..|out|];
        t
  }

  /** One unfolding of the inner loop, for a step already taken. */
  lemma CodesFromNext(s: Lzw, room: nat, out: seq<byte>, r: Step)
    requires Ready(s) && |out| <= room && s.partialSize >= s.codeSize
    requires r == CodeStep(s, room, out)
    ensures Ready(r.s) && |r.out| <= room
    ensures CodesFrom(s, room, out) == if r.stop then r else CodesFrom(r.s, room, r.out)
  {
  }

  /** One pass of the outer loop of Decompress: the next input byte into
      the accumulator, then its codes; unless the inner loop returns, the
      cursor moves to the next byte. */
  function ByteStep(s: Lzw, room: nat, out: seq<byte>): (r: Step)
    requires Ready(s) && |out| <= room && s.bufferPos < s.bufferSize
    ensures Ready(r.s) && |out| <= |r.out| <= room && r.out[..|out|] == out
    ensures r.s.bufferSize == s.bufferSize && r.s.buffer == s.buffer
    ensures !r.stop ==> r.s.bufferPos == s.bufferPos + 1
  {
    var r := CodesFrom(Feed(s), room, out);
    if r.stop then r else Step(r.s.(bufferPos := r.s.bufferPos + 1), r.out, false)
  }

  /** The outer loop of Decompress: one input byte at a time until the
      input is used up (the input is then released) or the inner loop
      returns. */
  function BytesFrom(s: Lzw, room: nat, out: seq<byte>): (r: (Lzw, seq<byte>))
    requires Ready(s) && |out| <= room
    ensures Ready(r.0) && |out| <= |r.1| <= room && r.1[..|out|] == out
    decreases s.bufferSize - s.bufferPos
  {
    if s.bufferPos >= s.bufferSize then (s.(bufferSize := 0), out)
    else
      var r := ByteStep(s, room, out);
      if r.stop then (r.s, r.out)
      else
        var t := BytesFrom(r.s, room, r.out);
        assert t.1[..|out|] == r.out[..|r.out|][..|out|];
        t
  }

  /** One unfolding of the outer loop, for a pass already made. */
  lemma BytesFromNext(s: Lzw, room: nat, out: seq<byte>, r: Step)
    requires Ready(s) && |out| <= room && s.bufferPos < s.bufferSize
    requires r == ByteStep(s, room, out)
    ensures Ready(r.s) && |r.out| <= room
    ensures BytesFrom(s, room, out) == if r.stop then (r.s, r.out) else BytesFrom(r.s, room, r.out)
  {
  }

  /** Decompress: nothing when there is no input or the image is done;
      otherwise the decoded bytes, at most len of them. */
  function Decompressed(s: Lzw, len: nat): (r: (bool, Lzw, seq<byte>))
    requires Ready(s)
  {
    if s.bufferSize == 0 || s.done then (false, s, [])
    else
      var r := BytesFrom(s, len, []);
      (true, r.0, r.1)
  }

  /** The loop of ClearDecompressorTable: each of the first n strings
      becomes the one byte of its code. */
  method ResetLoop(strings: seq<seq<byte>>, n: nat) returns (table: seq<seq<byte>>)
    requires n <= |strings|
    ensures table == ResetStrings(strings, n)
    ensures |table| == |strings| && forall i :: 0 <= i < n ==> table[i] == [(i % 256) as byte]
  {
    table := strings;
    for i := 0 to n
      invariant table == ResetStrings(strings, i)
    {
      ResetStep(strings, i);
      table := table[i := [(i % 256) as byte]];
    }
  }

  // ---------------------------------------------------------------------
  // The class
  // ---------------------------------------------------------------------

  class StringTable {
    var done: bool
    var minCodeSize: nat
    var clearCode: nat
    var endCode: nat
    var nextCode: nat
    var bpp: nat
    var slack: nat
    var prefix: nat
    var codeSize: nat
    var codeMask: nat
    var oldCode: nat
    var partial: nat
    var partialSize: int
    var firstPixelPassed: bool
    var strings: seq<seq<byte>>
    var strmap: map<nat, nat>
    var buffer: seq<byte>
    var bufferSize: nat
    var bufferPos: nat
    var bufferShift: nat

    function Value(): Lzw
      reads this
    {
      Lzw(done, minCodeSize, clearCode, endCode, nextCode, bpp, slack, prefix, codeSize, codeMask, oldCode,
          partial, partialSize, firstPixelPassed, strings, strmap, buffer, bufferSize, bufferPos, bufferShift)
    }

    /** A table of 4096 empty strings, no input buffer and no pixel seen;
        the other fields are set by Initialize. */
    constructor ()
      ensures strings == seq(MAX_LZW_CODE, _ => []) && !firstPixelPassed && buffer == [] && bufferSize == 0
    {
      done, minCodeSize, clearCode, endCode, nextCode := false, 0, 0, 0, 0;
      bpp, slack, prefix, codeSize, codeMask, oldCode := 8, 0, 0, 1, 0, 0;
      partial, partialSize := 0, 0;
      firstPixelPassed := false;
      strings := seq(MAX_LZW_CODE, _ => []);
      strmap := map[];
      buffer, bufferSize, bufferPos, bufferShift := [], 0, 0, 0;
    }

    method Initialize(minCodeSize: nat)
      requires |strings| == MAX_LZW_CODE
      modifies this
      ensures Value() == Initial(old(Value()), minCodeSize)
    {
      SetCodes(minCodeSize);
      ClearCompressorTable();
      ClearDecompressorTable();
    }

    /** Initialize up to the two clears. */
    method SetCodes(minCodeSize: nat)
      modifies this
      ensures Value() == Codes(old(Value()), minCodeSize)
    {
      var clear := Pow2(minCodeSize);
      if clear > MAX_LZW_CODE {
        clear := MAX_LZW_CODE;
      }
      SetReserved(minCodeSize, clear);
      ResetAccumulator();
    }

    /** The minimum code size and its two reserved codes. */
    method SetReserved(minCodeSize: nat, clear: nat)
      modifies this
      ensures Value() == old(Value()).(minCodeSize := minCodeSize, clearCode := clear, endCode := clear + 1)
    {
      this.minCodeSize, clearCode, endCode := minCodeSize, clear, clear + 1;
    }

    /** Not done, 8-bit pixels, no pending bits and no input. */
    method ResetAccumulator()
      modifies this
      ensures Value() == old(Value()).(done := false, bpp := 8, partial := 0, partialSize := 0, bufferSize := 0)
    {
      ghost var v := Value();
      done, bpp, partial, partialSize, bufferSize := false, 8, 0, 0, 0;
      assert Value() == v.(done := false, bpp := 8, partial := 0, partialSize := 0, bufferSize := 0);
    }

    /** The caller's bytes become the input. */
    method FillInputBuffer(data: seq<byte>)
      requires bpp <= 8
      modifies this
      ensures Value() == Filled(old(Value()), data)
    {
      buffer := data;
      bufferSize := |data|;
      bufferPos := 0;
      bufferShift := 8 - bpp;
    }

    method CompressStart(bpp: nat, width: nat)
      requires Ready(Value()) && bufferSize == 0
      requires bpp == 1 || bpp == 2 || bpp == 4 || bpp == 8
      modifies this
      ensures Value() == Started(old(Value()), bpp, width)
    {
      this.bpp := bpp;
      slack := (8 - (width * bpp) % 8) % 8;
      EmitCode(clearCode);
      ClearCompressorTable();
    }

    /** A code at the current width above the pending bits. */
    method EmitCode(code: nat)
      requires partialSize >= 0
      modifies this
      ensures Value() == Emit(old(Value()), code)
    {
      partial := OrNat(partial, Shl(code, partialSize));
      partialSize := partialSize + codeSize;
    }

    /** The final bytes of the image (C returns their number and writes
        them into the caller's buffer). */
    method CompressEnd() returns (bytes: seq<byte>)
      requires partialSize >= 0
      modifies this
      ensures (Value(), bytes) == Ended(old(Value()))
    {
      EmitCode(prefix);
      bytes := FlushWhole();
      FlushAllKeeps(Emit(old(Value()), old(prefix)), []);
      EmitCode(endCode);
      bytes := DrainBytes(bytes);
    }

    /** CompressEnd's first flush. */
    method FlushWhole() returns (bytes: seq<byte>)
      requires partialSize >= 0
      modifies this
      ensures (Value(), bytes) == FlushAll(old(Value()), [])
    {
      bytes := [];
      while partialSize >= 8
        invariant partialSize >= 0
        invariant FlushAll(Value(), bytes) == FlushAll(old(Value()), [])
        decreases partialSize
      {
        bytes := bytes + [(partial % 256) as byte];
        partial := partial / 256;
        partialSize := partialSize - 8;
      }
    }

    /** CompressEnd's last flush, after the bytes already written. */
    method DrainBytes(first: seq<byte>) returns (bytes: seq<byte>)
      modifies this
      ensures (Value(), bytes) == Drain(old(Value()), first)
    {
      bytes := first;
      while partialSize > 0
        invariant Drain(Value(), bytes) == Drain(old(Value()), first)
        decreases partialSize
      {
        bytes := bytes + [(partial % 256) as byte];
        partial := partial / 256;
        partialSize := partialSize - 8;
      }
    }

    /** Compress's flush into an output with room bytes left. */
    method FlushBytes(room: nat) returns (bytes: seq<byte>)
      modifies this
      ensures (Value(), bytes) == Flush(old(Value()), room, [])
    {
      bytes := [];
      while partialSize >= 8 && |bytes| < room
        invariant |bytes| <= room
        invariant Flush(Value(), room, bytes) == Flush(old(Value()), room, [])
        decreases room - |bytes|
      {
        bytes := bytes + [(partial % 256) as byte];
        partial := partial / 256;
        partialSize := partialSize - 8;
      }
    }

    /** Moves the cursor to the next pixel. */
    method NextPixel()
      requires Ready(Value()) && bufferPos < bufferSize
      modifies this
      ensures Value() == Advance(old(Value()))
    {
      if bufferShift > 0 && !(bufferPos + 1 == bufferSize && bufferShift <= slack) {
        ShiftStep(bufferShift, bpp);
        bufferShift := bufferShift - bpp;
      } else {
        bufferPos := bufferPos + 1;
        bufferShift := 8 - bpp;
      }
    }

    /** The body of Compress's loop: one pixel, into an output of len
        bytes that already holds out. */
    method CompressOne(len: nat, out: seq<byte>) returns (stop: bool, bytes: seq<byte>)
      requires Ready(Value()) && |out| <= len && bufferPos < bufferSize
      modifies this
      ensures Step(Value(), bytes, stop) == PixelStep(old(Value()), len, out)
    {
      var flushed := ConsumePixel(len - |out|);
      NextPixel();
      bytes := out + flushed;
      stop := |bytes| == len;
    }

    /** The current pixel against the table, with room bytes left in the
        output. */
    method ConsumePixel(room: nat) returns (flushed: seq<byte>)
      requires Ready(Value()) && bufferPos < bufferSize
      modifies this
      ensures (Value(), flushed) == Consume(old(Value()), room)
    {
      ghost var v := Value();
      var ch := AndNat(Shr(buffer[bufferPos] as nat, bufferShift), Pow2(bpp) - 1);
      assert ch == Pixel(v);
      PixelBound(v);
      flushed := [];
      if firstPixelPassed {
        var key := Key(prefix, ch);
        var code := Lookup(strmap, key);
        if code > 0 {
          prefix := code;
        } else {
          flushed := AddPair(room, key, ch);
        }
      } else {
        firstPixelPassed := true;
        prefix := ch;
      }
    }

    /** A miss: the prefix goes out, the whole bytes are flushed, the pair
        gets the next code and the pixel starts the new prefix. */
    method AddPair(room: nat, key: nat, ch: nat) returns (flushed: seq<byte>)
      requires Ready(Value())
      modifies this
      ensures (var e := Emit(old(Value()), old(prefix));
        FlushKeeps(e, room, []);
        var f := Flush(e, room, []);
        (Value(), flushed) == (Insert(f.0, key).(prefix := ch), f.1))
    {
      EmitCode(prefix);
      ghost var e := Value();
      FlushKeeps(e, room, []);
      flushed := FlushBytes(room);
      ghost var f := Flush(e, room, []);
      assert Value() == f.0;
      InsertCode(key);
      prefix := ch;
    }

    /** The table part of a miss: the pair gets the next code. */
    method InsertCode(key: nat)
      requires partialSize >= 0 && codeSize >= 1
      modifies this
      ensures Value() == Insert(old(Value()), key)
    {
      strmap := strmap[key := nextCode];
      if nextCode == Pow2(codeSize) {
        codeSize := codeSize + 1;
      }
      nextCode := nextCode + 1;
      if nextCode == MAX_LZW_CODE {
        EmitCode(clearCode);
        ClearCompressorTable();
      }
    }

    method Compress(len: nat) returns (more: bool, bytes: seq<byte>)
      requires Ready(Value())
      modifies this
      ensures (more, Value(), bytes) == Compressed(old(Value()), len)
    {
      if bufferSize == 0 || done {
        return false, [];
      }
      bytes := [];
      while bufferPos < bufferSize
        invariant Ready(Value()) && |bytes| <= len
        invariant CompressFrom(Value(), len, bytes) == CompressFrom(old(Value()), len, [])
        decreases Cursor(Value())
      {
        ghost var v, before := Value(), bytes;
        var stop;
        stop, bytes := CompressOne(len, bytes);
        CompressFromNext(v, len, before, Step(Value(), bytes, stop));
        if stop {
          return true, bytes;
        }
      }
      bufferSize := 0;
      return true, bytes;
    }

    /** The body of Decompress's inner loop: one code. */
    method DecodeOne(len: nat, out: seq<byte>) returns (stop: bool, bytes: seq<byte>)
      requires Ready(Value()) && |out| <= len && partialSize >= codeSize
      modifies this
      ensures Step(Value(), bytes, stop) == CodeStep(old(Value()), len, out)
    {
      var code := TakeCode();
      if code > nextCode || code == endCode || (code >= MAX_LZW_CODE && code != clearCode) {
        done := true;
        return true, out;
      }
      if code == clearCode {
        ClearDecompressorTable();
        return false, out;
      }
      stop, bytes := DecodeEntry(code, len, out);
    }

    /** The lowest code of the accumulator, removed from it. */
    method TakeCode() returns (code: nat)
      requires Ready(Value()) && partialSize >= codeSize
      modifies this
      ensures code == AndNat(old(partial), old(codeMask)) && Value() == Taken(old(Value()))
    {
      code := AndNat(partial, codeMask);
      partial := Shr(partial, codeSize);
      partialSize := partialSize - codeSize;
    }

    /** A code with an entry: the table grows, then the string is written
        out or the code pushed back. */
    method DecodeEntry(code: nat, len: nat, out: seq<byte>) returns (stop: bool, bytes: seq<byte>)
      requires Ready(Value()) && |out| <= len && code < MAX_LZW_CODE
      modifies this
      ensures Step(Value(), bytes, stop) == EntryStep(old(Value()), code, len, out)
    {
      AddString(code);
      if |strings[code]| > len - |out| {
        PushBack(code);
        return true, out;
      }
      bytes := out + strings[code];
      GrowTable();
      oldCode := code;
      stop := false;
    }

    /** Unless this is the first code since a clear or the table is full,
        the next free code gets its string. */
    method AddString(code: nat)
      requires |strings| == MAX_LZW_CODE && oldCode <= MAX_LZW_CODE && code < MAX_LZW_CODE
      modifies this
      ensures Value() == AddEntry(old(Value()), code)
    {
      if oldCode != MAX_LZW_CODE && nextCode < MAX_LZW_CODE {
        strings := strings[nextCode := strings[oldCode] + [FirstByte(strings[if code == nextCode then oldCode else code])]];
      }
    }

    /** Out of space: the code goes back under the pending bits. */
    method PushBack(code: nat)
      modifies this
      ensures Value() == Pushback(old(Value()), code)
    {
      partial := OrNat(Shl(partial, codeSize), code);
      partialSize := partialSize + codeSize;
      bufferPos := bufferPos + 1;
    }

    /** The next free code moves on, and the width with it. */
    method GrowTable()
      modifies this
      ensures Value() == Grow(old(Value()))
    {
      if oldCode != MAX_LZW_CODE && nextCode < MAX_LZW_CODE {
        nextCode := nextCode + 1;
        if nextCode < MAX_LZW_CODE && AndNat(nextCode, codeMask) == 0 {
          codeSize := codeSize + 1;
          codeMask := OrNat(codeMask, nextCode);
        }
      }
    }

    /** The inner loop of Decompress, with out already in the output. */
    method DecodeCodes(len: nat, out: seq<byte>) returns (stop: bool, bytes: seq<byte>)
      requires Ready(Value()) && |out| <= len
      modifies this
      ensures Step(Value(), bytes, stop) == CodesFrom(old(Value()), len, out)
    {
      bytes := out;
      while partialSize >= codeSize
        invariant Ready(Value()) && |bytes| <= len
        invariant CodesFrom(Value(), len, bytes) == CodesFrom(old(Value()), len, out)
        decreases partialSize
      {
        ghost var v, before := Value(), bytes;
        stop, bytes := DecodeOne(len, bytes);
        CodesFromNext(v, len, before, Step(Value(), bytes, stop));
        if stop {
          return;
        }
      }
      return false, bytes;
    }

    /** The next input byte above the pending bits. */
    method FeedByte()
      requires bufferPos < |buffer| && partialSize >= 0
      modifies this
      ensures Value() == Feed(old(Value()))
    {
      partial := OrNat(partial, Shl(buffer[bufferPos] as nat, partialSize));
      partialSize := partialSize + 8;
    }

    /** One pass of Decompress's outer loop. */
    method DecodeByte(len: nat, out: seq<byte>) returns (stop: bool, bytes: seq<byte>)
      requires Ready(Value()) && |out| <= len && bufferPos < bufferSize
      modifies this
      ensures Step(Value(), bytes, stop) == ByteStep(old(Value()), len, out)
    {
      FeedByte();
      stop, bytes := DecodeCodes(len, out);
      if !stop {
        bufferPos := bufferPos + 1;
      }
    }

    method Decompress(len: nat) returns (more: bool, bytes: seq<byte>)
      requires Ready(Value())
      modifies this
      ensures (more, Value(), bytes) == Decompressed(old(Value()), len)
    {
      if bufferSize == 0 || done {
        return false, [];
      }
      bytes := [];
      while bufferPos < bufferSize
        invariant Ready(Value()) && |bytes| <= len
        invariant BytesFrom(Value(), len, bytes) == BytesFrom(old(Value()), len, [])
        decreases bufferSize - bufferPos
      {
        ghost var v, before := Value(), bytes;
        var stop;
        stop, bytes := DecodeByte(len, bytes);
        BytesFromNext(v, len, before, Step(Value(), bytes, stop));
        if stop {
          return true, bytes;
        }
      }
      bufferSize := 0;
      return true, bytes;
    }

    method Done()
      modifies this
      ensures Value() == old(Value()).(done := true)
    {
      done := true;
    }

    method ClearCompressorTable()
      modifies this
      ensures Value() == ClearCompressor(old(Value()))
    {
      nextCode := endCode + 1;
      prefix := 0;
      strmap := map[];
      codeSize := minCodeSize + 1;
    }

    method ClearDecompressorTable()
      requires |strings| == MAX_LZW_CODE && clearCode <= MAX_LZW_CODE
      modifies this
      ensures Value() == ClearDecompressor(old(Value()))
    {
      ghost var t := ClearDecompressor(Value());
      var table := ResetLoop(strings, clearCode);
      var size := minCodeSize + 1;
      assert table == t.strings && size == t.codeSize;
      strings, nextCode, codeSize, codeMask, oldCode := table, endCode + 1, size, Pow2(size) - 1, MAX_LZW_CODE;
    }
  }
}
