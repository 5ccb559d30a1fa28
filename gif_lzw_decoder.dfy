/** Code widths of the GIF decompressor (Source/Plugins/PluginGIF.cpp:
    366-427, 447-458): from a minimum code size of 2 to 11, every code the
    decompressor reads is below 4096, every code it may define is readable
    at the current width, and the width never passes 12 bits. Outside that
    range the source's own checks do not hold: a minimum code size of 1
    never widens at code 4, and one of 12 or more lets a code past the
    4096-string table through. */
module GifLzwDecoder {
  import opened Wrappers
  import opened Bytes
  import opened GifLzw
  import opened GifLzwWidth

  /** The decompressor's table: the reserved codes of a minimum code size
      from 2 to 11, a width from minCodeSize + 1 to 12 bits with its mask,
      and a next free code that is readable at that width, unless all 4096
      codes are in use. */
  predicate DecoderOk(s: Lzw)
  {
    && Ready(s)
    && 2 <= s.minCodeSize <= 11
    && s.clearCode == Pow2(s.minCodeSize) && s.endCode == s.clearCode + 1
    && s.minCodeSize + 1 <= s.codeSize <= 12
    && s.codeMask == Pow2(s.codeSize) - 1
    && s.endCode < s.nextCode <= Pow2(s.codeSize) && s.nextCode <= MAX_LZW_CODE
    && (s.nextCode == Pow2(s.codeSize) ==> s.nextCode == MAX_LZW_CODE)
  }

  /** Initialize, refusing a minimum code size the table cannot serve: the
      decompressor of this model starts only from 2 to 11. */
  function StartDecoder(s: Lzw, minCodeSize: nat): (r: Option<Lzw>)
    requires |s.strings| == MAX_LZW_CODE
    ensures r.Some? <==> 2 <= minCodeSize <= 11
    ensures r.Some? ==> DecoderOk(r.value) && r.value.codeSize == minCodeSize + 1
  {
    if 2 <= minCodeSize <= 11 then
      DecoderStarts(s, minCodeSize);
      Some(Initial(s, minCodeSize))
    else None
  }

  /** After a clear the first free code, 2^m + 2, is below 2^(m + 1) once
      m >= 2. */
  lemma FirstCodeNarrow(m: nat)
    requires m >= 2
    ensures Pow2(m) + 2 < Pow2(m + 1)
  {
    PowMono(1, m);
  }

  /** Initialize with a minimum code size from 2 to 11 starts the
      decompressor's invariant. */
  lemma DecoderStarts(s: Lzw, m: nat)
    requires |s.strings| == MAX_LZW_CODE && 2 <= m <= 11
    ensures DecoderOk(Initial(s, m))
  {
    InitializeSets(s, m);
    FirstCodeNarrow(m);
  }

  /** The clear code keeps the invariant. */
  lemma ClearKeeps(s: Lzw)
    requires DecoderOk(s)
    ensures DecoderOk(ClearDecompressor(s))
  {
    FirstCodeNarrow(s.minCodeSize);
  }

  /** After a new string, the width grows exactly when the next free code
      reaches 2^width, so that code stays readable. */
  lemma GrowKeeps(s: Lzw)
    requires DecoderOk(s)
    ensures DecoderOk(Grow(s))
  {
    if s.oldCode != MAX_LZW_CODE && s.nextCode < MAX_LZW_CODE {
      WidenWhen(s);
      if s.nextCode + 1 < MAX_LZW_CODE && AndNat(s.nextCode + 1, s.codeMask) == 0 {
        WidenKeeps(s);
      } else {
        StayKeeps(s);
      }
    }
  }

  /** The next code has none of the mask's bits exactly when it is 2^width. */
  lemma WidenWhen(s: Lzw)
    requires DecoderOk(s) && s.nextCode < MAX_LZW_CODE
    ensures AndNat(s.nextCode + 1, s.codeMask) == 0 <==> s.nextCode + 1 == Pow2(s.codeSize)
  {
    var next := s.nextCode + 1;
    AndLowBits(next, s.codeSize);
    NoLowBits(next, Pow2(s.codeSize));
  }

  /** The widening case: the next free code is 2^width, below 4096, and
      becomes the new top bit of the mask. */
  lemma WidenKeeps(s: Lzw)
    requires DecoderOk(s) && s.oldCode != MAX_LZW_CODE && s.nextCode < MAX_LZW_CODE - 1
    requires s.nextCode + 1 == Pow2(s.codeSize) && AndNat(s.nextCode + 1, s.codeMask) == 0
    ensures DecoderOk(Grow(s))
  {
    WidenTo(s);
    WidenOk(s);
  }

  /** The widened state: 2^width in use, one more bit and its mask. */
  lemma WidenTo(s: Lzw)
    requires s.oldCode != MAX_LZW_CODE && s.nextCode < MAX_LZW_CODE - 1
    requires s.codeMask == Pow2(s.codeSize) - 1
    requires s.nextCode + 1 == Pow2(s.codeSize) && AndNat(s.nextCode + 1, s.codeMask) == 0
    ensures Grow(s) == s.(nextCode := s.nextCode + 1, codeSize := s.codeSize + 1, codeMask := 2 * Pow2(s.codeSize) - 1)
  {
    var p := Pow2(s.codeSize);
    OrNatDisjoint(p, p - 1, 1, s.codeSize);
    OrNatComm(p - 1, p);
  }

  lemma WidenOk(s: Lzw)
    requires DecoderOk(s) && s.nextCode < MAX_LZW_CODE - 1 && s.nextCode + 1 == Pow2(s.codeSize)
    ensures DecoderOk(s.(nextCode := s.nextCode + 1, codeSize := s.codeSize + 1, codeMask := 2 * Pow2(s.codeSize) - 1))
  {
    NarrowWidth(s.codeSize);
  }

  /** The other case: a next free code that is not 2^width, or 4096. */
  lemma StayKeeps(s: Lzw)
    requires DecoderOk(s) && s.oldCode != MAX_LZW_CODE && s.nextCode < MAX_LZW_CODE
    requires s.nextCode + 1 < MAX_LZW_CODE ==> s.nextCode + 1 != Pow2(s.codeSize)
    requires s.nextCode + 1 < MAX_LZW_CODE ==> AndNat(s.nextCode + 1, s.codeMask) != 0
    ensures DecoderOk(Grow(s))
  {
    StayTo(s);
    var t := s.(nextCode := s.nextCode + 1);
    assert s.nextCode < Pow2(s.codeSize);
    assert Ready(t);
    assert t.nextCode == Pow2(t.codeSize) ==> t.nextCode == MAX_LZW_CODE;
  }

  /** Without a new top bit the state only moves on to the next code. */
  lemma StayTo(s: Lzw)
    requires s.oldCode != MAX_LZW_CODE && s.nextCode < MAX_LZW_CODE
    requires s.nextCode + 1 < MAX_LZW_CODE ==> AndNat(s.nextCode + 1, s.codeMask) != 0
    ensures Grow(s) == s.(nextCode := s.nextCode + 1)
  {
  }

  /** A positive number up to p has no bit below p exactly when it is p. */
  lemma NoLowBits(x: nat, p: nat)
    requires 0 < x <= p
    ensures x % p == 0 <==> x == p
  {
    if x < p {
      assert x / p == 0;
    }
  }

  /** A code with an entry keeps the invariant, whether it is written out
      or pushed back. */
  lemma EntryKeeps(s: Lzw, code: nat, room: nat, out: seq<byte>)
    requires DecoderOk(s) && |out| <= room && code < MAX_LZW_CODE
    ensures DecoderOk(EntryStep(s, code, room, out).s)
  {
    var s2 := AddEntry(s, code);
    assert DecoderOk(s2);
    if |s2.strings[code]| <= room - |out| {
      GrowKeeps(s2);
    }
  }

  /** The code read from the accumulator is below 2^width, hence below 4096,
      so the check as written and the check of this model agree on it. */
  lemma CodeFits(s: Lzw)
    requires DecoderOk(s) && s.partialSize >= s.codeSize
    ensures var code := AndNat(s.partial, s.codeMask);
      && code < Pow2(s.codeSize) <= MAX_LZW_CODE
      && ClassifyAsWritten(Taken(s), code) == Classify(Taken(s), code)
  {
    AndLowBits(s.partial, s.codeSize);
    if s.codeSize < 12 {
      PowMono(s.codeSize, 12);
    }
    assert Pow2(12) == MAX_LZW_CODE;
  }

  /** One code keeps the invariant. */
  lemma CodeStepKeeps(s: Lzw, room: nat, out: seq<byte>)
    requires DecoderOk(s) && |out| <= room && s.partialSize >= s.codeSize
    ensures DecoderOk(CodeStep(s, room, out).s)
  {
    ApplyKeeps(Taken(s), AndNat(s.partial, s.codeMask), room, out);
  }

  /** A code already taken keeps the invariant. */
  lemma ApplyKeeps(s: Lzw, code: nat, room: nat, out: seq<byte>)
    requires DecoderOk(s) && |out| <= room
    ensures DecoderOk(Apply(s, code, room, out).s)
  {
    match Classify(s, code)
    case Invalid =>
    case Clear => ClearKeeps(s);
    case Entry => EntryKeeps(s, code, room, out);
  }

  lemma {:induction false} CodesFromKeeps(s: Lzw, room: nat, out: seq<byte>)
    requires DecoderOk(s) && |out| <= room
    ensures DecoderOk(CodesFrom(s, room, out).s)
    decreases s.partialSize
  {
    if s.partialSize >= s.codeSize {
      var r := CodeStep(s, room, out);
      CodeStepKeeps(s, room, out);
      if !r.stop {
        CodesFromKeeps(r.s, room, r.out);
      }
    }
  }

  lemma {:induction false} BytesFromKeeps(s: Lzw, room: nat, out: seq<byte>)
    requires DecoderOk(s) && |out| <= room
    ensures DecoderOk(BytesFrom(s, room, out).0)
    decreases s.bufferSize - s.bufferPos
  {
    if s.bufferPos < s.bufferSize {
      var r := ByteStep(s, room, out);
      CodesFromKeeps(Feed(s), room, out);
      if !r.stop {
        BytesFromKeeps(r.s, room, r.out);
      }
    }
  }

  /** Decompress keeps the invariant, whatever the input and the room. */
  lemma DecompressedKeeps(s: Lzw, len: nat)
    requires DecoderOk(s)
    ensures DecoderOk(Decompressed(s, len).1)
  {
    if s.bufferSize != 0 && !s.done {
      BytesFromKeeps(s, len, []);
    }
  }

  // ---------------------------------------------------------------------
  // Minimum code sizes outside 2 to 11, as the source handles them
  // ---------------------------------------------------------------------

  /** Minimum code size 12: the first code may be 4098, the next free code,
      and the check as written lets it through as an entry of a table of
      4096 strings; the check of this model refuses it. */
  lemma WideCodeAccepted(s: Lzw)
    requires |s.strings| == MAX_LZW_CODE
    ensures var t := Initial(s, 12);
      && t.nextCode == 4098 && AndNat(4098, t.codeMask) == 4098
      && ClassifyAsWritten(t, 4098) == Entry && 4098 >= |t.strings|
      && Classify(t, 4098) == Invalid
  {
    InitializeSets(s, 12);
    AndLowBits(4098, 13);
    assert Pow2(13) == 8192;
  }

  /** Minimum code size 1: the compressor widens to 3 bits at its first new
      code, while the decompressor, after defining code 4, stays at 2 bits
      with a next free code of 5 that it cannot read. */
  lemma NarrowStartAsWritten(s: Lzw, key: nat, first: nat)
    requires |s.strings| == MAX_LZW_CODE && first < 4
    ensures var t := Initial(s, 1);
      && t.nextCode == 4 && t.codeSize == 2
      && Insert(t, key).codeSize == 3
      && var d := Grow(t.(oldCode := first));
         d.codeSize == 2 && d.nextCode == 5 > Pow2(d.codeSize)
  {
    InitializeSets(s, 1);
    var t := Initial(s, 1);
    assert Pow2(2) == 4;
    AndLowBits(5, 2);
  }
}
