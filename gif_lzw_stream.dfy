/** The decompressor of the GIF string table read one code at a time
    (Source/Plugins/PluginGIF.cpp:367-438): RunFrom applies a list of codes
    to the table, StreamFrom is the bit string those codes make when each is
    written at the width the table has when it is read, and
    DecompressReads shows that Decompress, given any bytes whose bits are
    such a stream, produces what RunFrom produces. */
module GifLzwStream {
  import opened Bytes
  import opened GifLzw
  import opened GifLzwBits
  import opened GifLzwDecoder

  /** The codes applied to the table one at a time after the output out,
      which may grow to room bytes; once a code stops the decompressor, the
      codes after it are not read. */
  function RunFrom(d: Lzw, codes: seq<nat>, room: nat, out: seq<byte>): (r: Step)
    requires Ready(d) && |out| <= room
    ensures Ready(r.s) && |out| <= |r.out| <= room && r.out[..|out|] == out
    decreases |codes|
  {
    if |codes| == 0 then Step(d, out, false)
    else
      var a := Apply(d, codes[0], room, out);
      if a.stop then a
      else
        var r := RunFrom(a.s, codes[1..], room, a.out);
        assert r.out[..|out|] == r.out[..|a.out|][..|out|];
        r
  }

  /** The bits the decompressor reads for the codes: each at the width the
      table has when it is read, up to the code that stops it. */
  function StreamFrom(d: Lzw, codes: seq<nat>, room: nat, out: seq<byte>): (b: seq<bool>)
    requires Ready(d) && |out| <= room
    decreases |codes|
  {
    if |codes| == 0 then []
    else
      var a := Apply(d, codes[0], room, out);
      NatBits(codes[0], d.codeSize) + (if a.stop then [] else StreamFrom(a.s, codes[1..], room, a.out))
  }

  /** Every code read is below 2^width at the width it is read at. */
  predicate FitsFrom(d: Lzw, codes: seq<nat>, room: nat, out: seq<byte>)
    requires Ready(d) && |out| <= room
    decreases |codes|
  {
    |codes| == 0 ||
      (codes[0] < Pow2(d.codeSize) &&
       var a := Apply(d, codes[0], room, out);
       (a.stop || FitsFrom(a.s, codes[1..], room, a.out)))
  }

  /** One more code after codes that have not stopped the decompressor:
      it is applied to the table they leave, and read at its width. */
  lemma RunSnoc(d: Lzw, codes: seq<nat>, c: nat, room: nat, out: seq<byte>)
    requires Ready(d) && |out| <= room && !RunFrom(d, codes, room, out).stop
    ensures var r := RunFrom(d, codes, room, out);
      && RunFrom(d, codes + [c], room, out) == Apply(r.s, c, room, r.out)
      && StreamFrom(d, codes + [c], room, out) == StreamFrom(d, codes, room, out) + NatBits(c, r.s.codeSize)
      && (FitsFrom(d, codes, room, out) && c < Pow2(r.s.codeSize) ==> FitsFrom(d, codes + [c], room, out))
  {
    RunSnocRun(d, codes, c, room, out);
    RunSnocStream(d, codes, c, room, out);
    RunSnocFits(d, codes, c, room, out);
  }

  /** The first code of codes + [c], and the codes after it. */
  lemma SnocSplit(codes: seq<nat>, c: nat)
    requires |codes| > 0
    ensures (codes + [c])[0] == codes[0] && (codes + [c])[1..] == codes[1..] + [c]
  {
  }

  /** ... the run: the new code is applied where codes leave the table. */
  lemma {:induction false} RunSnocRun(d: Lzw, codes: seq<nat>, c: nat, room: nat, out: seq<byte>)
    requires Ready(d) && |out| <= room && !RunFrom(d, codes, room, out).stop
    ensures RunFrom(d, codes + [c], room, out)
      == Apply(RunFrom(d, codes, room, out).s, c, room, RunFrom(d, codes, room, out).out)
    decreases |codes|
  {
    if |codes| == 0 {
      assert codes + [c] == [c];
    } else {
      var a := Apply(d, codes[0], room, out);
      SnocSplit(codes, c);
      RunSnocRun(a.s, codes[1..], c, room, a.out);
    }
  }

  /** ... the stream: the new code's bits come last. */
  lemma {:induction false} RunSnocStream(d: Lzw, codes: seq<nat>, c: nat, room: nat, out: seq<byte>)
    requires Ready(d) && |out| <= room && !RunFrom(d, codes, room, out).stop
    ensures StreamFrom(d, codes + [c], room, out)
      == StreamFrom(d, codes, room, out) + NatBits(c, RunFrom(d, codes, room, out).s.codeSize)
    decreases |codes|
  {
    if |codes| == 0 {
      assert codes + [c] == [c];
    } else {
      var a := Apply(d, codes[0], room, out);
      SnocSplit(codes, c);
      assert !a.stop && RunFrom(d, codes, room, out) == RunFrom(a.s, codes[1..], room, a.out);
      RunSnocStream(a.s, codes[1..], c, room, a.out);
      var w := NatBits(codes[0], d.codeSize);
      var more := StreamFrom(a.s, codes[1..], room, a.out);
      var last := NatBits(c, RunFrom(d, codes, room, out).s.codeSize);
      assert StreamFrom(d, codes + [c], room, out) == w + StreamFrom(a.s, codes[1..] + [c], room, a.out);
      assert StreamFrom(d, codes, room, out) == w + more;
      BitsAssoc(w, more, last);
    }
  }

  /** Concatenation of bit strings regroups. */
  lemma BitsAssoc(a: seq<bool>, b: seq<bool>, c: seq<bool>)
    ensures a + (b + c) == (a + b) + c
  {
  }

  /** ... the widths: a new code below 2^width keeps every code fitting. */
  lemma {:induction false} RunSnocFits(d: Lzw, codes: seq<nat>, c: nat, room: nat, out: seq<byte>)
    requires Ready(d) && |out| <= room && !RunFrom(d, codes, room, out).stop
    ensures FitsFrom(d, codes, room, out) && c < Pow2(RunFrom(d, codes, room, out).s.codeSize)
      ==> FitsFrom(d, codes + [c], room, out)
    decreases |codes|
  {
    if |codes| == 0 {
      assert codes + [c] == [c];
      assert [c][1..] == [];
    } else {
      var a := Apply(d, codes[0], room, out);
      SnocSplit(codes, c);
      RunSnocFits(a.s, codes[1..], c, room, a.out);
    }
  }

  /** s is d with s's own input and accumulator. */
  predicate SameTable(s: Lzw, d: Lzw)
  {
    s == d.(buffer := s.buffer, bufferSize := s.bufferSize, bufferPos := s.bufferPos,
            bufferShift := s.bufferShift, partial := s.partial, partialSize := s.partialSize)
  }

  /** The decompressor's step does not look at the input or the pending
      bits: with the same table it writes the same bytes and stops at the
      same code, and, when it goes on, leaves the same table. */
  lemma ApplyFrame(s: Lzw, d: Lzw, code: nat, room: nat, out: seq<byte>)
    requires Ready(s) && Ready(d) && |out| <= room && SameTable(s, d)
    ensures var a, b := Apply(s, code, room, out), Apply(d, code, room, out);
      && a.out == b.out && a.stop == b.stop
      && (!a.stop ==> a.s.partial == s.partial && a.s.partialSize == s.partialSize && SameTable(a.s, b.s))
  {
    match Classify(d, code)
    case Invalid =>
    case Clear => ClearFrame(s, d);
    case Entry => EntryFrame(s, d, code, room, out);
  }

  lemma ClearFrame(s: Lzw, d: Lzw)
    requires Ready(s) && Ready(d) && SameTable(s, d)
    ensures var a, b := ClearDecompressor(s), ClearDecompressor(d);
      a.partial == s.partial && a.partialSize == s.partialSize && SameTable(a, b)
  {
  }

  lemma EntryFrame(s: Lzw, d: Lzw, code: nat, room: nat, out: seq<byte>)
    requires Ready(s) && Ready(d) && |out| <= room && SameTable(s, d) && code < MAX_LZW_CODE
    ensures var a, b := EntryStep(s, code, room, out), EntryStep(d, code, room, out);
      && a.out == b.out && a.stop == b.stop
      && (!a.stop ==> a.s.partial == s.partial && a.s.partialSize == s.partialSize && SameTable(a.s, b.s))
  {
    var s2, d2 := AddEntry(s, code), AddEntry(d, code);
    AddEntryFrame(s, d, code);
    if |d2.strings[code]| <= room - |out| {
      GrowFrame(s2, d2, code);
    }
  }

  lemma AddEntryFrame(s: Lzw, d: Lzw, code: nat)
    requires Ready(s) && Ready(d) && SameTable(s, d) && code < MAX_LZW_CODE
    ensures var a, b := AddEntry(s, code), AddEntry(d, code);
      a.partial == s.partial && a.partialSize == s.partialSize && SameTable(a, b)
  {
  }

  lemma GrowFrame(s: Lzw, d: Lzw, code: nat)
    requires SameTable(s, d)
    ensures var a, b := Grow(s).(oldCode := code), Grow(d).(oldCode := code);
      a.partial == s.partial && a.partialSize == s.partialSize && SameTable(a, b)
  {
  }

  /** What a table shares with a decompressor of the same table. */
  lemma SameFields(s: Lzw, d: Lzw)
    requires SameTable(s, d)
    ensures s.codeSize == d.codeSize && s.codeMask == d.codeMask && s.nextCode == d.nextCode
    ensures s.clearCode == d.clearCode && s.endCode == d.endCode && s.done == d.done
  {
  }

  // ---------------------------------------------------------------------
  // Decompress reads the codes of its stream
  // ---------------------------------------------------------------------

  /** The decompressor s with the input bytes from pos on still to read:
      its table is d's, and its pending bits and those bytes are the
      stream of the codes still to come, then a tail too short to hold a
      code unless a code stops the decompressor first. */
  predicate Pending(s: Lzw, pos: nat, d: Lzw, rest: seq<nat>, room: nat, out: seq<byte>, tail: seq<bool>)
  {
    && DecoderOk(d) && Ready(s) && SameTable(s, d) && |out| <= room
    && pos <= s.bufferSize && s.partial < Pow2(s.partialSize)
    && NatBits(s.partial, s.partialSize) + BitsOf(s.buffer[pos..s.bufferSize]) == StreamFrom(d, rest, room, out) + tail
    && FitsFrom(d, rest, room, out)
    && (!RunFrom(d, rest, room, out).stop ==> |tail| < RunFrom(d, rest, room, out).s.codeSize)
  }

  /** A code's width pending means a code still to come. */
  lemma MoreCodes(s: Lzw, pos: nat, d: Lzw, rest: seq<nat>, room: nat, out: seq<byte>, tail: seq<bool>)
    requires Pending(s, pos, d, rest, room, out, tail) && s.partialSize >= s.codeSize
    ensures |rest| > 0
  {
    assert |NatBits(s.partial, s.partialSize) + BitsOf(s.buffer[pos..s.bufferSize])| >= s.codeSize;
    if |rest| == 0 {
      assert false;
    }
  }

  /** The code the mask takes from the pending bits is the next code; the
      decompressor goes on from there with the codes after it. */
  lemma NextCode(s: Lzw, pos: nat, d: Lzw, rest: seq<nat>, room: nat, out: seq<byte>, tail: seq<bool>)
    requires Pending(s, pos, d, rest, room, out, tail) && s.partialSize >= s.codeSize
    ensures |rest| > 0 && AndNat(s.partial, s.codeMask) == rest[0]
    ensures var a, b := Apply(d, rest[0], room, out), CodeStep(s, room, out);
      && b.out == a.out && b.stop == a.stop
      && (a.stop ==> RunFrom(d, rest, room, out) == a)
      && (!a.stop ==> Pending(b.s, pos, a.s, rest[1..], room, a.out, tail)
                      && RunFrom(a.s, rest[1..], room, a.out) == RunFrom(d, rest, room, out))
  {
    MoreCodes(s, pos, d, rest, room, out, tail);
    SameFields(s, d);
    var c := rest[0];
    var a := Apply(d, c, room, out);
    var t := Taken(s);
    var later := if a.stop then [] else StreamFrom(a.s, rest[1..], room, a.out);
    assert StreamFrom(d, rest, room, out) == NatBits(c, d.codeSize) + later;
    TakeHead(s.partial, s.partialSize, s.codeSize, s.codeMask, c, BitsOf(s.buffer[pos..s.bufferSize]), later, tail);
    ApplyFrame(t, d, c, room, out);
    if !a.stop {
      ApplyKeeps(d, c, room, out);
    }
  }

  /** Splitting the pending bits at the width of the next code. */
  lemma TakeHead(p: nat, ps: nat, w: nat, mask: nat, code: nat, rest: seq<bool>, later: seq<bool>, tail: seq<bool>)
    requires w <= ps && p < Pow2(ps) && code < Pow2(w) && mask == Pow2(w) - 1
    requires NatBits(p, ps) + rest == (NatBits(code, w) + later) + tail
    ensures AndNat(p, mask) == code && Shr(p, w) < Pow2(ps - w)
    ensures NatBits(Shr(p, w), ps - w) + rest == later + tail
  {
    Take(p, ps, w);
    var low := p % Pow2(w);
    var a, b := NatBits(low, w), NatBits(Shr(p, w), ps - w);
    assert (a + b) + rest == a + (b + rest);
    assert (NatBits(code, w) + later) + tail == NatBits(code, w) + (later + tail);
    HeadSplit(a, b + rest, NatBits(code, w), later + tail);
    NatBitsSame(low, code, w);
    DivModOf(0, Pow2(w), low);
    DivModOf(0, Pow2(w), code);
    AndLowBits(p, w);
  }

  /** Two concatenations that agree, with first parts of one length, agree
      part by part. */
  lemma HeadSplit(a: seq<bool>, b: seq<bool>, c: seq<bool>, e: seq<bool>)
    requires a + b == c + e && |a| == |c|
    ensures a == c && b == e
  {
    assert a == (a + b)[..|a|] && c == (c + e)[..|c|];
    assert b == (a + b)[|a|..] && e == (c + e)[|c|..];
  }

  /** The inner loop of Decompress follows RunFrom: it stops where RunFrom
      stops, with the same output, or else leaves fewer bits than a code. */
  lemma {:induction false} CodesFromReads(s: Lzw, pos: nat, d: Lzw, rest: seq<nat>, room: nat, out: seq<byte>, tail: seq<bool>)
    returns (d': Lzw, rest': seq<nat>)
    requires Pending(s, pos, d, rest, room, out, tail)
    ensures var r := CodesFrom(s, room, out);
      && (r.stop ==> r.out == RunFrom(d, rest, room, out).out)
      && (!r.stop ==> Pending(r.s, pos, d', rest', room, r.out, tail) && r.s.partialSize < r.s.codeSize
                      && RunFrom(d', rest', room, r.out) == RunFrom(d, rest, room, out))
    decreases s.partialSize
  {
    d', rest' := d, rest;
    if s.partialSize < s.codeSize {
      return;
    }
    NextCode(s, pos, d, rest, room, out, tail);
    var a, b := Apply(d, rest[0], room, out), CodeStep(s, room, out);
    CodesFromNext(s, room, out, b);
    if !b.stop {
      d', rest' := CodesFromReads(b.s, pos, a.s, rest[1..], room, a.out, tail);
    }
  }

  /** Byte pos goes above the pending bits. */
  lemma FedReads(s: Lzw, pos: nat, d: Lzw, rest: seq<nat>, room: nat, out: seq<byte>, tail: seq<bool>)
    requires Pending(s, pos, d, rest, room, out, tail) && s.bufferPos == pos < s.bufferSize
    ensures Pending(Feed(s), pos + 1, d, rest, room, out, tail)
  {
    FeedBits(s);
    FeedFrame(s, d);
    PendingMoves(s, pos, Feed(s), pos + 1, d, rest, room, out, tail);
  }

  /** Feeding byte bufferPos moves its bits from the input to the top of
      the pending bits. */
  lemma FeedBits(s: Lzw)
    requires s.partialSize >= 0 && s.partial < Pow2(s.partialSize) && s.bufferPos < s.bufferSize <= |s.buffer|
    ensures Feed(s).partial < Pow2(Feed(s).partialSize)
    ensures NatBits(Feed(s).partial, Feed(s).partialSize) + BitsOf(s.buffer[s.bufferPos + 1..s.bufferSize])
      == NatBits(s.partial, s.partialSize) + BitsOf(s.buffer[s.bufferPos..s.bufferSize])
  {
    var pos := s.bufferPos;
    assert s.buffer[pos..s.bufferSize] == [s.buffer[pos]] + s.buffer[pos + 1..s.bufferSize];
    FedBits(s.partial, s.partialSize, s.buffer[pos], s.buffer[pos + 1..s.bufferSize]);
  }

  /** Feeding a byte touches only the pending bits. */
  lemma FeedFrame(s: Lzw, d: Lzw)
    requires Ready(s) && SameTable(s, d) && s.bufferPos < s.bufferSize
    ensures Ready(Feed(s)) && SameTable(Feed(s), d)
    ensures Feed(s).buffer == s.buffer && Feed(s).bufferSize == s.bufferSize
  {
  }

  /** Pending bits and input that spell the same string leave the same
      codes to come. */
  lemma PendingMoves(s: Lzw, pos: nat, f: Lzw, pos': nat, d: Lzw, rest: seq<nat>, room: nat, out: seq<byte>, tail: seq<bool>)
    requires Pending(s, pos, d, rest, room, out, tail)
    requires Ready(f) && SameTable(f, d) && pos' <= f.bufferSize && f.partial < Pow2(f.partialSize)
    requires NatBits(f.partial, f.partialSize) + BitsOf(f.buffer[pos'..f.bufferSize])
      == NatBits(s.partial, s.partialSize) + BitsOf(s.buffer[pos..s.bufferSize])
    ensures Pending(f, pos', d, rest, room, out, tail)
  {
  }

  /** The bits of a byte go above the pending bits. */
  lemma FedBits(p: nat, ps: nat, x: byte, more: seq<byte>)
    requires p < Pow2(ps)
    ensures var q := OrNat(p, Shl(x as nat, ps));
      q < Pow2(ps + 8) && NatBits(p, ps) + BitsOf([x] + more) == NatBits(q, ps + 8) + BitsOf(more)
  {
    Append(p, ps, x as nat, 8);
    assert Pow2(8) == 256;
    BitsOfAppend([x], more);
    assert [x][..0] == [];
  }

  /** With the input used up and fewer bits pending than a code, every
      code has been read. */
  lemma InputUsed(s: Lzw, d: Lzw, rest: seq<nat>, room: nat, out: seq<byte>, tail: seq<bool>)
    requires Pending(s, s.bufferSize, d, rest, room, out, tail) && s.partialSize < s.codeSize
    ensures out == RunFrom(d, rest, room, out).out
  {
    if |rest| > 0 {
      assert false;
    }
  }

  /** The outer loop of Decompress follows RunFrom: from byte pos on, it
      ends with RunFrom's output. */
  lemma {:induction false} BytesFromReads(s: Lzw, d: Lzw, rest: seq<nat>, room: nat, out: seq<byte>, tail: seq<bool>)
    requires Pending(s, s.bufferPos, d, rest, room, out, tail) && s.partialSize < s.codeSize
    ensures BytesFrom(s, room, out).1 == RunFrom(d, rest, room, out).out
    decreases s.bufferSize - s.bufferPos
  {
    var i := s.bufferPos;
    if i >= s.bufferSize {
      InputUsed(s, d, rest, room, out, tail);
      return;
    }
    var f := Feed(s);
    FedReads(s, i, d, rest, room, out, tail);
    var d', rest' := CodesFromReads(f, i + 1, d, rest, room, out, tail);
    var r := CodesFrom(f, room, out);
    if !r.stop {
      BytesFromReads(r.s.(bufferPos := i + 1), d', rest', room, r.out, tail);
    }
  }

  /** New input keeps the table and leaves the state ready. */
  lemma FilledReady(s: Lzw, data: seq<byte>)
    requires Ready(s)
    ensures Ready(Filled(s, data)) && SameTable(Filled(s, data), s)
  {
    assert (8 - s.bpp) % s.bpp == 0 by {
      if s.bpp == 1 { } else if s.bpp == 2 { } else if s.bpp == 4 { } else { }
    }
  }

  /** Decompress over a whole input in one call: the output is what RunFrom
      gives for the codes of the input's stream. */
  lemma DecompressReads(d0: Lzw, codes: seq<nat>, room: nat, bytes: seq<byte>, tail: seq<bool>)
    requires DecoderOk(d0) && !d0.done && d0.partial == 0 && d0.partialSize == 0
    requires BitsOf(bytes) == StreamFrom(d0, codes, room, []) + tail && FitsFrom(d0, codes, room, [])
    requires !RunFrom(d0, codes, room, []).stop ==> |tail| < RunFrom(d0, codes, room, []).s.codeSize
    ensures Decompressed(Filled(d0, bytes), room).2 == RunFrom(d0, codes, room, []).out
  {
    var s := Filled(d0, bytes);
    if |bytes| == 0 {
      if |codes| > 0 {
        assert false;
      }
    } else {
      assert s.buffer[0..s.bufferSize] == bytes;
      assert NatBits(0, 0) == [];
      FilledReady(d0, bytes);
      assert Pending(s, 0, d0, codes, room, [], tail);
      BytesFromReads(s, d0, codes, room, [], tail);
    }
  }
}
