/** The BI_RLE8 codec of the BMP plugin as the source runs it: RLEEncodeLine
    filling its target buffer, Save writing the encoded scanlines, and
    LoadPixelDataRLE8 decoding into the scanlines of a bitmap
    (Source/Plugins/PluginBMP.cpp). Each is proved against its function in
    BmpRle8. */
module BmpRle8Codec {
  import opened Wrappers
  import opened Bytes
  import opened BmpRle8
  import opened Bitmap

  /** memcpy(target + pos, buffer, size). */
  method CopyBytes(target: array<byte>, pos: nat, buffer: array<byte>, size: nat)
    requires target != buffer && size <= buffer.Length && pos + size <= target.Length
    modifies target
    ensures target[pos..pos + size] == buffer[..size]
    ensures forall k :: 0 <= k < target.Length && !(pos <= k < pos + size) ==> target[k] == old(target[k])
  {
    var k := 0;
    while k < size
      invariant 0 <= k <= size
      invariant target[pos..pos + k] == buffer[..k]
      invariant forall m :: 0 <= m < target.Length && !(pos <= m < pos + k) ==> target[m] == old(target[m])
    {
      target[pos + k] := buffer[k];
      k := k + 1;
    }
  }

  /** An absolute run of the size buffered bytes: RLE_COMMAND, the count,
      the bytes; the pad position after an odd count is stepped over, not
      written. */
  method WriteAbsolute(target: array<byte>, pos: nat, buffer: array<byte>, size: nat) returns (next: nat)
    requires target != buffer && 3 <= size <= 254 && size <= buffer.Length
    requires pos + Size(Literal(buffer[..size])) <= target.Length
    modifies target
    ensures next == pos + Size(Literal(buffer[..size]))
    ensures TokenAt(target[..], pos, Literal(buffer[..size]))
    ensures Agree(old(target[..]), 0, target[..], 0, pos)
  {
    target[pos] := RLE_COMMAND;
    target[pos + 1] := size as byte;
    CopyBytes(target, pos + 2, buffer, size);
    next := pos + 2 + size;
    if size % 2 == 1 {
      next := next + 1;
    }
    assert target[..][pos + 2..pos + 2 + size] == buffer[..size];
  }

  /** The switch on buffer_size that empties the literal buffer. Its cases
      are written as RLE_DELTA (2) and RLE_ENDOFBITMAP (1) in the source. */
  method FlushBuffer(target: array<byte>, pos: nat, buffer: array<byte>, size: nat) returns (next: nat)
    requires target != buffer && size < 254 && size <= buffer.Length
    requires pos + SizeAll(Flush(buffer[..size])) <= target.Length
    modifies target
    ensures next == pos + SizeAll(Flush(buffer[..size]))
    ensures TokensAt(target[..], pos, Flush(buffer[..size]))
    ensures Agree(old(target[..]), 0, target[..], 0, pos)
  {
    ghost var ts := Flush(buffer[..size]);
    if size == 0 {
      next := pos;
    } else if size == RLE_DELTA as int {
      assert ts == [Run(1, buffer[0]), Run(1, buffer[1])];
      assert ts[1..] == [Run(1, buffer[1])] && ts[1..][1..] == [];
      assert SizeAll(ts) == 4 by {
        assert SizeAll(ts[1..]) == 2 + SizeAll(ts[1..][1..]);
      }
      target[pos] := 1;
      target[pos + 1] := buffer[0];
      target[pos + 2] := 1;
      target[pos + 3] := buffer[1];
      next := pos + 4;
      assert TokensAt(target[..], pos + 4, ts[1..][1..]);
      assert TokensAt(target[..], pos + 2, ts[1..]);
    } else if size == RLE_ENDOFBITMAP as int {
      assert ts == [Run(1, buffer[0])] && ts[1..] == [];
      target[pos] := size as byte;
      target[pos + 1] := buffer[0];
      next := pos + 2;
      assert TokensAt(target[..], pos + 2, ts[1..]);
    } else {
      assert ts == [Literal(buffer[..size])] && ts[1..] == [];
      next := WriteAbsolute(target, pos, buffer, size);
      assert TokensAt(target[..], next, ts[1..]);
    }
  }

  /** buffer[bufferSize++] = b, followed by the check that writes the
      buffer out as an absolute run once it holds 254 bytes. */
  method PushByte(target: array<byte>, pos: nat, buffer: array<byte>, size: nat, b: byte)
    returns (next: nat, size': nat)
    requires target != buffer && buffer.Length == 256 && size < 254
    requires pos + SizeAll(Push(buffer[..size], b).0) <= target.Length
    modifies target, buffer
    ensures next == pos + SizeAll(Push(old(buffer[..size]), b).0)
    ensures TokensAt(target[..], pos, Push(old(buffer[..size]), b).0)
    ensures size' < 254 && buffer[..size'] == Push(old(buffer[..size]), b).1
    ensures Agree(old(target[..]), 0, target[..], 0, pos)
  {
    ghost var buf := buffer[..size];
    buffer[size] := b;
    size' := size + 1;
    assert buffer[..size'] == buf + [b];
    next := pos;
    if size' == 254 {
      ghost var lit := Literal(buffer[..size']);
      assert [lit][1..] == [];
      assert SizeAll([lit]) == Size(lit) + SizeAll([lit][1..]);
      next := WriteAbsolute(target, pos, buffer, size');
      assert TokensAt(target[..], pos, [lit]);
      size' := 0;
      assert buffer[..size'] == [];
    }
  }

  /** The state of the short-block loop at index k with buf in the literal
      buffer: the tokens emitted so far, followed by those still to come,
      make up the tokens total of the whole block, and the emitted ones are
      written in data from pos up to next. */
  predicate Filling(data: seq<byte>, pos: nat, s: seq<byte>, k: nat, end: nat, buf: seq<byte>,
                    done: seq<Token>, next: nat, total: (seq<Token>, seq<byte>))
  {
    k <= end <= |s| && |buf| < 254
    && done + AppendLiteral(buf, s, k, end).0 == total.0 && AppendLiteral(buf, s, k, end).1 == total.1
    && TokensAt(data, pos, done) && next == pos + SizeAll(done)
  }

  lemma FillingRoom(data: seq<byte>, pos: nat, s: seq<byte>, k: nat, end: nat, buf: seq<byte>,
                    done: seq<Token>, next: nat, total: (seq<Token>, seq<byte>))
    requires Filling(data, pos, s, k, end, buf, done, next, total) && k < end
    ensures next + SizeAll(Push(buf, s[k]).0) <= pos + SizeAll(total.0)
  {
    var one := Push(buf, s[k]);
    var rest := AppendLiteral(one.1, s, k + 1, end);
    SizeAllAppend(one.0, rest.0);
    SizeAllAppend(done, one.0 + rest.0);
  }

  lemma FillingStep(before: seq<byte>, after: seq<byte>, pos: nat, s: seq<byte>, k: nat, end: nat,
                    buf: seq<byte>, done: seq<Token>, next: nat, total: (seq<Token>, seq<byte>))
    returns (done': seq<Token>)
    requires Filling(before, pos, s, k, end, buf, done, next, total) && k < end
    requires Agree(before, 0, after, 0, next) && TokensAt(after, next, Push(buf, s[k]).0)
    ensures Filling(after, pos, s, k + 1, end, Push(buf, s[k]).1, done', next + SizeAll(Push(buf, s[k]).0), total)
  {
    var one := Push(buf, s[k]);
    var rest := AppendLiteral(one.1, s, k + 1, end);
    Extend(before, after, pos, done, one.0);
    TokensAssoc(done, one.0, rest.0);
    done' := done + one.0;
  }

  lemma FillingEnd(data: seq<byte>, pos: nat, s: seq<byte>, end: nat, buf: seq<byte>,
                   done: seq<Token>, next: nat, total: (seq<Token>, seq<byte>))
    requires Filling(data, pos, s, end, end, buf, done, next, total)
    ensures TokensAt(data, pos, total.0) && next == pos + SizeAll(total.0) && buf == total.1
  {
    assert done + [] == done;
  }

  /** The inner loop of the short-block branch: the bytes source[from..end]
      go into the literal buffer one at a time, each through PushByte. */
  method AppendBytes(target: array<byte>, pos: nat, buffer: array<byte>, size: nat,
                     source: seq<byte>, from: nat, end: nat)
    returns (next: nat, size': nat)
    requires target != buffer && buffer.Length == 256 && size < 254 && from <= end <= |source|
    requires pos + SizeAll(AppendLiteral(buffer[..size], source, from, end).0) <= target.Length
    modifies target, buffer
    ensures next == pos + SizeAll(AppendLiteral(old(buffer[..size]), source, from, end).0)
    ensures TokensAt(target[..], pos, AppendLiteral(old(buffer[..size]), source, from, end).0)
    ensures size' < 254 && buffer[..size'] == AppendLiteral(old(buffer[..size]), source, from, end).1
    ensures Agree(old(target[..]), 0, target[..], 0, pos)
  {
    ghost var total := AppendLiteral(buffer[..size], source, from, end);
    ghost var done: seq<Token> := [];
    next, size' := pos, size;
    var k := from;
    assert Filling(target[..], pos, source, k, end, buffer[..size'], done, next, total);
    while k < end
      invariant size' < 254
      invariant Filling(target[..], pos, source, k, end, buffer[..size'], done, next, total)
      invariant Agree(old(target[..]), 0, target[..], 0, pos)
      decreases end - k
    {
      ghost var buf := buffer[..size'];
      ghost var before := target[..];
      FillingRoom(before, pos, source, k, end, buf, done, next, total);
      var p;
      p, size' := PushByte(target, next, buffer, size', source[k]);
      done := FillingStep(before, target[..], pos, source, k, end, buf, done, next, total);
      AgreeTrans(old(target[..]), before, target[..], pos, next);
      next := p;
      k := k + 1;
    }
    FillingEnd(target[..], pos, source, end, buffer[..size'], done, next, total);
  }

  /** The encoded-run branch: the literal buffer is emptied, then the
      count and the repeated byte are written. */
  method WriteRun(target: array<byte>, pos: nat, buffer: array<byte>, size: nat, count: nat, value: byte)
    returns (next: nat)
    requires target != buffer && buffer.Length == 256 && size < 254 && 4 <= count <= 255
    requires pos + SizeAll(Flush(buffer[..size]) + [Run(count, value)]) <= target.Length
    modifies target
    ensures next == pos + SizeAll(Flush(buffer[..size]) + [Run(count, value)])
    ensures TokensAt(target[..], pos, Flush(buffer[..size]) + [Run(count, value)])
    ensures Agree(old(target[..]), 0, target[..], 0, pos)
  {
    ghost var buf := buffer[..size];
    ghost var run := Run(count, value);
    SizeAllAppend(Flush(buf), [run]);
    TokensAtSingle(target[..], 0, run);
    var p := FlushBuffer(target, pos, buffer, size);
    ghost var mid := target[..];
    target[p] := count as byte;
    target[p + 1] := value;
    next := p + 2;
    assert Agree(mid, 0, target[..], 0, p);
    TokensAtSingle(target[..], p, run);
    Extend(mid, target[..], pos, Flush(buf), [run]);
    AgreeTrans(old(target[..]), mid, target[..], pos, p);
  }

  /** The scan for the end of a run of bytes equal to source[i], entered
      when source[i + 1] repeats it: it stops at the second-to-last byte, at
      i + 254 or at the first change, so a run holds at most 255 bytes. */
  method ScanRun(source: seq<byte>, i: nat) returns (j: nat)
    requires i < |source| - 1 && source[i] == source[i + 1]
    ensures j == PassEnd(source, i)
  {
    j := i + 1;
    var jmax := 254 + i;
    while j < |source| - 1 && j < jmax && source[j] == source[j + 1]
      invariant i < j < |source| && j <= i + 254
      invariant RunEnd(source, i, j) == PassEnd(source, i)
      decreases |source| - j
    {
      j := j + 1;
    }
  }

  /** One pass of the main loop of RLEEncodeLine from index i, up to the
      ++i: the block of bytes equal to source[i] is measured; a block of four
      or more is written as an encoded run after the literal buffer is
      emptied, a shorter one goes into the literal buffer. Returns the last
      index of the block. */
  method EncodePass(target: array<byte>, pos: nat, buffer: array<byte>, size: nat, source: seq<byte>, i: nat)
    returns (next: nat, size': nat, j: nat)
    requires target != buffer && buffer.Length == 256 && size < 254 && i < |source|
    requires pos + SizeAll(EncodeStep(source, i, buffer[..size]).emitted) <= target.Length
    modifies target, buffer
    ensures j + 1 == EncodeStep(source, i, old(buffer[..size])).next
    ensures size' < 254 && buffer[..size'] == EncodeStep(source, i, old(buffer[..size])).buf
    ensures next == pos + SizeAll(EncodeStep(source, i, old(buffer[..size])).emitted)
    ensures TokensAt(target[..], pos, EncodeStep(source, i, old(buffer[..size])).emitted)
    ensures Agree(old(target[..]), 0, target[..], 0, pos)
  {
    ghost var buf := buffer[..size];
    ghost var st := EncodeStep(source, i, buf);
    if i < |source| - 1 && source[i] == source[i + 1] {
      j := ScanRun(source, i);
      if j - i + 1 > 3 {
        assert st.emitted == Flush(buf) + [Run(j - i + 1, source[i])];
        next := WriteRun(target, pos, buffer, size, j - i + 1, source[i]);
        size' := 0;
        assert buffer[..size'] == [];
      } else {
        next, size' := AppendBytes(target, pos, buffer, size, source, i, j + 1);
      }
    } else {
      j := i;
      assert AppendLiteral(buf, source, i, i + 1) == (Push(buf, source[i]).0 + [], Push(buf, source[i]).1);
      assert Push(buf, source[i]).0 + [] == Push(buf, source[i]).0;
      next, size' := PushByte(target, pos, buffer, size, source[i]);
    }
  }

  /** The end of RLEEncodeLine: the literal buffer is emptied and the
      end-of-line escape written; returns the offset after it. */
  method EndLine(target: array<byte>, pos: nat, buffer: array<byte>, size: nat) returns (n: nat)
    requires target != buffer && buffer.Length == 256 && size < 254
    requires pos + SizeAll(Flush(buffer[..size])) + 2 <= target.Length
    modifies target
    ensures n == pos + SizeAll(Flush(buffer[..size])) + 2
    ensures TokensAt(target[..], pos, Flush(buffer[..size]))
    ensures EscapeAt(target[..], n - 2, RLE_ENDOFLINE)
    ensures Agree(old(target[..]), 0, target[..], 0, pos)
  {
    ghost var buf := buffer[..size];
    var p := FlushBuffer(target, pos, buffer, size);
    ghost var mid := target[..];
    target[p] := RLE_COMMAND;
    target[p + 1] := RLE_ENDOFLINE;
    n := p + 2;
    assert Agree(mid, 0, target[..], 0, p);
    AgreeSplit(mid, 0, target[..], 0, pos, p - pos);
    TokensAtMoves(mid, pos, target[..], pos, Flush(buf));
    AgreeTrans(old(target[..]), mid, target[..], pos, p);
  }

  /** The state of RLEEncodeLine's main loop at index i with buf in the
      literal buffer: the tokens emitted so far, followed by those still to
      come, make up the line's tokens, and the emitted ones are written at
      the start of data, up to pos. */
  predicate Progress(data: seq<byte>, s: seq<byte>, i: nat, buf: seq<byte>, emitted: seq<Token>, pos: nat)
  {
    i <= |s| && |buf| < 254
    && emitted + EncodeFrom(s, i, buf) == LineTokens(s)
    && TokensAt(data, 0, emitted) && pos == SizeAll(emitted)
  }

  lemma ProgressStart(data: seq<byte>, s: seq<byte>)
    ensures Progress(data, s, 0, [], [], 0)
  {
    assert [] + EncodeFrom(s, 0, []) == LineTokens(s);
  }

  /** The tokens of the next pass fit in what is left of the line. */
  lemma ProgressRoom(data: seq<byte>, s: seq<byte>, i: nat, buf: seq<byte>, emitted: seq<Token>, pos: nat)
    requires Progress(data, s, i, buf, emitted, pos) && i < |s|
    ensures pos + SizeAll(EncodeStep(s, i, buf).emitted) <= SizeAll(LineTokens(s))
  {
    var st := EncodeStep(s, i, buf);
    assert EncodeFrom(s, i, buf) == st.emitted + EncodeFrom(s, st.next, st.buf);
    SizeAllAppend(st.emitted, EncodeFrom(s, st.next, st.buf));
    SizeAllAppend(emitted, EncodeFrom(s, i, buf));
  }

  /** Writing the tokens of one pass after the emitted ones, without
      disturbing them, moves the loop to its next state. */
  lemma ProgressStep(before: seq<byte>, after: seq<byte>, s: seq<byte>, i: nat, buf: seq<byte>,
                     emitted: seq<Token>, pos: nat)
    returns (emitted': seq<Token>)
    requires Progress(before, s, i, buf, emitted, pos) && i < |s|
    requires Agree(before, 0, after, 0, pos) && TokensAt(after, pos, EncodeStep(s, i, buf).emitted)
    ensures Progress(after, s, EncodeStep(s, i, buf).next, EncodeStep(s, i, buf).buf, emitted',
                     pos + SizeAll(EncodeStep(s, i, buf).emitted))
  {
    var st := EncodeStep(s, i, buf);
    var rest := EncodeFrom(s, st.next, st.buf);
    assert EncodeFrom(s, i, buf) == st.emitted + rest;
    SizeAllAppend(st.emitted, rest);
    Extend(before, after, 0, emitted, st.emitted);
    TokensAssoc(emitted, st.emitted, rest);
    emitted' := emitted + st.emitted;
  }

  /** What is left to write after the last pass fits the line. */
  lemma ProgressLast(data: seq<byte>, s: seq<byte>, buf: seq<byte>, emitted: seq<Token>, pos: nat)
    requires Progress(data, s, |s|, buf, emitted, pos)
    ensures pos + SizeAll(Flush(buf)) + 2 == LineSize(LineTokens(s))
  {
    assert EncodeFrom(s, |s|, buf) == Flush(buf);
    SizeAllAppend(emitted, Flush(buf));
  }

  /** After the last pass, the emitted tokens and the flushed buffer are the
      whole line. */
  lemma ProgressEnd(before: seq<byte>, after: seq<byte>, s: seq<byte>, buf: seq<byte>,
                    emitted: seq<Token>, pos: nat)
    requires Progress(before, s, |s|, buf, emitted, pos)
    requires Agree(before, 0, after, 0, pos) && TokensAt(after, pos, Flush(buf))
    requires EscapeAt(after, pos + SizeAll(Flush(buf)), RLE_ENDOFLINE)
    ensures LineAt(after, 0, LineTokens(s)) && pos + SizeAll(Flush(buf)) + 2 == LineSize(LineTokens(s))
  {
    var ts := Flush(buf);
    assert EncodeFrom(s, |s|, buf) == ts;
    assert emitted + ts == LineTokens(s);
    Extend(before, after, 0, emitted, ts);
    assert pos + SizeAll(ts) == SizeAll(emitted + ts);
    assert LineAt(after, 0, emitted + ts);
  }

  /** The main loop of RLEEncodeLine, over the whole of source, from an
      empty literal buffer and an empty target. */
  method EncodeLoop(target: array<byte>, buffer: array<byte>, source: seq<byte>)
    returns (targetPos: nat, bufferSize: nat, ghost emitted: seq<Token>)
    requires target != buffer && buffer.Length == 256
    requires LineSize(LineTokens(source)) <= target.Length
    modifies target, buffer
    ensures bufferSize < 254 && Progress(target[..], source, |source|, buffer[..bufferSize], emitted, targetPos)
  {
    bufferSize, targetPos, emitted := 0, 0, [];
    var i := 0;
    assert buffer[..bufferSize] == [];
    ProgressStart(target[..], source);
    while i < |source|
      invariant bufferSize < 254
      invariant Progress(target[..], source, i, buffer[..bufferSize], emitted, targetPos)
      decreases |source| - i
    {
      targetPos, bufferSize, i, emitted := EncodeNext(target, buffer, source, i, targetPos, bufferSize, emitted);
    }
  }

  /** One pass of the main loop keeps the encoder's progress. */
  method EncodeNext(target: array<byte>, buffer: array<byte>, source: seq<byte>, i: nat, pos: nat, size: nat,
                    ghost emitted: seq<Token>)
    returns (pos': nat, size': nat, i': nat, ghost emitted': seq<Token>)
    requires target != buffer && buffer.Length == 256 && i < |source| && size < 254
    requires LineSize(LineTokens(source)) <= target.Length
    requires Progress(target[..], source, i, buffer[..size], emitted, pos)
    modifies target, buffer
    ensures i < i' && size' < 254
    ensures Progress(target[..], source, i', buffer[..size'], emitted', pos')
  {
    ghost var buf := buffer[..size];
    ghost var before := target[..];
    ghost var st := EncodeStep(source, i, buf);
    ProgressRoom(before, source, i, buf, emitted, pos);
    var j;
    pos', size', j := EncodePass(target, pos, buffer, size, source, i);
    assert buffer[..size'] == st.buf && j + 1 == st.next;
    emitted' := ProgressStep(before, target[..], source, i, buf, emitted, pos);
    i' := j + 1;
  }

  /** RLEEncodeLine: encodes the size bytes of source into target and
      returns the number of bytes it counts, pad positions included. The
      tokens are those of LineTokens, followed by the end-of-line escape. */
  method RleEncodeLine(target: array<byte>, source: seq<byte>) returns (n: nat)
    requires LineSize(LineTokens(source)) <= target.Length
    modifies target
    ensures n == LineSize(LineTokens(source))
    ensures LineAt(target[..], 0, LineTokens(source))
  {
    var buffer := new byte[256];
    var targetPos, bufferSize, emitted := EncodeLoop(target, buffer, source);
    ghost var buf := buffer[..bufferSize];
    ghost var before := target[..];
    ProgressLast(before, source, buf, emitted, targetPos);
    n := EndLine(target, targetPos, buffer, bufferSize);
    ProgressEnd(before, target[..], source, buf, emitted, targetPos);
  }

  // ---------------------------------------------------------------------
  // Save, BI_RLE8 branch
  // ---------------------------------------------------------------------

  /** The first n bytes of target hold the encoded line, so they can be
      written out on their own. */
  lemma LineCut(data: seq<byte>, n: nat, ts: seq<Token>)
    requires LineAt(data, 0, ts) && n == LineSize(ts)
    ensures n <= |data| && LineAt(data[..n], 0, ts)
  {
    assert Agree(data, 0, data[..n], 0, n) by {
      forall k | 0 <= k < n
        ensures At(data, 0, k) == At(data[..n], 0, k)
      {
      }
    }
    LineAtMoves(data, 0, data[..n], 0, ts);
  }

  /** Both parts of a concatenation are found in it unchanged. */
  lemma AgreeConcat(a: seq<byte>, b: seq<byte>)
    ensures Agree(a, 0, a + b, 0, |a|) && Agree(b, 0, a + b, |a|, |b|)
  {
    forall k | 0 <= k < |a|
      ensures At(a, 0, k) == At(a + b, 0, k)
    {
    }
    forall k | 0 <= k < |b|
      ensures At(b, 0, k) == At(a + b, |a|, k)
    {
    }
  }

  /** Appending the next encoded line keeps the lines written so far in
      place and puts the new one right after them. */
  lemma SavedStep(out: seq<byte>, chunk: seq<byte>, encs: seq<seq<Token>>, i: nat)
    requires i < |encs|
    requires LinesAt(out, 0, encs, 0, i) && |out| == LinesSize(encs, 0, i)
    requires LineAt(chunk, 0, encs[i]) && |chunk| == LineSize(encs[i])
    ensures LinesAt(out + chunk, 0, encs, 0, i + 1) && |out + chunk| == LinesSize(encs, 0, i + 1)
  {
    AgreeConcat(out, chunk);
    LinesAtMoves(out, 0, out + chunk, 0, encs, 0, i);
    LineAtMoves(chunk, 0, out + chunk, |out|, encs[i]);
    LinesAtSnoc(out + chunk, 0, encs, 0, i);
  }

  /** The RLE8 branch of Save: every scanline (its first line bytes) is
      encoded into one buffer of 2 * pitch bytes, the size bytes
      RLEEncodeLine reports are written, and the end-of-bitmap escape
      follows. The written stream is the returned sequence. */
  method SaveRle8(lines: seq<seq<byte>>, pitch: nat) returns (out: seq<byte>)
    requires 4 <= pitch && forall k :: 0 <= k < |lines| ==> |lines[k]| <= pitch
    ensures ImageAt(out, lines)
    ensures |out| == LinesSize(Encodings(lines), 0, |lines|) + 2
  {
    var buffer := new byte[2 * pitch];
    ghost var encs := Encodings(lines);
    out := [];
    var i := 0;
    while i < |lines|
      invariant i <= |lines| && buffer.Length == 2 * pitch
      invariant LinesAt(out, 0, encs, 0, i) && |out| == LinesSize(encs, 0, i)
    {
      LineFits(lines[i], pitch);
      var size := RleEncodeLine(buffer, lines[i]);
      LineCut(buffer[..], size, encs[i]);
      SavedStep(out, buffer[..size], encs, i);
      out := out + buffer[..size];
      i := i + 1;
    }
    buffer[0] := RLE_COMMAND;
    buffer[1] := RLE_ENDOFBITMAP;
    ghost var lead := out;
    out := out + buffer[..2];
    AgreeConcat(lead, buffer[..2]);
    LinesAtMoves(lead, 0, out, 0, encs, 0, |lines|);
  }

  // ---------------------------------------------------------------------
  // LoadPixelDataRLE8
  // ---------------------------------------------------------------------

  /** A status byte that is not RLE_COMMAND starts an encoded run. */
  lemma Rle8AtEncoded(data: seq<byte>, pos: nat, sc: nat, bits: nat, g: Raster, z: bool, img: seq<seq<byte>>)
    requires pos < |data| && data[pos] != RLE_COMMAND
    ensures Rle8From(data, pos, sc, bits, g, z, img) == Rle8Encoded(data, pos, sc, bits, g, z, img)
  {
    assert Rle8From(data, pos, sc, bits, g, z, img) == Rle8Pass(data, pos, sc, bits, g, z, img);
  }

  /** RLE_COMMAND followed by a second byte is an escape. */
  lemma Rle8AtEscape(data: seq<byte>, pos: nat, sc: nat, bits: nat, g: Raster, z: bool, img: seq<seq<byte>>)
    requires pos + 1 < |data| && data[pos] == RLE_COMMAND
    ensures Rle8From(data, pos, sc, bits, g, z, img) == Rle8Escape(data, pos, sc, bits, g, z, img)
  {
    assert Rle8From(data, pos, sc, bits, g, z, img) == Rle8Pass(data, pos, sc, bits, g, z, img);
  }

  /** The for loop of an encoded run: count copies of value stored one by
      one from column bits of scanline row. */
  method FillRun(dib: Scanlines, g: Raster, row: nat, bits: nat, count: nat, value: byte)
    requires ValidRaster(g, dib.rows) && row < |dib.rows| && bits + count <= g.width
    modifies dib
    ensures dib.rows == WriteRow(old(dib.rows), row, bits, Repeat(count, value))
    ensures ValidRaster(g, dib.rows)
  {
    ghost var img := dib.rows;
    var k := 0;
    assert Repeat(0, value) == [];
    while k < count
      invariant k <= count && dib.rows == WriteRow(img, row, bits, Repeat(k, value))
      invariant ValidRaster(g, dib.rows)
    {
      WriteRowValid(g, img, row, bits, Repeat(k, value));
      WriteRowAt(img, row, bits, Repeat(k, value));
      dib.rows := dib.rows[row := dib.rows[row][bits + k := value]];
      assert [value][1..] == [];
      WriteRowConcat(img, row, bits, Repeat(k, value), [value]);
      assert Repeat(k, value) + [value] == Repeat(k + 1, value);
      k := k + 1;
    }
  }

  /** The default case of an escape: an absolute run of data[pos + 1]
      bytes read straight into the scanline, clipped to its width, then the
      pad byte after an odd length. Returns the outcome when decoding stops
      here, or the position and column it continues at. */
  method AbsoluteRun(data: seq<byte>, pos: nat, scanline: nat, bits: nat, g: Raster, zeroSizeReadOk: bool,
                     dib: Scanlines)
    returns (stop: Option<Outcome>, pos': nat, bits': nat)
    requires pos + 1 < |data| && ValidRaster(g, dib.rows)
    modifies dib
    ensures ValidRaster(g, dib.rows) && pos < pos' <= |data|
    ensures stop.Some? ==> (stop.value, dib.rows) == Rle8Absolute(data, pos, scanline, bits, g, zeroSizeReadOk, old(dib.rows))
    ensures stop.None? ==> Rle8From(data, pos', scanline, bits', g, zeroSizeReadOk, dib.rows)
                           == Rle8Absolute(data, pos, scanline, bits, g, zeroSizeReadOk, old(dib.rows))
  {
    var status := data[pos + 1];
    pos', bits' := pos + 2, bits;
    if scanline >= |dib.rows| {
      return Some(Success), pos', bits';
    }
    var count := Min(status as int, g.width - bits);
    if count < 0 {
      return Some(Overrun), pos', bits';
    }
    if count == 0 && !zeroSizeReadOk {
      return Some(Failure), pos', bits';
    }
    if pos + 2 + count > |data| {
      return Some(Failure), pos', bits';
    }
    WriteRowValid(g, dib.rows, scanline, bits, data[pos + 2..pos + 2 + count]);
    dib.rows := WriteRow(dib.rows, scanline, bits, data[pos + 2..pos + 2 + count]);
    pos' := pos + 2 + count;
    if status % 2 == 1 {
      if pos' == |data| {
        return Some(Failure), pos', bits';
      }
      pos' := pos' + 1;
    }
    bits' := bits + status as nat;
    stop := None;
  }

  /** A status byte other than RLE_COMMAND: count copies of the byte that
      follows, clipped to the width of the scanline. */
  method EncodedRun(data: seq<byte>, pos: nat, scanline: nat, bits: nat, g: Raster, zeroSizeReadOk: bool,
                    dib: Scanlines)
    returns (stop: Option<Outcome>, pos': nat, bits': nat)
    requires pos < |data| && ValidRaster(g, dib.rows)
    modifies dib
    ensures ValidRaster(g, dib.rows) && pos < pos' <= |data|
    ensures stop.Some? ==> (stop.value, dib.rows) == Rle8Encoded(data, pos, scanline, bits, g, zeroSizeReadOk, old(dib.rows))
    ensures stop.None? ==> Rle8From(data, pos', scanline, bits', g, zeroSizeReadOk, dib.rows)
                           == Rle8Encoded(data, pos, scanline, bits, g, zeroSizeReadOk, old(dib.rows))
  {
    pos', bits' := pos + 1, bits;
    if scanline >= |dib.rows| {
      return Some(Success), pos', bits';
    }
    var count := Min(data[pos] as int, g.width - bits);
    if pos + 1 == |data| {
      return Some(Failure), pos', bits';
    }
    var secondByte := data[pos + 1];
    var n: nat := if count > 0 then count else 0;
    if n > 0 {
      FillRun(dib, g, scanline, bits, n, secondByte);
    } else {
      assert Repeat(n, secondByte) == [];
    }
    bits' := bits + n;
    pos' := pos + 2;
    stop := None;
  }

  /** LoadPixelDataRLE8: decodes the stream data into the scanlines of dib,
      which has |dib.rows| scanlines of the raster g. The stream's reads
      become reads of data at pos; a read past its end fails. The outcome
      and the scanlines are those Rle8From describes. */
  method LoadPixelDataRle8(data: seq<byte>, g: Raster, zeroSizeReadOk: bool, dib: Scanlines)
    returns (outcome: Outcome)
    requires ValidRaster(g, dib.rows)
    modifies dib
    ensures (outcome, dib.rows) == Rle8From(data, 0, 0, 0, g, zeroSizeReadOk, old(dib.rows))
  {
    ghost var result := Rle8From(data, 0, 0, 0, g, zeroSizeReadOk, dib.rows);
    var pos: nat := 0;
    var scanline: nat := 0;
    var bits: nat := 0;
    while true
      invariant pos <= |data| && ValidRaster(g, dib.rows)
      invariant Rle8From(data, pos, scanline, bits, g, zeroSizeReadOk, dib.rows) == result
      decreases |data| - pos
    {
      if pos == |data| {
        return Failure;
      }
      var status := data[pos];
      if status == RLE_COMMAND {
        if pos + 1 == |data| {
          assert Rle8From(data, pos, scanline, bits, g, zeroSizeReadOk, dib.rows)
              == Rle8Pass(data, pos, scanline, bits, g, zeroSizeReadOk, dib.rows);
          return Failure;
        }
        Rle8AtEscape(data, pos, scanline, bits, g, zeroSizeReadOk, dib.rows);
        status := data[pos + 1];
        if status == RLE_ENDOFLINE {
          bits := 0;
          scanline := scanline + 1;
          pos := pos + 2;
        } else if status == RLE_ENDOFBITMAP {
          return Success;
        } else if status == RLE_DELTA {
          if pos + 3 >= |data| {
            return Failure;
          }
          var deltaX := data[pos + 2];
          var deltaY := data[pos + 3];
          bits := bits + deltaX as nat;
          scanline := scanline + deltaY as nat;
          pos := pos + 4;
        } else {
          var stop;
          stop, pos, bits := AbsoluteRun(data, pos, scanline, bits, g, zeroSizeReadOk, dib);
          if stop.Some? {
            return stop.value;
          }
        }
      } else {
        Rle8AtEncoded(data, pos, scanline, bits, g, zeroSizeReadOk, dib.rows);
        var stop;
        stop, pos, bits := EncodedRun(data, pos, scanline, bits, g, zeroSizeReadOk, dib);
        if stop.Some? {
          return stop.value;
        }
      }
    }
  }
}
