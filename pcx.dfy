/** The PCX loader (Source/Plugins/PluginPCX.cpp): the signature check, the
    header and window geometry, the palettes, the run-length line reader
    readLine with its 2048-byte refill buffer, and the unpacking of the
    planes into the scanlines. The stream is the whole file as bytes with
    a read position; header fields are little-endian. */
module Pcx {
  import opened Wrappers
  import opened Bytes
  import opened Bitmap

  const HEADER_SIZE: nat := 128
  /** PCX_IO_BUF_SIZE, the size of the refill buffer ReadBuf. */
  const IO_BUF_SIZE: nat := 2048
  const SIGNATURE: byte := 0x0A

  // ---------------------------------------------------------------------
  // pcx_validate
  // ---------------------------------------------------------------------

  /** pcx_validate: four bytes must be readable; the manufacturer byte is
      0x0A, the version at most 5, the encoding 0 or 1 and the bits per
      pixel per plane 1 or 8. */
  predicate Validate(data: seq<byte>)
  {
    if |data| < 4 then false
    else if data[0] != SIGNATURE then false
    else if data[1] > 5 then false
    else if data[2] != 0 && data[2] != 1 then false
    else data[3] == 1 || data[3] == 8
  }

  /** The versions ZSoft defines (2.5, 2.8 with and without palette, 3.0)
      are accepted with either encoding and either depth, and any stream
      shorter than four bytes is refused. */
  lemma ValidateVersions(data: seq<byte>)
    requires |data| >= 4 && data[0] == 0x0A && data[1] in {0, 2, 3, 5}
    requires data[2] in {0, 1} && data[3] in {1, 8}
    ensures Validate(data)
  {
  }

  lemma ValidateShort(data: seq<byte>)
    requires |data| < 4
    ensures !Validate(data)
  {
  }

  // ---------------------------------------------------------------------
  // Header and geometry
  // ---------------------------------------------------------------------

  /** Why Load returns no bitmap. LineOverrun stands for a plane
      unpacking that would read past the end of the decoded line, which the
      source does not check. */
  datatype PcxError = MagicNumber | Parsing | DibMemory | UnsupportedFormat | LineOverrun

  /** The fields of the 128-byte PCXHEADER that Load looks at. */
  datatype Header = Header(encoding: byte, bpp: byte, left: nat, top: nat, right: nat, bottom: nat,
                           colorMap: seq<byte>, planes: byte, bytesPerLine: nat, paletteInfo: nat)

  function ReadHeader(data: seq<byte>): (h: Header)
    requires |data| >= HEADER_SIZE
    ensures |h.colorMap| == 48
  {
    Header(data[2], data[3], U16LE(data, 4), U16LE(data, 6), U16LE(data, 8), U16LE(data, 10),
           data[16..64], data[65], U16LE(data, 66), U16LE(data, 68))
  }

  /** The size and depth of the bitmap. */
  datatype Geometry = Geometry(width: nat, height: nat, bitCount: nat)

  /** The window (left, top, right, bottom) is inclusive; bitcount is the
      bits per pixel per plane times the planes. An empty window is a
      parse error and a depth FreeImage cannot allocate a memory error. */
  function GeometryOf(h: Header): (r: Result<Geometry, PcxError>)
  {
    if h.left >= h.right || h.top >= h.bottom then Err(Parsing)
    else
      var bitCount := h.bpp as nat * h.planes as nat;
      if bitCount !in {1, 4, 8, 24} then Err(DibMemory)
      else Ok(Geometry(h.right - h.left + 1, h.bottom - h.top + 1, bitCount))
  }

  /** The window errors come before the depth error, the bitmap spans the
      window, and because the check refuses left == right (and top ==
      bottom) no image narrower or lower than two pixels loads. */
  lemma GeometryFacts(h: Header)
    ensures (h.left >= h.right || h.top >= h.bottom) ==> GeometryOf(h) == Err(Parsing)
    ensures GeometryOf(h).Ok? <==>
      h.left < h.right && h.top < h.bottom && h.bpp as nat * h.planes as nat in {1, 4, 8, 24}
    ensures GeometryOf(h).Ok? ==> var g := GeometryOf(h).value;
      && g.width >= 2 && g.height >= 2
      && h.left + g.width == h.right + 1 && h.top + g.height == h.bottom + 1
      && g.bitCount == h.bpp as nat * h.planes as nat
  {
  }

  // ---------------------------------------------------------------------
  // The refill buffer
  // ---------------------------------------------------------------------

  /** ReadBuf, ReadPos and the read position of the stream. */
  datatype BufState = BufState(buf: seq<byte>, readPos: int, pos: nat)

  predicate BufOk(data: seq<byte>, st: BufState)
  {
    |st.buf| == IO_BUF_SIZE && 0 <= st.readPos <= IO_BUF_SIZE && st.pos <= |data|
  }

  /** read_proc of up to n bytes: what the stream still holds of them. */
  function Take(data: seq<byte>, pos: nat, n: nat): (got: seq<byte>)
    requires pos <= |data|
    ensures |got| == Min(n, |data| - pos)
  {
    data[pos..Min(pos + n, |data|)]
  }

  /** The refill readLine makes when ReadPos has reached 2047: the one
      unread byte moves to index 0 and 2047 bytes are read after it; at
      2048 a whole buffer is read. A short read leaves the old bytes in the
      rest of the buffer. */
  function Refill(data: seq<byte>, st: BufState): (r: BufState)
    requires BufOk(data, st) && st.readPos >= IO_BUF_SIZE - 1
    ensures BufOk(data, r) && r.readPos == 0
  {
    if st.readPos == IO_BUF_SIZE - 1 then
      var got := Take(data, st.pos, IO_BUF_SIZE - 1);
      BufState([st.buf[IO_BUF_SIZE - 1]] + got + st.buf[1 + |got|..], 0, st.pos + |got|)
    else
      var got := Take(data, st.pos, IO_BUF_SIZE);
      BufState(got + st.buf[|got|..], 0, st.pos + |got|)
  }

  /** The start of a run: refill if needed, then a byte with its two top
      bits set gives the count in its low six bits and the value in the
      byte after it; any other byte is the value with a count of one.
      Returns the buffer state, the count and the value. */
  function NextRun(data: seq<byte>, st: BufState): (r: (BufState, byte, byte))
    requires BufOk(data, st)
    ensures BufOk(data, r.0)
  {
    var s := if st.readPos >= IO_BUF_SIZE - 1 then Refill(data, st) else st;
    var v := s.buf[s.readPos];
    if v >= 0xC0 then (s.(readPos := s.readPos + 2), v % 64, s.buf[s.readPos + 1])
    else (s.(readPos := s.readPos + 1), 1, v)
  }

  /** The run-length branch of readLine: n more bytes of the line appended
      to acc, with the byte locals count and value; count is decremented
      modulo 256, so a count of 0 from a control byte 0xC0 becomes 255. */
  function RleLine(data: seq<byte>, st: BufState, count: byte, value: byte, n: nat, acc: seq<byte>)
    : (r: (seq<byte>, BufState))
    requires BufOk(data, st)
    ensures BufOk(data, r.1) && |r.0| == |acc| + n
    decreases n
  {
    if n == 0 then (acc, st)
    else
      var (s, c, v) := if count == 0 then NextRun(data, st) else (st, count, value);
      RleLine(data, s, ((c as int - 1) % 256) as byte, v, n - 1, acc + [v])
  }

  /** ReadBuf refilled in place (read_proc into ReadBuf + 1 or ReadBuf);
      returns the new stream position. */
  method RefillBuf(data: seq<byte>, pos: nat, readBuf: array<byte>, readPos: int) returns (pos': nat)
    requires BufOk(data, BufState(readBuf[..], readPos, pos)) && readPos >= IO_BUF_SIZE - 1
    modifies readBuf
    ensures BufState(readBuf[..], 0, pos') == Refill(data, BufState(old(readBuf[..]), readPos, pos))
  {
    if readPos == IO_BUF_SIZE - 1 {
      readBuf[0] := readBuf[IO_BUF_SIZE - 1];
      var got := Take(data, pos, IO_BUF_SIZE - 1);
      forall i | 0 <= i < |got| {
        readBuf[1 + i] := got[i];
      }
      pos' := pos + |got|;
    } else {
      var got := Take(data, pos, IO_BUF_SIZE);
      forall i | 0 <= i < |got| {
        readBuf[i] := got[i];
      }
      pos' := pos + |got|;
    }
  }

  /** The start of a run in readLine, in place. */
  method StartRun(data: seq<byte>, readBuf: array<byte>, readPos0: int, pos0: nat)
    returns (readPos: int, pos: nat, count: byte, value: byte)
    requires BufOk(data, BufState(readBuf[..], readPos0, pos0))
    modifies readBuf
    ensures (BufState(readBuf[..], readPos, pos), count, value) == NextRun(data, BufState(old(readBuf[..]), readPos0, pos0))
  {
    readPos, pos := readPos0, pos0;
    if readPos >= IO_BUF_SIZE - 1 {
      pos := RefillBuf(data, pos, readBuf, readPos);
      readPos := 0;
    }
    value := readBuf[readPos];
    readPos := readPos + 1;
    if value >= 0xC0 {
      count := value % 64;
      value := readBuf[readPos];
      readPos := readPos + 1;
    } else {
      count := 1;
    }
  }

  /** What readLine evidently means to return after an uncompressed read
      of length bytes of which got arrived: the number of bytes read. The
      source returns the item count instead (RawItems). */
  function RawWritten(length: nat, got: seq<byte>): (written: nat)
    requires |got| <= length
    ensures written == |got|
  {
    |got|
  }

  /** readLine: length bytes of a scanline into buffer. Run-length encoded
      lines come from ReadBuf, refilled from the stream; uncompressed lines
      are one read from the stream, which leaves the rest of buffer as it
      was when the stream runs out, and return the item count of that
      read. ReadBuf and ReadPos are untouched by an uncompressed read. */
  method ReadLine(data: seq<byte>, buffer: array<byte>, length: nat, rle: bool, readBuf: array<byte>,
                  readPos0: int, pos0: nat)
    returns (written: nat, readPos: int, pos: nat)
    requires buffer != readBuf && length <= buffer.Length
    requires BufOk(data, BufState(readBuf[..], readPos0, pos0))
    modifies buffer, readBuf
    ensures BufOk(data, BufState(readBuf[..], readPos, pos))
    ensures buffer[length..] == old(buffer[length..])
    ensures rle ==> var (line, st) := RleLine(data, BufState(old(readBuf[..]), readPos0, pos0), 0, 0, length, []);
      written == length && buffer[..length] == line && BufState(readBuf[..], readPos, pos) == st
    ensures !rle ==> var got := Take(data, pos0, length);
      && written == RawItems(length, got) && pos == pos0 + |got|
      && buffer[..length] == got + old(buffer[|got|..length])
      && readBuf[..] == old(readBuf[..]) && readPos == readPos0
  {
    readPos, pos := readPos0, pos0;
    if !rle {
      var got := Take(data, pos0, length);
      forall i | 0 <= i < |got| {
        buffer[i] := got[i];
      }
      pos := pos0 + |got|;
      written := RawItems(length, got);
      return;
    }
    var count: byte, value: byte := 0, 0;
    ghost var target := RleLine(data, BufState(readBuf[..], readPos0, pos0), 0, 0, length, []);
    written := 0;
    while written < length
      invariant written <= length && BufOk(data, BufState(readBuf[..], readPos, pos))
      invariant RleLine(data, BufState(readBuf[..], readPos, pos), count, value, length - written, buffer[..written]) == target
      invariant buffer[length..] == old(buffer[length..])
    {
      if count == 0 {
        readPos, pos, count, value := StartRun(data, readBuf, readPos, pos);
      }
      count := ((count as int - 1) % 256) as byte;
      ghost var before := buffer[..written];
      buffer[written] := value;
      assert buffer[..written + 1] == before + [value];
      written := written + 1;
    }
    assert buffer[..length] == buffer[..written];
  }

  // ---------------------------------------------------------------------
  // The run-length scheme on the stream itself
  // ---------------------------------------------------------------------

  /** The run-length branch of readLine read straight from the bytes s
      still to come: n more bytes appended to acc, and the bytes left after
      them; None when s runs out first. */
  function FlatLine(s: seq<byte>, count: byte, value: byte, n: nat, acc: seq<byte>): Option<(seq<byte>, seq<byte>)>
    decreases n
  {
    if n == 0 then Some((acc, s))
    else if count != 0 then FlatLine(s, ((count as int - 1) % 256) as byte, value, n - 1, acc + [value])
    else if |s| == 0 then None
    else if s[0] >= 0xC0 then
      if |s| < 2 then None
      else FlatLine(s[2..], (((s[0] % 64) as int - 1) % 256) as byte, s[1], n - 1, acc + [s[1]])
    else FlatLine(s[1..], 0, s[0], n - 1, acc + [s[0]])
  }

  /** s is what the reader has still to deliver: the unread part of ReadBuf
      followed by the rest of the stream, or, once the stream is exhausted,
      a prefix of the unread part of ReadBuf (the rest of it is left over
      from earlier refills). */
  predicate Holds(data: seq<byte>, st: BufState, s: seq<byte>)
  {
    BufOk(data, st) &&
    if st.pos < |data| then s == st.buf[st.readPos..] + data[st.pos..] else s <= st.buf[st.readPos..]
  }

  /** A refill changes where the bytes are kept, not which bytes come next. */
  lemma RefillHolds(data: seq<byte>, st: BufState, s: seq<byte>)
    requires Holds(data, st, s) && st.readPos >= IO_BUF_SIZE - 1
    ensures Holds(data, Refill(data, st), s)
  {
    var r := Refill(data, st);
    if st.readPos == IO_BUF_SIZE - 1 {
      var got := Take(data, st.pos, IO_BUF_SIZE - 1);
      assert r.buf[..1 + |got|] == [st.buf[IO_BUF_SIZE - 1]] + got;
      if st.pos < |data| {
        if r.pos < |data| {
          assert data[st.pos..] == got + data[r.pos..];
        } else {
          assert data[st.pos..] == got;
        }
      }
    } else {
      var got := Take(data, st.pos, IO_BUF_SIZE);
      assert r.buf[..|got|] == got;
      if st.pos < |data| {
        if r.pos < |data| {
          assert data[st.pos..] == got + data[r.pos..];
        } else {
          assert data[st.pos..] == got;
        }
      }
    }
  }

  /** The byte at ReadPos is the next byte to come. */
  lemma ReadHolds(data: seq<byte>, st: BufState, s: seq<byte>)
    requires Holds(data, st, s) && st.readPos < IO_BUF_SIZE && |s| > 0
    ensures st.buf[st.readPos] == s[0] && Holds(data, st.(readPos := st.readPos + 1), s[1..])
  {
  }

  /** The start of a run takes the control byte and, for a repeat, the
      value after it from the bytes to come. */
  lemma NextRunHolds(data: seq<byte>, st: BufState, s: seq<byte>)
    requires Holds(data, st, s) && |s| > 0 && (s[0] >= 0xC0 ==> |s| >= 2)
    ensures var (st', c, v) := NextRun(data, st);
      if s[0] >= 0xC0 then c == s[0] % 64 && v == s[1] && Holds(data, st', s[2..])
      else c == 1 && v == s[0] && Holds(data, st', s[1..])
  {
    var t := if st.readPos >= IO_BUF_SIZE - 1 then Refill(data, st) else st;
    if st.readPos >= IO_BUF_SIZE - 1 {
      RefillHolds(data, st, s);
    }
    ReadHolds(data, t, s);
    if s[0] >= 0xC0 {
      ReadHolds(data, t.(readPos := t.readPos + 1), s[1..]);
      assert s[1..][1..] == s[2..];
    }
  }

  /** Where a new run starts, readLine and the direct decoding take the
      same step: both go on with the same count and value, from a reader
      state that still holds the remaining bytes. */
  lemma RunStep(data: seq<byte>, st: BufState, s: seq<byte>, value: byte, n: nat, acc: seq<byte>)
    returns (st': BufState, c': byte, v: byte, rest: seq<byte>)
    requires Holds(data, st, s) && n > 0 && FlatLine(s, 0, value, n, acc).Some?
    ensures Holds(data, st', rest)
    ensures RleLine(data, st, 0, value, n, acc) == RleLine(data, st', c', v, n - 1, acc + [v])
    ensures FlatLine(s, 0, value, n, acc) == FlatLine(rest, c', v, n - 1, acc + [v])
  {
    RunAhead(s, value, n, acc);
    NextRunHolds(data, st, s);
    RleLineRun(data, st, value, n, acc);
    var next := NextRun(data, st);
    st', v := next.0, next.2;
    c' := ((next.1 as int - 1) % 256) as byte;
    rest := if s[0] >= 0xC0 then s[2..] else s[1..];
    FlatLineRun(s, value, n, acc, next.1, v, rest);
  }

  /** A line that decodes from between runs has the start of a run ahead. */
  lemma RunAhead(s: seq<byte>, value: byte, n: nat, acc: seq<byte>)
    requires n > 0 && FlatLine(s, 0, value, n, acc).Some?
    ensures |s| > 0 && (s[0] >= 0xC0 ==> |s| >= 2)
  {
  }

  /** A line that is between runs starts a run. */
  lemma RleLineRun(data: seq<byte>, st: BufState, value: byte, n: nat, acc: seq<byte>)
    requires BufOk(data, st) && n > 0
    ensures var next := NextRun(data, st);
      RleLine(data, st, 0, value, n, acc) == RleLine(data, next.0, ((next.1 as int - 1) % 256) as byte, next.2, n - 1, acc + [next.2])
  {
  }

  /** The same on the bytes to come, given how the run starts there. */
  lemma FlatLineRun(s: seq<byte>, value: byte, n: nat, acc: seq<byte>, c: byte, v: byte, rest: seq<byte>)
    requires n > 0 && |s| > 0 && (s[0] >= 0xC0 ==> |s| >= 2)
    requires if s[0] >= 0xC0 then c == s[0] % 64 && v == s[1] && rest == s[2..]
             else c == 1 && v == s[0] && rest == s[1..]
    ensures FlatLine(s, 0, value, n, acc) == FlatLine(rest, ((c as int - 1) % 256) as byte, v, n - 1, acc + [v])
  {
  }

  /** The refill buffer is invisible: when the bytes to come hold the
      line, readLine returns exactly what decoding them directly gives, and
      the reader is left before the bytes that follow. */
  lemma {:induction false} Transparent(data: seq<byte>, st: BufState, s: seq<byte>, count: byte, value: byte,
                                       n: nat, acc: seq<byte>)
    requires Holds(data, st, s) && FlatLine(s, count, value, n, acc).Some?
    ensures RleLine(data, st, count, value, n, acc).0 == FlatLine(s, count, value, n, acc).value.0
    ensures Holds(data, RleLine(data, st, count, value, n, acc).1, FlatLine(s, count, value, n, acc).value.1)
    decreases n, 1
  {
    if n > 0 {
      if count != 0 {
        Transparent(data, st, s, ((count as int - 1) % 256) as byte, value, n - 1, acc + [value]);
      } else {
        TransparentRun(data, st, s, value, n, acc);
      }
    }
  }

  /** Transparent where a new run starts. */
  lemma {:induction false} TransparentRun(data: seq<byte>, st: BufState, s: seq<byte>, value: byte,
                                          n: nat, acc: seq<byte>)
    requires Holds(data, st, s) && n > 0 && FlatLine(s, 0, value, n, acc).Some?
    ensures RleLine(data, st, 0, value, n, acc).0 == FlatLine(s, 0, value, n, acc).value.0
    ensures Holds(data, RleLine(data, st, 0, value, n, acc).1, FlatLine(s, 0, value, n, acc).value.1)
    decreases n, 0
  {
    var st', c', v, rest := RunStep(data, st, s, value, n, acc);
    Transparent(data, st', rest, c', v, n - 1, acc + [v]);
  }

  // ---------------------------------------------------------------------
  // Packets
  // ---------------------------------------------------------------------

  /** A packet of the PCX run-length scheme: a repeat, written as a control
      byte with its two top bits set and the count in its low six bits, then
      the value; or a single byte below 0xC0, which stands for itself. A
      control byte 0xC0 (count 0) repeats its value 256 times. */
  datatype Packet = Repeat(count: nat, value: byte) | Single(b: byte)

  predicate PacketOk(p: Packet)
  {
    match p
    case Repeat(count, _) => 1 <= count <= 63 || count == 256
    case Single(b) => b < 0xC0
  }

  function PacketBytes(p: Packet): seq<byte>
    requires PacketOk(p)
  {
    match p
    case Repeat(count, value) => [(0xC0 + count % 256) as byte, value]
    case Single(b) => [b]
  }

  function PacketPixels(p: Packet): seq<byte>
  {
    match p
    case Repeat(count, value) => Bytes.Repeat(count, value)
    case Single(b) => [b]
  }

  /** The remaining count - 1 bytes of a started repeat. */
  lemma {:induction false} RepeatTail(s: seq<byte>, count: nat, value: byte, n: nat, acc: seq<byte>)
    requires count <= 255
    ensures count <= n ==>
      FlatLine(s, count as byte, value, n, acc) == FlatLine(s, 0, value, n - count, acc + Bytes.Repeat(count, value))
    ensures n < count ==> FlatLine(s, count as byte, value, n, acc) == Some((acc + Bytes.Repeat(n, value), s))
    decreases count
  {
    if count > 0 && n > 0 {
      RepeatTail(s, count - 1, value, n - 1, acc + [value]);
      assert acc + [value] + Bytes.Repeat(count - 1, value) == acc + Bytes.Repeat(count, value);
      assert acc + [value] + Bytes.Repeat(n - 1, value) == acc + Bytes.Repeat(n, value);
    } else if count > 0 {
      assert acc + Bytes.Repeat(0, value) == acc;
    } else {
      assert acc + Bytes.Repeat(0, value) == acc;
    }
  }

  /** With no run pending, the last value does not matter. */
  lemma ValueIrrelevant(s: seq<byte>, value: byte, value': byte, n: nat, acc: seq<byte>)
    ensures FlatLine(s, 0, value, n, acc) == FlatLine(s, 0, value', n, acc)
  {
  }

  /** A packet decodes to its pixels when the line has room for them. */
  lemma DecodePacket(p: Packet, t: seq<byte>, value: byte, m: nat, acc: seq<byte>)
    requires PacketOk(p)
    ensures FlatLine(PacketBytes(p) + t, 0, value, |PacketPixels(p)| + m, acc)
         == FlatLine(t, 0, 0, m, acc + PacketPixels(p))
  {
    var s := PacketBytes(p) + t;
    match p
    case Single(b) =>
      assert s[0] == b && s[1..] == t;
      ValueIrrelevant(t, b, 0, m, acc + [b]);
    case Repeat(count, v) =>
      assert s[0] == (0xC0 + count % 256) as byte && s[1] == v && s[2..] == t;
      assert ((s[0] % 64) as int - 1) % 256 == count - 1;
      RepeatTail(t, count - 1, v, count - 1 + m, acc + [v]);
      assert acc + [v] + Bytes.Repeat(count - 1, v) == acc + Bytes.Repeat(count, v);
      ValueIrrelevant(t, v, 0, m, acc + Bytes.Repeat(count, v));
  }

  /** A repeat longer than what is left of the line is cut at its end: the
      rest of the count is dropped, and the next line starts at the byte
      after the value. */
  lemma RepeatCut(count: nat, v: byte, t: seq<byte>, value: byte, n: nat, acc: seq<byte>)
    requires PacketOk(Repeat(count, v)) && 0 < n < count
    ensures FlatLine(PacketBytes(Repeat(count, v)) + t, 0, value, n, acc) == Some((acc + Bytes.Repeat(n, v), t))
  {
    var s := PacketBytes(Repeat(count, v)) + t;
    assert s[0] == (0xC0 + count % 256) as byte && s[1] == v && s[2..] == t;
    assert ((s[0] % 64) as int - 1) % 256 == count - 1;
    RepeatTail(t, count - 1, v, n - 1, acc + [v]);
    assert acc + [v] + Bytes.Repeat(n - 1, v) == acc + Bytes.Repeat(n, v);
  }

  function AllBytes(ps: seq<Packet>): seq<byte>
    requires forall k :: 0 <= k < |ps| ==> PacketOk(ps[k])
  {
    if |ps| == 0 then [] else PacketBytes(ps[0]) + AllBytes(ps[1..])
  }

  function AllPixels(ps: seq<Packet>): seq<byte>
  {
    if |ps| == 0 then [] else PacketPixels(ps[0]) + AllPixels(ps[1..])
  }

  /** A line made of whole packets decodes to their pixels, and the next
      line starts right after them. */
  lemma {:induction false} DecodePackets(ps: seq<Packet>, t: seq<byte>, value: byte, m: nat, acc: seq<byte>)
    requires forall k :: 0 <= k < |ps| ==> PacketOk(ps[k])
    ensures FlatLine(AllBytes(ps) + t, 0, value, |AllPixels(ps)| + m, acc) == FlatLine(t, 0, 0, m, acc + AllPixels(ps))
  {
    if |ps| == 0 {
      assert AllBytes(ps) + t == t && acc + AllPixels(ps) == acc;
      ValueIrrelevant(t, value, 0, m, acc);
    } else {
      var p, rest := ps[0], ps[1..];
      assert AllBytes(ps) + t == PacketBytes(p) + (AllBytes(rest) + t);
      DecodePacket(p, AllBytes(rest) + t, value, |AllPixels(rest)| + m, acc);
      DecodePackets(rest, t, 0, m, acc + PacketPixels(p));
      assert acc + PacketPixels(p) + AllPixels(rest) == acc + AllPixels(ps);
    }
  }

  // ---------------------------------------------------------------------
  // Four 1-bit planes to 4-bit pixels
  // ---------------------------------------------------------------------

  /** Bit k of b, bit 0 the lowest. */
  function Bit(b: byte, k: nat): nat
  {
    (b as nat / Pow2(k)) % 2
  }

  /** The byte of plane p that holds pixel x: x / 8 + p * bytes_per_line. */
  function PlaneIndex(x: nat, p: nat, bpl: nat): nat
  {
    x / 8 + p * bpl
  }

  /** Every pixel of a row of width pixels has its byte in each of the four
      planes of a 4 * bpl byte line exactly when width <= 8 * bpl. */
  lemma PlaneIndexIn(width: nat, bpl: nat)
    requires width <= 8 * bpl
    ensures forall x, p :: 0 <= x < width && 0 <= p < 4 ==> PlaneIndex(x, p, bpl) < 4 * bpl
  {
    forall x, p | 0 <= x < width && 0 <= p < 4
      ensures PlaneIndex(x, p, bpl) < 4 * bpl
    {
      MulLe(p, 3, bpl);
    }
  }

  /** Pixel 8 * bpl of a row would need a byte past the four planes. */
  lemma PlaneIndexOut(bpl: nat)
    ensures PlaneIndex(8 * bpl, 3, bpl) == 4 * bpl
  {
  }

  /** Whether plane p sets pixel x: line[index] & (0x80 >> (x & 7)) is
      non-zero exactly when bit 7 - x % 8 of line[index] is set, so the
      leftmost pixel of a byte is its highest bit. */
  function PlaneBit(line: seq<byte>, bpl: nat, x: nat, p: nat): nat
    requires PlaneIndex(x, p, bpl) < |line|
  {
    Bit(line[PlaneIndex(x, p, bpl)], 7 - x % 8)
  }

  /** Pixel x after the loops over the first n planes: bit p of it is the
      bit of plane p. */
  function NibbleOf(line: seq<byte>, bpl: nat, x: nat, n: nat): (r: nat)
    requires n <= 4 && forall p :: 0 <= p < n ==> PlaneIndex(x, p, bpl) < |line|
    ensures r < Pow2(n)
  {
    if n == 0 then 0
    else
      var low := NibbleOf(line, bpl, x, n - 1);
      if PlaneBit(line, bpl, x, n - 1) == 1 then low + Pow2(n - 1) else low
  }

  /** The four bits of a 4-bit value, read back. */
  lemma BinaryDigits(b0: nat, b1: nat, b2: nat, b3: nat, p: nat)
    requires b0 <= 1 && b1 <= 1 && b2 <= 1 && b3 <= 1 && p < 4
    ensures ((b0 + 2 * b1 + 4 * b2 + 8 * b3) / Pow2(p)) % 2 == [b0, b1, b2, b3][p]
  {
    var n := b0 + 2 * b1 + 4 * b2 + 8 * b3;
    assert Pow2(0) == 1 && Pow2(1) == 2 && Pow2(2) == 4 && Pow2(3) == 8;
    if p == 1 {
      assert n / 2 == b1 + 2 * b2 + 4 * b3;
    } else if p == 2 {
      assert n / 4 == b2 + 2 * b3;
    } else if p == 3 {
      assert n / 8 == b3;
    }
  }

  /** Bit p of a 4-bit pixel is bit 7 - x % 8 of byte x / 8 of plane p. */
  lemma NibbleBits(line: seq<byte>, bpl: nat, x: nat, p: nat)
    requires p < 4 && forall q :: 0 <= q < 4 ==> PlaneIndex(x, q, bpl) < |line|
    ensures (NibbleOf(line, bpl, x, 4) / Pow2(p)) % 2 == PlaneBit(line, bpl, x, p)
  {
    var b0, b1, b2, b3 := PlaneBit(line, bpl, x, 0), PlaneBit(line, bpl, x, 1), PlaneBit(line, bpl, x, 2),
                          PlaneBit(line, bpl, x, 3);
    assert Pow2(0) == 1 && Pow2(1) == 2 && Pow2(2) == 4 && Pow2(3) == 8;
    assert NibbleOf(line, bpl, x, 2) == b0 + 2 * b1;
    assert NibbleOf(line, bpl, x, 4) == b0 + 2 * b1 + 4 * b2 + 8 * b3;
    BinaryDigits(b0, b1, b2, b3, p);
  }

  /** Or-ing the bit of plane p into pixel x adds the plane. */
  lemma OrPlane(a: byte, line: seq<byte>, bpl: nat, x: nat, p: nat)
    requires p < 4 && (forall q :: 0 <= q < 4 ==> PlaneIndex(x, q, bpl) < |line|)
    requires a as nat == NibbleOf(line, bpl, x, p)
    ensures Pow2(p) < 0x100
    ensures Or(a, if PlaneBit(line, bpl, x, p) == 1 then Pow2(p) as byte else 0) as nat == NibbleOf(line, bpl, x, p + 1)
  {
    OrHighBit(a, p);
    if PlaneBit(line, bpl, x, p) != 1 {
      assert OrNat(a as nat, 0) == a as nat;
    }
  }

  /** The plane loops of the four-plane branch: buffer is cleared, then
      for each plane p and pixel x, bit p is or'ed into buffer[x] when the
      plane sets the pixel. */
  method BuildNibbles(line: array<byte>, bpl: nat, width: nat, buffer: array<byte>)
    requires buffer.Length == width && line.Length == 4 * bpl && width <= 8 * bpl && line != buffer
    modifies buffer
    ensures (PlaneIndexIn(width, bpl);
      forall x :: 0 <= x < width ==> buffer[x] as nat == NibbleOf(line[..], bpl, x, 4))
  {
    PlaneIndexIn(width, bpl);
    forall x | 0 <= x < width {
      buffer[x] := 0;
    }
    for plane := 0 to 4
      invariant forall x :: 0 <= x < width ==> buffer[x] as nat == NibbleOf(line[..], bpl, x, plane)
    {
      AddPlane(line, bpl, width, buffer, plane);
    }
  }

  /** The pixel loop of plane p: bit p of each pixel from the plane. */
  method AddPlane(line: array<byte>, bpl: nat, width: nat, buffer: array<byte>, plane: nat)
    requires buffer.Length == width && line.Length == 4 * bpl && width <= 8 * bpl && line != buffer
    requires plane < 4
    requires (PlaneIndexIn(width, bpl);
      forall x :: 0 <= x < width ==> buffer[x] as nat == NibbleOf(line[..], bpl, x, plane))
    modifies buffer
    ensures (PlaneIndexIn(width, bpl);
      forall x :: 0 <= x < width ==> buffer[x] as nat == NibbleOf(line[..], bpl, x, plane + 1))
  {
    PlaneIndexIn(width, bpl);
    ghost var l := line[..];
    PowMono(plane, 8);
    assert Pow2(8) == 0x100;
    var bit := Pow2(plane) as byte;
    for x := 0 to width
      invariant l == line[..]
      invariant forall x' :: 0 <= x' < x ==> buffer[x'] as nat == NibbleOf(l, bpl, x', plane + 1)
      invariant forall x' :: x <= x' < width ==> buffer[x'] as nat == NibbleOf(l, bpl, x', plane)
    {
      buffer[x] := SetPlaneBit(buffer[x], line, bpl, x, plane, bit);
    }
  }

  /** Pixel x with bit plane of its value set from the plane's byte. */
  method SetPlaneBit(b: byte, line: array<byte>, bpl: nat, x: nat, plane: nat, bit: byte) returns (r: byte)
    requires plane < 4 && bit as nat == Pow2(plane)
    requires forall q :: 0 <= q < 4 ==> PlaneIndex(x, q, bpl) < line.Length
    requires b as nat == NibbleOf(line[..], bpl, x, plane)
    ensures r as nat == NibbleOf(line[..], bpl, x, plane + 1)
  {
    var index := x / 8 + plane * bpl;
    assert index == PlaneIndex(x, plane, bpl);
    assert Bit(line[index], 7 - x % 8) == PlaneBit(line[..], bpl, x, plane);
    OrPlane(b, line[..], bpl, x, plane);
    r := Or(b, if Bit(line[index], 7 - x % 8) == 1 then bit else 0);
  }

  /** Byte c of a four-plane scanline: pixel 2c shifted into the high
      nibble, or'ed with pixel 2c + 1. */
  function NibblePair(buf: seq<byte>, c: nat): byte
    requires 2 * c + 1 < |buf|
  {
    Or(Shl4(buf[2 * c]), buf[2 * c + 1])
  }

  /** Both pixels of a pair are read back from their nibbles. */
  lemma NibblePairReadBack(buf: seq<byte>, c: nat)
    requires 2 * c + 1 < |buf| && buf[2 * c] < 16 && buf[2 * c + 1] < 16
    ensures NibblePair(buf, c) / 16 == buf[2 * c] && NibblePair(buf, c) % 16 == buf[2 * c + 1]
  {
    assert Shl4(buf[2 * c]) == buf[2 * c] * 16;
    OrLowNibble(Shl4(buf[2 * c]), buf[2 * c + 1]);
  }

  /** A scanline after the write loop of the four-plane branch has stored
      its first n bytes. */
  function PackedNibbles(row: seq<byte>, buf: seq<byte>, n: nat): (r: seq<byte>)
    requires 2 * n <= |buf| && n <= |row|
    ensures |r| == |row|
    decreases n
  {
    if n == 0 then row else PackedNibbles(row, buf, n - 1)[n - 1 := NibblePair(buf, n - 1)]
  }

  /** Bytes below n hold pixel pairs; the others are left alone. */
  lemma {:induction false} PackedNibblesAt(row: seq<byte>, buf: seq<byte>, n: nat, c: nat)
    requires 2 * n <= |buf| && n <= |row| && c < |row|
    ensures PackedNibbles(row, buf, n)[c] == if c < n then NibblePair(buf, c) else row[c]
    decreases n
  {
    if n > 0 && c != n - 1 {
      PackedNibblesAt(row, buf, n - 1, c);
    }
  }

  /** The write loop of the four-plane branch on scanline y: byte x holds
      pixels 2x and 2x + 1 for x < width / 2, so an odd width leaves its
      last pixel unwritten. */
  method PackNibbleRow(dib: Scanlines, y: nat, buffer: array<byte>, width: nat)
    requires y < |dib.rows| && width / 2 <= |dib.rows[y]| && buffer.Length == width
    modifies dib
    ensures dib.rows == old(dib.rows)[y := PackedNibbles(old(dib.rows)[y], buffer[..], width / 2)]
  {
    for x := 0 to width / 2
      invariant dib.rows == old(dib.rows)[y := PackedNibbles(old(dib.rows)[y], buffer[..], x)]
    {
      dib.rows := dib.rows[y := dib.rows[y][x := Or(Shl4(buffer[2 * x]), buffer[2 * x + 1])]];
    }
  }

  // ---------------------------------------------------------------------
  // Three 8-bit planes to RGB pixels
  // ---------------------------------------------------------------------

  /** One plane loop of the three-plane branch: byte x of the plane that
      starts at line[start] goes to byte x * 3 + off of scanline y. */
  method PlaneToRow(dib: Scanlines, y: nat, line: array<byte>, start: nat, off: nat, width: nat)
    requires y < |dib.rows| && off < 3 && 3 * width <= |dib.rows[y]| && start + width <= line.Length
    modifies dib
    ensures dib.rows == old(dib.rows)[y := PlaceRow(old(dib.rows)[y], off, 3, line[start..start + width])]
  {
    for x := 0 to width
      invariant dib.rows == old(dib.rows)[y := PlaceRow(old(dib.rows)[y], off, 3, line[start..start + x])]
    {
      assert line[start..start + x + 1][..x] == line[start..start + x];
      PixelInRow(x, width, 3, off);
      dib.rows := dib.rows[y := dib.rows[y][x * 3 + off := line[start + x]]];
    }
  }

  /** A scanline after the three plane loops: the first plane (red) at byte
      2 of each pixel, the second (green) at byte 1, the third (blue) at
      byte 0, as FI_RGBA_RED, FI_RGBA_GREEN and FI_RGBA_BLUE are on a
      little-endian machine. */
  function RgbRow(row: seq<byte>, line: seq<byte>, bpl: nat, width: nat): (r: seq<byte>)
    requires width <= bpl && 3 * bpl <= |line|
    ensures |r| == |row|
  {
    var red := PlaceRow(row, 2, 3, line[..width]);
    var green := PlaceRow(red, 1, 3, line[bpl..bpl + width]);
    PlaceRow(green, 0, 3, line[2 * bpl..2 * bpl + width])
  }

  /** Pixel x of a three-plane scanline is (blue, green, red) = (byte x of
      plane 2, of plane 1, of plane 0). */
  lemma RgbPixel(row: seq<byte>, line: seq<byte>, bpl: nat, width: nat, x: nat)
    requires width <= bpl && 3 * bpl <= |line| && 3 * width <= |row| && x < width
    ensures var r := RgbRow(row, line, bpl, width);
      r[3 * x] == line[2 * bpl + x] && r[3 * x + 1] == line[bpl + x] && r[3 * x + 2] == line[x]
  {
    var red := PlaceRow(row, 2, 3, line[..width]);
    var green := PlaceRow(red, 1, 3, line[bpl..bpl + width]);
    PixelInRow(x, width, 3, 2);
    PlaceRowHit(row, 2, 3, line[..width], x);
    PlaceRowHit(red, 1, 3, line[bpl..bpl + width], x);
    PlaceRowHit(green, 0, 3, line[2 * bpl..2 * bpl + width], x);
    DivModOf(x, 3, 2);
    DivModOf(x, 3, 1);
    PlaceRowMiss(red, 1, 3, line[bpl..bpl + width], 3 * x + 2);
    PlaceRowMiss(green, 0, 3, line[2 * bpl..2 * bpl + width], 3 * x + 2);
    PlaceRowMiss(green, 0, 3, line[2 * bpl..2 * bpl + width], 3 * x + 1);
  }

  // ---------------------------------------------------------------------
  // Palettes
  // ---------------------------------------------------------------------

  /** Where the palette marker is read: seek -769 from the end lands on
      the byte before a 768-byte colour map at the end of the file; in a
      shorter file the seek fails, the position stays just after the
      header, and the marker is the first byte after it. */
  function MarkerAt(data: seq<byte>): (at: nat)
    ensures |data| >= 769 ==> at + 769 == |data|
    ensures |data| < 769 ==> at == HEADER_SIZE
  {
    if |data| >= 769 then |data| - 769 else HEADER_SIZE
  }

  /** The palette_id byte read at MarkerAt, when there is one to read. */
  function PaletteMarker(data: seq<byte>): Option<byte>
  {
    if MarkerAt(data) < |data| then Some(data[MarkerAt(data)]) else None
  }

  /** Whether colour map entry i lies wholly inside the file: the map is
      read from just after the marker, and a short read leaves the entries
      past the end of the file unwritten. */
  predicate TripletRead(data: seq<byte>, i: nat)
  {
    MarkerAt(data) + 3 * i + 3 < |data|
  }

  /** The palette Load sets up in a zero-filled palette of 2^bitcount
      entries: black and white for 1 bit; the 16 triplets of the header for
      4 bits; for 8 bits, after a 0x0C marker, the triplets read after it
      (all 256 when the file ends with them), else a grey ramp when
      palette_info is 2, else nothing. */
  predicate PaletteIs(pal: seq<Rgba>, h: Header, data: seq<byte>, bitCount: nat)
  {
    match bitCount
    case 1 => |pal| == 2 && pal[0] == Rgba(0, 0, 0, 0) && pal[1] == Rgba(255, 255, 255, 0)
    case 4 => |pal| == 16 && |h.colorMap| == 48 &&
      forall i :: 0 <= i < 16 ==> pal[i] == Rgba(h.colorMap[3 * i], h.colorMap[3 * i + 1], h.colorMap[3 * i + 2], 0)
    case 8 => |pal| == 256 &&
      if PaletteMarker(data) == Some(0x0C) then
        forall i :: 0 <= i < 256 && TripletRead(data, i) ==>
          var c := MarkerAt(data) + 1 + 3 * i; pal[i] == Rgba(data[c], data[c + 1], data[c + 2], 0)
      else if h.paletteInfo == 2 then forall i :: 0 <= i < 256 ==> pal[i] == Rgba(i as byte, i as byte, i as byte, 0)
      else forall i :: 0 <= i < 256 ==> pal[i] == Rgba(0, 0, 0, 0)
    case _ => |pal| == 0
  }

  /** A file that ends with a marker and its colour map has every entry
      read from those last 768 bytes. */
  lemma TrailingMapRead(data: seq<byte>, i: nat)
    requires |data| >= 769 && i < 256
    ensures TripletRead(data, i) && MarkerAt(data) + 1 + 3 * i == |data| - 768 + 3 * i
  {
  }

  /** A file too short for a trailing colour map but longer than the
      header takes its marker from the first byte after the header. */
  lemma ShortFileMarker(data: seq<byte>)
    requires HEADER_SIZE < |data| < 769
    ensures PaletteMarker(data) == Some(data[HEADER_SIZE])
    ensures forall i: nat :: TripletRead(data, i) ==> 3 * i + 3 < |data| - HEADER_SIZE
  {
  }

  /** The colour map read of an 8-bit palette: the triplets from just
      after the marker that the file holds; the rest are left as they were. */
  method ReadColourMap(pal: array<Rgba>, data: seq<byte>)
    requires pal.Length == 256
    modifies pal
    ensures forall i :: 0 <= i < 256 ==>
      if TripletRead(data, i) then
        var c := MarkerAt(data) + 1 + 3 * i; pal[i] == Rgba(data[c], data[c + 1], data[c + 2], 0)
      else pal[i] == old(pal[i])
  {
    var base := MarkerAt(data) + 1;
    for i := 0 to 256
      invariant forall i' :: 0 <= i' < 256 ==>
        if i' < i && TripletRead(data, i') then
          var c := base + 3 * i'; pal[i'] == Rgba(data[c], data[c + 1], data[c + 2], 0)
        else pal[i'] == old(pal[i'])
    {
      if base + 3 * i + 2 < |data| {
        pal[i] := Rgba(data[base + 3 * i], data[base + 3 * i + 1], data[base + 3 * i + 2], 0);
      }
    }
  }

  /** The palette entries of a bitmap of the given depth: 2^bitcount, none
      above 8 bits. */
  function PaletteSize(bitCount: nat): nat
  {
    if bitCount == 1 then 2 else if bitCount == 4 then 16 else if bitCount == 8 then 256 else 0
  }

  /** The palette switch of Load. */
  method SetPalette(data: seq<byte>, h: Header, bitCount: nat) returns (pal: array<Rgba>)
    requires |h.colorMap| == 48
    ensures fresh(pal) && PaletteIs(pal[..], h, data, bitCount)
  {
    pal := new Rgba[PaletteSize(bitCount)](_ => Rgba(0, 0, 0, 0));
    if bitCount == 1 {
      pal[0] := Rgba(0, 0, 0, 0);
      pal[1] := Rgba(255, 255, 255, 0);
    } else if bitCount == 4 {
      FillTriplets(pal, h.colorMap, 0);
    } else if bitCount == 8 {
      var marker := PaletteMarker(data);
      if marker == Some(0x0C) {
        ReadColourMap(pal, data);
      } else if h.paletteInfo == 2 {
        GreyPalette(pal);
      }
    }
  }

  // ---------------------------------------------------------------------
  // The skip loop
  // ---------------------------------------------------------------------

  /** What read_proc(buffer, length, 1, handle) returns in readLine: the
      number of whole items of length bytes read, 1 or 0, not the number of
      bytes. This is what readLine returns for an uncompressed line. */
  function RawItems(length: nat, got: seq<byte>): (items: nat)
    requires |got| <= length
    ensures items <= 1 && (items == 1 <==> length > 0 && |got| == length)
  {
    if length > 0 && |got| == length then 1 else 0
  }

  /** The loop after readLine that skips the trailing garbage of a
      scanline: for each count from written up to length, ReadPos moves on
      while it is below 2048, else one byte is read from the stream.
      Returns ReadPos and the stream position. */
  function Skipped(data: seq<byte>, written: nat, length: nat, readPos: int, pos: nat): (r: (int, nat))
    requires pos <= |data|
    ensures r.1 <= |data|
    ensures 0 <= readPos <= IO_BUF_SIZE ==> readPos <= r.0 <= IO_BUF_SIZE
    ensures readPos >= IO_BUF_SIZE ==> r.0 == readPos
    decreases length - written
  {
    if written >= length then (readPos, pos)
    else if readPos < IO_BUF_SIZE then Skipped(data, written + 1, length, readPos + 1, pos)
    else Skipped(data, written + 1, length, readPos, Min(pos + 1, |data|))
  }

  /** The skip loop in place. */
  method SkipGarbage(data: seq<byte>, written: nat, length: nat, readPos0: int, pos0: nat)
    returns (readPos: int, pos: nat)
    requires pos0 <= |data|
    ensures (readPos, pos) == Skipped(data, written, length, readPos0, pos0)
  {
    readPos, pos := readPos0, pos0;
    var count := written;
    while count < length
      invariant pos <= |data|
      invariant Skipped(data, count, length, readPos, pos) == Skipped(data, written, length, readPos0, pos0)
      decreases length - count
    {
      if readPos < IO_BUF_SIZE {
        readPos := readPos + 1;
      } else {
        pos := Min(pos + 1, |data|);
      }
      count := count + 1;
    }
  }

  /** Once ReadPos is at the end of ReadBuf every skipped count reads one
      byte from the stream, so the loop moves the stream on by the bytes
      the line fell short of, as far as the stream goes. */
  lemma {:induction false} SkipStream(data: seq<byte>, written: nat, length: nat, readPos: int, pos: nat)
    requires pos <= |data| && readPos >= IO_BUF_SIZE
    ensures Skipped(data, written, length, readPos, pos)
      == (readPos, Min(pos + (if written < length then length - written else 0), |data|))
    decreases length - written
  {
    if written < length {
      SkipStream(data, written + 1, length, readPos, Min(pos + 1, |data|));
    }
  }

  /** As written, an uncompressed line of length >= 2 that is read whole
      returns 1, so the skip loop reads length - 1 bytes of the next
      line: the next line starts length - 1 bytes late. */
  lemma RawSkipAsWritten(data: seq<byte>, pos: nat, length: nat)
    requires length >= 2 && pos + 2 * length <= |data|
    ensures var got := Take(data, pos, length);
      Skipped(data, RawItems(length, got), length, IO_BUF_SIZE, pos + |got|) == (IO_BUF_SIZE, pos + 2 * length - 1)
  {
    SkipStream(data, 1, length, IO_BUF_SIZE, pos + length);
  }

  /** With readLine returning the bytes read, the skip loop of an
      uncompressed line never moves the stream: either the line was whole,
      or the stream is already at its end. */
  lemma RawSkipCorrected(data: seq<byte>, pos: nat, length: nat)
    requires pos <= |data|
    ensures var got := Take(data, pos, length);
      Skipped(data, RawWritten(length, got), length, IO_BUF_SIZE, pos + |got|) == (IO_BUF_SIZE, pos + |got|)
  {
    var got := Take(data, pos, length);
    SkipStream(data, |got|, length, IO_BUF_SIZE, pos + |got|);
  }

  /** A run-length line is always read whole, so its skip loop does
      nothing. */
  lemma RleSkipNothing(data: seq<byte>, length: nat, readPos: int, pos: nat)
    requires pos <= |data|
    ensures Skipped(data, length, length, readPos, pos) == (readPos, pos)
  {
  }

  // ---------------------------------------------------------------------
  // The sequence of lines
  // ---------------------------------------------------------------------

  /** The line buffer and the reader after one readLine into a line buffer
      holding line, followed by the skip loop when skip holds (every layout
      but three planes): the decoded run-length line, whose skip loop does
      nothing (RleSkipNothing), or the bytes the stream still holds over
      the old contents, after which the skip loop starts from the item
      count readLine returns. */
  function NextLine(data: seq<byte>, rle: bool, skip: bool, st: BufState, line: seq<byte>): (r: (seq<byte>, BufState))
    requires BufOk(data, st)
    ensures BufOk(data, r.1) && |r.0| == |line|
    ensures !rle ==> r.1.buf == st.buf && (st.readPos >= IO_BUF_SIZE ==> r.1.readPos == st.readPos)
  {
    if rle then RleLine(data, st, 0, 0, |line|, [])
    else
      var got := Take(data, st.pos, |line|);
      var after := st.pos + |got|;
      var moved := if skip then Skipped(data, RawItems(|line|, got), |line|, st.readPos, after) else (st.readPos, after);
      (got + line[|got|..], st.(readPos := moved.0, pos := moved.1))
  }

  /** The line buffer after each of the first n calls of readLine (each
      followed by the skip loop when skip holds), from a zero-filled buffer
      of length bytes, and the reader after them. */
  function Lines(data: seq<byte>, rle: bool, skip: bool, st0: BufState, length: nat, n: nat): (r: (seq<seq<byte>>, BufState))
    requires BufOk(data, st0)
    ensures BufOk(data, r.1) && |r.0| == n && forall y :: 0 <= y < n ==> |r.0[y]| == length
    decreases n
  {
    if n == 0 then ([], st0)
    else
      var (ls, st) := Lines(data, rle, skip, st0, length, n - 1);
      var (l, st') := NextLine(data, rle, skip, st, if n == 1 then Bytes.Repeat(length, 0) else ls[n - 2]);
      (ls + [l], st')
  }

  /** The bytes the stream moves on by per uncompressed line read whole:
      the line, and with the skip loop the length - 1 bytes that loop reads
      after readLine has returned 1. */
  function Stride(skip: bool, length: nat): (stride: nat)
    ensures stride >= length
  {
    if skip && length > 0 then 2 * length - 1 else length
  }

  /** Where n lines stored stride bytes apart after the header end. */
  function LinesEnd(n: nat, stride: nat): (end: nat)
    ensures end >= HEADER_SIZE
  {
    if n == 0 then HEADER_SIZE else LinesEnd(n - 1, stride) + stride
  }

  lemma {:induction false} LinesEndIs(n: nat, stride: nat)
    ensures LinesEnd(n, stride) == HEADER_SIZE + n * stride
  {
    if n > 0 {
      LinesEndIs(n - 1, stride);
      assert (n - 1) * stride + stride == n * stride;
    }
  }

  /** The uncompressed lines as the file stores them when the lines start
      stride bytes apart: line y is the length bytes at LinesEnd(y, stride). */
  function Stored(data: seq<byte>, stride: nat, length: nat, n: nat): (ls: seq<seq<byte>>)
    requires length <= stride && LinesEnd(n, stride) <= |data|
    ensures |ls| == n
    decreases n
  {
    if n == 0 then []
    else
      var start := LinesEnd(n - 1, stride);
      Stored(data, stride, length, n - 1) + [data[start..start + length]]
  }

  /** Uncompressed lines read whole are the stored lines: with the skip
      loop as written each line starts 2 * length - 1 bytes after the one
      before, without it (three planes, or readLine returning the bytes
      read, RawSkipCorrected) the lines follow one another; the stream is
      left after the last stride. */
  lemma {:induction false} RawLines(data: seq<byte>, buf: seq<byte>, skip: bool, length: nat, n: nat)
    requires |buf| == IO_BUF_SIZE && LinesEnd(n, Stride(skip, length)) <= |data|
    ensures Lines(data, false, skip, BufState(buf, IO_BUF_SIZE, HEADER_SIZE), length, n)
      == (Stored(data, Stride(skip, length), length, n), BufState(buf, IO_BUF_SIZE, LinesEnd(n, Stride(skip, length))))
    decreases n
  {
    if n > 0 {
      RawLines(data, buf, skip, length, n - 1);
      RawStored(data, buf, skip, length, n);
    }
  }

  /** The induction step of RawLines. */
  lemma RawStored(data: seq<byte>, buf: seq<byte>, skip: bool, length: nat, n: nat)
    requires |buf| == IO_BUF_SIZE && n > 0 && LinesEnd(n, Stride(skip, length)) <= |data|
    requires Lines(data, false, skip, BufState(buf, IO_BUF_SIZE, HEADER_SIZE), length, n - 1)
      == (Stored(data, Stride(skip, length), length, n - 1), BufState(buf, IO_BUF_SIZE, LinesEnd(n - 1, Stride(skip, length))))
    ensures Lines(data, false, skip, BufState(buf, IO_BUF_SIZE, HEADER_SIZE), length, n)
      == (Stored(data, Stride(skip, length), length, n), BufState(buf, IO_BUF_SIZE, LinesEnd(n, Stride(skip, length))))
  {
    var stride := Stride(skip, length);
    var start := LinesEnd(n - 1, stride);
    StoredNext(data, stride, length, n);
    RawStep(data, BufState(buf, IO_BUF_SIZE, HEADER_SIZE), skip, length, n, start);
  }

  /** One more stored line, stride bytes after the one before. */
  lemma StoredNext(data: seq<byte>, stride: nat, length: nat, n: nat)
    requires n > 0 && length <= stride && LinesEnd(n, stride) <= |data|
    ensures LinesEnd(n, stride) == LinesEnd(n - 1, stride) + stride
    ensures Stored(data, stride, length, n)
      == Stored(data, stride, length, n - 1) + [data[LinesEnd(n - 1, stride)..LinesEnd(n - 1, stride) + length]]
  {
  }

  /** One more uncompressed line is the next length bytes of the stream,
      and the stream moves on by the stride. */
  lemma RawStep(data: seq<byte>, st0: BufState, skip: bool, length: nat, n: nat, start: nat)
    requires BufOk(data, st0) && st0.readPos == IO_BUF_SIZE && n > 0
    requires Lines(data, false, skip, st0, length, n - 1).1 == st0.(pos := start)
    requires start + Stride(skip, length) <= |data|
    ensures Lines(data, false, skip, st0, length, n)
      == (Lines(data, false, skip, st0, length, n - 1).0 + [data[start..start + length]],
          st0.(pos := start + Stride(skip, length)))
  {
    var (ls, st) := Lines(data, false, skip, st0, length, n - 1);
    var prev := if n == 1 then Bytes.Repeat(length, 0) else ls[n - 2];
    RawNext(data, skip, st, prev);
  }

  /** One uncompressed line with the reader at the end of ReadBuf: the next
      length bytes of the stream, which moves on by the stride. */
  lemma RawNext(data: seq<byte>, skip: bool, st: BufState, line: seq<byte>)
    requires BufOk(data, st) && st.readPos == IO_BUF_SIZE && st.pos + Stride(skip, |line|) <= |data|
    ensures NextLine(data, false, skip, st, line)
      == (data[st.pos..st.pos + |line|], st.(pos := st.pos + Stride(skip, |line|)))
  {
    var length := |line|;
    var got := data[st.pos..st.pos + length];
    assert Take(data, st.pos, length) == got;
    assert got + line[length..] == got;
    if skip {
      SkipStream(data, RawItems(length, got), length, IO_BUF_SIZE, st.pos + length);
    }
  }

  /** The run-length lines read straight from the bytes s: each line is
      decoded with count and value starting at 0, so a run never carries
      over into the next line. None when s runs out first. */
  function FlatLines(s: seq<byte>, length: nat, n: nat): Option<(seq<seq<byte>>, seq<byte>)>
    decreases n
  {
    if n == 0 then Some(([], s))
    else match FlatLines(s, length, n - 1)
      case None => None
      case Some((ls, rest)) =>
        match FlatLine(rest, 0, 0, length, [])
        case None => None
        case Some((l, rest')) => Some((ls + [l], rest'))
  }

  /** The refill buffer is invisible across lines: when the bytes after
      the header hold n run-length lines, the lines Load reads are those. */
  lemma {:induction false} RleLines(data: seq<byte>, buf: seq<byte>, skip: bool, length: nat, n: nat)
    requires |buf| == IO_BUF_SIZE && HEADER_SIZE <= |data| && FlatLines(data[HEADER_SIZE..], length, n).Some?
    ensures Lines(data, true, skip, BufState(buf, IO_BUF_SIZE, HEADER_SIZE), length, n).0
      == FlatLines(data[HEADER_SIZE..], length, n).value.0
    ensures Holds(data, Lines(data, true, skip, BufState(buf, IO_BUF_SIZE, HEADER_SIZE), length, n).1,
      FlatLines(data[HEADER_SIZE..], length, n).value.1)
    decreases n
  {
    var st0 := BufState(buf, IO_BUF_SIZE, HEADER_SIZE);
    if n == 0 {
      assert st0.buf[st0.readPos..] == [];
    } else {
      RleLines(data, buf, skip, length, n - 1);
      var (ls, st) := Lines(data, true, skip, st0, length, n - 1);
      var rest := FlatLines(data[HEADER_SIZE..], length, n - 1).value.1;
      Transparent(data, st, rest, 0, 0, length, []);
    }
  }

  // ---------------------------------------------------------------------
  // Unpacking a line into a scanline
  // ---------------------------------------------------------------------

  /** The layouts Load unpacks: one plane of 1 or 8 bits copied as it is,
      four 1-bit planes packed into 4-bit pixels, three 8-bit planes
      interleaved into 24-bit pixels. */
  datatype Layout = CopyPlane | FourPlanes | ThreePlanes

  /** The branch Load takes on the planes and the bits per plane. */
  function LayoutOf(h: Header): Option<Layout>
  {
    if h.planes == 1 && (h.bpp == 1 || h.bpp == 8) then Some(CopyPlane)
    else if h.planes == 4 && h.bpp == 1 then Some(FourPlanes)
    else if h.planes == 3 && h.bpp == 8 then Some(ThreePlanes)
    else None
  }

  /** The unpacking of width pixels reads past the line of bytes_per_line
      bytes per plane: more pixels than the four 1-bit planes hold, or than
      an 8-bit plane holds. */
  predicate Overruns(b: Layout, width: nat, bpl: nat)
  {
    match b
    case CopyPlane => false
    case FourPlanes => width > 8 * bpl
    case ThreePlanes => width > bpl
  }

  /** The line of length bytes holds every byte the unpacking reads, and
      a scanline of pitch bytes every byte it writes. */
  predicate Fits(b: Layout, width: nat, bpl: nat, length: nat, pitch: nat)
  {
    match b
    case CopyPlane => true
    case FourPlanes => length == 4 * bpl && width <= 8 * bpl && width / 2 <= pitch
    case ThreePlanes => length == 3 * bpl && width <= bpl && 3 * width <= pitch
  }

  /** Unless the unpacking overruns, the line and the scanline of the
      bitmap Load allocates are large enough for it. */
  lemma FitsUnlessOverrun(h: Header, g: Geometry, b: Layout)
    requires GeometryOf(h) == Ok(g) && LayoutOf(h) == Some(b) && !Overruns(b, g.width, h.bytesPerLine)
    ensures Fits(b, g.width, h.bytesPerLine, h.bytesPerLine * h.planes as nat, Pitch(g.width, g.bitCount))
  {
    var w := g.width;
    if b == FourPlanes {
      assert g.bitCount == 4;
      assert (w * 4 + 7) / 8 >= w / 2;
    } else if b == ThreePlanes {
      assert g.bitCount == 24;
      assert (w * 24 + 7) / 8 == 3 * w;
    }
  }

  /** The pixels of a four-plane line before they are packed: pixel x has
      bit p set when plane p sets it. */
  function Nibbles(line: seq<byte>, bpl: nat, width: nat): (buf: seq<byte>)
    requires |line| == 4 * bpl && width <= 8 * bpl
    ensures |buf| == width
  {
    PlaneIndexIn(width, bpl);
    assert Pow2(4) == 16;
    seq(width, x requires 0 <= x < width => NibbleOf(line, bpl, x, 4) as byte)
  }

  /** A scanline after the line has been unpacked into it: the first
      min(pitch, length) bytes copied (memcpy), the pixel pairs packed, or
      the three planes interleaved. */
  function PlaceLine(b: Layout, row: seq<byte>, line: seq<byte>, width: nat, bpl: nat): (r: seq<byte>)
    requires Fits(b, width, bpl, |line|, |row|)
    ensures |r| == |row|
  {
    match b
    case CopyPlane => line[..Min(|row|, |line|)] + row[Min(|row|, |line|)..]
    case FourPlanes => PackedNibbles(row, Nibbles(line, bpl, width), width / 2)
    case ThreePlanes => RgbRow(row, line, bpl, width)
  }

  /** The unpacking of the line in place into scanline t. */
  method PlaceLineInto(b: Layout, dib: Scanlines, t: nat, line: array<byte>, buffer: array<byte>,
                       width: nat, bpl: nat)
    requires t < |dib.rows| && Fits(b, width, bpl, line.Length, |dib.rows[t]|)
    requires buffer.Length == width && line != buffer
    modifies dib, buffer
    ensures dib.rows == old(dib.rows)[t := PlaceLine(b, old(dib.rows)[t], line[..], width, bpl)]
  {
    match b
    case CopyPlane =>
      var m := Min(|dib.rows[t]|, line.Length);
      dib.rows := dib.rows[t := line[..m] + dib.rows[t][m..]];
    case FourPlanes =>
      BuildNibbles(line, bpl, width, buffer);
      assert buffer[..] == Nibbles(line[..], bpl, width);
      PackNibbleRow(dib, t, buffer, width);
    case ThreePlanes =>
      PlaneToRow(dib, t, line, 0, 2, width);
      assert line[0..width] == line[..][..width];
      PlaneToRow(dib, t, line, bpl, 1, width);
      assert line[bpl..bpl + width] == line[..][bpl..bpl + width];
      PlaneToRow(dib, t, line, 2 * bpl, 0, width);
      assert line[2 * bpl..2 * bpl + width] == line[..][2 * bpl..2 * bpl + width];
  }

  /** The scanlines after the lines have been unpacked, bottom up: line y
      goes to scanline |rows| - 1 - y (bits starts at the last scanline
      and moves back one pitch per line). */
  function PaintLines(rows: seq<seq<byte>>, b: Layout, lines: seq<seq<byte>>, width: nat, bpl: nat,
                      length: nat, pitch: nat): (r: seq<seq<byte>>)
    requires |lines| <= |rows| && Fits(b, width, bpl, length, pitch)
    requires forall y :: 0 <= y < |rows| ==> |rows[y]| == pitch
    requires forall y :: 0 <= y < |lines| ==> |lines[y]| == length
    ensures |r| == |rows| && forall y :: 0 <= y < |r| ==> |r[y]| == pitch
    decreases |lines|
  {
    if |lines| == 0 then rows
    else
      var y := |lines| - 1;
      var p := PaintLines(rows, b, lines[..y], width, bpl, length, pitch);
      var t := |rows| - 1 - y;
      p[t := PlaceLine(b, p[t], lines[y], width, bpl)]
  }

  /** The last line is painted over the scanlines painted with the others. */
  lemma PaintLinesLast(rows: seq<seq<byte>>, b: Layout, lines: seq<seq<byte>>, width: nat, bpl: nat,
                       length: nat, pitch: nat)
    requires 0 < |lines| <= |rows| && Fits(b, width, bpl, length, pitch)
    requires forall y :: 0 <= y < |rows| ==> |rows[y]| == pitch
    requires forall y :: 0 <= y < |lines| ==> |lines[y]| == length
    ensures var y := |lines| - 1;
      var p := PaintLines(rows, b, lines[..y], width, bpl, length, pitch);
      PaintLines(rows, b, lines, width, bpl, length, pitch) == p[|rows| - 1 - y := PlaceLine(b, p[|rows| - 1 - y], lines[y], width, bpl)]
  {
  }

  /** Line y lands on scanline |rows| - 1 - y, unpacked over what was
      there, and the scanlines above the painted ones keep their bytes. */
  lemma {:induction false} PaintLinesAt(rows: seq<seq<byte>>, b: Layout, lines: seq<seq<byte>>, width: nat,
                                        bpl: nat, length: nat, pitch: nat, t: nat)
    requires |lines| <= |rows| && Fits(b, width, bpl, length, pitch)
    requires forall y :: 0 <= y < |rows| ==> |rows[y]| == pitch
    requires forall y :: 0 <= y < |lines| ==> |lines[y]| == length
    requires t < |rows|
    ensures t + |lines| >= |rows| ==>
      PaintLines(rows, b, lines, width, bpl, length, pitch)[t] == PlaceLine(b, rows[t], lines[|rows| - 1 - t], width, bpl)
    ensures t + |lines| < |rows| ==> PaintLines(rows, b, lines, width, bpl, length, pitch)[t] == rows[t]
    decreases |lines|
  {
    if |lines| > 0 {
      PaintLinesAt(rows, b, lines[..|lines| - 1], width, bpl, length, pitch, t);
      PaintLinesAtStep(rows, b, lines, width, bpl, length, pitch, t);
    }
  }

  /** The step of PaintLinesAt: from the lines but the last to all of them. */
  lemma PaintLinesAtStep(rows: seq<seq<byte>>, b: Layout, lines: seq<seq<byte>>, width: nat,
                         bpl: nat, length: nat, pitch: nat, t: nat)
    requires 0 < |lines| <= |rows| && Fits(b, width, bpl, length, pitch)
    requires forall y :: 0 <= y < |rows| ==> |rows[y]| == pitch
    requires forall y :: 0 <= y < |lines| ==> |lines[y]| == length
    requires t < |rows|
    requires var front := lines[..|lines| - 1];
      && (t + |front| >= |rows| ==>
            PaintLines(rows, b, front, width, bpl, length, pitch)[t] == PlaceLine(b, rows[t], front[|rows| - 1 - t], width, bpl))
      && (t + |front| < |rows| ==> PaintLines(rows, b, front, width, bpl, length, pitch)[t] == rows[t])
    ensures t + |lines| >= |rows| ==>
      PaintLines(rows, b, lines, width, bpl, length, pitch)[t] == PlaceLine(b, rows[t], lines[|rows| - 1 - t], width, bpl)
    ensures t + |lines| < |rows| ==> PaintLines(rows, b, lines, width, bpl, length, pitch)[t] == rows[t]
  {
    var y := |lines| - 1;
    var front := lines[..y];
    var p := PaintLines(rows, b, front, width, bpl, length, pitch);
    var q := PaintLines(rows, b, lines, width, bpl, length, pitch);
    PaintLinesLast(rows, b, lines, width, bpl, length, pitch);
    var u := |rows| - 1 - y;
    ghost var v := PlaceLine(b, p[u], lines[y], width, bpl);
    UpdatedRow(p, q, u, v, t);
    if t == u {
      assert p[t] == rows[t];
    } else if t + y >= |rows| {
      assert front[|rows| - 1 - t] == lines[|rows| - 1 - t];
    }
  }

  /** A row of a sequence of rows with one row replaced. */
  lemma UpdatedRow(p: seq<seq<byte>>, q: seq<seq<byte>>, u: nat, v: seq<byte>, t: nat)
    requires u < |p| && t < |p| && q == p[u := v]
    ensures q[t] == if t == u then v else p[t]
  {
  }

  // ---------------------------------------------------------------------
  // Load
  // ---------------------------------------------------------------------

  /** The reader when the pixel data starts: ReadPos at the end of the
      zero-filled ReadBuf, the stream just after the header. */
  function StartState(): (st: BufState)
    ensures st.readPos == IO_BUF_SIZE && st.pos == HEADER_SIZE
  {
    BufState(Bytes.Repeat(IO_BUF_SIZE, 0), IO_BUF_SIZE, HEADER_SIZE)
  }

  /** The outcome of Load: the signature, the header read, the window and
      the depth, then (unless only the header is wanted) the layout and
      the overrun guard. */
  function LoadResult(data: seq<byte>, headerOnly: bool): Result<Geometry, PcxError>
  {
    if !Validate(data) then Err(MagicNumber)
    else if |data| < HEADER_SIZE then Err(Parsing)
    else
      var h := ReadHeader(data);
      match GeometryOf(h)
      case Err(e) => Err(e)
      case Ok(g) =>
        if headerOnly then Ok(g)
        else match LayoutOf(h)
          case None => Err(UnsupportedFormat)
          case Some(b) => if Overruns(b, g.width, h.bytesPerLine) then Err(LineOverrun) else Ok(g)
  }

  /** The scanlines Load fills: height readLine calls of bytes_per_line *
      planes bytes, unpacked bottom up into zero-filled scanlines. */
  function Pixels(data: seq<byte>, h: Header, g: Geometry, b: Layout): (rows: seq<seq<byte>>)
    requires |data| >= HEADER_SIZE
    requires Fits(b, g.width, h.bytesPerLine, h.bytesPerLine * h.planes as nat, Pitch(g.width, g.bitCount))
    ensures |rows| == g.height && forall y :: 0 <= y < g.height ==> |rows[y]| == Pitch(g.width, g.bitCount)
  {
    var length := h.bytesPerLine * h.planes as nat;
    var lines := Lines(data, h.encoding == 1, b != ThreePlanes, StartState(), length, g.height).0;
    PaintLines(Blank(g.height, Pitch(g.width, g.bitCount)), b, lines, g.width, h.bytesPerLine, length,
               Pitch(g.width, g.bitCount))
  }

  /** One more readLine appends one line. */
  lemma LinesSnoc(data: seq<byte>, rle: bool, skip: bool, st0: BufState, length: nat, n: nat)
    requires BufOk(data, st0)
    ensures var (ls, st) := Lines(data, rle, skip, st0, length, n);
      var next := NextLine(data, rle, skip, st, if n == 0 then Bytes.Repeat(length, 0) else ls[n - 1]);
      Lines(data, rle, skip, st0, length, n + 1) == (ls + [next.0], next.1)
  {
  }

  /** One more line paints one more scanline, the next one up. */
  lemma PaintLinesSnoc(rows: seq<seq<byte>>, b: Layout, lines: seq<seq<byte>>, l: seq<byte>, width: nat,
                       bpl: nat, length: nat, pitch: nat)
    requires |lines| < |rows| && Fits(b, width, bpl, length, pitch)
    requires forall y :: 0 <= y < |rows| ==> |rows[y]| == pitch
    requires forall y :: 0 <= y < |lines| ==> |lines[y]| == length
    requires |l| == length
    ensures var p := PaintLines(rows, b, lines, width, bpl, length, pitch);
      var t := |rows| - 1 - |lines|;
      PaintLines(rows, b, lines + [l], width, bpl, length, pitch) == p[t := PlaceLine(b, p[t], l, width, bpl)]
  {
    assert (lines + [l])[..|lines|] == lines;
  }

  /** The lines read so far, the reader after them and the scanlines
      painted with them, after y passes of the scanline loop. */
  ghost predicate Scanned(data: seq<byte>, rle: bool, b: Layout, width: nat, bpl: nat, pitch: nat,
                          rows0: seq<seq<byte>>, y: nat, rows: seq<seq<byte>>, st: BufState, line: seq<byte>)
    requires HEADER_SIZE <= |data| && y <= |rows0| && Fits(b, width, bpl, |line|, pitch)
    requires forall t :: 0 <= t < |rows0| ==> |rows0[t]| == pitch
  {
    var r := Lines(data, rle, b != ThreePlanes, StartState(), |line|, y);
    && st == r.1
    && line == (if y == 0 then Bytes.Repeat(|line|, 0) else r.0[y - 1])
    && rows == PaintLines(rows0, b, r.0, width, bpl, |line|, pitch)
    && (!rle ==> st.readPos == IO_BUF_SIZE)
  }

  /** A pass of the scanline loop takes the loop from y lines to y + 1. */
  lemma ScannedStep(data: seq<byte>, rle: bool, b: Layout, width: nat, bpl: nat, pitch: nat,
                    rows0: seq<seq<byte>>, y: nat, rows: seq<seq<byte>>, st: BufState, line: seq<byte>)
    requires HEADER_SIZE <= |data| && y < |rows0| && Fits(b, width, bpl, |line|, pitch)
    requires forall t :: 0 <= t < |rows0| ==> |rows0[t]| == pitch
    requires Scanned(data, rle, b, width, bpl, pitch, rows0, y, rows, st, line)
    ensures BufOk(data, st) && |rows| == |rows0| && Fits(b, width, bpl, |line|, |rows[|rows| - 1 - y]|)
    ensures var next := NextLine(data, rle, b != ThreePlanes, st, line);
      var t := |rows| - 1 - y;
      Scanned(data, rle, b, width, bpl, pitch, rows0, y + 1, rows[t := PlaceLine(b, rows[t], next.0, width, bpl)],
              next.1, next.0)
  {
    var skip := b != ThreePlanes;
    var ls := Lines(data, rle, skip, StartState(), |line|, y).0;
    var next := NextLine(data, rle, skip, st, line);
    LinesSnoc(data, rle, skip, StartState(), |line|, y);
    var ls' := ls + [next.0];
    assert Lines(data, rle, skip, StartState(), |line|, y + 1) == (ls', next.1);
    assert ls'[y] == next.0;
    PaintLinesSnoc(rows0, b, ls, next.0, width, bpl, |line|, pitch);
    var t := |rows| - 1 - y;
    var placed := rows[t := PlaceLine(b, rows[t], next.0, width, bpl)];
    var r := Lines(data, rle, skip, StartState(), |next.0|, y + 1);
    assert next.1 == r.1;
    assert next.0 == r.0[y];
    assert placed == PaintLines(rows0, b, r.0, width, bpl, |next.0|, pitch);
    assert !rle ==> next.1.readPos == IO_BUF_SIZE;
  }

  /** Between passes of the scanline loop the reader is consistent and the
      next scanline has the pitch. */
  lemma ScannedFacts(data: seq<byte>, rle: bool, b: Layout, width: nat, bpl: nat, pitch: nat,
                     rows0: seq<seq<byte>>, y: nat, rows: seq<seq<byte>>, st: BufState, line: seq<byte>)
    requires HEADER_SIZE <= |data| && y < |rows0| && Fits(b, width, bpl, |line|, pitch)
    requires forall t :: 0 <= t < |rows0| ==> |rows0[t]| == pitch
    requires Scanned(data, rle, b, width, bpl, pitch, rows0, y, rows, st, line)
    ensures BufOk(data, st) && |rows| == |rows0| && Fits(b, width, bpl, |line|, |rows[|rows| - 1 - y]|)
    ensures !rle ==> st.readPos == IO_BUF_SIZE
    ensures forall t :: 0 <= t < |rows| ==> |rows[t]| == pitch
  {
  }

  /** A pass of the scanline loop, named by what it left in the line
      buffer, ReadBuf and the scanlines. */
  lemma ScannedPass(data: seq<byte>, rle: bool, b: Layout, width: nat, bpl: nat, pitch: nat,
                    rows0: seq<seq<byte>>, y: nat, rows: seq<seq<byte>>, st: BufState, line: seq<byte>,
                    rows': seq<seq<byte>>, st': BufState, line': seq<byte>)
    requires HEADER_SIZE <= |data| && y < |rows0| && Fits(b, width, bpl, |line|, pitch)
    requires forall t :: 0 <= t < |rows0| ==> |rows0[t]| == pitch
    requires Scanned(data, rle, b, width, bpl, pitch, rows0, y, rows, st, line)
    requires BufOk(data, st)
    requires var next := NextLine(data, rle, b != ThreePlanes, st, line);
      && line' == next.0 && st' == next.1 && |rows| == |rows0|
      && rows' == rows[|rows| - 1 - y := PlaceLine(b, rows[|rows| - 1 - y], next.0, width, bpl)]
    ensures |line'| == |line|
    ensures Scanned(data, rle, b, width, bpl, pitch, rows0, y + 1, rows', st', line')
  {
    ScannedFacts(data, rle, b, width, bpl, pitch, rows0, y, rows, st, line);
    ScannedStep(data, rle, b, width, bpl, pitch, rows0, y, rows, st, line);
    ScannedAfter(data, rle, b, width, bpl, pitch, rows0, y, rows, st, line, rows', st', line');
  }

  /** The state after a pass, named by what the pass left in the line
      buffer, ReadBuf and the scanlines. */
  lemma ScannedAfter(data: seq<byte>, rle: bool, b: Layout, width: nat, bpl: nat, pitch: nat,
                     rows0: seq<seq<byte>>, y: nat, rows: seq<seq<byte>>, st: BufState, line: seq<byte>,
                     rows': seq<seq<byte>>, st': BufState, line': seq<byte>)
    requires HEADER_SIZE <= |data| && y < |rows0| && Fits(b, width, bpl, |line|, pitch)
    requires forall t :: 0 <= t < |rows0| ==> |rows0[t]| == pitch
    requires BufOk(data, st) && |rows| == |rows0| && forall t :: 0 <= t < |rows| ==> |rows[t]| == pitch
    requires var next := NextLine(data, rle, b != ThreePlanes, st, line);
      var t := |rows| - 1 - y;
      && Scanned(data, rle, b, width, bpl, pitch, rows0, y + 1, rows[t := PlaceLine(b, rows[t], next.0, width, bpl)],
                 next.1, next.0)
      && line' == next.0 && st' == next.1 && rows' == rows[t := PlaceLine(b, rows[t], next.0, width, bpl)]
    ensures |line'| == |line|
    ensures Scanned(data, rle, b, width, bpl, pitch, rows0, y + 1, rows', st', line')
  {
  }

  /** One pass of the scanline loop: readLine, the unpacking into
      scanline t, and (except for three planes) the skip loop, which starts
      from the count readLine returned. */
  method ReadAndPlace(data: seq<byte>, rle: bool, b: Layout, width: nat, bpl: nat, dib: Scanlines, t: nat,
                  line: array<byte>, readBuf: array<byte>, buffer: array<byte>, readPos0: int, pos0: nat)
    returns (readPos: int, pos: nat)
    requires BufOk(data, BufState(readBuf[..], readPos0, pos0)) && (!rle ==> readPos0 == IO_BUF_SIZE)
    requires t < |dib.rows| && Fits(b, width, bpl, line.Length, |dib.rows[t]|) && buffer.Length == width
    requires line != readBuf && line != buffer && readBuf != buffer
    modifies dib, line, readBuf, buffer
    ensures var next := NextLine(data, rle, b != ThreePlanes, BufState(old(readBuf[..]), readPos0, pos0), old(line[..]));
      && line[..] == next.0 && BufState(readBuf[..], readPos, pos) == next.1
      && dib.rows == old(dib.rows)[t := PlaceLine(b, old(dib.rows)[t], next.0, width, bpl)]
  {
    var written;
    written, readPos, pos := ReadLine(data, line, line.Length, rle, readBuf, readPos0, pos0);
    assert line[..] == line[..line.Length];
    PlaceLineInto(b, dib, t, line, buffer, width, bpl);
    if b != ThreePlanes {
      if rle {
        RleSkipNothing(data, line.Length, readPos, pos);
      }
      readPos, pos := SkipGarbage(data, written, line.Length, readPos, pos);
    }
  }

  /** Pass y of the scanline loop: readLine, the unpacking into scanline
      height - 1 - y and the skip loop. */
  method LoadLine(data: seq<byte>, rle: bool, b: Layout, width: nat, bpl: nat, pitch: nat, dib: Scanlines,
                  ghost rows0: seq<seq<byte>>, y: nat,
                  line: array<byte>, readBuf: array<byte>, buffer: array<byte>, readPos0: int, pos0: nat)
    returns (readPos: int, pos: nat)
    requires HEADER_SIZE <= |data| && readBuf.Length == IO_BUF_SIZE && buffer.Length == width
    requires y < |rows0| && Fits(b, width, bpl, line.Length, pitch)
    requires forall t :: 0 <= t < |rows0| ==> |rows0[t]| == pitch
    requires line != readBuf && line != buffer && readBuf != buffer
    requires Scanned(data, rle, b, width, bpl, pitch, rows0, y, dib.rows, BufState(readBuf[..], readPos0, pos0), line[..])
    modifies dib, line, readBuf, buffer
    ensures Scanned(data, rle, b, width, bpl, pitch, rows0, y + 1, dib.rows, BufState(readBuf[..], readPos, pos), line[..])
  {
    ghost var st, ln, rows := BufState(readBuf[..], readPos0, pos0), line[..], dib.rows;
    ScannedFacts(data, rle, b, width, bpl, pitch, rows0, y, rows, st, ln);
    var t := |dib.rows| - 1 - y;
    readPos, pos := ReadAndPlace(data, rle, b, width, bpl, dib, t, line, readBuf, buffer, readPos0, pos0);
    ghost var rows', st', ln' := dib.rows, BufState(readBuf[..], readPos, pos), line[..];
    ScannedPass(data, rle, b, width, bpl, pitch, rows0, y, rows, st, ln, rows', st', ln');
  }

  /** The scanline loop of Load for one layout. */
  method LoadLines(data: seq<byte>, rle: bool, b: Layout, width: nat, bpl: nat, pitch: nat, height: nat,
                   dib: Scanlines, line: array<byte>, readBuf: array<byte>, buffer: array<byte>)
    requires HEADER_SIZE <= |data| && readBuf.Length == IO_BUF_SIZE && buffer.Length == width
    requires line != readBuf && line != buffer && readBuf != buffer
    requires line[..] == Bytes.Repeat(line.Length, 0) && readBuf[..] == Bytes.Repeat(IO_BUF_SIZE, 0)
    requires Fits(b, width, bpl, line.Length, pitch)
    requires |dib.rows| == height && forall y :: 0 <= y < height ==> |dib.rows[y]| == pitch
    modifies dib, line, readBuf, buffer
    ensures dib.rows == PaintLines(old(dib.rows), b, Lines(data, rle, b != ThreePlanes, StartState(), line.Length, height).0,
                                   width, bpl, line.Length, pitch)
  {
    ghost var rows0 := dib.rows;
    var readPos: int, pos: nat := IO_BUF_SIZE, HEADER_SIZE;
    for y := 0 to height
      invariant Scanned(data, rle, b, width, bpl, pitch, rows0, y, dib.rows, BufState(readBuf[..], readPos, pos), line[..])
    {
      readPos, pos := LoadLine(data, rle, b, width, bpl, pitch, dib, rows0, y, line, readBuf, buffer, readPos, pos);
    }
  }

  /** The pixel part of Load: the zero-filled bitmap, the line buffer and
      ReadBuf, and the scanline loop. */
  method LoadPixels(data: seq<byte>, h: Header, g: Geometry, b: Layout) returns (dib: Scanlines)
    requires |data| >= HEADER_SIZE
    requires Fits(b, g.width, h.bytesPerLine, h.bytesPerLine * h.planes as nat, Pitch(g.width, g.bitCount))
    ensures fresh(dib) && dib.rows == Pixels(data, h, g, b)
  {
    var pitch := Pitch(g.width, g.bitCount);
    var length := h.bytesPerLine * h.planes as nat;
    dib := new Scanlines(g.height, pitch);
    assert dib.rows == Blank(g.height, pitch);
    var line := new byte[length](_ => 0);
    var readBuf := new byte[IO_BUF_SIZE](_ => 0);
    var buffer := new byte[g.width](_ => 0);
    assert line[..] == Bytes.Repeat(length, 0);
    assert readBuf[..] == Bytes.Repeat(IO_BUF_SIZE, 0);
    LoadLines(data, h.encoding == 1, b, g.width, h.bytesPerLine, pitch, g.height, dib, line, readBuf, buffer);
  }

  /** Load: the bitmap and its palette, or why there is none. With only
      the header wanted the bitmap has no scanlines. */
  method Load(data: seq<byte>, headerOnly: bool) returns (res: Result<Geometry, PcxError>, dib: Scanlines?, pal: array<Rgba>)
    ensures res == LoadResult(data, headerOnly)
    ensures res.Ok? ==> |data| >= HEADER_SIZE && dib != null && fresh(dib)
    ensures res.Ok? ==> PaletteIs(pal[..], ReadHeader(data), data, res.value.bitCount)
    ensures res.Ok? && headerOnly ==> dib.rows == []
    ensures res.Ok? && !headerOnly ==> var h := ReadHeader(data);
      && LayoutOf(h).Some?
      && Fits(LayoutOf(h).value, res.value.width, h.bytesPerLine, h.bytesPerLine * h.planes as nat,
              Pitch(res.value.width, res.value.bitCount))
      && dib.rows == Pixels(data, h, res.value, LayoutOf(h).value)
  {
    pal := new Rgba[0];
    dib := null;
    if !Validate(data) {
      return Err(MagicNumber), dib, pal;
    }
    if |data| < HEADER_SIZE {
      return Err(Parsing), dib, pal;
    }
    var h := ReadHeader(data);
    var geometry := GeometryOf(h);
    if geometry.Err? {
      return Err(geometry.error), dib, pal;
    }
    var g := geometry.value;
    pal := SetPalette(data, h, g.bitCount);
    if headerOnly {
      dib := new Scanlines(0, 0);
      return Ok(g), dib, pal;
    }
    var layout := LayoutOf(h);
    if layout.None? {
      return Err(UnsupportedFormat), null, pal;
    }
    var b := layout.value;
    if Overruns(b, g.width, h.bytesPerLine) {
      return Err(LineOverrun), null, pal;
    }
    ghost var palette := pal[..];
    FitsUnlessOverrun(h, g, b);
    dib := LoadPixels(data, h, g, b);
    assert pal[..] == palette;
    res := Ok(g);
  }
}
