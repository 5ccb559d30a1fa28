/** The SGI loader (Source/Plugins/PluginSGI.cpp): the signature check, the
    header checks and their order, the run-length index, the get_rlechar
    decoder and the placement of the channels into the scanlines. Header
    fields are big-endian. */
module Sgi {
  import opened Wrappers
  import opened Bytes
  import opened Bitmap

  const HEADER_SIZE: nat := 512
  const MAGIC: nat := 474
  /** The EOF of <stdio.h>, which get_rlechar returns on a short read. */
  const EOF: int := -1

  // ---------------------------------------------------------------------
  // Validate
  // ---------------------------------------------------------------------

  /** Validate: two bytes read into a zeroed buffer compared with 01 DA. */
  predicate Validate(data: seq<byte>)
  {
    PadTo(data, 2) == [0x01, 0xDA]
  }

  /** Exactly the streams that start with 01 DA are accepted. */
  lemma ValidateExactly(data: seq<byte>)
    ensures Validate(data) <==> |data| >= 2 && data[0] == 0x01 && data[1] == 0xDA
  {
    var signature := PadTo(data, 2);
    assert signature[0] == (if 0 < |data| then data[0] else 0);
    assert signature[1] == (if 1 < |data| then data[1] else 0);
    if |data| >= 2 && data[0] == 0x01 && data[1] == 0xDA {
      assert signature == [0x01, 0xDA];
    }
  }

  // ---------------------------------------------------------------------
  // Header
  // ---------------------------------------------------------------------

  /** Why Load returns no bitmap, one per message of the source. */
  datatype SgiError =
    | LessThanHeaderLength
    | BadMagicNumber
    | SixteenBitComponents
    | Colormaps
    | EofInRleIndex
    | InvalidChannelCount
    | EofInImageData

  /** The fields of the 512-byte header that Load looks at. */
  datatype Header = Header(magic: nat, storage: byte, bpc: byte, dimension: nat, xsize: nat, ysize: nat,
                           zsize: nat, colormap: int)

  function ReadHeader(data: seq<byte>): Header
    requires |data| >= HEADER_SIZE
  {
    Header(U16BE(data, 0), data[2], data[3], U16BE(data, 4), U16BE(data, 6), U16BE(data, 8), U16BE(data, 10),
           ToInt32(U32BE(data, 104)))
  }

  /** The image as Load lays it out: run-length encoded or not, width,
      height and channel count. */
  datatype Layout = Layout(rle: bool, width: nat, height: nat, zsize: nat)

  /** A single row when the dimension is below 2, a single channel when it is
      below 3. */
  function LayoutOf(h: Header): (l: Layout)
    ensures l.rle <==> h.storage == 1
    ensures l.width == h.xsize
    ensures l.height == (if h.dimension < 2 then 1 else h.ysize)
    ensures l.zsize == (if h.dimension < 3 then 1 else h.zsize)
  {
    Layout(h.storage == 1, h.xsize, if h.dimension < 2 then 1 else h.ysize, if h.dimension < 3 then 1 else h.zsize)
  }

  /** The bitmap depth for a channel count: grey, grey and alpha (faked as
      RGBA), RGB, RGBA. */
  function BitCount(zsize: nat): (r: Result<nat, SgiError>)
    ensures r.Ok? <==> 1 <= zsize <= 4
    ensures r.Ok? ==> r.value == [8, 32, 24, 32][zsize - 1]
    ensures r.Err? ==> r.error == InvalidChannelCount
  {
    if zsize == 1 then Ok(8)
    else if zsize == 2 then Ok(32)
    else if zsize == 3 then Ok(24)
    else if zsize == 4 then Ok(32)
    else Err(InvalidChannelCount)
  }

  /** The row-start table of a run-length encoded file: height * zsize
      signed 32-bit offsets after the header, then as many row sizes, which
      are read and dropped. Entry i * height + j is the start of row j of
      channel i. */
  function RowIndex(data: seq<byte>, len: nat): (r: Result<seq<int>, SgiError>)
    requires |data| >= HEADER_SIZE
    ensures r.Ok? <==> HEADER_SIZE + 8 * len <= |data|
    ensures r.Ok? ==> |r.value| == len
    ensures r.Err? ==> r.error == EofInRleIndex
  {
    if HEADER_SIZE + 4 * len > |data| then Err(EofInRleIndex)
    else if HEADER_SIZE + 8 * len > |data| then Err(EofInRleIndex)
    else Ok(seq(len, t requires 0 <= t < len => ToInt32(U32BE(data, HEADER_SIZE + 4 * t))))
  }

  /** What Load decodes the pixels with. */
  datatype Plan = Plan(layout: Layout, index: seq<int>, bitCount: nat)

  /** Load up to the allocation of the bitmap: the header checks in the order
      the source makes them; the row index is read (in a run-length encoded
      file) before the channel count is checked. */
  function Prepare(data: seq<byte>): (r: Result<Plan, SgiError>)
    ensures r.Ok? ==> var l := r.value.layout;
      1 <= l.zsize <= 4 && (l.rle ==> |r.value.index| == l.height * l.zsize)
  {
    if |data| < HEADER_SIZE then Err(LessThanHeaderLength)
    else
      var h := ReadHeader(data);
      if h.magic != MAGIC then Err(BadMagicNumber)
      else if h.bpc != 1 then Err(SixteenBitComponents)
      else if h.colormap != 0 then Err(Colormaps)
      else
        var l := LayoutOf(h);
        var index := if l.rle then RowIndex(data, l.height * l.zsize) else Ok([]);
        if index.Err? then Err(index.error)
        else match BitCount(l.zsize)
          case Err(e) => Err(e)
          case Ok(bits) => Ok(Plan(l, index.value, bits))
  }

  /** The checks Load makes, each with its own error and in this order: a
      short header, the magic number, one byte per component, no colormap,
      the run-length index, the channel count. */
  lemma PrepareErrors(data: seq<byte>)
    ensures |data| < HEADER_SIZE ==> Prepare(data) == Err(LessThanHeaderLength)
    ensures |data| >= HEADER_SIZE ==> var h := ReadHeader(data); var l := LayoutOf(h);
      && (h.magic != MAGIC ==> Prepare(data) == Err(BadMagicNumber))
      && (h.magic == MAGIC && h.bpc != 1 ==> Prepare(data) == Err(SixteenBitComponents))
      && (h.magic == MAGIC && h.bpc == 1 && h.colormap != 0 ==> Prepare(data) == Err(Colormaps))
      && (h.magic == MAGIC && h.bpc == 1 && h.colormap == 0 ==>
            && (l.rle && HEADER_SIZE + 8 * (l.height * l.zsize) > |data| ==> Prepare(data) == Err(EofInRleIndex))
            && ((!l.rle || HEADER_SIZE + 8 * (l.height * l.zsize) <= |data|) ==>
                  (Prepare(data).Ok? <==> 1 <= l.zsize <= 4)
                  && (Prepare(data).Err? ==> Prepare(data) == Err(InvalidChannelCount))))
  {
  }

  // ---------------------------------------------------------------------
  // get_rlechar
  // ---------------------------------------------------------------------

  /** The byte at a stream position, if the position is inside the stream. */
  function ByteAt(data: seq<byte>, pos: int): Option<byte>
  {
    if 0 <= pos < |data| then Some(data[pos]) else None
  }

  /** The position of the first non-zero byte at or after pos: get_rlechar
      skips zero control bytes. The result is outside the stream when the
      stream runs out first. */
  function SkipZeros(data: seq<byte>, pos: int): (p: int)
    ensures p >= pos
    ensures 0 <= p < |data| ==> data[p] != 0
    decreases |data| - pos
  {
    if pos < 0 || pos >= |data| || data[pos] != 0 then pos else SkipZeros(data, pos + 1)
  }

  /** The cursor of the stream and the RLEStatus record. */
  datatype Reader = Reader(pos: int, cnt: int, val: int)

  /** What one call returns (a byte value or EOF) and the state it leaves. */
  datatype CharRead = CharRead(ch: int, next: Reader)

  /** get_rlechar. With no pending count it reads a control byte (skipping
      zeros): the low seven bits are the count, and the high bit selects a
      literal run (val = -1) or a repeat of the byte that follows. Every call
      then decrements the count and returns the next literal byte or the
      repeated value. A short read gives EOF. */
  function RleChar(data: seq<byte>, r: Reader): (c: CharRead)
    ensures c.ch == EOF || 0 <= c.ch < 256 || (c.ch == r.val && r.cnt != 0)
  {
    if r.cnt == 0 then
      var p := SkipZeros(data, r.pos);
      if !(0 <= p < |data|) then CharRead(EOF, Reader(p, 0, r.val))
      else
        var control := data[p];
        var cnt := control as int % 128;
        if control >= 128 then
          match ByteAt(data, p + 1)
          case None => CharRead(EOF, Reader(p + 1, cnt - 1, -1))
          case Some(b) => CharRead(b as int, Reader(p + 2, cnt - 1, -1))
        else
          match ByteAt(data, p + 1)
          case None => CharRead(EOF, Reader(p + 1, cnt, r.val))
          case Some(v) => CharRead(v as int, Reader(p + 2, cnt - 1, v as int))
    else if r.val == -1 then
      match ByteAt(data, r.pos)
      case None => CharRead(EOF, Reader(r.pos, r.cnt - 1, -1))
      case Some(b) => CharRead(b as int, Reader(r.pos + 1, r.cnt - 1, -1))
    else CharRead(r.val, Reader(r.pos, r.cnt - 1, r.val))
  }

  /** The record get_rlechar updates through its pointer argument. */
  class RleStatus {
    var cnt: int
    var val: int
  }

  /** get_rlechar on the stream data at cursor pos. */
  method GetRleChar(data: seq<byte>, pos: int, status: RleStatus) returns (ch: int, pos': int)
    modifies status
    ensures CharRead(ch, Reader(pos', status.cnt, status.val))
         == RleChar(data, Reader(pos, old(status.cnt), old(status.val)))
  {
    pos' := pos;
    if status.cnt == 0 {
      var control := 0;
      while control == 0
        invariant pos' >= pos && (control == 0 ==> SkipZeros(data, pos') == SkipZeros(data, pos))
        invariant control != 0 ==> (0 <= pos' - 1 < |data| && SkipZeros(data, pos) == pos' - 1
                                    && control == data[pos' - 1] as int)
        decreases |data| - pos', if control == 0 then 1 else 0
      {
        if !(0 <= pos' < |data|) {
          return EOF, pos';
        }
        control := data[pos'] as int;
        pos' := pos' + 1;
      }
      status.cnt := control % 128;
      if control >= 128 {
        status.val := -1;
      } else {
        if !(0 <= pos' < |data|) {
          return EOF, pos';
        }
        status.val := data[pos'] as int;
        pos' := pos' + 1;
      }
    }
    status.cnt := status.cnt - 1;
    if status.val == -1 {
      if !(0 <= pos' < |data|) {
        return EOF, pos';
      }
      ch := data[pos'] as int;
      pos' := pos' + 1;
    } else {
      ch := status.val;
    }
  }

  /** n calls of get_rlechar, the bytes they return appended to acc; None as
      soon as one returns EOF. */
  function RleChars(data: seq<byte>, r: Reader, n: nat, acc: seq<byte>): (res: Option<(seq<byte>, Reader)>)
    decreases n
  {
    if n == 0 then Some((acc, r))
    else
      var c := RleChar(data, r);
      if c.ch == EOF then None
      else RleChars(data, c.next, n - 1, acc + [(c.ch % 256) as byte])
  }

  // ---------------------------------------------------------------------
  // Run-length packets
  // ---------------------------------------------------------------------

  /** A packet of the SGI run-length scheme. */
  datatype Packet = Fill(count: nat, value: byte) | Copy(bytes: seq<byte>)

  /** A packet an encoder may write: a count of 1 to 127. */
  predicate PacketOk(p: Packet)
  {
    match p
    case Fill(count, _) => 1 <= count <= 127
    case Copy(bytes) => 1 <= |bytes| <= 127
  }

  /** The bytes of a packet: the count (with the high bit for a literal run)
      and the value or the literal bytes. */
  function PacketBytes(p: Packet): seq<byte>
    requires PacketOk(p)
  {
    match p
    case Fill(count, value) => [count as byte, value]
    case Copy(bytes) => [(128 + |bytes|) as byte] + bytes
  }

  function PacketPixels(p: Packet): seq<byte>
  {
    match p
    case Fill(count, value) => seq(count, _ => value)
    case Copy(bytes) => bytes
  }

  /** The rest of a literal run once get_rlechar has started it: the next
      cnt calls return the next cnt bytes of the stream. */
  lemma {:induction false} LiteralTail(data: seq<byte>, pos: nat, cnt: nat, acc: seq<byte>, n: nat)
    requires pos + cnt <= |data| && cnt <= n
    ensures RleChars(data, Reader(pos, cnt, -1), n, acc)
         == RleChars(data, Reader(pos + cnt, 0, -1), n - cnt, acc + data[pos..pos + cnt])
    decreases cnt
  {
    if cnt > 0 {
      assert acc + [data[pos]] + data[pos + 1..pos + cnt] == acc + data[pos..pos + cnt];
      LiteralTail(data, pos + 1, cnt - 1, acc + [data[pos]], n - 1);
    } else {
      assert acc + data[pos..pos] == acc;
    }
  }

  /** The rest of a repeat once get_rlechar has started it: the next cnt
      calls return the value without reading. */
  lemma {:induction false} FillTail(data: seq<byte>, pos: int, cnt: nat, value: byte, acc: seq<byte>, n: nat)
    requires cnt <= n
    ensures RleChars(data, Reader(pos, cnt, value as int), n, acc)
         == RleChars(data, Reader(pos, 0, value as int), n - cnt, acc + seq(cnt, _ => value))
    decreases cnt
  {
    if cnt > 0 {
      assert acc + [value] + seq(cnt - 1, _ => value) == acc + seq(cnt, _ => value);
      FillTail(data, pos, cnt - 1, value, acc + [value], n - 1);
    } else {
      assert acc + seq(0, _ => value) == acc;
    }
  }

  /** The val a packet leaves in the RLEStatus record. */
  function PacketVal(p: Packet): int
  {
    match p
    case Fill(_, value) => value as int
    case Copy(_) => -1
  }

  /** One call of get_rlechar that does not hit EOF contributes its byte. */
  lemma RleCharsStep(data: seq<byte>, r: Reader, n: nat, acc: seq<byte>)
    requires n > 0 && RleChar(data, r).ch != EOF
    ensures RleChars(data, r, n, acc)
         == RleChars(data, RleChar(data, r).next, n - 1, acc + [(RleChar(data, r).ch % 256) as byte])
  {
  }

  /** A call that returns EOF ends the row with no result. */
  lemma RleCharsEof(data: seq<byte>, r: Reader, n: nat, acc: seq<byte>)
    requires n > 0 && RleChar(data, r).ch == EOF
    ensures RleChars(data, r, n, acc) == None
  {
  }

  /** A control byte below 128 starts a repeat of the byte after it. */
  lemma StartFill(data: seq<byte>, pos: nat, val: int)
    requires pos + 1 < |data| && 0 < data[pos] < 128
    ensures RleChar(data, Reader(pos, 0, val))
         == CharRead(data[pos + 1] as int, Reader(pos + 2, data[pos] as int - 1, data[pos + 1] as int))
  {
    assert SkipZeros(data, pos) == pos;
  }

  /** A control byte of 128 or more starts a literal run. */
  lemma StartCopy(data: seq<byte>, pos: nat, val: int)
    requires pos + 1 < |data| && data[pos] >= 128
    ensures RleChar(data, Reader(pos, 0, val))
         == CharRead(data[pos + 1] as int, Reader(pos + 2, data[pos] as int - 129, -1))
  {
    assert SkipZeros(data, pos) == pos;
  }

  /** A repeat packet: count copies of its value. */
  lemma DecodeFill(data: seq<byte>, pos: nat, count: nat, value: byte, val: int, acc: seq<byte>, n: nat)
    requires 1 <= count <= 127 && count <= n && pos + 2 <= |data|
    requires data[pos] == count as byte && data[pos + 1] == value
    ensures RleChars(data, Reader(pos, 0, val), n, acc)
         == RleChars(data, Reader(pos + 2, 0, value as int), n - count, acc + seq(count, _ => value))
  {
    StartFill(data, pos, val);
    RleCharsStep(data, Reader(pos, 0, val), n, acc);
    FillTail(data, pos + 2, count - 1, value, acc + [value], n - 1);
    assert acc + [value] + seq(count - 1, _ => value) == acc + seq(count, _ => value);
  }

  /** A literal packet: its bytes, read from the stream. */
  lemma DecodeCopy(data: seq<byte>, pos: nat, lit: seq<byte>, val: int, acc: seq<byte>, n: nat)
    requires 1 <= |lit| <= 127 && |lit| <= n && pos + 1 + |lit| <= |data|
    requires data[pos] == (128 + |lit|) as byte && data[pos + 1..pos + 1 + |lit|] == lit
    ensures RleChars(data, Reader(pos, 0, val), n, acc)
         == RleChars(data, Reader(pos + 1 + |lit|, 0, -1), n - |lit|, acc + lit)
  {
    assert data[pos + 1] == lit[0];
    var r1 := Reader(pos + 2, |lit| - 1, -1);
    StartCopy(data, pos, val);
    assert RleChar(data, Reader(pos, 0, val)) == CharRead(lit[0] as int, r1);
    RleCharsStep(data, Reader(pos, 0, val), n, acc);
    assert data[pos + 2..pos + 1 + |lit|] == lit[1..];
    LiteralTail(data, pos + 2, |lit| - 1, acc + [lit[0]], n - 1);
    assert acc + [lit[0]] + lit[1..] == acc + lit;
    calc {
      RleChars(data, Reader(pos, 0, val), n, acc);
      RleChars(data, r1, n - 1, acc + [lit[0]]);
      RleChars(data, Reader(pos + 1 + |lit|, 0, -1), n - |lit|, acc + lit);
    }
  }

  /** One packet: get_rlechar returns its pixels and leaves the cursor after
      its bytes. */
  lemma DecodePacket(data: seq<byte>, pos: nat, p: Packet, val: int, acc: seq<byte>, m: nat)
    requires PacketOk(p) && pos + |PacketBytes(p)| <= |data| && data[pos..pos + |PacketBytes(p)|] == PacketBytes(p)
    ensures RleChars(data, Reader(pos, 0, val), |PacketPixels(p)| + m, acc)
         == RleChars(data, Reader(pos + |PacketBytes(p)|, 0, PacketVal(p)), m, acc + PacketPixels(p))
  {
    match p
    case Fill(count, value) =>
      assert data[pos] == PacketBytes(p)[0] && data[pos + 1] == PacketBytes(p)[1];
      DecodeFill(data, pos, count, value, val, acc, count + m);
    case Copy(lit) =>
      assert data[pos] == PacketBytes(p)[0];
      assert data[pos + 1..pos + 1 + |lit|] == data[pos..pos + |PacketBytes(p)|][1..];
      DecodeCopy(data, pos, lit, val, acc, |lit| + m);
  }

  /** A control byte 0x80 is a literal run of count 0, which get_rlechar
      decrements to -1 and never back to 0: every later call of the row
      returns the next byte of the stream. */
  lemma {:induction false} EmptyLiteralNeverEnds(data: seq<byte>, pos: int, cnt: int, acc: seq<byte>, n: nat)
    requires 0 <= pos && pos + n <= |data| && cnt < 0
    ensures RleChars(data, Reader(pos, cnt, -1), n, acc) == Some((acc + data[pos..pos + n], Reader(pos + n, cnt - n, -1)))
    decreases n
  {
    if n > 0 {
      assert acc + [data[pos]] + data[pos + 1..pos + n] == acc + data[pos..pos + n];
      EmptyLiteralNeverEnds(data, pos + 1, cnt - 1, acc + [data[pos]], n - 1);
    } else {
      assert acc + data[pos..pos] == acc;
    }
  }

  // ---------------------------------------------------------------------
  // Reading the pixel data
  // ---------------------------------------------------------------------

  /** n bytes of an uncompressed file appended to acc, and the cursor after
      them. read_proc reports a short read by its count, which Load compares
      with EOF, so a read past the end of the stream stores the zero the
      byte was initialised with and does not fail. */
  function RawChars(data: seq<byte>, pos: int, n: nat, acc: seq<byte>): (seq<byte>, int)
    decreases n
  {
    if n == 0 then (acc, pos)
    else if 0 <= pos < |data| then RawChars(data, pos + 1, n - 1, acc + [data[pos]])
    else RawChars(data, pos, n - 1, acc + [0])
  }

  /** An uncompressed row is the next bytes of the stream, zero-filled past
      its end, and the cursor stops at the end of the stream. */
  lemma {:induction false} RawCharsAt(data: seq<byte>, pos: nat, n: nat, acc: seq<byte>)
    requires pos <= |data|
    ensures var end := if pos + n <= |data| then pos + n else |data|;
      RawChars(data, pos, n, acc) == (acc + data[pos..end] + Repeat(n - (end - pos), 0), end)
    decreases n
  {
    var end := if pos + n <= |data| then pos + n else |data|;
    if n == 0 {
      assert acc + data[pos..end] + Repeat(n - (end - pos), 0) == acc;
    } else if pos < |data| {
      RawCharsAt(data, pos + 1, n - 1, acc + [data[pos]]);
      assert acc + [data[pos]] + data[pos + 1..end] == acc + data[pos..end];
    } else {
      RawCharsAt(data, pos, n - 1, acc + [0]);
      assert acc + [0] + data[pos..end] + Repeat(n - 1, 0) == acc + data[pos..end] + Repeat(n, 0);
    }
  }

  /** n values of one row appended to acc: get_rlechar calls in a run-length
      encoded file, one-byte reads otherwise. */
  function RowChars(data: seq<byte>, rle: bool, r: Reader, n: nat, acc: seq<byte>): Option<(seq<byte>, Reader)>
  {
    if rle then RleChars(data, r, n, acc)
    else var (row, pos) := RawChars(data, r.pos, n, acc); Some((row, r.(pos := pos)))
  }

  /** The stream position after seek_proc(offset, SEEK_SET) from pos: a
      negative offset is refused and leaves the position where it was. */
  function SeekTo(pos: int, offset: int): (p: int)
    ensures offset >= 0 ==> p == offset
    ensures offset < 0 ==> p == pos
  {
    if offset >= 0 then offset else pos
  }

  /** Row t of the image (row j of channel i for t = i * height + j), width
      values from reader r. A run-length encoded row seeks to its entry of
      the row index and starts with no pending count; a negative entry makes
      the seek fail, which goes unnoticed, so that row is read on from
      where the previous one ended. An uncompressed row continues where the
      previous one ended. */
  function ReadRow(data: seq<byte>, plan: Plan, t: nat, r: Reader): Option<(seq<byte>, Reader)>
    requires plan.layout.rle ==> t < |plan.index|
  {
    RowChars(data, plan.layout.rle, if plan.layout.rle then Reader(SeekTo(r.pos, plan.index[t]), 0, r.val) else r,
             plan.layout.width, [])
  }

  /** The decoding plan is one Prepare can return. */
  predicate PlanOk(plan: Plan)
  {
    1 <= plan.layout.zsize <= 4 && (plan.layout.rle ==> |plan.index| == plan.layout.height * plan.layout.zsize)
  }

  /** Rows 0 to j - 1 of channel i read from reader r; row j of channel i
      uses entry i * height + j of the row index. */
  function ReadChannel(data: seq<byte>, plan: Plan, i: nat, j: nat, r: Reader): Option<(seq<seq<byte>>, Reader)>
    requires PlanOk(plan) && i < plan.layout.zsize && j <= plan.layout.height
    decreases j
  {
    if j == 0 then Some(([], r))
    else match ReadChannel(data, plan, i, j - 1, r)
      case None => None
      case Some((rows, r1)) =>
        RowInBuffer(i, plan.layout.zsize, plan.layout.height);
        match ReadRow(data, plan, i * plan.layout.height + (j - 1), r1)
        case None => None
        case Some((row, r2)) => Some((rows + [row], r2))
  }

  /** The stream position after the header and the row index, with the
      RLEStatus record zeroed. */
  function Start(plan: Plan): Reader
  {
    Reader(HEADER_SIZE + (if plan.layout.rle then 8 * |plan.index| else 0), 0, 0)
  }

  /** Channels 0 to i - 1, each height rows, read one after the other. */
  function ReadChannels(data: seq<byte>, plan: Plan, i: nat): (res: Option<(seq<seq<seq<byte>>>, Reader)>)
    requires PlanOk(plan) && i <= plan.layout.zsize
    ensures res.Some? ==> |res.value.0| == i
  {
    if i == 0 then Some(([], Start(plan)))
    else match ReadChannels(data, plan, i - 1)
      case None => None
      case Some((chans, r1)) =>
        match ReadChannel(data, plan, i - 1, plan.layout.height, r1)
        case None => None
        case Some((rows, r2)) => Some((chans + [rows], r2))
  }

  // ---------------------------------------------------------------------
  // Placing the channels
  // ---------------------------------------------------------------------

  /** numChannels: the bytes per pixel of the bitmap, four when grey and
      alpha are faked as RGBA. */
  function Stride(zsize: nat): nat
  {
    if zsize == 2 then 4 else zsize
  }

  /** offset_table[i] after Load adjusts it: channels go to blue, green, red
      and alpha order {2, 1, 0, 3}; a grey channel goes to byte 0 and the
      alpha of a grey and alpha image to byte 3. */
  function Offset(zsize: nat, i: nat): nat
    requires i < 4
  {
    if i == 0 && zsize < 3 then 0
    else if i == 1 && zsize == 2 then 3
    else [2, 1, 0, 3][i]
  }

  /** The channels of an image land on distinct bytes of a pixel. */
  lemma OffsetsDistinct(zsize: nat, i: nat, i': nat)
    requires 1 <= zsize <= 4 && i < zsize && i' < zsize
    ensures Offset(zsize, i) < Stride(zsize)
    ensures Offset(zsize, i) == Offset(zsize, i') ==> i == i'
  {
  }

  /** The rows after the row loop of one channel: row j gets crows[j] at
      offset off of each pixel. */
  function PaintChannel(rows: seq<seq<byte>>, off: nat, nc: nat, crows: seq<seq<byte>>): (r: seq<seq<byte>>)
    ensures |r| == |rows| && forall y :: 0 <= y < |r| ==> |r[y]| == |rows[y]|
    decreases |crows|
  {
    if |crows| == 0 then rows
    else
      var j := |crows| - 1;
      var p := PaintChannel(rows, off, nc, crows[..j]);
      if j < |p| then p[j := PlaceRow(p[j], off, nc, crows[j])] else p
  }

  /** Row y after one channel's loop: placed when the channel has a row y. */
  lemma {:induction false} PaintChannelAt(rows: seq<seq<byte>>, off: nat, nc: nat, crows: seq<seq<byte>>, y: nat)
    requires y < |rows|
    ensures PaintChannel(rows, off, nc, crows)[y] == if y < |crows| then PlaceRow(rows[y], off, nc, crows[y]) else rows[y]
    decreases |crows|
  {
    if |crows| > 0 {
      PaintChannelAt(rows, off, nc, crows[..|crows| - 1], y);
    }
  }

  /** The rows after the channel loop: channel i of chans placed at
      Offset(zsize, i) with stride Stride(zsize), in channel order. */
  function PaintAll(rows: seq<seq<byte>>, zsize: nat, chans: seq<seq<seq<byte>>>): (r: seq<seq<byte>>)
    requires |chans| <= 4
    ensures |r| == |rows| && forall y :: 0 <= y < |r| ==> |r[y]| == |rows[y]|
    decreases |chans|
  {
    if |chans| == 0 then rows
    else
      var i := |chans| - 1;
      PaintChannel(PaintAll(rows, zsize, chans[..i]), Offset(zsize, i), Stride(zsize), chans[i])
  }

  /** Pixel k of row y of channel i is at byte k * numChannels +
      offset_table[i] of scanline y: no later channel overwrites it. */
  lemma {:induction false} PaintAllHit(rows: seq<seq<byte>>, zsize: nat, chans: seq<seq<seq<byte>>>, i: nat, y: nat, k: nat)
    requires 1 <= zsize <= 4 && |chans| <= zsize && i < |chans|
    requires y < |rows| && y < |chans[i]| && k < |chans[i][y]| && k * Stride(zsize) + Offset(zsize, i) < |rows[y]|
    ensures PaintAll(rows, zsize, chans)[y][k * Stride(zsize) + Offset(zsize, i)] == chans[i][y][k]
    decreases |chans|
  {
    var nc, last := Stride(zsize), |chans| - 1;
    var before := PaintAll(rows, zsize, chans[..last]);
    var after := PaintAll(rows, zsize, chans);
    assert after == PaintChannel(before, Offset(zsize, last), nc, chans[last]);
    OffsetsDistinct(zsize, i, last);
    PaintChannelAt(before, Offset(zsize, last), nc, chans[last], y);
    if i == last {
      PlaceRowHit(before[y], Offset(zsize, i), nc, chans[i][y], k);
    } else {
      PaintAllHit(rows, zsize, chans[..last], i, y, k);
      if y < |chans[last]| {
        PlaceRowOther(before[y], Offset(zsize, last), nc, chans[last][y], k, Offset(zsize, i));
      }
    }
  }

  /** A byte that is not at the offset of a channel with a pixel there keeps
      its value: the padding of a scanline and, for a grey and alpha image,
      bytes 1 and 2 of each pixel. */
  lemma {:induction false} PaintAllMiss(rows: seq<seq<byte>>, zsize: nat, chans: seq<seq<seq<byte>>>, y: nat, x: nat)
    requires 1 <= zsize <= 4 && |chans| <= zsize && y < |rows| && x < |rows[y]|
    requires forall i :: 0 <= i < |chans| ==>
      x % Stride(zsize) != Offset(zsize, i) || y >= |chans[i]| || x / Stride(zsize) >= |chans[i][y]|
    ensures PaintAll(rows, zsize, chans)[y][x] == rows[y][x]
    decreases |chans|
  {
    if |chans| > 0 {
      var nc, last := Stride(zsize), |chans| - 1;
      var before := PaintAll(rows, zsize, chans[..last]);
      OffsetsDistinct(zsize, last, last);
      PaintChannelAt(before, Offset(zsize, last), nc, chans[last], y);
      if y < |chans[last]| {
        PlaceRowMiss(before[y], Offset(zsize, last), nc, chans[last][y], x);
      }
      PaintAllMiss(rows, zsize, chans[..last], y, x);
    }
  }

  // ---------------------------------------------------------------------
  // The pixel loops of Load
  // ---------------------------------------------------------------------

  /** The loop over the pixels of one row: each value read goes to byte off
      of the next pixel of scanline j, numChannels bytes apart; EOF from
      get_rlechar stops it. */
  method ReadRowInto(data: seq<byte>, rle: bool, pos0: int, status: RleStatus, width: nat,
                     dib: Scanlines, j: nat, off: nat, nc: nat) returns (ok: bool, pos: int)
    requires j < |dib.rows| && off < nc && width * nc <= |dib.rows[j]|
    modifies dib, status
    ensures var res := RowChars(data, rle, Reader(pos0, old(status.cnt), old(status.val)), width, []);
      && (ok <==> res.Some?)
      && (ok ==> dib.rows == old(dib.rows)[j := PlaceRow(old(dib.rows)[j], off, nc, res.value.0)]
                 && Reader(pos, status.cnt, status.val) == res.value.1)
  {
    pos := pos0;
    ghost var got: seq<byte> := [];
    var k := 0;
    while k < width
      invariant k <= width && |got| == k
      invariant RowChars(data, rle, Reader(pos, status.cnt, status.val), width - k, got)
             == RowChars(data, rle, Reader(pos0, old(status.cnt), old(status.val)), width, [])
      invariant dib.rows == old(dib.rows)[j := PlaceRow(old(dib.rows)[j], off, nc, got)]
    {
      ghost var cur := Reader(pos, status.cnt, status.val);
      var packed: byte := 0;
      if rle {
        var ch;
        ch, pos := GetRleChar(data, pos, status);
        if ch == EOF {
          RleCharsEof(data, cur, width - k, got);
          return false, pos;
        }
        RleCharsStep(data, cur, width - k, got);
        packed := (ch % 256) as byte;
      } else if 0 <= pos < |data| {
        packed := data[pos];
        pos := pos + 1;
      }
      PixelInRow(k, width, nc, off);
      assert (got + [packed])[..k] == got;
      dib.rows := dib.rows[j := dib.rows[j][k * nc + off := packed]];
      got := got + [packed];
      k := k + 1;
    }
    ok := true;
  }

  /** Once a row fails the rest of the channel fails. */
  lemma {:induction false} ReadChannelFails(data: seq<byte>, plan: Plan, i: nat, j: nat, j': nat, r: Reader)
    requires PlanOk(plan) && i < plan.layout.zsize && j <= j' <= plan.layout.height
    requires ReadChannel(data, plan, i, j, r).None?
    ensures ReadChannel(data, plan, i, j', r).None?
    decreases j' - j
  {
    if j < j' {
      ReadChannelFails(data, plan, i, j, j' - 1, r);
    }
  }

  /** Once a channel fails the image fails. */
  lemma {:induction false} ReadChannelsFail(data: seq<byte>, plan: Plan, i: nat, i': nat)
    requires PlanOk(plan) && i <= i' <= plan.layout.zsize
    requires ReadChannels(data, plan, i).None?
    ensures ReadChannels(data, plan, i').None?
    decreases i' - i
  {
    if i < i' {
      ReadChannelsFail(data, plan, i, i' - 1);
    }
  }

  /** Scanlines that hold a width * numChannels bytes row for each row of
      the image. */
  predicate Fits(rows: seq<seq<byte>>, l: Layout)
  {
    |rows| == l.height && forall y :: 0 <= y < |rows| ==> l.width * Stride(l.zsize) <= |rows[y]|
  }

  /** A row read after the first j rows of a channel is row j. */
  lemma ReadChannelSnoc(data: seq<byte>, plan: Plan, i: nat, j: nat, r0: Reader, crows: seq<seq<byte>>, r1: Reader)
    requires PlanOk(plan) && i < plan.layout.zsize && j < plan.layout.height
    requires ReadChannel(data, plan, i, j, r0) == Some((crows, r1))
    ensures (RowInBuffer(i, plan.layout.zsize, plan.layout.height);
      var row := ReadRow(data, plan, i * plan.layout.height + j, r1);
      ReadChannel(data, plan, i, j + 1, r0) == if row.None? then None else Some((crows + [row.value.0], row.value.1)))
  {
    RowInBuffer(i, plan.layout.zsize, plan.layout.height);
  }

  /** Painting one more row of a channel. */
  lemma PaintChannelSnoc(rows: seq<seq<byte>>, off: nat, nc: nat, crows: seq<seq<byte>>, row: seq<byte>)
    ensures var p := PaintChannel(rows, off, nc, crows); var j := |crows|;
      PaintChannel(rows, off, nc, crows + [row]) == if j < |p| then p[j := PlaceRow(p[j], off, nc, row)] else p
  {
    assert (crows + [row])[..|crows|] == crows;
  }

  /** One row of the row loop: in a run-length encoded file the pending
      count is cleared and the stream seeks to entry t of the row index;
      then the pixel loop fills byte off of each pixel of scanline j. */
  method LoadRow(data: seq<byte>, plan: Plan, t: nat, j: nat, off: nat, nc: nat, pos0: int, status: RleStatus,
                 dib: Scanlines) returns (ok: bool, pos: int)
    requires plan.layout.rle ==> t < |plan.index|
    requires j < |dib.rows| && off < nc && plan.layout.width * nc <= |dib.rows[j]|
    modifies dib, status
    ensures var res := ReadRow(data, plan, t, Reader(pos0, old(status.cnt), old(status.val)));
      && (ok <==> res.Some?)
      && (ok ==> dib.rows == old(dib.rows)[j := PlaceRow(old(dib.rows)[j], off, nc, res.value.0)]
                 && Reader(pos, status.cnt, status.val) == res.value.1)
  {
    pos := pos0;
    if plan.layout.rle {
      status.cnt := 0;
      pos := SeekTo(pos, plan.index[t]);
    }
    ok, pos := ReadRowInto(data, plan.layout.rle, pos, status, plan.layout.width, dib, j, off, nc);
  }

  /** The row loop of channel i, row j using entry i * height + j of the
      row index. */
  method LoadChannel(data: seq<byte>, plan: Plan, i: nat, pos0: int, status: RleStatus, dib: Scanlines)
    returns (ok: bool, pos: int)
    requires PlanOk(plan) && i < plan.layout.zsize && Fits(dib.rows, plan.layout)
    modifies dib, status
    ensures var res := ReadChannel(data, plan, i, plan.layout.height, Reader(pos0, old(status.cnt), old(status.val)));
      && (ok <==> res.Some?)
      && (ok ==> dib.rows == PaintChannel(old(dib.rows), Offset(plan.layout.zsize, i), Stride(plan.layout.zsize), res.value.0)
                 && Reader(pos, status.cnt, status.val) == res.value.1)
  {
    var l := plan.layout;
    var nc, off := Stride(l.zsize), Offset(l.zsize, i);
    OffsetsDistinct(l.zsize, i, i);
    ghost var r0 := Reader(pos0, status.cnt, status.val);
    ghost var crows: seq<seq<byte>> := [];
    pos := pos0;
    RowInBuffer(i, l.zsize, l.height);
    var j: nat, t: nat := 0, i * l.height;
    while j < l.height
      invariant j <= l.height && t == i * l.height + j && |crows| == j
      invariant ReadChannel(data, plan, i, j, r0) == Some((crows, Reader(pos, status.cnt, status.val)))
      invariant dib.rows == PaintChannel(old(dib.rows), off, nc, crows)
    {
      ghost var r1 := Reader(pos, status.cnt, status.val);
      ghost var res := ReadRow(data, plan, t, r1);
      ReadChannelSnoc(data, plan, i, j, r0, crows, r1);
      FitsPaintChannel(old(dib.rows), l, off, nc, crows);
      var rowOk;
      rowOk, pos := LoadRow(data, plan, t, j, off, nc, pos, status, dib);
      if !rowOk {
        ReadChannelFails(data, plan, i, j + 1, l.height, r0);
        return false, pos;
      }
      PaintChannelSnoc(old(dib.rows), off, nc, crows, res.value.0);
      crows := crows + [res.value.0];
      j, t := j + 1, t + 1;
    }
    ok := true;
  }

  /** Painting one more channel. */
  lemma PaintAllSnoc(rows: seq<seq<byte>>, zsize: nat, chans: seq<seq<seq<byte>>>, crows: seq<seq<byte>>)
    requires |chans| < 4
    ensures PaintAll(rows, zsize, chans + [crows])
         == PaintChannel(PaintAll(rows, zsize, chans), Offset(zsize, |chans|), Stride(zsize), crows)
  {
    assert (chans + [crows])[..|chans|] == chans;
  }

  /** Reading one more channel. */
  lemma ReadChannelsSnoc(data: seq<byte>, plan: Plan, i: nat, chans: seq<seq<seq<byte>>>, r: Reader)
    requires PlanOk(plan) && i < plan.layout.zsize
    requires ReadChannels(data, plan, i) == Some((chans, r))
    ensures ReadChannels(data, plan, i + 1)
         == match ReadChannel(data, plan, i, plan.layout.height, r)
            case None => None
            case Some((rows, r2)) => Some((chans + [rows], r2))
  {
  }

  /** Painting a channel keeps every scanline's length. */
  lemma FitsPaintChannel(rows: seq<seq<byte>>, l: Layout, off: nat, nc: nat, crows: seq<seq<byte>>)
    requires Fits(rows, l)
    ensures Fits(PaintChannel(rows, off, nc, crows), l)
  {
    var p := PaintChannel(rows, off, nc, crows);
    forall y | 0 <= y < |p|
      ensures l.width * Stride(l.zsize) <= |p[y]|
    {
      assert |p[y]| == |rows[y]|;
    }
  }

  /** The channel loop of Load: the run-length status starts zeroed, and
      the channels are read one after the other. */
  method LoadPixels(data: seq<byte>, plan: Plan, dib: Scanlines) returns (ok: bool)
    requires PlanOk(plan) && Fits(dib.rows, plan.layout)
    modifies dib
    ensures var res := ReadChannels(data, plan, plan.layout.zsize);
      && (ok <==> res.Some?)
      && (ok ==> dib.rows == PaintAll(old(dib.rows), plan.layout.zsize, res.value.0))
  {
    var l := plan.layout;
    var status := new RleStatus;
    status.cnt, status.val := 0, 0;
    var pos: int := Start(plan).pos;
    ghost var chans: seq<seq<seq<byte>>> := [];
    var i := 0;
    while i < l.zsize
      invariant i <= l.zsize && |chans| == i && Fits(dib.rows, l)
      invariant ReadChannels(data, plan, i) == Some((chans, Reader(pos, status.cnt, status.val)))
      invariant dib.rows == PaintAll(old(dib.rows), l.zsize, chans)
    {
      ghost var r := Reader(pos, status.cnt, status.val);
      ghost var before := dib.rows;
      ReadChannelsSnoc(data, plan, i, chans, r);
      var chOk;
      chOk, pos := LoadChannel(data, plan, i, pos, status, dib);
      if !chOk {
        ReadChannelsFail(data, plan, i + 1, l.zsize);
        return false;
      }
      ghost var crows := ReadChannel(data, plan, i, l.height, r).value.0;
      PaintAllSnoc(old(dib.rows), l.zsize, chans, crows);
      FitsPaintChannel(before, l, Offset(l.zsize, i), Stride(l.zsize), crows);
      chans := chans + [crows];
      i := i + 1;
    }
    ok := true;
  }

  // ---------------------------------------------------------------------
  // The shape of the decoded channels
  // ---------------------------------------------------------------------

  /** n rows of width bytes each. */
  predicate RowsOf(rows: seq<seq<byte>>, n: nat, width: nat)
  {
    |rows| == n && forall y :: 0 <= y < n ==> |rows[y]| == width
  }

  /** A run-length row that ends without EOF holds one byte per call. */
  lemma {:induction false} RleCharsLength(data: seq<byte>, r: Reader, n: nat, acc: seq<byte>)
    ensures RleChars(data, r, n, acc).Some? ==> |RleChars(data, r, n, acc).value.0| == |acc| + n
    decreases n
  {
    if n > 0 && RleChar(data, r).ch != EOF {
      var c := RleChar(data, r);
      RleCharsLength(data, c.next, n - 1, acc + [(c.ch % 256) as byte]);
    }
  }

  /** An uncompressed row always holds one byte per read. */
  lemma {:induction false} RawCharsLength(data: seq<byte>, pos: int, n: nat, acc: seq<byte>)
    ensures |RawChars(data, pos, n, acc).0| == |acc| + n
    decreases n
  {
    if n > 0 {
      if 0 <= pos < |data| {
        RawCharsLength(data, pos + 1, n - 1, acc + [data[pos]]);
      } else {
        RawCharsLength(data, pos, n - 1, acc + [0]);
      }
    }
  }

  /** Every row read is width bytes long. */
  lemma ReadRowLength(data: seq<byte>, plan: Plan, t: nat, r: Reader)
    requires plan.layout.rle ==> t < |plan.index|
    ensures ReadRow(data, plan, t, r).Some? ==> |ReadRow(data, plan, t, r).value.0| == plan.layout.width
  {
    if plan.layout.rle {
      RleCharsLength(data, Reader(SeekTo(r.pos, plan.index[t]), 0, r.val), plan.layout.width, []);
    } else {
      RawCharsLength(data, r.pos, plan.layout.width, []);
    }
  }

  /** The first j rows of a channel, width bytes each. */
  lemma {:induction false} ReadChannelShape(data: seq<byte>, plan: Plan, i: nat, j: nat, r: Reader)
    requires PlanOk(plan) && i < plan.layout.zsize && j <= plan.layout.height
    ensures ReadChannel(data, plan, i, j, r).Some? ==> RowsOf(ReadChannel(data, plan, i, j, r).value.0, j, plan.layout.width)
    decreases j
  {
    if j > 0 && ReadChannel(data, plan, i, j, r).Some? {
      ReadChannelShape(data, plan, i, j - 1, r);
      var (rows, r1) := ReadChannel(data, plan, i, j - 1, r).value;
      RowInBuffer(i, plan.layout.zsize, plan.layout.height);
      ReadRowLength(data, plan, i * plan.layout.height + (j - 1), r1);
    }
  }

  /** The first i channels, each height rows of width bytes. */
  lemma {:induction false} ReadChannelsShape(data: seq<byte>, plan: Plan, i: nat)
    requires PlanOk(plan) && i <= plan.layout.zsize
    ensures ReadChannels(data, plan, i).Some? ==>
      forall c :: 0 <= c < i ==> RowsOf(ReadChannels(data, plan, i).value.0[c], plan.layout.height, plan.layout.width)
    decreases i
  {
    if i > 0 && ReadChannels(data, plan, i).Some? {
      ReadChannelsShape(data, plan, i - 1);
      var (chans, r1) := ReadChannels(data, plan, i - 1).value;
      ReadChannelShape(data, plan, i - 1, plan.layout.height, r1);
    }
  }

  /** In an uncompressed file a short read never fails: every channel is
      read, zero-filled past the end of the stream. */
  lemma {:induction false} RawChannelNeverFails(data: seq<byte>, plan: Plan, i: nat, j: nat, r: Reader)
    requires PlanOk(plan) && !plan.layout.rle && i < plan.layout.zsize && j <= plan.layout.height
    ensures ReadChannel(data, plan, i, j, r).Some?
    decreases j
  {
    if j > 0 {
      RawChannelNeverFails(data, plan, i, j - 1, r);
    }
  }

  /** In an uncompressed file the pixel data never ends early. */
  lemma {:induction false} RawNeverFails(data: seq<byte>, plan: Plan, i: nat)
    requires PlanOk(plan) && !plan.layout.rle && i <= plan.layout.zsize
    ensures ReadChannels(data, plan, i).Some?
    decreases i
  {
    if i > 0 {
      RawNeverFails(data, plan, i - 1);
      RawChannelNeverFails(data, plan, i - 1, plan.layout.height, ReadChannels(data, plan, i - 1).value.1);
    }
  }

  /** The evidently intended uncompressed read: a read_proc count of 0 at
      the end of the stream ends the row with an error. */
  function RawCharsChecked(data: seq<byte>, pos: int, n: nat, acc: seq<byte>): Option<(seq<byte>, int)>
    decreases n
  {
    if n == 0 then Some((acc, pos))
    else if 0 <= pos < |data| then RawCharsChecked(data, pos + 1, n - 1, acc + [data[pos]])
    else None
  }

  /** With the intended check an uncompressed row is read exactly when the
      stream holds all of it, and it is those bytes. */
  lemma {:induction false} RawCharsCheckedAt(data: seq<byte>, pos: nat, n: nat, acc: seq<byte>)
    requires pos <= |data|
    ensures RawCharsChecked(data, pos, n, acc).Some? <==> pos + n <= |data|
    ensures pos + n <= |data| ==> RawCharsChecked(data, pos, n, acc) == Some((acc + data[pos..pos + n], pos + n))
    decreases n
  {
    if n == 0 {
      assert acc + data[pos..pos] == acc;
    } else if pos < |data| {
      RawCharsCheckedAt(data, pos + 1, n - 1, acc + [data[pos]]);
      if pos + n <= |data| {
        assert acc + [data[pos]] + data[pos + 1..pos + n] == acc + data[pos..pos + n];
      }
    }
  }

  /** As written, a row of an uncompressed file that starts at the end of
      the stream is read as n zero bytes, where the intended check fails. */
  lemma ShortRawRow(data: seq<byte>, n: nat)
    requires n > 0
    ensures RawChars(data, |data|, n, []) == (Repeat(n, 0), |data|)
    ensures RawCharsChecked(data, |data|, n, []) == None
  {
    RawCharsAt(data, |data|, n, []);
    assert [] + data[|data|..|data|] + Repeat(n, 0) == Repeat(n, 0);
  }

  /** A run-length encoded row with a non-negative index entry does not
      depend on the rows before it: it seeks to its own entry with no
      pending count, and the first control byte sets the repeated value. */
  lemma RleRowIndependent(data: seq<byte>, plan: Plan, t: nat, r: Reader, r': Reader)
    requires plan.layout.rle && t < |plan.index| && plan.index[t] >= 0
    ensures ReadRow(data, plan, t, r).Some? <==> ReadRow(data, plan, t, r').Some?
    ensures ReadRow(data, plan, t, r).Some? && plan.layout.width > 0 ==>
      ReadRow(data, plan, t, r) == ReadRow(data, plan, t, r')
  {
    var start, start' := Reader(plan.index[t], 0, r.val), Reader(plan.index[t], 0, r'.val);
    var n := plan.layout.width;
    if n > 0 {
      var c, c' := RleChar(data, start), RleChar(data, start');
      assert c.ch == c'.ch;
      if c.ch == EOF {
        RleCharsEof(data, start, n, []);
        RleCharsEof(data, start', n, []);
      } else {
        assert c == c';
        RleCharsStep(data, start, n, []);
        RleCharsStep(data, start', n, []);
      }
    }
  }

  // ---------------------------------------------------------------------
  // The palette and the grey and alpha post-pass
  // ---------------------------------------------------------------------

  /** A scanline of four-byte pixels after the post-pass has visited its
      first n pixels: bytes 1 and 2 of each take byte 0. */
  function Greyed(row: seq<byte>, n: nat): (r: seq<byte>)
    requires 4 * n <= |row|
    ensures |r| == |row|
    decreases n
  {
    if n == 0 then row
    else
      var p := Greyed(row, n - 1);
      var x := 4 * (n - 1);
      p[x + 1 := p[x]][x + 2 := p[x]]
  }

  /** Pixel q of the first n is grey: its three colour bytes are its byte
      0, and its alpha byte is untouched. */
  lemma {:induction false} GreyedPixel(row: seq<byte>, n: nat, q: nat)
    requires 4 * n <= |row| && q < n
    ensures var r := Greyed(row, n);
      r[4 * q] == r[4 * q + 1] == r[4 * q + 2] == row[4 * q] && r[4 * q + 3] == row[4 * q + 3]
    decreases n
  {
    if q < n - 1 {
      GreyedPixel(row, n - 1, q);
    } else {
      GreyedBeyond(row, n - 1, 4 * q);
      GreyedBeyond(row, n - 1, 4 * q + 3);
    }
  }

  /** Bytes after the first n pixels are untouched. */
  lemma {:induction false} GreyedBeyond(row: seq<byte>, n: nat, x: nat)
    requires 4 * n <= x < |row|
    ensures Greyed(row, n)[x] == row[x]
    decreases n
  {
    if n > 0 {
      GreyedBeyond(row, n - 1, x);
    }
  }

  /** Every row with its first width pixels greyed. */
  function GreyRows(rows: seq<seq<byte>>, width: nat): (r: seq<seq<byte>>)
    requires forall y :: 0 <= y < |rows| ==> 4 * width <= |rows[y]|
    ensures |r| == |rows|
  {
    seq(|rows|, y requires 0 <= y < |rows| => Greyed(rows[y], width))
  }

  /** The pixel loop of the post-pass on scanline y. */
  method GreyRow(dib: Scanlines, y: nat, width: nat)
    requires y < |dib.rows| && 4 * width <= |dib.rows[y]|
    modifies dib
    ensures dib.rows == old(dib.rows)[y := Greyed(old(dib.rows)[y], width)]
  {
    ghost var row := dib.rows[y];
    for k := 0 to width
      invariant dib.rows == old(dib.rows)[y := Greyed(row, k)]
    {
      var x := 4 * k;
      var pixel0 := dib.rows[y][x];
      dib.rows := dib.rows[y := dib.rows[y][x + 1 := pixel0][x + 2 := pixel0]];
    }
  }

  /** The post-pass of a grey and alpha image: for every scanline, bytes 1
      and 2 of each of the width pixels take byte 0. */
  method FakeRgba(dib: Scanlines, width: nat)
    requires forall y :: 0 <= y < |dib.rows| ==> 4 * width <= |dib.rows[y]|
    modifies dib
    ensures dib.rows == GreyRows(old(dib.rows), width)
  {
    for y := 0 to |dib.rows|
      invariant |dib.rows| == |old(dib.rows)|
      invariant forall y' :: 0 <= y' < |dib.rows| ==>
        dib.rows[y'] == if y' < y then Greyed(old(dib.rows)[y'], width) else old(dib.rows)[y']
    {
      GreyRow(dib, y, width);
    }
  }

  /** A grey and alpha image: every pixel is (g, g, g, a) with g from
      channel 0 and a from channel 1. */
  lemma GreyAlphaPixel(rows: seq<seq<byte>>, l: Layout, chans: seq<seq<seq<byte>>>, y: nat, k: nat)
    requires l.zsize == 2 && Fits(rows, l) && |chans| == 2
    requires RowsOf(chans[0], l.height, l.width) && RowsOf(chans[1], l.height, l.width)
    requires y < l.height && k < l.width
    ensures var painted := PaintAll(rows, 2, chans);
      var out := GreyRows(painted, l.width);
      out[y][4 * k..4 * k + 4] == [chans[0][y][k], chans[0][y][k], chans[0][y][k], chans[1][y][k]]
  {
    var painted := PaintAll(rows, 2, chans);
    assert |painted[y]| == |rows[y]|;
    MulLe(k + 1, l.width, 4);
    PaintAllHit(rows, 2, chans, 0, y, k);
    PaintAllHit(rows, 2, chans, 1, y, k);
    GreyedPixel(painted[y], l.width, k);
  }

  // ---------------------------------------------------------------------
  // Load
  // ---------------------------------------------------------------------

  /** The scanlines Load leaves: the channels placed into a zero-filled
      bitmap of width * numChannels bytes per line, then greyed when grey
      and alpha are faked as RGBA. */
  function Decoded(l: Layout, chans: seq<seq<seq<byte>>>): (rows: seq<seq<byte>>)
    requires 1 <= l.zsize <= 4 && |chans| <= 4
    ensures RowsOf(rows, l.height, l.width * Stride(l.zsize))
  {
    var blank := seq(l.height, _ => seq(l.width * Stride(l.zsize), _ => 0 as byte));
    var painted := PaintAll(blank, l.zsize, chans);
    if l.zsize == 2 then GreyRows(painted, l.width) else painted
  }

  /** Load: the header checks, the bitmap, the grey palette of an 8-bit
      image, the channels and the post-pass of a grey and alpha image. The
      result is the plan on success and the error Load reports otherwise. */
  method Load(data: seq<byte>) returns (res: Result<Plan, SgiError>, dib: Scanlines?, pal: array<Rgba>)
    ensures Prepare(data).Err? ==> res == Err(Prepare(data).error)
    ensures Prepare(data).Ok? ==> var plan := Prepare(data).value;
      var chans := ReadChannels(data, plan, plan.layout.zsize);
      && (chans.None? ==> res == Err(EofInImageData))
      && (chans.Some? ==> res == Ok(plan) && dib != null && fresh(dib)
                          && dib.rows == Decoded(plan.layout, chans.value.0))
    ensures res.Ok? && res.value.bitCount == 8 ==>
      pal.Length == 256 && forall i :: 0 <= i < 256 ==> pal[i] == Rgba(i as byte, i as byte, i as byte, 0)
  {
    dib, pal := null, new Rgba[0];
    var prepared := Prepare(data);
    if prepared.Err? {
      return Err(prepared.error), dib, pal;
    }
    var plan := prepared.value;
    var l := plan.layout;
    dib := new Scanlines(l.height, l.width * Stride(l.zsize));
    if plan.bitCount == 8 {
      pal := new Rgba[256](_ => Rgba(0, 0, 0, 0));
      GreyPalette(pal);
    }
    ghost var blank := dib.rows;
    var ok := LoadPixels(data, plan, dib);
    if !ok {
      return Err(EofInImageData), null, pal;
    }
    if l.zsize == 2 {
      FakeRgba(dib, l.width);
    }
    res := Ok(plan);
  }

  /** Load places channel i of an RGB or RGBA image, and of a grey image,
      at byte k * zsize + offset_table[i] of scanline y. */
  lemma DecodedPixel(l: Layout, chans: seq<seq<seq<byte>>>, i: nat, y: nat, k: nat)
    requires 1 <= l.zsize <= 4 && l.zsize != 2 && |chans| == l.zsize
    requires forall c :: 0 <= c < |chans| ==> RowsOf(chans[c], l.height, l.width)
    requires i < l.zsize && y < l.height && k < l.width
    ensures var rows := Decoded(l, chans); var x := k * l.zsize + Offset(l.zsize, i);
      y < |rows| && x < |rows[y]| && y < |chans[i]| && k < |chans[i][y]| && rows[y][x] == chans[i][y][k]
  {
    var blank := seq(l.height, _ => seq(l.width * Stride(l.zsize), _ => 0 as byte));
    OffsetsDistinct(l.zsize, i, i);
    PixelInRow(k, l.width, l.zsize, Offset(l.zsize, i));
    assert RowsOf(chans[i], l.height, l.width);
    PaintAllHit(blank, l.zsize, chans, i, y, k);
  }

  /** Load turns a grey and alpha image into RGBA pixels (g, g, g, a). */
  lemma DecodedGreyAlpha(l: Layout, chans: seq<seq<seq<byte>>>, y: nat, k: nat)
    requires l.zsize == 2 && |chans| == 2
    requires RowsOf(chans[0], l.height, l.width) && RowsOf(chans[1], l.height, l.width)
    requires y < l.height && k < l.width
    ensures var rows := Decoded(l, chans);
      y < |rows| && 4 * k + 4 <= |rows[y]|
      && rows[y][4 * k..4 * k + 4] == [chans[0][y][k], chans[0][y][k], chans[0][y][k], chans[1][y][k]]
  {
    var blank := seq(l.height, _ => seq(l.width * Stride(l.zsize), _ => 0 as byte));
    MulLe(k + 1, l.width, 4);
    GreyAlphaPixel(blank, l, chans, y, k);
  }
}
