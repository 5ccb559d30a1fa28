/** The block scan that Open runs over a GIF stream
    (Source/Plugins/PluginGIF.cpp:525-616), PageCount, and the page number
    Load accepts. The stream is a byte sequence read from offset 0; a read
    past its end fails, a seek past its end does not. */
module GifOpen {
  import opened Wrappers
  import opened Bytes
  import GifHeader

  const BLOCK_IMAGE_DESCRIPTOR: byte := 0x2C
  const BLOCK_EXTENSION: byte := 0x21
  const BLOCK_TRAILER: byte := 0x3B
  const EXT_GRAPHIC_CONTROL: byte := 0xF9
  const EXT_COMMENT: byte := 0xFE
  const EXT_APPLICATION: byte := 0xFF

  /** The messages Open throws. */
  datatype OpenError =
    | BadMagic          // the signature is neither GIF89a nor GIF87a
    | EofScreen         // "EOF reading Logical Screen Descriptor"
    | EofBlocks         // "EOF reading blocks"
    | EofDescriptor     // "EOF reading Image Descriptor"
    | EofExtension      // "EOF reading extension"
    | EofSubBlock       // "EOF reading sub-block"
    | InvalidBlock      // "Invalid GIF block found"

  /** A block the scan accepted, with the stream offset it records: the
      byte after the 0x2C of an image descriptor, the byte after the label
      of an extension. */
  datatype Block = Image(at: nat) | Extension(kind: byte, at: nat)

  /** The four offset vectors of GIFinfo. */
  datatype Offsets = Offsets(applications: seq<nat>, comments: seq<nat>, gces: seq<nat>, descriptors: seq<nat>)

  /** What Open leaves in GIFinfo for reading. */
  datatype Info = Info(gctOffset: nat, gctSize: nat, background: byte, offsets: Offsets)

  // ---------------------------------------------------------------------
  // The block grammar
  // ---------------------------------------------------------------------

  /** The offset after a chain of data sub-blocks starting at pos (each a
      length byte and that many bytes, ended by a zero length), or None
      when a length byte is past the end of the stream. */
  function SubBlocksEnd(data: seq<byte>, pos: nat): (r: Option<nat>)
    ensures r.Some? ==> pos < r.value <= |data|
    decreases |data| - pos
  {
    if pos >= |data| then None
    else if data[pos] == 0 then Some(pos + 1)
    else SubBlocksEnd(data, pos + 1 + data[pos] as nat)
  }

  /** The offset of the first sub-block of an image descriptor whose
      packed byte is packed and whose fields start at at: eight bytes of
      geometry, the packed byte, the local colour table when the packed
      byte announces one, and the LZW minimum code size. */
  function AfterDescriptor(at: nat, packed: byte): nat
  {
    at + 9 + (if packed >= 0x80 then 3 * GifHeader.TableSize(packed) else 0) + 1
  }

  /** What reading one block gives: the trailer, a block and the offset
      after its sub-blocks, or the error that stops the scan. */
  datatype Parsed = Trailer | Parsed(b: Block, next: nat) | Failed(e: OpenError)

  /** The block whose introducing byte is at pos. */
  function BlockAt(data: seq<byte>, pos: nat): (r: Parsed)
    ensures r.Parsed? ==> pos < r.next <= |data|
  {
    if pos >= |data| then Failed(EofBlocks)
    else
      var block := data[pos];
      if block == BLOCK_IMAGE_DESCRIPTOR then
        var at := pos + 1;
        if at + 8 >= |data| then Failed(EofDescriptor)
        else
          match SubBlocksEnd(data, AfterDescriptor(at, data[at + 8]))
          case None => Failed(EofSubBlock)
          case Some(next) => Parsed(Image(at), next)
      else if block == BLOCK_EXTENSION then
        if pos + 1 >= |data| then Failed(EofExtension)
        else
          match SubBlocksEnd(data, pos + 2)
          case None => Failed(EofSubBlock)
          case Some(next) => Parsed(Extension(data[pos + 1], pos + 2), next)
      else if block == BLOCK_TRAILER then Trailer
      else Failed(InvalidBlock)
  }

  /** The blocks from pos up to the trailer, or the error that stops the
      scan. */
  function BlocksFrom(data: seq<byte>, pos: nat): (r: Result<seq<Block>, OpenError>)
    decreases |data| - pos
  {
    match BlockAt(data, pos)
    case Trailer => Ok([])
    case Failed(e) => Err(e)
    case Parsed(b, next) =>
      match BlocksFrom(data, next)
      case Err(e) => Err(e)
      case Ok(bs) => Ok([b] + bs)
  }

  // ---------------------------------------------------------------------
  // Recording offsets
  // ---------------------------------------------------------------------

  /** The graphic-control offset pending after block b, when gce was
      pending before it: a descriptor takes it, a graphic-control extension
      replaces it. */
  function Pass(gce: nat, b: Block): nat
  {
    match b
    case Image(_) => 0
    case Extension(kind, at) => if kind == EXT_GRAPHIC_CONTROL then at else gce
  }

  /** The offsets the scan records for blocks bs when gce is pending. */
  function Record(bs: seq<Block>, gce: nat): (r: Offsets)
    ensures |r.gces| == |r.descriptors|
  {
    if |bs| == 0 then Offsets([], [], [], [])
    else
      var rest := Record(bs[1..], Pass(gce, bs[0]));
      match bs[0]
      case Image(at) => rest.(gces := [gce] + rest.gces, descriptors := [at] + rest.descriptors)
      case Extension(kind, at) =>
        if kind == EXT_COMMENT then rest.(comments := [at] + rest.comments)
        else if kind == EXT_APPLICATION then rest.(applications := [at] + rest.applications)
        else rest
  }

  /** The offsets recorded so far followed by those recorded later. */
  function Concat(a: Offsets, b: Offsets): Offsets
  {
    Offsets(a.applications + b.applications, a.comments + b.comments, a.gces + b.gces, a.descriptors + b.descriptors)
  }

  /** acc after the offsets block b records when gce is pending. */
  function Add(acc: Offsets, gce: nat, b: Block): Offsets
  {
    Concat(acc, Record([b], gce))
  }

  /** The scan's outcome when acc has been recorded, gce is pending and
      rest is what the remaining blocks give. */
  function Finish(gct: (nat, nat, byte), acc: Offsets, gce: nat, rest: Result<seq<Block>, OpenError>): Result<Info, OpenError>
  {
    match rest
    case Err(e) => Err(e)
    case Ok(bs) => Ok(Info(gct.0, gct.1, gct.2, Concat(acc, Record(bs, gce))))
  }

  /** Where the blocks start, and the colour-table fields, of a stream
      whose logical screen descriptor has been read. */
  function Screen(data: seq<byte>): (r: (nat, (nat, nat, byte)))
    requires |data| >= 12
  {
    var packed := data[10];
    if packed >= 0x80 then (13 + 3 * GifHeader.TableSize(packed), (13, GifHeader.TableSize(packed), data[11]))
    else (13, (0, 0, data[11]))
  }

  /** Open's outcome for a stream. */
  function Scan(data: seq<byte>): Result<Info, OpenError>
  {
    if !GifHeader.Validate(data) then Err(BadMagic)
    else if |data| < 12 then Err(EofScreen)
    else
      var (start, gct) := Screen(data);
      Finish(gct, Offsets([], [], [], []), 0, BlocksFrom(data, start))
  }

  /** Recording b and then bs is recording b on its own and then bs. */
  lemma RecordStep(acc: Offsets, gce: nat, b: Block, bs: seq<Block>)
    ensures Concat(acc, Record([b] + bs, gce)) == Concat(Add(acc, gce, b), Record(bs, Pass(gce, b)))
  {
    assert ([b] + bs)[1..] == bs;
    assert [b][1..] == [];
    var e := Record([], Pass(gce, b));
    var rest := Record(bs, Pass(gce, b));
    match b
    case Image(at) =>
      assert acc.gces + ([gce] + rest.gces) == (acc.gces + [gce]) + rest.gces;
      assert acc.descriptors + ([at] + rest.descriptors) == (acc.descriptors + [at]) + rest.descriptors;
    case Extension(kind, at) =>
      assert acc.comments + ([at] + rest.comments) == (acc.comments + [at]) + rest.comments;
      assert acc.applications + ([at] + rest.applications) == (acc.applications + [at]) + rest.applications;
  }

  /** Reading one block moves its offsets from what remains to what has
      been recorded. */
  lemma FinishStep(gct: (nat, nat, byte), acc: Offsets, gce: nat, data: seq<byte>, pos: nat)
    requires BlockAt(data, pos).Parsed?
    ensures pos < BlockAt(data, pos).next <= |data|
    ensures
      var Parsed(b, next) := BlockAt(data, pos);
      Finish(gct, acc, gce, BlocksFrom(data, pos)) == Finish(gct, Add(acc, gce, b), Pass(gce, b), BlocksFrom(data, next))
  {
    var Parsed(b, next) := BlockAt(data, pos);
    match BlocksFrom(data, next)
    case Err(_) =>
    case Ok(bs) => RecordStep(acc, gce, b, bs);
  }

  // ---------------------------------------------------------------------
  // Open
  // ---------------------------------------------------------------------

  /** Open for reading: the header, the logical screen descriptor, the
      global colour table's place, then every block up to the trailer,
      recording where descriptors and extensions are. */
  method Open(data: seq<byte>) returns (r: Result<Info, OpenError>)
    ensures r == Scan(data)
  {
    if !GifHeader.Validate(data) {
      return Err(BadMagic);
    }
    if |data| < 12 {
      return Err(EofScreen);
    }
    var packed := data[10];
    var background := data[11];
    var pos: nat := 13;
    var gctOffset: nat, gctSize: nat := 0, 0;
    if packed >= 0x80 {
      gctOffset := pos;
      gctSize := GifHeader.TableSize(packed);
      pos := pos + 3 * gctSize;
    }
    var gct := (gctOffset, gctSize, background);
    var acc := Offsets([], [], [], []);
    var gce: nat := 0;
    while true
      invariant Finish(gct, acc, gce, BlocksFrom(data, pos)) == Scan(data)
      decreases |data| - pos
    {
      var p := ReadBlock(data, pos);
      match p
      case Trailer =>
        assert Concat(acc, Record([], gce)) == acc;
        assert BlocksFrom(data, pos) == Ok([]);
        return Ok(Info(gct.0, gct.1, gct.2, acc));
      case Failed(e) =>
        return Err(e);
      case Parsed(b, next) =>
        FinishStep(gct, acc, gce, data, pos);
        acc, gce, pos := Add(acc, gce, b), Pass(gce, b), next;
    }
  }

  /** One pass of Open's block loop: the block byte, the descriptor or
      extension fields, and the data sub-blocks that follow. */
  method ReadBlock(data: seq<byte>, start: nat) returns (p: Parsed)
    ensures p == BlockAt(data, start)
  {
    var pos := start;
    if pos >= |data| {
      return Failed(EofBlocks);
    }
    var block := data[pos];
    pos := pos + 1;
    var b;
    if block == BLOCK_IMAGE_DESCRIPTOR {
      b := Image(pos);
      if pos + 8 >= |data| {
        return Failed(EofDescriptor);
      }
      pos := AfterDescriptor(pos, data[pos + 8]);
    } else if block == BLOCK_EXTENSION {
      if pos >= |data| {
        return Failed(EofExtension);
      }
      b := Extension(data[pos], pos + 1);
      pos := pos + 1;
    } else if block == BLOCK_TRAILER {
      return Trailer;
    } else {
      return Failed(InvalidBlock);
    }
    ghost var first := pos;
    while true
      invariant first <= pos && SubBlocksEnd(data, pos) == SubBlocksEnd(data, first)
      decreases |data| - pos
    {
      if pos >= |data| {
        return Failed(EofSubBlock);
      }
      var len := data[pos];
      pos := pos + 1;
      if len == 0 {
        break;
      }
      pos := pos + len as nat;
    }
    return Parsed(b, pos);
  }

  // ---------------------------------------------------------------------
  // PageCount and the page Load accepts
  // ---------------------------------------------------------------------

  /** PageCount: the number of image descriptors Open recorded, 0 when
      there is no open stream. */
  function PageCount(info: Option<Info>): nat
  {
    match info
    case None => 0
    case Some(i) => |i.offsets.descriptors|
  }

  /** The frame Load decodes for a requested page: -1 stands for the first
      frame, and a page outside the recorded descriptors loads nothing. */
  function LoadPage(info: Option<Info>, page: int): (r: Option<nat>)
    ensures r.Some? <==> -1 <= page < PageCount(info) && (page == -1 ==> PageCount(info) > 0)
    ensures r.Some? ==> r.value == (if page == -1 then 0 else page)
  {
    if info.None? then None
    else
      var p := if page == -1 then 0 else page;
      if p < 0 || p >= PageCount(info) then None else Some(p)
  }

  // ---------------------------------------------------------------------
  // What the scan records
  // ---------------------------------------------------------------------

  /** The offsets of the image descriptors among blocks bs, in order. */
  function Images(bs: seq<Block>): seq<nat>
  {
    if |bs| == 0 then []
    else
      var last := bs[|bs| - 1];
      Images(bs[..|bs| - 1]) + (if last.Image? then [last.at] else [])
  }

  /** The graphic-control offset still waiting for a descriptor after
      blocks bs, when gce was waiting before them: the last graphic-control
      extension after the last descriptor, else gce when there is no
      descriptor either, else 0. */
  function Pending(gce: nat, bs: seq<Block>): nat
  {
    if |bs| == 0 then gce
    else
      match bs[|bs| - 1]
      case Image(_) => 0
      case Extension(kind, at) => if kind == EXT_GRAPHIC_CONTROL then at else Pending(gce, bs[..|bs| - 1])
  }

  lemma {:induction false} ImagesAppend(a: seq<Block>, b: seq<Block>)
    ensures Images(a + b) == Images(a) + Images(b)
    decreases |b|
  {
    if |b| == 0 {
      assert a + b == a;
    } else {
      var k := |b| - 1;
      assert (a + b)[..|a + b| - 1] == a + b[..k];
      ImagesAppend(a, b[..k]);
    }
  }

  lemma {:induction false} PendingCons(gce: nat, b: Block, bs: seq<Block>)
    ensures Pending(gce, [b] + bs) == Pending(Pass(gce, b), bs)
    decreases |bs|
  {
    if |bs| > 0 {
      var k := |bs| - 1;
      assert ([b] + bs)[..|bs|] == [b] + bs[..k];
      PendingCons(gce, b, bs[..k]);
    } else {
      assert [b] + bs == [b];
      assert [b][..0] == [];
    }
  }

  /** The descriptor offsets Open records are those of the image
      descriptor blocks, in stream order. */
  lemma {:induction false} RecordImages(bs: seq<Block>, gce: nat)
    ensures Record(bs, gce).descriptors == Images(bs)
    decreases |bs|
  {
    if |bs| > 0 {
      RecordImages(bs[1..], Pass(gce, bs[0]));
      assert bs == [bs[0]] + bs[1..];
      ImagesAppend([bs[0]], bs[1..]);
      assert [bs[0]][..0] == [];
    }
  }

  /** Each descriptor is paired with the last graphic-control extension
      seen since the previous descriptor, or with 0 when there was none. */
  lemma {:induction false} GcePaired(bs: seq<Block>, gce: nat, i: nat)
    requires i < |bs| && bs[i].Image?
    ensures |Images(bs[..i])| < |Record(bs, gce).gces|
    ensures Record(bs, gce).gces[|Images(bs[..i])|] == Pending(gce, bs[..i])
    decreases i
  {
    RecordImages(bs, gce);
    assert bs == bs[..i] + bs[i..];
    assert bs[i..] == [bs[i]] + bs[i + 1..];
    ImagesAppend(bs[..i], bs[i..]);
    ImagesAppend([bs[i]], bs[i + 1..]);
    assert [bs[i]][..0] == [];
    if i > 0 {
      var tail := bs[1..];
      assert bs[..i] == [bs[0]] + tail[..i - 1];
      GcePaired(tail, Pass(gce, bs[0]), i - 1);
      ImagesAppend([bs[0]], tail[..i - 1]);
      assert [bs[0]][..0] == [];
      PendingCons(gce, bs[0], tail[..i - 1]);
    }
  }

  /** Every offset the scan records follows the byte that introduced its
      block: 0x2C before a descriptor, 0x21 and the label before an
      extension; the bytes Load reads there are inside the stream; and the
      offsets come in stream order after pos. */
  lemma {:induction false} BlocksTagged(data: seq<byte>, pos: nat)
    requires BlocksFrom(data, pos).Ok?
    ensures pos < |data|
    ensures forall k :: 0 <= k < |BlocksFrom(data, pos).value| ==> Tagged(data, BlocksFrom(data, pos).value[k])
    ensures forall k :: 0 <= k < |BlocksFrom(data, pos).value| ==> pos < BlocksFrom(data, pos).value[k].at
    ensures forall j, k :: 0 <= j < k < |BlocksFrom(data, pos).value| ==>
      BlocksFrom(data, pos).value[j].at < BlocksFrom(data, pos).value[k].at
    decreases |data| - pos
  {
    match BlockAt(data, pos)
    case Trailer =>
    case Parsed(b, next) =>
      BlocksTagged(data, next);
  }

  /** Every recorded descriptor offset is that of a descriptor block, and
      every recorded graphic-control offset is 0, the pending gce, or that
      of a graphic-control extension block. */
  lemma {:induction false} RecordFrom(bs: seq<Block>, gce: nat)
    ensures forall x :: x in Record(bs, gce).descriptors ==> exists i :: 0 <= i < |bs| && bs[i] == Image(x)
    ensures forall x :: x in Record(bs, gce).gces ==>
      x == 0 || x == gce || exists i :: 0 <= i < |bs| && bs[i] == Extension(EXT_GRAPHIC_CONTROL, x)
    decreases |bs|
  {
    if |bs| > 0 {
      var g := Pass(gce, bs[0]);
      RecordFrom(bs[1..], g);
      var r, rest := Record(bs, gce), Record(bs[1..], g);
      forall x | x in r.descriptors
        ensures exists i :: 0 <= i < |bs| && bs[i] == Image(x)
      {
        if x in rest.descriptors {
          var i :| 0 <= i < |bs[1..]| && bs[1..][i] == Image(x);
          assert bs[i + 1] == Image(x);
        } else {
          assert bs[0] == Image(x);
        }
      }
      forall x | x in r.gces
        ensures x == 0 || x == gce || exists i :: 0 <= i < |bs| && bs[i] == Extension(EXT_GRAPHIC_CONTROL, x)
      {
        if x in rest.gces {
          if x != 0 && x != g {
            var i :| 0 <= i < |bs[1..]| && bs[1..][i] == Extension(EXT_GRAPHIC_CONTROL, x);
            assert bs[i + 1] == Extension(EXT_GRAPHIC_CONTROL, x);
          } else if x == g && x != gce && x != 0 {
            assert bs[0] == Extension(EXT_GRAPHIC_CONTROL, x);
          }
        }
      }
    }
  }

  /** Block b is introduced by its bytes in data. */
  predicate Tagged(data: seq<byte>, b: Block)
  {
    match b
    case Image(at) => 1 <= at && at + 8 < |data| && data[at - 1] == BLOCK_IMAGE_DESCRIPTOR
    case Extension(kind, at) => 2 <= at && at + 1 < |data| && data[at - 2] == BLOCK_EXTENSION && data[at - 1] == kind
  }

  /** The scan fails with "Invalid GIF block found" only when it reaches
      a block byte other than 0x2C, 0x21 and 0x3B. */
  lemma {:induction false} InvalidOnlyOnBadByte(data: seq<byte>, pos: nat)
    requires BlocksFrom(data, pos) == Err(InvalidBlock)
    ensures exists q :: pos <= q < |data| && data[q] !in {BLOCK_IMAGE_DESCRIPTOR, BLOCK_EXTENSION, BLOCK_TRAILER}
    decreases |data| - pos
  {
    match BlockAt(data, pos)
    case Failed(e) =>
      assert data[pos] !in {BLOCK_IMAGE_DESCRIPTOR, BLOCK_EXTENSION, BLOCK_TRAILER};
    case Parsed(b, next) =>
      InvalidOnlyOnBadByte(data, next);
  }

  /** What a successful Open records: as many graphic-control offsets as
      descriptors, one page per image descriptor block, each paired with
      the graphic-control extension pending before it. */
  lemma OpenRecords(data: seq<byte>)
    requires Scan(data).Ok?
    ensures |data| >= 12 && BlocksFrom(data, Screen(data).0).Ok?
    ensures
      var bs := BlocksFrom(data, Screen(data).0).value;
      var info := Scan(data).value;
      && |info.offsets.gces| == |info.offsets.descriptors|
      && info.offsets.descriptors == Images(bs)
      && PageCount(Some(info)) == |Images(bs)|
      && forall i :: 0 <= i < |bs| && bs[i].Image? ==>
           |Images(bs[..i])| < |info.offsets.gces| && info.offsets.gces[|Images(bs[..i])|] == Pending(0, bs[..i])
  {
    var bs := BlocksFrom(data, Screen(data).0).value;
    var info := Scan(data).value;
    RecordImages(bs, 0);
    assert info.offsets == Concat(Offsets([], [], [], []), Record(bs, 0));
    assert info.offsets == Record(bs, 0);
    forall i | 0 <= i < |bs| && bs[i].Image?
      ensures |Images(bs[..i])| < |info.offsets.gces| && info.offsets.gces[|Images(bs[..i])|] == Pending(0, bs[..i])
    {
      GcePaired(bs, 0, i);
    }
  }
}
