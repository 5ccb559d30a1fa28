/** Load's playback mode (Source/Plugins/PluginGIF.cpp:678-831): the frame
    a viewer would see at a page, composed on a logical-screen canvas from
    the earlier frames it depends on. The canvas is the 32-bit bitmap's
    pixel memory, scanline after scanline, bottom scanline first. The
    frames themselves, as the single-frame Load decodes them, are inputs. */
module GifPlayback {
  import opened Wrappers
  import opened Bytes
  import opened Bitmap
  import GifHeader
  import GifOpen

  const DISPOSAL_UNSPECIFIED: nat := 0
  const DISPOSAL_BACKGROUND: nat := 2
  const DISPOSAL_PREVIOUS: nat := 3

  /** PageInfo: a frame's disposal method and rectangle. */
  datatype PageInfo = PageInfo(disposal: nat, left: nat, top: nat, width: nat, height: nat)

  /** A frame as the single-frame Load returns it: height scanlines of
      8-bit indices (bottom scanline first), a 256-entry palette, the
      transparency table and the FrameTime tag when present. */
  datatype Frame = Frame(rows: seq<seq<byte>>, palette: seq<Rgba>, transparency: seq<byte>, frameTime: Option<int>)

  /** The decoded frame has the size its descriptor announces. */
  predicate FrameFits(f: Frame, pi: PageInfo)
  {
    |f.rows| == pi.height && |f.palette| == 256 && forall r :: r in f.rows ==> |r| == pi.width
  }

  // ---------------------------------------------------------------------
  // What playback reads from the stream
  // ---------------------------------------------------------------------

  /** The stream holds every byte playback reads for the offsets Open
      recorded. */
  predicate Readable(data: seq<byte>, info: GifOpen.Info)
  {
    && |data| >= 12
    && |info.offsets.gces| == |info.offsets.descriptors|
    && (forall k :: 0 <= k < |info.offsets.descriptors| ==>
          info.offsets.descriptors[k] + 8 < |data| && info.offsets.gces[k] + 1 < |data|)
    && (info.gctOffset != 0 ==> info.gctOffset + 3 * info.gctSize <= |data|)
  }

  /** Every stream Open accepts holds the bytes playback reads. */
  lemma ScanReadable(data: seq<byte>)
    requires GifOpen.Scan(data).Ok?
    ensures Readable(data, GifOpen.Scan(data).value)
  {
    GifOpen.OpenRecords(data);
    var start := GifOpen.Screen(data).0;
    var bs := GifOpen.BlocksFrom(data, start).value;
    var info := GifOpen.Scan(data).value;
    assert info.offsets == GifOpen.Record(bs, 0) by {
      assert info.offsets == GifOpen.Concat(GifOpen.Offsets([], [], [], []), GifOpen.Record(bs, 0));
    }
    GifOpen.BlocksTagged(data, start);
    GifOpen.RecordFrom(bs, 0);
    forall k | 0 <= k < |info.offsets.descriptors|
      ensures info.offsets.descriptors[k] + 8 < |data| && info.offsets.gces[k] + 1 < |data|
    {
      var d := info.offsets.descriptors[k];
      assert d in info.offsets.descriptors;
      var i :| 0 <= i < |bs| && bs[i] == GifOpen.Image(d);
      assert GifOpen.Tagged(data, bs[i]);
      var g := info.offsets.gces[k];
      assert g in info.offsets.gces;
      if g != 0 {
        var j :| 0 <= j < |bs| && bs[j] == GifOpen.Extension(GifOpen.EXT_GRAPHIC_CONTROL, g);
        assert GifOpen.Tagged(data, bs[j]);
      }
    }
  }

  /** The logical screen width and height. */
  function LogicalWidth(data: seq<byte>): nat
    requires |data| >= 12
  {
    U16LE(data, 6)
  }

  function LogicalHeight(data: seq<byte>): nat
    requires |data| >= 12
  {
    U16LE(data, 8)
  }

  /** The background colour: the global-table entry the logical screen
      names when there is a table and the index is inside it, else black;
      always with alpha 0. */
  function Background(data: seq<byte>, info: GifOpen.Info): (c: Rgba)
    requires Readable(data, info)
    ensures c.alpha == 0
  {
    if info.gctOffset != 0 && (info.background as nat) < info.gctSize then
      var at := info.gctOffset + 3 * info.background as nat;
      Rgba(data[at], data[at + 1], data[at + 2], 0)
    else Rgba(0, 0, 0, 0)
  }

  /** The packed byte of page k's graphic-control extension: the byte after
      the recorded offset, which for a page without one is byte 1 of the
      stream. */
  function GcePacked(data: seq<byte>, info: GifOpen.Info, k: nat): byte
    requires Readable(data, info) && k < |info.offsets.descriptors|
  {
    data[info.offsets.gces[k] + 1]
  }

  /** The PageInfo the backward scan records for page k. */
  function PageInfoAt(data: seq<byte>, info: GifOpen.Info, k: nat): PageInfo
    requires Readable(data, info) && k < |info.offsets.descriptors|
  {
    var d := info.offsets.descriptors[k];
    PageInfo(GifHeader.Disposal(GcePacked(data, info, k)), U16LE(data, d), U16LE(data, d + 2), U16LE(data, d + 4), U16LE(data, d + 6))
  }

  // ---------------------------------------------------------------------
  // Where playback starts
  // ---------------------------------------------------------------------

  /** Page k, earlier than the requested one, hides everything before it:
      it covers the whole logical screen and is either erased to background
      afterwards or opaque and kept. */
  predicate Stops(data: seq<byte>, info: GifOpen.Info, k: nat)
    requires Readable(data, info) && k < |info.offsets.descriptors|
  {
    var pi := PageInfoAt(data, info, k);
    && pi.left == 0 && pi.top == 0 && pi.width == LogicalWidth(data) && pi.height == LogicalHeight(data)
    && (pi.disposal == DISPOSAL_BACKGROUND
        || (pi.disposal != DISPOSAL_PREVIOUS && !GifHeader.HaveTransparent(GcePacked(data, info, k))))
  }

  /** The latest page before page k that stops the backward scan, or -1. */
  function LastStop(data: seq<byte>, info: GifOpen.Info, k: nat): (s: int)
    requires Readable(data, info) && k <= |info.offsets.descriptors|
    ensures -1 <= s < k
    ensures s >= 0 ==> Stops(data, info, s)
    ensures forall j :: s < j < k ==> !Stops(data, info, j)
  {
    if k == 0 then -1
    else if Stops(data, info, k - 1) then k - 1
    else LastStop(data, info, k - 1)
  }

  /** The stopping page is the one a downward search meets first. */
  lemma LastStopIs(data: seq<byte>, info: GifOpen.Info, k: nat, s: int)
    requires Readable(data, info) && k <= |info.offsets.descriptors| && -1 <= s < k
    requires s >= 0 ==> Stops(data, info, s)
    requires forall j :: s < j < k ==> !Stops(data, info, j)
    ensures LastStop(data, info, k) == s
  {
  }

  /** The first page drawn: after the stopping page when it is erased,
      at it when it is kept, else page 0. */
  function StartPage(data: seq<byte>, info: GifOpen.Info, page: nat): (start: nat)
    requires Readable(data, info) && page < |info.offsets.descriptors|
    ensures start <= page
  {
    var s := LastStop(data, info, page);
    if s < 0 then 0
    else if PageInfoAt(data, info, s).disposal == DISPOSAL_BACKGROUND then s + 1
    else s
  }

  /** The backward scan: from the requested page down, recording each
      page's PageInfo, until a page that stops it. */
  method ScanBack(data: seq<byte>, info: GifOpen.Info, page: nat) returns (start: nat, pageinfo: seq<PageInfo>)
    requires Readable(data, info) && page < |info.offsets.descriptors|
    ensures start == StartPage(data, info, page)
    ensures |pageinfo| == page - start + 1
    ensures forall j :: 0 <= j < |pageinfo| ==> pageinfo[j] == PageInfoAt(data, info, page - j)
  {
    var s: int := page;
    pageinfo := [];
    while s >= 0
      invariant -1 <= s <= page
      invariant |pageinfo| == page - s
      invariant forall j :: 0 <= j < |pageinfo| ==> pageinfo[j] == PageInfoAt(data, info, page - j)
      invariant forall j :: s < j < page ==> !Stops(data, info, j)
    {
      var packed := GcePacked(data, info, s);
      var pi := PageInfoAt(data, info, s);
      pageinfo := pageinfo + [pi];
      if s != page && pi.left == 0 && pi.top == 0 && pi.width == LogicalWidth(data) && pi.height == LogicalHeight(data) {
        if pi.disposal == DISPOSAL_BACKGROUND {
          assert Stops(data, info, s);
          LastStopIs(data, info, page, s);
          pageinfo := pageinfo[..|pageinfo| - 1];
          s := s + 1;
          break;
        } else if pi.disposal != DISPOSAL_PREVIOUS {
          if !GifHeader.HaveTransparent(packed) {
            assert Stops(data, info, s);
            LastStopIs(data, info, page, s);
            break;
          }
        }
      }
      s := s - 1;
    }
    if s < 0 {
      LastStopIs(data, info, page, -1);
      s := 0;
    }
    start := s;
  }

  // ---------------------------------------------------------------------
  // Painting a frame's rectangle
  // ---------------------------------------------------------------------

  /** What a pass over a rectangle writes: the background everywhere, or a
      decoded frame whose pixels of index trans, if any, are left out. */
  datatype Painter = Erase(bg: Rgba) | Draw(f: Frame, trans: Option<nat>)

  /** A drawn frame has a row for each row of the rectangle, at least as
      wide as the rectangle, and a full palette. */
  predicate PainterFits(pt: Painter, pi: PageInfo)
  {
    pt.Draw? ==>
      |pt.f.rows| == pi.height && |pt.f.palette| == 256 && forall r :: r in pt.f.rows ==> |r| >= pi.width
  }

  /** The colour written at column x of row y of the rectangle, or None
      when the pixel is transparent: a drawn pixel takes its palette entry
      with alpha 255. */
  function NewValue(pt: Painter, pi: PageInfo, y: nat, x: nat): Option<Rgba>
    requires PainterFits(pt, pi) && y < pi.height && x < pi.width
  {
    match pt
    case Erase(bg) => Some(bg)
    case Draw(f, trans) =>
      var row := f.rows[pi.height - y - 1];
      assert row in f.rows;
      var p := row[x];
      if trans == Some(p as nat) then None else Some(f.palette[p].(alpha := 255))
  }

  /** The canvas index of column x of row y of the rectangle: scanline
      H - (y + top) - 1, column left + x. */
  function Target(W: nat, H: nat, pi: PageInfo, y: nat, x: nat): nat
    requires y + pi.top < H
  {
    (H - (y + pi.top) - 1) * W + pi.left + x
  }

  /** The rows of the rectangle that are painted: those whose scanline
      index is not negative. */
  function RowsPainted(pi: PageInfo, H: nat): (n: nat)
    ensures n <= pi.height && (n == 0 || n + pi.top <= H)
  {
    if pi.top >= H then 0 else Min(pi.height, H - pi.top)
  }

  /** Canvas c with value v written at index i, when there is one and i
      is inside the canvas. */
  function Put(c: seq<Rgba>, i: nat, v: Option<Rgba>): (r: seq<Rgba>)
    ensures |r| == |c|
  {
    if v.Some? && i < |c| then c[i := v.value] else c
  }

  /** Canvas c after the first cols columns of row y are painted. */
  function PaintCols(c: seq<Rgba>, W: nat, H: nat, pi: PageInfo, pt: Painter, y: nat, cols: nat): (r: seq<Rgba>)
    requires PainterFits(pt, pi) && y < pi.height && y + pi.top < H && cols <= pi.width
    ensures |r| == |c|
  {
    if cols == 0 then c
    else Put(PaintCols(c, W, H, pi, pt, y, cols - 1), Target(W, H, pi, y, cols - 1), NewValue(pt, pi, y, cols - 1))
  }

  /** Canvas c after the first rows rows are painted. */
  function PaintRows(c: seq<Rgba>, W: nat, H: nat, pi: PageInfo, pt: Painter, rows: nat): (r: seq<Rgba>)
    requires PainterFits(pt, pi) && rows <= RowsPainted(pi, H)
    ensures |r| == |c|
  {
    if rows == 0 then c
    else PaintCols(PaintRows(c, W, H, pi, pt, rows - 1), W, H, pi, pt, rows - 1, pi.width)
  }

  /** The pass over a frame's rectangle: row after row, stopping at the
      first row above the canvas, each row written left to right. A write
      that would fall past the end of the canvas is not made. */
  method PaintRect(canvas: array<Rgba>, W: nat, H: nat, pi: PageInfo, pt: Painter)
    requires PainterFits(pt, pi)
    modifies canvas
    ensures canvas[..] == PaintRows(old(canvas[..]), W, H, pi, pt, RowsPainted(pi, H))
  {
    ghost var c0 := canvas[..];
    var y := 0;
    while y < pi.height
      invariant y <= RowsPainted(pi, H)
      invariant canvas[..] == PaintRows(c0, W, H, pi, pt, y)
      decreases pi.height - y
    {
      if H - (y + pi.top) - 1 < 0 {
        break;
      }
      ghost var c1 := canvas[..];
      var scanline := Target(W, H, pi, y, 0);
      var x := 0;
      while x < pi.width
        invariant x <= pi.width && scanline == Target(W, H, pi, y, 0) + x
        invariant canvas[..] == PaintCols(c1, W, H, pi, pt, y, x)
      {
        var v := NewValue(pt, pi, y, x);
        if v.Some? && scanline < canvas.Length {
          canvas[scanline] := v.value;
        }
        scanline := scanline + 1;
        x := x + 1;
      }
      y := y + 1;
    }
  }

  /** A pixel the pass does not reach keeps its value. */
  lemma {:induction false} PaintColsMiss(c: seq<Rgba>, W: nat, H: nat, pi: PageInfo, pt: Painter, y: nat, cols: nat, i: nat)
    requires PainterFits(pt, pi) && y < pi.height && y + pi.top < H && cols <= pi.width && i < |c|
    requires forall x :: 0 <= x < cols ==> Target(W, H, pi, y, x) != i
    ensures PaintCols(c, W, H, pi, pt, y, cols)[i] == c[i]
  {
    if cols > 0 {
      PaintColsMiss(c, W, H, pi, pt, y, cols - 1, i);
    }
  }

  lemma {:induction false} PaintRowsMiss(c: seq<Rgba>, W: nat, H: nat, pi: PageInfo, pt: Painter, rows: nat, i: nat)
    requires PainterFits(pt, pi) && rows <= RowsPainted(pi, H) && i < |c|
    requires forall y, x :: 0 <= y < rows && 0 <= x < pi.width ==> Target(W, H, pi, y, x) != i
    ensures PaintRows(c, W, H, pi, pt, rows)[i] == c[i]
  {
    if rows > 0 {
      PaintRowsMiss(c, W, H, pi, pt, rows - 1, i);
      PaintColsMiss(PaintRows(c, W, H, pi, pt, rows - 1), W, H, pi, pt, rows - 1, pi.width, i);
    }
  }

  /** Distinct pixels of a rectangle inside the logical width land on
      distinct canvas indices. */
  lemma TargetsDistinct(W: nat, H: nat, pi: PageInfo, y: nat, x: nat, y': nat, x': nat)
    requires pi.left + pi.width <= W && y + pi.top < H && y' + pi.top < H && x < pi.width && x' < pi.width
    requires (y, x) != (y', x')
    ensures Target(W, H, pi, y, x) != Target(W, H, pi, y', x')
  {
    DivModOf(H - (y + pi.top) - 1, W, pi.left + x);
    DivModOf(H - (y' + pi.top) - 1, W, pi.left + x');
  }

  /** The last write to a pixel of row y is the one the pass makes there. */
  lemma {:induction false} PaintColsHit(c: seq<Rgba>, W: nat, H: nat, pi: PageInfo, pt: Painter, y: nat, cols: nat, x: nat)
    requires PainterFits(pt, pi) && y < pi.height && y + pi.top < H && x < cols <= pi.width
    requires Target(W, H, pi, y, x) < |c|
    ensures PaintCols(c, W, H, pi, pt, y, cols)[Target(W, H, pi, y, x)] ==
      (match NewValue(pt, pi, y, x) case Some(v) => v case None => c[Target(W, H, pi, y, x)])
  {
    var t := Target(W, H, pi, y, x);
    if x < cols - 1 {
      PaintColsHit(c, W, H, pi, pt, y, cols - 1, x);
    } else {
      PaintColsMiss(c, W, H, pi, pt, y, cols - 1, t);
    }
  }

  /** Inside a rectangle that fits the logical width, each painted pixel
      gets the value the pass writes there, and a transparent pixel keeps
      the canvas value. */
  lemma {:induction false} PaintRowsHit(c: seq<Rgba>, W: nat, H: nat, pi: PageInfo, pt: Painter, rows: nat, y: nat, x: nat)
    requires PainterFits(pt, pi) && rows <= RowsPainted(pi, H) && y < rows && x < pi.width
    requires pi.left + pi.width <= W && |c| == W * H
    ensures Target(W, H, pi, y, x) < |c|
    ensures PaintRows(c, W, H, pi, pt, rows)[Target(W, H, pi, y, x)] ==
      (match NewValue(pt, pi, y, x) case Some(v) => v case None => c[Target(W, H, pi, y, x)])
  {
    var t := Target(W, H, pi, y, x);
    var row := H - (y + pi.top) - 1;
    assert (row + 1) * W == row * W + W;
    MulLe(row + 1, H, W);
    var before := PaintRows(c, W, H, pi, pt, rows - 1);
    if y < rows - 1 {
      PaintRowsHit(c, W, H, pi, pt, rows - 1, y, x);
      var last := rows - 1;
      forall x' | 0 <= x' < pi.width
        ensures Target(W, H, pi, last, x') != t
      {
        TargetsDistinct(W, H, pi, y, x, last, x');
      }
      PaintColsMiss(before, W, H, pi, pt, rows - 1, pi.width, t);
    } else {
      forall y', x' | 0 <= y' < rows - 1 && 0 <= x' < pi.width
        ensures Target(W, H, pi, y', x') != t
      {
        TargetsDistinct(W, H, pi, y, x, y', x');
      }
      PaintRowsMiss(c, W, H, pi, pt, rows - 1, t);
      PaintColsHit(before, W, H, pi, pt, y, pi.width, x);
    }
  }

  // ---------------------------------------------------------------------
  // Transparency
  // ---------------------------------------------------------------------

  /** The first index of the transparency table whose alpha is 0. */
  function TransparentIndex(table: seq<byte>): (r: Option<nat>)
    ensures r.Some? ==> r.value < |table| && table[r.value] == 0
    ensures r.Some? ==> forall j :: 0 <= j < r.value ==> table[j] != 0
    ensures r.None? ==> forall j :: 0 <= j < |table| ==> table[j] != 0
  {
    if |table| == 0 then None
    else if table[0] == 0 then Some(0)
    else
      match TransparentIndex(table[1..])
      case None => None
      case Some(i) => Some(i + 1)
  }

  /** The search of the page's transparency table for its transparent
      index. */
  method FindTransparent(table: seq<byte>) returns (have: bool, index: nat)
    ensures have == TransparentIndex(table).Some?
    ensures have ==> index == TransparentIndex(table).value
  {
    have, index := false, 0;
    var i := 0;
    while i < |table|
      invariant i <= |table| && forall j :: 0 <= j < i ==> table[j] != 0
    {
      if table[i] == 0 {
        have, index := true, i;
        break;
      }
      i := i + 1;
    }
  }

  // ---------------------------------------------------------------------
  // Composing the frames
  // ---------------------------------------------------------------------

  /** The frames Load decodes for every recorded page. */
  predicate FramesFit(data: seq<byte>, info: GifOpen.Info, frames: seq<Option<Frame>>)
    requires Readable(data, info)
  {
    && |frames| == |info.offsets.descriptors|
    && forall k :: 0 <= k < |frames| && frames[k].Some? ==> FrameFits(frames[k].value, PageInfoAt(data, info, k))
  }

  /** The canvas after page k is handled on the way to page end, for a
      given disposal method: an earlier page kept for restoring is
      skipped, an earlier page erased to background has its rectangle
      erased without being decoded, any other page is decoded and drawn
      over the canvas. */
  function StepAs(c: seq<Rgba>, data: seq<byte>, info: GifOpen.Info, frames: seq<Option<Frame>>, end: nat, k: nat,
                  disposal: nat): (r: seq<Rgba>)
    requires Readable(data, info) && FramesFit(data, info, frames) && k <= end < |frames|
    ensures |r| == |c|
  {
    var W, H := LogicalWidth(data), LogicalHeight(data);
    var pi := PageInfoAt(data, info, k);
    if k != end && disposal == DISPOSAL_PREVIOUS then c
    else if k != end && disposal == DISPOSAL_BACKGROUND then
      PaintRows(c, W, H, pi, Erase(Background(data, info)), RowsPainted(pi, H))
    else
      match frames[k]
      case None => c
      case Some(f) => PaintRows(c, W, H, pi, Draw(f, TransparentIndex(f.transparency)), RowsPainted(pi, H))
  }

  /** Page k handled with the disposal method the scan records. */
  function Step(c: seq<Rgba>, data: seq<byte>, info: GifOpen.Info, frames: seq<Option<Frame>>, end: nat, k: nat): (r: seq<Rgba>)
    requires Readable(data, info) && FramesFit(data, info, frames) && k <= end < |frames|
    ensures |r| == |c|
  {
    StepAs(c, data, info, frames, end, k, PageInfoAt(data, info, k).disposal)
  }

  /** The canvas after pages lo to hi - 1 are handled. */
  function Played(c: seq<Rgba>, data: seq<byte>, info: GifOpen.Info, frames: seq<Option<Frame>>, end: nat, lo: nat, hi: nat): (r: seq<Rgba>)
    requires Readable(data, info) && FramesFit(data, info, frames) && hi <= end + 1 && end < |frames|
    ensures |r| == |c|
    decreases hi
  {
    if hi <= lo then c
    else Step(Played(c, data, info, frames, end, lo, hi - 1), data, info, frames, end, hi - 1)
  }

  /** The canvas filled with the background. */
  function Canvas(data: seq<byte>, info: GifOpen.Info): seq<Rgba>
    requires Readable(data, info)
  {
    seq(LogicalWidth(data) * LogicalHeight(data), _ => Background(data, info))
  }

  /** The frame time of the requested page, or 0 when it has none. */
  function FrameTime(frames: seq<Option<Frame>>, page: nat): int
    requires page < |frames|
  {
    match frames[page]
    case Some(Frame(_, _, _, Some(t))) => t
    case _ => 0
  }

  /** The composition pass: fill the canvas with the background, find the
      first page to draw, then handle every page from there to the
      requested one. */
  method Playback(data: seq<byte>, info: GifOpen.Info, page: nat, frames: seq<Option<Frame>>)
    returns (canvas: array<Rgba>, delay: int)
    requires Readable(data, info) && FramesFit(data, info, frames) && page < |frames|
    ensures canvas[..] == Played(Canvas(data, info), data, info, frames, page, StartPage(data, info, page), page + 1)
    ensures delay == FrameTime(frames, page)
  {
    var W, H := LogicalWidth(data), LogicalHeight(data);
    var background := Background(data, info);
    canvas := new Rgba[W * H];
    FillCanvas(canvas, W, H, background);
    assert canvas[..] == Canvas(data, info);
    ghost var c0 := canvas[..];
    var start, pageinfo := ScanBack(data, info, page);
    delay := 0;
    var p := start;
    while p <= page
      invariant start <= p <= page + 1
      invariant canvas[..] == Played(c0, data, info, frames, page, start, p)
      invariant delay == if p > page then FrameTime(frames, page) else 0
    {
      PlayPage(canvas, data, info, frames, page, p, pageinfo[page - p], background);
      if p == page && frames[p].Some? && frames[p].value.frameTime.Some? {
        delay := frames[p].value.frameTime.value;
      }
      p := p + 1;
    }
  }

  /** Handles page k of the scan: skipped when it is restored to the
      previous canvas, erased when it is disposed to background, painted
      when it is the requested page or is kept. */
  method PlayPage(canvas: array<Rgba>, data: seq<byte>, info: GifOpen.Info, frames: seq<Option<Frame>>,
                  end: nat, k: nat, pi: PageInfo, background: Rgba)
    requires Readable(data, info) && FramesFit(data, info, frames) && k <= end < |frames|
    requires pi == PageInfoAt(data, info, k) && background == Background(data, info)
    requires canvas.Length == LogicalWidth(data) * LogicalHeight(data)
    modifies canvas
    ensures canvas[..] == Step(old(canvas[..]), data, info, frames, end, k)
  {
    var W, H := LogicalWidth(data), LogicalHeight(data);
    if k != end && pi.disposal == DISPOSAL_PREVIOUS {
      return;
    }
    if k != end && pi.disposal == DISPOSAL_BACKGROUND {
      PaintRect(canvas, W, H, pi, Erase(background));
      return;
    }
    if frames[k].Some? {
      var f := frames[k].value;
      var have, index := FindTransparent(f.transparency);
      PaintRect(canvas, W, H, pi, Draw(f, if have then Some(index) else None));
    }
  }

  /** Fills the canvas with the background, scanline by scanline. */
  method FillCanvas(canvas: array<Rgba>, W: nat, H: nat, background: Rgba)
    requires canvas.Length == W * H
    modifies canvas
    ensures forall i :: 0 <= i < canvas.Length ==> canvas[i] == background
  {
    for y := 0 to H
      invariant forall i :: 0 <= i < y * W ==> canvas[i] == background
    {
      MulLe(y + 1, H, W);
      for x := 0 to W
        invariant forall i :: 0 <= i < y * W + x ==> canvas[i] == background
      {
        canvas[y * W + x] := background;
      }
    }
  }

  // ---------------------------------------------------------------------
  // What playback promises
  // ---------------------------------------------------------------------

  /** The first page drawn follows an earlier full-screen page that is
      erased to background, or is a full-screen page that is opaque and
      kept, or is page 0; no page between it and the requested one stops
      the scan. */
  lemma StartPageIs(data: seq<byte>, info: GifOpen.Info, page: nat)
    requires Readable(data, info) && page < |info.offsets.descriptors|
    ensures var start := StartPage(data, info, page);
      && (forall j :: start < j < page ==> !Stops(data, info, j))
      && (start < page && Stops(data, info, start) ==> PageInfoAt(data, info, start).disposal != DISPOSAL_BACKGROUND)
      && (start > 0 ==>
            || (Stops(data, info, start - 1) && PageInfoAt(data, info, start - 1).disposal == DISPOSAL_BACKGROUND)
            || (Stops(data, info, start) && PageInfoAt(data, info, start).disposal != DISPOSAL_BACKGROUND))
      && (start == 0 ==> forall j :: 0 < j < page ==> !Stops(data, info, j))
  {
    var s := LastStop(data, info, page);
    var start := StartPage(data, info, page);
    if s >= 0 && PageInfoAt(data, info, s).disposal == DISPOSAL_BACKGROUND {
      assert start == s + 1;
    }
  }

  /** A pixel outside every painted position of page k's rectangle keeps
      its value. */
  lemma StepMiss(c: seq<Rgba>, data: seq<byte>, info: GifOpen.Info, frames: seq<Option<Frame>>, end: nat, k: nat, i: nat)
    requires Readable(data, info) && FramesFit(data, info, frames) && k <= end < |frames| && i < |c|
    requires var pi := PageInfoAt(data, info, k);
      forall y, x :: 0 <= y < RowsPainted(pi, LogicalHeight(data)) && 0 <= x < pi.width ==>
        Target(LogicalWidth(data), LogicalHeight(data), pi, y, x) != i
    ensures Step(c, data, info, frames, end, k)[i] == c[i]
  {
    var W, H := LogicalWidth(data), LogicalHeight(data);
    var pi := PageInfoAt(data, info, k);
    if k != end && pi.disposal == DISPOSAL_PREVIOUS {
    } else if k != end && pi.disposal == DISPOSAL_BACKGROUND {
      PaintRowsMiss(c, W, H, pi, Erase(Background(data, info)), RowsPainted(pi, H), i);
    } else if frames[k].Some? {
      var f := frames[k].value;
      PaintRowsMiss(c, W, H, pi, Draw(f, TransparentIndex(f.transparency)), RowsPainted(pi, H), i);
    }
  }

  /** Inside page k's rectangle, when it fits the logical width: an
      earlier page kept for restoring leaves the canvas alone, an earlier
      page erased to background leaves the background, and a drawn page
      leaves its palette colour with alpha 255 except at its transparent
      index, where the canvas keeps its value. */
  lemma StepHit(c: seq<Rgba>, data: seq<byte>, info: GifOpen.Info, frames: seq<Option<Frame>>, end: nat, k: nat, y: nat, x: nat)
    requires Readable(data, info) && FramesFit(data, info, frames) && k <= end < |frames|
    requires |c| == LogicalWidth(data) * LogicalHeight(data)
    requires var pi := PageInfoAt(data, info, k);
      pi.left + pi.width <= LogicalWidth(data) && y < RowsPainted(pi, LogicalHeight(data)) && x < pi.width
    ensures var pi := PageInfoAt(data, info, k);
      var t := Target(LogicalWidth(data), LogicalHeight(data), pi, y, x);
      && t < |c|
      && (k != end && pi.disposal == DISPOSAL_PREVIOUS ==> Step(c, data, info, frames, end, k)[t] == c[t])
      && (k != end && pi.disposal == DISPOSAL_BACKGROUND ==> Step(c, data, info, frames, end, k)[t] == Background(data, info))
      && ((k == end || pi.disposal !in {DISPOSAL_BACKGROUND, DISPOSAL_PREVIOUS}) && frames[k].Some? ==>
            var f := frames[k].value;
            var p := f.rows[pi.height - y - 1][x];
            Step(c, data, info, frames, end, k)[t] ==
              if TransparentIndex(f.transparency) == Some(p as nat) then c[t] else f.palette[p].(alpha := 255))
  {
    var W, H := LogicalWidth(data), LogicalHeight(data);
    var pi := PageInfoAt(data, info, k);
    var rows := RowsPainted(pi, H);
    if k != end && pi.disposal == DISPOSAL_PREVIOUS {
      PaintRowsHit(c, W, H, pi, Erase(Background(data, info)), rows, y, x);
    } else if k != end && pi.disposal == DISPOSAL_BACKGROUND {
      PaintRowsHit(c, W, H, pi, Erase(Background(data, info)), rows, y, x);
    } else if frames[k].Some? {
      var f := frames[k].value;
      PaintRowsHit(c, W, H, pi, Draw(f, TransparentIndex(f.transparency)), rows, y, x);
    } else {
      PaintRowsHit(c, W, H, pi, Erase(Background(data, info)), rows, y, x);
    }
  }

  /** Playback decodes only the pages it draws: the frames of earlier
      pages that are kept for restoring or erased to background never
      affect the canvas. */
  lemma {:induction false} DisposedFramesUnused(c: seq<Rgba>, data: seq<byte>, info: GifOpen.Info,
                                                frames: seq<Option<Frame>>, frames': seq<Option<Frame>>, end: nat, lo: nat, hi: nat)
    requires Readable(data, info) && FramesFit(data, info, frames) && FramesFit(data, info, frames')
    requires hi <= end + 1 && end < |frames|
    requires forall k :: lo <= k < hi && (k == end || PageInfoAt(data, info, k).disposal !in {DISPOSAL_BACKGROUND, DISPOSAL_PREVIOUS}) ==>
      frames[k] == frames'[k]
    ensures Played(c, data, info, frames, end, lo, hi) == Played(c, data, info, frames', end, lo, hi)
    decreases hi
  {
    if lo < hi {
      DisposedFramesUnused(c, data, info, frames, frames', end, lo, hi - 1);
    }
  }

  // ---------------------------------------------------------------------
  // A page without a graphic-control extension
  // ---------------------------------------------------------------------

  /** As written, a page with no graphic-control extension (recorded
      offset 0) takes its packed byte from stream offset 1, the "I" of the
      signature: playback treats it as transparent and, when it is not the
      requested page, erases it to background instead of drawing it. */
  lemma NoGceReadsSignature(data: seq<byte>, info: GifOpen.Info, k: nat)
    requires Readable(data, info) && k < |info.offsets.descriptors| && info.offsets.gces[k] == 0
    requires GifHeader.Validate(data)
    ensures GcePacked(data, info, k) == 0x49
    ensures PageInfoAt(data, info, k).disposal == DISPOSAL_BACKGROUND
    ensures GifHeader.HaveTransparent(GcePacked(data, info, k))
  {
    GifHeader.ValidateExactly(data);
    assert data[1] == data[..6][1];
  }

  /** The disposal method and transparency flag the GIF89a defaults give a
      page: those of its graphic-control extension, or no disposal
      specified and no transparency when it has none. */
  function IntendedControl(data: seq<byte>, info: GifOpen.Info, k: nat): (r: (nat, bool))
    requires Readable(data, info) && k < |info.offsets.descriptors|
    ensures info.offsets.gces[k] == 0 ==> r == (DISPOSAL_UNSPECIFIED, false)
    ensures info.offsets.gces[k] != 0 ==>
      r == (PageInfoAt(data, info, k).disposal, GifHeader.HaveTransparent(GcePacked(data, info, k)))
  {
    if info.offsets.gces[k] == 0 then (DISPOSAL_UNSPECIFIED, false)
    else (GifHeader.Disposal(GcePacked(data, info, k)), GifHeader.HaveTransparent(GcePacked(data, info, k)))
  }

  /** Page k handled with the disposal method of IntendedControl. */
  function IntendedStep(c: seq<Rgba>, data: seq<byte>, info: GifOpen.Info, frames: seq<Option<Frame>>, end: nat, k: nat): (r: seq<Rgba>)
    requires Readable(data, info) && FramesFit(data, info, frames) && k <= end < |frames|
    ensures |r| == |c|
  {
    StepAs(c, data, info, frames, end, k, IntendedControl(data, info, k).0)
  }

  /** As written, a page with no graphic-control extension that is not
      the requested one is erased to the background and never drawn. */
  lemma NoGceErased(c: seq<Rgba>, data: seq<byte>, info: GifOpen.Info, frames: seq<Option<Frame>>, end: nat, k: nat)
    requires Readable(data, info) && FramesFit(data, info, frames) && k < end < |frames|
    requires info.offsets.gces[k] == 0 && GifHeader.Validate(data)
    ensures var pi := PageInfoAt(data, info, k);
      Step(c, data, info, frames, end, k)
        == PaintRows(c, LogicalWidth(data), LogicalHeight(data), pi, Erase(Background(data, info)), RowsPainted(pi, LogicalHeight(data)))
  {
    NoGceReadsSignature(data, info, k);
  }

  /** With the intended defaults, a page with no graphic-control extension
      is never erased to the background: wherever it is in the scan it is
      drawn, opaque except where its own transparency table says so, and
      the scan does not take it as transparent. */
  lemma NoGceDrawn(c: seq<Rgba>, data: seq<byte>, info: GifOpen.Info, frames: seq<Option<Frame>>, end: nat, k: nat)
    requires Readable(data, info) && FramesFit(data, info, frames) && k <= end < |frames|
    requires info.offsets.gces[k] == 0
    ensures !IntendedControl(data, info, k).1
    ensures var pi := PageInfoAt(data, info, k);
      IntendedStep(c, data, info, frames, end, k)
        == match frames[k]
           case None => c
           case Some(f) =>
             PaintRows(c, LogicalWidth(data), LogicalHeight(data), pi, Draw(f, TransparentIndex(f.transparency)), RowsPainted(pi, LogicalHeight(data)))
  {
  }

  /** A page with a graphic-control extension is handled the same way as
      written and with the intended defaults. */
  lemma IntendedStepAgrees(c: seq<Rgba>, data: seq<byte>, info: GifOpen.Info, frames: seq<Option<Frame>>, end: nat, k: nat)
    requires Readable(data, info) && FramesFit(data, info, frames) && k <= end < |frames|
    requires info.offsets.gces[k] != 0
    ensures IntendedStep(c, data, info, frames, end, k) == Step(c, data, info, frames, end, k)
  {
  }

  // ---------------------------------------------------------------------
  // A rectangle wider than the logical screen
  // ---------------------------------------------------------------------

  /** As written, a rectangle is not clipped to the logical width: the
      columns past it land at the start of the next scanline up. Erasing
      a two-row rectangle that starts right of column 0 and runs past the
      right edge overwrites column 0 of the top row, which is outside it. */
  lemma WideFrameSpills(c: seq<Rgba>, W: nat, H: nat, pi: PageInfo, bg: Rgba)
    requires |c| == W * H && W >= 1 && H >= 2
    requires pi.top == 0 && pi.height == 2 && 0 < pi.left < W < pi.left + pi.width <= pi.left + W
    ensures (H - 1) * W < |c| && ((H - 1) * W) % W == 0 < pi.left
    ensures PaintRows(c, W, H, pi, Erase(bg), RowsPainted(pi, H))[(H - 1) * W] == bg
  {
    var t := (H - 1) * W;
    var x := W - pi.left;
    assert (H - 2) * W + W == t;
    assert Target(W, H, pi, 1, x) == t;
    MulLe(H, H, W);
    DivModOf(H - 1, W, 0);
    assert t < |c| by { assert t + W == H * W; }
    var pt := Erase(bg);
    assert RowsPainted(pi, H) == 2;
    PaintColsHit(PaintRows(c, W, H, pi, pt, 1), W, H, pi, pt, 1, pi.width, x);
  }

  /** The rectangle cut at the right edge of the logical screen. */
  function Clip(pi: PageInfo, W: nat): (r: PageInfo)
    ensures r.left == pi.left && r.top == pi.top && r.height == pi.height && r.disposal == pi.disposal
    ensures r.width <= pi.width && (r.width == 0 || r.left + r.width <= W)
  {
    pi.(width := if pi.left >= W then 0 else Min(pi.width, W - pi.left))
  }

  /** The pass over the clipped rectangle touches only the canvas columns
      the rectangle covers, and inside them each pixel gets the value the
      pass writes there. */
  lemma ClippedStaysInside(c: seq<Rgba>, W: nat, H: nat, pi: PageInfo, pt: Painter, i: nat)
    requires PainterFits(pt, pi) && |c| == W * H && i < |c|
    requires i % W < pi.left || i % W >= pi.left + pi.width
    ensures PainterFits(pt, Clip(pi, W)) && RowsPainted(Clip(pi, W), H) == RowsPainted(pi, H)
    ensures PaintRows(c, W, H, Clip(pi, W), pt, RowsPainted(pi, H))[i] == c[i]
  {
    var q := Clip(pi, W);
    ClipFits(pt, pi, W);
    forall y, x | 0 <= y < RowsPainted(q, H) && 0 <= x < q.width
      ensures Target(W, H, q, y, x) != i
    {
      TargetColumn(W, H, q, y, x);
    }
    PaintRowsMiss(c, W, H, q, pt, RowsPainted(q, H), i);
  }

  /** A pixel of a rectangle inside the logical width lands in canvas
      column left + x. */
  lemma TargetColumn(W: nat, H: nat, q: PageInfo, y: nat, x: nat)
    requires y + q.top < H && q.left + x < W
    ensures Target(W, H, q, y, x) % W == q.left + x
  {
    DivModOf(H - (y + q.top) - 1, W, q.left + x);
  }

  lemma ClippedHit(c: seq<Rgba>, W: nat, H: nat, pi: PageInfo, pt: Painter, y: nat, x: nat)
    requires PainterFits(pt, pi) && |c| == W * H
    requires y < RowsPainted(pi, H) && pi.left + x < W && x < pi.width
    ensures PainterFits(pt, Clip(pi, W)) && x < Clip(pi, W).width
    ensures Target(W, H, pi, y, x) < |c|
    ensures PaintRows(c, W, H, Clip(pi, W), pt, RowsPainted(pi, H))[Target(W, H, pi, y, x)] ==
      (match NewValue(pt, pi, y, x) case Some(v) => v case None => c[Target(W, H, pi, y, x)])
  {
    var q := Clip(pi, W);
    ClipFits(pt, pi, W);
    assert q.width == Min(pi.width, W - pi.left) && x < q.width && q.left + q.width <= W;
    assert RowsPainted(q, H) == RowsPainted(pi, H);
    var t := Target(W, H, pi, y, x);
    assert Target(W, H, q, y, x) == t;
    SameNewValue(pt, pi, q, y, x);
    PaintRowsHit(c, W, H, q, pt, RowsPainted(q, H), y, x);
  }

  /** Two rectangles with the same rows give a pixel both hold the same
      value. */
  lemma SameNewValue(pt: Painter, pi: PageInfo, q: PageInfo, y: nat, x: nat)
    requires PainterFits(pt, pi) && PainterFits(pt, q) && q.height == pi.height
    requires y < pi.height && x < pi.width && x < q.width
    ensures NewValue(pt, q, y, x) == NewValue(pt, pi, y, x)
  {
  }

  lemma ClipFits(pt: Painter, pi: PageInfo, W: nat)
    requires PainterFits(pt, pi)
    ensures PainterFits(pt, Clip(pi, W))
  {
  }
}
