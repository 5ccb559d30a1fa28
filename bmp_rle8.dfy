/** The BI_RLE8 codec of the BMP plugin: the line encoder RLEEncodeLine used
    by Save, the decoder LoadPixelDataRLE8, and the round trip between them
    (Source/Plugins/PluginBMP.cpp). */
module BmpRle8 {
  import opened Wrappers
  import opened Bytes

  // Second bytes of an escape (a first byte of RLE_COMMAND).
  const RLE_COMMAND: byte := 0
  const RLE_ENDOFLINE: byte := 0
  const RLE_ENDOFBITMAP: byte := 1
  const RLE_DELTA: byte := 2

  // ---------------------------------------------------------------------
  // Tokens of an encoded line and their byte layout
  // ---------------------------------------------------------------------

  /** A piece of an encoded line: an encoded run of one repeated byte, or an
      absolute run of literal bytes. */
  datatype Token = Run(count: nat, value: byte) | Literal(bytes: seq<byte>)

  predicate WellFormed(t: Token)
  {
    match t
    case Run(n, _) => 1 <= n <= 255
    case Literal(b) => 3 <= |b| <= 255
  }

  predicate AllWellFormed(ts: seq<Token>)
  {
    forall k :: 0 <= k < |ts| ==> WellFormed(ts[k])
  }

  /** The pixel bytes a token stands for. */
  function Expand(t: Token): seq<byte>
  {
    match t
    case Run(n, v) => Repeat(n, v)
    case Literal(b) => b
  }

  function ExpandAll(ts: seq<Token>): seq<byte>
  {
    if |ts| == 0 then [] else Expand(ts[0]) + ExpandAll(ts[1..])
  }

  /** The number of bytes a token takes in the output: the two bytes of an
      encoded run; the escape, the length, the bytes and, after an odd
      count, one pad byte for an absolute run. */
  function Size(t: Token): nat
  {
    match t
    case Run(_, _) => 2
    case Literal(b) => 2 + |b| + |b| % 2
  }

  function SizeAll(ts: seq<Token>): nat
  {
    if |ts| == 0 then 0 else Size(ts[0]) + SizeAll(ts[1..])
  }

  /** Token t is written at offset pos of data. The pad byte after an odd
      absolute run is stepped over, not written, so it may hold anything. */
  predicate TokenAt(data: seq<byte>, pos: nat, t: Token)
  {
    pos + Size(t) <= |data| &&
    match t
    case Run(n, v) => data[pos] as int == n && data[pos + 1] == v
    case Literal(b) => data[pos] == RLE_COMMAND && data[pos + 1] as int == |b| && data[pos + 2..pos + 2 + |b|] == b
  }

  /** The well-formed tokens ts are written one after the other from pos on. */
  predicate TokensAt(data: seq<byte>, pos: nat, ts: seq<Token>)
    decreases |ts|
  {
    |ts| == 0 || (WellFormed(ts[0]) && TokenAt(data, pos, ts[0]) && TokensAt(data, pos + Size(ts[0]), ts[1..]))
  }

  /** The escape RLE_COMMAND, code is written at pos. */
  predicate EscapeAt(data: seq<byte>, pos: nat, code: byte)
  {
    pos + 1 < |data| && data[pos] == RLE_COMMAND && data[pos + 1] == code
  }

  // ---------------------------------------------------------------------
  // The line encoder as a function
  // ---------------------------------------------------------------------

  /** The tokens written when the literal buffer is emptied: one byte as a run
      of 1, two bytes as two runs of 1, three or more as an absolute run. */
  function Flush(buf: seq<byte>): (ts: seq<Token>)
    requires |buf| <= 255
    ensures |ts| <= 2
  {
    if |buf| == 0 then []
    else if |buf| == 1 then [Run(1, buf[0])]
    else if |buf| == 2 then [Run(1, buf[0]), Run(1, buf[1])]
    else [Literal(buf)]
  }

  /** The end of the run of bytes equal to s[i], extended from j: the scan
      stops at the second-to-last byte, at i + 254, or at a change. */
  function RunEnd(s: seq<byte>, i: nat, j: nat): (r: nat)
    requires i < j < |s| && j <= i + 254
    ensures j <= r < |s| && r <= i + 254
    decreases |s| - j
  {
    if j < |s| - 1 && j < i + 254 && s[j] == s[j + 1] then RunEnd(s, i, j + 1) else j
  }

  /** The scan stops only inside a block of equal bytes: every byte up to
      the end it returns repeats s[i]. */
  lemma {:induction false} RunEndSame(s: seq<byte>, i: nat, j: nat)
    requires i < j < |s| && j <= i + 254
    requires forall k :: i <= k <= j ==> s[k] == s[i]
    ensures forall k :: i <= k <= RunEnd(s, i, j) ==> s[k] == s[i]
    decreases |s| - j
  {
    if j < |s| - 1 && j < i + 254 && s[j] == s[j + 1] {
      RunEndSame(s, i, j + 1);
    }
  }

  /** One byte into the literal buffer: the buffer is emitted as an
      absolute run once it reaches 254 bytes. */
  function Push(buf: seq<byte>, b: byte): (r: (seq<Token>, seq<byte>))
    requires |buf| < 254
    ensures |r.1| < 254
  {
    if |buf| + 1 == 254 then ([Literal(buf + [b])], []) else ([], buf + [b])
  }

  /** The bytes s[k..end] pushed into the literal buffer one at a time. */
  function AppendLiteral(buf: seq<byte>, s: seq<byte>, k: nat, end: nat): (r: (seq<Token>, seq<byte>))
    requires |buf| < 254 && k <= end <= |s|
    ensures |r.1| < 254
    decreases end - k
  {
    if k == end then ([], buf)
    else
      var one := Push(buf, s[k]);
      var rest := AppendLiteral(one.1, s, k + 1, end);
      (one.0 + rest.0, rest.1)
  }

  /** One pass of RLEEncodeLine's main loop at index i: the tokens it emits,
      the index it continues at and the literal buffer it leaves. */
  datatype Step = Step(emitted: seq<Token>, next: nat, buf: seq<byte>)

  /** The last index of the block a pass starts at i: the end of the run of
      bytes equal to s[i] when s[i + 1] repeats it, i itself otherwise. */
  function PassEnd(s: seq<byte>, i: nat): (j: nat)
    requires i < |s|
    ensures i <= j < |s| && j <= i + 254
  {
    if i < |s| - 1 && s[i] == s[i + 1] then RunEnd(s, i, i + 1) else i
  }

  /** A pass consumes a block of bytes that all equal its first. */
  lemma PassEndSame(s: seq<byte>, i: nat)
    requires i < |s|
    ensures forall k :: i <= k <= PassEnd(s, i) ==> s[k] == s[i]
  {
    if i < |s| - 1 && s[i] == s[i + 1] {
      RunEndSame(s, i, i + 1);
    }
  }

  function EncodeStep(s: seq<byte>, i: nat, buf: seq<byte>): (st: Step)
    requires i < |s| && |buf| < 254
    ensures i < st.next <= |s| && |st.buf| < 254
  {
    var j := PassEnd(s, i);
    if j - i + 1 > 3 then Step(Flush(buf) + [Run(j - i + 1, s[i])], j + 1, [])
    else
      var a := AppendLiteral(buf, s, i, j + 1);
      Step(a.0, j + 1, a.1)
  }

  /** The tokens RLEEncodeLine emits for s from index i on, with buf pending
      in its literal buffer. */
  function EncodeFrom(s: seq<byte>, i: nat, buf: seq<byte>): (ts: seq<Token>)
    requires i <= |s| && |buf| < 254
    decreases |s| - i
  {
    if i == |s| then Flush(buf)
    else
      var st := EncodeStep(s, i, buf);
      st.emitted + EncodeFrom(s, st.next, st.buf)
  }

  function LineTokens(s: seq<byte>): (ts: seq<Token>)
  {
    EncodeFrom(s, 0, [])
  }

  lemma AllWellFormedAppend(a: seq<Token>, b: seq<Token>)
    requires AllWellFormed(a) && AllWellFormed(b)
    ensures AllWellFormed(a + b)
  {
    assert forall k :: 0 <= k < |a| ==> (a + b)[k] == a[k];
    assert forall k :: |a| <= k < |a + b| ==> (a + b)[k] == b[k - |a|];
  }

  lemma {:induction false} AppendLiteralWellFormed(buf: seq<byte>, s: seq<byte>, k: nat, end: nat)
    requires |buf| < 254 && k <= end <= |s|
    ensures AllWellFormed(AppendLiteral(buf, s, k, end).0)
    decreases end - k
  {
    if k < end {
      var one := Push(buf, s[k]);
      AppendLiteralWellFormed(one.1, s, k + 1, end);
      AllWellFormedAppend(one.0, AppendLiteral(one.1, s, k + 1, end).0);
    }
  }

  lemma StepWellFormed(s: seq<byte>, i: nat, buf: seq<byte>)
    requires i < |s| && |buf| < 254
    ensures AllWellFormed(EncodeStep(s, i, buf).emitted)
  {
    var j := PassEnd(s, i);
    if j - i + 1 > 3 {
      AllWellFormedAppend(Flush(buf), [Run(j - i + 1, s[i])]);
    } else {
      AppendLiteralWellFormed(buf, s, i, j + 1);
    }
  }

  lemma {:induction false} EncodeFromWellFormed(s: seq<byte>, i: nat, buf: seq<byte>)
    requires i <= |s| && |buf| < 254
    ensures AllWellFormed(EncodeFrom(s, i, buf))
    decreases |s| - i
  {
    if i < |s| {
      var st := EncodeStep(s, i, buf);
      StepWellFormed(s, i, buf);
      EncodeFromWellFormed(s, st.next, st.buf);
      AllWellFormedAppend(st.emitted, EncodeFrom(s, st.next, st.buf));
    }
  }

  /** Every token of an encoded line can be written in the format: runs of
      1 to 255 bytes, absolute runs of 3 to 255 bytes. */
  lemma LineTokensWellFormed(s: seq<byte>)
    ensures AllWellFormed(LineTokens(s))
  {
    EncodeFromWellFormed(s, 0, []);
  }

  /** The number of bytes of an encoded line with tokens ts, end-of-line
      escape included: what RLEEncodeLine returns. */
  function LineSize(ts: seq<Token>): nat
  {
    SizeAll(ts) + 2
  }

  /** An encoded line is written at pos: the tokens ts, then the
      end-of-line escape. */
  predicate LineAt(data: seq<byte>, pos: nat, ts: seq<Token>)
  {
    TokensAt(data, pos, ts) && EscapeAt(data, pos + SizeAll(ts), RLE_ENDOFLINE)
  }

  // ---------------------------------------------------------------------
  // What the encoder emits
  // ---------------------------------------------------------------------

  lemma {:induction false} ExpandAllAppend(a: seq<Token>, b: seq<Token>)
    ensures ExpandAll(a + b) == ExpandAll(a) + ExpandAll(b)
    decreases |a|
  {
    if |a| == 0 {
      assert a + b == b;
    } else {
      assert (a + b)[0] == a[0];
      assert (a + b)[1..] == a[1..] + b;
      ExpandAllAppend(a[1..], b);
    }
  }

  lemma {:induction false} SizeAllAppend(a: seq<Token>, b: seq<Token>)
    ensures SizeAll(a + b) == SizeAll(a) + SizeAll(b)
    decreases |a|
  {
    if |a| == 0 {
      assert a + b == b;
    } else {
      assert (a + b)[0] == a[0];
      assert (a + b)[1..] == a[1..] + b;
      SizeAllAppend(a[1..], b);
    }
  }

  lemma ExpandAllSingle(t: Token)
    ensures ExpandAll([t]) == Expand(t)
  {
    assert ExpandAll([t]) == Expand(t) + ExpandAll([]);
  }

  /** Flushing the literal buffer loses and adds nothing. */
  lemma FlushExpands(buf: seq<byte>)
    requires |buf| <= 255
    ensures ExpandAll(Flush(buf)) == buf
  {
    if |buf| == 1 {
      ExpandAllSingle(Run(1, buf[0]));
      assert Expand(Run(1, buf[0])) == buf;
    } else if |buf| == 2 {
      ExpandAllAppend([Run(1, buf[0])], [Run(1, buf[1])]);
      ExpandAllSingle(Run(1, buf[0]));
      ExpandAllSingle(Run(1, buf[1]));
      assert [Run(1, buf[0])] + [Run(1, buf[1])] == Flush(buf);
      assert Expand(Run(1, buf[0])) + Expand(Run(1, buf[1])) == buf;
    } else if |buf| > 2 {
      ExpandAllSingle(Literal(buf));
    }
  }

  lemma PushExpands(buf: seq<byte>, b: byte)
    requires |buf| < 254
    ensures ExpandAll(Push(buf, b).0) + Push(buf, b).1 == buf + [b]
  {
    if |buf| + 1 == 254 {
      ExpandAllSingle(Literal(buf + [b]));
    }
  }

  /** Pushing bytes into the literal buffer loses and adds nothing. */
  lemma {:induction false} AppendLiteralExpands(buf: seq<byte>, s: seq<byte>, k: nat, end: nat)
    requires |buf| < 254 && k <= end <= |s|
    ensures ExpandAll(AppendLiteral(buf, s, k, end).0) + AppendLiteral(buf, s, k, end).1 == buf + s[k..end]
    decreases end - k
  {
    if k < end {
      AppendLiteralExpands(Push(buf, s[k]).1, s, k + 1, end);
      AppendLiteralStep(buf, s, k, end);
    }
  }

  /** The step of AppendLiteralExpands: one byte pushed, then the rest. */
  lemma AppendLiteralStep(buf: seq<byte>, s: seq<byte>, k: nat, end: nat)
    requires |buf| < 254 && k < end <= |s|
    requires var one := Push(buf, s[k]);
      ExpandAll(AppendLiteral(one.1, s, k + 1, end).0) + AppendLiteral(one.1, s, k + 1, end).1 == one.1 + s[k + 1..end]
    ensures ExpandAll(AppendLiteral(buf, s, k, end).0) + AppendLiteral(buf, s, k, end).1 == buf + s[k..end]
  {
    var one := Push(buf, s[k]);
    var rest := AppendLiteral(one.1, s, k + 1, end);
    assert AppendLiteral(buf, s, k, end) == (one.0 + rest.0, rest.1);
    PushExpands(buf, s[k]);
    ExpandAllAppend(one.0, rest.0);
    assert s[k..end] == [s[k]] + s[k + 1..end];
    Chain(ExpandAll(one.0), ExpandAll(rest.0), rest.1, one.1, buf, [s[k]], s[k + 1..end]);
  }

  lemma RunExpands(s: seq<byte>, i: nat, j: nat)
    requires i <= j < |s| && forall k :: i <= k <= j ==> s[k] == s[i]
    ensures Expand(Run(j - i + 1, s[i])) == s[i..j + 1]
  {
  }

  /** Two steps that each account for their bytes account for both. */
  lemma Chain(e0: seq<byte>, e1: seq<byte>, r1: seq<byte>, o1: seq<byte>, buf: seq<byte>, x: seq<byte>, tail: seq<byte>)
    requires e0 + o1 == buf + x && e1 + r1 == o1 + tail
    ensures (e0 + e1) + r1 == buf + (x + tail)
  {
    calc {
      (e0 + e1) + r1;
      e0 + (e1 + r1);
      e0 + (o1 + tail);
      (e0 + o1) + tail;
      (buf + x) + tail;
    }
  }

  lemma Regroup(x: seq<byte>, y: seq<byte>, z: seq<byte>, b: seq<byte>, c: seq<byte>)
    requires x + y == b + c
    ensures x + (y + z) == b + (c + z)
  {
    calc {
      x + (y + z);
      (x + y) + z;
      (b + c) + z;
      b + (c + z);
    }
  }

  lemma SplitAt(buf: seq<byte>, s: seq<byte>, i: nat, j: nat)
    requires i <= j <= |s|
    ensures buf + s[i..] == buf + (s[i..j] + s[j..])
  {
    assert s[i..] == s[i..j] + s[j..];
  }

  /** One pass of the main loop neither loses nor invents bytes: what it
      emits, followed by the buffer it leaves, spells out the old buffer and
      the bytes it consumed. */
  lemma StepExpands(s: seq<byte>, i: nat, buf: seq<byte>)
    requires i < |s| && |buf| < 254
    ensures ExpandAll(EncodeStep(s, i, buf).emitted) + EncodeStep(s, i, buf).buf
         == buf + s[i..EncodeStep(s, i, buf).next]
  {
    var j := PassEnd(s, i);
    if j - i + 1 > 3 {
      var run := Run(j - i + 1, s[i]);
      assert EncodeStep(s, i, buf) == Step(Flush(buf) + [run], j + 1, []);
      FlushExpands(buf);
      ExpandAllAppend(Flush(buf), [run]);
      ExpandAllSingle(run);
      PassEndSame(s, i);
      RunExpands(s, i, j);
      assert ExpandAll(Flush(buf) + [run]) == buf + s[i..j + 1];
    } else {
      var a := AppendLiteral(buf, s, i, j + 1);
      assert EncodeStep(s, i, buf) == Step(a.0, j + 1, a.1);
      AppendLiteralExpands(buf, s, i, j + 1);
    }
  }

  /** The tokens of a line spell out exactly the pending buffer followed by
      the rest of the line. */
  lemma {:induction false} EncodeFromExpands(s: seq<byte>, i: nat, buf: seq<byte>)
    requires i <= |s| && |buf| < 254
    ensures ExpandAll(EncodeFrom(s, i, buf)) == buf + s[i..]
    decreases |s| - i
  {
    if i == |s| {
      FlushExpands(buf);
    } else {
      var st := EncodeStep(s, i, buf);
      assert EncodeFrom(s, i, buf) == st.emitted + EncodeFrom(s, st.next, st.buf);
      EncodeFromExpands(s, st.next, st.buf);
      StepExpands(s, i, buf);
      ExpandAllAppend(st.emitted, EncodeFrom(s, st.next, st.buf));
      Regroup(ExpandAll(st.emitted), st.buf, s[st.next..], buf, s[i..st.next]);
      SplitAt(buf, s, i, st.next);
    }
  }

  /** A line's tokens decode back to the line. */
  lemma LineTokensExpand(s: seq<byte>)
    ensures ExpandAll(LineTokens(s)) == s
  {
    EncodeFromExpands(s, 0, []);
  }

  // ---------------------------------------------------------------------
  // The encoded line fits the buffer Save allocates
  // ---------------------------------------------------------------------

  /** Output bytes allowed for n source bytes: twice as many, less two once a
      line has four bytes or more. */
  function Budget(n: nat): nat
  {
    if n <= 3 then 2 * n else 2 * n - 2
  }

  lemma BudgetEq(m: nat, n: nat)
    requires m == n
    ensures Budget(m) == Budget(n)
  {
  }

  lemma FlushSize(buf: seq<byte>)
    requires |buf| <= 254
    ensures SizeAll(Flush(buf)) <= Budget(|buf|)
  {
    var ts := Flush(buf);
    if |buf| == 1 {
      assert SizeAll(ts) == Size(ts[0]) + SizeAll([]);
    } else if |buf| == 2 {
      assert ts[1..] == [ts[1]];
      assert SizeAll([ts[1]]) == Size(ts[1]) + SizeAll([]);
      assert SizeAll(ts) == Size(ts[0]) + SizeAll([ts[1]]);
    } else if |buf| > 2 {
      assert SizeAll(ts) == Size(ts[0]) + SizeAll([]);
    }
  }

  lemma PushSize(buf: seq<byte>, b: byte, rest: nat)
    requires |buf| < 254
    ensures SizeAll(Push(buf, b).0) + Budget(|Push(buf, b).1| + rest) <= Budget(|buf| + 1 + rest)
  {
    if |buf| + 1 == 254 {
      var lit := Literal(buf + [b]);
      assert SizeAll([lit]) == Size(lit) + SizeAll([]);
    }
  }

  lemma {:induction false} AppendLiteralSize(buf: seq<byte>, s: seq<byte>, k: nat, end: nat, rest: nat)
    requires |buf| < 254 && k <= end <= |s|
    ensures SizeAll(AppendLiteral(buf, s, k, end).0) + Budget(|AppendLiteral(buf, s, k, end).1| + rest)
         <= Budget(|buf| + (end - k) + rest)
    decreases end - k
  {
    if k < end {
      var one := Push(buf, s[k]);
      var r := AppendLiteral(one.1, s, k + 1, end);
      PushSize(buf, s[k], end - (k + 1) + rest);
      AppendLiteralSize(one.1, s, k + 1, end, rest);
      SizeAllAppend(one.0, r.0);
      BudgetEq(|one.1| + (end - (k + 1)) + rest, |one.1| + (end - (k + 1) + rest));
      BudgetEq(|buf| + 1 + (end - (k + 1) + rest), |buf| + (end - k) + rest);
    }
  }

  lemma RunTokensSize(buf: seq<byte>, run: Token, n: nat, rest: nat)
    requires |buf| < 254 && run.Run? && 4 <= run.count <= 255 && n == run.count
    ensures SizeAll(Flush(buf) + [run]) + Budget(rest) <= Budget(|buf| + n + rest)
  {
    FlushSize(buf);
    SizeAllAppend(Flush(buf), [run]);
    assert SizeAll([run]) == Size(run) + SizeAll([]);
  }

  /** One pass of the main loop spends no more of the budget than the bytes
      it consumes. */
  lemma StepSize(s: seq<byte>, i: nat, buf: seq<byte>)
    requires i < |s| && |buf| < 254
    ensures SizeAll(EncodeStep(s, i, buf).emitted)
          + Budget(|EncodeStep(s, i, buf).buf| + |s| - EncodeStep(s, i, buf).next)
         <= Budget(|buf| + |s| - i)
  {
    var j := PassEnd(s, i);
    var st := EncodeStep(s, i, buf);
    var rest := |s| - (j + 1);
    BudgetEq(|buf| + (j + 1 - i) + rest, |buf| + |s| - i);
    if j - i + 1 > 3 {
      var run := Run(j - i + 1, s[i]);
      assert st == Step(Flush(buf) + [run], j + 1, []);
      RunTokensSize(buf, run, j - i + 1, rest);
      BudgetEq(|st.buf| + |s| - st.next, rest);
    } else {
      var a := AppendLiteral(buf, s, i, j + 1);
      assert st == Step(a.0, j + 1, a.1);
      AppendLiteralSize(buf, s, i, j + 1, rest);
      BudgetEq(|a.1| + rest, |st.buf| + |s| - st.next);
    }
  }

  /** The tokens from index i on, with buf pending, take at most the budget
      of the bytes they stand for. */
  lemma {:induction false} EncodeFromSize(s: seq<byte>, i: nat, buf: seq<byte>)
    requires i <= |s| && |buf| < 254
    ensures SizeAll(EncodeFrom(s, i, buf)) <= Budget(|buf| + |s| - i)
    decreases |s| - i
  {
    if i == |s| {
      FlushSize(buf);
    } else {
      var st := EncodeStep(s, i, buf);
      EncodeFromSize(s, st.next, st.buf);
      StepSize(s, i, buf);
      SizeAllAppend(st.emitted, EncodeFrom(s, st.next, st.buf));
    }
  }

  /** An encoded line never needs more than the 2 * pitch bytes of the buffer
      Save allocates, for a pitch of at least 4 that holds the line. */
  lemma LineFits(s: seq<byte>, pitch: nat)
    requires |s| <= pitch && 4 <= pitch
    ensures LineSize(LineTokens(s)) <= 2 * pitch
  {
    EncodeFromSize(s, 0, []);
  }

  // ---------------------------------------------------------------------
  // Where the encoded bytes are
  // ---------------------------------------------------------------------

  /** The len bytes of d1 from p1 on are the len bytes of d2 from p2 on. */
  predicate Agree(d1: seq<byte>, p1: nat, d2: seq<byte>, p2: nat, len: nat)
  {
    p1 + len <= |d1| && p2 + len <= |d2| && forall k :: 0 <= k < len ==> At(d1, p1, k) == At(d2, p2, k)
  }

  function At(d: seq<byte>, p: nat, k: nat): byte
    requires p + k < |d|
  {
    d[p + k]
  }

  lemma AgreeSplit(d1: seq<byte>, p1: nat, d2: seq<byte>, p2: nat, a: nat, b: nat)
    requires Agree(d1, p1, d2, p2, a + b)
    ensures Agree(d1, p1, d2, p2, a) && Agree(d1, p1 + a, d2, p2 + a, b)
  {
    var q1, q2 := p1 + a, p2 + a;
    forall k | 0 <= k < b ensures At(d1, q1, k) == At(d2, q2, k) {
      assert At(d1, p1, a + k) == At(d2, p2, a + k);
    }
  }

  lemma TokensAtSingle(data: seq<byte>, pos: nat, t: Token)
    ensures TokensAt(data, pos, [t]) == (WellFormed(t) && TokenAt(data, pos, t))
    ensures SizeAll([t]) == Size(t)
  {
    assert [t][1..] == [];
  }

  lemma TokensAssoc(a: seq<Token>, b: seq<Token>, c: seq<Token>)
    ensures (a + b) + c == a + (b + c)
  {
  }

  lemma AgreeTrans(d1: seq<byte>, d2: seq<byte>, d3: seq<byte>, n: nat, m: nat)
    requires Agree(d1, 0, d2, 0, n) && Agree(d2, 0, d3, 0, m) && n <= m
    ensures Agree(d1, 0, d3, 0, n)
  {
    forall k | 0 <= k < n ensures At(d1, 0, k) == At(d3, 0, k) {
      assert At(d1, 0, k) == At(d2, 0, k);
    }
  }

  /** Whether a token is written at a position depends only on the bytes it
      spans there. */
  lemma TokenAtMoves(d1: seq<byte>, p1: nat, d2: seq<byte>, p2: nat, t: Token)
    requires TokenAt(d1, p1, t) && Agree(d1, p1, d2, p2, Size(t))
    ensures TokenAt(d2, p2, t)
  {
    assert At(d1, p1, 0) == At(d2, p2, 0) && At(d1, p1, 1) == At(d2, p2, 1);
    if t.Literal? {
      var b := t.bytes;
      forall k | 0 <= k < |b| ensures d2[p2 + 2..p2 + 2 + |b|][k] == b[k] {
        assert At(d1, p1, 2 + k) == At(d2, p2, 2 + k);
        assert d1[p1 + 2..p1 + 2 + |b|][k] == b[k];
      }
      assert d2[p2 + 2..p2 + 2 + |b|] == b;
    }
  }

  lemma {:induction false} TokensAtMoves(d1: seq<byte>, p1: nat, d2: seq<byte>, p2: nat, ts: seq<Token>)
    requires TokensAt(d1, p1, ts) && Agree(d1, p1, d2, p2, SizeAll(ts))
    ensures TokensAt(d2, p2, ts)
    decreases |ts|
  {
    if |ts| > 0 {
      AgreeSplit(d1, p1, d2, p2, Size(ts[0]), SizeAll(ts[1..]));
      TokenAtMoves(d1, p1, d2, p2, ts[0]);
      TokensAtMoves(d1, p1 + Size(ts[0]), d2, p2 + Size(ts[0]), ts[1..]);
    }
  }

  /** Tokens written back to back spell their concatenation. */
  lemma {:induction false} TokensAtAppend(d: seq<byte>, pos: nat, a: seq<Token>, b: seq<Token>)
    requires TokensAt(d, pos, a) && TokensAt(d, pos + SizeAll(a), b)
    ensures TokensAt(d, pos, a + b) && SizeAll(a + b) == SizeAll(a) + SizeAll(b)
    decreases |a|
  {
    if |a| == 0 {
      assert a + b == b;
    } else {
      assert (a + b)[0] == a[0];
      assert (a + b)[1..] == a[1..] + b;
      TokensAtAppend(d, pos + Size(a[0]), a[1..], b);
    }
  }

  /** Tokens written after bytes that stayed as they were extend the tokens
      written before. */
  lemma Extend(before: seq<byte>, after: seq<byte>, pos: nat, emitted: seq<Token>, more: seq<Token>)
    requires TokensAt(before, pos, emitted) && Agree(before, 0, after, 0, pos + SizeAll(emitted))
    requires TokensAt(after, pos + SizeAll(emitted), more)
    ensures TokensAt(after, pos, emitted + more) && SizeAll(emitted + more) == SizeAll(emitted) + SizeAll(more)
  {
    AgreeSplit(before, 0, after, 0, pos, SizeAll(emitted));
    TokensAtMoves(before, pos, after, pos, emitted);
    TokensAtAppend(after, pos, emitted, more);
  }

  lemma LineAtMoves(d1: seq<byte>, p1: nat, d2: seq<byte>, p2: nat, ts: seq<Token>)
    requires LineAt(d1, p1, ts) && Agree(d1, p1, d2, p2, LineSize(ts))
    ensures LineAt(d2, p2, ts)
  {
    AgreeSplit(d1, p1, d2, p2, SizeAll(ts), 2);
    TokensAtMoves(d1, p1, d2, p2, ts);
    assert At(d1, p1 + SizeAll(ts), 0) == At(d2, p2 + SizeAll(ts), 0);
    assert At(d1, p1 + SizeAll(ts), 1) == At(d2, p2 + SizeAll(ts), 1);
  }

  // ---------------------------------------------------------------------
  // The decoder as a function
  // ---------------------------------------------------------------------

  /** The destination bitmap is the sequence of its scanlines (what
      FreeImage_GetScanLine points at), each pitch bytes long, of which the
      first width hold pixels. There are as many scanlines as the absolute
      value of the header height. */
  datatype Raster = Raster(width: nat, pitch: nat)

  predicate ValidRaster(g: Raster, img: seq<seq<byte>>)
  {
    g.width <= g.pitch && forall r :: 0 <= r < |img| ==> |img[r]| == g.pitch
  }

  /** How decoding ends: TRUE, FALSE, or a read whose size is negative, which
      the source passes on as a huge unsigned size and so writes past the
      scanline (undefined behaviour, not modelled further). */
  datatype Outcome = Success | Failure | Overrun

  /** img with bytes stored one by one into scanline row from column col on,
      stopping at the end of the scanline. The decoder only writes inside the
      width of an existing scanline (WriteRowAt), so the stop never applies
      to a valid raster. */
  function WriteRow(img: seq<seq<byte>>, row: nat, col: nat, bytes: seq<byte>): (r: seq<seq<byte>>)
    ensures |r| == |img|
    decreases |bytes|
  {
    if |bytes| == 0 || row >= |img| || col >= |img[row]| then img
    else WriteRow(img[row := img[row][col := bytes[0]]], row, col + 1, bytes[1..])
  }

  /** Writing inside a scanline replaces exactly the |bytes| bytes from col
      on, and changes no other scanline. */
  lemma {:induction false} WriteRowAt(img: seq<seq<byte>>, row: nat, col: nat, bytes: seq<byte>)
    requires row < |img| && col + |bytes| <= |img[row]|
    ensures WriteRow(img, row, col, bytes)[row] == img[row][..col] + bytes + img[row][col + |bytes|..]
    ensures forall k :: 0 <= k < |img| && k != row ==> WriteRow(img, row, col, bytes)[k] == img[k]
    decreases |bytes|
  {
    if |bytes| == 0 {
      assert img[row][..col] + bytes + img[row][col..] == img[row];
    } else {
      var line := img[row][col := bytes[0]];
      var img1 := img[row := line];
      WriteRowAt(img1, row, col + 1, bytes[1..]);
      assert line[..col + 1] == img[row][..col] + [bytes[0]];
      assert line[col + 1 + |bytes[1..]|..] == img[row][col + |bytes|..];
      assert [bytes[0]] + bytes[1..] == bytes;
    }
  }

  /** Writing x and then y right after it writes x + y. */
  lemma {:induction false} WriteRowConcat(img: seq<seq<byte>>, row: nat, col: nat, x: seq<byte>, y: seq<byte>)
    requires row < |img| && col + |x| + |y| <= |img[row]|
    ensures WriteRow(WriteRow(img, row, col, x), row, col + |x|, y) == WriteRow(img, row, col, x + y)
    decreases |x|
  {
    if |x| == 0 {
      assert x + y == y;
    } else {
      var img1 := img[row := img[row][col := x[0]]];
      WriteRowConcat(img1, row, col + 1, x[1..], y);
      assert (x + y)[0] == x[0] && (x + y)[1..] == x[1..] + y;
    }
  }

  /** LoadPixelDataRLE8 from byte pos of the stream with the cursor at
      (scanline, bits): the outcome and the scanlines it leaves. Running out
      of input fails. zeroSizeReadOk says whether the stream reports success
      for a read of zero bytes, which differs between stream implementations. */
  function Rle8From(data: seq<byte>, pos: nat, scanline: nat, bits: nat, g: Raster,
                    zeroSizeReadOk: bool, img: seq<seq<byte>>): (r: (Outcome, seq<seq<byte>>))
    requires pos <= |data|
    ensures |r.1| == |img|
    decreases |data| - pos, 3
  {
    if pos == |data| then (Failure, img)
    else Rle8Pass(data, pos, scanline, bits, g, zeroSizeReadOk, img)
  }

  /** One pass of the decoding loop: the status byte at pos is an escape or
      the length of an encoded run. */
  function Rle8Pass(data: seq<byte>, pos: nat, scanline: nat, bits: nat, g: Raster,
                    zeroSizeReadOk: bool, img: seq<seq<byte>>): (r: (Outcome, seq<seq<byte>>))
    requires pos < |data|
    ensures |r.1| == |img|
    decreases |data| - pos, 2
  {
    if data[pos] == RLE_COMMAND then
      if pos + 1 == |data| then (Failure, img)
      else Rle8Escape(data, pos, scanline, bits, g, zeroSizeReadOk, img)
    else Rle8Encoded(data, pos, scanline, bits, g, zeroSizeReadOk, img)
  }

  /** The escape byte at pos + 1: end of line, end of bitmap, a delta, or
      the length of an absolute run. */
  function Rle8Escape(data: seq<byte>, pos: nat, scanline: nat, bits: nat, g: Raster,
                      zeroSizeReadOk: bool, img: seq<seq<byte>>): (r: (Outcome, seq<seq<byte>>))
    requires pos + 1 < |data|
    ensures |r.1| == |img|
    decreases |data| - pos, 1
  {
    var esc := data[pos + 1];
    if esc == RLE_ENDOFLINE then Rle8From(data, pos + 2, scanline + 1, 0, g, zeroSizeReadOk, img)
    else if esc == RLE_ENDOFBITMAP then (Success, img)
    else if esc == RLE_DELTA then
      if pos + 3 >= |data| then (Failure, img)
      else Rle8From(data, pos + 4, scanline + data[pos + 3] as nat, bits + data[pos + 2] as nat,
                    g, zeroSizeReadOk, img)
    else Rle8Absolute(data, pos, scanline, bits, g, zeroSizeReadOk, img)
  }

  /** An absolute run of data[pos + 1] bytes, clipped to the width of the
      scanline and followed by a pad byte when its length is odd. */
  function Rle8Absolute(data: seq<byte>, pos: nat, scanline: nat, bits: nat, g: Raster,
                        zeroSizeReadOk: bool, img: seq<seq<byte>>): (r: (Outcome, seq<seq<byte>>))
    requires pos + 1 < |data|
    ensures |r.1| == |img|
    decreases |data| - pos, 0
  {
    var esc := data[pos + 1];
    if scanline >= |img| then (Success, img)
    else
      var count := Min(esc as int, g.width - bits);
      if count < 0 then (Overrun, img)
      else if count == 0 && !zeroSizeReadOk then (Failure, img)
      else if pos + 2 + count > |data| then (Failure, img)
      else
        var img' := WriteRow(img, scanline, bits, data[pos + 2..pos + 2 + count]);
        var p := pos + 2 + count;
        if esc % 2 == 1 then
          if p == |data| then (Failure, img')
          else Rle8From(data, p + 1, scanline, bits + esc as nat, g, zeroSizeReadOk, img')
        else Rle8From(data, p, scanline, bits + esc as nat, g, zeroSizeReadOk, img')
  }

  /** An encoded run: data[pos] copies of the byte at pos + 1, clipped to
      the width of the scanline. */
  function Rle8Encoded(data: seq<byte>, pos: nat, scanline: nat, bits: nat, g: Raster,
                       zeroSizeReadOk: bool, img: seq<seq<byte>>): (r: (Outcome, seq<seq<byte>>))
    requires pos < |data|
    ensures |r.1| == |img|
    decreases |data| - pos, 0
  {
    if scanline >= |img| then (Success, img)
    else if pos + 1 == |data| then (Failure, img)
    else
      var count := Min(data[pos] as int, g.width - bits);
      var n: nat := if count > 0 then count else 0;
      Rle8From(data, pos + 2, scanline, bits + n, g, zeroSizeReadOk, WriteRow(img, scanline, bits, Repeat(n, data[pos + 1])))
  }

  /** The escapes: end of line moves to column 0 of the next scanline, end of
      bitmap stops with success, a delta moves the cursor right and down
      without writing, and any run met at or below the last scanline ends
      decoding with success. */
  lemma EscapeRules(data: seq<byte>, pos: nat, sc: nat, bits: nat, g: Raster, z: bool,
                    img: seq<seq<byte>>)
    requires pos + 1 < |data|
    ensures data[pos] == RLE_COMMAND && data[pos + 1] == RLE_ENDOFLINE ==>
      Rle8From(data, pos, sc, bits, g, z, img) == Rle8From(data, pos + 2, sc + 1, 0, g, z, img)
    ensures data[pos] == RLE_COMMAND && data[pos + 1] == RLE_ENDOFBITMAP ==>
      Rle8From(data, pos, sc, bits, g, z, img) == (Success, img)
    ensures data[pos] == RLE_COMMAND && data[pos + 1] == RLE_DELTA && pos + 3 < |data| ==>
      Rle8From(data, pos, sc, bits, g, z, img)
        == Rle8From(data, pos + 4, sc + data[pos + 3] as nat, bits + data[pos + 2] as nat, g, z, img)
    ensures sc >= |img| && !(data[pos] == RLE_COMMAND && data[pos + 1] <= RLE_DELTA) ==>
      Rle8From(data, pos, sc, bits, g, z, img) == (Success, img)
  {
    assert Rle8From(data, pos, sc, bits, g, z, img) == Rle8Pass(data, pos, sc, bits, g, z, img);
    if data[pos] == RLE_COMMAND {
      assert Rle8Pass(data, pos, sc, bits, g, z, img) == Rle8Escape(data, pos, sc, bits, g, z, img);
    }
  }

  lemma WriteRowValid(g: Raster, img: seq<seq<byte>>, row: nat, col: nat, bytes: seq<byte>)
    requires ValidRaster(g, img) && row < |img| && col + |bytes| <= g.width
    ensures ValidRaster(g, WriteRow(img, row, col, bytes))
  {
    WriteRowAt(img, row, col, bytes);
  }

  /** after has the scanlines of before, with the same bytes past the width. */
  predicate SamePadding(g: Raster, before: seq<seq<byte>>, after: seq<seq<byte>>)
  {
    ValidRaster(g, before) && ValidRaster(g, after) && |after| == |before| &&
    forall r :: 0 <= r < |before| ==> after[r][g.width..] == before[r][g.width..]
  }

  lemma WriteRowKeepsPadding(g: Raster, img: seq<seq<byte>>, row: nat, col: nat, bytes: seq<byte>)
    requires ValidRaster(g, img) && row < |img| && col + |bytes| <= g.width
    ensures SamePadding(g, img, WriteRow(img, row, col, bytes))
  {
    WriteRowAt(img, row, col, bytes);
    var line := img[row][..col] + bytes + img[row][col + |bytes|..];
    assert line[g.width..] == img[row][g.width..];
  }

  /** Runs are clipped to the pixels of the scanline: whatever the stream
      holds, decoding never changes the bytes of a scanline past its width. */
  lemma {:induction false} DecodeKeepsPadding(data: seq<byte>, pos: nat, sc: nat, bits: nat, g: Raster,
                                              z: bool, img: seq<seq<byte>>)
    requires pos <= |data| && ValidRaster(g, img)
    ensures SamePadding(g, img, Rle8From(data, pos, sc, bits, g, z, img).1)
    decreases |data| - pos, 1
  {
    if pos < |data| {
      assert Rle8From(data, pos, sc, bits, g, z, img) == Rle8Pass(data, pos, sc, bits, g, z, img);
      if data[pos] != RLE_COMMAND {
        EncodedKeepsPadding(data, pos, sc, bits, g, z, img);
      } else if pos + 1 < |data| {
        assert Rle8Pass(data, pos, sc, bits, g, z, img) == Rle8Escape(data, pos, sc, bits, g, z, img);
        EscapeKeepsPadding(data, pos, sc, bits, g, z, img);
      }
    }
  }

  lemma {:induction false} EscapeKeepsPadding(data: seq<byte>, pos: nat, sc: nat, bits: nat, g: Raster,
                                              z: bool, img: seq<seq<byte>>)
    requires pos + 1 < |data| && ValidRaster(g, img)
    ensures SamePadding(g, img, Rle8Escape(data, pos, sc, bits, g, z, img).1)
    decreases |data| - pos, 0
  {
    var esc := data[pos + 1];
    if esc == RLE_ENDOFLINE {
      DecodeKeepsPadding(data, pos + 2, sc + 1, 0, g, z, img);
    } else if esc == RLE_DELTA {
      if pos + 3 < |data| {
        DecodeKeepsPadding(data, pos + 4, sc + data[pos + 3] as nat, bits + data[pos + 2] as nat, g, z, img);
      }
    } else if esc != RLE_ENDOFBITMAP && sc < |img| {
      assert Rle8Escape(data, pos, sc, bits, g, z, img) == Rle8Absolute(data, pos, sc, bits, g, z, img);
      var count := Min(esc as int, g.width - bits);
      if count >= 0 && (count > 0 || z) && pos + 2 + count <= |data| {
        var img' := WriteRow(img, sc, bits, data[pos + 2..pos + 2 + count]);
        WriteRowKeepsPadding(g, img, sc, bits, data[pos + 2..pos + 2 + count]);
        var p := pos + 2 + count;
        var q := if esc % 2 == 1 then p + 1 else p;
        if q <= |data| {
          DecodeKeepsPadding(data, q, sc, bits + esc as nat, g, z, img');
        }
      }
    }
  }

  lemma {:induction false} EncodedKeepsPadding(data: seq<byte>, pos: nat, sc: nat, bits: nat, g: Raster,
                                               z: bool, img: seq<seq<byte>>)
    requires pos < |data| && ValidRaster(g, img)
    ensures SamePadding(g, img, Rle8Encoded(data, pos, sc, bits, g, z, img).1)
    decreases |data| - pos, 0
  {
    if sc < |img| && pos + 1 < |data| {
      var count := Min(data[pos] as int, g.width - bits);
      var n: nat := if count > 0 then count else 0;
      var img' := WriteRow(img, sc, bits, Repeat(n, data[pos + 1]));
      if n > 0 {
        WriteRowKeepsPadding(g, img, sc, bits, Repeat(n, data[pos + 1]));
      } else {
        assert img' == img;
      }
      DecodeKeepsPadding(data, pos + 2, sc, bits + n, g, z, img');
    }
  }

  // ---------------------------------------------------------------------
  // Decoding what the encoder writes
  // ---------------------------------------------------------------------

  lemma DecodeRun(data: seq<byte>, pos: nat, row: nat, col: nat, g: Raster, z: bool,
                  img: seq<seq<byte>>, n: nat, v: byte)
    requires 1 <= n <= 255 && pos + 1 < |data| && data[pos] == n as byte && data[pos + 1] == v
    requires row < |img| && col + n <= g.width
    ensures Rle8From(data, pos, row, col, g, z, img)
         == Rle8From(data, pos + 2, row, col + n, g, z, WriteRow(img, row, col, Repeat(n, v)))
  {
    assert data[pos] as int == n;
    assert Rle8From(data, pos, row, col, g, z, img) == Rle8Pass(data, pos, row, col, g, z, img)
        == Rle8Encoded(data, pos, row, col, g, z, img);
  }

  lemma DecodeLiteral(data: seq<byte>, pos: nat, row: nat, col: nat, g: Raster, z: bool,
                      img: seq<seq<byte>>, b: seq<byte>)
    requires 3 <= |b| <= 255 && pos + 2 + |b| + |b| % 2 <= |data|
    requires data[pos] == RLE_COMMAND && data[pos + 1] == |b| as byte && data[pos + 2..pos + 2 + |b|] == b
    requires row < |img| && col + |b| <= g.width
    ensures Rle8From(data, pos, row, col, g, z, img)
         == Rle8From(data, pos + 2 + |b| + |b| % 2, row, col + |b|, g, z, WriteRow(img, row, col, b))
  {
    assert (|b| as byte) as int == |b|;
    assert Rle8From(data, pos, row, col, g, z, img) == Rle8Pass(data, pos, row, col, g, z, img)
        == Rle8Escape(data, pos, row, col, g, z, img) == Rle8Absolute(data, pos, row, col, g, z, img);
  }

  /** A well-formed token written at pos, fitting the rest of the scanline,
      is decoded into exactly its bytes, after which decoding continues at the
      byte after it (after the pad byte of an odd absolute run). */
  lemma DecodeToken(data: seq<byte>, pos: nat, row: nat, col: nat, g: Raster, z: bool,
                    img: seq<seq<byte>>, t: Token)
    requires WellFormed(t) && TokenAt(data, pos, t)
    requires row < |img| && col + |Expand(t)| <= g.width
    ensures Rle8From(data, pos, row, col, g, z, img)
         == Rle8From(data, pos + Size(t), row, col + |Expand(t)|, g, z, WriteRow(img, row, col, Expand(t)))
  {
    match t
    case Run(n, v) =>
      DecodeRun(data, pos, row, col, g, z, img, n, v);
    case Literal(b) =>
      DecodeLiteral(data, pos, row, col, g, z, img, b);
  }

  /** img with the bytes of the tokens written one token after the other
      into scanline row, from column col on. */
  function WriteTokens(img: seq<seq<byte>>, row: nat, col: nat, ts: seq<Token>): (r: seq<seq<byte>>)
    ensures |r| == |img|
    decreases |ts|
  {
    if |ts| == 0 then img
    else WriteTokens(WriteRow(img, row, col, Expand(ts[0])), row, col + |Expand(ts[0])|, ts[1..])
  }

  /** Writing the tokens one by one writes their expansion. */
  lemma {:induction false} WriteTokensExpand(img: seq<seq<byte>>, row: nat, col: nat, ts: seq<Token>)
    requires row < |img| && col + |ExpandAll(ts)| <= |img[row]|
    ensures WriteTokens(img, row, col, ts) == WriteRow(img, row, col, ExpandAll(ts))
    decreases |ts|
  {
    if |ts| > 0 {
      var x := Expand(ts[0]);
      var img1 := WriteRow(img, row, col, x);
      WriteRowAt(img, row, col, x);
      WriteTokensExpand(img1, row, col + |x|, ts[1..]);
      WriteRowConcat(img, row, col, x, ExpandAll(ts[1..]));
    }
  }

  /** Tokens written back to back, from pos to end, are decoded into their
      bytes, from column col to colEnd. */
  lemma {:induction false} DecodeTokens(data: seq<byte>, pos: nat, end: nat, row: nat, col: nat,
                                        colEnd: nat, g: Raster, z: bool, img: seq<seq<byte>>,
                                        ts: seq<Token>)
    requires TokensAt(data, pos, ts) && end == pos + SizeAll(ts) && end <= |data|
    requires colEnd == col + |ExpandAll(ts)| && row < |img| && colEnd <= g.width
    ensures Rle8From(data, pos, row, col, g, z, img)
         == Rle8From(data, end, row, colEnd, g, z, WriteTokens(img, row, col, ts))
    decreases |ts|
  {
    if |ts| > 0 {
      var t := ts[0];
      DecodeTokens(data, pos + Size(t), end, row, col + |Expand(t)|, colEnd, g, z,
                   WriteRow(img, row, col, Expand(t)), ts[1..]);
      DecodeTokensStep(data, pos, end, row, col, colEnd, g, z, img, ts);
    }
  }

  /** The step of DecodeTokens: the first token, then the others. */
  lemma DecodeTokensStep(data: seq<byte>, pos: nat, end: nat, row: nat, col: nat,
                         colEnd: nat, g: Raster, z: bool, img: seq<seq<byte>>, ts: seq<Token>)
    requires |ts| > 0 && WellFormed(ts[0]) && TokenAt(data, pos, ts[0]) && pos + Size(ts[0]) <= end <= |data|
    requires row < |img| && col + |Expand(ts[0])| <= g.width
    requires var t := ts[0];
      Rle8From(data, pos + Size(t), row, col + |Expand(t)|, g, z, WriteRow(img, row, col, Expand(t)))
      == Rle8From(data, end, row, colEnd, g, z, WriteTokens(WriteRow(img, row, col, Expand(t)), row, col + |Expand(t)|, ts[1..]))
    ensures Rle8From(data, pos, row, col, g, z, img)
         == Rle8From(data, end, row, colEnd, g, z, WriteTokens(img, row, col, ts))
  {
    var t := ts[0];
    var img' := WriteRow(img, row, col, Expand(t));
    assert WriteTokens(img, row, col, ts) == WriteTokens(img', row, col + |Expand(t)|, ts[1..]);
    DecodeToken(data, pos, row, col, g, z, img, t);
  }

  /** An encoded line whose tokens spell out a whole scanline is decoded
      into that scanline, and decoding continues at column 0 of the next
      one. */
  lemma DecodeLine(data: seq<byte>, pos: nat, row: nat, g: Raster, z: bool, img: seq<seq<byte>>,
                   ts: seq<Token>)
    requires LineAt(data, pos, ts)
    requires row < |img| && |ExpandAll(ts)| == g.width <= |img[row]|
    ensures pos + LineSize(ts) <= |data|
    ensures Rle8From(data, pos, row, 0, g, z, img)
         == Rle8From(data, pos + LineSize(ts), row + 1, 0, g, z, WriteRow(img, row, 0, ExpandAll(ts)))
  {
    var p := pos + SizeAll(ts);
    DecodeTokens(data, pos, p, row, 0, g.width, g, z, img, ts);
    WriteTokensExpand(img, row, 0, ts);
    EscapeRules(data, p, row, g.width, g, z, WriteRow(img, row, 0, ExpandAll(ts)));
  }

  /** The encoded lines with tokens encs[from..to] are written one after
      the other from pos on. */
  predicate LinesAt(data: seq<byte>, pos: nat, encs: seq<seq<Token>>, from: nat, to: nat)
    requires from <= to <= |encs|
    decreases |encs| - from
  {
    from == to || (LineAt(data, pos, encs[from]) && LinesAt(data, pos + LineSize(encs[from]), encs, from + 1, to))
  }

  function LinesSize(encs: seq<seq<Token>>, from: nat, to: nat): nat
    requires from <= to <= |encs|
    decreases |encs| - from
  {
    if from == to then 0 else LineSize(encs[from]) + LinesSize(encs, from + 1, to)
  }

  /** The tokens RLEEncodeLine emits for each of the lines. */
  function Encodings(lines: seq<seq<byte>>): (encs: seq<seq<Token>>)
    ensures |encs| == |lines|
  {
    seq(|lines|, k requires 0 <= k < |lines| => LineTokens(lines[k]))
  }

  /** What Save writes for the scanlines: every encoded line, then the
      end-of-bitmap escape. */
  predicate ImageAt(data: seq<byte>, lines: seq<seq<byte>>)
  {
    LinesAt(data, 0, Encodings(lines), 0, |lines|)
    && EscapeAt(data, LinesSize(Encodings(lines), 0, |lines|), RLE_ENDOFBITMAP)
  }

  lemma {:induction false} LinesAtMoves(d1: seq<byte>, p1: nat, d2: seq<byte>, p2: nat, encs: seq<seq<Token>>,
                                        from: nat, to: nat)
    requires from <= to <= |encs|
    requires LinesAt(d1, p1, encs, from, to) && Agree(d1, p1, d2, p2, LinesSize(encs, from, to))
    ensures LinesAt(d2, p2, encs, from, to)
    decreases |encs| - from
  {
    if from < to {
      var n := LineSize(encs[from]);
      AgreeSplit(d1, p1, d2, p2, n, LinesSize(encs, from + 1, to));
      LineAtMoves(d1, p1, d2, p2, encs[from]);
      LinesAtMoves(d1, p1 + n, d2, p2 + n, encs, from + 1, to);
    }
  }

  /** One more line written after the others. */
  lemma {:induction false} LinesAtSnoc(d: seq<byte>, pos: nat, encs: seq<seq<Token>>, from: nat, to: nat)
    requires from <= to < |encs|
    requires LinesAt(d, pos, encs, from, to) && LineAt(d, pos + LinesSize(encs, from, to), encs[to])
    ensures LinesAt(d, pos, encs, from, to + 1)
    ensures LinesSize(encs, from, to + 1) == LinesSize(encs, from, to) + LineSize(encs[to])
    decreases |encs| - from
  {
    if from < to {
      LinesAtSnoc(d, pos + LineSize(encs[from]), encs, from + 1, to);
    }
  }

  /** img with the pixels of scanline k replaced by lines[k], for every k
      from `from` on. */
  function PlaceRows(img: seq<seq<byte>>, lines: seq<seq<byte>>, from: nat): (r: seq<seq<byte>>)
    requires from <= |lines|
    ensures |r| == |img|
    decreases |lines| - from
  {
    if from == |lines| then img
    else PlaceRows(WriteRow(img, from, 0, lines[from]), lines, from + 1)
  }

  /** Scanline k, for k from `from` on, holds lines[k] followed by its old
      padding; the other scanlines are unchanged. */
  lemma {:induction false} PlaceRowsAt(g: Raster, img: seq<seq<byte>>, lines: seq<seq<byte>>, from: nat)
    requires ValidRaster(g, img) && from <= |lines| <= |img|
    requires forall k :: 0 <= k < |lines| ==> |lines[k]| == g.width
    ensures ValidRaster(g, PlaceRows(img, lines, from))
    ensures forall k :: 0 <= k < |img| ==>
      PlaceRows(img, lines, from)[k] == if from <= k < |lines| then lines[k] + img[k][g.width..] else img[k]
    decreases |lines| - from
  {
    if from < |lines| {
      var img1 := WriteRow(img, from, 0, lines[from]);
      WriteRowAt(img, from, 0, lines[from]);
      assert img1[from] == lines[from] + img[from][g.width..];
      PlaceRowsAt(g, img1, lines, from + 1);
    }
  }

  /** The tokens encs[k] spell out lines[k], of the given width, for every k
      from `from` on. */
  predicate Spell(encs: seq<seq<Token>>, lines: seq<seq<byte>>, width: nat, from: nat)
    requires from <= |lines| == |encs|
    decreases |lines| - from
  {
    from == |lines| || (|lines[from]| == width && ExpandAll(encs[from]) == lines[from] && Spell(encs, lines, width, from + 1))
  }

  lemma {:induction false} EncodingsSpell(lines: seq<seq<byte>>, width: nat, from: nat)
    requires from <= |lines| && forall k :: 0 <= k < |lines| ==> |lines[k]| == width
    ensures Spell(Encodings(lines), lines, width, from)
    decreases |lines| - from
  {
    if from < |lines| {
      LineTokensExpand(lines[from]);
      EncodingsSpell(lines, width, from + 1);
    }
  }

  /** Encoded lines from `from` on, each spelling out its scanline, then
      the end-of-bitmap escape, are decoded into those lines, one scanline
      each, with success. */
  lemma {:induction false} DecodeLines(data: seq<byte>, pos: nat, g: Raster, z: bool,
                                       img: seq<seq<byte>>, lines: seq<seq<byte>>,
                                       encs: seq<seq<Token>>, from: nat)
    requires from <= |lines| <= |img| && ValidRaster(g, img) && |encs| == |lines|
    requires LinesAt(data, pos, encs, from, |lines|)
    requires EscapeAt(data, pos + LinesSize(encs, from, |lines|), RLE_ENDOFBITMAP)
    requires Spell(encs, lines, g.width, from)
    ensures Rle8From(data, pos, from, 0, g, z, img) == (Success, PlaceRows(img, lines, from))
    decreases |lines| - from
  {
    if from == |lines| {
      DecodeEnd(data, pos, from, g, z, img);
    } else {
      DecodeLinesNext(data, pos, g, img, lines, encs, from);
      var next, img' := pos + LineSize(encs[from]), WriteRow(img, from, 0, lines[from]);
      DecodeLines(data, next, g, z, img', lines, encs, from + 1);
      DecodeLinesStep(data, pos, g, z, img, lines, encs[from], from);
    }
  }

  /** The end-of-bitmap escape ends decoding with success. */
  lemma DecodeEnd(data: seq<byte>, pos: nat, row: nat, g: Raster, z: bool, img: seq<seq<byte>>)
    requires EscapeAt(data, pos, RLE_ENDOFBITMAP)
    ensures Rle8From(data, pos, row, 0, g, z, img) == (Success, img)
  {
    EscapeRules(data, pos, row, 0, g, z, img);
  }

  /** What DecodeLines needs of the line at from and of the lines after it. */
  lemma DecodeLinesNext(data: seq<byte>, pos: nat, g: Raster, img: seq<seq<byte>>, lines: seq<seq<byte>>,
                        encs: seq<seq<Token>>, from: nat)
    requires from < |lines| <= |img| && ValidRaster(g, img) && |encs| == |lines|
    requires LinesAt(data, pos, encs, from, |lines|)
    requires EscapeAt(data, pos + LinesSize(encs, from, |lines|), RLE_ENDOFBITMAP)
    requires Spell(encs, lines, g.width, from)
    ensures var ts, next := encs[from], pos + LineSize(encs[from]);
      && LineAt(data, pos, ts) && LinesAt(data, next, encs, from + 1, |lines|)
      && EscapeAt(data, next + LinesSize(encs, from + 1, |lines|), RLE_ENDOFBITMAP)
      && ExpandAll(ts) == lines[from] && |lines[from]| == g.width && Spell(encs, lines, g.width, from + 1)
      && next <= |data| && g.width <= |img[from]| && ValidRaster(g, WriteRow(img, from, 0, lines[from]))
  {
    DecodeLineEnd(data, pos, encs[from]);
    WriteRowValid(g, img, from, 0, lines[from]);
  }

  /** The step of DecodeLines: the line at from, then the others. */
  lemma DecodeLinesStep(data: seq<byte>, pos: nat, g: Raster, z: bool, img: seq<seq<byte>>,
                        lines: seq<seq<byte>>, ts: seq<Token>, from: nat)
    requires from < |lines| <= |img| && g.width <= |img[from]|
    requires LineAt(data, pos, ts) && |lines[from]| == g.width && ExpandAll(ts) == lines[from]
    requires pos + LineSize(ts) <= |data|
    requires var img' := WriteRow(img, from, 0, lines[from]);
      Rle8From(data, pos + LineSize(ts), from + 1, 0, g, z, img') == (Success, PlaceRows(img', lines, from + 1))
    ensures Rle8From(data, pos, from, 0, g, z, img) == (Success, PlaceRows(img, lines, from))
  {
    DecodeLine(data, pos, from, g, z, img, ts);
  }

  /** An encoded line lies inside the data. */
  lemma DecodeLineEnd(data: seq<byte>, pos: nat, ts: seq<Token>)
    requires LineAt(data, pos, ts)
    ensures pos + LineSize(ts) <= |data|
  {
  }

  /** Round trip: decoding the bytes Save writes for the scanlines, whatever
      the skipped pad bytes hold, succeeds, puts every line back into the
      pixels of its scanline and leaves everything else as it was. */
  lemma RoundTrip(data: seq<byte>, g: Raster, z: bool, img: seq<seq<byte>>, lines: seq<seq<byte>>)
    requires ImageAt(data, lines) && ValidRaster(g, img)
    requires |lines| <= |img|
    requires forall k :: 0 <= k < |lines| ==> |lines[k]| == g.width
    ensures Rle8From(data, 0, 0, 0, g, z, img).0 == Success
    ensures forall k :: 0 <= k < |lines| ==>
      Rle8From(data, 0, 0, 0, g, z, img).1[k] == lines[k] + img[k][g.width..]
    ensures forall k :: |lines| <= k < |img| ==> Rle8From(data, 0, 0, 0, g, z, img).1[k] == img[k]
  {
    EncodingsSpell(lines, g.width, 0);
    DecodeLines(data, 0, g, z, img, lines, Encodings(lines), 0);
    PlaceRowsAt(g, img, lines, 0);
  }
}
