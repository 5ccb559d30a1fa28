/** The GIF code stream as a string of bits, lowest bit first: a byte
    contributes its bits from bit 0 up, and a code of a given width the
    same way (Source/Plugins/PluginGIF.cpp:300-303, 374-375). Both the
    compressor's and the decompressor's accumulators are read this way. */
module GifLzwBits {
  import opened Bytes

  /** The low n bits of x, lowest first. */
  function NatBits(x: nat, n: nat): (r: seq<bool>)
    ensures |r| == n
  {
    if n == 0 then [] else [x % 2 == 1] + NatBits(x / 2, n - 1)
  }

  /** The bits of a byte sequence, first byte first. */
  function BitsOf(b: seq<byte>): (r: seq<bool>)
    ensures |r| == 8 * |b|
  {
    if |b| == 0 then [] else BitsOf(b[..|b| - 1]) + NatBits(b[|b| - 1] as nat, 8)
  }

  /** The bits of two byte sequences one after the other. */
  lemma {:induction false} BitsOfAppend(a: seq<byte>, b: seq<byte>)
    ensures BitsOf(a + b) == BitsOf(a) + BitsOf(b)
    decreases |b|
  {
    if |b| > 0 {
      var c := b[..|b| - 1];
      assert (a + b)[..|a + b| - 1] == a + c;
      assert (a + b)[|a + b| - 1] == b[|b| - 1];
      BitsOfAppend(a, c);
      calc {
        BitsOf(a + b);
        BitsOf(a + c) + NatBits(b[|b| - 1] as nat, 8);
        BitsOf(a) + BitsOf(c) + NatBits(b[|b| - 1] as nat, 8);
        BitsOf(a) + (BitsOf(c) + NatBits(b[|b| - 1] as nat, 8));
      }
    } else {
      assert a + b == a;
    }
  }

  /** One more byte at the end of a sequence. */
  lemma BitsOfSnoc(a: seq<byte>, x: byte)
    ensures BitsOf(a + [x]) == BitsOf(a) + NatBits(x as nat, 8)
  {
    assert (a + [x])[..|a|] == a;
  }

  /** A prefix of the bytes gives a prefix of the bits. */
  lemma BitsOfPrefix(b: seq<byte>, i: nat)
    requires i <= |b|
    ensures BitsOf(b[..i]) == BitsOf(b)[..8 * i]
  {
    assert b == b[..i] + b[i..];
    BitsOfAppend(b[..i], b[i..]);
  }

  /** The first a bits of x, then the bits of x >> a. */
  lemma {:induction false} NatBitsSplit(x: nat, a: nat, b: nat)
    ensures NatBits(x, a + b) == NatBits(x, a) + NatBits(Shr(x, a), b)
    decreases a
  {
    if a > 0 {
      NatBitsSplit(x / 2, a - 1, b);
      calc {
        NatBits(x, a + b);
        [x % 2 == 1] + NatBits(x / 2, (a - 1) + b);
        [x % 2 == 1] + (NatBits(x / 2, a - 1) + NatBits(Shr(x, a), b));
        ([x % 2 == 1] + NatBits(x / 2, a - 1)) + NatBits(Shr(x, a), b);
      }
    }
  }

  /** Only the low a bits of x matter to its first a bits. */
  lemma {:induction false} NatBitsLow(x: nat, a: nat)
    ensures NatBits(x % Pow2(a), a) == NatBits(x, a)
    decreases a
  {
    if a > 0 {
      var p := Pow2(a - 1);
      SplitLowBit(x, p);
      NatBitsLow(x / 2, a - 1);
    }
  }

  /** Equal bit strings of width a come from values equal modulo 2^a. */
  lemma {:induction false} NatBitsSame(x: nat, y: nat, a: nat)
    requires NatBits(x, a) == NatBits(y, a)
    ensures x % Pow2(a) == y % Pow2(a)
    decreases a
  {
    if a > 0 {
      var p := Pow2(a - 1);
      assert NatBits(x, a)[0] == NatBits(y, a)[0];
      assert NatBits(x / 2, a - 1) == NatBits(x, a)[1..] == NatBits(y, a)[1..] == NatBits(y / 2, a - 1);
      NatBitsSame(x / 2, y / 2, a - 1);
      SplitLowBit(x, p);
      SplitLowBit(y, p);
    } else {
      assert Pow2(a) == 1;
    }
  }

  /** A value below 2^a followed by y: the bits of x + y * 2^a. */
  lemma NatBitsConcat(x: nat, y: nat, a: nat, b: nat)
    requires x < Pow2(a)
    ensures NatBits(x + y * Pow2(a), a + b) == NatBits(x, a) + NatBits(y, b)
  {
    var v := x + y * Pow2(a);
    NatBitsSplit(v, a, b);
    ShrDiv(v, a);
    DivModOf(y, Pow2(a), x);
    NatBitsLow(v, a);
  }

  /** A value below 2^a written on more bits is padded with zeros. */
  lemma NatBitsWiden(x: nat, a: nat, b: nat)
    requires x < Pow2(a)
    ensures NatBits(x, a + b) == NatBits(x, a) + NatBits(0, b)
  {
    NatBitsConcat(x, 0, a, b);
  }

  /** 2^(a + b) is 2^a * 2^b. */
  lemma {:induction false} PowAdd(a: nat, b: nat)
    ensures Pow2(a + b) == Pow2(a) * Pow2(b)
    decreases a
  {
    if a > 0 {
      PowAdd(a - 1, b);
    }
  }

  /** The accumulator after a code of width w above ps pending bits:
      m_partial |= code << m_partialSize adds the code above them. */
  lemma Append(p: nat, ps: nat, code: nat, w: nat)
    requires p < Pow2(ps) && code < Pow2(w)
    ensures OrNat(p, Shl(code, ps)) == p + code * Pow2(ps)
    ensures p + code * Pow2(ps) < Pow2(ps + w)
    ensures NatBits(p + code * Pow2(ps), ps + w) == NatBits(p, ps) + NatBits(code, w)
  {
    ShlMul(code, ps);
    OrNatComm(p, code * Pow2(ps));
    OrNatDisjoint(code * Pow2(ps), p, code, ps);
    NatBitsConcat(p, code, ps, w);
    PowAdd(ps, w);
    MulLe(code, Pow2(w) - 1, Pow2(ps));
    assert (Pow2(w) - 1) * Pow2(ps) == Pow2(w) * Pow2(ps) - Pow2(ps);
  }

  /** The accumulator after its low w bits are taken: the code is
      m_partial mod 2^w and the rest m_partial >> w. */
  lemma Take(p: nat, ps: nat, w: nat)
    requires w <= ps && p < Pow2(ps)
    ensures NatBits(p, ps) == NatBits(p % Pow2(w), w) + NatBits(Shr(p, w), ps - w)
    ensures Shr(p, w) < Pow2(ps - w)
  {
    NatBitsSplit(p, w, ps - w);
    NatBitsLow(p, w);
    ShrDiv(p, w);
    PowAdd(w, ps - w);
    TakeBound(p, Pow2(w), Pow2(ps - w));
  }

  /** A value below a * b leaves a quotient below b. */
  lemma TakeBound(p: nat, a: nat, b: nat)
    requires a > 0 && p < a * b
    ensures p / a < b
  {
    var q := p / a;
    assert p == q * a + p % a;
    if q >= b {
      MulLe(b, q, a);
      assert false;
    }
  }
}
