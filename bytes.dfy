/** Byte sequences, the zero-filled reads of fixed-size headers, and
    integers assembled from bytes. */
module Bytes {
  /** An unsigned 8-bit value. */
  newtype byte = x: int | 0 <= x < 0x100

  /** The n bytes a fixed-size read into a zeroed buffer leaves: the available
      bytes of s followed by zeros where the stream ran out. */
  function PadTo(s: seq<byte>, n: nat): (r: seq<byte>)
    ensures |r| == n
    ensures forall i :: 0 <= i < n ==> r[i] == (if i < |s| then s[i] else 0)
  {
    if n == 0 then []
    else PadTo(s, n - 1) + [if n - 1 < |s| then s[n - 1] else 0]
  }

  /** Unsigned 16-bit little-endian value at offset i. */
  function U16LE(s: seq<byte>, i: nat): (r: nat)
    requires i + 2 <= |s|
    ensures r < 0x1_0000
  {
    s[i] as nat + 256 * s[i + 1] as nat
  }

  /** Unsigned 16-bit big-endian value at offset i. */
  function U16BE(s: seq<byte>, i: nat): (r: nat)
    requires i + 2 <= |s|
    ensures r < 0x1_0000
  {
    256 * s[i] as nat + s[i + 1] as nat
  }

  /** Unsigned 32-bit little-endian value at offset i. */
  function U32LE(s: seq<byte>, i: nat): (r: nat)
    requires i + 4 <= |s|
    ensures r < 0x1_0000_0000
  {
    U16LE(s, i) + 0x1_0000 * U16LE(s, i + 2)
  }

  /** Unsigned 32-bit big-endian value at offset i. */
  function U32BE(s: seq<byte>, i: nat): (r: nat)
    requires i + 4 <= |s|
    ensures r < 0x1_0000_0000
  {
    0x1_0000 * U16BE(s, i) + U16BE(s, i + 2)
  }

  /** Two's-complement reading of a 32-bit unsigned value. */
  function ToInt32(u: nat): (r: int)
    requires u < 0x1_0000_0000
    ensures -0x8000_0000 <= r < 0x8000_0000
    ensures (r - u) % 0x1_0000_0000 == 0
  {
    if u < 0x8000_0000 then u else u - 0x1_0000_0000
  }

  /** Conversion to a 16-bit unsigned C type: reduction modulo 2^16. */
  function ToUInt16(x: int): (r: nat)
    ensures r < 0x1_0000
    ensures (x - r) % 0x1_0000 == 0
  {
    x % 0x1_0000
  }

  /** Conversion to a 32-bit unsigned C type: reduction modulo 2^32. */
  function ToUInt32(x: int): (r: nat)
    ensures r < 0x1_0000_0000
    ensures (x - r) % 0x1_0000_0000 == 0
  {
    x % 0x1_0000_0000
  }

  /** C integer division, which truncates toward zero. */
  function DivTrunc(a: int, b: int): (q: int)
    requires b > 0
    ensures a >= 0 ==> q == a / b
    ensures a < 0 ==> q == -((-a) / b)
  {
    if a >= 0 then a / b else -((-a) / b)
  }

  function Pow2(k: nat): (p: nat)
    ensures p >= 1
  {
    if k == 0 then 1 else 2 * Pow2(k - 1)
  }

  /** x << n on an unbounded natural. */
  function Shl(x: nat, n: nat): nat
  {
    if n == 0 then x else 2 * Shl(x, n - 1)
  }

  /** x >> n on a natural. */
  function Shr(x: nat, n: nat): nat
  {
    if n == 0 then x else Shr(x / 2, n - 1)
  }

  lemma {:induction false} ShlMul(x: nat, n: nat)
    ensures Shl(x, n) == x * Pow2(n)
  {
    if n > 0 {
      var p := Pow2(n - 1);
      ShlMul(x, n - 1);
      assert Shl(x, n) == 2 * (x * p);
      assert 2 * (x * p) == x * (2 * p);
    }
  }

  lemma {:induction false} ShrDiv(x: nat, n: nat)
    ensures Shr(x, n) == x / Pow2(n)
  {
    if n > 0 {
      ShrDiv(x / 2, n - 1);
      DivDiv(x, 2, Pow2(n - 1));
    }
  }

  /** Dividing by a and then by b is dividing by a * b. */
  lemma DivDiv(x: nat, a: nat, b: nat)
    requires a > 0 && b > 0
    ensures x / a / b == x / (a * b)
  {
    var q, r := x / a / b, x / a % b;
    assert x / a == q * b + r;
    assert x == (q * b + r) * a + x % a;
    assert x == q * (a * b) + (r * a + x % a);
    assert r * a + x % a < a * b by {
      assert r <= b - 1;
      MulLe(r, b - 1, a);
      assert (b - 1) * a == a * b - a;
    }
    DivModOf(q, a * b, r * a + x % a);
  }

  /** Bitwise or of two naturals, bit by bit from the lowest. */
  function OrNat(a: nat, b: nat): nat
    decreases a + b
  {
    if a == 0 then b
    else if b == 0 then a
    else 2 * OrNat(a / 2, b / 2) + (if a % 2 == 1 || b % 2 == 1 then 1 else 0)
  }

  /** Or-ing two k-bit values gives a k-bit value. */
  lemma {:induction false} OrNatBound(a: nat, b: nat, k: nat)
    requires a < Pow2(k) && b < Pow2(k)
    ensures OrNat(a, b) < Pow2(k)
    decreases k
  {
    if a != 0 && b != 0 {
      OrNatBound(a / 2, b / 2, k - 1);
    }
  }

  /** Or-ing values with no bit in common adds them. */
  lemma {:induction false} OrNatDisjoint(a: nat, b: nat, c: nat, k: nat)
    requires a == c * Pow2(k) && b < Pow2(k)
    ensures OrNat(a, b) == a + b
    decreases k
  {
    if a != 0 && b != 0 {
      var m := Pow2(k - 1);
      assert a == 2 * (c * m);
      OrNatDisjoint(a / 2, b / 2, c, k - 1);
    }
  }

  /** Bitwise and of two naturals, bit by bit from the lowest. */
  function AndNat(a: nat, b: nat): nat
    decreases a + b
  {
    if a == 0 || b == 0 then 0
    else 2 * AndNat(a / 2, b / 2) + (if a % 2 == 1 && b % 2 == 1 then 1 else 0)
  }

  /** And-ing with 2^k - 1 keeps the k low bits. */
  lemma {:induction false} AndLowBits(x: nat, k: nat)
    ensures AndNat(x, Pow2(k) - 1) == x % Pow2(k)
    decreases k
  {
    if k > 0 && x != 0 {
      var p := Pow2(k - 1);
      assert Pow2(k) == 2 * p;
      AndLowBits(x / 2, k - 1);
      AndMaskStep(x, p);
      SplitLowBit(x, p);
    } else if k == 0 {
      assert Pow2(k) - 1 == 0 && x % Pow2(k) == 0;
    }
  }

  /** The lowest bit of a mask 2p - 1 is set; the rest is p - 1. */
  lemma AndMaskStep(x: nat, p: nat)
    requires x > 0 && p >= 1
    ensures AndNat(x, 2 * p - 1) == 2 * AndNat(x / 2, p - 1) + x % 2
  {
    var m := 2 * p - 1;
    assert m / 2 == p - 1 && m % 2 == 1;
  }

  /** x mod 2p from its lowest bit and the rest mod p. */
  lemma SplitLowBit(x: nat, p: nat)
    requires p >= 1
    ensures x % (2 * p) == 2 * ((x / 2) % p) + x % 2
  {
    var q, r := (x / 2) / p, (x / 2) % p;
    assert x == 2 * (q * p + r) + x % 2;
    assert x == (2 * p) * q + (2 * r + x % 2);
    DivModOf(q, 2 * p, 2 * r + x % 2);
  }

  /** The | operator on bytes. */
  function Or(a: byte, b: byte): byte
  {
    assert Pow2(8) == 0x100;
    OrNatBound(a as nat, b as nat, 8);
    OrNat(a as nat, b as nat) as byte
  }

  /** Row y of h rows of w items each ends inside the h * w items. */
  lemma RowInBuffer(y: nat, h: nat, w: nat)
    requires y < h
    ensures y * w + w <= w * h
  {
    assert (y + 1) * w <= w * h by {
      if w > 0 {
        assert y + 1 <= h;
      }
    }
  }

  /** n copies of v. */
  function Repeat(n: nat, v: byte): (r: seq<byte>)
    ensures |r| == n
  {
    seq(n, _ => v)
  }

  function Min(a: int, b: int): int
  {
    if a < b then a else b
  }

  /** v << 4 stored in a byte. */
  function Shl4(v: byte): byte
  {
    ((v as int * 16) % 256) as byte
  }

  /** Or-ing a low nibble into a byte whose low nibble is clear adds it. */
  lemma OrLowNibble(a: byte, b: byte)
    requires a % 16 == 0 && b < 16
    ensures Or(a, b) == a + b
  {
    assert Pow2(4) == 16;
    OrNatDisjoint(a as nat, b as nat, a as nat / 16, 4);
  }

  /** Or is symmetric. */
  lemma {:induction false} OrNatComm(a: nat, b: nat)
    ensures OrNat(a, b) == OrNat(b, a)
    decreases a + b
  {
    if a != 0 && b != 0 {
      OrNatComm(a / 2, b / 2);
    }
  }

  /** Or-ing bit k into a value below 2^k adds it. */
  lemma OrHighBit(a: byte, k: nat)
    requires k < 8 && a as nat < Pow2(k)
    ensures Pow2(k) < 0x100 && Or(a, Pow2(k) as byte) as nat == a as nat + Pow2(k)
  {
    PowMono(k, 8);
    assert Pow2(8) == 0x100;
    OrNatComm(a as nat, Pow2(k));
    OrNatDisjoint(Pow2(k), a as nat, 1, k);
  }

  /** Powers of two grow. */
  lemma {:induction false} PowMono(j: nat, k: nat)
    requires j < k
    ensures Pow2(j) < Pow2(k)
    decreases k
  {
    if j < k - 1 {
      PowMono(j, k - 1);
    }
  }

  /** A multiple of nc plus a remainder below nc. */
  lemma DivModOf(k: nat, nc: nat, off: nat)
    requires off < nc
    ensures (k * nc + off) / nc == k && (k * nc + off) % nc == off
  {
    var x := k * nc + off;
    var q, m := x / nc, x % nc;
    assert x == q * nc + m;
    if q < k {
      assert (q + 1) * nc == q * nc + nc;
      MulLe(q + 1, k, nc);
    } else if q > k {
      assert (k + 1) * nc == k * nc + nc;
      MulLe(k + 1, q, nc);
    }
  }

  lemma {:induction false} MulLe(a: nat, b: nat, c: nat)
    requires a <= b
    ensures a * c <= b * c
    decreases b - a
  {
    if a < b {
      MulLe(a, b - 1, c);
      assert b * c == (b - 1) * c + c;
    }
  }
}
