/**
 Numbers as most-significant-bit-first bit sequences, and octet buffers as
 the concatenation of their octets' bits.
 */
module Bits {

  type octet = x: int | 0 <= x < 256

  function Pow2(n: nat): (p: nat)
    ensures p >= 1
  {
    if n == 0 then 1 else 2 * Pow2(n - 1)
  }

  function ToBits(v: nat, n: nat): (bits: seq<bool>)
    ensures |bits| == n
  {
    if n == 0 then [] else ToBits(v / 2, n - 1) + [v % 2 == 1]
  }

  function FromBits(bits: seq<bool>): nat {
    if bits == [] then 0
    else 2 * FromBits(bits[..|bits| - 1]) + (if bits[|bits| - 1] then 1 else 0)
  }

  function Zeros(n: nat): (bits: seq<bool>)
    ensures |bits| == n
  {
    seq(n, _ => false)
  }

  /** The bits of an octet buffer, first octet first. */
  function OctetBits(buf: seq<octet>): (bits: seq<bool>)
    ensures |bits| == 8 * |buf|
  {
    if buf == [] then [] else OctetBits(buf[..|buf| - 1]) + ToBits(buf[|buf| - 1], 8)
  }

  /** Bitwise OR of two w-bit words. */
  function OrWide(a: nat, b: nat, w: nat): nat {
    FromBits(seq(w, i requires 0 <= i < w => ToBits(a, w)[i] || ToBits(b, w)[i]))
  }

  /** Bitwise OR of two octets. */
  function Or(a: octet, b: octet): octet {
    OrWideBound(a, b, 8);
    OrWide(a, b, 8)
  }

  // Powers of two

  lemma {:induction false} Pow2Add(m: nat, n: nat)
    ensures Pow2(m + n) == Pow2(m) * Pow2(n)
  {
    if m == 0 {
    } else {
      Pow2Add(m - 1, n);
      calc {
        Pow2(m + n);
        2 * Pow2(m - 1 + n);
        2 * (Pow2(m - 1) * Pow2(n));
        (2 * Pow2(m - 1)) * Pow2(n);
      }
    }
  }

  lemma {:induction false} Pow2Monotone(m: nat, n: nat)
    requires m <= n
    ensures Pow2(m) <= Pow2(n)
    decreases n
  {
    if m < n {
      Pow2Monotone(m, n - 1);
    }
  }

  lemma Pow2Values()
    ensures Pow2(1) == 2 && Pow2(2) == 4 && Pow2(3) == 8 && Pow2(4) == 16
    ensures Pow2(5) == 32 && Pow2(6) == 64 && Pow2(7) == 128 && Pow2(8) == 256
    ensures Pow2(10) == 1024 && Pow2(14) == 16384 && Pow2(16) == 65536
    ensures Pow2(28) == 0x1000_0000
    ensures Pow2(64) == 0x1_0000_0000_0000_0000
  {
    SmallPow2Values();
    hide Pow2;
    Pow2Add(2, 8);
    Pow2Add(6, 8);
    Pow2Add(8, 8);
    Pow2Add(4, 8);
    Pow2Add(12, 16);
    Pow2Add(16, 16);
    Pow2Add(32, 32);
  }

  lemma SmallPow2Values()
    ensures Pow2(0) == 1 && Pow2(1) == 2 && Pow2(2) == 4 && Pow2(3) == 8 && Pow2(4) == 16
    ensures Pow2(5) == 32 && Pow2(6) == 64 && Pow2(7) == 128 && Pow2(8) == 256
  {
    assert Pow2(3) == 8;
    assert Pow2(6) == 64;
  }

  // Numbers and bits

  lemma {:induction false} FromBitsBound(bits: seq<bool>)
    ensures FromBits(bits) < Pow2(|bits|)
    ensures |bits| == 8 ==> FromBits(bits) < 256
  {
    if bits == [] {
    } else {
      FromBitsBound(bits[..|bits| - 1]);
    }
    Pow2Values();
  }

  /** Writing a number in n bits and reading them back gives the number. */
  lemma {:induction false} FromToBits(v: nat, n: nat)
    requires v < Pow2(n)
    ensures FromBits(ToBits(v, n)) == v
  {
    if n == 0 {
    } else {
      FromToBits(v / 2, n - 1);
      assert ToBits(v, n)[..n - 1] == ToBits(v / 2, n - 1);
    }
  }

  lemma {:induction false} ToFromBits(bits: seq<bool>)
    ensures ToBits(FromBits(bits), |bits|) == bits
  {
    if bits == [] {
    } else {
      var init := bits[..|bits| - 1];
      ToFromBits(init);
      assert FromBits(bits) / 2 == FromBits(init);
      assert bits == init + [bits[|bits| - 1]];
    }
  }

  /** Bit j of the n-bit form is the source's `(v >> (n-1-j)) & 1`. */
  lemma {:induction false} ToBitsAt(v: nat, n: nat, j: nat)
    requires j < n
    ensures ToBits(v, n)[j] == ((v / Pow2(n - 1 - j)) % 2 == 1)
  {
    if j == n - 1 {
    } else {
      ToBitsAt(v / 2, n - 1, j);
      DivDiv(v, 2, Pow2(n - 2 - j));
    }
  }

  lemma DivDiv(v: nat, a: nat, b: nat)
    requires a > 0 && b > 0
    ensures a * b > 0 && (v / a) / b == v / (a * b)
  {
    var u, r := v / a, v % a;
    var q, t := u / b, u % b;
    Distribute(v, a, b, u, r, q, t);
    DivUnique(v, a * b, q, a * t + r);
  }

  lemma Distribute(v: nat, a: nat, b: nat, u: nat, r: nat, q: nat, t: nat)
    requires v == a * u + r && r < a && u == b * q + t && t < b
    ensures v == (a * b) * q + (a * t + r) && a * t + r < a * b
  {
    MulBound(a, t, b);
    assert a * (b * q + t) == a * (b * q) + a * t;
    assert a * (b * q) == (a * b) * q;
  }

  lemma MulBound(a: nat, x: nat, b: nat)
    requires x < b
    ensures a * x + a <= a * b
  {
    assert a * b == a * (x + 1) + a * (b - x - 1);
  }

  lemma DivUnique(v: nat, d: nat, q: nat, r: nat)
    requires v == d * q + r && r < d
    ensures v / d == q && v % d == r
  {
    assert v == d * (v / d) + v % d;
    if q < v / d {
      MulBound(d, q, v / d);
    } else if v / d < q {
      MulBound(d, v / d, q);
    }
  }

  lemma {:induction false} ToBitsZero(n: nat)
    ensures ToBits(0, n) == Zeros(n)
  {
    if n == 0 {
    } else {
      ToBitsZero(n - 1);
    }
  }

  /** The low n bits of a number that fits are unaffected by a higher multiple. */
  lemma {:induction false} ToBitsSplit(hi: nat, lo: nat, m: nat, n: nat)
    requires lo < Pow2(n)
    ensures ToBits(hi * Pow2(n) + lo, m + n) == ToBits(hi, m) + ToBits(lo, n)
  {
    if n == 0 {
    } else {
      var v := hi * Pow2(n) + lo;
      assert hi * Pow2(n) == 2 * (hi * Pow2(n - 1));
      assert v / 2 == hi * Pow2(n - 1) + lo / 2;
      assert v % 2 == lo % 2;
      ToBitsSplit(hi, lo / 2, m, n - 1);
      assert ToBits(hi, m) + (ToBits(lo / 2, n - 1) + [lo % 2 == 1]) == (ToBits(hi, m) + ToBits(lo / 2, n - 1))
        + [lo % 2 == 1];
    }
  }

  lemma OrWideBound(a: nat, b: nat, w: nat)
    ensures OrWide(a, b, w) < Pow2(w)
    ensures w == 8 ==> OrWide(a, b, w) < 256
    ensures w == 16 ==> OrWide(a, b, w) < 65536
  {
    hide FromBits, Pow2;
    FromBitsBound(seq(w, i requires 0 <= i < w => ToBits(a, w)[i] || ToBits(b, w)[i]));
    Pow2Values();
  }

  lemma OrWideBits(a: nat, b: nat, w: nat, k: nat)
    requires k < w
    ensures ToBits(OrWide(a, b, w), w)[k] == (ToBits(a, w)[k] || ToBits(b, w)[k])
  {
    ToFromBits(seq(w, i requires 0 <= i < w => ToBits(a, w)[i] || ToBits(b, w)[i]));
  }

  lemma OrBits(a: octet, b: octet, k: nat)
    requires k < 8
    ensures ToBits(Or(a, b), 8)[k] == (ToBits(a, 8)[k] || ToBits(b, 8)[k])
  {
    OrWideBits(a, b, 8, k);
  }

  /** Words that occupy different bits OR to their sum. */
  lemma OrDisjoint(high: nat, low: nat, m: nat, n: nat)
    requires high < Pow2(m) && low < Pow2(n)
    ensures OrWide(high * Pow2(n), low, m + n) == high * Pow2(n) + low
  {
    hide ToBits, FromBits, Pow2, OrWide;
    var a, w := high * Pow2(n), m + n;
    DisjointBits(high, low, m, n, a, w);
    FitsBelow(high, low, m, n);
    OrWideBound(a, low, w);
    assert ToBits(OrWide(a, low, w), w) == ToBits(a + low, w) by { SameWideBits(a, low, w); }
    FromToBits(OrWide(a, low, w), w);
    FromToBits(a + low, w);
  }

  lemma FitsBelow(high: nat, low: nat, m: nat, n: nat)
    requires high < Pow2(m) && low < Pow2(n)
    ensures high * Pow2(n) + low < Pow2(m + n)
  {
    hide Pow2;
    Pow2Add(m, n);
    MulBound(Pow2(n), high, Pow2(m));
  }

  lemma DisjointBits(high: nat, low: nat, m: nat, n: nat, a: nat, w: nat)
    requires low < Pow2(n) && a == high * Pow2(n) && w == m + n
    ensures forall k | 0 <= k < w :: ToBits(a + low, w)[k] == (ToBits(a, w)[k] || ToBits(low, w)[k])
  {
    hide ToBits, Pow2;
    ToBitsSplit(high, 0, m, n);
    ToBitsSplit(0, low, m, n);
    ToBitsSplit(high, low, m, n);
    ToBitsZero(m);
    ToBitsZero(n);
  }

  lemma SameWideBits(a: nat, b: nat, w: nat)
    requires forall k | 0 <= k < w :: ToBits(a + b, w)[k] == (ToBits(a, w)[k] || ToBits(b, w)[k])
    ensures ToBits(OrWide(a, b, w), w) == ToBits(a + b, w)
  {
    hide ToBits, OrWide;
    forall k | 0 <= k < w
      ensures ToBits(OrWide(a, b, w), w)[k] == ToBits(a + b, w)[k]
    {
      OrWideBits(a, b, w, k);
    }
  }

  /** Two nibbles put side by side by OR are a sum. */
  lemma OrNibbles(high: nat, low: nat)
    requires high < 16 && low < 16
    ensures Or(16 * high, low) == 16 * high + low
  {
    hide ToBits, OrWide, Pow2;
    assert Pow2(4) == 16 by { Pow2Values(); }
    OrDisjoint(high, low, 4, 4);
  }

  // Octet buffers

  lemma {:induction false} OctetBitsAt(buf: seq<octet>, i: nat, k: nat)
    requires i < |buf| && k < 8
    ensures OctetBits(buf)[8 * i + k] == ToBits(buf[i], 8)[k]
  {
    if i < |buf| - 1 {
      OctetBitsAt(buf[..|buf| - 1], i, k);
    }
  }

  lemma {:induction false} OctetBitsConcat(a: seq<octet>, b: seq<octet>)
    ensures OctetBits(a + b) == OctetBits(a) + OctetBits(b)
  {
    if b == [] {
      assert a + b == a;
    } else {
      var init := b[..|b| - 1];
      assert (a + b)[..|a + b| - 1] == a + init;
      OctetBitsConcat(a, init);
    }
  }

  lemma OctetBitsSplit(buf: seq<octet>, i: nat)
    requires i <= |buf|
    ensures OctetBits(buf)[..8 * i] == OctetBits(buf[..i])
    ensures OctetBits(buf)[8 * i..] == OctetBits(buf[i..])
  {
    hide OctetBits;
    OctetBitsConcat(buf[..i], buf[i..]);
    assert buf == buf[..i] + buf[i..];
  }

  lemma OctetBitsSlice(buf: seq<octet>, i: nat, j: nat)
    requires i <= j <= |buf|
    ensures OctetBits(buf)[8 * i..8 * j] == OctetBits(buf[i..j])
  {
    hide OctetBits;
    OctetBitsSplit(buf, j);
    OctetBitsSplit(buf[..j], i);
    assert buf[i..j] == buf[..j][i..];
    assert OctetBits(buf)[8 * i..8 * j] == OctetBits(buf)[..8 * j][8 * i..];
  }

  /** The buffer holding a whole number of octets of bits. */
  function ToOctets(bits: seq<bool>): (buf: seq<octet>)
    requires |bits| % 8 == 0
    ensures |buf| == |bits| / 8
  {
    if bits == [] then []
    else
      var last := bits[|bits| - 8..];
      FromBitsBound(last);
      ToOctets(bits[..|bits| - 8]) + [FromBits(last)]
  }

  lemma {:induction false} ToOctetsBits(bits: seq<bool>)
    requires |bits| % 8 == 0
    ensures OctetBits(ToOctets(bits)) == bits
  {
    if bits == [] {
    } else {
      ToOctetsBits(bits[..|bits| - 8]);
      ToFromBits(bits[|bits| - 8..]);
      var buf := ToOctets(bits);
      assert buf[..|buf| - 1] == ToOctets(bits[..|bits| - 8]);
      assert bits == bits[..|bits| - 8] + bits[|bits| - 8..];
    }
  }

  lemma {:induction false} ToOctetsOfBits(buf: seq<octet>)
    ensures ToOctets(OctetBits(buf)) == buf
  {
    hide ToBits, FromBits;
    if buf == [] {
    } else {
      var n := |buf| - 1;
      var bits := OctetBits(buf);
      assert bits[..8 * n] == OctetBits(buf[..n]);
      assert bits[8 * n..] == ToBits(buf[n], 8);
      ToOctetsOfBits(buf[..n]);
      assert Pow2(8) == 256 by { Pow2Values(); }
      FromToBits(buf[n], 8);
    }
  }
}
