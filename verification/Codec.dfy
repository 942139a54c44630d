/**
 The codec's cursors: a growing octet buffer written bit by bit, and a fixed
 one read bit by bit. Every method is tied to the functions of Per.dfy on the
 bit sequence it has written or still has to read.
 */
module Codec {
  import opened Wrappers
  import opened Bits
  import opened Per

  type Done = Result<(), Error>

  /** Setting one bit behind the written ones, growing the buffer when it is full. */
  function SetNext(buf: seq<octet>, n: nat, bit: bool): (r: seq<octet>)
    requires |buf| == (n + 7) / 8
  {
    var grown := if n / 8 >= |buf| then buf + [0] else buf;
    if bit then grown[n / 8 := Or(grown[n / 8], Mask(n % 8))] else grown
  }

  /** The octet with only bit k set, counted from the most significant. */
  function Mask(k: nat): octet
    requires k < 8
  {
    SmallPow2Values();
    Pow2(7 - k)
  }

  lemma MaskBits(k: nat, j: nat)
    requires k < 8 && j < 8
    ensures ToBits(Mask(k), 8)[j] == (j == k)
  {
    hide Pow2, ToBits;
    ToBitsSplit(1, 0, k + 1, 7 - k);
    ToBitsZero(7 - k);
    OneBits(k);
  }

  lemma OneBits(k: nat)
    ensures ToBits(1, k + 1) == Zeros(k) + [true]
  {
    ToBitsZero(k);
  }

  /** What the writer's buffer holds: the bits written, then zeros to the octet's end. */
  ghost predicate Holds(buf: seq<octet>, n: nat) {
    |buf| == (n + 7) / 8 && OctetBits(buf) == AppendPad(OctetBits(buf)[..n])
  }

  lemma SetNextBit(buf: seq<octet>, n: nat, bit: bool, j: nat)
    requires Holds(buf, n) && j < 8 * |SetNext(buf, n, bit)|
    ensures OctetBits(SetNext(buf, n, bit))[j]
         == if j < n then OctetBits(buf)[j] else j == n && bit
  {
    hide ToBits, OctetBits, Or, Mask;
    var grown := if n / 8 >= |buf| then buf + [0] else buf;
    var r := SetNext(buf, n, bit);
    GrownBit(buf, n, j);
    OctetBitsAt(grown, j / 8, j % 8);
    OctetBitsAt(r, j / 8, j % 8);
    if bit && j / 8 == n / 8 {
      OrBits(grown[n / 8], Mask(n % 8), j % 8);
      MaskBits(n % 8, j % 8);
    }
  }

  lemma GrownBit(buf: seq<octet>, n: nat, j: nat)
    requires Holds(buf, n)
    requires j < 8 * |if n / 8 >= |buf| then buf + [0] else buf|
    ensures OctetBits(if n / 8 >= |buf| then buf + [0] else buf)[j] == (j < n && OctetBits(buf)[j])
  {
    hide ToBits;
    if n / 8 >= |buf| {
      OctetBitsConcat(buf, [0]);
      ToBitsZero(8);
      assert OctetBits([0]) == ToBits(0, 8) by { assert [0][..0] == []; }
    }
  }

  lemma SetNextLength(buf: seq<octet>, n: nat, bit: bool)
    requires |buf| == (n + 7) / 8
    ensures |SetNext(buf, n, bit)| == (n + 8) / 8
  {
    hide Or, Mask;
  }

  lemma SetNextHolds(buf: seq<octet>, n: nat, bit: bool)
    requires Holds(buf, n)
    ensures Holds(SetNext(buf, n, bit), n + 1)
    ensures OctetBits(SetNext(buf, n, bit))[..n + 1] == OctetBits(buf)[..n] + [bit]
  {
    hide OctetBits, SetNext;
    var r := SetNext(buf, n, bit);
    SetNextLength(buf, n, bit);
    forall j | 0 <= j < 8 * |r|
      ensures OctetBits(r)[j] == if j < n then OctetBits(buf)[j] else j == n && bit
    {
      SetNextBit(buf, n, bit, j);
    }
  }

  lemma HoldsLength(buf: seq<octet>, n: nat)
    requires Holds(buf, n)
    ensures |buf| == (n + 7) / 8
  {
  }

  lemma SetNextIs(buf: seq<octet>, n: nat, bit: bool, r: seq<octet>)
    requires |buf| == (n + 7) / 8
    requires var grown := if n / 8 >= |buf| then buf + [0] else buf;
      r == if bit then grown[n / 8 := Or(grown[n / 8], Mask(n % 8))] else grown
    ensures r == SetNext(buf, n, bit)
  {
  }

  lemma SetNextAppends(buf: seq<octet>, n: nat, start: seq<bool>, bits: seq<bool>, m: nat)
    requires |buf| == (n + 7) / 8 && Holds(buf, n) && m < |bits|
    requires OctetBits(buf)[..n] == start + bits[..m]
    ensures Holds(SetNext(buf, n, bits[m]), n + 1)
    ensures OctetBits(SetNext(buf, n, bits[m]))[..n + 1] == start + bits[..m + 1]
  {
    hide OctetBits, SetNext;
    SetNextHolds(buf, n, bits[m]);
    assert bits[..m + 1] == bits[..m] + [bits[m]];
  }

  class BitWriter {
    var buf: seq<octet>
    var nbit: nat

    ghost predicate Valid()
      reads this
    {
      Holds(buf, nbit)
    }

    /** The bits written so far. */
    ghost function Bits(): (bits: seq<bool>)
      requires Valid()
      reads this
      ensures |bits| == nbit
    {
      OctetBits(buf)[..nbit]
    }

    constructor ()
      ensures Valid() && Bits() == []
    {
      buf, nbit := [], 0;
    }

    method PutBits(value: nat, count: nat)
      requires Valid()
      modifies this
      ensures Valid() && Bits() == old(Bits()) + ToBits(value, count)
    {
      hide ToBits, OctetBits, Holds, SetNext;
      ghost var start, bits := Bits(), ToBits(value, count);
      var i := count - 1;
      while i >= 0
        invariant -1 <= i < count
        invariant Valid() && Bits() == start + bits[..count - 1 - i]
      {
        ghost var before, n := buf, nbit;
        HoldsLength(buf, n);
        var byteIdx := nbit / 8;
        while byteIdx >= |buf|
          invariant nbit == n && (buf == before || (byteIdx >= |before| && buf == before + [0]))
          decreases byteIdx - |buf|
        {
          buf := buf + [0];
        }
        if (value / Pow2(i)) % 2 != 0 {
          buf := buf[byteIdx := Or(buf[byteIdx], Mask(nbit % 8))];
        }
        ToBitsAt(value, count, count - 1 - i);
        SetNextIs(before, n, bits[count - 1 - i], buf);
        SetNextAppends(before, n, start, bits, count - 1 - i);
        nbit := nbit + 1;
        i := i - 1;
      }
      assert bits[..count] == bits;
    }

    method Align()
      requires Valid()
      modifies this
      ensures Valid() && Bits() == AppendPad(old(Bits()))
    {
      var r := nbit % 8;
      if r != 0 {
        ToBitsZero(8 - r);
        PutBits(0, 8 - r);
      }
    }

    /** Whole octets are appended directly: the caller has aligned the writer. */
    method PutOctets(b: seq<octet>)
      requires Valid() && nbit % 8 == 0
      modifies this
      ensures Valid() && Bits() == AppendOctets(old(Bits()), b) && nbit % 8 == 0
    {
      hide OctetBits;
      OctetBitsConcat(buf, b);
      buf := buf + b;
      nbit := nbit + |b| * 8;
    }

    method Octets() returns (b: seq<octet>)
      requires Valid()
      ensures b == ToOctets(AppendPad(Bits()))
    {
      ToOctetsOfBits(buf);
      return buf;
    }
  }

  /** How a reader method agrees with its decoder function, on success and on error. */
  ghost predicate Follows<T>(r: Result<T, Error>, spec: Parsed<T>, before: nat, after: nat, end: nat) {
    match spec
    case Parsed(v, p) => r == Success(v) && before <= after == p <= end
    case Unparsed(e) => r == Failure(e) && before <= after <= end
  }

  class BitReader {
    const buf: seq<octet>
    var nbit: nat

    ghost predicate Valid()
      reads this
    {
      nbit <= 8 * |buf|
    }

    constructor (b: seq<octet>)
      ensures Valid() && buf == b && nbit == 0
    {
      buf, nbit := b, 0;
    }

    method GetBits(count: nat) returns (r: Result<nat, Error>)
      requires Valid()
      modifies this
      ensures Follows(r, ReadBits(OctetBits(buf), old(nbit), count), old(nbit), nbit, 8 * |buf|)
    {
      hide ToBits, FromBits, OctetBits, Pow2, ShiftIn, Word, BitOf;
      ghost var s := OctetBits(buf);
      NoBits(s, nbit);
      var v: nat := 0;
      var i := 0;
      while i < count
        invariant i <= count && nbit == old(nbit) + i <= |s|
        invariant v == Word(FromBits(s[old(nbit)..nbit]))
      {
        var byteIdx := nbit / 8;
        if byteIdx >= |buf| {
          return Failure(UnexpectedEnd);
        }
        var bit := BitOf(buf[byteIdx], nbit % 8);
        NextBit(buf, old(nbit), nbit);
        v := ShiftIn(v, bit);
        nbit := nbit + 1;
        i := i + 1;
      }
      WordIs(FromBits(s[old(nbit)..nbit]));
      return Success(v);
    }

    method Align() returns (r: Done)
      requires Valid()
      modifies this
      ensures Follows(r, ReadPad(OctetBits(buf), old(nbit)), old(nbit), nbit, 8 * |buf|)
    {
      hide FromBits, OctetBits;
      var rem := nbit % 8;
      if rem != 0 {
        var _ :- GetBits(8 - rem);
      }
      return Success(());
    }

    method GetOctets(n: int) returns (r: Result<seq<octet>, Error>)
      requires Valid()
      modifies this
      ensures Follows(r, ReadOctets(OctetBits(buf), old(nbit), n), old(nbit), nbit, 8 * |buf|)
    {
      hide OctetBits, ToOctets;
      if nbit % 8 != 0 {
        return Failure(NotAligned);
      }
      var start := nbit / 8;
      if n < 0 || start + n > |buf| {
        return Failure(UnexpectedEnd);
      }
      OctetBitsSlice(buf, start, start + n);
      ToOctetsOfBits(buf[start..start + n]);
      nbit := nbit + n * 8;
      return Success(buf[start..start + n]);
    }
  }

  lemma NoBits(s: seq<bool>, n: nat)
    requires n <= |s|
    ensures Word(FromBits(s[n..n])) == 0
  {
  }

  /** What a 64-bit word keeps of a number. */
  function Word(n: nat): nat {
    n % UINT64
  }

  lemma WordIs(n: nat)
    ensures Word(n) == n % UINT64
  {
  }

  /** v << 1 | bit in a 64-bit word. */
  function ShiftIn(v: nat, bit: nat): nat {
    (2 * v + bit) % UINT64
  }

  /** Bit k of an octet, counted from the most significant. */
  function BitOf(v: octet, k: nat): nat
    requires k < 8
  {
    (v / Pow2(7 - k)) % 2
  }

  lemma OneMoreBit(s: seq<bool>, start: nat, n: nat)
    requires start <= n < |s|
    ensures FromBits(s[start..n + 1]) == 2 * FromBits(s[start..n]) + if s[n] then 1 else 0
  {
    assert s[start..n + 1][..n - start] == s[start..n];
  }

  lemma BitAt(buf: seq<octet>, n: nat)
    requires n < 8 * |buf|
    ensures BitOf(buf[n / 8], n % 8) == if OctetBits(buf)[n] then 1 else 0
  {
    hide ToBits, OctetBits, Pow2;
    OctetBitsAt(buf, n / 8, n % 8);
    ToBitsAt(buf[n / 8], 8, n % 8);
  }

  lemma ShiftWord(x: nat, bit: nat)
    ensures Word(2 * x + bit) == ShiftIn(Word(x), bit)
  {
    DoubleMod(x, bit, UINT64);
  }

  /** Taking one more bit into the 64-bit word. */
  lemma NextBit(buf: seq<octet>, start: nat, n: nat)
    requires start <= n < 8 * |buf|
    ensures
      var s := OctetBits(buf);
      Word(FromBits(s[start..n + 1])) == ShiftIn(Word(FromBits(s[start..n])), BitOf(buf[n / 8], n % 8))
  {
    hide FromBits, OctetBits, Word, ShiftIn, BitOf;
    var s := OctetBits(buf);
    OneMoreBit(s, start, n);
    BitAt(buf, n);
    ShiftWord(FromBits(s[start..n]), BitOf(buf[n / 8], n % 8));
  }

  lemma DoubleMod(x: nat, bit: nat, m: nat)
    requires m > 0
    ensures (2 * (x % m) + bit) % m == (2 * x + bit) % m
  {
    var q, r := x / m, x % m;
    var a, t := (2 * r + bit) / m, (2 * r + bit) % m;
    DoubleSplit(x, bit, m, q, r, a, t);
    DivUnique(2 * x + bit, m, 2 * q + a, t);
  }

  lemma DoubleSplit(x: nat, bit: nat, m: nat, q: nat, r: nat, a: nat, t: nat)
    requires x == m * q + r && 2 * r + bit == m * a + t
    ensures 2 * x + bit == m * (2 * q + a) + t
  {
    assert m * (2 * q + a) == 2 * (m * q) + m * a;
  }

  /** How a writer method agrees with its encoder function, on success and on error. */
  ghost predicate Wrote(r: Done, spec: Written, before: seq<bool>, after: seq<bool>) {
    && before <= after
    && match spec
       case Success(bits) => r == Success(()) && after == bits
       case Failure(e) => r == Failure(e)
  }

  method BitsForMethod(range: int) returns (n: nat)
    ensures n == BitsFor(range)
    ensures Pow2(n) >= range && forall k: nat | Pow2(k) >= range :: n <= k
  {
    n := 0;
    while Pow2(n) < range
      invariant BitsForFrom(range, 0) == BitsForFrom(range, n)
      decreases range - Pow2(n)
    {
      n := n + 1;
    }
    forall k: nat | Pow2(k) >= range
      ensures n <= k
    {
      BitsForLeast(range, 0, k);
    }
  }

  method PutConstrainedWholeNumber(w: BitWriter, lb: int, ub: int, value: int) returns (r: Done)
    requires w.Valid()
    modifies w
    ensures w.Valid() && Wrote(r, AppendNumber(old(w.Bits()), lb, ub, value), old(w.Bits()), w.Bits())
  {
    hide AppendPad, ToBits;
    if value < lb || value > ub {
      return Failure(ValueOutOfRange);
    }
    var range := ub - lb + 1;
    var v := value - lb;
    if range == 1 {
    } else if range <= 255 {
      var n := BitsForMethod(range);
      w.PutBits(v, n);
    } else if range == 256 {
      w.Align();
      w.PutBits(v, 8);
    } else if range <= 65536 {
      w.Align();
      w.PutBits(v, 16);
    } else {
      return Failure(RangeUnsupported);
    }
    return Success(());
  }

  method GetConstrainedWholeNumber(r: BitReader, lb: int, ub: int) returns (res: Result<int, Error>)
    requires r.Valid()
    modifies r
    ensures Follows(res, ReadNumber(OctetBits(r.buf), old(r.nbit), lb, ub), old(r.nbit), r.nbit, 8 * |r.buf|)
  {
    hide ReadBits, ReadPad, OctetBits, ToBits;
    var range := ub - lb + 1;
    if range == 1 {
      return Success(lb);
    } else if range <= 255 {
      var n := BitsForMethod(range);
      var v :- r.GetBits(n);
      return Success(lb + v);
    } else if range == 256 {
      var _ :- r.Align();
      var v :- r.GetBits(8);
      return Success(lb + v);
    } else if range <= 65536 {
      var _ :- r.Align();
      var v :- r.GetBits(16);
      return Success(lb + v);
    } else {
      return Failure(RangeUnsupported);
    }
  }

  method PutOpenType(w: BitWriter, content: seq<octet>) returns (r: Done)
    requires w.Valid()
    modifies w
    ensures w.Valid() && Wrote(r, AppendOpenType(old(w.Bits()), content), old(w.Bits()), w.Bits())
  {
    hide OctetBits, ToBits, Pow2, Holds, AppendPad;
    w.Align();
    ghost var p := w.Bits();
    var body := content;
    if |body| == 0 {
      body := [0];
    }
    var n := |body|;
    if n <= 127 {
      w.PutBits(n, 8);
    } else if n < 16384 {
      LongLength(n);
      w.PutBits(n + 0x8000, 16);
    } else {
      return Failure(ContentTooLong);
    }
    assert w.Bits() == p + LengthBits(n) && w.nbit % 8 == 0;
    w.PutOctets(body);
    return Success(());
  }

  method GetOpenType(r: BitReader) returns (res: Result<seq<octet>, Error>)
    requires r.Valid()
    modifies r
    ensures Follows(res, ReadOpenType(OctetBits(r.buf), old(r.nbit)), old(r.nbit), r.nbit, 8 * |r.buf|)
  {
    hide ReadBits, ReadPad, ReadOctets, OctetBits;
    var _ :- r.Align();
    var first :- r.GetBits(8);
    var n: nat;
    if (first / 128) % 2 == 0 {
      n := first % 128;
    } else if (first / 64) % 2 == 0 {
      var second :- r.GetBits(8);
      n := (first % 64) * 256 + second;
    } else {
      return Failure(Fragmented);
    }
    res := r.GetOctets(n);
  }
}
