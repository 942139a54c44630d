/**
 Aligned PER as functions on bit sequences: an encoder maps the bits written
 so far to the bits written afterwards, a decoder maps a stream and a cursor
 to a value and a later cursor. The classes in Codec.dfy are proved against
 these functions, and the round trips are proved here.
 */
module Per {
  import opened Wrappers
  import opened Bits

  datatype Error =
    | ValueOutOfRange
    | RangeUnsupported
    | ContentTooLong
    | UnexpectedEnd
    | NotAligned
    | Fragmented
    | ExtensionUnsupported
    | UnsupportedAlternative
    | BadFixedLength
    | BadPlmn
    | EmptyPdu
    | InvalidContents
    | InvalidArea
    | InvalidProcedure
    | WrongMessage
    | MissingElement

  /** A decoder's result: a value and the cursor after it, or an error. */
  datatype Parsed<+T> = Parsed(value: T, pos: nat) | Unparsed(error: Error) {
    predicate IsFailure() {
      Unparsed?
    }

    function PropagateFailure<U>(): Parsed<U>
      requires Unparsed?
    {
      Unparsed(error)
    }

    function Extract(): (T, nat)
      requires Parsed?
    {
      (value, pos)
    }
  }

  type Written = Result<seq<bool>, Error>

  // Encoders

  /** Bits missing to the next octet boundary. */
  function PadLength(n: nat): (pad: nat)
    ensures pad < 8 && (n + pad) % 8 == 0
  {
    if n % 8 == 0 then 0 else 8 - n % 8
  }

  function AppendPad(w: seq<bool>): (r: seq<bool>)
    ensures w <= r && |r| % 8 == 0
  {
    w + Zeros(PadLength(|w|))
  }

  /** The least n with 2^n >= range. */
  function BitsFor(range: int): nat {
    BitsForFrom(range, 0)
  }

  function BitsForFrom(range: int, n: nat): (r: nat)
    ensures r >= n && Pow2(r) >= range
    decreases range - Pow2(n)
  {
    if Pow2(n) < range then BitsForFrom(range, n + 1) else n
  }

  lemma {:induction false} BitsForLeast(range: int, n: nat, k: nat)
    requires n <= k && Pow2(k) >= range
    ensures BitsForFrom(range, n) <= k
    decreases k - n
  {
    if Pow2(n) < range {
      BitsForLeast(range, n + 1, k);
    }
  }

  function AppendNumber(w: seq<bool>, lb: int, ub: int, value: int): Written {
    if value < lb || value > ub then Failure(ValueOutOfRange)
    else
      var range := ub - lb + 1;
      if range == 1 then Success(w)
      else if range <= 255 then Success(w + ToBits(value - lb, BitsFor(range)))
      else if range == 256 then Success(AppendPad(w) + ToBits(value - lb, 8))
      else if range <= 65536 then Success(AppendPad(w) + ToBits(value - lb, 16))
      else Failure(RangeUnsupported)
  }

  function AppendOctets(w: seq<bool>, content: seq<octet>): seq<bool> {
    w + OctetBits(content)
  }

  /** An empty open type is written as one zero octet. */
  function Widen(content: seq<octet>): seq<octet> {
    if content == [] then [0] else content
  }

  function LengthBits(n: nat): (bits: seq<bool>)
    ensures |bits| % 8 == 0
  {
    if n <= 127 then ToBits(n, 8) else [true, false] + ToBits(n, 14)
  }

  function AppendOpenType(w: seq<bool>, content: seq<octet>): Written {
    var n := |Widen(content)|;
    if n < 16384 then Success(AppendOctets(AppendPad(w) + LengthBits(n), Widen(content)))
    else Failure(ContentTooLong)
  }

  // Decoders

  /** The reader accumulates into a 64-bit word. */
  const UINT64 := 0x1_0000_0000_0000_0000

  function ReadBits(s: seq<bool>, pos: nat, count: nat): Parsed<nat> {
    if pos + count <= |s| then Parsed(FromBits(s[pos..pos + count]) % UINT64, pos + count)
    else Unparsed(UnexpectedEnd)
  }

  function ReadPad(s: seq<bool>, pos: nat): Parsed<()> {
    if pos + PadLength(pos) <= |s| then Parsed((), pos + PadLength(pos)) else Unparsed(UnexpectedEnd)
  }

  function ReadOctets(s: seq<bool>, pos: nat, n: int): Parsed<seq<octet>> {
    if pos % 8 != 0 then Unparsed(NotAligned)
    else if n < 0 || pos + 8 * n > |s| then Unparsed(UnexpectedEnd)
    else Parsed(ToOctets(s[pos..pos + 8 * n]), pos + 8 * n)
  }

  function ReadNumber(s: seq<bool>, pos: nat, lb: int, ub: int): Parsed<int> {
    var range := ub - lb + 1;
    if range == 1 then Parsed(lb, pos)
    else if range <= 255 then
      var (v, p) :- ReadBits(s, pos, BitsFor(range));
      Parsed(lb + v, p)
    else if range <= 65536 then
      var (_, p) :- ReadPad(s, pos);
      var (v, q) :- ReadBits(s, p, if range == 256 then 8 else 16);
      Parsed(lb + v, q)
    else Unparsed(RangeUnsupported)
  }

  function ReadLength(s: seq<bool>, pos: nat): Parsed<nat> {
    var (first, p) :- ReadBits(s, pos, 8);
    if (first / 128) % 2 == 0 then Parsed(first % 128, p)
    else if (first / 64) % 2 == 0 then
      var (second, q) :- ReadBits(s, p, 8);
      Parsed((first % 64) * 256 + second, q)
    else Unparsed(Fragmented)
  }

  function ReadOpenType(s: seq<bool>, pos: nat): Parsed<seq<octet>> {
    var (_, p) :- ReadPad(s, pos);
    var (n, q) :- ReadLength(s, p);
    ReadOctets(s, q, n)
  }

  // Round trips: whatever was appended to w is read back at cursor |w| of
  // every stream that starts with the result, at any alignment of w.

  lemma FitsUint64(v: nat, n: nat)
    requires n <= 64 && v < Pow2(n)
    ensures v % UINT64 == v
  {
    Pow2Monotone(n, 64);
    Pow2Values();
  }

  lemma BitsReadBack(w: seq<bool>, v: nat, n: nat, s: seq<bool>)
    requires n <= 64 && v < Pow2(n) && w + ToBits(v, n) <= s
    ensures ReadBits(s, |w|, n) == Parsed(v, |w| + n)
  {
    hide ToBits, FromBits, Pow2;
    var r := w + ToBits(v, n);
    assert s[|w|..|w| + n] == r[|w|..|w| + n] == ToBits(v, n);
    FromToBits(v, n);
    FitsUint64(v, n);
  }

  lemma PadReadBack(w: seq<bool>, s: seq<bool>)
    requires AppendPad(w) <= s
    ensures ReadPad(s, |w|) == Parsed((), |AppendPad(w)|)
  {
  }

  lemma OctetsReadBack(w: seq<bool>, content: seq<octet>, s: seq<bool>)
    requires |w| % 8 == 0 && AppendOctets(w, content) <= s
    ensures ReadOctets(s, |w|, |content|) == Parsed(content, |AppendOctets(w, content)|)
  {
    hide OctetBits, ToOctets;
    var r := AppendOctets(w, content);
    assert s[|w|..|w| + 8 * |content|] == r[|w|..|w| + 8 * |content|] == OctetBits(content);
    ToOctetsOfBits(content);
  }

  lemma NumberReadBack(w: seq<bool>, lb: int, ub: int, v: int, s: seq<bool>)
    requires AppendNumber(w, lb, ub, v).Success?
    requires AppendNumber(w, lb, ub, v).value <= s
    ensures ReadNumber(s, |w|, lb, ub) == Parsed(v, |AppendNumber(w, lb, ub, v).value|)
    ensures w <= AppendNumber(w, lb, ub, v).value
  {
    hide ReadBits, ReadPad, AppendPad, ToBits, Pow2;
    var range := ub - lb + 1;
    Pow2Values();
    if range == 1 {
    } else if range <= 255 {
      BitsForLeast(range, 0, 8);
      BitsReadBack(w, v - lb, BitsFor(range), s);
    } else {
      var n := if range == 256 then 8 else 16;
      var p := AppendPad(w);
      assert p <= p + ToBits(v - lb, n) <= s;
      PadReadBack(w, s);
      BitsReadBack(p, v - lb, n, s);
    }
  }

  lemma ShortLengthReadBack(w: seq<bool>, n: nat, s: seq<bool>)
    requires n <= 127 && w + LengthBits(n) <= s
    ensures ReadLength(s, |w|) == Parsed(n, |w| + |LengthBits(n)|)
  {
    hide ReadBits, ToBits, Pow2;
    assert Pow2(8) == 256 by { Pow2Values(); }
    BitsReadBack(w, n, 8, s);
  }

  lemma TwoOctetLengthReadBack(w: seq<bool>, high: nat, low: nat, s: seq<bool>)
    requires 128 <= high < 192 && low < 256
    requires w + (ToBits(high, 8) + ToBits(low, 8)) <= s
    ensures ReadLength(s, |w|) == Parsed((high - 128) * 256 + low, |w| + 16)
  {
    hide ReadBits, ToBits, Pow2;
    assert Pow2(8) == 256 by { Pow2Values(); }
    var h := w + ToBits(high, 8);
    assert h + ToBits(low, 8) == w + (ToBits(high, 8) + ToBits(low, 8));
    assert h <= s;
    BitsReadBack(w, high, 8, s);
    BitsReadBack(h, low, 8, s);
  }

  lemma LongLengthReadBack(w: seq<bool>, n: nat, s: seq<bool>)
    requires 127 < n < 16384 && w + LengthBits(n) <= s
    ensures ReadLength(s, |w|) == Parsed(n, |w| + |LengthBits(n)|)
  {
    hide ReadLength, ToBits, Pow2;
    LengthOctets(n);
    TwoOctetLengthReadBack(w, 128 + n / 256, n % 256, s);
  }

  lemma LengthOctets(n: nat)
    requires 127 < n < 16384
    ensures LengthBits(n) == ToBits(128 + n / 256, 8) + ToBits(n % 256, 8)
  {
    LongLength(n);
    assert Pow2(8) == 256 by { Pow2Values(); }
    ToBitsSplit(128 + n / 256, n % 256, 8, 8);
    assert (128 + n / 256) * 256 + n % 256 == n + 0x8000;
  }

  /** The two-octet length form is the 16-bit number `n | 0x8000`. */
  lemma LongLength(n: nat)
    requires 127 < n < 16384
    ensures LengthBits(n) == ToBits(n + 0x8000, 16)
  {
    assert Pow2(14) == 16384 by { Pow2Values(); }
    ToBitsSplit(2, n, 2, 14);
    assert ToBits(1, 1) == [true];
    assert ToBits(2, 2) == [true, false];
  }

  lemma OpenTypeReadBack(w: seq<bool>, content: seq<octet>, s: seq<bool>)
    requires AppendOpenType(w, content).Success?
    requires AppendOpenType(w, content).value <= s
    ensures ReadOpenType(s, |w|) == Parsed(Widen(content), |AppendOpenType(w, content).value|)
    ensures w <= AppendOpenType(w, content).value
  {
    hide ReadOctets, ReadPad, ReadLength, AppendPad, LengthBits, OctetBits;
    var body := Widen(content);
    var p := AppendPad(w);
    var q := p + LengthBits(|body|);
    var r := AppendOctets(q, body);
    assert r == AppendOpenType(w, content).value;
    assert q <= r && p <= q;
    PadReadBack(w, s);
    if |body| <= 127 {
      ShortLengthReadBack(p, |body|, s);
    } else {
      LongLengthReadBack(p, |body|, s);
    }
    OctetsReadBack(q, body, s);
  }

  // Any mix of writes

  /** One write of the codec, with its value. */
  datatype Field =
    | BitField(bits: nat, count: nat)
    | PadField
    | NumberField(lb: int, ub: int, number: int)
    | OpenField(content: seq<octet>)

  /** The matching read: what the reader must know beforehand. */
  datatype Shape =
    | BitShape(count: nat)
    | PadShape
    | NumberShape(lb: int, ub: int)
    | OpenShape

  function ShapeOf(f: Field): Shape {
    match f
    case BitField(_, count) => BitShape(count)
    case PadField => PadShape
    case NumberField(lb, ub, _) => NumberShape(lb, ub)
    case OpenField(_) => OpenShape
  }

  /** What a write turns into when it is read back. */
  function ReadAs(f: Field): Field {
    match f
    case OpenField(content) => OpenField(Widen(content))
    case _ => f
  }

  function WriteField(w: seq<bool>, f: Field): Written {
    match f
    case BitField(v, count) => if count <= 64 && v < Pow2(count) then Success(w + ToBits(v, count))
      else Failure(ValueOutOfRange)
    case PadField => Success(AppendPad(w))
    case NumberField(lb, ub, v) => AppendNumber(w, lb, ub, v)
    case OpenField(content) => AppendOpenType(w, content)
  }

  function ReadField(s: seq<bool>, pos: nat, shape: Shape): Parsed<Field> {
    match shape
    case BitShape(count) =>
      var (v, p) :- ReadBits(s, pos, count);
      Parsed(BitField(v, count), p)
    case PadShape =>
      var (_, p) :- ReadPad(s, pos);
      Parsed(PadField, p)
    case NumberShape(lb, ub) =>
      var (v, p) :- ReadNumber(s, pos, lb, ub);
      Parsed(NumberField(lb, ub, v), p)
    case OpenShape =>
      var (content, p) :- ReadOpenType(s, pos);
      Parsed(OpenField(content), p)
  }

  function WriteFields(w: seq<bool>, fields: seq<Field>): Written
    decreases |fields|
  {
    if fields == [] then Success(w)
    else
      var next :- WriteField(w, fields[0]);
      WriteFields(next, fields[1..])
  }

  function ReadFields(s: seq<bool>, pos: nat, shapes: seq<Shape>): Parsed<seq<Field>>
    decreases |shapes|
  {
    if shapes == [] then Parsed([], pos)
    else
      var (first, p) :- ReadField(s, pos, shapes[0]);
      var (rest, q) :- ReadFields(s, p, shapes[1..]);
      Parsed([first] + rest, q)
  }

  lemma FieldReadBack(w: seq<bool>, f: Field, s: seq<bool>)
    requires WriteField(w, f).Success? && WriteField(w, f).value <= s
    ensures ReadField(s, |w|, ShapeOf(f)) == Parsed(ReadAs(f), |WriteField(w, f).value|)
    ensures w <= WriteField(w, f).value
  {
    hide ReadBits, ReadPad, ReadNumber, ReadOpenType, AppendNumber, AppendOpenType, AppendPad, ToBits, Pow2;
    match f
    case BitField(v, count) => BitsReadBack(w, v, count, s);
    case PadField => PadReadBack(w, s);
    case NumberField(lb, ub, v) => NumberReadBack(w, lb, ub, v, s);
    case OpenField(content) => OpenTypeReadBack(w, content, s);
  }

  /** No later write changes what an earlier write put in the stream. */
  lemma {:induction false} WriteFieldsExtends(w: seq<bool>, fields: seq<Field>)
    requires WriteFields(w, fields).Success?
    ensures w <= WriteFields(w, fields).value
    decreases |fields|
  {
    hide WriteField;
    if fields == [] {
    } else {
      var next := WriteField(w, fields[0]).value;
      FieldReadBack(w, fields[0], next);
      WriteFieldsExtends(next, fields[1..]);
    }
  }

  /**
   Every sequence of writes, started after any bits at any alignment, is read
   back value for value by the matching reads, whatever follows it.
   */
  lemma {:induction false} FieldsReadBack(w: seq<bool>, fields: seq<Field>, s: seq<bool>)
    requires WriteFields(w, fields).Success? && WriteFields(w, fields).value <= s
    ensures ReadFields(s, |w|, seq(|fields|, i requires 0 <= i < |fields| => ShapeOf(fields[i])))
         == Parsed(seq(|fields|, i requires 0 <= i < |fields| => ReadAs(fields[i])), |WriteFields(w, fields).value|)
    decreases |fields|
  {
    hide WriteField, ReadField;
    var shapes := seq(|fields|, i requires 0 <= i < |fields| => ShapeOf(fields[i]));
    var readAs := seq(|fields|, i requires 0 <= i < |fields| => ReadAs(fields[i]));
    if fields == [] {
      assert shapes == [] && readAs == [];
    } else {
      var rest := fields[1..];
      var next := WriteField(w, fields[0]).value;
      WriteFieldsExtends(next, rest);
      FieldReadBack(w, fields[0], s);
      FieldsReadBack(next, rest, s);
      assert shapes[1..] == seq(|rest|, i requires 0 <= i < |rest| => ShapeOf(rest[i]));
      assert readAs == [readAs[0]] + seq(|rest|, i requires 0 <= i < |rest| => ReadAs(rest[i]));
    }
  }
}
