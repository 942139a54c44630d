/**
 CBS page encoding: GSM 7-bit text (TS 23.038) packed into 82-octet pages,
 UCS-2 otherwise. Nothing of an accepted text is lost.
 */
module Encoding {
  import opened Wrappers
  import opened Bits

  type rune = x: int | 0 <= x <= 0x10_ffff

  const PAGE_OCTETS := 82
  const MAX_PAGES := 15
  const SEPTETS_PER_PAGE := 93
  const UNITS_PER_PAGE := 41
  const ESCAPE: octet := 0x1b
  const PADDING: octet := 0x0d

  datatype EncodingError = TooLong | NotRepresentable | EmptyText | PageCount

  // The GSM alphabet

  const BEFORE_ESCAPE: string := "@£$¥èéùìòÇ\nØø\rÅåΔ_ΦΓΛΩΠΨΣΘΞ"
  const SIGNS: string := "ÆæßÉ !\"#¤%&'()*+,-./0123456789:;<=>?¡"
  const CAPITALS: string := "ABCDEFGHIJKLMNOPQRSTUVWXYZÄÖÑÜ§¿"
  const SMALLS: string := "abcdefghijklmnopqrstuvwxyzäöñüà"
  const ALPHABET: string := BEFORE_ESCAPE + "\U{1B}" + SIGNS + CAPITALS + SMALLS

  lemma AlphabetSize()
    ensures |ALPHABET| == 128 && ALPHABET[0x1b] as int == 0x1b
  {
    assert |BEFORE_ESCAPE| == 27 && |SIGNS| == 37 && |CAPITALS| == 32 && |SMALLS| == 31;
  }

  /** The last position of a rune in an alphabet; the escape is no character. */
  function BaseCode(r: rune, alphabet: string): (code: Option<octet>)
    requires |alphabet| <= 128
    ensures code.Some? ==> code.value < |alphabet| && r != 0x1b && alphabet[code.value] as int == r
  {
    if alphabet == [] then None
    else
      var n := |alphabet| - 1;
      if r != 0x1b && alphabet[n] as int == r then Some(n) else BaseCode(r, alphabet[..n])
  }

  function ExtensionCode(r: rune): Option<octet> {
    if r == 0x0c then Some(0x0a)
    else if r == '^' as int then Some(0x14)
    else if r == '{' as int then Some(0x28)
    else if r == '}' as int then Some(0x29)
    else if r == '\\' as int then Some(0x2f)
    else if r == '[' as int then Some(0x3c)
    else if r == '~' as int then Some(0x3d)
    else if r == ']' as int then Some(0x3e)
    else if r == '|' as int then Some(0x40)
    else if r == 0x20ac then Some(0x65)
    else None
  }

  /** The extension table read the other way. */
  function ExtensionRune(v: octet): Option<rune> {
    if v == 0x0a then Some(0x0c)
    else if v == 0x14 then Some('^' as int)
    else if v == 0x28 then Some('{' as int)
    else if v == 0x29 then Some('}' as int)
    else if v == 0x2f then Some('\\' as int)
    else if v == 0x3c then Some('[' as int)
    else if v == 0x3d then Some('~' as int)
    else if v == 0x3e then Some(']' as int)
    else if v == 0x40 then Some('|' as int)
    else if v == 0x65 then Some(0x20ac)
    else None
  }

  /** The septets of one character. */
  function RuneSeptets(r: rune): Option<seq<octet>> {
    AlphabetSize();
    match BaseCode(r, ALPHABET)
    case Some(v) => Some([v])
    case None =>
      match ExtensionCode(r)
      case Some(v) => Some([ESCAPE, v])
      case None => None
  }

  function TextSeptets(text: seq<rune>): Option<seq<octet>>
    decreases |text|
  {
    if text == [] then Some([])
    else
      match (TextSeptets(text[..|text| - 1]), RuneSeptets(text[|text| - 1]))
      case (Some(init), Some(last)) => Some(init + last)
      case (_, _) => None
  }

  method GsmSeptets(text: seq<rune>) returns (r: Result<seq<octet>, EncodingError>)
    ensures TextSeptets(text).None? ==> r == Failure(NotRepresentable)
    ensures TextSeptets(text) == Some([]) ==> r == Failure(EmptyText)
    ensures TextSeptets(text).Some? && TextSeptets(text).value != [] ==> r == Success(TextSeptets(text).value)
  {
    hide BaseCode, ExtensionCode;
    AlphabetSize();
    var out: seq<octet> := [];
    for i := 0 to |text|
      invariant TextSeptets(text[..i]) == Some(out)
    {
      assert text[..i + 1][..i] == text[..i];
      var base := BaseCode(text[i], ALPHABET);
      if base.Some? {
        out := out + [base.value];
        continue;
      }
      var extension := ExtensionCode(text[i]);
      if extension.Some? {
        out := out + [ESCAPE, extension.value];
        continue;
      }
      PrefixFails(text, i + 1);
      return Failure(NotRepresentable);
    }
    assert text[..|text|] == text;
    if |out| == 0 {
      return Failure(EmptyText);
    }
    return Success(out);
  }

  lemma {:induction false} PrefixFails(text: seq<rune>, n: nat)
    requires n <= |text| && TextSeptets(text[..n]).None?
    ensures TextSeptets(text).None?
    decreases |text|
  {
    if n == |text| {
      assert text[..n] == text;
    } else {
      assert text[..|text| - 1][..n] == text[..n];
      PrefixFails(text[..|text| - 1], n);
    }
  }

  /** Reading septets back: an escape announces an extension character. */
  function SeptetsText(septets: seq<octet>): Option<seq<rune>>
    decreases |septets|
  {
    if septets == [] then Some([])
    else if septets[0] == ESCAPE then
      if |septets| < 2 || ExtensionRune(septets[1]).None? then None
      else
        match SeptetsText(septets[2..])
        case None => None
        case Some(rest) => Some([ExtensionRune(septets[1]).value] + rest)
    else if septets[0] >= 128 then None
    else
      AlphabetSize();
      match SeptetsText(septets[1..])
      case None => None
      case Some(rest) => Some([ALPHABET[septets[0]] as int] + rest)
  }

  lemma ExtensionReadBack(r: rune)
    ensures var code := ExtensionCode(r);
      code.Some? ==> code.value < 128 && ExtensionRune(code.value) == Some(r)
  {
  }

  lemma RuneReadBack(r: rune, rest: seq<octet>)
    requires RuneSeptets(r).Some? && SeptetsText(rest).Some?
    ensures SeptetsText(RuneSeptets(r).value + rest) == Some([r] + SeptetsText(rest).value)
    ensures forall v | v in RuneSeptets(r).value :: v < 128
    ensures RuneSeptets(r).value != []
  {
    hide BaseCode, ExtensionCode, ExtensionRune;
    AlphabetSize();
    ExtensionReadBack(r);
    var septets := RuneSeptets(r).value;
    match BaseCode(r, ALPHABET)
    case Some(v) =>
      assert (septets + rest)[1..] == rest;
    case None =>
      assert (septets + rest)[2..] == rest;
  }

  lemma {:induction false} TextReadBackBefore(text: seq<rune>, rest: seq<octet>)
    requires TextSeptets(text).Some? && SeptetsText(rest).Some?
    ensures SeptetsText(TextSeptets(text).value + rest) == Some(text + SeptetsText(rest).value)
    ensures forall v | v in TextSeptets(text).value :: v < 128
    ensures |text| <= |TextSeptets(text).value|
    decreases |text|
  {
    hide RuneSeptets, SeptetsText;
    if text == [] {
      assert TextSeptets(text).value + rest == rest;
      assert text + SeptetsText(rest).value == SeptetsText(rest).value;
    } else {
      var init, r := text[..|text| - 1], text[|text| - 1];
      var last := RuneSeptets(r).value;
      RuneReadBack(r, rest);
      TextReadBackBefore(init, last + rest);
      assert TextSeptets(init).value + last + rest == TextSeptets(init).value + (last + rest);
      assert text + SeptetsText(rest).value == init + ([r] + SeptetsText(rest).value);
    }
  }

  /** Every representable text is recovered from its septets. */
  lemma TextReadBack(text: seq<rune>)
    requires TextSeptets(text).Some?
    ensures SeptetsText(TextSeptets(text).value) == Some(text)
    ensures forall v | v in TextSeptets(text).value :: v < 128
    ensures |text| <= |TextSeptets(text).value|
  {
    TextReadBackBefore(text, []);
    assert TextSeptets(text).value + [] == TextSeptets(text).value && text + [] == text;
  }

  // Packing septets

  /** Bit b of a number, counted from the least significant. */
  predicate LowBit(v: nat, b: nat) {
    (v / Pow2(b)) % 2 == 1
  }

  /** Bit n of the septet stream: seven bits per septet, least significant first. */
  predicate StreamBit(septets: seq<octet>, n: nat) {
    n / 7 < |septets| && LowBit(septets[n / 7], n % 7)
  }

  /** Octet j of the packed stream: eight bits per octet, least significant first. */
  function PackedOctet(septets: seq<octet>, j: nat): octet {
    var bits := seq(8, k requires 0 <= k < 8 => StreamBit(septets, 8 * j + (7 - k)));
    FromBitsBound(bits);
    FromBits(bits)
  }

  function PackedLength(n: nat): nat {
    (n * 7 + 7) / 8
  }

  function Packed(septets: seq<octet>): seq<octet> {
    seq(PackedLength(|septets|), j requires 0 <= j < PackedLength(|septets|) => PackedOctet(septets, j))
  }

  lemma LowBitIs(v: octet, b: nat)
    requires b < 8
    ensures LowBit(v, b) == ToBits(v, 8)[7 - b]
  {
    ToBitsAt(v, 8, 7 - b);
  }

  lemma PackedOctetBit(septets: seq<octet>, j: nat, b: nat)
    requires b < 8
    ensures LowBit(PackedOctet(septets, j), b) == StreamBit(septets, 8 * j + b)
  {
    hide StreamBit;
    var bits := seq(8, k requires 0 <= k < 8 => StreamBit(septets, 8 * j + (7 - k)));
    ToFromBits(bits);
    LowBitIs(PackedOctet(septets, j), b);
  }

  /** Octets with the same bits are the same. */
  lemma SameBits(x: octet, y: octet)
    requires forall b | 0 <= b < 8 :: LowBit(x, b) == LowBit(y, b)
    ensures x == y
  {
    forall k | 0 <= k < 8
      ensures ToBits(x, 8)[k] == ToBits(y, 8)[k]
    {
      LowBitIs(x, 7 - k);
      LowBitIs(y, 7 - k);
    }
    assert ToBits(x, 8) == ToBits(y, 8);
    assert Pow2(8) == 256 by { Pow2Values(); }
    FromToBits(x, 8);
    FromToBits(y, 8);
  }

  lemma OrLowBit(x: octet, y: octet, b: nat)
    requires b < 8
    ensures LowBit(Or(x, y), b) == (LowBit(x, b) || LowBit(y, b))
  {
    OrBits(x, y, 7 - b);
    LowBitIs(Or(x, y), b);
    LowBitIs(x, b);
    LowBitIs(y, b);
  }

  lemma LowBitRight(v: octet, s: nat, b: nat)
    ensures LowBit(ShiftRight(v, s), b) == LowBit(v, s + b)
  {
    hide Pow2;
    DivDiv(v, Pow2(s), Pow2(b));
    Pow2Add(s, b);
  }

  lemma ZeroLowBit(b: nat)
    ensures !LowBit(0, b)
  {
    hide Pow2;
    DivUnique(0, Pow2(b), 0, 0);
  }

  lemma HighBitClear(v: nat, n: nat, b: nat)
    requires v < Pow2(n) && n <= b
    ensures !LowBit(v, b)
  {
    hide Pow2;
    Pow2Monotone(n, b);
    DivUnique(v, Pow2(b), 0, v);
  }

  /** v << s in an octet. */
  function ShiftLeft(v: nat, s: nat): octet {
    (v * Pow2(s)) % 256
  }

  /** v >> s. */
  function ShiftRight(v: octet, s: nat): octet {
    Quotient(v, Pow2(s))
  }

  function Quotient(v: octet, p: nat): octet
    requires p > 0
  {
    QuotientAtMost(v, p);
    v / p
  }

  lemma QuotientAtMost(v: nat, p: nat)
    requires p > 0
    ensures v / p <= v
  {
    var q, r := v / p, v % p;
    assert v == p * q + r;
    Grows(p, q);
  }

  lemma Grows(p: nat, q: nat)
    requires p > 0
    ensures q <= p * q
  {
    assert p * q == q + (p - 1) * q;
  }

  lemma LowBitLeft(v: nat, s: nat, b: nat)
    requires b < 8
    ensures LowBit(ShiftLeft(v, s), b) == (b >= s && LowBit(v, b - s))
  {
    hide Pow2;
    LowBitMod(v * Pow2(s), b);
    if b >= s {
      Pow2Add(s, b - s);
      ShiftedQuotient(v, Pow2(s), Pow2(b - s));
    } else {
      Pow2Add(b, s - b);
      Pow2Add(1, s - b - 1);
      assert Pow2(1) == 2 by { Pow2Values(); }
      EvenQuotient(v * Pow2(s), v, Pow2(b), Pow2(s - b - 1), Pow2(s));
    }
  }

  lemma ShiftedQuotient(v: nat, p: nat, r: nat)
    requires p > 0 && r > 0
    ensures p * r > 0 && (v * p) / (p * r) == v / r
  {
    DivDiv(v * p, p, r);
    DivUnique(v * p, p, v, 0);
  }

  lemma EvenQuotient(x: nat, v: nat, p: nat, h: nat, ps: nat)
    requires p > 0 && x == v * ps && ps == p * (2 * h)
    ensures (x / p) % 2 == 0
  {
    assert v * (p * (2 * h)) == p * (2 * (v * h));
    DivUnique(x, p, 2 * (v * h), 0);
    assert (2 * (v * h)) % 2 == 0;
  }

  lemma LowBitMod(x: nat, b: nat)
    requires b < 8
    ensures LowBit(x % 256, b) == LowBit(x, b)
  {
    hide Pow2;
    var q, r := x / 256, x % 256;
    assert Pow2(8) == 256 && Pow2(1) == 2 by { Pow2Values(); }
    Pow2Add(b, 8 - b);
    Pow2Add(1, 7 - b);
    ModQuotient(x, q, r, Pow2(b), Pow2(7 - b));
  }

  lemma ModQuotient(x: nat, q: nat, r: nat, p: nat, h: nat)
    requires p > 0 && p * (2 * h) == 256 && x == 256 * q + r
    ensures (x / p) % 2 == (r / p) % 2
  {
    var a, t := r / p, r % p;
    Regroup(x, q, r, p, h, a, t);
    DivUnique(x, p, 2 * (h * q) + a, t);
    SameParity(h * q, a);
  }

  lemma Regroup(x: nat, q: nat, r: nat, p: nat, h: nat, a: nat, t: nat)
    requires p * (2 * h) == 256 && x == 256 * q + r && r == p * a + t
    ensures x == p * (2 * (h * q) + a) + t
  {
    assert (p * (2 * h)) * q == p * (2 * (h * q));
    assert p * (2 * (h * q) + a) == p * (2 * (h * q)) + p * a;
  }

  lemma SameParity(n: nat, a: nat)
    ensures (2 * n + a) % 2 == a % 2
  {
  }

  /** What octet j contains once the first i septets are in. */
  ghost predicate PackedSoFar(out: seq<octet>, septets: seq<octet>, i: nat)
    requires i <= |septets|
  {
    forall j, b {:trigger LowBit(out[j], b)} | 0 <= j < |out| && 0 <= b < 8 ::
      LowBit(out[j], b) == StreamBit(septets[..i], 8 * j + b)
  }

  /** One septet's contribution to octet j. */
  function Contribution(v: octet, i: nat, j: nat): octet {
    var bit, k := i * 7 % 8, i * 7 / 8;
    if j == k then ShiftLeft(v, bit)
    else if j == k + 1 && bit > 1 then ShiftRight(v, 8 - bit)
    else 0
  }

  lemma StreamGrows(septets: seq<octet>, i: nat, n: nat)
    requires i < |septets|
    ensures StreamBit(septets[..i + 1], n) == (StreamBit(septets[..i], n) || (n / 7 == i && LowBit(septets[i], n % 7)))
  {
  }

  lemma ContributionBit(v: octet, i: nat, j: nat, b: nat)
    requires v < 128 && b < 8
    ensures LowBit(Contribution(v, i, j), b) == ((8 * j + b) / 7 == i && LowBit(v, (8 * j + b) % 7))
  {
    hide Pow2, LowBit;
    var bit, k := i * 7 % 8, i * 7 / 8;
    assert 7 * i == 8 * k + bit;
    var n := 8 * j + b;
    assert Pow2(7) == 128 by { Pow2Values(); }
    if j == k {
      LowBitLeft(v, bit, b);
      if b >= bit {
        assert n == 7 * i + (b - bit);
        if b - bit < 7 {
          DivUnique(n, 7, i, b - bit);
        } else {
          HighBitClear(v, 7, b - bit);
        }
      }
    } else if j == k + 1 && bit > 1 {
      LowBitRight(v, 8 - bit, b);
      assert n == 7 * i + (8 - bit + b);
      if 8 - bit + b < 7 {
        DivUnique(n, 7, i, 8 - bit + b);
      } else {
        HighBitClear(v, 7, 8 - bit + b);
      }
    } else {
      ZeroLowBit(b);
    }
  }

  lemma PackStep(before: seq<octet>, out: seq<octet>, septets: seq<octet>, i: nat)
    requires i < |septets| && septets[i] < 128 && |out| == |before|
    requires PackedSoFar(before, septets, i)
    requires forall j | 0 <= j < |out| :: out[j] == Or(before[j], Contribution(septets[i], i, j))
    ensures PackedSoFar(out, septets, i + 1)
  {
    hide LowBit, StreamBit, Contribution, Or;
    forall j, b | 0 <= j < |out| && 0 <= b < 8
      ensures LowBit(out[j], b) == StreamBit(septets[..i + 1], 8 * j + b)
    {
      OrLowBit(before[j], Contribution(septets[i], i, j), b);
      ContributionBit(septets[i], i, j, b);
      StreamGrows(septets, i, 8 * j + b);
    }
  }

  lemma OrZero(x: octet)
    ensures Or(x, 0) == x
  {
    hide LowBit, Or;
    forall b | 0 <= b < 8
      ensures LowBit(Or(x, 0), b) == LowBit(x, b)
    {
      OrLowBit(x, 0, b);
      ZeroLowBit(b);
    }
    SameBits(Or(x, 0), x);
  }

  lemma PackStart(out: seq<octet>, septets: seq<octet>)
    requires forall j | 0 <= j < |out| :: out[j] == 0
    ensures PackedSoFar(out, septets, 0)
  {
    hide LowBit;
    forall j, b | 0 <= j < |out| && 0 <= b < 8
      ensures LowBit(out[j], b) == StreamBit(septets[..0], 8 * j + b)
    {
      ZeroLowBit(b);
    }
  }

  lemma PackEnd(out: seq<octet>, septets: seq<octet>)
    requires |out| == PackedLength(|septets|) && PackedSoFar(out, septets, |septets|)
    ensures out == Packed(septets)
  {
    hide LowBit, StreamBit, PackedOctet;
    assert septets[..|septets|] == septets;
    forall j | 0 <= j < |out|
      ensures out[j] == PackedOctet(septets, j)
    {
      forall b | 0 <= b < 8
        ensures LowBit(out[j], b) == LowBit(PackedOctet(septets, j), b)
      {
        PackedOctetBit(septets, j, b);
      }
      SameBits(out[j], PackedOctet(septets, j));
    }
  }

  method PackSeptets(septets: seq<octet>) returns (r: seq<octet>)
    requires forall v | v in septets :: v < 128
    ensures r == Packed(septets)
  {
    hide *;
    var out := new octet[PackedLength(|septets|)](_ => 0);
    PackStart(out[..], septets);
    for i := 0 to |septets|
      invariant PackedSoFar(out[..], septets, i)
    {
      ghost var before := out[..];
      var v := septets[i];
      assert v in septets;
      var bit, j := i * 7 % 8, i * 7 / 8;
      SeptetFits(i, |septets|);
      out[j] := Or(out[j], ShiftLeft(v, bit));
      ghost var middle := out[..];
      assert middle == before[j := Or(before[j], ShiftLeft(v, bit))];
      if bit > 1 && j + 1 < out.Length {
        out[j + 1] := Or(out[j + 1], ShiftRight(v, 8 - bit));
        assert out[..] == middle[j + 1 := Or(middle[j + 1], ShiftRight(v, 8 - bit))];
      }
      ContributionsAre(before, out[..], v, i);
      PackStep(before, out[..], septets, i);
    }
    PackEnd(out[..], septets);
    return out[..];
  }

  lemma SeptetFits(i: nat, n: nat)
    requires i < n
    ensures i * 7 / 8 < PackedLength(n)
  {
  }

  lemma ContributionsAre(before: seq<octet>, out: seq<octet>, v: octet, i: nat)
    requires i * 7 / 8 < |before| == |out|
    requires
      var bit, k := i * 7 % 8, i * 7 / 8;
      var middle := before[k := Or(before[k], ShiftLeft(v, bit))];
      out == if bit > 1 && k + 1 < |before| then middle[k + 1 := Or(middle[k + 1], ShiftRight(v, 8 - bit))] else middle
    ensures forall j | 0 <= j < |out| :: out[j] == Or(before[j], Contribution(v, i, j))
  {
    hide Or, ShiftLeft, ShiftRight, Pow2;
    forall j | 0 <= j < |out|
      ensures out[j] == Or(before[j], Contribution(v, i, j))
    {
      OrZero(before[j]);
    }
  }

  /** Septet i of a packed octet stream. */
  function UnpackedSeptet(octets: seq<octet>, i: nat): octet
    requires 7 * i + 7 <= 8 * |octets|
  {
    var bits := seq(7, k requires 0 <= k < 7 => OctetStreamBit(octets, 7 * i + (6 - k)));
    SevenBits(bits);
    FromBits(bits)
  }

  predicate OctetStreamBit(octets: seq<octet>, n: nat)
    requires n < 8 * |octets|
  {
    LowBit(octets[n / 8], n % 8)
  }

  lemma SevenBits(bits: seq<bool>)
    requires |bits| == 7
    ensures FromBits(bits) < 128
  {
    FromBitsBound(bits);
    Pow2Values();
  }

  function Unpack(octets: seq<octet>, n: nat): seq<octet>
    requires 7 * n <= 8 * |octets|
  {
    seq(n, i requires 0 <= i < n => UnpackedSeptet(octets, i))
  }

  /** A page's septets are recovered from its octets, whatever pads the page. */
  lemma UnpackPacked(septets: seq<octet>, padding: seq<octet>)
    requires forall v | v in septets :: v < 128
    requires 7 * |septets| <= 8 * |Packed(septets) + padding|
    ensures Unpack(Packed(septets) + padding, |septets|) == septets
  {
    hide UnpackedSeptet, Packed;
    var octets := Packed(septets) + padding;
    forall i | 0 <= i < |septets|
      ensures UnpackedSeptet(octets, i) == septets[i]
    {
      assert septets[i] in septets;
      UnpackOne(septets, padding, i);
    }
  }

  lemma UnpackOne(septets: seq<octet>, padding: seq<octet>, i: nat)
    requires i < |septets| && septets[i] < 128
    requires 7 * |septets| <= 8 * |Packed(septets) + padding|
    ensures UnpackedSeptet(Packed(septets) + padding, i) == septets[i]
  {
    hide LowBit, StreamBit, Pow2, ToBits;
    var octets := Packed(septets) + padding;
    var bits := seq(7, k requires 0 <= k < 7 => OctetStreamBit(octets, 7 * i + (6 - k)));
    forall k | 0 <= k < 7
      ensures bits[k] == ToBits(septets[i], 7)[k]
    {
      var n := 7 * i + (6 - k);
      assert n / 8 < |Packed(septets)|;
      PackedOctetBit(septets, n / 8, n % 8);
      StreamOfSeptet(septets, i, 6 - k);
      ToBitsAt(septets[i], 7, k);
      LowBitDef(septets[i], 6 - k);
    }
    assert bits == ToBits(septets[i], 7);
    assert Pow2(7) == 128 by { Pow2Values(); }
    FromToBits(septets[i], 7);
  }

  lemma LowBitDef(v: nat, b: nat)
    ensures LowBit(v, b) == ((v / Pow2(b)) % 2 == 1)
  {
  }

  lemma StreamOfSeptet(septets: seq<octet>, i: nat, b: nat)
    requires i < |septets| && b < 7
    ensures StreamBit(septets, 7 * i + b) == LowBit(septets[i], b)
  {
    DivUnique(7 * i + b, 7, i, b);
  }

  // Pages

  datatype Page = Page(number: octet, total: octet, pageParameter: octet, data: seq<octet>)

  datatype Alphabet = Gsm7 | Ucs2

  datatype Content = Content(pages: seq<Page>, dcs: octet, alphabet: Alphabet)

  const UCS2_DCS: octet := 0x11

  function Padding(n: nat): seq<octet> {
    seq(n, _ => PADDING)
  }

  /** Piece i of a sequence cut every `size` elements. */
  function Piece<T>(s: seq<T>, size: nat, i: nat): (piece: seq<T>)
    requires size * i <= |s|
    ensures |piece| <= size
  {
    s[size * i..if size * i + size <= |s| then size * i + size else |s|]
  }

  function GsmPageData(septets: seq<octet>): (data: seq<octet>)
    requires |septets| <= SEPTETS_PER_PAGE
    ensures |data| == PAGE_OCTETS
  {
    Packed(septets) + Padding(PAGE_OCTETS - PackedLength(|septets|))
  }

  predicate IsUnit(r: rune) {
    r <= 0xffff && !(0xd800 <= r <= 0xdfff)
  }

  predicate AllUnits(text: seq<rune>) {
    forall k | 0 <= k < |text| :: IsUnit(text[k])
  }

  function HighOctet(r: rune): octet
    requires IsUnit(r)
  {
    r / 256
  }

  function LowOctet(r: rune): octet {
    r % 256
  }

  function UnitOctets(text: seq<rune>): (data: seq<octet>)
    requires AllUnits(text)
    ensures |data| == 2 * |text|
  {
    if text == [] then []
    else
      var last := text[|text| - 1];
      UnitOctets(text[..|text| - 1]) + [HighOctet(last), LowOctet(last)]
  }

  function UnitPadding(n: nat): (data: seq<octet>)
    ensures |data| == 2 * n
  {
    seq(2 * n, j => if j % 2 == 0 then 0x00 else PADDING)
  }

  function Ucs2PageData(text: seq<rune>): (data: seq<octet>)
    requires |text| <= UNITS_PER_PAGE
    requires AllUnits(text)
    ensures |data| == PAGE_OCTETS
  {
    UnitOctets(text) + UnitPadding(UNITS_PER_PAGE - |text|)
  }

  /** Pages are numbered 1, 2, … and each carries the total; the parameter holds both. */
  ghost predicate WellNumbered(pages: seq<Page>) {
    && 1 <= |pages| <= MAX_PAGES
    && forall i | 0 <= i < |pages| ::
      && pages[i].number == i + 1
      && pages[i].total == |pages|
      && pages[i].pageParameter == 16 * (i + 1) + |pages|
  }

  ghost predicate GsmPaged(septets: seq<octet>, pages: seq<Page>) {
    && |pages| == (|septets| + 92) / 93
    && forall i | 0 <= i < |pages| :: pages[i].data == GsmPageData(Piece(septets, 93, i))
  }

  ghost predicate Ucs2Paged(text: seq<rune>, pages: seq<Page>) {
    |pages| == (|text| + 40) / 41 && Ucs2PagesSoFar(text, pages)
  }

  ghost predicate Ucs2PagesSoFar(text: seq<rune>, pages: seq<Page>)
    requires 41 * |pages| < |text| + 41
  {
    forall i | 0 <= i < |pages| ::
      && AllUnits(Piece(text, 41, i))
      && pages[i].data == Ucs2PageData(Piece(text, 41, i))
  }

  method FinishPages(pages: seq<Page>) returns (r: Result<seq<Page>, EncodingError>)
    ensures !(1 <= |pages| <= MAX_PAGES) ==> r == Failure(PageCount)
    ensures 1 <= |pages| <= MAX_PAGES ==>
      && r.Success?
      && |r.value| == |pages|
      && WellNumbered(r.value)
      && forall i | 0 <= i < |pages| :: r.value[i].data == pages[i].data
  {
    if |pages| == 0 || |pages| > MAX_PAGES {
      return Failure(PageCount);
    }
    hide Or, ShiftLeft;
    var out := pages;
    for i := 0 to |out|
      invariant |out| == |pages|
      invariant forall k | 0 <= k < |out| :: out[k].data == pages[k].data
      invariant forall k | 0 <= k < i ::
        && out[k].number == k + 1
        && out[k].total == |pages|
        && out[k].pageParameter == 16 * (k + 1) + |pages|
    {
      out := out[i := out[i].(number := i + 1, total := |out|)];
      ShiftedNibble(i + 1);
      OrNibbles(i + 1, |out|);
      out := out[i := out[i].(pageParameter := Or(ShiftLeft(out[i].number, 4), out[i].total))];
    }
    return Success(out);
  }

  lemma ShiftedNibble(n: nat)
    requires n < 16
    ensures ShiftLeft(n, 4) == 16 * n
  {
    assert Pow2(4) == 16 by { Pow2Values(); }
    hide Pow2;
  }

  method GsmPages(septets: seq<octet>) returns (r: Result<seq<Page>, EncodingError>)
    requires forall v | v in septets :: v < 128
    ensures !(1 <= |septets| <= MAX_PAGES * 93) ==> r == Failure(PageCount)
    ensures 1 <= |septets| <= MAX_PAGES * 93 ==> r.Success? && WellNumbered(r.value) && GsmPaged(septets, r.value)
  {
    hide Packed, WellNumbered, GsmPageData, Piece;
    var rest := septets;
    var pages: seq<Page> := [];
    while |rest| > 0
      invariant |rest| > 0 ==> 93 * |pages| < |septets| && rest == septets[93 * |pages|..]
      invariant |rest| == 0 ==> |pages| == (|septets| + 92) / 93
      invariant 93 * |pages| < |septets| + 93
      invariant forall i | 0 <= i < |pages| :: pages[i].data == GsmPageData(Piece(septets, 93, i))
    {
      var n := 93;
      if |rest| < n {
        n := |rest|;
      }
      PieceIs(septets, 93, |pages|, n);
      PieceWithin(septets, 93, |pages|);
      var data := GsmPage(rest[..n]);
      pages := pages + [Page(0, 0, 0, data)];
      rest := rest[n..];
    }
    r := FinishPages(pages);
  }

  method GsmPage(septets: seq<octet>) returns (data: seq<octet>)
    requires |septets| <= SEPTETS_PER_PAGE
    requires forall v | v in septets :: v < 128
    ensures data == GsmPageData(septets)
  {
    hide PackedOctet;
    data := PackSeptets(septets);
    var packed := |data|;
    data := data + seq(PAGE_OCTETS - packed, _ => 0);
    for i := packed to PAGE_OCTETS
      invariant |data| == PAGE_OCTETS
      invariant data[..i] == Packed(septets) + Padding(i - packed)
    {
      data := data[i := PADDING];
      assert data[..i + 1] == data[..i] + [PADDING];
    }
    assert data[..PAGE_OCTETS] == data;
  }

  method Ucs2Pages(text: seq<rune>) returns (r: Result<seq<Page>, EncodingError>)
    ensures text == [] ==> r == Failure(EmptyText)
    ensures !AllUnits(text) ==> r == Failure(NotRepresentable)
    ensures AllUnits(text) && |text| > MAX_PAGES * 41 ==> r == Failure(PageCount)
    ensures AllUnits(text) && 1 <= |text| <= MAX_PAGES * 41 ==>
      r.Success? && WellNumbered(r.value) && Ucs2Paged(text, r.value)
  {
    if |text| == 0 {
      return Failure(EmptyText);
    }
    hide WellNumbered, Ucs2PageData, Piece, AllUnits, Ucs2PagesSoFar;
    assert Ucs2PagesSoFar(text, []) by { NoUcs2Pages(text); }
    var rest := text;
    var pages: seq<Page> := [];
    while |rest| > 0
      invariant |rest| > 0 ==> 41 * |pages| < |text| && rest == text[41 * |pages|..]
      invariant |rest| == 0 ==> |pages| == (|text| + 40) / 41
      invariant 41 * |pages| < |text| + 41
      invariant Ucs2PagesSoFar(text, pages)
    {
      var n := 41;
      if |rest| < n {
        n := |rest|;
      }
      PieceIs(text, 41, |pages|, n);
      var page := Ucs2Page(rest[..n]);
      if page.None? {
        BadPiece(text, |pages|);
        return Failure(NotRepresentable);
      }
      MoreUcs2Pages(text, pages, Page(0, 0, 0, page.value));
      pages := pages + [Page(0, 0, 0, page.value)];
      rest := rest[n..];
    }
    AllPieces(text, pages);
    r := FinishPages(pages);
    if r.Success? {
      SameUcs2Data(text, pages, r.value);
    }
  }

  lemma NoUcs2Pages(text: seq<rune>)
    ensures Ucs2PagesSoFar(text, [])
  {
  }

  lemma MoreUcs2Pages(text: seq<rune>, pages: seq<Page>, page: Page)
    requires 41 * |pages| < |text| && Ucs2PagesSoFar(text, pages)
    requires AllUnits(Piece(text, 41, |pages|)) && page.data == Ucs2PageData(Piece(text, 41, |pages|))
    ensures Ucs2PagesSoFar(text, pages + [page])
  {
    hide AllUnits, Ucs2PageData, Piece;
  }

  lemma SameUcs2Data(text: seq<rune>, pages: seq<Page>, finished: seq<Page>)
    requires |finished| == |pages| && Ucs2Paged(text, pages)
    requires forall i | 0 <= i < |pages| :: finished[i].data == pages[i].data
    ensures Ucs2Paged(text, finished)
  {
    hide AllUnits, Ucs2PageData, Piece;
  }

  lemma BadPiece(text: seq<rune>, i: nat)
    requires 41 * i <= |text| && !AllUnits(Piece(text, 41, i))
    ensures !AllUnits(text)
  {
    var piece := Piece(text, 41, i);
    var k :| 0 <= k < |piece| && !IsUnit(piece[k]);
    assert text[41 * i + k] == piece[k];
  }

  lemma AllPieces(text: seq<rune>, pages: seq<Page>)
    requires Ucs2Paged(text, pages)
    ensures AllUnits(text)
  {
    hide Ucs2PageData, IsUnit;
    forall k | 0 <= k < |text|
      ensures IsUnit(text[k])
    {
      PieceAt(text, 41, k);
    }
  }

  lemma PieceIs<T>(s: seq<T>, size: nat, i: nat, n: nat)
    requires size * i <= |s|
    requires n == if |s| - size * i < size then |s| - size * i else size
    ensures s[size * i..][..n] == Piece(s, size, i)
  {
  }

  lemma PieceWithin(s: seq<octet>, size: nat, i: nat)
    requires size * i <= |s| && forall v | v in s :: v < 128
    ensures forall v | v in Piece(s, size, i) :: v < 128
  {
    forall v | v in Piece(s, size, i)
      ensures v in s
    {
    }
  }

  /** One page of UCS-2, unless it meets a character outside the basic plane. */
  method Ucs2Page(text: seq<rune>) returns (page: Option<seq<octet>>)
    requires |text| <= UNITS_PER_PAGE
    ensures page.Some? <==> AllUnits(text)
    ensures page.Some? ==> page.value == Ucs2PageData(text)
  {
    var data: seq<octet> := [];
    for i := 0 to |text|
      invariant AllUnits(text[..i])
      invariant data == UnitOctets(text[..i])
    {
      var c := text[i];
      if c > 0xffff || 0xd800 <= c <= 0xdfff {
        return None;
      }
      assert text[..i + 1][..i] == text[..i];
      data := data + [HighOctet(c), LowOctet(c)];
    }
    assert text[..|text|] == text;
    ghost var k := 0;
    while |data| < PAGE_OCTETS
      invariant data == UnitOctets(text) + UnitPadding(k)
      invariant k <= UNITS_PER_PAGE - |text|
    {
      assert UnitPadding(k + 1) == UnitPadding(k) + [0x00, PADDING];
      data := data + [0x00, PADDING];
      k := k + 1;
    }
    return Some(data);
  }

  // Reading pages back

  /** The n septets carried by pages of 93. */
  function PagedSeptets(pages: seq<Page>, n: nat): seq<octet>
    requires n <= 93 * |pages| && forall p | p in pages :: |p.data| == PAGE_OCTETS
  {
    seq(n, k requires 0 <= k < n => assert pages[k / 93] in pages; UnpackedSeptet(pages[k / 93].data, k % 93))
  }

  /** The n code units carried by pages of 41. */
  function PagedUnits(pages: seq<Page>, n: nat): seq<rune>
    requires n <= 41 * |pages| && forall p | p in pages :: |p.data| == PAGE_OCTETS
  {
    seq(n, k requires 0 <= k < n => assert pages[k / 41] in pages; UnitAt(pages[k / 41].data, k % 41))
  }

  function UnitAt(data: seq<octet>, k: nat): rune
    requires 2 * k + 1 < |data|
  {
    (data[2 * k] as int) * 256 + data[2 * k + 1]
  }

  lemma PieceAt<T>(s: seq<T>, size: nat, k: nat)
    requires 0 < size && k < |s|
    ensures size * (k / size) <= |s|
    ensures k % size < |Piece(s, size, k / size)| <= size
    ensures Piece(s, size, k / size)[k % size] == s[k]
  {
    assert k == size * (k / size) + k % size;
  }

  lemma GsmPagesReadBack(septets: seq<octet>, pages: seq<Page>)
    requires forall v | v in septets :: v < 128
    requires GsmPaged(septets, pages)
    ensures forall p | p in pages :: |p.data| == PAGE_OCTETS
    ensures PagedSeptets(pages, |septets|) == septets
  {
    hide Packed, UnpackedSeptet;
    var out := PagedSeptets(pages, |septets|);
    forall k | 0 <= k < |septets|
      ensures out[k] == septets[k]
    {
      PieceAt(septets, 93, k);
      var piece := Piece(septets, 93, k / 93);
      assert piece[k % 93] == septets[k];
      assert septets[k] in septets;
      UnpackOne(piece, Padding(PAGE_OCTETS - PackedLength(|piece|)), k % 93);
    }
  }

  lemma {:induction false} UnitOctetsAt(text: seq<rune>, k: nat)
    requires k < |text| && AllUnits(text)
    ensures UnitAt(UnitOctets(text), k) == text[k]
    decreases |text|
  {
    if k < |text| - 1 {
      UnitOctetsAt(text[..|text| - 1], k);
    }
  }

  lemma Ucs2PagesReadBack(text: seq<rune>, pages: seq<Page>)
    requires Ucs2Paged(text, pages)
    ensures forall p | p in pages :: |p.data| == PAGE_OCTETS
    ensures PagedUnits(pages, |text|) == text
  {
    hide UnitOctets, UnitPadding;
    var out := PagedUnits(pages, |text|);
    forall k | 0 <= k < |text|
      ensures out[k] == text[k]
    {
      PieceAt(text, 41, k);
      var piece := Piece(text, 41, k / 41);
      UnitOctetsAt(piece, k % 41);
    }
  }

  // The whole encoder

  /** The texts that fit a CBS message. A GSM text that is too long is not retried in UCS-2. */
  predicate Accepts(text: seq<rune>) {
    && 1 <= |text| <= MAX_PAGES * SEPTETS_PER_PAGE
    && match TextSeptets(text)
       case Some(septets) => |septets| <= MAX_PAGES * SEPTETS_PER_PAGE
       case None => |text| <= MAX_PAGES * UNITS_PER_PAGE && AllUnits(text)
  }

  /** Why a text is not accepted. */
  function Refusal(text: seq<rune>): EncodingError {
    if |text| > MAX_PAGES * SEPTETS_PER_PAGE then TooLong
    else if text == [] then EmptyText
    else if TextSeptets(text).None? && !AllUnits(text) then NotRepresentable
    else PageCount
  }

  /** How many septets or code units a text takes. */
  function UnitCount(text: seq<rune>): nat {
    match TextSeptets(text)
    case Some(septets) => |septets|
    case None => |text|
  }

  /** What a receiver makes of the pages, told how many units they carry. */
  function Received(e: Content, n: nat): Option<seq<rune>>
    requires n <= (if e.alphabet.Gsm7? then 93 else 41) * |e.pages|
    requires forall p | p in e.pages :: |p.data| == PAGE_OCTETS
  {
    if e.alphabet.Gsm7? then SeptetsText(PagedSeptets(e.pages, n)) else Some(PagedUnits(e.pages, n))
  }

  lemma EmptyTextSeptets()
    ensures TextSeptets([]) == Some([])
    ensures AllUnits([])
  {
  }

  // Coding schemes

  /** Lower case, as far as it can yield the letters of a language code. */
  function LowerCase(c: char): char {
    if 'A' <= c <= 'Z' then (c as int + 32) as char
    else if c as int == 0x0130 then 'i'
    else if c as int == 0x212a then 'k'
    else c
  }

  function LowerText(s: string): string {
    seq(|s|, i requires 0 <= i < |s| => LowerCase(s[i]))
  }

  function SchemeOf(code: string): octet {
    if code == "de" then 0x00
    else if code == "en" then 0x01
    else if code == "it" then 0x02
    else if code == "fr" then 0x03
    else if code == "es" then 0x04
    else if code == "nl" then 0x05
    else if code == "sv" then 0x06
    else if code == "da" then 0x07
    else if code == "pt" then 0x08
    else if code == "fi" then 0x09
    else if code == "no" then 0x0a
    else if code == "el" then 0x0b
    else if code == "tr" then 0x0c
    else if code == "hu" then 0x0d
    else if code == "pl" then 0x0e
    else if code == "cs" then 0x20
    else if code == "he" then 0x21
    else if code == "ar" then 0x22
    else if code == "ru" then 0x23
    else if code == "is" then 0x24
    else 0x0f
  }

  /** The data coding scheme of a GSM page in the given language, in whatever case it is written. */
  function Dcs(language: string): octet {
    SchemeOf(LowerText(language))
  }

  /** The alphabet a receiver reads off the data coding scheme. */
  function AlphabetOf(dcs: octet): Alphabet {
    if dcs == UCS2_DCS then Ucs2 else Gsm7
  }

  /** No language has the scheme that stands for UCS-2. */
  lemma LanguageIsGsm(language: string)
    ensures AlphabetOf(Dcs(language)) == Gsm7
  {
    hide LowerText;
  }

  /** What the encoder makes of an accepted text, page by page. */
  ghost predicate IsEncoding(text: seq<rune>, language: string, e: Content) {
    && Accepts(text)
    && WellNumbered(e.pages)
    && match TextSeptets(text)
       case Some(septets) => e.alphabet == Gsm7 && e.dcs == Dcs(language) && GsmPaged(septets, e.pages)
       case None => e.alphabet == Ucs2 && e.dcs == UCS2_DCS && Ucs2Paged(text, e.pages)
  }

  /** Nothing of an accepted text is lost in its pages, and the coding scheme tells how to read them. */
  lemma EncodingReadBack(text: seq<rune>, language: string, e: Content)
    requires IsEncoding(text, language, e)
    ensures forall p | p in e.pages :: |p.data| == PAGE_OCTETS
    ensures UnitCount(text) <= (if e.alphabet.Gsm7? then 93 else 41) * |e.pages|
    ensures Received(e, UnitCount(text)) == Some(text)
    ensures AlphabetOf(e.dcs) == e.alphabet
  {
    hide TextSeptets, SeptetsText, PagedSeptets, PagedUnits, WellNumbered, AllUnits, Dcs, GsmPaged, Ucs2PagesSoFar;
    match TextSeptets(text)
    case Some(septets) =>
      TextReadBack(text);
      PagedCount(septets, e.pages);
      GsmPagesReadBack(septets, e.pages);
      LanguageIsGsm(language);
    case None =>
      Ucs2PagesReadBack(text, e.pages);
  }

  lemma PagedCount(septets: seq<octet>, pages: seq<Page>)
    requires GsmPaged(septets, pages)
    ensures |pages| == (|septets| + 92) / 93
  {
  }

  /** The encoder takes exactly the texts that fit, and every page list it returns gives the text back. */
  method Encode(text: seq<rune>, language: string) returns (r: Result<Content, EncodingError>)
    ensures r.Success? <==> Accepts(text)
    ensures r.Failure? ==> r.error == Refusal(text)
    ensures r.Success? ==>
      && IsEncoding(text, language, r.value)
      && (forall p | p in r.value.pages :: |p.data| == PAGE_OCTETS)
      && |r.value.pages| == (if r.value.alphabet.Gsm7? then (UnitCount(text) + 92) / 93
        else (UnitCount(text) + 40) / 41)
      && Received(r.value, UnitCount(text)) == Some(text)
  {
    hide TextSeptets, SeptetsText, PagedSeptets, PagedUnits, WellNumbered, AllUnits, Received, Dcs;
    EmptyTextSeptets();
    if |text| > MAX_PAGES * SEPTETS_PER_PAGE {
      return Failure(TooLong);
    }
    if TextSeptets(text).Some? {
      TextReadBack(text);
    }
    var septets := GsmSeptets(text);
    if septets.Success? {
      var paged := GsmPages(septets.value);
      if paged.Failure? {
        return Failure(paged.error);
      }
      var content := Content(paged.value, Dcs(language), Gsm7);
      EncodingReadBack(text, language, content);
      return Success(content);
    }
    var paged := Ucs2Pages(text);
    if paged.Failure? {
      return Failure(paged.error);
    }
    var content := Content(paged.value, UCS2_DCS, Ucs2);
    EncodingReadBack(text, language, content);
    return Success(content);
  }
}
