/**
 The octets on the wire. Each message is written out as an octet string with
 the numbers of TS 29.168 and X.691, without bits, alignment or names for the
 numbers; what the bit-level encoders produce is proved to be exactly that.
 */
module Wire {
  import opened Wrappers
  import opened Bits
  import opened Per
  import opened Pdu
  import opened Elements
  import opened Messages
  import opened Restart

  // The reference form

  /** A number of 16 bits, high octet first. */
  function TwoOctets(v: nat): seq<octet> {
    [v / 256 % 256, v % 256]
  }

  /** An open type: its length in one or two octets, then its content, never empty. */
  function OpenOctets(content: seq<octet>): seq<octet> {
    if content == [] then [1, 0]
    else if |content| < 128 then [|content|] + content
    else TwoOctets(32768 + |content|) + content
  }

  /** One protocol element: identifier, criticality (0 reject, 64 ignore, 128 notify), value. */
  function ElementOctets(id: nat, criticality: octet, value: seq<octet>): seq<octet> {
    TwoOctets(id) + [criticality] + OpenOctets(value)
  }

  /** A whole PDU: its kind (0 initiating, 32 successful, 64 unsuccessful), procedure, criticality, counted elements. */
  function PduOctets(
      kind: octet, procedure: octet, criticality: octet, count: nat, elements: seq<octet>): (pdu: seq<octet>)
    ensures |pdu| > 2 && pdu[0] == kind && pdu[1] == procedure && pdu[2] == criticality
  {
    [kind, procedure, criticality] + OpenOctets([0] + TwoOctets(count) + elements)
  }

  /** The upper three octets of a 28-bit identity. */
  function HighOctets(e: nat): seq<octet> {
    [e / 0x10_0000 % 256, e / 0x1000 % 256, e / 16 % 256]
  }

  /** Each cell: its PLMN, then its 28-bit identity and four zero bits. */
  function CellOctets(cells: seq<Cgi>): seq<octet>
    decreases |cells|
  {
    if cells == [] then []
    else
      var e := cells[0].eci;
      cells[0].plmn + HighOctets(e) + [16 * (e % 16)] + CellOctets(cells[1..])
  }

  /** Each tracking area: a zero octet, its PLMN, its code. */
  function TaiOctets(areas: seq<Tai>): seq<octet>
    decreases |areas|
  {
    if areas == [] then [] else [0] + areas[0].plmn + TwoOctets(areas[0].tac) + TaiOctets(areas[1..])
  }

  /** Lists count from one. */
  function OneLess(n: nat): nat {
    if n == 0 then 0 else n - 1
  }

  /** The warning area, if there is one: tracking areas for scope 2, cells for scope 3. */
  function AreaOctets(scope: int, plmn: seq<octet>, ids: seq<uint32>): seq<octet>
  {
    if scope == 2 then
      var areas := seq(|ids|, i requires 0 <= i < |ids| => Tai(plmn, ids[i] % 0x1_0000));
      ElementOctets(15, 64, [32] + TwoOctets(OneLess(|ids|)) + TaiOctets(areas))
    else if scope == 3 then
      var cells := seq(|ids|, i requires 0 <= i < |ids| => Cgi(plmn, ids[i]));
      ElementOctets(15, 64, [0] + TwoOctets(OneLess(|ids|)) + [0] + CellOctets(cells))
    else []
  }

  /** The identity of an eNB: its kind, then 20, 28, 18 or 21 bits. */
  function EnbOctets(g: GlobalEnbId): seq<octet> {
    var v := g.enb.value;
    [0] + g.plmn +
    match g.enb.kind
    case Macro => [0, v / 4096 % 256, v / 16 % 256, 16 * (v % 16)]
    case Home => [64] + HighOctets(v) + [16 * (v % 16)]
    case ShortMacro => [128, 3, v / 1024 % 256, v / 4 % 256, 64 * (v % 4)]
    case LongMacro => [129, 3, v / 8192 % 256, v / 32 % 256, 8 * (v % 32)]
  }

  // Bits that make up octets

  lemma WholeOctets(buf: seq<octet>, more: seq<octet>)
    ensures OctetBits(buf) + OctetBits(more) == OctetBits(buf + more)
    ensures AppendPad(OctetBits(buf)) == OctetBits(buf)
    ensures Finish(OctetBits(buf)) == buf
  {
    OctetBitsConcat(buf, more);
    ToOctetsOfBits(buf);
    assert OctetBits(buf) + Zeros(0) == OctetBits(buf);
  }

  lemma Grouped(a: seq<octet>, b: seq<octet>, c: seq<octet>)
    ensures a + b + c == a + (b + c)
  {
  }

  lemma OneOctet(a: octet)
    ensures OctetBits([a]) == ToBits(a, 8)
  {
    hide ToBits;
    assert OctetBits([]) == [] && [a][..0] == [];
    assert [] + ToBits(a, 8) == ToBits(a, 8);
  }

  lemma SixteenBits(v: nat)
    requires v < 0x1_0000
    ensures ToBits(v, 16) == OctetBits(TwoOctets(v))
  {
    hide ToBits, Pow2;
    assert Pow2(8) == 256 by { Pow2Values(); }
    ToBitsSplit(v / 256, v % 256, 8, 8);
    OneOctet(v / 256);
    OneOctet(v % 256);
    OctetBitsConcat([v / 256], [v % 256]);
    assert [v / 256] + [v % 256] == TwoOctets(v);
  }

  /** Fewer than eight bits, filled up with zeros. */
  lemma FilledOctet(buf: seq<octet>, v: nat, n: nat)
    requires 0 < n < 8 && v < Pow2(n)
    ensures v * Pow2(8 - n) < 256
    ensures AppendPad(OctetBits(buf) + ToBits(v, n)) == OctetBits(buf + [v * Pow2(8 - n)])
  {
    hide ToBits, Pow2;
    assert Pow2(8) == 256 by { Pow2Values(); }
    var a := v * Pow2(8 - n);
    FitsBelow(v, 0, n, 8 - n);
    ToBitsSplit(v, 0, n, 8 - n);
    ToBitsZero(8 - n);
    OneOctet(a);
    OctetBitsConcat(buf, [a]);
    PadFills(OctetBits(buf), ToBits(v, n));
  }

  lemma PadFills(w: seq<bool>, bits: seq<bool>)
    requires |w| % 8 == 0 && 0 < |bits| < 8
    ensures AppendPad(w + bits) == w + (bits + Zeros(8 - |bits|))
  {
    assert PadLength(|w + bits|) == 8 - |bits|;
  }

  lemma LengthIsOctets(content: seq<octet>)
    requires |content| < 16384
    ensures LengthBits(|Widen(content)|) + OctetBits(Widen(content)) == OctetBits(OpenOctets(content))
  {
    hide ToBits, OctetBits;
    var body := Widen(content);
    if |body| < 128 {
      OneOctet(|body|);
      OctetBitsConcat([|body|], body);
      assert [|body|] + body == OpenOctets(content);
    } else {
      var a, b := 128 + |body| / 256, |body| % 256;
      assert TwoOctets(32768 + |body|) == [a, b];
      LengthOctets(|body|);
      OneOctet(a);
      OneOctet(b);
      OctetBitsConcat([a], [b]);
      OctetBitsConcat([a, b], body);
      assert [a] + [b] == [a, b];
    }
  }

  /** An open type after bits that pad to whole octets. */
  lemma OpenIs(w: seq<bool>, buf: seq<octet>, content: seq<octet>)
    requires AppendPad(w) == OctetBits(buf) && |content| < 16384
    ensures AppendOpenType(w, content) == Success(OctetBits(buf + OpenOctets(content)))
  {
    hide LengthBits, OctetBits, AppendPad, OpenOctets;
    LengthIsOctets(content);
    OctetBitsConcat(buf, OpenOctets(content));
    var n := LengthBits(|Widen(content)|);
    assert OctetBits(buf) + n + OctetBits(Widen(content)) == OctetBits(buf) + (n + OctetBits(Widen(content)));
  }

  /** A 16-bit number after bits that pad to whole octets. */
  lemma NumberIs(w: seq<bool>, buf: seq<octet>, lb: int, ub: int, v: int)
    requires AppendPad(w) == OctetBits(buf) && 257 <= ub - lb + 1 <= 65536 && lb <= v <= ub
    ensures AppendNumber(w, lb, ub, v) == Success(OctetBits(buf + TwoOctets(v - lb)))
  {
    hide ToBits, OctetBits, AppendPad;
    SixteenBits(v - lb);
    OctetBitsConcat(buf, TwoOctets(v - lb));
  }

  /** An eight-bit number after bits that pad to whole octets. */
  lemma OctetNumberIs(w: seq<bool>, buf: seq<octet>, lb: int, v: int)
    requires AppendPad(w) == OctetBits(buf) && 0 <= v - lb < 256
    ensures AppendNumber(w, lb, lb + 255, v) == Success(OctetBits(buf + [v - lb]))
  {
    hide ToBits, OctetBits, AppendPad;
    OneOctet(v - lb);
    OctetBitsConcat(buf, [v - lb]);
  }

  lemma TwoBitNumber(w: seq<bool>, v: int)
    requires 0 <= v <= 2
    ensures AppendNumber(w, 0, 2, v) == Success(w + ToBits(v, 2))
  {
    hide ToBits;
    TwoBits();
  }

  // Elements and PDUs

  function IEOctets(ie: ProtocolIE): seq<octet>
    requires Encodable(ie)
  {
    ElementOctets(ie.id, 64 * ie.criticality, ie.value)
  }

  function ElementsOctets(ies: seq<ProtocolIE>): seq<octet>
    requires forall ie | ie in ies :: Encodable(ie)
    decreases |ies|
  {
    if ies == [] then []
    else
      assert ies[0] in ies && forall ie | ie in ies[1..] :: ie in ies;
      IEOctets(ies[0]) + ElementsOctets(ies[1..])
  }

  lemma ElementIs(buf: seq<octet>, ie: ProtocolIE)
    requires Encodable(ie)
    ensures AppendIE(OctetBits(buf), ie) == Success(OctetBits(buf + IEOctets(ie)))
    ensures |IEOctets(ie)| == 3 + OpenSize(|ie.value|)
  {
    hide AppendNumber, AppendOpenType, OctetBits, AppendPad, ToBits, Pow2;
    WholeOctets(buf, []);
    NumberIs(OctetBits(buf), buf, 0, 65535, ie.id);
    var a := buf + TwoOctets(ie.id);
    TwoBitNumber(OctetBits(a), ie.criticality);
    assert Pow2(2) == 4 && Pow2(6) == 64 by { Pow2Values(); }
    FilledOctet(a, ie.criticality, 2);
    var b := a + [ie.criticality * 64];
    OpenIs(OctetBits(a) + ToBits(ie.criticality, 2), b, ie.value);
    assert b + OpenOctets(ie.value) == buf + IEOctets(ie);
  }

  lemma {:induction false} ElementsAre(buf: seq<octet>, ies: seq<ProtocolIE>)
    requires forall ie | ie in ies :: Encodable(ie)
    ensures AppendIEs(OctetBits(buf), ies) == Success(OctetBits(buf + ElementsOctets(ies)))
    ensures |ElementsOctets(ies)| == IEsSize(ies)
    decreases |ies|
  {
    hide AppendIE, OctetBits, IEOctets, Encodable, OpenSize;
    if ies == [] {
      assert buf + [] == buf;
    } else {
      assert ies[0] in ies && forall ie | ie in ies[1..] :: ie in ies;
      ElementIs(buf, ies[0]);
      ElementsAre(buf + IEOctets(ies[0]), ies[1..]);
      Grouped(buf, IEOctets(ies[0]), ElementsOctets(ies[1..]));
    }
  }

  lemma BodyIs(ies: seq<ProtocolIE>)
    requires |ies| < 0x1_0000 && forall ie | ie in ies :: Encodable(ie)
    ensures EncodeBody(ies) == Success([0] + TwoOctets(|ies|) + ElementsOctets(ies))
    ensures |ElementsOctets(ies)| == IEsSize(ies)
  {
    hide AppendNumber, AppendIEs, OctetBits, AppendPad, ToBits, Finish, Pow2, Encodable;
    assert ToBits(0, 2) == [false, false] by { ToBitsZero(2); }
    assert OctetBits([]) + ToBits(0, 2) == [false, false];
    assert Pow2(2) == 4 by { Pow2Values(); }
    FilledOctet([], 0, 2);
    assert [] + [0] == [0];
    NumberIs([false, false], [0], 0, 65535, |ies|);
    ElementsAre([0] + TwoOctets(|ies|), ies);
    WholeOctets([0] + TwoOctets(|ies|) + ElementsOctets(ies), []);
  }

  /** One clear bit and two bits, filled up. */
  lemma Preamble(choice: int)
    requires 0 <= choice <= 2
    ensures AppendPad([false] + ToBits(choice, 2)) == OctetBits([32 * choice])
  {
    hide OctetBits, AppendPad, ToBits, Pow2;
    assert Pow2(2) == 4 && Pow2(3) == 8 && Pow2(5) == 32 by { Pow2Values(); }
    assert ToBits(0, 1) == [false] by { ToBitsZero(1); }
    ToBitsSplit(0, choice, 1, 2);
    FilledOctet([], choice, 3);
    assert [] + [choice * 32] == [32 * choice];
    assert OctetBits([]) == [];
    assert OctetBits([]) + ToBits(choice, 3) == [false] + ToBits(choice, 2);
  }

  /** Every PDU, octet by octet. */
  lemma PduIs(choice: int, procedure: int, criticality: int, ies: seq<ProtocolIE>)
    requires EncodePdu(choice, procedure, criticality, ies).Success?
    ensures 0 <= choice <= 2 && 0 <= procedure <= 255 && 0 <= criticality <= 2 && |ies| < 0x1_0000
    ensures (forall ie | ie in ies :: Encodable(ie)) && |ElementsOctets(ies)| == IEsSize(ies) < 16381
    ensures EncodePdu(choice, procedure, criticality, ies).value
         == PduOctets(32 * choice, procedure, 64 * criticality, |ies|, ElementsOctets(ies))
  {
    hide AppendNumber, AppendOpenType, OctetBits, AppendPad, ToBits, Finish, Pow2, Encodable, EncodeBody, OpenOctets;
    EncodePduAccepts(choice, procedure, criticality, ies);
    BodyIs(ies);
    var body := [0] + TwoOctets(|ies|) + ElementsOctets(ies);
    TwoBitNumber([false], choice);
    assert Pow2(2) == 4 && Pow2(6) == 64 by { Pow2Values(); }
    Preamble(choice);
    var a := [32 * choice];
    OctetNumberIs([false] + ToBits(choice, 2), a, 0, procedure);
    var b := a + [procedure];
    TwoBitNumber(OctetBits(b), criticality);
    FilledOctet(b, criticality, 2);
    var c := b + [criticality * 64];
    OpenIs(OctetBits(b) + ToBits(criticality, 2), c, body);
    WholeOctets(c + OpenOctets(body), []);
    assert c == [32 * choice, procedure, 64 * criticality];
  }

  // Element values

  lemma IntIs(lb: int, ub: int, v: int)
    requires 257 <= ub - lb + 1 <= 65536 && lb <= v <= ub
    ensures EncodeInt(lb, ub, v) == Success(TwoOctets(v - lb))
  {
    hide AppendNumber, OctetBits, AppendPad, Finish;
    WholeOctets([], []);
    assert OctetBits([]) == [] && [] + TwoOctets(v - lb) == TwoOctets(v - lb);
    NumberIs([], [], lb, ub, v);
    WholeOctets(TwoOctets(v - lb), []);
  }

  lemma CauseIs(v: int)
    requires 0 <= v <= 255
    ensures EncodeInt(0, 255, v) == Success([v])
  {
    hide AppendNumber, OctetBits, AppendPad, Finish;
    WholeOctets([], []);
    assert OctetBits([]) == [] && [] + [v] == [v];
    OctetNumberIs([], [], 0, v);
    WholeOctets([v], []);
  }

  lemma ContentsAre(data: seq<octet>)
    requires 1 <= |data| <= 9600
    ensures EncodeContents(data) == Success(TwoOctets(|data| - 1) + data)
  {
    hide AppendNumber, OctetBits, AppendPad, Finish;
    WholeOctets([], []);
    var n := TwoOctets(|data| - 1);
    assert OctetBits([]) == [] && [] + n == n;
    NumberIs([], [], 1, 9600, |data|);
    WholeOctets(n, data);
    WholeOctets(n + data, []);
  }

  lemma TaiIs(buf: seq<octet>, t: Tai)
    requires |t.plmn| == 3
    ensures AppendTai(OctetBits(buf), t) == Success(OctetBits(buf + ([0] + t.plmn + TwoOctets(t.tac))))
  {
    hide OctetBits, AppendPad, ToBits, Pow2;
    assert ToBits(0, 1) == [false] by { ToBitsZero(1); }
    assert Pow2(1) == 2 by { Pow2Values(); }
    FilledOctet(buf, 0, 1);
    WholeOctets(buf + [0], t.plmn);
    SixteenBits(t.tac);
    WholeOctets(buf + [0] + t.plmn, TwoOctets(t.tac));
    assert buf + [0] + t.plmn + TwoOctets(t.tac) == buf + ([0] + t.plmn + TwoOctets(t.tac));
  }

  lemma {:induction false} TaisAre(buf: seq<octet>, areas: seq<Tai>)
    requires forall t | t in areas :: |t.plmn| == 3
    ensures AppendTais(OctetBits(buf), areas) == Success(OctetBits(buf + TaiOctets(areas)))
    decreases |areas|
  {
    hide AppendTai, OctetBits, TwoOctets;
    if areas == [] {
      assert buf + [] == buf;
    } else {
      assert areas[0] in areas;
      TaiIs(buf, areas[0]);
      var first := [0] + areas[0].plmn + TwoOctets(areas[0].tac);
      TaisAre(buf + first, areas[1..]);
      Grouped(buf, first, TaiOctets(areas[1..]));
    }
  }

  lemma EciParts(e: nat)
    requires e <= 0x0fff_ffff
    ensures
      var h := e / 16;
      && h / 65536 < 256 && e == h * 16 + e % 16 && h == h / 65536 * 65536 + h % 65536
      && HighOctets(e) == [h / 65536] + TwoOctets(h % 65536)
  {
    var h, d := e / 16, e % 16;
    var g, c := h / 256, h % 256;
    var a, b := g / 256, g % 256;
    DivUnique(e, 0x1000, g, 16 * c + d);
    DivUnique(e, 0x10_0000, a, 0x1000 * b + (16 * c + d));
    DivUnique(h, 65536, a, 256 * b + c);
    DivUnique(256 * b + c, 256, b, c);
  }

  /** 24 bits are three octets. */
  lemma ThreeOctets(h: nat)
    requires h / 65536 < 256 && h == h / 65536 * 65536 + h % 65536
    ensures ToBits(h, 24) == OctetBits([h / 65536] + TwoOctets(h % 65536))
  {
    hide OctetBits, ToBits, Pow2, TwoOctets;
    assert Pow2(16) == 65536 by { Pow2Values(); }
    ToBitsSplit(h / 65536, h % 65536, 8, 16);
    SixteenBits(h % 65536);
    OneOctet(h / 65536);
    OctetBitsConcat([h / 65536], TwoOctets(h % 65536));
  }

  /** A cell's 28 bits are three octets and a half. */
  lemma EciIs(buf: seq<octet>, e: nat)
    requires e <= 0x0fff_ffff
    ensures OctetBits(buf) + ToBits(e, 28)
         == OctetBits(buf + HighOctets(e)) + ToBits(e % 16, 4)
  {
    hide OctetBits, ToBits, Pow2, TwoOctets, HighOctets;
    assert Pow2(4) == 16 by { Pow2Values(); }
    EciParts(e);
    ToBitsSplit(e / 16, e % 16, 24, 4);
    ThreeOctets(e / 16);
    var three := [e / 16 / 65536] + TwoOctets(e / 16 % 65536);
    OctetBitsConcat(buf, three);
    assert OctetBits(buf) + (OctetBits(three) + ToBits(e % 16, 4))
        == OctetBits(buf) + OctetBits(three) + ToBits(e % 16, 4);
  }

  /** A cell after bits that, with its two clear ones, pad to whole octets. */
  lemma CellIs(w: seq<bool>, buf: seq<octet>, c: Cgi)
    requires AppendPad(w + [false] + [false]) == OctetBits(buf) && |c.plmn| == 3 && c.eci <= 0x0fff_ffff
    ensures AppendCgi(w, c)
         == Success(OctetBits(buf + c.plmn + HighOctets(c.eci))
                    + ToBits(c.eci % 16, 4))
  {
    hide OctetBits, AppendPad, ToBits, HighOctets;
    WholeOctets(buf, c.plmn);
    WholeOctets(buf + c.plmn, []);
    EciIs(buf + c.plmn, c.eci);
  }

  /** After half an octet two more clear bits leave two to pad. */
  lemma HalfOctet(buf: seq<octet>, n: nat)
    requires n < 16
    ensures AppendPad(OctetBits(buf) + ToBits(n, 4)) == OctetBits(buf + [16 * n])
    ensures AppendPad(OctetBits(buf) + ToBits(n, 4) + [false] + [false]) == OctetBits(buf + [16 * n])
  {
    hide OctetBits, ToBits, Pow2;
    assert Pow2(4) == 16 by { Pow2Values(); }
    FilledOctet(buf, n, 4);
    var w := OctetBits(buf) + ToBits(n, 4);
    assert w + Zeros(4) == w + [false] + [false] + Zeros(2);
  }

  /** A list of cells: each starts where the half octet before it ends. */
  lemma {:induction false} CellsAre(w: seq<bool>, buf: seq<octet>, cells: seq<Cgi>)
    requires AppendPad(w + [false] + [false]) == OctetBits(buf)
    requires cells != [] && forall c | c in cells :: |c.plmn| == 3 && c.eci <= 0x0fff_ffff
    ensures AppendCgis(w, cells).Success?
    ensures Finish(AppendCgis(w, cells).value) == buf + CellOctets(cells)
    decreases |cells|
  {
    hide AppendCgi, OctetBits, ToBits, AppendPad, HighOctets, TwoOctets;
    var c, rest := cells[0], cells[1..];
    assert c in cells;
    CellIs(w, buf, c);
    var head := buf + c.plmn + HighOctets(c.eci);
    var next := head + [16 * (c.eci % 16)];
    HalfOctet(head, c.eci % 16);
    assert buf + CellOctets(cells) == next + CellOctets(rest);
    if rest == [] {
      ToOctetsOfBits(next);
    } else {
      CellsAre(OctetBits(head) + ToBits(c.eci % 16, 4), next, rest);
    }
  }

  /** Two clear bits after whole octets. */
  lemma ClearOctet(buf: seq<octet>)
    ensures AppendPad(OctetBits(buf) + [false] + [false]) == OctetBits(buf + [0])
  {
    hide OctetBits, ToBits, AppendPad, Pow2;
    assert ToBits(0, 2) == [false, false] by { ToBitsZero(2); }
    assert Pow2(2) == 4 by { Pow2Values(); }
    FilledOctet(buf, 0, 2);
    assert OctetBits(buf) + [false] + [false] == OctetBits(buf) + ToBits(0, 2);
  }

  /** What comes before the entries of an area: which alternative, and how many. */
  lemma AreaHead(choice: int, n: nat)
    requires 0 <= choice <= 2
    ensures AppendNumber([false], 0, 2, choice).Success?
    ensures AppendNumber(AppendNumber([false], 0, 2, choice).value, 1, 65535, n)
         == if 1 <= n <= 65535 then Success(OctetBits([32 * choice] + TwoOctets(n - 1))) else Failure(ValueOutOfRange)
  {
    hide OctetBits, AppendPad, ToBits, TwoOctets;
    TwoBitNumber([false], choice);
    Preamble(choice);
    if 1 <= n <= 65535 {
      NumberIs([false] + ToBits(choice, 2), [32 * choice], 1, 65535, n);
    }
  }

  lemma CellAreaIs(cells: seq<Cgi>)
    requires EncodeCells(cells).Success?
    ensures cells != []
    ensures EncodeCells(cells).value == [0] + TwoOctets(|cells| - 1) + [0] + CellOctets(cells)
  {
    hide AppendNumber, AppendCgis, OctetBits, AppendPad, Finish, TwoOctets, CellOctets;
    AreaHead(AREA_CELLS, |cells|);
    var head := [0] + TwoOctets(|cells| - 1);
    EachCellFits(OctetBits(head), cells);
    ClearOctet(head);
    CellsAre(OctetBits(head), head + [0], cells);
  }

  lemma {:induction false} EachCellFits(w: seq<bool>, cells: seq<Cgi>)
    requires AppendCgis(w, cells).Success?
    ensures forall c | c in cells :: |c.plmn| == 3 && c.eci <= 0x0fff_ffff
    decreases |cells|
  {
    hide AppendCgi;
    if cells != [] {
      CgiSize(w, cells[0]);
      EachCellFits(AppendCgi(w, cells[0]).value, cells[1..]);
      assert cells == [cells[0]] + cells[1..];
    }
  }

  lemma {:induction false} EachAreaFits(w: seq<bool>, areas: seq<Tai>)
    requires AppendTais(w, areas).Success?
    ensures forall t | t in areas :: |t.plmn| == 3
    decreases |areas|
  {
    hide AppendPad, OctetBits, ToBits;
    if areas != [] {
      EachAreaFits(AppendTai(w, areas[0]).value, areas[1..]);
      assert areas == [areas[0]] + areas[1..];
    }
  }

  /** A list of tracking areas after whole octets. */
  lemma TaisFinished(head: seq<octet>, areas: seq<Tai>)
    requires AppendTais(OctetBits(head), areas).Success?
    ensures Finish(AppendTais(OctetBits(head), areas).value) == head + TaiOctets(areas)
  {
    hide AppendTais, OctetBits, Finish, TaiOctets;
    EachAreaFits(OctetBits(head), areas);
    TaisAre(head, areas);
    WholeOctets(head + TaiOctets(areas), []);
  }

  lemma TrackingAreaIs(areas: seq<Tai>)
    requires EncodeTais(areas).Success?
    ensures areas != []
    ensures EncodeTais(areas).value == [32] + TwoOctets(|areas| - 1) + TaiOctets(areas)
  {
    hide AppendNumber, AppendTais, OctetBits, AppendPad, Finish, TwoOctets, TaiOctets;
    AreaHead(AREA_TRACKING, |areas|);
    TaisFinished([32] + TwoOctets(|areas| - 1), areas);
  }

  // The messages the CBC sends

  /** The area element of an encoded request. */
  lemma AreaIs(scope: int, plmn: seq<octet>, ids: seq<uint32>)
    requires AreaShape(scope, plmn, ids) && AreaIE(scope, plmn, ids).Success?
    requires forall ie | ie in AreaIE(scope, plmn, ids).value :: Encodable(ie)
    ensures ElementsOctets(AreaIE(scope, plmn, ids).value) == AreaOctets(scope, plmn, ids)
    ensures |AreaIE(scope, plmn, ids).value| == if scope == 1 then 0 else 1
  {
    hide EncodeCells, EncodeTais, CellOctets, TaiOctets, ElementOctets;
    var area := AreaIE(scope, plmn, ids).value;
    if scope == 2 {
      var tacs := NarrowTacs(ids).value;
      TrackingAreaIs(TaisOf(plmn, tacs));
      assert TaisOf(plmn, tacs) == seq(|ids|, i requires 0 <= i < |ids| => Tai(plmn, ids[i] % 0x1_0000));
      OneElement(area[0]);
    } else if scope == 3 {
      CellAreaIs(CellsOf(plmn, ids));
      assert CellsOf(plmn, ids) == seq(|ids|, i requires 0 <= i < |ids| => Cgi(plmn, ids[i]));
      OneElement(area[0]);
    }
  }

  lemma OneElement(ie: ProtocolIE)
    requires Encodable(ie)
    ensures ElementsOctets([ie]) == IEOctets(ie)
  {
    assert [ie][1..] == [];
    assert IEOctets(ie) + [] == IEOctets(ie);
  }

  lemma {:induction false} ElementsConcat(a: seq<ProtocolIE>, b: seq<ProtocolIE>)
    requires forall ie | ie in a + b :: Encodable(ie)
    ensures (forall ie | ie in a :: Encodable(ie)) && (forall ie | ie in b :: Encodable(ie))
    ensures ElementsOctets(a + b) == ElementsOctets(a) + ElementsOctets(b)
    decreases |a|
  {
    hide IEOctets, Encodable;
    assert forall ie | ie in a :: ie in a + b;
    assert forall ie | ie in b :: ie in a + b;
    if a == [] {
      assert a + b == b;
    } else {
      assert (a + b)[1..] == a[1..] + b;
      assert forall ie | ie in a[1..] + b :: ie in a + b;
      ElementsConcat(a[1..], b);
      assert a[0] in a;
      Grouped(IEOctets(a[0]), ElementsOctets(a[1..]), ElementsOctets(b));
    }
  }

  lemma IdentifiersAre(messageId: uint16, serial: uint16)
    ensures forall ie | ie in Identifiers(messageId, serial) :: Encodable(ie)
    ensures ElementsOctets(Identifiers(messageId, serial))
         == ElementOctets(5, 0, TwoOctets(messageId)) + ElementOctets(11, 0, TwoOctets(serial))
  {
    hide ElementOctets, ElementsOctets;
    var ies := Identifiers(messageId, serial);
    ElementsConcat([ies[0]], [ies[1]]);
    OneElement(ies[0]);
    OneElement(ies[1]);
    assert ies == [ies[0]] + [ies[1]];
  }

  lemma DeliveryIs(rep: seq<octet>, num: seq<octet>, dcs: octet, contents: seq<octet>)
    requires |rep| == 2 && |num| == 2 && |contents| <= 9602
    ensures forall ie | ie in DeliveryIEs(rep, num, dcs, contents) :: Encodable(ie)
    ensures ElementsOctets(DeliveryIEs(rep, num, dcs, contents))
         == ElementOctets(10, 0, rep) + ElementOctets(7, 0, num) + ElementOctets(3, 64, [dcs])
            + ElementOctets(16, 64, contents) + ElementOctets(20, 0, []) + ElementOctets(24, 64, [])
  {
    hide ElementOctets, ElementsOctets;
    var d := DeliveryIEs(rep, num, dcs, contents);
    forall k | 0 <= k < 6
      ensures ElementsOctets([d[k]]) == IEOctets(d[k])
    {
      OneElement(d[k]);
    }
    ElementsConcat(d[..5], [d[5]]);
    ElementsConcat(d[..4], [d[4]]);
    ElementsConcat(d[..3], [d[3]]);
    ElementsConcat(d[..2], [d[2]]);
    ElementsConcat([d[0]], [d[1]]);
    assert d == d[..5] + [d[5]] && d[..5] == d[..4] + [d[4]] && d[..4] == d[..3] + [d[3]];
    assert d[..3] == d[..2] + [d[2]] && d[..2] == [d[0]] + [d[1]];
  }

  /**
   A Write-Replace-Warning-Request on the wire: kind 0, procedure 0, and the
   elements message identifier (5), serial number (11), warning area (15)
   unless PLMN-wide, repetition period (10), number of broadcasts (7), coding
   scheme (3), contents (16) and the two indicators (20 and 24), in this order.
   */
  lemma WriteReplaceOctets(
    messageId: uint16, serial: uint16, dcs: octet, contents: seq<octet>,
    repetition: uint16, broadcasts: uint16, scope: int, plmn: seq<octet>, ids: seq<uint32>)
    requires WriteReplaceTarget(messageId, serial, dcs, contents, repetition, broadcasts, scope, plmn, ids).Success?
    ensures
      var pdu := WriteReplaceTarget(messageId, serial, dcs, contents, repetition, broadcasts, scope, plmn, ids).value;
      && |pdu| > 2 && pdu[0] == 0 && pdu[1] == 0
      && pdu == PduOctets(
              0, 0, 0, if scope == 1 then 8 else 9,
              ElementOctets(5, 0, TwoOctets(messageId)) + ElementOctets(11, 0, TwoOctets(serial))
              + AreaOctets(scope, plmn, ids)
              + (ElementOctets(10, 0, TwoOctets(repetition)) + ElementOctets(7, 0, TwoOctets(broadcasts))
                 + ElementOctets(3, 64, [dcs]) + ElementOctets(16, 64, TwoOctets(OneLess(|contents|)) + contents)
                 + ElementOctets(20, 0, []) + ElementOctets(24, 64, [])))
  {
    hide EncodePdu, EncodeInt, EncodeContents, AreaIE, AreaOctets, ElementOctets, ElementsOctets, PduOctets, TwoOctets,
      Encodable, Identifiers, DeliveryIEs, IdsInRange, AreaSize;
    WriteReplaceAccepts(messageId, serial, dcs, contents, repetition, broadcasts, scope, plmn, ids);
    TwoOctetInt(0, 4096, repetition);
    TwoOctetInt(0, 65535, broadcasts);
    ContentsReadBack(contents);
    IntIs(0, 4096, repetition);
    IntIs(0, 65535, broadcasts);
    ContentsAre(contents);
    var rep, num := EncodeInt(0, 4096, repetition).value, EncodeInt(0, 65535, broadcasts).value;
    var content := EncodeContents(contents).value;
    var head, area, tail := Identifiers(messageId, serial), AreaIE(scope, plmn, ids).value,
      DeliveryIEs(rep, num, dcs, content);
    Counts(messageId, serial, rep, num, dcs, content);
    PduIs(0, 0, 0, head + area + tail);
    ElementsConcat(head + area, tail);
    ElementsConcat(head, area);
    AreaIs(scope, plmn, ids);
    IdentifiersAre(messageId, serial);
    DeliveryIs(rep, num, dcs, content);
  }

  /** A Stop-Warning-Request on the wire: kind 0, procedure 1, both identifiers and the area. */
  lemma StopOctets(messageId: uint16, serial: uint16, scope: int, plmn: seq<octet>, ids: seq<uint32>)
    requires StopTarget(messageId, serial, scope, plmn, ids).Success?
    ensures
      var pdu := StopTarget(messageId, serial, scope, plmn, ids).value;
      && |pdu| > 2 && pdu[0] == 0 && pdu[1] == 1
      && pdu == PduOctets(
              0, 1, 0, if scope == 1 then 2 else 3,
              ElementOctets(5, 0, TwoOctets(messageId)) + ElementOctets(11, 0, TwoOctets(serial))
              + AreaOctets(scope, plmn, ids))
  {
    hide EncodePdu, AreaIE, AreaOctets, ElementOctets, ElementsOctets, PduOctets, TwoOctets, Encodable, Identifiers;
    var head, area := Identifiers(messageId, serial), AreaIE(scope, plmn, ids).value;
    PduIs(0, 1, 0, head + area);
    ElementsConcat(head, area);
    AreaIs(scope, plmn, ids);
    IdentifiersAre(messageId, serial);
    IdentifiersEncodable(messageId, serial);
  }

  /** A successful response on the wire: kind 32, the procedure, both identifiers and the cause (1). */
  lemma ResponseOctets(procedure: int, messageId: uint16, serial: uint16, cause: int)
    requires SuccessResponse(procedure, messageId, serial, cause).Success?
    ensures 0 <= procedure <= 1 && 0 <= cause <= 255
    ensures
      var pdu := SuccessResponse(procedure, messageId, serial, cause).value;
      && |pdu| > 2 && pdu[0] == 32 && pdu[1] == procedure
      && pdu == PduOctets(
              32, procedure, 0, 3,
              ElementOctets(5, 0, TwoOctets(messageId)) + ElementOctets(11, 0, TwoOctets(serial))
              + ElementOctets(1, 0, [cause]))
  {
    hide EncodePdu, EncodeInt, ElementOctets, ElementsOctets, PduOctets, TwoOctets, Encodable, Identifiers;
    OctetInt(cause);
    CauseIs(cause);
    var head, tail := Identifiers(messageId, serial), [ProtocolIE(ID_CAUSE, CRIT_REJECT, [cause])];
    PduIs(1, procedure, 0, head + tail);
    ElementsConcat(head, tail);
    OneElement(tail[0]);
    IdentifiersAre(messageId, serial);
    IdentifiersEncodable(messageId, serial);
  }

  /** An error indication on the wire: kind 0, procedure 2, ignored if not understood, the cause alone. */
  lemma ErrorIndicationOctets(cause: octet)
    ensures ErrorIndication(cause) == Success(PduOctets(0, 2, 64, 1, ElementOctets(1, 64, [cause])))
  {
    hide EncodePdu, EncodeInt, ElementOctets, ElementsOctets, PduOctets, TwoOctets, Encodable;
    ErrorIndicationReadBack(cause);
    CauseIs(cause);
    var ie := ProtocolIE(ID_CAUSE, CRIT_IGNORE, [cause]);
    PduIs(0, 2, 1, [ie]);
    OneElement(ie);
  }

  // The indications the CBC receives

  lemma OctetCount(n: nat)
    ensures AppendNumber([], 1, 256, n)
         == if 1 <= n <= 256 then Success(OctetBits([n - 1])) else Failure(ValueOutOfRange)
  {
    hide OctetBits, AppendPad, ToBits;
    WholeOctets([], []);
    assert OctetBits([]) == [];
    if 1 <= n <= 256 {
      assert [] + [n - 1] == [n - 1];
      OctetNumberIs([], [], 1, n);
    }
  }

  lemma CellListIs(cells: seq<Cgi>)
    requires EncodeCellList(1, 256, cells).Success?
    ensures 1 <= |cells| <= 256
    ensures EncodeCellList(1, 256, cells).value == [|cells| - 1] + [0] + CellOctets(cells)
  {
    hide AppendCgis, AppendNumber, OctetBits, AppendPad, Finish, CellOctets;
    OctetCount(|cells|);
    var n := [|cells| - 1];
    EachCellFits(OctetBits(n), cells);
    ClearOctet(n);
    CellsAre(OctetBits(n), n + [0], cells);
  }

  lemma TwoOctetCount(n: nat)
    ensures AppendNumber([], 1, 2048, n)
         == if 1 <= n <= 2048 then Success(OctetBits(TwoOctets(n - 1))) else Failure(ValueOutOfRange)
  {
    hide OctetBits, AppendPad, ToBits, TwoOctets;
    WholeOctets([], []);
    assert OctetBits([]) == [];
    if 1 <= n <= 2048 {
      assert [] + TwoOctets(n - 1) == TwoOctets(n - 1);
      NumberIs([], [], 1, 2048, n);
    }
  }

  lemma TaiListIs(areas: seq<Tai>)
    requires EncodeTaiList(areas).Success?
    ensures 1 <= |areas| <= 2048
    ensures EncodeTaiList(areas).value == TwoOctets(|areas| - 1) + TaiOctets(areas)
  {
    hide AppendNumber, AppendTais, OctetBits, AppendPad, Finish, TwoOctets, TaiOctets;
    TwoOctetCount(|areas|);
    TaisFinished(TwoOctets(|areas| - 1), areas);
  }

  /** Two bits, then a bit string that starts at the next octet. */
  lemma RootEnbIs(buf: seq<octet>, enb: EnbId)
    requires ValidEnbId(enb) && (enb.kind.Macro? || enb.kind.Home?)
    ensures AppendEnbId(OctetBits(buf), enb).Success?
    ensures Finish(AppendEnbId(OctetBits(buf), enb).value)
         == var v := enb.value;
            buf + if enb.kind.Macro? then [0, v / 4096 % 256, v / 16 % 256, 16 * (v % 16)]
                  else [64] + HighOctets(v) + [16 * (v % 16)]
  {
    hide OctetBits, AppendPad, ToBits, Pow2;
    var v := enb.value;
    assert Pow2(28) == 0x1000_0000 by { Pow2Values(); }
    if enb.kind.Macro? {
      ClearOctet(buf);
      MacroIs(buf + [0], v);
    } else {
      SixtyFour(buf);
      EciIs(buf + [64], v);
      HalfOctet(buf + [64] + HighOctets(v), v % 16);
      ToOctetsOfBits(buf + [64] + HighOctets(v) + [16 * (v % 16)]);
      assert buf + [64] + HighOctets(v) + [16 * (v % 16)] == buf + ([64] + HighOctets(v) + [16 * (v % 16)]);
    }
  }

  lemma SixtyFour(buf: seq<octet>)
    ensures AppendPad(OctetBits(buf) + [false] + [true]) == OctetBits(buf + [64])
  {
    hide OctetBits, AppendPad, Pow2;
    assert Pow2(2) == 4 && Pow2(6) == 64 by { Pow2Values(); }
    FilledOctet(buf, 1, 2);
    assert ToBits(1, 2) == [false, true];
    assert OctetBits(buf) + [false] + [true] == OctetBits(buf) + ToBits(1, 2);
  }

  /** 20 bits are two octets and a half. */
  lemma MacroIs(buf: seq<octet>, v: nat)
    requires v < Pow2(20)
    ensures Finish(OctetBits(buf) + ToBits(v, 20)) == buf + [v / 4096 % 256, v / 16 % 256, 16 * (v % 16)]
  {
    hide OctetBits, ToBits, Pow2, AppendPad;
    assert Pow2(4) == 16 && Pow2(16) == 65536 by { Pow2Values(); }
    Pow2Add(4, 16);
    var h := v / 16;
    assert h / 256 == v / 4096 by { DivDiv(v, 16, 256); }
    ToBitsSplit(h, v % 16, 16, 4);
    SixteenBits(h);
    OctetBitsConcat(buf, TwoOctets(h));
    assert OctetBits(buf) + (OctetBits(TwoOctets(h)) + ToBits(v % 16, 4))
        == OctetBits(buf) + OctetBits(TwoOctets(h)) + ToBits(v % 16, 4);
    HalfOctet(buf + TwoOctets(h), v % 16);
    var all := buf + TwoOctets(h) + [16 * (v % 16)];
    ToOctetsOfBits(all);
    assert all == buf + [v / 4096 % 256, v / 16 % 256, 16 * (v % 16)];
  }

  /** 18 or 21 bits are two octets and a part of one. */
  lemma ExtensionIs(enb: EnbId)
    requires ValidEnbId(enb) && (enb.kind.ShortMacro? || enb.kind.LongMacro?)
    ensures ExtensionContent(enb)
         == var v := enb.value;
            if enb.kind.ShortMacro? then [v / 1024 % 256, v / 4 % 256, 64 * (v % 4)]
            else [v / 8192 % 256, v / 32 % 256, 8 * (v % 32)]
  {
    hide ToBits, Pow2, AppendPad, OctetBits;
    assert Pow2(2) == 4 && Pow2(3) == 8 && Pow2(5) == 32 && Pow2(6) == 64 && Pow2(16) == 65536 by { Pow2Values(); }
    var v := enb.value;
    if enb.kind.ShortMacro? {
      Pow2Add(2, 16);
      assert v / 4 / 256 == v / 1024 by { DivDiv(v, 4, 256); }
      TwoAndPart(v / 4, v % 4, 2);
    } else {
      Pow2Add(5, 16);
      assert v / 32 / 256 == v / 8192 by { DivDiv(v, 32, 256); }
      TwoAndPart(v / 32, v % 32, 5);
    }
  }

  lemma TwoAndPart(h: nat, low: nat, n: nat)
    requires h < 0x1_0000 && 0 < n < 8 && low < Pow2(n)
    ensures low * Pow2(8 - n) < 256
    ensures Finish(ToBits(h * Pow2(n) + low, 16 + n)) == TwoOctets(h) + [low * Pow2(8 - n)]
  {
    hide ToBits, Pow2, AppendPad, OctetBits, TwoOctets;
    ToBitsSplit(h, low, 16, n);
    SixteenBits(h);
    FilledOctet(TwoOctets(h), low, n);
    ToOctetsOfBits(TwoOctets(h) + [low * Pow2(8 - n)]);
  }

  lemma ExtensionEnbIs(buf: seq<octet>, enb: EnbId)
    requires ValidEnbId(enb) && (enb.kind.ShortMacro? || enb.kind.LongMacro?)
    ensures AppendEnbId(OctetBits(buf), enb)
         == Success(OctetBits(buf + [if enb.kind.ShortMacro? then 128 else 129, 3] + ExtensionContent(enb)))
  {
    hide OctetBits, AppendPad, Pow2, ToBits, ExtensionContent, AppendOpenType;
    ExtensionContentReadBack(enb);
    var index := if enb.kind.ShortMacro? then 0 else 1;
    var content := ExtensionContent(enb);
    ExtensionIndex(buf, index);
    WholeOctets(buf + [128 + index], []);
    OpenIs(OctetBits(buf) + [true] + [false] + ToBits(index, 6), buf + [128 + index], content);
    assert buf + [128 + index] + ([3] + content) == buf + [128 + index, 3] + content;
  }

  lemma TopBit(index: nat)
    requires index < 2
    ensures [true] + [false] + ToBits(index, 6) == ToBits(128 + index, 8)
  {
    hide ToBits, Pow2;
    assert Pow2(6) == 64 by { Pow2Values(); }
    assert ToBits(2, 2) == [true, false] by { BinaryTwo(); }
    ToBitsSplit(2, index, 2, 6);
  }

  lemma BinaryTwo()
    ensures ToBits(2, 2) == [true, false]
  {
    assert ToBits(1, 1) == [true];
  }

  lemma ExtensionIndex(buf: seq<octet>, index: nat)
    requires index < 2
    ensures AppendPad(OctetBits(buf) + [true] + [false] + ToBits(index, 6)) == OctetBits(buf + [128 + index])
  {
    hide OctetBits, AppendPad, ToBits;
    TopBit(index);
    OneOctet(128 + index);
    OctetBitsConcat(buf, [128 + index]);
    WholeOctets(buf + [128 + index], []);
    assert OctetBits(buf) + ([true] + [false] + ToBits(index, 6))
        == OctetBits(buf) + [true] + [false] + ToBits(index, 6);
  }

  lemma EnbIs(g: GlobalEnbId)
    requires ValidEnbId(g.enb) && |g.plmn| == 3
    ensures EncodeGlobalEnbId(g) == Success(EnbOctets(g))
  {
    hide OctetBits, AppendPad, AppendEnbId, Pow2, ExtensionContent, HighOctets;
    assert OctetBits([]) == [] && [] + [0] == [0] by { WholeOctets([], []); }
    assert OctetBits([]) + [false] + [false] == [] + [false] + [false];
    ClearOctet([]);
    var buf := [0] + g.plmn;
    OctetBitsConcat([0], g.plmn);
    if g.enb.kind.Macro? || g.enb.kind.Home? {
      RootEnbIs(buf, g.enb);
    } else {
      ExtensionEnbIs(buf, g.enb);
      ExtensionIs(g.enb);
      var all := buf + [if g.enb.kind.ShortMacro? then 128 else 129, 3] + ExtensionContent(g.enb);
      ToOctetsOfBits(all);
      assert AppendPad(OctetBits(all)) == OctetBits(all) by { WholeOctets(all, []); }
      assert all == EnbOctets(g);
    }
  }

  /** A PWS-Restart-Indication: procedure 5, the restarted cells (30), the eNB (28) and the tracking areas (31). */
  function RestartWire(ri: RestartIndication): seq<octet> {
    PduOctets(
      0, 5, 64, 3,
      ElementOctets(30, 0, [OneLess(|ri.cells|) % 256, 0] + CellOctets(ri.cells))
      + ElementOctets(28, 0, EnbOctets(ri.enb))
      + ElementOctets(31, 0, TwoOctets(OneLess(|ri.tais|)) + TaiOctets(ri.tais)))
  }

  /** A PWS-Failure-Indication: procedure 6, the failed cells (33) and the eNB (28). */
  function FailureWire(fi: FailureIndication): seq<octet> {
    PduOctets(
      0, 6, 64, 2,
      ElementOctets(33, 0, [OneLess(|fi.cells|) % 256, 0] + CellOctets(fi.cells))
      + ElementOctets(28, 0, EnbOctets(fi.enb)))
  }

  /** These octets are decoded to the indication. */
  lemma RestartOctets(ri: RestartIndication)
    requires ValidEnbId(ri.enb.enb) && EncodeRestart(ri).Success?
    ensures DecodeRestart(RestartWire(ri)) == Success(ri)
  {
    hide EncodePdu, DecodePdu, EncodeCellList, EncodeGlobalEnbId, EncodeTaiList, ElementOctets, ElementsOctets,
      PduOctets, TwoOctets, Encodable, EnbOctets, CellOctets, TaiOctets, DecodeRestart, OpenOctets;
    var c, g := EncodeCellList(1, 256, ri.cells).value, EncodeGlobalEnbId(ri.enb).value;
    var t := EncodeTaiList(ri.tais).value;
    CellListIs(ri.cells);
    TaiListIs(ri.tais);
    assert |ri.enb.plmn| == 3 by { assert EncodeGlobalEnbId(ri.enb).Success?; PlmnSize(ri.enb); }
    EnbIs(ri.enb);
    var ies := RestartIEs(c, g, t);
    PduIs(0, 5, 1, ies);
    ElementsConcat([ies[0]] + [ies[1]], [ies[2]]);
    ElementsConcat([ies[0]], [ies[1]]);
    assert ies == [ies[0]] + [ies[1]] + [ies[2]];
    OneElement(ies[0]);
    OneElement(ies[1]);
    OneElement(ies[2]);
    assert c == [OneLess(|ri.cells|) % 256, 0] + CellOctets(ri.cells);
    RestartReadBack(ri);
  }

  lemma PlmnSize(g: GlobalEnbId)
    requires ValidEnbId(g.enb) && EncodeGlobalEnbId(g).Success?
    ensures |g.plmn| == 3
  {
    hide AppendEnbId;
  }

  lemma FailureOctets(fi: FailureIndication)
    requires ValidEnbId(fi.enb.enb) && EncodeFailure(fi).Success?
    ensures DecodeFailure(FailureWire(fi)) == Success(fi)
  {
    hide EncodePdu, DecodePdu, EncodeCellList, EncodeGlobalEnbId, ElementOctets, ElementsOctets,
      PduOctets, TwoOctets, Encodable, EnbOctets, CellOctets, DecodeFailure;
    var c, g := EncodeCellList(1, 256, fi.cells).value, EncodeGlobalEnbId(fi.enb).value;
    CellListIs(fi.cells);
    assert |fi.enb.plmn| == 3 by { assert EncodeGlobalEnbId(fi.enb).Success?; PlmnSize(fi.enb); }
    EnbIs(fi.enb);
    var ies := [ProtocolIE(ID_FAILED_CELLS, CRIT_REJECT, c), ProtocolIE(ID_GLOBAL_ENB, CRIT_REJECT, g)];
    PduIs(0, 6, 1, ies);
    ElementsConcat([ies[0]], [ies[1]]);
    assert ies == [ies[0]] + [ies[1]];
    OneElement(ies[0]);
    OneElement(ies[1]);
    assert c == [OneLess(|fi.cells|) % 256, 0] + CellOctets(fi.cells);
    FailureReadBack(fi);
  }

  /** A Write-Replace-Warning-Indication: procedure 3, its identifiers first. */
  lemma WriteReplaceIndicationOctets(messageId: uint16, serial: uint16)
    ensures DecodeWriteReplaceIndication(PduOctets(
              0, 3, 64, 2, ElementOctets(5, 0, TwoOctets(messageId)) + ElementOctets(11, 0, TwoOctets(serial))))
         == Success(Ids(messageId, serial))
  {
    hide EncodePdu, DecodePdu, ElementOctets, ElementsOctets, PduOctets, TwoOctets, Encodable, Identifiers,
      DecodeWriteReplaceIndication;
    var ies := Identifiers(messageId, serial);
    IdentifiersAre(messageId, serial);
    IdentifiersEncodable(messageId, serial);
    EncodePduAccepts(0, 3, 1, ies);
    PduIs(0, 3, 1, ies);
    assert ies + [] == ies;
    WriteReplaceIndicationReadBack(messageId, serial, 1, []);
  }

  /** A cell list naming any networks: every cell is read in order, and the network of the last. */
  lemma CellListRead(cells: seq<Cgi>)
    requires 1 <= |cells| <= 65535 && forall c | c in cells :: |c.plmn| == 3 && c.eci <= 0x0fff_ffff
    ensures DecodeArea([0] + TwoOctets(|cells| - 1) + [0] + CellOctets(cells))
         == Success(WarningArea(
              true, cells[|cells| - 1].plmn, seq(|cells|, i requires 0 <= i < |cells| => cells[i].eci), []))
  {
    hide DecodeArea, CellOctets, TwoOctets;
    CellsEncoded(cells);
    hide EncodeCells;
    CellAreaIs(cells);
    CellsReadBack(cells);
  }

  lemma CellsEncoded(cells: seq<Cgi>)
    requires 1 <= |cells| <= 65535 && forall c | c in cells :: |c.plmn| == 3 && c.eci <= 0x0fff_ffff
    ensures EncodeCells(cells).Success?
  {
    hide AppendNumber, AppendCgis;
    AreaPreamble(AREA_CELLS, |cells|);
    CgiListSize(AppendNumber(AppendNumber([false], 0, 2, AREA_CELLS).value, 1, 65535, |cells|).value, cells);
  }

  /** A list of tracking areas of any networks: every code is read in order, and the network of the last. */
  lemma TaiListRead(areas: seq<Tai>)
    requires 1 <= |areas| <= 65535 && forall t | t in areas :: |t.plmn| == 3
    ensures DecodeArea([32] + TwoOctets(|areas| - 1) + TaiOctets(areas))
         == Success(WarningArea(
              false, areas[|areas| - 1].plmn, [], seq(|areas|, i requires 0 <= i < |areas| => areas[i].tac)))
  {
    hide DecodeArea, TaiOctets, TwoOctets;
    TaisEncoded(areas);
    hide EncodeTais;
    TrackingAreaIs(areas);
    TaiAreaReadBack(areas);
  }

  lemma TaisEncoded(areas: seq<Tai>)
    requires 1 <= |areas| <= 65535 && forall t | t in areas :: |t.plmn| == 3
    ensures EncodeTais(areas).Success?
  {
    hide AppendNumber, AppendTais;
    AreaPreamble(AREA_TRACKING, |areas|);
    TaisSize(AppendNumber(AppendNumber([false], 0, 2, AREA_TRACKING).value, 1, 65535, |areas|).value, areas);
  }

  /** An error indication without a cause is understood as such. */
  lemma CauselessIndicationRead()
    ensures DecodeErrorIndication(PduOctets(0, 2, 64, 0, [])) == Success(NoCause)
  {
    hide EncodePdu, DecodePdu, PduOctets, ElementsOctets;
    EncodePduAccepts(0, 2, 1, []);
    PduIs(0, 2, 1, []);
    PduReadBack(0, 2, 1, []);
    assert ElementsOctets([]) == [] by { NoElements(); }
    assert ReceivedAll([]) == [];
  }

  lemma NoElements()
    ensures ElementsOctets([]) == []
  {
  }
}
