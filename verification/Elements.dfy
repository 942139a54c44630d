/** Values of the SBcAP protocol elements, and their round trips. */
module Elements {
  import opened Wrappers
  import opened Bits
  import opened Per
  import opened Pdu

  type uint16 = x: int | 0 <= x < 0x1_0000
  type uint32 = x: int | 0 <= x < 0x1_0000_0000

  type Encoded = Result<seq<octet>, Error>

  // Fixed bit strings

  function Encode16(v: uint16): seq<octet> {
    [v / 256, v % 256]
  }

  function Decode16(b: seq<octet>): Result<uint16, Error> {
    if |b| != 2 then Failure(BadFixedLength) else Success((b[0] as int) * 256 + b[1])
  }

  function Encode8(v: octet): seq<octet> {
    [v]
  }

  function Decode8(b: seq<octet>): Result<octet, Error> {
    if |b| != 1 then Failure(BadFixedLength) else Success(b[0])
  }

  lemma Fixed16ReadBack(v: uint16)
    ensures Decode16(Encode16(v)) == Success(v)
  {
  }

  // Small integers and contents

  function EncodeInt(lb: int, ub: int, value: int): Encoded {
    var w :- AppendNumber([], lb, ub, value);
    Success(Finish(w))
  }

  function Unwrap<T>(p: Parsed<T>): Result<T, Error> {
    match p
    case Parsed(v, _) => Success(v)
    case Unparsed(e) => Failure(e)
  }

  function DecodeInt(content: seq<octet>, lb: int, ub: int): Result<int, Error> {
    Unwrap(ReadNumber(OctetBits(content), 0, lb, ub))
  }

  lemma IntReadBack(lb: int, ub: int, value: int)
    requires EncodeInt(lb, ub, value).Success?
    ensures DecodeInt(EncodeInt(lb, ub, value).value, lb, ub) == Success(value)
  {
    hide ReadNumber, AppendNumber, AppendPad, OctetBits;
    var w := AppendNumber([], lb, ub, value).value;
    FinishBits(w);
    NumberReadBack([], lb, ub, value, OctetBits(Finish(w)));
  }

  lemma TwoOctetInt(lb: int, ub: int, value: int)
    requires 257 <= ub - lb + 1 <= 65536
    ensures EncodeInt(lb, ub, value).Success? <==> lb <= value <= ub
    ensures lb <= value <= ub ==> |EncodeInt(lb, ub, value).value| == 2
  {
    hide ToBits;
  }

  function EncodeContents(data: seq<octet>): Encoded {
    var w :- AppendNumber([], 1, 9600, |data|);
    Success(Finish(AppendOctets(AppendPad(w), data)))
  }

  function ReadContents(s: seq<bool>): Parsed<seq<octet>> {
    var (n, p) :- ReadNumber(s, 0, 1, 9600);
    var (_, q) :- ReadPad(s, p);
    ReadOctets(s, q, n)
  }

  function DecodeContents(content: seq<octet>): Encoded {
    Unwrap(ReadContents(OctetBits(content)))
  }

  lemma ContentsReadBack(data: seq<octet>)
    ensures EncodeContents(data).Success? <==> 1 <= |data| <= 9600
    ensures EncodeContents(data).Success? ==>
      && DecodeContents(EncodeContents(data).value) == Success(data)
      && |EncodeContents(data).value| == |data| + 2
  {
    hide ReadNumber, ReadPad, ReadOctets, OctetBits, ToBits;
    if 1 <= |data| <= 9600 {
      var w := AppendNumber([], 1, 9600, |data|).value;
      var p := AppendPad(w);
      var r := AppendOctets(p, data);
      var s := OctetBits(Finish(r));
      FinishBits(r);
      assert w <= p <= r <= s;
      OctetsReadBack(p, data, s);
      PadReadBack(w, s);
      NumberReadBack([], 1, 9600, |data|, s);
    }
  }

  // Cell and tracking-area identities

  datatype Cgi = Cgi(plmn: seq<octet>, eci: uint32)
  datatype Tai = Tai(plmn: seq<octet>, tac: uint16)

  function AppendCgi(w: seq<bool>, c: Cgi): Written {
    if |c.plmn| != 3 then Failure(BadPlmn)
    else if c.eci > 0x0fff_ffff then Failure(ValueOutOfRange)
    else Success(AppendPad(AppendOctets(AppendPad(w + [false] + [false]), c.plmn)) + ToBits(c.eci, 28))
  }

  function ReadCgi(s: seq<bool>, pos: nat): Parsed<Cgi> {
    var (_, p) :- ReadClear(s, pos);
    var (_, q) :- ReadClear(s, p);
    var (_, r) :- ReadPad(s, q);
    ReadCgiFields(s, r)
  }

  function ReadCgiFields(s: seq<bool>, pos: nat): Parsed<Cgi> {
    var (plmn, p) :- ReadOctets(s, pos, 3);
    var (_, q) :- ReadPad(s, p);
    var (eci, r) :- ReadBits(s, q, 28);
    Parsed(Cgi(plmn, eci % 0x1_0000_0000), r)
  }

  lemma CgiFieldsReadBack(p: seq<bool>, c: Cgi, s: seq<bool>)
    requires |p| % 8 == 0 && |c.plmn| == 3 && c.eci <= 0x0fff_ffff
    requires AppendOctets(p, c.plmn) + ToBits(c.eci, 28) <= s
    ensures ReadCgiFields(s, |p|) == Parsed(c, |p| + 52)
  {
    hide ReadBits, ReadPad, ReadOctets, OctetBits, ToBits, Pow2;
    var q := AppendOctets(p, c.plmn);
    assert q <= q + ToBits(c.eci, 28) <= s;
    OctetsReadBack(p, c.plmn, s);
    assert AppendPad(q) == q;
    PadReadBack(q, s);
    assert Pow2(28) == 0x1000_0000 by { Pow2Values(); }
    BitsReadBack(q, c.eci, 28, s);
  }

  lemma CgiReadBack(w: seq<bool>, c: Cgi, s: seq<bool>)
    requires AppendCgi(w, c).Success? && AppendCgi(w, c).value <= s
    ensures ReadCgi(s, |w|) == Parsed(c, |AppendCgi(w, c).value|)
    ensures w <= AppendCgi(w, c).value
  {
    hide ReadClear, ReadPad, ReadCgiFields, OctetBits, ToBits;
    var a := w + [false];
    var b := a + [false];
    var p := AppendPad(b);
    var q := AppendOctets(p, c.plmn);
    assert AppendPad(q) == q;
    assert a <= b <= p <= q <= q + ToBits(c.eci, 28) <= s;
    ClearReadBack(w, s);
    ClearReadBack(a, s);
    PadReadBack(b, s);
    CgiFieldsReadBack(p, c, s);
  }

  function AppendTai(w: seq<bool>, t: Tai): Written {
    if |t.plmn| != 3 then Failure(BadPlmn)
    else Success(AppendOctets(AppendPad(w + [false]), t.plmn) + ToBits(t.tac, 16))
  }

  function ReadTai(s: seq<bool>, pos: nat): Parsed<Tai> {
    var (_, p) :- ReadClear(s, pos);
    var (_, q) :- ReadPad(s, p);
    var (plmn, r) :- ReadOctets(s, q, 3);
    var (tac, t) :- ReadBits(s, r, 16);
    Parsed(Tai(plmn, tac % 0x1_0000), t)
  }

  lemma TaiReadBack(w: seq<bool>, t: Tai, s: seq<bool>)
    requires AppendTai(w, t).Success? && AppendTai(w, t).value <= s
    ensures ReadTai(s, |w|) == Parsed(t, |AppendTai(w, t).value|)
    ensures w <= AppendTai(w, t).value
  {
    hide ReadClear, ReadPad, ReadOctets, ReadBits, OctetBits, ToBits, Pow2;
    var a := w + [false];
    var p := AppendPad(a);
    var q := AppendOctets(p, t.plmn);
    assert a <= p <= q <= s;
    ClearReadBack(w, s);
    PadReadBack(a, s);
    OctetsReadBack(p, t.plmn, s);
    assert Pow2(16) == 65536 by { Pow2Values(); }
    BitsReadBack(q, t.tac, 16, s);
  }

  // Lists of them

  function AppendCgis(w: seq<bool>, cells: seq<Cgi>): Written
    decreases |cells|
  {
    if cells == [] then Success(w)
    else
      var next :- AppendCgi(w, cells[0]);
      AppendCgis(next, cells[1..])
  }

  function ReadCgis(s: seq<bool>, pos: nat, count: nat): (r: Parsed<seq<Cgi>>)
    ensures r.Parsed? ==> |r.value| == count
    decreases count
  {
    if count == 0 then Parsed([], pos)
    else
      var (c, p) :- ReadCgi(s, pos);
      var (rest, q) :- ReadCgis(s, p, count - 1);
      Parsed([c] + rest, q)
  }

  lemma {:induction false} CgisReadBack(w: seq<bool>, cells: seq<Cgi>, s: seq<bool>)
    requires AppendCgis(w, cells).Success? && AppendCgis(w, cells).value <= s
    ensures ReadCgis(s, |w|, |cells|) == Parsed(cells, |AppendCgis(w, cells).value|)
    ensures w <= AppendCgis(w, cells).value
    decreases |cells|
  {
    hide ReadCgi, AppendCgi;
    if cells == [] {
    } else {
      var next := AppendCgi(w, cells[0]).value;
      CgisReadBack(next, cells[1..], s);
      CgiReadBack(w, cells[0], s);
      assert cells == [cells[0]] + cells[1..];
    }
  }

  function AppendTais(w: seq<bool>, areas: seq<Tai>): Written
    decreases |areas|
  {
    if areas == [] then Success(w)
    else
      var next :- AppendTai(w, areas[0]);
      AppendTais(next, areas[1..])
  }

  function ReadTais(s: seq<bool>, pos: nat, count: nat): (r: Parsed<seq<Tai>>)
    ensures r.Parsed? ==> |r.value| == count
    decreases count
  {
    if count == 0 then Parsed([], pos)
    else
      var (t, p) :- ReadTai(s, pos);
      var (rest, q) :- ReadTais(s, p, count - 1);
      Parsed([t] + rest, q)
  }

  lemma {:induction false} TaisReadBack(w: seq<bool>, areas: seq<Tai>, s: seq<bool>)
    requires AppendTais(w, areas).Success? && AppendTais(w, areas).value <= s
    ensures ReadTais(s, |w|, |areas|) == Parsed(areas, |AppendTais(w, areas).value|)
    ensures w <= AppendTais(w, areas).value
    decreases |areas|
  {
    hide ReadTai, AppendTai;
    if areas == [] {
    } else {
      var next := AppendTai(w, areas[0]).value;
      TaisReadBack(next, areas[1..], s);
      TaiReadBack(w, areas[0], s);
      assert areas == [areas[0]] + areas[1..];
    }
  }

  // Warning-Area-List

  datatype WarningArea = WarningArea(isCellList: bool, plmn: seq<octet>, ecis: seq<uint32>, tacs: seq<uint16>)

  const AREA_CELLS := 0
  const AREA_TRACKING := 1

  function CellsOf(plmn: seq<octet>, ecis: seq<uint32>): seq<Cgi> {
    seq(|ecis|, i requires 0 <= i < |ecis| => Cgi(plmn, ecis[i]))
  }

  function TaisOf(plmn: seq<octet>, tacs: seq<uint16>): seq<Tai> {
    seq(|tacs|, i requires 0 <= i < |tacs| => Tai(plmn, tacs[i]))
  }

  function EncodeCells(cells: seq<Cgi>): Encoded {
    var a :- AppendNumber([false], 0, 2, AREA_CELLS);
    var b :- AppendNumber(a, 1, 65535, |cells|);
    var w :- AppendCgis(b, cells);
    Success(Finish(w))
  }

  function EncodeTais(areas: seq<Tai>): Encoded {
    var a :- AppendNumber([false], 0, 2, AREA_TRACKING);
    var b :- AppendNumber(a, 1, 65535, |areas|);
    var w :- AppendTais(b, areas);
    Success(Finish(w))
  }

  function EncodeCellArea(plmn: seq<octet>, ecis: seq<uint32>): Encoded {
    EncodeCells(CellsOf(plmn, ecis))
  }

  function EncodeTrackingArea(plmn: seq<octet>, tacs: seq<uint16>): Encoded {
    EncodeTais(TaisOf(plmn, tacs))
  }

  function LastPlmnC(cells: seq<Cgi>): seq<octet> {
    if cells == [] then [] else cells[|cells| - 1].plmn
  }

  function LastPlmnT(areas: seq<Tai>): seq<octet> {
    if areas == [] then [] else areas[|areas| - 1].plmn
  }

  function Ecis(cells: seq<Cgi>): seq<uint32> {
    seq(|cells|, i requires 0 <= i < |cells| => cells[i].eci)
  }

  function Tacs(areas: seq<Tai>): seq<uint16> {
    seq(|areas|, i requires 0 <= i < |areas| => areas[i].tac)
  }

  /** The decoder keeps the identifiers of every entry and the last PLMN. */
  function ReadArea(s: seq<bool>): Parsed<WarningArea> {
    var (_, p) :- ReadClear(s, 0);
    var (choice, q) :- ReadNumber(s, p, 0, 2);
    if choice == AREA_CELLS then
      var (count, r) :- ReadNumber(s, q, 1, 65535);
      var (cells, t) :- ReadCgis(s, r, Times(count));
      Parsed(WarningArea(true, LastPlmnC(cells), Ecis(cells), []), t)
    else if choice == AREA_TRACKING then
      var (count, r) :- ReadNumber(s, q, 1, 65535);
      var (areas, t) :- ReadTais(s, r, Times(count));
      Parsed(WarningArea(false, LastPlmnT(areas), [], Tacs(areas)), t)
    else Unparsed(UnsupportedAlternative)
  }

  function DecodeArea(content: seq<octet>): Result<WarningArea, Error> {
    Unwrap(ReadArea(OctetBits(content)))
  }

  /** Whatever networks the cells are of, all of them are read in order, with the network of the last. */
  lemma CellsReadBack(cells: seq<Cgi>)
    requires EncodeCells(cells).Success?
    ensures DecodeArea(EncodeCells(cells).value)
         == Success(WarningArea(true, LastPlmnC(cells), Ecis(cells), []))
  {
    hide AppendNumber, ReadNumber, AppendCgis, ReadCgis, ReadClear, OctetBits, AppendPad;
    var a := AppendNumber([false], 0, 2, AREA_CELLS).value;
    var b := AppendNumber(a, 1, 65535, |cells|).value;
    var w := AppendCgis(b, cells).value;
    AreaPreamble(AREA_CELLS, |cells|);
    var s := OctetBits(Finish(w));
    FinishBits(w);
    CgisReadBack(b, cells, s);
    NumberReadBack(a, 1, 65535, |cells|, s);
    NumberReadBack([false], 0, 2, AREA_CELLS, s);
    assert [] + [false] <= s;
    ClearReadBack([], s);
  }

  lemma CellAreaReadBack(plmn: seq<octet>, ecis: seq<uint32>)
    requires EncodeCellArea(plmn, ecis).Success?
    ensures DecodeArea(EncodeCellArea(plmn, ecis).value) == Success(WarningArea(true, plmn, ecis, []))
  {
    hide EncodeCells, DecodeArea;
    var cells := CellsOf(plmn, ecis);
    CellsReadBack(cells);
    assert ecis != [] by { SomeCells(cells); }
    assert Ecis(cells) == ecis;
  }

  lemma SomeCells(cells: seq<Cgi>)
    requires EncodeCells(cells).Success?
    ensures cells != []
  {
    AreaPreamble(AREA_CELLS, |cells|);
    hide AppendNumber, AppendCgis;
  }

  /** The same for tracking areas. */
  lemma TaiAreaReadBack(areas: seq<Tai>)
    requires EncodeTais(areas).Success?
    ensures DecodeArea(EncodeTais(areas).value) == Success(WarningArea(false, LastPlmnT(areas), [], Tacs(areas)))
  {
    hide AppendNumber, ReadNumber, AppendTais, ReadTais, ReadClear, OctetBits, AppendPad;
    var a := AppendNumber([false], 0, 2, AREA_TRACKING).value;
    var b := AppendNumber(a, 1, 65535, |areas|).value;
    var w := AppendTais(b, areas).value;
    AreaPreamble(AREA_TRACKING, |areas|);
    var s := OctetBits(Finish(w));
    FinishBits(w);
    TaisReadBack(b, areas, s);
    NumberReadBack(a, 1, 65535, |areas|, s);
    NumberReadBack([false], 0, 2, AREA_TRACKING, s);
    assert [] + [false] <= s;
    ClearReadBack([], s);
  }

  lemma TrackingAreaReadBack(plmn: seq<octet>, tacs: seq<uint16>)
    requires EncodeTrackingArea(plmn, tacs).Success?
    ensures DecodeArea(EncodeTrackingArea(plmn, tacs).value) == Success(WarningArea(false, plmn, [], tacs))
  {
    hide EncodeTais, DecodeArea;
    var areas := TaisOf(plmn, tacs);
    TaiAreaReadBack(areas);
    assert tacs != [] by { SomeAreas(areas); }
    assert Tacs(areas) == tacs;
  }

  lemma SomeAreas(areas: seq<Tai>)
    requires EncodeTais(areas).Success?
    ensures areas != []
  {
    AreaPreamble(AREA_TRACKING, |areas|);
    hide AppendNumber, AppendTais;
  }

  // Exactly which areas can be encoded, and into how many octets

  lemma CgiSize(w: seq<bool>, c: Cgi)
    ensures AppendCgi(w, c).Success? <==> |c.plmn| == 3 && c.eci <= 0x0fff_ffff
    ensures AppendCgi(w, c).Success? ==> |AppendCgi(w, c).value| == |w| + 2 + PadLength(|w| + 2) + 52
  {
    hide OctetBits, ToBits;
  }

  lemma {:induction false} CgisSize(w: seq<bool>, cells: seq<Cgi>)
    requires |w| % 8 == 4
    ensures AppendCgis(w, cells).Success? <==> forall c | c in cells :: |c.plmn| == 3 && c.eci <= 0x0fff_ffff
    ensures AppendCgis(w, cells).Success? ==> |AppendCgis(w, cells).value| == |w| + 56 * |cells|
    decreases |cells|
  {
    hide AppendCgi;
    if cells == [] {
    } else {
      CgiSize(w, cells[0]);
      assert forall c :: c in cells <==> c == cells[0] || c in cells[1..];
      if AppendCgi(w, cells[0]).Success? {
        CgisSize(AppendCgi(w, cells[0]).value, cells[1..]);
      }
    }
  }

  lemma TaiSize(w: seq<bool>, t: Tai)
    requires |w| % 8 == 0
    ensures AppendTai(w, t).Success? <==> |t.plmn| == 3
    ensures AppendTai(w, t).Success? ==> |AppendTai(w, t).value| == |w| + 48
  {
    hide OctetBits, ToBits;
  }

  lemma {:induction false} TaisSize(w: seq<bool>, areas: seq<Tai>)
    requires |w| % 8 == 0
    ensures AppendTais(w, areas).Success? <==> forall t | t in areas :: |t.plmn| == 3
    ensures AppendTais(w, areas).Success? ==> |AppendTais(w, areas).value| == |w| + 48 * |areas|
    decreases |areas|
  {
    hide AppendTai;
    if areas == [] {
    } else {
      TaiSize(w, areas[0]);
      assert forall t :: t in areas <==> t == areas[0] || t in areas[1..];
      if AppendTai(w, areas[0]).Success? {
        TaisSize(AppendTai(w, areas[0]).value, areas[1..]);
      }
    }
  }

  /** After the 24 preamble bits the first cell ends mid-octet, as does each later one. */
  lemma CgiListSize(w: seq<bool>, cells: seq<Cgi>)
    requires |w| == 24 && cells != []
    ensures AppendCgis(w, cells).Success? <==> forall c | c in cells :: |c.plmn| == 3 && c.eci <= 0x0fff_ffff
    ensures AppendCgis(w, cells).Success? ==> |AppendCgis(w, cells).value| == 28 + 56 * |cells|
  {
    hide AppendCgi;
    CgiSize(w, cells[0]);
    assert forall c :: c in cells <==> c == cells[0] || c in cells[1..];
    if AppendCgi(w, cells[0]).Success? {
      CgisSize(AppendCgi(w, cells[0]).value, cells[1..]);
    }
  }

  lemma AreaPreamble(choice: int, n: nat)
    requires 0 <= choice <= 2
    ensures AppendNumber([false], 0, 2, choice).Success?
    ensures var a := AppendNumber([false], 0, 2, choice).value;
      && (AppendNumber(a, 1, 65535, n).Success? <==> 1 <= n <= 65535)
      && (1 <= n <= 65535 ==> |AppendNumber(a, 1, 65535, n).value| == 24)
  {
    NumberSizes([false], choice);
  }

  lemma CellAreaSize(plmn: seq<octet>, ecis: seq<uint32>)
    requires |plmn| == 3
    ensures EncodeCellArea(plmn, ecis).Success?
       <==> 1 <= |ecis| <= 65535 && forall e | e in ecis :: e <= 0x0fff_ffff
    ensures EncodeCellArea(plmn, ecis).Success? ==> |EncodeCellArea(plmn, ecis).value| == 4 + 7 * |ecis|
  {
    hide AppendNumber, AppendCgis;
    AreaPreamble(AREA_CELLS, |ecis|);
    if 1 <= |ecis| <= 65535 {
      var cells := CellsOf(plmn, ecis);
      CgiListSize(AppendNumber(AppendNumber([false], 0, 2, AREA_CELLS).value, 1, 65535, |ecis|).value, cells);
      assert forall c | c in cells :: c.eci in ecis && |c.plmn| == 3;
      forall e | e in ecis
        ensures Cgi(plmn, e) in cells
      {
        var i :| 0 <= i < |ecis| && ecis[i] == e;
        assert cells[i] == Cgi(plmn, e);
      }
    }
  }

  lemma TrackingAreaSize(plmn: seq<octet>, tacs: seq<uint16>)
    requires |plmn| == 3
    ensures EncodeTrackingArea(plmn, tacs).Success? <==> 1 <= |tacs| <= 65535
    ensures EncodeTrackingArea(plmn, tacs).Success? ==> |EncodeTrackingArea(plmn, tacs).value| == 3 + 6 * |tacs|
  {
    hide AppendNumber, AppendTais, OctetBits, ToBits;
    AreaPreamble(AREA_TRACKING, |tacs|);
    if 1 <= |tacs| <= 65535 {
      var b := AppendNumber(AppendNumber([false], 0, 2, AREA_TRACKING).value, 1, 65535, |tacs|).value;
      TaisSize(b, TaisOf(plmn, tacs));
    }
  }
}
