/**
 The SBcAP encoders and decoders as the source writes them: loops over a
 cursor that is advanced in place. Each is tied to the function whose round
 trip Pdu.dfy, Elements.dfy, Messages.dfy or Restart.dfy proves.
 */
module SbcapCodec {
  import opened Wrappers
  import opened Bits
  import opened Per
  import opened Codec
  import opened Pdu
  import opened Elements
  import opened Messages
  import opened Restart

  // Containers and PDUs

  method PutIE(w: BitWriter, ie: ProtocolIE) returns (r: Done)
    requires w.Valid()
    modifies w
    ensures w.Valid() && Wrote(r, AppendIE(old(w.Bits()), ie), old(w.Bits()), w.Bits())
  {
    hide AppendNumber, AppendOpenType, Holds;
    var _ :- PutConstrainedWholeNumber(w, 0, 65535, ie.id);
    var _ :- PutConstrainedWholeNumber(w, 0, 2, ie.criticality);
    r := PutOpenType(w, ie.value);
  }

  method PutIEContainer(w: BitWriter, ies: seq<ProtocolIE>) returns (r: Done)
    requires w.Valid()
    modifies w
    ensures w.Valid() && Wrote(r, AppendContainer(old(w.Bits()), ies), old(w.Bits()), w.Bits())
  {
    hide AppendNumber, AppendIE, Holds;
    var _ :- PutConstrainedWholeNumber(w, 0, 65535, |ies|);
    ghost var start := w.Bits();
    for i := 0 to |ies|
      invariant w.Valid() && old(w.Bits()) <= w.Bits()
      invariant AppendIEs(w.Bits(), ies[i..]) == AppendIEs(start, ies)
    {
      var _ :- PutIE(w, ies[i]);
      assert ies[i..][1..] == ies[i + 1..];
    }
    assert ies[|ies|..] == [];
    return Success(());
  }

  method GetIE(r: BitReader) returns (res: Result<ProtocolIE, Error>)
    requires r.Valid()
    modifies r
    ensures Follows(res, ReadIE(OctetBits(r.buf), old(r.nbit)), old(r.nbit), r.nbit, 8 * |r.buf|)
  {
    hide ReadNumber, ReadOpenType, OctetBits;
    var id :- GetConstrainedWholeNumber(r, 0, 65535);
    var crit :- GetConstrainedWholeNumber(r, 0, 2);
    var value :- GetOpenType(r);
    return Success(ProtocolIE(id, crit, value));
  }

  /** The list read so far in front of what is still to be read. */
  function Behind<T>(done: seq<T>, rest: Parsed<seq<T>>): Parsed<seq<T>> {
    match rest
    case Parsed(v, p) => Parsed(done + v, p)
    case Unparsed(e) => Unparsed(e)
  }

  lemma BehindNothing<T>(rest: Parsed<seq<T>>)
    ensures Behind([], rest) == rest
  {
    if rest.Parsed? {
      assert [] + rest.value == rest.value;
    }
  }

  method GetIEContainer(r: BitReader) returns (res: Result<seq<ProtocolIE>, Error>)
    requires r.Valid()
    modifies r
    ensures Follows(res, ReadContainer(OctetBits(r.buf), old(r.nbit)), old(r.nbit), r.nbit, 8 * |r.buf|)
  {
    hide ReadNumber, ReadIE, OctetBits;
    ghost var s := OctetBits(r.buf);
    var count :- GetConstrainedWholeNumber(r, 0, 65535);
    ghost var start, n := r.nbit, Times(count);
    BehindNothing(ReadIEs(s, start, n));
    var ies: seq<ProtocolIE> := [];
    var i := 0;
    while i < count
      invariant 0 <= i <= n && old(r.nbit) <= r.nbit <= 8 * |r.buf|
      invariant Behind(ies, ReadIEs(s, r.nbit, n - i)) == ReadIEs(s, start, n)
    {
      var ie :- GetIE(r);
      assert forall rest: seq<ProtocolIE> :: ies + ([ie] + rest) == (ies + [ie]) + rest;
      ies := ies + [ie];
      i := i + 1;
    }
    assert ies + [] == ies;
    return Success(ies);
  }

  method GetClear(r: BitReader) returns (res: Done)
    requires r.Valid()
    modifies r
    ensures Follows(res, ReadClear(OctetBits(r.buf), old(r.nbit)), old(r.nbit), r.nbit, 8 * |r.buf|)
  {
    hide ReadBits, OctetBits;
    var bit :- r.GetBits(1);
    if bit != 0 {
      return Failure(ExtensionUnsupported);
    }
    return Success(());
  }

  method FindProtocolIE(ies: seq<ProtocolIE>, id: int) returns (r: Option<ProtocolIE>)
    ensures r == FindIE(ies, id)
    ensures r.None? <==> forall i | 0 <= i < |ies| :: ies[i].id != id
    ensures r.Some? ==> exists i :: 0 <= i < |ies| && r.value == ies[i] && ies[i].id == id && forall j | 0 <= j < i ::
      ies[j].id != id
  {
    for i := 0 to |ies|
      invariant FindIE(ies[i..], id) == FindIE(ies, id)
      invariant forall j | 0 <= j < i :: ies[j].id != id
    {
      assert ies[i..][1..] == ies[i + 1..];
      if ies[i].id == id {
        return Some(ies[i]);
      }
    }
    return None;
  }

  method PutClear(w: BitWriter)
    requires w.Valid()
    modifies w
    ensures w.Valid() && w.Bits() == old(w.Bits()) + [false]
  {
    hide Holds;
    assert ToBits(0, 1) == [false];
    w.PutBits(0, 1);
  }

  method EncodeMessageBody(ies: seq<ProtocolIE>) returns (r: Encoded)
    ensures r == EncodeBody(ies)
  {
    hide AppendContainer, Holds, ToOctets, AppendPad;
    var w := new BitWriter();
    PutClear(w);
    PutClear(w);
    assert w.Bits() == [false, false];
    var _ :- PutIEContainer(w, ies);
    var b := w.Octets();
    return Success(b);
  }

  method DecodeMessageBody(content: seq<octet>) returns (r: Result<seq<ProtocolIE>, Error>)
    ensures r == DecodeBody(content)
  {
    hide ReadClear, ReadContainer, OctetBits;
    var reader := new BitReader(content);
    var _ :- GetClear(reader);
    var _ :- GetClear(reader);
    r := GetIEContainer(reader);
  }

  method EncodePduMethod(choice: int, procedure: int, criticality: int, ies: seq<ProtocolIE>) returns (r: Encoded)
    ensures r == EncodePdu(choice, procedure, criticality, ies)
  {
    hide EncodeBody, AppendNumber, AppendOpenType, Holds, ToOctets, AppendPad;
    var body :- EncodeMessageBody(ies);
    var w := new BitWriter();
    PutClear(w);
    assert w.Bits() == [false];
    var _ :- PutConstrainedWholeNumber(w, 0, 2, choice);
    var _ :- PutConstrainedWholeNumber(w, 0, 255, procedure);
    var _ :- PutConstrainedWholeNumber(w, 0, 2, criticality);
    var _ :- PutOpenType(w, body);
    var b := w.Octets();
    return Success(b);
  }

  method DecodePduMethod(pdu: seq<octet>) returns (r: Result<DecodedPdu, Error>)
    ensures r == DecodePdu(pdu)
  {
    hide ReadClear, ReadNumber, ReadOpenType, DecodeBody, OctetBits;
    if |pdu| == 0 {
      return Failure(EmptyPdu);
    }
    var reader := new BitReader(pdu);
    var _ :- GetClear(reader);
    var choice :- GetConstrainedWholeNumber(reader, 0, 2);
    var procedure :- GetConstrainedWholeNumber(reader, 0, 255);
    var criticality :- GetConstrainedWholeNumber(reader, 0, 2);
    var body :- GetOpenType(reader);
    var ies :- DecodeMessageBody(body);
    return Success(DecodedPdu(choice, procedure, criticality, ies));
  }

  // Element values

  method EncodeConstrainedInt(lb: int, ub: int, value: int) returns (r: Encoded)
    ensures r == EncodeInt(lb, ub, value)
  {
    hide AppendNumber, Holds, ToOctets, AppendPad;
    var w := new BitWriter();
    var _ :- PutConstrainedWholeNumber(w, lb, ub, value);
    var b := w.Octets();
    return Success(b);
  }

  method EncodeWarningMessageContent(data: seq<octet>) returns (r: Encoded)
    ensures r == EncodeContents(data)
  {
    hide AppendNumber, Holds, ToOctets, AppendPad;
    var w := new BitWriter();
    var _ :- PutConstrainedWholeNumber(w, 1, 9600, |data|);
    w.Align();
    assert w.nbit % 8 == 0;
    w.PutOctets(data);
    var b := w.Octets();
    return Success(b);
  }

  method DecodeWarningMessageContent(content: seq<octet>) returns (r: Encoded)
    ensures r == DecodeContents(content)
  {
    hide ReadNumber, ReadPad, ReadOctets, OctetBits;
    var reader := new BitReader(content);
    var n :- GetConstrainedWholeNumber(reader, 1, 9600);
    var _ :- reader.Align();
    r := reader.GetOctets(n);
  }

  method EncodeEutranCgi(w: BitWriter, c: Cgi) returns (r: Done)
    requires w.Valid()
    modifies w
    ensures w.Valid() && Wrote(r, AppendCgi(old(w.Bits()), c), old(w.Bits()), w.Bits())
  {
    hide Holds, OctetBits, ToBits;
    if |c.plmn| != 3 {
      return Failure(BadPlmn);
    }
    if c.eci > 0x0fff_ffff {
      return Failure(ValueOutOfRange);
    }
    PutClear(w);
    PutClear(w);
    w.Align();
    assert w.nbit % 8 == 0;
    w.PutOctets(c.plmn);
    w.Align();
    w.PutBits(c.eci, 28);
    return Success(());
  }

  method DecodeEutranCgi(r: BitReader) returns (res: Result<Cgi, Error>)
    requires r.Valid()
    modifies r
    ensures Follows(res, ReadCgi(OctetBits(r.buf), old(r.nbit)), old(r.nbit), r.nbit, 8 * |r.buf|)
  {
    hide ReadClear, ReadPad, ReadOctets, ReadBits, OctetBits;
    var _ :- GetClear(r);
    var _ :- GetClear(r);
    var _ :- r.Align();
    var plmn :- r.GetOctets(3);
    var _ :- r.Align();
    var eci :- r.GetBits(28);
    return Success(Cgi(plmn, eci % 0x1_0000_0000));
  }

  method EncodeTai(w: BitWriter, t: Tai) returns (r: Done)
    requires w.Valid()
    modifies w
    ensures w.Valid() && Wrote(r, AppendTai(old(w.Bits()), t), old(w.Bits()), w.Bits())
  {
    hide Holds, OctetBits, ToBits;
    if |t.plmn| != 3 {
      return Failure(BadPlmn);
    }
    PutClear(w);
    w.Align();
    assert w.nbit % 8 == 0;
    w.PutOctets(t.plmn);
    w.PutBits(t.tac, 16);
    return Success(());
  }

  method DecodeTai(r: BitReader) returns (res: Result<Tai, Error>)
    requires r.Valid()
    modifies r
    ensures Follows(res, ReadTai(OctetBits(r.buf), old(r.nbit)), old(r.nbit), r.nbit, 8 * |r.buf|)
  {
    hide ReadClear, ReadPad, ReadOctets, ReadBits, OctetBits;
    var _ :- GetClear(r);
    var _ :- r.Align();
    var plmn :- r.GetOctets(3);
    var tac :- r.GetBits(16);
    return Success(Tai(plmn, tac % 0x1_0000));
  }

  method EncodeWarningAreaListCells(plmn: seq<octet>, ecis: seq<uint32>) returns (r: Encoded)
    ensures r == EncodeCellArea(plmn, ecis)
  {
    hide AppendNumber, AppendCgi, Holds, ToOctets, AppendPad;
    ghost var cells := CellsOf(plmn, ecis);
    var w := new BitWriter();
    PutClear(w);
    assert w.Bits() == [false];
    var _ :- PutConstrainedWholeNumber(w, 0, 2, AREA_CELLS);
    var _ :- PutConstrainedWholeNumber(w, 1, 65535, |ecis|);
    ghost var start := w.Bits();
    for i := 0 to |ecis|
      invariant w.Valid() && AppendCgis(w.Bits(), cells[i..]) == AppendCgis(start, cells)
    {
      assert cells[i..][0] == Cgi(plmn, ecis[i]) && cells[i..][1..] == cells[i + 1..];
      var _ :- EncodeEutranCgi(w, Cgi(plmn, ecis[i]));
    }
    assert cells[|ecis|..] == [];
    var b := w.Octets();
    return Success(b);
  }

  method EncodeWarningAreaListTais(plmn: seq<octet>, tacs: seq<uint16>) returns (r: Encoded)
    ensures r == EncodeTrackingArea(plmn, tacs)
  {
    hide AppendNumber, AppendTai, Holds, ToOctets, AppendPad;
    ghost var areas := TaisOf(plmn, tacs);
    var w := new BitWriter();
    PutClear(w);
    assert w.Bits() == [false];
    var _ :- PutConstrainedWholeNumber(w, 0, 2, AREA_TRACKING);
    var _ :- PutConstrainedWholeNumber(w, 1, 65535, |tacs|);
    ghost var start := w.Bits();
    for i := 0 to |tacs|
      invariant w.Valid() && AppendTais(w.Bits(), areas[i..]) == AppendTais(start, areas)
    {
      assert areas[i..][0] == Tai(plmn, tacs[i]) && areas[i..][1..] == areas[i + 1..];
      var _ :- EncodeTai(w, Tai(plmn, tacs[i]));
    }
    assert areas[|tacs|..] == [];
    var b := w.Octets();
    return Success(b);
  }

  /** The counted loop of every decoder of a cell list. */
  method GetCgis(r: BitReader, count: int) returns (res: Result<seq<Cgi>, Error>)
    requires r.Valid()
    modifies r
    ensures Follows(res, ReadCgis(OctetBits(r.buf), old(r.nbit), Times(count)), old(r.nbit), r.nbit, 8 * |r.buf|)
  {
    hide ReadCgi, OctetBits;
    ghost var s := OctetBits(r.buf);
    ghost var n := Times(count);
    BehindNothing(ReadCgis(s, r.nbit, n));
    var cells: seq<Cgi> := [];
    var i := 0;
    while i < count
      invariant 0 <= i <= n && old(r.nbit) <= r.nbit <= 8 * |r.buf|
      invariant Behind(cells, ReadCgis(s, r.nbit, n - i)) == ReadCgis(s, old(r.nbit), n)
    {
      var c :- DecodeEutranCgi(r);
      assert forall rest: seq<Cgi> :: cells + ([c] + rest) == (cells + [c]) + rest;
      cells := cells + [c];
      i := i + 1;
    }
    assert cells + [] == cells;
    return Success(cells);
  }

  method GetTais(r: BitReader, count: int) returns (res: Result<seq<Tai>, Error>)
    requires r.Valid()
    modifies r
    ensures Follows(res, ReadTais(OctetBits(r.buf), old(r.nbit), Times(count)), old(r.nbit), r.nbit, 8 * |r.buf|)
  {
    hide ReadTai, OctetBits;
    ghost var s := OctetBits(r.buf);
    ghost var n := Times(count);
    BehindNothing(ReadTais(s, r.nbit, n));
    var areas: seq<Tai> := [];
    var i := 0;
    while i < count
      invariant 0 <= i <= n && old(r.nbit) <= r.nbit <= 8 * |r.buf|
      invariant Behind(areas, ReadTais(s, r.nbit, n - i)) == ReadTais(s, old(r.nbit), n)
    {
      var t :- DecodeTai(r);
      assert forall rest: seq<Tai> :: areas + ([t] + rest) == (areas + [t]) + rest;
      areas := areas + [t];
      i := i + 1;
    }
    assert areas + [] == areas;
    return Success(areas);
  }

  method DecodeWarningAreaList(content: seq<octet>) returns (r: Result<WarningArea, Error>)
    ensures r == DecodeArea(content)
  {
    hide ReadClear, ReadNumber, ReadCgis, ReadTais, OctetBits;
    var reader := new BitReader(content);
    var _ :- GetClear(reader);
    var choice :- GetConstrainedWholeNumber(reader, 0, 2);
    if choice == AREA_CELLS {
      var count :- GetConstrainedWholeNumber(reader, 1, 65535);
      var cells :- GetCgis(reader, count);
      return Success(WarningArea(true, LastPlmnC(cells), Ecis(cells), []));
    } else if choice == AREA_TRACKING {
      var count :- GetConstrainedWholeNumber(reader, 1, 65535);
      var areas :- GetTais(reader, count);
      return Success(WarningArea(false, LastPlmnT(areas), [], Tacs(areas)));
    } else {
      return Failure(UnsupportedAlternative);
    }
  }

  // Messages

  method BuildWarningAreaIE(scope: int, plmn: seq<octet>, ids: seq<uint32>) returns (r: Result<seq<ProtocolIE>, Error>)
    ensures r == AreaIE(scope, plmn, ids)
  {
    hide EncodeCellArea, EncodeTrackingArea;
    if scope == 1 {
      return Success([]);
    } else if scope == 2 {
      var tacs: seq<uint16> := [];
      for i := 0 to |ids|
        invariant |tacs| == i && forall j | 0 <= j < i :: tacs[j] == ids[j]
      {
        if ids[i] > 0xffff {
          assert ids[i] in ids;
          NarrowFails(ids);
          return Failure(ValueOutOfRange);
        }
        tacs := tacs + [ids[i]];
      }
      assert forall id | id in ids :: id <= 0xffff;
      assert tacs == NarrowTacs(ids).value;
      var value :- EncodeWarningAreaListTais(plmn, tacs);
      return Success([ProtocolIE(ID_WARNING_AREA_LIST, CRIT_IGNORE, value)]);
    } else if scope == 3 {
      var value :- EncodeWarningAreaListCells(plmn, ids);
      return Success([ProtocolIE(ID_WARNING_AREA_LIST, CRIT_IGNORE, value)]);
    } else {
      return Failure(InvalidArea);
    }
  }

  lemma {:induction false} NarrowFails(ids: seq<uint32>)
    requires NarrowTacs(ids).Failure?
    ensures NarrowTacs(ids) == Failure(ValueOutOfRange)
  {
    if ids[0] <= 0xffff {
      NarrowFails(ids[1..]);
    }
  }

  method EncodeWriteReplace(
    messageId: uint16, serial: uint16, dcs: octet, contents: seq<octet>,
    repetition: uint16, broadcasts: uint16, scope: int, plmn: seq<octet>, ids: seq<uint32>
  ) returns (r: Encoded)
    ensures r == WriteReplaceTarget(messageId, serial, dcs, contents, repetition, broadcasts, scope, plmn, ids)
  {
    hide EncodeContents, EncodeInt, AreaIE, EncodePdu, Encode16;
    if |contents| == 0 || |contents| > 9600 {
      return Failure(InvalidContents);
    }
    if scope < 1 || scope > 3 || (scope != 1 && (|plmn| != 3 || |ids| == 0)) {
      return Failure(InvalidArea);
    }
    var content :- EncodeWarningMessageContent(contents);
    var rep :- EncodeConstrainedInt(0, 4096, repetition);
    var num :- EncodeConstrainedInt(0, 65535, broadcasts);
    var ies := Identifiers(messageId, serial);
    var area :- BuildWarningAreaIE(scope, plmn, ids);
    ies := ies + area;
    ies := ies + DeliveryIEs(rep, num, dcs, content);
    r := EncodePduMethod(PDU_INITIATING, PROC_WRITE_REPLACE, CRIT_REJECT, ies);
  }

  method EncodeStop(
      messageId: uint16, serial: uint16, scope: int, plmn: seq<octet>, ids: seq<uint32>) returns (r: Encoded)
    ensures r == StopTarget(messageId, serial, scope, plmn, ids)
  {
    hide AreaIE, EncodePdu, Encode16;
    if scope < 1 || scope > 3 || (scope != 1 && (|plmn| != 3 || |ids| == 0)) {
      return Failure(InvalidArea);
    }
    var ies := Identifiers(messageId, serial);
    var area :- BuildWarningAreaIE(scope, plmn, ids);
    ies := ies + area;
    r := EncodePduMethod(PDU_INITIATING, PROC_STOP, CRIT_REJECT, ies);
  }

  method ReadCorrelationIds(ies: seq<ProtocolIE>) returns (r: Result<Ids, Error>)
    ensures r == CorrelationIds(ies)
  {
    hide FindIE;
    var m := FindProtocolIE(ies, ID_MESSAGE_IDENTIFIER);
    if m.None? {
      return Failure(MissingElement);
    }
    var n := FindProtocolIE(ies, ID_SERIAL_NUMBER);
    if n.None? {
      return Failure(MissingElement);
    }
    var messageId :- Decode16(m.value.value);
    var serial :- Decode16(n.value.value);
    return Success(Ids(messageId, serial));
  }

  method DecodeResponseIds(pdu: seq<octet>, procedure: int) returns (r: Result<Ids, Error>)
    ensures r == ResponseIds(pdu, procedure)
  {
    hide DecodePdu, CorrelationIds;
    var d :- DecodePduMethod(pdu);
    if d.choice != PDU_SUCCESSFUL || d.procedure != procedure {
      return Failure(WrongMessage);
    }
    r := ReadCorrelationIds(d.ies);
  }
}
