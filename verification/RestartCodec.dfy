/**
 The decoders of the MME's indications as the source writes them, over a
 cursor advanced in place, each tied to the function Restart.dfy proves about.
 */
module RestartCodec {
  import opened Wrappers
  import opened Bits
  import opened Per
  import opened Codec
  import opened Pdu
  import opened Elements
  import opened Messages
  import opened Restart
  import opened SbcapCodec

  method DecodeFixedBitString(r: BitReader, bits: nat) returns (res: Result<nat, Error>)
    requires r.Valid()
    modifies r
    ensures Follows(res, ReadFixedBits(OctetBits(r.buf), old(r.nbit), bits), old(r.nbit), r.nbit, 8 * |r.buf|)
  {
    hide ReadPad, ReadBits, OctetBits;
    if (bits + 7) / 8 > 2 {
      var _ :- r.Align();
    }
    res := r.GetBits(bits);
  }

  method GetNormallySmallNumber(r: BitReader) returns (res: Result<nat, Error>)
    requires r.Valid()
    modifies r
    ensures Follows(res, ReadSmallNumber(OctetBits(r.buf), old(r.nbit)), old(r.nbit), r.nbit, 8 * |r.buf|)
  {
    hide ReadPad, ReadBits, OctetBits;
    var large :- r.GetBits(1);
    if large == 0 {
      res := r.GetBits(6);
      return;
    }
    var _ :- r.Align();
    var longer :- r.GetBits(1);
    if longer == 1 {
      return Failure(RangeUnsupported);
    }
    var length :- r.GetBits(7);
    if length > 4 {
      return Failure(RangeUnsupported);
    }
    res := r.GetBits(length * 8);
  }

  method DecodeEnbId(r: BitReader) returns (res: Result<EnbId, Error>)
    requires r.Valid()
    modifies r
    ensures Follows(res, ReadEnbId(OctetBits(r.buf), old(r.nbit)), old(r.nbit), r.nbit, 8 * |r.buf|)
  {
    hide ReadBits, ReadNumber, ReadFixedBits, ReadSmallNumber, ReadOpenType, OctetBits;
    var extension :- r.GetBits(1);
    if extension == 0 {
      var index :- GetConstrainedWholeNumber(r, 0, 1);
      if index == 0 {
        var macroValue :- DecodeFixedBitString(r, 20);
        return Success(EnbId(Macro, macroValue));
      }
      var homeValue :- DecodeFixedBitString(r, 28);
      return Success(EnbId(Home, homeValue));
    }
    var index :- GetNormallySmallNumber(r);
    var content :- GetOpenType(r);
    var inner := new BitReader(content);
    if index == 0 {
      var shortValue :- DecodeFixedBitString(inner, 18);
      return Success(EnbId(ShortMacro, shortValue));
    } else if index == 1 {
      var longValue :- DecodeFixedBitString(inner, 21);
      return Success(EnbId(LongMacro, longValue));
    }
    return Failure(UnsupportedAlternative);
  }

  method DecodeGlobalEnbId(r: BitReader) returns (res: Result<GlobalEnbId, Error>)
    requires r.Valid()
    modifies r
    ensures Follows(res, ReadGlobalEnbId(OctetBits(r.buf), old(r.nbit)), old(r.nbit), r.nbit, 8 * |r.buf|)
  {
    hide ReadClear, ReadPad, ReadOctets, ReadEnbId, OctetBits;
    var _ :- GetClear(r);
    var _ :- GetClear(r);
    var _ :- r.Align();
    var plmn :- r.GetOctets(3);
    var enb :- DecodeEnbId(r);
    return Success(GlobalEnbId(plmn, enb));
  }

  method DecodeCellList(content: seq<octet>, lb: int, ub: int) returns (res: Result<seq<Cgi>, Error>)
    ensures res == Unwrap(ReadCellList(OctetBits(content), lb, ub))
  {
    hide ReadNumber, ReadCgis, OctetBits;
    var reader := new BitReader(content);
    var count :- GetConstrainedWholeNumber(reader, lb, ub);
    res := GetCgis(reader, count);
  }

  method DecodeTaiRestartList(content: seq<octet>) returns (res: Result<seq<Tai>, Error>)
    ensures res == Unwrap(ReadTaiList(OctetBits(content)))
  {
    hide ReadNumber, ReadTais, OctetBits;
    var reader := new BitReader(content);
    var count :- GetConstrainedWholeNumber(reader, 1, MAX_RESTART_TAIS);
    res := GetTais(reader, count);
  }

  method DecodeRestartIndication(pdu: seq<octet>) returns (res: Result<RestartIndication, Error>)
    ensures res == DecodeRestart(pdu)
  {
    hide DecodePdu, FindIE, ReadCellList, ReadGlobalEnbId, ReadTaiList, OctetBits;
    var d :- DecodePduMethod(pdu);
    if d.choice != PDU_INITIATING || d.procedure != PROC_RESTART_INDICATION {
      return Failure(WrongMessage);
    }
    var cellsIE := FindProtocolIE(d.ies, ID_RESTARTED_CELLS);
    if cellsIE.None? {
      return Failure(MissingElement);
    }
    var cells :- DecodeCellList(cellsIE.value.value, 1, MAX_RESTARTED_CELLS);
    var enbIE := FindProtocolIE(d.ies, ID_GLOBAL_ENB);
    if enbIE.None? {
      return Failure(MissingElement);
    }
    var reader := new BitReader(enbIE.value.value);
    var enb :- DecodeGlobalEnbId(reader);
    var taisIE := FindProtocolIE(d.ies, ID_RESTART_TAIS);
    if taisIE.None? {
      return Failure(MissingElement);
    }
    var tais :- DecodeTaiRestartList(taisIE.value.value);
    return Success(RestartIndication(enb, cells, tais));
  }

  method DecodeFailureIndication(pdu: seq<octet>) returns (res: Result<FailureIndication, Error>)
    ensures res == DecodeFailure(pdu)
  {
    hide DecodePdu, FindIE, ReadCellList, ReadGlobalEnbId, OctetBits;
    var d :- DecodePduMethod(pdu);
    if d.choice != PDU_INITIATING || d.procedure != PROC_FAILURE_INDICATION {
      return Failure(WrongMessage);
    }
    var cellsIE := FindProtocolIE(d.ies, ID_FAILED_CELLS);
    if cellsIE.None? {
      return Failure(MissingElement);
    }
    var cells :- DecodeCellList(cellsIE.value.value, 1, MAX_FAILED_CELLS);
    var enbIE := FindProtocolIE(d.ies, ID_GLOBAL_ENB);
    if enbIE.None? {
      return Failure(MissingElement);
    }
    var reader := new BitReader(enbIE.value.value);
    var enb :- DecodeGlobalEnbId(reader);
    return Success(FailureIndication(enb, cells));
  }
}
