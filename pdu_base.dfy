/** The outer frame shared by every PDU: a header shaped like the MBAP
    header of section 3.1.3 of the MODBUS Messaging on TCP/IP
    Implementation Guide V1.0b, with fixed non-standard values, then the
    function code and the inner frame. */
module Pdu {
  import opened Wrappers
  import opened Codec
  import opened Exceptions

  const TransactionId: nat := 0x5959
  const ProtocolId: nat := 0x0001
  const UnitId: nat := 0x01

  /** Inner frames short enough for the 16-bit length field. */
  predicate FitsLength(inner: seq<Byte>) {
    |inner| + 2 < 0x1_0000
  }

  /** `struct.pack(">HHHBB", 0x5959, 1, len(inner) + 2, 1, function_code)`:
      the length counts the inner frame plus the unit id and function code. */
  function Header(innerLength: nat, functionCode: nat): (h: seq<Byte>)
    requires innerLength + 2 < 0x1_0000 && functionCode < 256
    ensures |h| == 8
  {
    BE(TransactionId, 2) + BE(ProtocolId, 2) + BE(innerLength + 2, 2) + [UnitId] + [functionCode]
  }

  /** The frame `encode` emits: the header, then the inner frame. */
  function Frame(inner: seq<Byte>, functionCode: nat): (frame: seq<Byte>)
    requires FitsLength(inner) && functionCode < 256
    ensures |frame| == 8 + |inner|
  {
    Header(|inner|, functionCode) + inner
  }

  function Read(s: seq<Byte>, n: nat): Result<Got<nat>, Exception> {
    match ReadUInt(s, n)
    case Some(g) => Success(g)
    case None => Failure(Truncated)
  }

  /** The header checks of `decode_bytes`, in order, and what the decoder
      has left after the function code. The length field must equal the
      number of bytes after it; the unit id may be 0 or 1; a function code
      other than the decoding class's fails its assertion. */
  function CheckHeader(data: seq<Byte>, functionCode: nat): Result<seq<Byte>, Exception> {
    var tid :- Read(data, 2);
    if tid.v != TransactionId then Failure(InvalidFrame(BadTransactionId(tid.v)))
    else
      var pid :- Read(tid.rest, 2);
      if pid.v != ProtocolId then Failure(InvalidFrame(BadProtocolId(pid.v)))
      else
        var len :- Read(pid.rest, 2);
        if len.v != |len.rest| then Failure(InvalidFrame(BadLength(len.v, |len.rest|)))
        else
          var uid :- Read(len.rest, 1);
          if uid.v != 0 && uid.v != 1 then Failure(InvalidFrame(BadUnitId(uid.v)))
          else
            var fc :- Read(uid.rest, 1);
            if fc.v != functionCode then Failure(AssertionError)
            else Success(fc.rest)
  }

  lemma ReadByte(b: Byte, rest: seq<Byte>)
    ensures Read([b] + rest, 1) == Success(Got(b, rest))
  {
    assert BE(b, 1) == [b];
    ReadUIntOfBE(b, 1, rest);
  }

  lemma ReadWord(v: nat, rest: seq<Byte>)
    requires v < 0x1_0000
    ensures Read(BE(v, 2) + rest, 2) == Success(Got(v, rest))
  {
    ReadUIntOfBE(v, 2, rest);
  }

  /** Every frame `encode` produces passes all the header checks, and
      decoding continues with exactly the inner frame. */
  lemma {:induction false} HeaderOfFrame(inner: seq<Byte>, functionCode: nat)
    requires FitsLength(inner) && functionCode < 256
    ensures CheckHeader(Frame(inner, functionCode), functionCode) == Success(inner)
  {
    var s4 := [functionCode] + inner;
    var s3 := [UnitId] + s4;
    var s2 := BE(|inner| + 2, 2) + s3;
    var s1 := BE(ProtocolId, 2) + s2;
    assert Frame(inner, functionCode) == BE(TransactionId, 2) + s1;
    ReadWord(TransactionId, s1);
    ReadWord(ProtocolId, s2);
    ReadWord(|inner| + 2, s3);
    ReadByte(UnitId, s4);
    ReadByte(functionCode, inner);
  }

  /** A wrong transaction or protocol id is rejected as an invalid frame. */
  lemma RejectsIds(data: seq<Byte>, functionCode: nat)
    requires |data| >= 4
    ensures UnBE(data[..2]) != TransactionId ==>
              CheckHeader(data, functionCode) == Failure(InvalidFrame(BadTransactionId(UnBE(data[..2]))))
    ensures UnBE(data[..2]) == TransactionId && UnBE(data[2..4]) != ProtocolId ==>
              CheckHeader(data, functionCode) == Failure(InvalidFrame(BadProtocolId(UnBE(data[2..4]))))
  {
    assert data[2..][..2] == data[2..4];
  }

  /** With good ids, a length field that differs from the number of bytes
      after it is rejected; with a good length, a unit id other than 0 and
      1 is rejected. */
  lemma RejectsLengthAndUnit(data: seq<Byte>, functionCode: nat)
    requires |data| >= 7
    requires UnBE(data[..2]) == TransactionId && UnBE(data[2..4]) == ProtocolId
    ensures UnBE(data[4..6]) != |data| - 6 ==>
              CheckHeader(data, functionCode) == Failure(InvalidFrame(BadLength(UnBE(data[4..6]), |data| - 6)))
    ensures UnBE(data[4..6]) == |data| - 6 && data[6] != 0 && data[6] != 1 ==>
              CheckHeader(data, functionCode) == Failure(InvalidFrame(BadUnitId(data[6])))
  {
    assert data[2..][..2] == data[2..4];
    assert data[2..][2..] == data[4..];
    assert data[4..][..2] == data[4..6];
    assert data[4..][2..] == data[6..];
    assert data[6..][..1] == [data[6]];
    assert UnBE([data[6]]) == data[6] by {
      assert [data[6]][..0] == [];
    }
  }

  /** A frame whose header passes leaves exactly the bytes its length field
      announces, less the unit id and function code; the header checks alone
      never look past them. */
  lemma HeaderLength(data: seq<Byte>, functionCode: nat)
    requires CheckHeader(data, functionCode).Success?
    ensures |data| >= 8
    ensures CheckHeader(data, functionCode).value == data[8..]
    ensures UnBE(data[4..6]) == |data| - 6
  {
    assert data[2..][2..] == data[4..];
    assert data[4..][..2] == data[4..6];
    assert data[4..][2..] == data[6..];
    assert data[6..][1..] == data[7..];
    assert data[7..][1..] == data[8..];
  }
}
