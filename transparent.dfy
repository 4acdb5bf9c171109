/** Transparent messages (function code 2): the requests and responses
    that read and write inverter and battery registers. After the outer
    frame come the data adapter serial, 8 bytes of padding, the slave
    address, the transparent function code, then a per-kind selection of
    optional fields (inverter serial, base register, register count,
    register values) and a CRC of everything from the slave address on.

    The CRC algorithm is a parameter of the model. */
module Transparent {
  import opened Wrappers
  import opened Codec
  import opened Exceptions
  import opened Registers
  import Pdu

  const FunctionCode: nat := 2

  const NullResponseCode: nat := 0
  const ReadHoldingCode: nat := 3
  const ReadInputCode: nat := 4
  const WriteHoldingCode: nat := 6
  const ReadBatteryCode: nat := 22

  /** The concrete message classes. */
  datatype Kind =
    | ReadHoldingRequest
    | ReadInputRequest
    | ReadBatteryRequest
    | WriteHoldingRequest
    | ReadHoldingResponse
    | ReadInputResponse
    | ReadBatteryResponse
    | WriteHoldingResponse
    | NullResponse

  /** The decoding class a frame is handed to: clients decode responses,
      servers decode requests. */
  datatype Direction = Request | Response

  /** Subclasses of `TransparentRequest`. */
  predicate IsRequest(k: Kind) {
    k.ReadHoldingRequest? || k.ReadInputRequest? || k.ReadBatteryRequest? || k.WriteHoldingRequest?
  }

  /** Subclasses of `TransparentResponse`; the null response is not one. */
  predicate IsResponse(k: Kind) {
    k.ReadHoldingResponse? || k.ReadInputResponse? || k.ReadBatteryResponse? || k.WriteHoldingResponse?
  }

  /** The decoding direction whose table holds a kind. */
  function DirectionOf(k: Kind): Direction {
    if IsRequest(k) then Request else Response
  }

  /** Which optional fields a kind carries on the wire, in this order. */
  datatype FieldSet = FieldSet(serial: bool, base: bool, count: bool, values: bool)

  function Fields(k: Kind): FieldSet {
    match k
    case ReadHoldingRequest => FieldSet(false, true, true, false)
    case ReadInputRequest => FieldSet(false, true, true, false)
    case ReadBatteryRequest => FieldSet(false, true, true, false)
    case WriteHoldingRequest => FieldSet(false, true, false, true)
    case ReadHoldingResponse => FieldSet(true, true, true, true)
    case ReadInputResponse => FieldSet(true, true, true, true)
    case ReadBatteryResponse => FieldSet(true, true, true, true)
    case WriteHoldingResponse => FieldSet(true, true, false, true)
    case NullResponse => FieldSet(true, false, false, true)
  }

  /** `transparent_function_code` of each kind. */
  function Code(k: Kind): (c: nat)
    ensures c < 128
  {
    match k
    case ReadHoldingRequest => ReadHoldingCode
    case ReadInputRequest => ReadInputCode
    case ReadBatteryRequest => ReadBatteryCode
    case WriteHoldingRequest => WriteHoldingCode
    case ReadHoldingResponse => ReadHoldingCode
    case ReadInputResponse => ReadInputCode
    case ReadBatteryResponse => ReadBatteryCode
    case WriteHoldingResponse => WriteHoldingCode
    case NullResponse => NullResponseCode
  }

  /** The class-level `register_count`: fixed for writes and the null
      response, otherwise the invalid default -1. */
  function ClassCount(k: Kind): int {
    if k.WriteHoldingRequest? || k.WriteHoldingResponse? then 1
    else if k.NullResponse? then 62
    else -1
  }

  /** `register_class`, defined on responses only. */
  function RegisterClass(k: Kind): Option<RegType> {
    match k
    case ReadHoldingResponse => Some(HR)
    case WriteHoldingResponse => Some(HR)
    case ReadInputResponse => Some(IR)
    case ReadBatteryResponse => Some(IR)
    case _ => None
  }

  /** The `_pdu_lut` tables. */
  function Lut(dir: Direction, code: int): Option<Kind> {
    match dir
    case Request =>
      if code == ReadHoldingCode then Some(ReadHoldingRequest)
      else if code == ReadInputCode then Some(ReadInputRequest)
      else if code == WriteHoldingCode then Some(WriteHoldingRequest)
      else if code == ReadBatteryCode then Some(ReadBatteryRequest)
      else None
    case Response =>
      if code == NullResponseCode then Some(NullResponse)
      else if code == ReadHoldingCode then Some(ReadHoldingResponse)
      else if code == ReadInputCode then Some(ReadInputResponse)
      else if code == WriteHoldingCode then Some(WriteHoldingResponse)
      else if code == ReadBatteryCode then Some(ReadBatteryResponse)
      else None
  }

  /** Each table maps a code to the one kind of its direction with that
      code, so the decoder's assertion on the found class always holds. */
  lemma LutInverse(dir: Direction, code: int, k: Kind)
    ensures Lut(dir, code) == Some(k) <==> DirectionOf(k) == dir && Code(k) == code
  {
  }

  /** A transparent message. Fields are set once, by the constructor. */
  datatype Message = Message(
    kind: Kind,
    dataAdapterSerial: string,
    padding: int,
    slave: int,
    error: bool,
    inverterSerial: Option<string>,
    base: int,
    count: int,
    values: seq<int>,
    check: int)

  /** The keyword arguments of the constructors; `register` and `value`
      are the aliases of the write messages. */
  datatype Kwargs = Kwargs(
    dataAdapterSerial: Option<string>,
    padding: Option<int>,
    slave: Option<int>,
    error: Option<bool>,
    inverterSerial: Option<string>,
    base: Option<int>,
    count: Option<int>,
    values: Option<seq<int>>,
    check: Option<int>,
    register: Option<int>,
    value: Option<int>)

  const NoKwargs := Kwargs(None, None, None, None, None, None, None, None, None, None, None)

  /** The constructor's sanity checks of the fields the kind carries. */
  function Validate(m: Message): (r: Result<Message, Exception>)
    ensures r.Success? ==> r.value == m
  {
    var f := Fields(m.kind);
    if f.base && !(0 <= m.base <= 0xFFFF) then Failure(InvalidPduState("base_register"))
    else if f.count && !(1 <= m.count <= 60) then Failure(InvalidPduState("register_count"))
    else if f.values && (|m.values| == 0 || |m.values| != m.count) then Failure(InvalidPduState("register_values"))
    else Success(m)
  }

  /** A message that passes the constructor's checks. */
  predicate Valid(m: Message) {
    var f := Fields(m.kind);
    (f.base ==> 0 <= m.base <= 0xFFFF) &&
    (f.count ==> 1 <= m.count <= 60) &&
    (f.values ==> |m.values| > 0 && |m.values| == m.count)
  }

  lemma ValidateIsValid(m: Message)
    ensures Validate(m).Success? <==> Valid(m)
  {
  }

  /** `WriteHoldingRegisterRequest.__init__`: `register` replaces
      `base_register`, `value` becomes the one-element value list, and an
      explicit `register_count` is refused. */
  function TranslateAliases(kw: Kwargs): (r: Result<Kwargs, Exception>)
    ensures kw.count.Some? ==> r == Failure(InvalidPduState("Unexpected register_count parameter"))
    ensures kw.count.None? ==> r.Success? && r.value.register.None? && r.value.value.None? && r.value.count.None?
    ensures r.Success? ==> r.value.base == (if kw.register.Some? then kw.register else kw.base)
    ensures r.Success? ==> r.value.values == (if kw.value.Some? then Some([kw.value.value]) else kw.values)
    ensures r.Success? ==> r.value.(base := kw.base, values := kw.values, register := kw.register, value := kw.value) == kw
  {
    var kw1 := if kw.register.Some? then kw.(base := kw.register, register := None) else kw;
    var kw2 := if kw1.value.Some? then kw1.(values := Some([kw1.value.value]), value := None) else kw1;
    if kw2.count.Some? then Failure(InvalidPduState("Unexpected register_count parameter"))
    else Success(kw2)
  }

  /** Constructing a message of a kind: the keyword arguments override the
      class defaults, then the fields are checked. The write response's
      `register` and `value` are read-only properties. */
  function Construct(kind: Kind, kw: Kwargs): (r: Result<Message, Exception>)
    ensures r.Success? ==> r.value.kind == kind && Valid(r.value)
    ensures r.Success? ==> r.value.inverterSerial == kw.inverterSerial && r.value.slave == kw.slave.GetOr(0x32)
    ensures r.Success? ==> r.value.dataAdapterSerial == kw.dataAdapterSerial.GetOr("AB1234G567")
    ensures kind.WriteHoldingResponse? && (kw.register.Some? || kw.value.Some?) ==> r == Failure(AttributeError)
  {
    var args :-
      if kind.WriteHoldingRequest? then TranslateAliases(kw)
      else if kind.WriteHoldingResponse? && (kw.register.Some? || kw.value.Some?) then Failure(AttributeError)
      else Success(kw);
    Validate(Message(
      kind,
      args.dataAdapterSerial.GetOr("AB1234G567"),
      args.padding.GetOr(0x08),
      args.slave.GetOr(0x32),
      args.error.GetOr(false),
      args.inverterSerial,
      args.base.GetOr(-1),
      args.count.GetOr(ClassCount(kind)),
      args.values.GetOr([]),
      args.check.GetOr(-1)))
  }

  /** Construction succeeds exactly when the resulting fields are valid
      (for kinds other than the write messages, whose aliases are treated
      below), and every constructed message is valid. */
  lemma ConstructValid(kind: Kind, kw: Kwargs)
    ensures Construct(kind, kw).Success? ==> Valid(Construct(kind, kw).value)
    ensures !kind.WriteHoldingRequest? && !kind.WriteHoldingResponse? ==>
              (Construct(kind, kw).Success? <==>
                 (Fields(kind).base ==> kw.base.Some? && 0 <= kw.base.value <= 0xFFFF) &&
                 (Fields(kind).count ==> kw.count.Some? && 1 <= kw.count.value <= 60) &&
                 (Fields(kind).values ==>
                    kw.values.Some? && |kw.values.value| > 0 &&
                    |kw.values.value| == kw.count.GetOr(ClassCount(kind))))
  {
  }

  /** A write request built from `register` and `value` has that base and
      that one value, whatever the register is within range; adding an
      explicit count is refused. */
  lemma WriteRequestAliases(register: int, value: int, kw: Kwargs)
    requires kw.count.None?
    ensures 0 <= register <= 0xFFFF ==>
              Construct(WriteHoldingRequest, kw.(register := Some(register), value := Some(value))).Success?
    ensures Construct(WriteHoldingRequest, kw.(register := Some(register), value := Some(value))).Success? ==>
              var m := Construct(WriteHoldingRequest, kw.(register := Some(register), value := Some(value))).value;
              m.base == register && m.values == [value] && m.count == 1
    ensures !(0 <= register <= 0xFFFF) ==>
              Construct(WriteHoldingRequest, kw.(register := Some(register), value := Some(value)))
              == Failure(InvalidPduState("base_register"))
    ensures Construct(WriteHoldingRequest, kw.(count := Some(1)))
            == Failure(InvalidPduState("Unexpected register_count parameter"))
  {
  }

  // ---------------------------------------------------------------------
  // Encoding

  /** The words of a value list, each big-endian. */
  function Words(vs: seq<int>): (bs: seq<Byte>)
    requires forall i :: 0 <= i < |vs| ==> 0 <= vs[i] < 0x1_0000
    ensures |bs| == 2 * |vs|
  {
    if vs == [] then [] else BE(vs[0], 2) + Words(vs[1..])
  }

  lemma {:induction false} WordsAppend(vs: seq<int>, v: int)
    requires forall i :: 0 <= i < |vs| ==> 0 <= vs[i] < 0x1_0000
    requires 0 <= v < 0x1_0000
    ensures Words(vs + [v]) == Words(vs) + BE(v, 2)
  {
    if vs == [] {
      assert [v][1..] == [];
    } else {
      assert (vs + [v])[1..] == vs[1..] + [v];
      WordsAppend(vs[1..], v);
    }
  }

  /** Whether a serial fits its 10-byte field. */
  predicate SerialField(s: string) {
    |s| == 10 && OneByteChars(s)
  }

  /** Field values the fixed-width encoder can write. The inverter serial
      may be missing: encoding then fails. */
  predicate Encodable(m: Message) {
    PreambleFits(m) && FieldsFit(m)
  }

  /** The data adapter serial, padding and slave address fit their fields. */
  predicate PreambleFits(m: Message) {
    SerialField(m.dataAdapterSerial) && 0 <= m.padding < Pow256(8) && 0 <= m.slave < 256
  }

  /** The optional fields the kind carries fit their widths. */
  predicate FieldsFit(m: Message) {
    var f := Fields(m.kind);
    (f.serial && m.inverterSerial.Some? ==> SerialField(m.inverterSerial.value)) &&
    (f.base ==> 0 <= m.base < 0x1_0000) &&
    (f.count ==> 0 <= m.count < 0x1_0000) &&
    (f.values ==> |m.values| <= 0x7000 && forall i :: 0 <= i < |m.values| ==> 0 <= m.values[i] < 0x1_0000)
  }

  /** The kind carries no inverter serial, or the message has one. */
  predicate HasSerial(m: Message) {
    Fields(m.kind).serial ==> m.inverterSerial.Some?
  }

  function SerialPart(m: Message): (bs: seq<Byte>)
    requires Encodable(m) && HasSerial(m)
    ensures |bs| <= 10
  {
    if Fields(m.kind).serial then StringBytes(m.inverterSerial.value) else []
  }

  function BasePart(m: Message): (bs: seq<Byte>)
    requires Encodable(m)
    ensures |bs| <= 2
  {
    if Fields(m.kind).base then BE(m.base, 2) else []
  }

  function CountPart(m: Message): (bs: seq<Byte>)
    requires Encodable(m)
    ensures |bs| <= 2
  {
    if Fields(m.kind).count then BE(m.count, 2) else []
  }

  function ValuesPart(m: Message): (bs: seq<Byte>)
    requires Encodable(m)
    ensures |bs| <= 2 * 0x7000
  {
    if Fields(m.kind).values then Words(m.values) else []
  }

  /** The CRC-covered body: slave address, function code and the kind's
      fields in order. */
  function Body(m: Message): (bs: seq<Byte>)
    requires Encodable(m) && HasSerial(m)
    ensures |bs| <= 2 + 10 + 2 + 2 + 2 * 0x7000
  {
    [m.slave] + [Code(m.kind)] + SerialPart(m) + BasePart(m) + CountPart(m) + ValuesPart(m)
  }

  /** The inner frame: data adapter serial, padding, body, and the body's
      CRC least significant byte first. */
  function Inner(m: Message, crc: seq<Byte> -> Word): (inner: seq<Byte>)
    requires Encodable(m) && HasSerial(m)
    ensures Pdu.FitsLength(inner)
  {
    StringBytes(m.dataAdapterSerial) + BE(m.padding, 8) + Body(m) + LE16(crc(Body(m)))
  }

  /** `encode()`: the frame, or `AttributeError` when a kind that carries
      the inverter serial has none. */
  function EncodeSpec(m: Message, crc: seq<Byte> -> Word): Result<seq<Byte>, Exception>
    requires Encodable(m)
  {
    if !HasSerial(m) then Failure(AttributeError)
    else Success(Pdu.Frame(Inner(m, crc), FunctionCode))
  }

  /** The frame layout: the fixed header, then the inner frame, which starts
      with the data adapter serial and the padding and ends with the two
      CRC bytes. */
  lemma EncodeLayout(m: Message, crc: seq<Byte> -> Word)
    requires Encodable(m) && HasSerial(m)
    ensures EncodeSpec(m, crc).Success?
    ensures var frame := EncodeSpec(m, crc).value;
            |frame| == 8 + |Inner(m, crc)| &&
            frame[..8] == Pdu.Header(|Inner(m, crc)|, FunctionCode) &&
            frame[8..18] == StringBytes(m.dataAdapterSerial) &&
            UnBE(frame[18..26]) == m.padding &&
            frame[26..|frame| - 2] == Body(m) &&
            UnBE(frame[|frame| - 2..]) == SwapBytes16(crc(Body(m)))
  {
    var inner := Inner(m, crc);
    var h := Pdu.Header(|inner|, FunctionCode);
    var das, pad, body, ck := StringBytes(m.dataAdapterSerial), BE(m.padding, 8), Body(m), LE16(crc(Body(m)));
    assert EncodeSpec(m, crc).value == h + (das + pad + body + ck);
    LayoutSlices(h, das, pad, body, ck);
    UnBEOfBE(m.padding, 8);
    LE16AsBE(crc(Body(m)));
    UnBEOfBE(SwapBytes16(crc(Body(m))), 2);
  }

  /** Cutting a frame into header, data adapter serial, padding, body and
      CRC by their widths. */
  lemma LayoutSlices(h: seq<Byte>, das: seq<Byte>, pad: seq<Byte>, body: seq<Byte>, ck: seq<Byte>)
    requires |h| == 8 && |das| == 10 && |pad| == 8 && |ck| == 2
    ensures var f := h + (das + pad + body + ck);
            |f| == 28 + |body| &&
            f[..8] == h && f[8..18] == das && f[18..26] == pad && f[26..|f| - 2] == body && f[|f| - 2..] == ck
  {
    var f := h + (das + pad + body + ck);
    assert f == h + das + pad + body + ck;
  }

  /** The value loop of `_encode_function_data`. */
  method AddWords(e: Encoder, vs: seq<int>)
    requires forall i :: 0 <= i < |vs| ==> 0 <= vs[i] < 0x1_0000
    modifies e
    ensures e.payload == old(e.payload) + Words(vs)
  {
    ghost var prefix := e.payload;
    for i := 0 to |vs|
      invariant e.payload == prefix + Words(vs[..i])
    {
      e.AddUInt(vs[i], 2);
      WordsAppend(vs[..i], vs[i]);
      assert vs[..i + 1] == vs[..i] + [vs[i]];
    }
    assert vs[..|vs|] == vs;
  }

  /** The optional fields of `_encode_function_data`, in order. */
  method AddFields(e: Encoder, m: Message)
    requires Encodable(m) && HasSerial(m)
    modifies e
    ensures e.payload == old(e.payload) + SerialPart(m) + BasePart(m) + CountPart(m) + ValuesPart(m)
  {
    var f := Fields(m.kind);
    ghost var p0 := e.payload;
    if f.serial {
      e.AddString(m.inverterSerial.value, 10);
    }
    assert e.payload == p0 + SerialPart(m);
    if f.base {
      e.AddUInt(m.base, 2);
    }
    assert e.payload == p0 + SerialPart(m) + BasePart(m);
    if f.count {
      e.AddUInt(m.count, 2);
    }
    assert e.payload == p0 + SerialPart(m) + BasePart(m) + CountPart(m);
    if f.values {
      AddWords(e, m.values);
    }
  }

  /** `BasePDU.encode` with `_encode_function_data`: the serial and padding
      go to the frame builder, the body to a second builder whose CRC is
      appended after it. */
  method Encode(m: Message, crc: seq<Byte> -> Word) returns (r: Result<seq<Byte>, Exception>)
    requires Encodable(m)
    ensures r == EncodeSpec(m, crc)
  {
    if Fields(m.kind).serial && m.inverterSerial.None? {
      return Failure(AttributeError);
    }
    var inner := EncodeInner(m, crc);
    r := Success(Pdu.Header(|inner|, FunctionCode) + inner);
  }

  /** The two builders of `encode`: the serial and padding go to the frame
      builder, the body to the CRC builder, and the body and its CRC are
      then appended to the frame builder. The missing serial that makes
      `encode` fail leaves nothing behind in either builder, so `Encode`
      reports it before building. */
  method EncodeInner(m: Message, crc: seq<Byte> -> Word) returns (inner: seq<Byte>)
    requires Encodable(m) && HasSerial(m)
    ensures inner == Inner(m, crc)
  {
    var builder := new Encoder();
    builder.AddString(m.dataAdapterSerial, 10);
    builder.AddUInt(m.padding, 8);
    var crcBuilder := new Encoder();
    crcBuilder.AddUInt(m.slave, 1);
    crcBuilder.AddUInt(Code(m.kind), 1);
    assert crcBuilder.payload == [m.slave] + [Code(m.kind)] by {
      assert BE(m.slave, 1) == [m.slave] && BE(Code(m.kind), 1) == [Code(m.kind)];
    }
    AddFields(crcBuilder, m);
    assert crcBuilder.payload == Body(m);
    var c := crc(crcBuilder.payload);
    builder.Append(crcBuilder.payload);
    builder.AddLE16(c);
    inner := builder.payload;
  }

  // ---------------------------------------------------------------------
  // Decoding

  function ReadString(s: seq<Byte>, n: nat): Result<Got<string>, Exception> {
    match Codec.ReadString(s, n)
    case Some(g) => Success(g)
    case None => Failure(Truncated)
  }

  /** `n` big-endian words. */
  function ReadWords(s: seq<Byte>, n: nat): (r: Result<Got<seq<int>>, Exception>)
    ensures r.Success? ==> |r.value.v| == n
    ensures r.Failure? ==> r.error == Truncated
  {
    if n == 0 then Success(Got([], s))
    else
      var first :- Pdu.Read(s, 2);
      var rest :- ReadWords(first.rest, n - 1);
      Success(Got([first.v] + rest.v, rest.rest))
  }

  /** The part every transparent message starts with. */
  datatype Preamble = Preamble(dataAdapterSerial: string, padding: nat, slave: nat, code: nat)

  function ReadPreamble(s: seq<Byte>): Result<Got<Preamble>, Exception> {
    var das :- ReadString(s, 10);
    var padding :- Pdu.Read(das.rest, 8);
    var slave :- Pdu.Read(padding.rest, 1);
    var code :- Pdu.Read(slave.rest, 1);
    Success(Got(Preamble(das.v, padding.v, slave.v, code.v), code.rest))
  }

  /** The optional fields as found on the wire, and the check word. */
  datatype WireFields = WireFields(
    serial: Option<string>,
    base: Option<int>,
    count: Option<int>,
    values: Option<seq<int>>,
    check: int)

  function ReadOptString(present: bool, s: seq<Byte>): Result<Got<Option<string>>, Exception> {
    if !present then Success(Got(None, s))
    else
      var g :- ReadString(s, 10);
      Success(Got(Some(g.v), g.rest))
  }

  function ReadOptWord(present: bool, s: seq<Byte>): Result<Got<Option<int>>, Exception> {
    if !present then Success(Got(None, s))
    else
      var g :- Pdu.Read(s, 2);
      Success(Got(Some(g.v), g.rest))
  }

  /** `count` words, none when `count` is negative (as `range` gives). */
  function ReadOptWords(present: bool, count: int, s: seq<Byte>): Result<Got<Option<seq<int>>>, Exception> {
    if !present then Success(Got(None, s))
    else
      var g :- ReadWords(s, if count < 0 then 0 else count);
      Success(Got(Some(g.v), g.rest))
  }

  /** The kind's fields in order, the value count coming from the wire or
      from the class, then the check word. */
  function ReadFields(f: FieldSet, classCount: int, s: seq<Byte>): Result<WireFields, Exception> {
    var serial :- ReadOptString(f.serial, s);
    var base :- ReadOptWord(f.base, serial.rest);
    var count :- ReadOptWord(f.count, base.rest);
    var values :- ReadOptWords(f.values, count.v.GetOr(classCount), count.rest);
    var check :- Pdu.Read(values.rest, 2);
    Success(WireFields(serial.v, base.v, count.v, values.v, check.v))
  }

  /** The table lookup; an unknown code is a `KeyError`. */
  function FindKind(dir: Direction, code: int): Result<Kind, Exception> {
    match Lut(dir, code)
    case Some(k) => Success(k)
    case None => Failure(KeyError)
  }

  /** The keyword arguments decoding passes to the constructor. The error
      flag is passed only when set. */
  function DecodedKwargs(p: Preamble, w: WireFields): Kwargs {
    Kwargs(
      Some(p.dataAdapterSerial),
      Some(p.padding),
      Some(p.slave),
      if p.code >= 0x80 then Some(true) else None,
      w.serial, w.base, w.count, w.values,
      Some(w.check),
      None, None)
  }

  /** `decode_main_function`: the preamble, the error bit (0x80) of the
      function code (the exception-response convention of section 7 of the
      MODBUS Application Protocol Specification V1.1b3), the kind's table
      lookup, its fields, and construction from the decoded attributes.
      Bytes after the check word are left unread. */
  function DecodeMain(dir: Direction, s: seq<Byte>): Result<Message, Exception> {
    var pre :- ReadPreamble(s);
    DecodeAfterPreamble(dir, pre.v, pre.rest)
  }

  /** The rest of `decode_main_function` once the preamble is read. */
  function DecodeAfterPreamble(dir: Direction, p: Preamble, rest: seq<Byte>): Result<Message, Exception> {
    var kind :- FindKind(dir, p.code % 0x80);
    var w :- ReadFields(Fields(kind), ClassCount(kind), rest);
    Construct(kind, DecodedKwargs(p, w))
  }

  /** `decode_bytes` for a transparent frame: the header checks, then the
      main function. */
  function DecodeSpec(dir: Direction, data: seq<Byte>): Result<Message, Exception> {
    var body :- Pdu.CheckHeader(data, FunctionCode);
    DecodeMain(dir, body)
  }

  lemma ReadPreambleOf(p: Preamble, rest: seq<Byte>)
    requires SerialField(p.dataAdapterSerial) && p.padding < Pow256(8) && p.slave < 256 && p.code < 256
    ensures ReadPreamble(StringBytes(p.dataAdapterSerial) + BE(p.padding, 8) + [p.slave] + [p.code] + rest)
            == Success(Got(p, rest))
  {
    var s3 := [p.code] + rest;
    var s2 := [p.slave] + s3;
    var s1 := BE(p.padding, 8) + s2;
    assert StringBytes(p.dataAdapterSerial) + BE(p.padding, 8) + [p.slave] + [p.code] + rest
           == StringBytes(p.dataAdapterSerial) + s1;
    ReadStringOfBytes(p.dataAdapterSerial, s1);
    ReadUIntOfBE(p.padding, 8, s2);
    Pdu.ReadByte(p.slave, s3);
    Pdu.ReadByte(p.code, rest);
  }

  /** The error bit is reported and stripped, and a code missing from the
      direction's table fails the lookup. */
  lemma DecodeFunctionCode(dir: Direction, p: Preamble, rest: seq<Byte>)
    requires SerialField(p.dataAdapterSerial) && p.padding < Pow256(8) && p.slave < 256 && p.code < 256
    ensures var r := DecodeMain(dir, StringBytes(p.dataAdapterSerial) + BE(p.padding, 8) + [p.slave] + [p.code] + rest);
            (Lut(dir, p.code % 0x80).None? ==> r == Failure(KeyError)) &&
            (r.Success? ==> r.value.error == (p.code >= 0x80) && Code(r.value.kind) == p.code % 0x80 &&
                            DirectionOf(r.value.kind) == dir &&
                            r.value.slave == p.slave && r.value.padding == p.padding &&
                            r.value.dataAdapterSerial == p.dataAdapterSerial)
  {
    ReadPreambleOf(p, rest);
    var r := DecodeMain(dir, StringBytes(p.dataAdapterSerial) + BE(p.padding, 8) + [p.slave] + [p.code] + rest);
    if r.Success? {
      LutInverse(dir, p.code % 0x80, r.value.kind);
    }
  }

  /** `decode_bytes` over a decoder cursor: the header checks of the base
      class, then the main function. */
  method Decode(dir: Direction, data: seq<Byte>) returns (r: Result<Message, Exception>)
    ensures r == DecodeSpec(dir, data)
  {
    var d := new Decoder(data);
    var tid := d.UInt(2);
    if tid.None? { return Failure(Truncated); }
    if tid.value != Pdu.TransactionId { return Failure(InvalidFrame(BadTransactionId(tid.value))); }
    var pid := d.UInt(2);
    if pid.None? { return Failure(Truncated); }
    if pid.value != Pdu.ProtocolId { return Failure(InvalidFrame(BadProtocolId(pid.value))); }
    var len := d.UInt(2);
    if len.None? { return Failure(Truncated); }
    var remaining := |d.data| - d.pos;
    if len.value != remaining { return Failure(InvalidFrame(BadLength(len.value, remaining))); }
    var uid := d.UInt(1);
    if uid.None? { return Failure(Truncated); }
    if uid.value != 0 && uid.value != 1 { return Failure(InvalidFrame(BadUnitId(uid.value))); }
    var fc := d.UInt(1);
    if fc.None? { return Failure(Truncated); }
    if fc.value != FunctionCode { return Failure(AssertionError); }
    assert Pdu.CheckHeader(data, FunctionCode) == Success(d.Remaining());
    r := DecodeMainFunction(dir, d);
  }

  /** `decode_main_function` over the decoder cursor: the preamble and the
      class lookup, then the fields. */
  method DecodeMainFunction(dir: Direction, d: Decoder) returns (r: Result<Message, Exception>)
    requires d.Valid()
    modifies d
    ensures r == DecodeMain(dir, old(d.Remaining()))
  {
    var pre := DecodePreamble(d);
    if pre.Failure? { return Failure(pre.error); }
    r := DecodeKindAndFields(dir, pre.value, d);
  }

  /** The lookup of the function code and the field part of
      `decode_main_function`. */
  method DecodeKindAndFields(dir: Direction, p: Preamble, d: Decoder) returns (r: Result<Message, Exception>)
    requires d.Valid()
    modifies d
    ensures r == DecodeAfterPreamble(dir, p, old(d.Remaining()))
  {
    ghost var rest := d.Remaining();
    var tfc := p.code;
    if tfc >= 0x80 {
      tfc := tfc % 0x80;
    }
    assert tfc == p.code % 0x80;
    var found := Lut(dir, tfc);
    if found.None? { return Failure(KeyError); }
    var kind := found.value;
    assert FindKind(dir, p.code % 0x80) == Success(kind);
    var w := DecodeFields(kind, d);
    if w.Failure? { return Failure(w.error); }
    assert ReadFields(Fields(kind), ClassCount(kind), rest) == Success(w.value);
    r := Construct(kind, DecodedKwargs(p, w.value));
  }

  /** The fixed first part of `decode_main_function`. */
  method DecodePreamble(d: Decoder) returns (r: Result<Preamble, Exception>)
    requires d.Valid()
    modifies d
    ensures d.Valid()
    ensures ReadPreamble(old(d.Remaining())).Failure? ==> r == Failure(ReadPreamble(old(d.Remaining())).error)
    ensures ReadPreamble(old(d.Remaining())).Success? ==>
              r == Success(ReadPreamble(old(d.Remaining())).value.v) &&
              d.Remaining() == ReadPreamble(old(d.Remaining())).value.rest
  {
    var das := d.String(10);
    if das.None? { return Failure(Truncated); }
    var padding := d.UInt(8);
    if padding.None? { return Failure(Truncated); }
    var slave := d.UInt(1);
    if slave.None? { return Failure(Truncated); }
    var code := d.UInt(1);
    if code.None? { return Failure(Truncated); }
    r := Success(Preamble(das.value, padding.value, slave.value, code.value));
  }

  /** The field part of `decode_main_function`, values read in a loop. */
  method DecodeFields(kind: Kind, d: Decoder) returns (r: Result<WireFields, Exception>)
    requires d.Valid()
    modifies d
    ensures r == ReadFields(Fields(kind), ClassCount(kind), old(d.Remaining()))
  {
    ghost var s := d.Remaining();
    var f := Fields(kind);
    var serial: Option<string> := None;
    if f.serial {
      serial := d.String(10);
      if serial.None? { return Failure(Truncated); }
    }
    assert ReadOptString(f.serial, s) == Success(Got(serial, d.Remaining()));
    ghost var s1 := d.Remaining();
    var base: Option<int> := None;
    if f.base {
      var b := d.UInt(2);
      if b.None? { return Failure(Truncated); }
      base := Some(b.value);
    }
    assert ReadOptWord(f.base, s1) == Success(Got(base, d.Remaining()));
    ghost var s2 := d.Remaining();
    var n := ClassCount(kind);
    var count: Option<int> := None;
    if f.count {
      var c := d.UInt(2);
      if c.None? { return Failure(Truncated); }
      count := Some(c.value);
      n := c.value;
    }
    assert ReadOptWord(f.count, s2) == Success(Got(count, d.Remaining()));
    assert n == count.GetOr(ClassCount(kind));
    ghost var s3 := d.Remaining();
    var values: Option<seq<int>> := None;
    if f.values {
      var vs := DecodeWords(d, n);
      if vs.None? { return Failure(Truncated); }
      values := vs;
    }
    assert ReadOptWords(f.values, n, s3) == Success(Got(values, d.Remaining()));
    var check := d.UInt(2);
    if check.None? { return Failure(Truncated); }
    r := Success(WireFields(serial, base, count, values, check.value));
  }

  /** `[decoder.decode_16bit_uint() for _ in range(n)]`. */
  method DecodeWords(d: Decoder, n: int) returns (r: Option<seq<int>>)
    requires d.Valid()
    modifies d
    ensures d.Valid()
    ensures ReadWords(old(d.Remaining()), if n < 0 then 0 else n).Failure? ==> r.None?
    ensures ReadWords(old(d.Remaining()), if n < 0 then 0 else n).Success? ==>
              r == Some(ReadWords(old(d.Remaining()), if n < 0 then 0 else n).value.v) &&
              d.Remaining() == ReadWords(old(d.Remaining()), if n < 0 then 0 else n).value.rest
  {
    ghost var start := d.Remaining();
    var vs: seq<int> := [];
    var i := 0;
    while i < n
      invariant d.Valid()
      invariant 0 <= i && (n >= 0 ==> i <= n) && (n < 0 ==> i == 0)
      invariant ReadWords(start, i) == Success(Got(vs, d.Remaining()))
    {
      ghost var before := d.Remaining();
      var w := d.UInt(2);
      if w.None? {
        ReadWordsShort(start, i, vs, before, n);
        return None;
      }
      ReadWordsStep(start, i, vs, before);
      vs := vs + [w.value];
      i := i + 1;
    }
    r := Some(vs);
  }

  lemma {:induction false} ReadWordsStep(s: seq<Byte>, i: nat, vs: seq<int>, rest: seq<Byte>)
    requires ReadWords(s, i) == Success(Got(vs, rest)) && Pdu.Read(rest, 2).Success?
    ensures ReadWords(s, i + 1) ==
            Success(Got(vs + [Pdu.Read(rest, 2).value.v], Pdu.Read(rest, 2).value.rest))
  {
    var w := Pdu.Read(rest, 2).value;
    if i == 0 {
      assert vs == [] && rest == s;
      assert ReadWords(w.rest, 0) == Success(Got([], w.rest));
      assert [w.v] + [] == vs + [w.v];
    } else {
      var first := Pdu.Read(s, 2).value;
      var tail := ReadWords(first.rest, i - 1).value;
      assert vs == [first.v] + tail.v && rest == tail.rest;
      ReadWordsStep(first.rest, i - 1, tail.v, rest);
      assert ReadWords(first.rest, i) == Success(Got(tail.v + [w.v], w.rest));
      assert [first.v] + (tail.v + [w.v]) == vs + [w.v];
    }
  }

  /** Running out of bytes part-way through the `n` words. */
  lemma {:induction false} ReadWordsShort(s: seq<Byte>, i: nat, vs: seq<int>, rest: seq<Byte>, n: int)
    requires ReadWords(s, i) == Success(Got(vs, rest)) && Pdu.Read(rest, 2).Failure? && i < n
    ensures ReadWords(s, n).Failure?
  {
    var k: nat := n;
    ReadWordsPrefix(s, i, k, vs, rest);
  }

  lemma {:induction false} ReadWordsPrefix(s: seq<Byte>, i: nat, n: nat, vs: seq<int>, rest: seq<Byte>)
    requires ReadWords(s, i) == Success(Got(vs, rest)) && Pdu.Read(rest, 2).Failure? && i < n
    ensures ReadWords(s, n).Failure?
  {
    if i > 0 {
      var first := Pdu.Read(s, 2).value;
      var tail := ReadWords(first.rest, i - 1).value;
      ReadWordsPrefix(first.rest, i - 1, n - 1, tail.v, rest);
    }
  }

  // ---------------------------------------------------------------------
  // Round trip

  lemma {:induction false} ReadWordsOfWords(vs: seq<int>, rest: seq<Byte>)
    requires forall i :: 0 <= i < |vs| ==> 0 <= vs[i] < 0x1_0000
    ensures ReadWords(Words(vs) + rest, |vs|) == Success(Got(vs, rest))
  {
    if vs != [] {
      var tail := Words(vs[1..]) + rest;
      assert Words(vs) + rest == BE(vs[0], 2) + tail;
      Pdu.ReadWord(vs[0], tail);
      assert Pdu.Read(Words(vs) + rest, 2) == Success(Got(vs[0], tail));
      ReadWordsOfWords(vs[1..], rest);
      assert |vs[1..]| == |vs| - 1;
      assert ReadWords(tail, |vs| - 1) == Success(Got(vs[1..], rest));
      assert ReadWords(Words(vs) + rest, |vs|) == Success(Got([vs[0]] + vs[1..], rest));
      assert [vs[0]] + vs[1..] == vs;
    } else {
      assert Words(vs) + rest == rest;
    }
  }

  /** Messages whose decoding gives them back: valid, encodable, without
      the error flag (encoding does not write it), and with every field the
      kind does not carry at the value decoding gives it (the class default,
      or nothing). */
  predicate RoundTrips(m: Message) {
    var f := Fields(m.kind);
    Valid(m) && Encodable(m) && !m.error &&
    (f.serial <==> m.inverterSerial.Some?) &&
    (!f.base ==> m.base == -1) &&
    (!f.count ==> m.count == ClassCount(m.kind)) &&
    (!f.values ==> m.values == [])
  }

  /** The fields of a message as decoding reads them back. */
  function WireOf(m: Message, check: int): WireFields {
    var f := Fields(m.kind);
    WireFields(
      m.inverterSerial,
      if f.base then Some(m.base) else None,
      if f.count then Some(m.count) else None,
      if f.values then Some(m.values) else None,
      check)
  }

  lemma ReadOptStringOf(present: bool, v: Option<string>, rest: seq<Byte>)
    requires present <==> v.Some?
    requires present ==> SerialField(v.value)
    ensures ReadOptString(present, (if present then StringBytes(v.value) else []) + rest) == Success(Got(v, rest))
  {
    if present {
      ReadStringOfBytes(v.value, rest);
    } else {
      assert [] + rest == rest;
    }
  }

  lemma ReadOptWordOf(present: bool, v: int, rest: seq<Byte>)
    requires present ==> 0 <= v < 0x1_0000
    ensures ReadOptWord(present, (if present then BE(v, 2) else []) + rest)
            == Success(Got(if present then Some(v) else None, rest))
  {
    if present {
      Pdu.ReadWord(v, rest);
    } else {
      assert [] + rest == rest;
    }
  }

  lemma ReadOptWordsOf(present: bool, n: int, vs: seq<int>, rest: seq<Byte>)
    requires present ==> n == |vs| && forall i :: 0 <= i < |vs| ==> 0 <= vs[i] < 0x1_0000
    ensures ReadOptWords(present, n, (if present then Words(vs) else []) + rest)
            == Success(Got(if present then Some(vs) else None, rest))
  {
    if present {
      ReadWordsOfWords(vs, rest);
    } else {
      assert [] + rest == rest;
    }
  }

  /** Reading back the fields a field set selects. */
  lemma ReadFieldsOf(f: FieldSet, classCount: int, serial: Option<string>, base: int, count: int,
                     values: seq<int>, check: Word, extra: seq<Byte>)
    requires f.serial <==> serial.Some?
    requires f.serial ==> SerialField(serial.value)
    requires f.base ==> 0 <= base < 0x1_0000
    requires f.count ==> 0 <= count < 0x1_0000
    requires f.values ==> |values| == (if f.count then count else classCount)
    requires f.values ==> forall i :: 0 <= i < |values| ==> 0 <= values[i] < 0x1_0000
    ensures ReadFields(f, classCount,
              (if f.serial then StringBytes(serial.value) else []) +
              ((if f.base then BE(base, 2) else []) +
               ((if f.count then BE(count, 2) else []) +
                ((if f.values then Words(values) else []) + (BE(check, 2) + extra)))))
            == Success(WireFields(serial,
                                  if f.base then Some(base) else None,
                                  if f.count then Some(count) else None,
                                  if f.values then Some(values) else None,
                                  check))
  {
    var ps := if f.serial then StringBytes(serial.value) else [];
    var pb := if f.base then BE(base, 2) else [];
    var pc := if f.count then BE(count, 2) else [];
    var pv := if f.values then Words(values) else [];
    var sk := BE(check, 2) + extra;
    var sv := pv + sk;
    var sc := pc + sv;
    var sb := pb + sc;
    var n := if f.count then count else classCount;
    var cnt := if f.count then Some(count) else None;
    ReadOptStringOf(f.serial, serial, sb);
    ReadOptWordOf(f.base, base, sc);
    ReadOptWordOf(f.count, count, sv);
    ReadOptWordsOf(f.values, n, values, sk);
    Pdu.ReadWord(check, extra);
    var r1 := ReadOptString(f.serial, ps + sb);
    assert r1 == Success(Got(serial, sb));
    var r2 := ReadOptWord(f.base, sb);
    var r3 := ReadOptWord(f.count, sc);
    assert r3 == Success(Got(cnt, sv));
    var r4 := ReadOptWords(f.values, cnt.GetOr(classCount), sv);
    assert r4 == Success(Got(if f.values then Some(values) else None, sk));
    assert r2.value.v == (if f.base then Some(base) else None);
    ReadFieldsChain(f, classCount, ps + sb, r1.value, r2.value, r3.value, r4.value, Got(check, extra));
  }

  /** `ReadFields` succeeds when each of its reads does. */
  lemma ReadFieldsChain(f: FieldSet, classCount: int, s: seq<Byte>, g1: Got<Option<string>>,
                        g2: Got<Option<int>>, g3: Got<Option<int>>, g4: Got<Option<seq<int>>>, g5: Got<nat>)
    requires ReadOptString(f.serial, s) == Success(g1)
    requires ReadOptWord(f.base, g1.rest) == Success(g2)
    requires ReadOptWord(f.count, g2.rest) == Success(g3)
    requires ReadOptWords(f.values, g3.v.GetOr(classCount), g3.rest) == Success(g4)
    requires Pdu.Read(g4.rest, 2) == Success(g5)
    ensures ReadFields(f, classCount, s) == Success(WireFields(g1.v, g2.v, g3.v, g4.v, g5.v))
  {
  }

  /** Constructing from what decoding reads back gives the message, with
      the check word replaced. */
  lemma ConstructOfWire(m: Message, p: Preamble, check: int)
    requires RoundTrips(m)
    requires p == Preamble(m.dataAdapterSerial, m.padding, m.slave, Code(m.kind))
    ensures Construct(m.kind, DecodedKwargs(p, WireOf(m, check))) == Success(m.(check := check))
  {
  }

  /** Decoding the inner frame of an encodable message recovers the message,
      with the check word set to the CRC as read back: the CRC is written
      least significant byte first and read most significant byte first,
      and it is never compared with a recomputed one. Bytes after the check
      word do not matter. */
  lemma DecodeMainOfInner(m: Message, crc: seq<Byte> -> Word, extra: seq<Byte>)
    requires RoundTrips(m)
    ensures DecodeMain(DirectionOf(m.kind), Inner(m, crc) + extra)
            == Success(m.(check := SwapBytes16(crc(Body(m)))))
  {
    var check: Word := SwapBytes16(crc(Body(m)));
    PreambleOfInner(m, crc, extra);
    AfterPreambleOfMessage(m, check, extra);
  }

  /** After the preamble, the optional fields and the check word decode to
      the message in the direction of its kind. */
  lemma AfterPreambleOfMessage(m: Message, check: Word, extra: seq<Byte>)
    requires RoundTrips(m)
    ensures DecodeAfterPreamble(DirectionOf(m.kind), PreambleOfMessage(m), FieldsAndCheck(m, check, extra))
            == Success(m.(check := check))
  {
    var p := PreambleOfMessage(m);
    assert p.code % 0x80 == Code(m.kind);
    LutInverse(DirectionOf(m.kind), Code(m.kind), m.kind);
    ReadPartsOf(m, check, extra);
    ConstructOfWire(m, p, check);
  }

  /** The preamble a message is encoded with. */
  function PreambleOfMessage(m: Message): Preamble
    requires PreambleFits(m)
  {
    Preamble(m.dataAdapterSerial, m.padding, m.slave, Code(m.kind))
  }

  /** The bytes after the preamble: the optional fields, the check word and
      whatever follows the frame. */
  function FieldsAndCheck(m: Message, check: Word, extra: seq<Byte>): seq<Byte>
    requires Encodable(m) && HasSerial(m)
  {
    SerialPart(m) + (BasePart(m) + (CountPart(m) + (ValuesPart(m) + (BE(check, 2) + extra))))
  }

  /** The inner frame starts with the preamble of its message. */
  lemma PreambleOfInner(m: Message, crc: seq<Byte> -> Word, extra: seq<Byte>)
    requires Encodable(m) && HasSerial(m)
    ensures ReadPreamble(Inner(m, crc) + extra)
            == Success(Got(PreambleOfMessage(m), FieldsAndCheck(m, SwapBytes16(crc(Body(m))), extra)))
  {
    var p := PreambleOfMessage(m);
    var fieldBytes := FieldsAndCheck(m, SwapBytes16(crc(Body(m))), extra);
    InnerSplit(m, crc, extra);
    ReadPreambleOf(p, fieldBytes);
  }

  /** The encoded optional fields of a message, and its check word, read
      back as its wire fields. */
  lemma ReadPartsOf(m: Message, check: Word, extra: seq<Byte>)
    requires RoundTrips(m)
    ensures ReadFields(Fields(m.kind), ClassCount(m.kind), FieldsAndCheck(m, check, extra))
            == Success(WireOf(m, check))
  {
    var f := Fields(m.kind);
    ReadFieldsOf(f, ClassCount(m.kind), m.inverterSerial, m.base, m.count, m.values, check, extra);
    assert SerialPart(m) == if f.serial then StringBytes(m.inverterSerial.value) else [];
    assert BasePart(m) == if f.base then BE(m.base, 2) else [];
    assert CountPart(m) == if f.count then BE(m.count, 2) else [];
    assert ValuesPart(m) == if f.values then Words(m.values) else [];
  }

  lemma InnerSplit(m: Message, crc: seq<Byte> -> Word, extra: seq<Byte>)
    requires Encodable(m) && HasSerial(m)
    ensures Inner(m, crc) + extra
            == StringBytes(m.dataAdapterSerial) + BE(m.padding, 8) + [m.slave] + [Code(m.kind)] +
               FieldsAndCheck(m, SwapBytes16(crc(Body(m))), extra)
  {
    var c := crc(Body(m));
    var das, pad := StringBytes(m.dataAdapterSerial), BE(m.padding, 8);
    var sp, bp, cp, vp := SerialPart(m), BasePart(m), CountPart(m), ValuesPart(m);
    var ck := BE(SwapBytes16(c), 2);
    assert Inner(m, crc) == das + pad + ([m.slave] + [Code(m.kind)] + sp + bp + cp + vp) + ck by {
      LE16AsBE(c);
    }
    assert FieldsAndCheck(m, SwapBytes16(c), extra) == sp + (bp + (cp + (vp + (ck + extra))));
    RegroupInner(das, pad, [m.slave], [Code(m.kind)], sp, bp, cp, vp, ck, extra);
  }

  lemma RegroupFields(s: seq<Byte>, b: seq<Byte>, c: seq<Byte>, v: seq<Byte>, t: seq<Byte>)
    ensures s + b + c + v + t == s + (b + (c + (v + t)))
  {
  }

  lemma RegroupInner(das: seq<Byte>, pad: seq<Byte>, slave: seq<Byte>, code: seq<Byte>,
                     s: seq<Byte>, b: seq<Byte>, c: seq<Byte>, v: seq<Byte>,
                     check: seq<Byte>, extra: seq<Byte>)
    ensures das + pad + (slave + code + s + b + c + v) + check + extra
            == das + pad + slave + code + (s + (b + (c + (v + (check + extra)))))
  {
    var a := s + b + c + v;
    assert slave + code + s + b + c + v == slave + code + a;
    RegroupFields(s, b, c, v, check + extra);
    assert das + pad + (slave + code + a) + check + extra == das + pad + slave + code + (a + (check + extra));
  }

  /** Decoding what `encode` produced, in the direction of the message's
      kind, gives the message back (check word aside). */
  lemma RoundTrip(m: Message, crc: seq<Byte> -> Word)
    requires RoundTrips(m)
    ensures EncodeSpec(m, crc).Success?
    ensures DecodeSpec(DirectionOf(m.kind), EncodeSpec(m, crc).value)
            == Success(m.(check := SwapBytes16(crc(Body(m)))))
  {
    Pdu.HeaderOfFrame(Inner(m, crc), FunctionCode);
    DecodeMainOfInner(m, crc, []);
    assert Inner(m, crc) + [] == Inner(m, crc);
  }

  /** A frame whose length field also covers bytes after the message is
      still decoded to the message: trailing bytes are ignored. */
  lemma TrailingBytesIgnored(m: Message, crc: seq<Byte> -> Word, extra: seq<Byte>)
    requires RoundTrips(m) && Pdu.FitsLength(Inner(m, crc) + extra)
    ensures DecodeSpec(DirectionOf(m.kind), Pdu.Frame(Inner(m, crc) + extra, FunctionCode))
            == Success(m.(check := SwapBytes16(crc(Body(m)))))
  {
    Pdu.HeaderOfFrame(Inner(m, crc) + extra, FunctionCode);
    DecodeMainOfInner(m, crc, extra);
  }

  // ---------------------------------------------------------------------
  // Shapes

  /** `shape_hash`: slave address, function code, count and base register
      packed as decimal digit fields; kinds without a base register fail
      the assertion. */
  function ShapeHash(m: Message): (r: Result<int, Exception>)
    ensures r.Failure? <==> !Fields(m.kind).base
    ensures r.Failure? ==> r.error == AssertionError
  {
    if !Fields(m.kind).base then Failure(AssertionError)
    else Success(m.slave + 1000 * Code(m.kind) + 100000 * m.count + 10000000 * m.base)
  }

  /** The shape ignores values, serials, padding and the error flag, so a
      request and the response that answers it hash equal. */
  lemma ShapeOfResponse(req: Message, resp: Message)
    requires IsRequest(req.kind) && IsResponse(resp.kind) && Code(req.kind) == Code(resp.kind)
    requires req.slave == resp.slave && req.base == resp.base && req.count == resp.count
    ensures ShapeHash(req).Success? && ShapeHash(req) == ShapeHash(resp)
  {
  }

  /** Within the digit ranges the fields are meant to have, equal shapes
      mean equal slave address, function code, count and base register. */
  lemma ShapeHashInjective(a: Message, b: Message)
    requires ShapeHash(a).Success? && ShapeHash(b).Success?
    requires 0 <= a.slave < 1000 && 0 <= b.slave < 1000
    requires 0 <= a.count < 100 && 0 <= b.count < 100
    requires 0 <= a.base && 0 <= b.base
    ensures ShapeHash(a) == ShapeHash(b) <==>
              a.slave == b.slave && Code(a.kind) == Code(b.kind) && a.count == b.count && a.base == b.base
  {
    if ShapeHash(a) == ShapeHash(b) {
      var ha, hb := ShapeHash(a).value, ShapeHash(b).value;
      Digits(a.slave, Code(a.kind), a.count, a.base);
      Digits(b.slave, Code(b.kind), b.count, b.base);
    }
  }

  lemma Digits(slave: int, code: int, count: int, base: int)
    requires 0 <= slave < 1000 && 0 <= code < 100 && 0 <= count < 100 && 0 <= base
    ensures var h := slave + 1000 * code + 100000 * count + 10000000 * base;
            h % 1000 == slave && (h / 1000) % 100 == code &&
            (h / 100000) % 100 == count && h / 10000000 == base
  {
    var h := slave + 1000 * code + 100000 * count + 10000000 * base;
    var h1 := code + 100 * count + 10000 * base;
    assert h == slave + 1000 * h1;
    assert h / 1000 == h1 && h % 1000 == slave;
    var h2 := count + 100 * base;
    assert h1 == code + 100 * h2;
    assert h1 / 100 == h2 && h1 % 100 == code;
    assert h / 100000 == h2 by {
      assert h == (slave + 1000 * code) + 100000 * h2;
    }
    assert h2 % 100 == count && h2 / 100 == base;
    assert h / 10000000 == base by {
      assert h == (slave + 1000 * code + 100000 * count) + 10000000 * base;
    }
  }

  /** The argument of `has_same_shape`: another PDU, or anything else. */
  datatype ShapeArg = OfPdu(other: Message) | NotPdu

  /** `has_same_shape`: equal shape hashes; `NotImplementedError` for an
      argument that is not a PDU. */
  function HasSameShape(m: Message, o: ShapeArg): (r: Result<bool, Exception>)
    ensures o.NotPdu? ==> r == Failure(NotImplementedError)
    ensures o.OfPdu? && ShapeHash(m).Success? && ShapeHash(o.other).Success? ==>
              r == Success(ShapeHash(m).value == ShapeHash(o.other).value)
    ensures o.OfPdu? && (ShapeHash(m).Failure? || ShapeHash(o.other).Failure?) ==> r == Failure(AssertionError)
  {
    match o
    case NotPdu => Failure(NotImplementedError)
    case OfPdu(other) =>
      var h1 :- ShapeHash(m);
      var h2 :- ShapeHash(other);
      Success(h1 == h2)
  }

  // ---------------------------------------------------------------------
  // Enumeration

  /** `enumerate()`: the (register, value) pairs of a message with a base
      register and values, registers numbered up from the base. */
  method Enumerate(m: Message) returns (r: Result<seq<(Register, int)>, Exception>)
    ensures !(Fields(m.kind).base && Fields(m.kind).values) ==> r == Failure(AssertionError)
    ensures Fields(m.kind).base && Fields(m.kind).values && RegisterClass(m.kind).None? ==>
              r == Failure(AttributeError)
    ensures Fields(m.kind).base && Fields(m.kind).values && RegisterClass(m.kind).Some? ==>
              r.Success? && |r.value| == |m.values| &&
              forall i :: 0 <= i < |m.values| ==>
                r.value[i] == (Register(RegisterClass(m.kind).value, m.base + i), m.values[i])
  {
    var f := Fields(m.kind);
    if !(f.base && f.values) {
      return Failure(AssertionError);
    }
    if RegisterClass(m.kind).None? {
      return Failure(AttributeError);
    }
    var cls := RegisterClass(m.kind).value;
    var idx := m.base;
    var pairs: seq<(Register, int)> := [];
    for i := 0 to |m.values|
      invariant |pairs| == i && idx == m.base + i
      invariant forall j :: 0 <= j < i ==> pairs[j] == (Register(cls, m.base + j), m.values[j])
    {
      pairs := pairs + [(Register(cls, idx), m.values[i])];
      idx := idx + 1;
    }
    r := Success(pairs);
  }
}
