/** Register keys and the converters that turn raw 16-bit register values
    into meaningful values: signed words, byte halves, 32-bit pairs, time
    slots, strings, firmware versions and dates. A register definition is
    the recipe (pre-conversion, post-conversion, source registers) that the
    register getter applies. */
module Registers {
  import opened Wrappers
  import opened Decimal
  import opened Exceptions
  import opened Codec
  import opened Model

  /** Holding registers are read-write, input registers read-only. */
  datatype RegType = HR | IR

  /** A register key: its kind and its index. Two keys are equal exactly
      when kind and index are. */
  datatype Register = Register(kind: RegType, idx: int)

  function TypeTag(k: RegType): (tag: string)
    ensures |tag| == 2 && tag[1] == 'R'
  {
    match k
    case HR => "HR"
    case IR => "IR"
  }

  /** `str(register)`: the type tag, an underscore and the index. */
  function RegisterName(r: Register): string {
    TypeTag(r.kind) + "_" + IntToString(r.idx)
  }

  /** Names are unique: two registers with the same name are the same
      register, so `HR_0` and `IR_0` name different registers. */
  lemma RegisterNameInjective(a: Register, b: Register)
    ensures RegisterName(a) == RegisterName(b) <==> a == b
  {
    if RegisterName(a) == RegisterName(b) {
      var n := RegisterName(a);
      assert n[..2] == TypeTag(a.kind) && n[..2] == TypeTag(b.kind);
      assert n[3..] == IntToString(a.idx) && n[3..] == IntToString(b.idx);
      IntToStringInjective(a.idx, b.idx);
      assert a.kind == b.kind by {
        assert TypeTag(a.kind)[0] == TypeTag(b.kind)[0];
      }
    }
  }

  lemma RegisterNameExamples()
    ensures RegisterName(Register(HR, 22)) == "HR_22"
    ensures RegisterName(Register(IR, 99)) == "IR_99"
  {
    assert NatToString(22) == "22" by {
      assert NatToString(2) == "2";
    }
    assert NatToString(99) == "99" by {
      assert NatToString(9) == "9";
    }
  }

  // ---------------------------------------------------------------------
  // Integer converters

  /** `int16`: two's-complement reading of the low 16 bits' sign bit
      (Python's `&` on an arbitrary integer tests bit 15 of its infinite
      two's-complement form). */
  function Int16(v: int): int {
    if (v / 0x8000) % 2 == 1 then v - 0x1_0000 else v
  }

  /** On a 16-bit word, `int16` gives the signed value with the same bit
      pattern: it is in range, congruent to the word, and unchanged below
      0x8000. */
  lemma Int16Word(v: int)
    requires 0 <= v < 0x1_0000
    ensures -0x8000 <= Int16(v) < 0x8000
    ensures (Int16(v) - v) % 0x1_0000 == 0
    ensures v < 0x8000 <==> Int16(v) == v
  {
  }

  /** `int16` inverts the two's-complement encoding of a signed 16-bit
      value. */
  lemma Int16OfEncoding(x: int)
    requires -0x8000 <= x < 0x8000
    ensures 0 <= x % 0x1_0000 < 0x1_0000 && Int16(x % 0x1_0000) == x
  {
  }

  /** `duint8(val, i)`: the tuple `(val >> 8, val & 0xFF)` indexed by the
      first extra argument; Python tuple indexing accepts -2..1. */
  function Duint8(v: int, idx: seq<int>): (r: Result<int, Exception>)
    ensures r.Failure? <==> |idx| == 0 || !(-2 <= idx[0] <= 1)
  {
    if |idx| == 0 then Failure(IndexError)
    else if idx[0] == 0 || idx[0] == -2 then Success(v / 256)
    else if idx[0] == 1 || idx[0] == -1 then Success(v % 256)
    else Failure(IndexError)
  }

  /** The two halves of a word put back together give the word, and each
      half is a byte. */
  lemma Duint8Halves(v: int)
    requires 0 <= v < 0x1_0000
    ensures Duint8(v, [0]).Success? && Duint8(v, [1]).Success?
    ensures 0 <= Duint8(v, [0]).value < 256 && 0 <= Duint8(v, [1]).value < 256
    ensures v == 256 * Duint8(v, [0]).value + Duint8(v, [1]).value
  {
  }

  /** `uint32(high, low)`: `(high << 16) + low`. */
  function Uint32(high: int, low: int): int {
    high * 0x1_0000 + low
  }

  /** Joining two words is reversible: the high and low words are the
      quotient and remainder by 65536, and the result is a 32-bit value. */
  lemma Uint32Split(high: int, low: int)
    requires 0 <= high < 0x1_0000 && 0 <= low < 0x1_0000
    ensures 0 <= Uint32(high, low) < 0x1_0000_0000
    ensures Uint32(high, low) / 0x1_0000 == high && Uint32(high, low) % 0x1_0000 == low
  {
  }

  // ---------------------------------------------------------------------
  // Strings

  /** Each word as two bytes, most significant first (`to_bytes(2, "big")`). */
  function WordBytes(words: seq<int>): (r: seq<Byte>)
    requires forall i :: 0 <= i < |words| ==> 0 <= words[i] < 0x1_0000
    ensures |r| == 2 * |words|
  {
    if words == [] then [] else [words[0] / 256, words[0] % 256] + WordBytes(words[1..])
  }

  function DropNul(s: string): (r: string)
    ensures '\0' !in r
  {
    if s == [] then [] else (if s[0] == '\0' then [] else [s[0]]) + DropNul(s[1..])
  }

  /** Python's `str.upper` on one character of the Latin-1 range. */
  function Upper(c: char): (r: string)
    ensures c != '\0' ==> '\0' !in r
  {
    if 'a' <= c <= 'z' then [(c as int - 32) as char]
    else if c as int == 0xB5 then [0x39C as char]
    else if c as int == 0xDF then "SS"
    else if 0xE0 <= c as int <= 0xFE && c as int != 0xF7 then [(c as int - 32) as char]
    else if c as int == 0xFF then [0x178 as char]
    else [c]
  }

  function UpperAll(s: string): (r: string)
    ensures '\0' !in s ==> '\0' !in r
  {
    if s == [] then [] else Upper(s[0]) + UpperAll(s[1..])
  }

  /** `string(*vals)`: the words' bytes decoded as Latin-1, with every NUL
      removed, upper-cased; a value that is not a 16-bit word makes
      `to_bytes` raise `OverflowError`. */
  function StringConv(words: seq<int>): (r: Result<string, Exception>)
    ensures r.Success? ==> '\0' !in r.value
    ensures r.Failure? <==> exists i :: 0 <= i < |words| && !(0 <= words[i] < 0x1_0000)
  {
    if exists i :: 0 <= i < |words| && !(0 <= words[i] < 0x1_0000) then Failure(OverflowError)
    else Success(UpperAll(DropNul(BytesString(WordBytes(words)))))
  }

  /** Two characters per word, the first in the high byte: how a serial
      number is laid out over consecutive registers. */
  function PackString(s: string): (words: seq<int>)
    requires |s| % 2 == 0 && OneByteChars(s)
    ensures |words| == |s| / 2
    ensures forall i :: 0 <= i < |words| ==> 0 <= words[i] < 0x1_0000
  {
    if s == [] then [] else [s[0] as int * 256 + s[1] as int] + PackString(s[2..])
  }

  lemma {:induction false} WordBytesOfPack(s: string)
    requires |s| % 2 == 0 && OneByteChars(s)
    ensures WordBytes(PackString(s)) == StringBytes(s)
  {
    if s != [] {
      WordBytesOfPack(s[2..]);
      assert StringBytes(s) == [s[0] as int, s[1] as int] + StringBytes(s[2..]);
    }
  }

  /** Decoding packed text gives the text back, without its NULs and upper
      cased. */
  lemma StringOfPacked(s: string)
    requires |s| % 2 == 0 && OneByteChars(s)
    ensures StringConv(PackString(s)) == Success(UpperAll(DropNul(s)))
  {
    WordBytesOfPack(s);
    assert BytesString(StringBytes(s)) == s;
  }

  /** Digits and capital letters, which upper-casing leaves alone. */
  predicate DigitOrCapital(c: char) {
    '0' <= c <= '9' || 'A' <= c <= 'Z'
  }

  /** Text of digits and capitals survives packing and decoding unchanged. */
  lemma {:induction false} UpperAllStable(s: string)
    requires forall i :: 0 <= i < |s| ==> DigitOrCapital(s[i])
    ensures UpperAll(s) == s && DropNul(s) == s
  {
    if s != [] {
      UpperAllStable(s[1..]);
    }
  }

  /** A serial number of digits and capitals, packed into registers, is
      decoded back to itself. */
  lemma SerialRoundTrip(s: string)
    requires |s| % 2 == 0 && forall i :: 0 <= i < |s| ==> DigitOrCapital(s[i])
    ensures OneByteChars(s) && StringConv(PackString(s)) == Success(s)
  {
    StringOfPacked(s);
    UpperAllStable(s);
  }

  /** The serial number `BG1234G567` as stored in five input registers. */
  lemma StringExample()
    ensures StringConv([16967, 12594, 13108, 18229, 13879]) == Success("BG1234G567")
  {
    ExampleSerialChars();
    ExampleSerialPacked();
    SerialRoundTrip("BG1234G567");
  }

  lemma ExampleSerialChars()
    ensures forall i :: 0 <= i < |"BG1234G567"| ==> DigitOrCapital("BG1234G567"[i])
  {
  }

  lemma ExampleSerialPacked()
    requires forall i :: 0 <= i < |"BG1234G567"| ==> DigitOrCapital("BG1234G567"[i])
    ensures OneByteChars("BG1234G567")
    ensures PackString("BG1234G567") == [16967, 12594, 13108, 18229, 13879]
  {
    var s := "BG1234G567";
    assert PackString(s[8..]) == [13879];
    assert PackString(s[6..]) == [18229, 13879];
    assert PackString(s[4..]) == [13108, 18229, 13879];
    assert PackString(s[2..]) == [12594, 13108, 18229, 13879];
  }

  /** Every NUL is dropped, not only trailing ones. */
  lemma StringDropsInnerNul()
    ensures StringConv([0x4100, 0x0042]) == Success("AB")
  {
    NulExamplePacked();
    StringOfPacked("A\0\0B");
    NulExampleDropped();
    UpperAllStable("AB");
  }

  lemma NulExamplePacked()
    ensures OneByteChars("A\0\0B")
    ensures PackString("A\0\0B") == [0x4100, 0x0042]
  {
    var s := "A\0\0B";
    assert s[2..] == "\0B";
  }

  lemma NulExampleDropped()
    ensures DropNul("A\0\0B") == "AB"
  {
    var s := "A\0\0B";
    assert s[1..] == "\0\0B" && s[1..][1..] == "\0B" && s[1..][1..][1..] == "B";
  }

  // ---------------------------------------------------------------------
  // Firmware versions and device types

  /** `firmware_version(dsp, arm)`: `D0.<dsp>-A0.<arm>`, each version shown
      the way an f-string shows it. */
  function FirmwareVersion(dsp: Value, arm: Value): string {
    "D0." + Display(dsp) + "-A0." + Display(arm)
  }

  /** The inverse of `FirmwareVersion` for non-negative versions: the DSP
      version runs from after `D0.` to the first `-`. */
  function ParseFirmwareVersion(s: string): Option<(int, int)> {
    if |s| < 3 || s[..3] != "D0." then None
    else
      var rest := s[3..];
      var k := FirstDash(rest);
      if k + 4 > |rest| || rest[k..k + 4] != "-A0." then None
      else
        var dsp :- ParseInt(rest[..k]);
        var arm :- ParseInt(rest[k + 4..]);
        Some((dsp, arm))
  }

  /** The position of the first `-`, or the length when there is none. */
  function FirstDash(s: string): (k: nat)
    ensures k <= |s| && (k < |s| ==> s[k] == '-')
    ensures forall i :: 0 <= i < k ==> s[i] != '-'
  {
    if s == [] || s[0] == '-' then 0 else 1 + FirstDash(s[1..])
  }

  lemma FirstDashAfterDigits(d: string, rest: string)
    requires AllDigits(d) && |rest| > 0 && rest[0] == '-'
    ensures FirstDash(d + rest) == |d|
  {
    if d != [] {
      assert (d + rest)[1..] == d[1..] + rest;
      FirstDashAfterDigits(d[1..], rest);
    }
  }

  /** The firmware-version converter on two integers writes both in
      decimal, and for non-negative versions the text can be read back. */
  lemma FirmwareVersionRoundTrip(dsp: nat, arm: nat)
    ensures Apply(ToFirmwareVersion, [IntVal(dsp), IntVal(arm)])
            == Success(StrVal("D0." + IntToString(dsp) + "-A0." + IntToString(arm)))
    ensures ParseFirmwareVersion(Apply(ToFirmwareVersion, [IntVal(dsp), IntVal(arm)]).value.s) == Some((dsp, arm))
  {
    var args := [IntVal(dsp), IntVal(arm)];
    assert NoneVal !in args by {
      assert args[0] != NoneVal && args[1] != NoneVal;
    }
    ApplyFixedArity(ToFirmwareVersion, args);
    assert FirmwareVersion(IntVal(dsp), IntVal(arm)) == "D0." + IntToString(dsp) + "-A0." + IntToString(arm);
    ParseFirmwareText(dsp, arm);
  }

  lemma ParseFirmwareText(dsp: nat, arm: nat)
    ensures ParseFirmwareVersion("D0." + IntToString(dsp) + "-A0." + IntToString(arm)) == Some((dsp, arm))
  {
    var s := "D0." + IntToString(dsp) + "-A0." + IntToString(arm);
    var d, a := NatToString(dsp), NatToString(arm);
    assert s[..3] == "D0.";
    var rest := s[3..];
    assert rest == d + ("-A0." + a);
    FirstDashAfterDigits(d, "-A0." + a);
    assert rest[..|d|] == d;
    assert rest[|d|..|d| + 4] == "-A0.";
    assert rest[|d| + 4..] == a;
    ValueOfNatToString(dsp);
    ValueOfNatToString(arm);
    ParseDigits(d);
    ParseDigits(a);
  }

  /** An f-string shows a list the way `str` does, so the register list a
      definition without pre-conversion yields is written out in full. */
  lemma FirmwareVersionOfList()
    ensures Apply(ToFirmwareVersion, [ListVal([1, 2]), IntVal(5)]) == Success(StrVal("D0.[1, 2]-A0.5"))
  {
    var args := [ListVal([1, 2]), IntVal(5)];
    assert NoneVal !in args by {
      assert args[0] != NoneVal && args[1] != NoneVal;
    }
    ApplyFixedArity(ToFirmwareVersion, args);
    assert FirmwareVersion(ListVal([1, 2]), IntVal(5)) == "D0.[1, 2]-A0.5" by {
      ShownList();
      assert IntToString(5) == "5";
    }
  }

  lemma ShownList()
    ensures Display(ListVal([1, 2])) == "[1, 2]"
  {
    assert IntToString(1) == "1" && IntToString(2) == "2";
    assert JoinInts([1, 2]) == "1, 2" by {
      assert [1, 2][1..] == [2];
    }
  }

  /** `inverter_max_power`: rated power by device type code. */
  function InverterMaxPower(deviceTypeCode: string): (r: Option<int>)
    ensures r.Some? ==> 3000 <= r.value <= 11000
  {
    var table := map[
      "2001" := 5000, "2002" := 4600, "2003" := 3600, "3001" := 3000, "3002" := 3600,
      "4001" := 6000, "4002" := 8000, "4003" := 10000, "4004" := 11000, "8001" := 6000];
    if deviceTypeCode in table then Some(table[deviceTypeCode]) else None
  }

  lemma InverterMaxPowerKnown()
    ensures InverterMaxPower("2001") == Some(5000)
    ensures InverterMaxPower("4004") == Some(11000)
    ensures InverterMaxPower("9999") == None
  {
  }

  // ---------------------------------------------------------------------
  // Dates

  /** A `datetime.datetime` without microseconds or time zone. */
  datatype DateTime = DateTime(year: int, month: int, day: int, hour: int, minute: int, second: int)

  predicate IsLeapYear(y: int) {
    y % 4 == 0 && (y % 100 != 0 || y % 400 == 0)
  }

  function DaysInMonth(year: int, month: int): int
    requires 1 <= month <= 12
  {
    if month == 2 then (if IsLeapYear(year) then 29 else 28)
    else if month == 4 || month == 6 || month == 9 || month == 11 then 30
    else 31
  }

  predicate ValidDateTime(d: DateTime) {
    1 <= d.year <= 9999 && 1 <= d.month <= 12 && 1 <= d.day <= DaysInMonth(d.year, d.month) &&
    0 <= d.hour < 24 && 0 <= d.minute < 60 && 0 <= d.second < 60
  }

  /** `datetime.datetime(...)`: `ValueError` for any field out of range. */
  function MakeDateTime(year: int, month: int, day: int, hour: int, minute: int, second: int)
    : (r: Result<DateTime, Exception>)
    ensures r.Success? ==> ValidDateTime(r.value)
  {
    var d := DateTime(year, month, day, hour, minute, second);
    if ValidDateTime(d) then Success(d) else Failure(ValueError)
  }

  /** `datetime(year, ...)` from six registers: the year register counts
      from 2000. */
  function DateTimeConv(year: int, month: int, day: int, hour: int, minute: int, second: int)
    : (r: Result<DateTime, Exception>)
    ensures r.Success? ==> r.value.year == year + 2000 && r.value.month == month && r.value.day == day
    ensures r.Success? ==> r.value.hour == hour && r.value.minute == minute && r.value.second == second
    ensures r.Failure? <==> !ValidDateTime(DateTime(year + 2000, month, day, hour, minute, second))
  {
    MakeDateTime(year + 2000, month, day, hour, minute, second)
  }

  // ---------------------------------------------------------------------
  // Recipes

  /** The values a register definition can produce. */
  datatype Value =
    | NoneVal
    | IntVal(i: int)
    | BoolVal(b: bool)
    | StrVal(s: string)
    | ListVal(items: seq<int>)
    | SlotVal(slot: TimeSlot)
    | DateTimeVal(dt: DateTime)

  /** The converters a definition can name, and the enumerations used as
      post-conversions (members represented by their values). */
  datatype Converter =
    | ToUint16
    | ToInt16
    | ToDuint8
    | ToUint32
    | ToTimeSlot
    | ToBool
    | ToStr
    | ToFirmwareVersion
    | ToInverterMaxPower
    | ToDateTime
    | ToEnum(members: set<int>, unknown: int)

  /** A converter with the extra arguments of its tuple form (none for the
      plain form). */
  datatype ConvCall = ConvCall(conv: Converter, extra: seq<int>)

  /** `RegisterDefinition(pre_conv, post_conv, *registers, valid=...)`. */
  datatype RegisterDefinition = RegisterDefinition(
    preConv: Option<ConvCall>,
    postConv: Option<ConvCall>,
    registers: seq<Register>,
    valid: Option<(int, int)>)

  /** Python `bool` and `int` values are both integers; arithmetic on any
      other value is a `TypeError`. */
  function AsInt(v: Value): Result<int, Exception> {
    match v
    case IntVal(i) => Success(i)
    case BoolVal(b) => Success(if b then 1 else 0)
    case _ => Failure(TypeError)
  }

  function AsInts(vs: seq<Value>): (r: Result<seq<int>, Exception>)
    ensures r.Success? ==> |r.value| == |vs|
  {
    if vs == [] then Success([])
    else
      var first :- AsInt(vs[0]);
      var rest :- AsInts(vs[1..]);
      Success([first] + rest)
  }

  function IntVals(xs: seq<int>): (vs: seq<Value>)
    ensures |vs| == |xs| && forall i :: 0 <= i < |xs| ==> vs[i] == IntVal(xs[i])
  {
    if xs == [] then [] else [IntVal(xs[0])] + IntVals(xs[1..])
  }

  lemma {:induction false} AsIntsOfIntVals(xs: seq<int>)
    ensures AsInts(IntVals(xs)) == Success(xs)
  {
    if xs != [] {
      var vs := IntVals(xs);
      assert vs[1..] == IntVals(xs[1..]);
      AsIntsOfIntVals(xs[1..]);
      assert AsInt(vs[0]) == Success(xs[0]);
      assert [xs[0]] + xs[1..] == xs;
    }
  }

  /** `v.to_bytes(2, byteorder="big")` on one argument of `string`: an
      integer (a boolean included) must be a 16-bit word, or `to_bytes`
      raises `OverflowError`; no other value has a `to_bytes` attribute. */
  function WordOf(v: Value): (r: Result<int, Exception>)
    ensures r.Success? <==> v.BoolVal? || (v.IntVal? && 0 <= v.i < 0x1_0000)
    ensures r.Success? ==> r.value == AsInt(v).value
    ensures r.Failure? ==> r.error == (if v.IntVal? then OverflowError else AttributeError)
  {
    match v
    case IntVal(i) => if 0 <= i < 0x1_0000 then Success(i) else Failure(OverflowError)
    case BoolVal(b) => Success(if b then 1 else 0)
    case _ => Failure(AttributeError)
  }

  /** The arguments of `string` turned into words one after the other:
      all of them succeed, or the first that fails decides the
      exception. */
  function WordsOf(vs: seq<Value>): (r: Result<seq<int>, Exception>)
    ensures r.Success? <==> forall i :: 0 <= i < |vs| ==> WordOf(vs[i]).Success?
    ensures r.Success? ==>
              |r.value| == |vs| && forall i :: 0 <= i < |vs| ==> r.value[i] == WordOf(vs[i]).value
    ensures r.Failure? ==>
              exists i :: 0 <= i < |vs| && WordOf(vs[i]) == Failure(r.error) &&
                          forall j :: 0 <= j < i ==> WordOf(vs[j]).Success?
  {
    if vs == [] then Success([])
    else
      match WordOf(vs[0])
      case Failure(e) => Failure(e)
      case Success(w) =>
        match WordsOf(vs[1..])
        case Failure(e) =>
          assert exists i :: 1 <= i < |vs| && WordOf(vs[i]) == Failure(e) &&
                             forall j :: 0 <= j < i ==> WordOf(vs[j]).Success? by {
            var k :| 0 <= k < |vs| - 1 && WordOf(vs[1..][k]) == Failure(e) &&
                     forall j :: 0 <= j < k ==> WordOf(vs[1..][j]).Success?;
            assert forall j :: 1 <= j < k + 1 ==> vs[j] == vs[1..][j - 1];
          }
          Failure(e)
        case Success(rest) => Success([w] + rest)
  }

  /** Integer registers convert to words exactly when every one fits in 16
      bits; otherwise the first that does not raises `OverflowError`. */
  lemma WordsOfIntVals(xs: seq<int>)
    ensures WordsOf(IntVals(xs))
            == if forall i :: 0 <= i < |xs| ==> 0 <= xs[i] < 0x1_0000 then Success(xs)
               else Failure(OverflowError)
  {
    var vs := IntVals(xs);
    var r := WordsOf(vs);
    forall i | 0 <= i < |xs|
      ensures WordOf(vs[i]) == if 0 <= xs[i] < 0x1_0000 then Success(xs[i]) else Failure(OverflowError)
    {
    }
    if r.Success? {
      assert r.value == xs;
    } else {
      var k :| 0 <= k < |vs| && WordOf(vs[k]) == Failure(r.error);
      assert r.error == OverflowError;
    }
  }

  /** `string(*vals)` once no value is `None`: each value's two bytes in
      turn, then the text those bytes spell. */
  function StringOf(args: seq<Value>): Result<Value, Exception> {
    var words :- WordsOf(args);
    var s :- StringConv(words);
    Success(StrVal(s))
  }

  /** Python truthiness. */
  predicate Truthy(v: Value) {
    match v
    case NoneVal => false
    case IntVal(i) => i != 0
    case BoolVal(b) => b
    case StrVal(s) => s != []
    case ListVal(items) => items != []
    case SlotVal(_) => true
    case DateTimeVal(_) => true
  }

  /** What an f-string shows for a value: `str(v)`. A list shows its
      items, a time slot its dataclass representation and a date and
      time its ISO form with a space between date and time. */
  function Display(v: Value): string {
    match v
    case NoneVal => "None"
    case IntVal(i) => IntToString(i)
    case BoolVal(b) => if b then "True" else "False"
    case StrVal(s) => s
    case ListVal(items) => "[" + JoinInts(items) + "]"
    case SlotVal(slot) => "TimeSlot(start=" + TimeRepr(slot.start) + ", end=" + TimeRepr(slot.end) + ")"
    case DateTimeVal(dt) =>
      PadInt(dt.year, 4) + "-" + PadInt(dt.month, 2) + "-" + PadInt(dt.day, 2) + " " +
      PadInt(dt.hour, 2) + ":" + PadInt(dt.minute, 2) + ":" + PadInt(dt.second, 2)
  }

  /** The items of a list, separated by a comma and a space. */
  function JoinInts(xs: seq<int>): string {
    if xs == [] then ""
    else if |xs| == 1 then IntToString(xs[0])
    else IntToString(xs[0]) + ", " + JoinInts(xs[1..])
  }

  /** `repr` of a `datetime.time` whose seconds are zero. */
  function TimeRepr(t: Time): string {
    "datetime.time(" + IntToString(t.hour) + ", " + IntToString(t.minute) + ")"
  }

  /** A `from_repr` argument: integers (booleans included) or strings.
      Anything else cannot be sliced into an integer: `TypeError`. */
  function AsRepr(v: Value): Result<Repr, Exception> {
    match v
    case IntVal(i) => Success(IntRepr(i))
    case BoolVal(b) => Success(IntRepr(if b then 1 else 0))
    case StrVal(s) => Success(StrRepr(s))
    case _ => Failure(TypeError)
  }

  /** A representation as the value that holds it. */
  function ReprValue(r: Repr): Value {
    match r
    case IntRepr(n) => IntVal(n)
    case StrRepr(s) => StrVal(s)
  }

  /** The index `duint8` reads from its extra arguments: only the first is
      used, and an empty tuple has none (`IndexError`). */
  function FirstIndex(extra: seq<Value>): Result<seq<int>, Exception> {
    if extra == [] then Success([])
    else
      var i :- AsInt(extra[0]);
      Success([i])
  }

  /** The number of arguments a fixed-arity converter takes. */
  function Arity(conv: Converter): nat {
    match conv
    case ToUint32 => 2
    case ToTimeSlot => 2
    case ToFirmwareVersion => 2
    case ToDateTime => 6
    case _ => 1
  }

  /** Calling a converter (or enumeration) on positional arguments. A wrong
      number of arguments is a `TypeError`; a `None` argument makes every
      converter return `None`; an enumeration maps a value that is not a
      member to `UNKNOWN`. */
  function Apply(conv: Converter, args: seq<Value>): (r: Result<Value, Exception>)
    ensures conv.ToEnum? ==> (r.Success? <==> |args| == 1)
    ensures conv.ToEnum? && r.Success? ==> r.value.IntVal? && (r.value.i in conv.members || r.value.i == conv.unknown)
    ensures !conv.ToEnum? && !conv.ToStr? && !conv.ToDuint8? && |args| != Arity(conv) ==> r == Failure(TypeError)
    ensures (conv.ToStr? || (!conv.ToEnum? && !conv.ToDuint8? && |args| == Arity(conv))) && NoneVal in args ==>
              r == Success(NoneVal)
    ensures conv.ToDuint8? ==> (|args| == 0 ==> r == Failure(TypeError)) && (|args| > 0 && args[0] == NoneVal ==> r == Success(NoneVal))
    ensures conv.ToDuint8? && |args| == 1 && args[0] != NoneVal ==> r.Failure?
    ensures conv.ToStr? && r.Success? ==> r.value.NoneVal? || r.value.StrVal?
  {
    match conv
    case ToEnum(members, unknown) =>
      if |args| != 1 then Failure(TypeError)
      else
        (match AsInt(args[0])
         case Success(v) => Success(IntVal(EnumLookup(members, unknown, v)))
         case Failure(_) => Success(IntVal(unknown)))
    case ToStr => if NoneVal in args then Success(NoneVal) else StringOf(args)
    case ToDuint8 =>
      if |args| == 0 then Failure(TypeError)
      else if args[0] == NoneVal then Success(NoneVal)
      else
        var v :- AsInt(args[0]);
        var idx :- FirstIndex(args[1..]);
        var half :- Duint8(v, idx);
        Success(IntVal(half))
    case _ =>
      if |args| != Arity(conv) then Failure(TypeError)
      else if NoneVal in args then Success(NoneVal)
      else ApplyFixed(conv, args)
  }

  function ApplyFixed(conv: Converter, args: seq<Value>): (r: Result<Value, Exception>)
    requires !conv.ToEnum? && !conv.ToStr? && !conv.ToDuint8? && |args| == Arity(conv)
    ensures r.Success? && (conv.ToUint16? || conv.ToInt16? || conv.ToUint32?) ==> r.value.IntVal?
    ensures conv.ToBool? ==> r.Success? && r.value.BoolVal?
    ensures conv.ToFirmwareVersion? ==> r.Success? && r.value.StrVal?
    ensures conv.ToInverterMaxPower? && r.Success? ==> r.value.NoneVal? || (r.value.IntVal? && 3000 <= r.value.i <= 11000)
    ensures conv.ToTimeSlot? && r.Success? ==> r.value.SlotVal? && ValidTime(r.value.slot.start) && ValidTime(r.value.slot.end)
    ensures conv.ToDateTime? && r.Success? ==> r.value.DateTimeVal? && ValidDateTime(r.value.dt)
  {
    match conv
    case ToUint16 =>
      if args[0].StrVal? then
        (match ParseInt(args[0].s) case Some(v) => Success(IntVal(v)) case None => Failure(ValueError))
      else
        var v :- AsInt(args[0]);
        Success(IntVal(v))
    case ToInt16 => var v :- AsInt(args[0]); Success(IntVal(Int16(v)))
    case ToBool => Success(BoolVal(Truthy(args[0])))
    case ToInverterMaxPower =>
      (match args[0]
       case StrVal(s) => (match InverterMaxPower(s) case Some(p) => Success(IntVal(p)) case None => Success(NoneVal))
       case ListVal(_) => Failure(TypeError)
       case SlotVal(_) => Failure(TypeError)
       case _ => Success(NoneVal))
    case ToUint32 =>
      var high :- AsInt(args[0]);
      var low :- AsInt(args[1]);
      Success(IntVal(Uint32(high, low)))
    case ToTimeSlot => TimeSlotOf(args[0], args[1])
    case ToFirmwareVersion => Success(StrVal(FirmwareVersion(args[0], args[1])))
    case ToDateTime => DateTimeOf(args)
  }

  /** `datetime(...)` on six arguments, each read as an integer. */
  function DateTimeOf(args: seq<Value>): (r: Result<Value, Exception>)
    requires |args| == 6
    ensures r.Success? ==> r.value.DateTimeVal? && ValidDateTime(r.value.dt)
  {
    var f :- AsInts(args);
    var dt :- DateTimeConv(f[0], f[1], f[2], f[3], f[4], f[5]);
    Success(DateTimeVal(dt))
  }

  /** `timeslot(start, end)` once neither is `None`: the start is read
      before the end is looked at, and the two times are made last. */
  function TimeSlotOf(a: Value, b: Value): (r: Result<Value, Exception>)
    ensures r.Success? ==> r.value.SlotVal? && ValidTime(r.value.slot.start) && ValidTime(r.value.slot.end)
  {
    var start :- AsRepr(a);
    var s :- SplitRepr(start);
    var end :- AsRepr(b);
    var e :- SplitRepr(end);
    var slot :- FromComponents(s.0, s.1, e.0, e.1);
    Success(SlotVal(slot))
  }

  /** A converter of fixed arity given that many arguments, none of them
      `None`, is its fixed-arity body. */
  lemma ApplyFixedArity(conv: Converter, args: seq<Value>)
    requires !conv.ToEnum? && !conv.ToStr? && !conv.ToDuint8? && |args| == Arity(conv) && NoneVal !in args
    ensures Apply(conv, args) == ApplyFixed(conv, args)
  {
  }

  /** The time-slot converter on two integers or strings is `from_repr`:
      the start is read before the end, and the two times are made last. */
  lemma TimeSlotConv(start: Repr, end: Repr)
    ensures Apply(ToTimeSlot, [ReprValue(start), ReprValue(end)])
            == match FromRepr(start, end) case Success(t) => Success(SlotVal(t)) case Failure(e) => Failure(e)
  {
    var args := [ReprValue(start), ReprValue(end)];
    assert NoneVal !in args by {
      assert args[0] != NoneVal && args[1] != NoneVal;
    }
    ApplyFixedArity(ToTimeSlot, args);
    TimeSlotOfReprs(start, end);
  }

  lemma TimeSlotOfReprs(start: Repr, end: Repr)
    ensures TimeSlotOf(ReprValue(start), ReprValue(end))
            == match FromRepr(start, end) case Success(t) => Success(SlotVal(t)) case Failure(e) => Failure(e)
  {
    assert AsRepr(ReprValue(start)) == Success(start);
    assert AsRepr(ReprValue(end)) == Success(end);
    var s := SplitRepr(start);
    if s.Success? {
      var e := SplitRepr(end);
      if e.Success? {
        assert FromRepr(start, end) == FromComponents(s.value.0, s.value.1, e.value.0, e.value.1);
      }
    }
  }

  /** The string converter converts its arguments in order: a value that
      does not fit 16 bits ahead of a text raises `OverflowError`, a text
      ahead of it `AttributeError`. */
  lemma StringArgumentOrder()
    ensures Apply(ToStr, [IntVal(70000), StrVal("x")]) == Failure(OverflowError)
    ensures Apply(ToStr, [StrVal("x"), IntVal(70000)]) == Failure(AttributeError)
  {
    assert [IntVal(70000), StrVal("x")][1..] == [StrVal("x")];
    assert [StrVal("x"), IntVal(70000)][1..] == [IntVal(70000)];
  }

  /** The recipe of `RegisterGetter.get` once the register values are read:
      no pre-conversion leaves the list of values; a pre-conversion is
      called on the values followed by its extra arguments; a
      post-conversion is called on that result followed by its extra
      arguments. */
  function Recipe(def: RegisterDefinition, regs: seq<int>): (r: Result<Value, Exception>)
    ensures def.preConv.None? && def.postConv.None? ==> r == Success(ListVal(regs))
    ensures def.preConv.Some? && Apply(def.preConv.value.conv, IntVals(regs + def.preConv.value.extra)).Failure? ==>
              r == Apply(def.preConv.value.conv, IntVals(regs + def.preConv.value.extra))
    ensures def.postConv.None? && def.preConv.Some? ==> r == Apply(def.preConv.value.conv, IntVals(regs + def.preConv.value.extra))
    ensures def.postConv.Some? && def.preConv.None? ==> r == Apply(def.postConv.value.conv, [ListVal(regs)] + IntVals(def.postConv.value.extra))
    ensures def.preConv.Some? && def.postConv.Some? &&
            Apply(def.preConv.value.conv, IntVals(regs + def.preConv.value.extra)).Success? ==>
              r == Apply(def.postConv.value.conv,
                         [Apply(def.preConv.value.conv, IntVals(regs + def.preConv.value.extra)).value] +
                         IntVals(def.postConv.value.extra))
  {
    var val :-
      match def.preConv
      case None => Success(ListVal(regs))
      case Some(pre) => Apply(pre.conv, IntVals(regs + pre.extra));
    match def.postConv
    case None => Success(val)
    case Some(post) => Apply(post.conv, [val] + IntVals(post.extra))
  }

  /** Two registers joined by the plain `uint32` pre-conversion. */
  lemma RecipeUint32(h: int, l: int)
    ensures Recipe(RegisterDefinition(Some(ConvCall(ToUint32, [])), None, [], None), [h, l])
            == Success(IntVal(Uint32(h, l)))
  {
    assert IntVals([h, l] + []) == [IntVal(h), IntVal(l)];
  }

  /** A pre-conversion in tuple form gets its extra argument after the
      register: `(duint8, 1)` is the low byte. */
  lemma RecipeDuint8(v: int)
    ensures Recipe(RegisterDefinition(Some(ConvCall(ToDuint8, [1])), None, [], None), [v])
            == Success(IntVal(v % 256))
  {
    assert IntVals([v] + [1]) == [IntVal(v), IntVal(1)];
    assert [IntVal(v), IntVal(1)][1..] == [IntVal(1)];
  }

  /** The post-conversion is applied to the pre-conversion's result. */
  lemma RecipeBool(v: int)
    ensures Recipe(RegisterDefinition(Some(ConvCall(ToUint16, [])), Some(ConvCall(ToBool, [])), [], None), [v])
            == Success(BoolVal(v != 0))
  {
    assert IntVals([v] + []) == [IntVal(v)];
    assert IntVals([]) == [];
  }

  /** The string recipe is `Converter.string` on the register values. */
  lemma RecipeStringArgs(regs: seq<int>)
    ensures Recipe(RegisterDefinition(Some(ConvCall(ToStr, [])), None, [], None), regs) == StringOf(IntVals(regs))
  {
    var args := IntVals(regs);
    assert regs + [] == regs;
    assert NoneVal !in args;
  }

  /** ... which is the string conversion of the registers. */
  lemma RecipeString(regs: seq<int>)
    ensures Recipe(RegisterDefinition(Some(ConvCall(ToStr, [])), None, [], None), regs)
            == (match StringConv(regs) case Success(s) => Success(StrVal(s)) case Failure(e) => Failure(e))
  {
    RecipeStringArgs(regs);
    WordsOfIntVals(regs);
  }

}
