/** The client's command layer: ordered lists of requests that carry out
    one high-level command. Nothing is sent here.

    A write is requested by register name (`write_named_register`); the
    name is turned into a register index by the inverter model's lookup,
    which is not part of this model and appears as the `lookup` parameter
    of `Resolve`. Whether a name is a register of the inverter model
    (`Inverter.REGISTER_LUT`) is the `inLut` parameter. */
module Commands {
  import opened Wrappers
  import opened Exceptions
  import opened Model
  import Registers
  import T = Transparent

  /** One prepared request. */
  datatype Request =
    | ReadInputRegisters(base: int, count: int, slave: int)
    | ReadHoldingRegisters(base: int, count: int, slave: int)
    | WriteNamed(name: string, value: int)

  // ---------------------------------------------------------------------
  // From requests to messages

  /** `write_named_register`: the lookup checks the name and the value and
      gives the register index; the request is a write of that one
      register. */
  function WriteNamedRegister(name: string, value: int, lookup: (string, int) -> Result<int, Exception>)
    : (r: Result<T.Message, Exception>)
    ensures lookup(name, value).Failure? ==> r == Failure(lookup(name, value).error)
    ensures lookup(name, value).Success? && 0 <= lookup(name, value).value <= 0xFFFF ==>
              r.Success? && r.value.kind == T.WriteHoldingRequest &&
              r.value.base == lookup(name, value).value && r.value.values == [value] && r.value.count == 1
  {
    var idx :- lookup(name, value);
    T.WriteRequestAliases(idx, value, T.NoKwargs);
    T.Construct(T.WriteHoldingRequest, T.NoKwargs.(register := Some(idx), value := Some(value)))
  }

  function ReadKwargs(base: int, count: int, slave: int): T.Kwargs {
    T.NoKwargs.(base := Some(base), count := Some(count), slave := Some(slave))
  }

  /** The message a request stands for. */
  function ToMessage(req: Request, lookup: (string, int) -> Result<int, Exception>): Result<T.Message, Exception> {
    match req
    case ReadInputRegisters(base, count, slave) => T.Construct(T.ReadInputRequest, ReadKwargs(base, count, slave))
    case ReadHoldingRegisters(base, count, slave) => T.Construct(T.ReadHoldingRequest, ReadKwargs(base, count, slave))
    case WriteNamed(name, value) => WriteNamedRegister(name, value, lookup)
  }

  /** Building a command's requests in order; the first failure is the
      command's failure. */
  function Resolve(reqs: seq<Request>, lookup: (string, int) -> Result<int, Exception>)
    : (r: Result<seq<T.Message>, Exception>)
    ensures r.Success? <==> forall i :: 0 <= i < |reqs| ==> ToMessage(reqs[i], lookup).Success?
    ensures r.Success? ==>
              |r.value| == |reqs| &&
              forall i :: 0 <= i < |reqs| ==> r.value[i] == ToMessage(reqs[i], lookup).value
    ensures r.Failure? ==>
              exists i :: 0 <= i < |reqs| && ToMessage(reqs[i], lookup) == Failure(r.error) &&
                          forall j :: 0 <= j < i ==> ToMessage(reqs[j], lookup).Success?
  {
    if |reqs| == 0 then Success([])
    else
      match ToMessage(reqs[0], lookup)
      case Failure(e) => Failure(e)
      case Success(first) =>
        assert forall i :: 1 <= i < |reqs| ==> reqs[i] == reqs[1..][i - 1];
        match Resolve(reqs[1..], lookup)
        case Failure(e) => Failure(e)
        case Success(rest) => Success([first] + rest)
  }

  // ---------------------------------------------------------------------
  // Name-based dispatch

  predicate StartsWith(s: string, prefix: string) {
    |prefix| <= |s| && s[..|prefix|] == prefix
  }

  /** Python's `sub in s`. */
  predicate Occurs(s: string, sub: string)
    decreases |s|
  {
    StartsWith(s, sub) || (|s| > 0 && Occurs(s[1..], sub))
  }

  lemma {:induction false} OccursAt(s: string, sub: string, k: nat)
    requires k + |sub| <= |s| && s[k..k + |sub|] == sub
    ensures Occurs(s, sub)
    decreases k
  {
    if k > 0 {
      assert s[1..][k - 1..k - 1 + |sub|] == s[k..k + |sub|];
      OccursAt(s[1..], sub, k - 1);
    }
  }

  lemma {:induction false} OccursInSuffix(p: string, x: string, sub: string)
    requires Occurs(x, sub)
    ensures Occurs(p + x, sub)
    decreases |p|
  {
    if |p| > 0 {
      assert (p + x)[1..] == p[1..] + x;
      OccursInSuffix(p[1..], x, sub);
    } else {
      assert p + x == x;
    }
  }

  /** A command fabricated by `__getattr__`. */
  datatype Command = ResetSlot(target: string) | SetRegister(target: string)

  /** `__getattr__`: `reset_X` with `_slot` in the name and `X` a register
      name resets slot `X`; `set_X` with `X` a register name sets `X`;
      anything else is an `AttributeError`. */
  function Dispatch(name: string, inLut: string -> bool): (r: Result<Command, Exception>)
    ensures r.Success? && r.value.ResetSlot? ==> name == "reset_" + r.value.target && inLut(r.value.target)
    ensures r.Success? && r.value.SetRegister? ==> name == "set_" + r.value.target && inLut(r.value.target)
    ensures r.Failure? ==> r.error == AttributeError
  {
    if StartsWith(name, "reset_") && Occurs(name, "_slot") then
      if inLut(name[6..]) then Success(ResetSlot(name[6..])) else Failure(AttributeError)
    else if StartsWith(name, "set_") && inLut(name[4..]) then Success(SetRegister(name[4..]))
    else Failure(AttributeError)
  }

  /** Every register name has its setter. */
  lemma DispatchSet(x: string, inLut: string -> bool)
    ensures Dispatch("set_" + x, inLut) == if inLut(x) then Success(SetRegister(x)) else Failure(AttributeError)
  {
    var name := "set_" + x;
    assert name[..4] == "set_" && name[4..] == x;
    assert name[0] == 's';
  }

  /** Every register name containing `_slot` has its reset; a name without
      it has none, unless `_slot` straddles the prefix. */
  lemma DispatchReset(x: string, inLut: string -> bool)
    requires Occurs(x, "_slot")
    ensures Dispatch("reset_" + x, inLut) == if inLut(x) then Success(ResetSlot(x)) else Failure(AttributeError)
  {
    var name := "reset_" + x;
    assert name[..6] == "reset_" && name[6..] == x;
    OccursInSuffix("reset_", x, "_slot");
  }

  // ---------------------------------------------------------------------
  // Setters

  /** The argument a fabricated command is called with. */
  datatype Value = IntValue(n: int) | SlotValue(slot: TimeSlot)
  datatype Arg = NoArg | Given(v: Value)

  /** `_set_timeslot`: the start then the end register of the slot, each
      as `100 * hour + minute`; no slot writes two zeros. */
  function SetTimeslot(name: string, value: Option<TimeSlot>): (r: seq<Request>)
    ensures |r| == 2 && r[0].WriteNamed? && r[1].WriteNamed?
    ensures r[0].name == name + "_start" && r[1].name == name + "_end"
    ensures value.None? ==> r[0].value == 0 && r[1].value == 0
    ensures value.Some? ==>
              r[0].value == 100 * value.value.start.hour + value.value.start.minute &&
              r[1].value == 100 * value.value.end.hour + value.value.end.minute
  {
    var (start, end) :=
      match value
      case None => (0, 0)
      case Some(s) => (100 * s.start.hour + s.start.minute, 100 * s.end.hour + s.end.minute);
    [WriteNamed(name + "_start", start), WriteNamed(name + "_end", end)]
  }

  /** The two values a slot is written as read back, with `from_repr`, as
      the slot itself. */
  lemma TimeslotRoundTrip(name: string, slot: TimeSlot)
    requires ValidTime(slot.start) && ValidTime(slot.end)
    ensures var r := SetTimeslot(name, Some(slot));
            FromRepr(IntRepr(r[0].value), IntRepr(r[1].value)) == Success(slot)
  {
    var r := SetTimeslot(name, Some(slot));
    SlotOfEncoded(slot, r[0].value, r[1].value);
  }

  /** A valid slot's encoded start and end read back as the slot. */
  lemma SlotOfEncoded(slot: TimeSlot, start: int, end: int)
    requires ValidTime(slot.start) && ValidTime(slot.end)
    requires start == 100 * slot.start.hour + slot.start.minute && end == 100 * slot.end.hour + slot.end.minute
    ensures FromRepr(IntRepr(start), IntRepr(end)) == Success(slot)
  {
    var h1, m1, h2, m2 := slot.start.hour, slot.start.minute, slot.end.hour, slot.end.minute;
    assert IntRepr(start) == IntRepr(100 * h1 + m1) && IntRepr(end) == IntRepr(100 * h2 + m2);
    FromReprOfEncoded(h1, m1, h2, m2);
    assert FromComponents(h1, m1, h2, m2) == Success(slot);
  }

  /** A reset slot reads back as midnight to midnight, which contains no
      time. */
  lemma ResetSlotRoundTrip(name: string)
    ensures var r := SetTimeslot(name, None);
            FromRepr(IntRepr(r[0].value), IntRepr(r[1].value)) == Success(TimeSlot(Time(0, 0), Time(0, 0)))
  {
    FromReprOfEncoded(0, 0, 0, 0);
  }

  /** `_set_helper`: a slot goes to `_set_timeslot`, anything else is one
      write of its integer value. */
  function SetHelper(name: string, value: Value): (r: seq<Request>)
    ensures value.IntValue? ==> r == [WriteNamed(name, value.n)]
    ensures value.SlotValue? ==> r == SetTimeslot(name, Some(value.slot))
  {
    match value
    case SlotValue(slot) => SetTimeslot(name, Some(slot))
    case IntValue(n) => [WriteNamed(name, n)]
  }

  /** Looking up a fabricated command and calling it: a reset takes no
      argument, a setter exactly one; a wrong number of arguments is a
      `TypeError`. */
  function Invoke(name: string, arg: Arg, inLut: string -> bool): (r: Result<seq<Request>, Exception>)
    ensures Dispatch(name, inLut).Failure? ==> r == Failure(AttributeError)
    ensures Dispatch(name, inLut).Success? ==> (r.Success? <==> (arg.NoArg? <==> Dispatch(name, inLut).value.ResetSlot?))
    ensures r.Failure? ==> r.error == AttributeError || r.error == TypeError
    ensures r.Success? ==> |r.value| == if arg.Given? && arg.v.IntValue? then 1 else 2
  {
    var cmd :- Dispatch(name, inLut);
    match cmd
    case ResetSlot(x) => if arg.NoArg? then Success(SetTimeslot(x, None)) else Failure(TypeError)
    case SetRegister(x) => if arg.Given? then Success(SetHelper(x, arg.v)) else Failure(TypeError)
  }

  /** `self.set_X(v)`: for a register name `X` it writes `X`. */
  function Setter(x: string, v: Value, inLut: string -> bool): (r: Result<seq<Request>, Exception>)
    ensures r == if inLut(x) then Success(SetHelper(x, v)) else Failure(AttributeError)
  {
    DispatchSet(x, inLut);
    Invoke("set_" + x, Given(v), inLut)
  }

  /** `self.reset_X()`: for a slot name `X` it writes two zeros to it. */
  function Reset(x: string, inLut: string -> bool): (r: Result<seq<Request>, Exception>)
    ensures Occurs(x, "_slot") ==> r == if inLut(x) then Success(SetTimeslot(x, None)) else Failure(AttributeError)
  {
    if Occurs(x, "_slot") then
      DispatchReset(x, inLut);
      Invoke("reset_" + x, NoArg, inLut)
    else Invoke("reset_" + x, NoArg, inLut)
  }

  // ---------------------------------------------------------------------
  // Refreshing the plant

  const InverterAddress: int := 0x32
  const RefreshCount: int := 60

  /** The reads a refresh is made of: 60 registers from a base that is a
      multiple of 60. */
  predicate IsRefreshRead(req: Request) {
    (req.ReadInputRegisters? || req.ReadHoldingRegisters?) &&
    req.count == RefreshCount && req.base in {0, 60, 120, 180}
  }

  /** The battery block of input registers 60 to 119 from each of the
      first `n` battery addresses, in address order. */
  function BatteryReads(n: nat): (r: seq<Request>)
    ensures |r| == n
    ensures forall i :: 0 <= i < n ==> r[i] == ReadInputRegisters(60, 60, InverterAddress + i)
  {
    seq(n, i => ReadInputRegisters(60, 60, InverterAddress + i))
  }

  /** `refresh_plant_data`: the inverter's input registers 0 and 180, on a
      complete refresh also its holding registers 0, 60, 120 and input
      registers 120 for the maximum number of batteries, then the battery
      block from each battery address in turn. */
  method RefreshPlantData(complete: bool, numberBatteries: int, maxBatteries: int) returns (requests: seq<Request>)
    ensures var n := if complete then maxBatteries else numberBatteries;
            var head := if complete then 6 else 2;
            |requests| == head + (if n < 0 then 0 else n) &&
            requests[head..] == BatteryReads(if n < 0 then 0 else n)
    ensures requests[..2] == [ReadInputRegisters(0, 60, InverterAddress), ReadInputRegisters(180, 60, InverterAddress)]
    ensures complete ==>
              requests[2..6] == [ReadHoldingRegisters(0, 60, InverterAddress), ReadHoldingRegisters(60, 60, InverterAddress),
                                 ReadHoldingRegisters(120, 60, InverterAddress), ReadInputRegisters(120, 60, InverterAddress)]
    ensures forall req :: req in requests ==> IsRefreshRead(req)
  {
    requests := [ReadInputRegisters(0, 60, InverterAddress), ReadInputRegisters(180, 60, InverterAddress)];
    var n := numberBatteries;
    if complete {
      requests := requests + [ReadHoldingRegisters(0, 60, InverterAddress)];
      requests := requests + [ReadHoldingRegisters(60, 60, InverterAddress)];
      requests := requests + [ReadHoldingRegisters(120, 60, InverterAddress)];
      requests := requests + [ReadInputRegisters(120, 60, InverterAddress)];
      n := maxBatteries;
    }
    ghost var head := requests;
    var batteries := if n < 0 then 0 else n;
    for i := 0 to batteries
      invariant requests == head + BatteryReads(i)
      invariant forall req :: req in requests ==> IsRefreshRead(req)
    {
      assert BatteryReads(i + 1) == BatteryReads(i) + [ReadInputRegisters(60, 60, InverterAddress + i)];
      requests := requests + [ReadInputRegisters(60, 60, InverterAddress + i)];
    }
    assert requests[|head|..] == BatteryReads(batteries);
  }

  /** The default arguments of `refresh_plant_data`. */
  const DefaultNumberBatteries: int := 1
  const DefaultMaxBatteries: int := 5

  /** `refresh_plant_data(complete)` with its default arguments: one battery
      read, or five on a complete refresh, so no battery address beyond
      0x36 is ever read. */
  method RefreshPlantDataDefault(complete: bool) returns (requests: seq<Request>)
    ensures |requests| == if complete then 11 else 3
    ensures var head := if complete then 6 else 2;
            forall i :: head <= i < |requests| ==>
              requests[i] == ReadInputRegisters(60, 60, InverterAddress + i - head)
    ensures forall req :: req in requests ==>
              IsRefreshRead(req) && InverterAddress <= req.slave < InverterAddress + DefaultMaxBatteries
  {
    requests := RefreshPlantData(complete, DefaultNumberBatteries, DefaultMaxBatteries);
    var head := if complete then 6 else 2;
    assert forall i :: head <= i < |requests| ==> requests[i] == requests[head..][i - head];
  }

  /** Every refresh read is a well-formed read request for its base, its 60
      registers and its address. */
  lemma RefreshReadResolves(req: Request, lookup: (string, int) -> Result<int, Exception>)
    requires IsRefreshRead(req)
    ensures ToMessage(req, lookup).Success?
    ensures var m := ToMessage(req, lookup).value;
            T.Valid(m) && m.base == req.base && m.count == 60 && m.slave == req.slave &&
            m.kind == (if req.ReadInputRegisters? then T.ReadInputRequest else T.ReadHoldingRequest)
  {
    var kind := if req.ReadInputRegisters? then T.ReadInputRequest else T.ReadHoldingRequest;
    T.ConstructValid(kind, ReadKwargs(req.base, req.count, req.slave));
  }

  // ---------------------------------------------------------------------
  // Fixed commands

  /** `disable_charge_target`: the charge target switched off (`False`),
      then the target set to 100%. */
  function DisableChargeTarget(): (r: seq<Request>)
    ensures |r| == 2
    ensures r[0] == WriteNamed("enable_charge_target", 0) && r[1] == WriteNamed("charge_target_soc", 100)
  {
    [WriteNamed("enable_charge_target", 0), WriteNamed("charge_target_soc", 100)]
  }

  /** `set_inverter_reboot`: 100 written to the reboot register. */
  function SetInverterReboot(): (r: seq<Request>)
    ensures r == [WriteNamed("inverter_reboot", 100)]
  {
    [WriteNamed("inverter_reboot", 100)]
  }

  /** `set_calibrate_battery_soc`: 1 written to the SOC adjustment register. */
  function SetCalibrateBatterySoc(): (r: seq<Request>)
    ensures r == [WriteNamed("soc_force_adjust", 1)]
  {
    [WriteNamed("soc_force_adjust", 1)]
  }

  /** `set_discharge_mode_max_power`: battery power mode 0. */
  function SetDischargeModeMaxPower(): (r: seq<Request>)
    ensures r == [WriteNamed("battery_power_mode", 0)]
  {
    [WriteNamed("battery_power_mode", 0)]
  }

  /** `set_discharge_mode_to_match_demand`: battery power mode 1. */
  function SetDischargeModeToMatchDemand(): (r: seq<Request>)
    ensures r == [WriteNamed("battery_power_mode", 1)]
  {
    [WriteNamed("battery_power_mode", 1)]
  }

  /** The two discharge modes write the same single register and differ
      only in its value. */
  lemma DischargeModesDiffer()
    ensures |SetDischargeModeMaxPower()| == |SetDischargeModeToMatchDemand()| == 1
    ensures SetDischargeModeMaxPower()[0].name == SetDischargeModeToMatchDemand()[0].name
    ensures SetDischargeModeMaxPower()[0].value != SetDischargeModeToMatchDemand()[0].value
  {
  }

  /** `set_charge_target`: charging on, then either no charge target (for
      100%) or the target switched on and set. */
  method SetChargeTarget(targetSoc: int, inLut: string -> bool) returns (r: Result<seq<Request>, Exception>)
    ensures !inLut("enable_charge") ==> r == Failure(AttributeError)
    ensures inLut("enable_charge") ==>
              (r.Success? && |r.value| == 3 &&
               r.value[0] == WriteNamed("enable_charge", 1) &&
               r.value[1] == WriteNamed("enable_charge_target", if targetSoc == 100 then 0 else 1) &&
               r.value[2] == WriteNamed("charge_target_soc", targetSoc))
  {
    var ret :- Setter("enable_charge", IntValue(1), inLut);
    if targetSoc == 100 {
      ret := ret + DisableChargeTarget();
    } else {
      ret := ret + [WriteNamed("enable_charge_target", 1)];
      ret := ret + [WriteNamed("charge_target_soc", targetSoc)];
    }
    return Success(ret);
  }

  /** The registers `set_system_date_time` writes, in order. */
  const SystemTimeNames: seq<string> :=
    ["system_time_year", "system_time_month", "system_time_day",
     "system_time_hour", "system_time_minute", "system_time_second"]

  /** `set_system_date_time`: year (from 2000), month, day, hour, minute,
      second, in that order. */
  function SetSystemDateTime(dt: Registers.DateTime): (r: seq<Request>)
    ensures |r| == 6
    ensures forall i :: 0 <= i < 6 ==> r[i].WriteNamed? && r[i].name == SystemTimeNames[i]
    ensures r[0].value == dt.year - 2000 && r[1].value == dt.month && r[2].value == dt.day
    ensures r[3].value == dt.hour && r[4].value == dt.minute && r[5].value == dt.second
  {
    [WriteNamed("system_time_year", dt.year - 2000),
     WriteNamed("system_time_month", dt.month),
     WriteNamed("system_time_day", dt.day),
     WriteNamed("system_time_hour", dt.hour),
     WriteNamed("system_time_minute", dt.minute),
     WriteNamed("system_time_second", dt.second)]
  }

  /** The six values written read back, through the `datetime` converter,
      as the date and time itself. */
  lemma SystemDateTimeRoundTrip(dt: Registers.DateTime)
    requires Registers.ValidDateTime(dt)
    ensures var r := SetSystemDateTime(dt);
            Registers.DateTimeConv(r[0].value, r[1].value, r[2].value, r[3].value, r[4].value, r[5].value)
            == Success(dt)
  {
  }

  /** `set_mode_dynamic`: discharge to match demand, a 4% reserve, and
      discharging off. */
  function SetModeDynamic(inLut: string -> bool): (r: Result<seq<Request>, Exception>)
    ensures inLut("battery_soc_reserve") && inLut("enable_discharge") ==>
              r == Success([WriteNamed("battery_power_mode", 1),
                            WriteNamed("battery_soc_reserve", 4),
                            WriteNamed("enable_discharge", 0)])
    ensures !(inLut("battery_soc_reserve") && inLut("enable_discharge")) ==> r == Failure(AttributeError)
  {
    var reserve :- Setter("battery_soc_reserve", IntValue(4), inLut);
    var discharge :- Setter("enable_discharge", IntValue(0), inLut);
    assert SetDischargeModeToMatchDemand() + reserve + discharge
        == [WriteNamed("battery_power_mode", 1), WriteNamed("battery_soc_reserve", 4), WriteNamed("enable_discharge", 0)];
    Success(SetDischargeModeToMatchDemand() + reserve + discharge)
  }

  /** The default first discharge slot of storage mode. */
  const DefaultDischargeSlot := TimeSlot(Time(16, 0), Time(7, 0))

  /** `TimeSlot.from_repr(1600, 700)` is 16:00 to 07:00. */
  lemma DefaultDischargeSlotRepr()
    ensures FromRepr(IntRepr(1600), IntRepr(700)) == Success(DefaultDischargeSlot)
  {
    FromReprOfEncoded(16, 0, 7, 0);
  }

  /** The register names storage mode needs. */
  predicate StorageNames(inLut: string -> bool) {
    inLut("battery_soc_reserve") && inLut("enable_discharge") &&
    inLut("discharge_slot_1") && inLut("discharge_slot_2")
  }

  /** The second discharge slot's name marks it as a slot, so it can be
      reset. */
  lemma SecondSlotIsSlot()
    ensures Occurs("discharge_slot_2", "_slot")
  {
    OccursAt("discharge_slot_2", "_slot", 9);
  }

  /** `set_mode_storage`: the discharge mode (full power when exporting,
      otherwise matching demand), a 100% reserve, discharging on, the first
      slot, then the second slot or its reset. */
  method SetModeStorage(slot1: TimeSlot, slot2: Option<TimeSlot>, forExport: bool, inLut: string -> bool)
    returns (r: Result<seq<Request>, Exception>)
    ensures !StorageNames(inLut) ==> r == Failure(AttributeError)
    ensures StorageNames(inLut) ==>
              r == Success((if forExport then SetDischargeModeMaxPower() else SetDischargeModeToMatchDemand()) +
                           [WriteNamed("battery_soc_reserve", 100), WriteNamed("enable_discharge", 1)] +
                           SetTimeslot("discharge_slot_1", Some(slot1)) +
                           SetTimeslot("discharge_slot_2", slot2))
  {
    var ret;
    if forExport {
      ret := SetDischargeModeMaxPower();
    } else {
      ret := SetDischargeModeToMatchDemand();
    }
    ghost var ghostMode := ret;
    var reserve :- Setter("battery_soc_reserve", IntValue(100), inLut);
    ret := ret + reserve;
    var discharge :- Setter("enable_discharge", IntValue(1), inLut);
    ret := ret + discharge;
    var first :- Setter("discharge_slot_1", SlotValue(slot1), inLut);
    ret := ret + first;
    var second;
    if slot2.Some? {
      second :- Setter("discharge_slot_2", SlotValue(slot2.value), inLut);
    } else {
      SecondSlotIsSlot();
      second :- Reset("discharge_slot_2", inLut);
    }
    ret := ret + second;
    assert reserve == [WriteNamed("battery_soc_reserve", 100)];
    assert discharge == [WriteNamed("enable_discharge", 1)];
    assert first == SetTimeslot("discharge_slot_1", Some(slot1));
    assert second == SetTimeslot("discharge_slot_2", slot2);
    assert [WriteNamed("battery_soc_reserve", 100)] + [WriteNamed("enable_discharge", 1)]
        == [WriteNamed("battery_soc_reserve", 100), WriteNamed("enable_discharge", 1)];
    assert ret == ghostMode + [WriteNamed("battery_soc_reserve", 100), WriteNamed("enable_discharge", 1)] + first + second;
    assert StorageNames(inLut);
    return Success(ret);
  }
}
