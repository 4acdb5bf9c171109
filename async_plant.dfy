/** The plant of the asynchronous client: the same per-address register
    caches, with a configurable inverter address (0x31 by default), high
    voltage batteries at 0x50, 0x51, ... and their control unit at 0x70.
    Read responses are merged into the cache as a whole, from the message's
    map of register index to value. */
module AsyncPlant {
  import opened Wrappers
  import opened Exceptions
  import opened Registers
  import opened RegisterCaches
  import T = Transparent
  import P = Plant

  const DefaultSlaveAddress: int := 0x31
  const LowVoltageBase: int := 0x32
  const HighVoltageBase: int := 0x50
  const ControlUnitAddress: int := 0x70

  /** `dict.update`: the entries of `upd` replace or join those of `c`. */
  function Merge(c: RegisterCache, upd: RegisterCache): (r: RegisterCache)
    ensures r.Keys == c.Keys + upd.Keys
    ensures forall k :: k in upd ==> r[k] == upd[k]
    ensures forall k :: k in c && k !in upd ==> r[k] == c[k]
  {
    map k | k in c.Keys + upd.Keys :: if k in upd then upd[k] else c[k]
  }

  /** A message's index-to-value map as registers of one type. */
  function Keyed(cls: RegType, d: map<int, int>): (r: RegisterCache)
    ensures forall k :: k in r <==> k.kind == cls && k.idx in d
    ensures forall i :: i in d ==> r[Register(cls, i)] == d[i]
  {
    map q | q in (set i | i in d :: Register(cls, i)) :: d[q.idx]
  }

  /** The map a read response's values form when numbered from its base
      register. */
  function Numbered(base: int, values: seq<int>): (d: map<int, int>)
    ensures forall i :: i in d <==> base <= i < base + |values|
    ensures forall i :: 0 <= i < |values| ==> d[base + i] == values[i]
  {
    if |values| == 0 then map[]
    else Numbered(base, values[..|values| - 1])[base + |values| - 1 := values[|values| - 1]]
  }

  /** Merging a response's numbered values is writing them as one block. */
  lemma MergeIsWriteBlock(c: RegisterCache, cls: RegType, base: int, values: seq<int>)
    ensures Merge(c, Keyed(cls, Numbered(base, values))) == P.WriteBlock(c, cls, base, values)
  {
    var u := Keyed(cls, Numbered(base, values));
    KeyedNumbered(cls, base, values);
    MergeBlock(c, u, cls, base, values);
  }

  /** A response's numbered values, keyed by register, are exactly its
      block of registers. */
  lemma KeyedNumbered(cls: RegType, base: int, values: seq<int>)
    ensures var u := Keyed(cls, Numbered(base, values));
            (forall q :: q in u <==> P.InBlock(q, cls, base, |values|)) &&
            (forall q :: q in u ==> 0 <= q.idx - base < |values| && u[q] == values[q.idx - base])
  {
    var d := Numbered(base, values);
    var u := Keyed(cls, d);
    forall q | q in u
      ensures P.InBlock(q, cls, base, |values|) && u[q] == values[q.idx - base]
    {
      assert d[base + (q.idx - base)] == values[q.idx - base];
    }
    forall q | P.InBlock(q, cls, base, |values|)
      ensures q in u
    {
      assert q.idx in d;
    }
  }

  lemma MergeBlock(c: RegisterCache, u: RegisterCache, cls: RegType, base: int, values: seq<int>)
    requires forall q :: q in u <==> P.InBlock(q, cls, base, |values|)
    requires forall q :: q in u ==> 0 <= q.idx - base < |values| && u[q] == values[q.idx - base]
    ensures Merge(c, u) == P.WriteBlock(c, cls, base, values)
  {
    var lhs := Merge(c, u);
    var rhs := P.WriteBlock(c, cls, base, values);
    assert lhs.Keys == rhs.Keys;
    forall q | q in lhs
      ensures lhs[q] == rhs[q]
    {
      if P.InBlock(q, cls, base, |values|) {
        assert q == Register(cls, base + (q.idx - base));
      }
    }
  }

  /** The cache a handled response is filed under: the cloud and mobile
      app addresses 0x11 and 0x00 are mapped to the plant's own address,
      every other address is kept. */
  function CacheAddress(slaveAddress: int, m: T.Message): (a: int)
    ensures m.slave == 0x11 || m.slave == 0x00 ==> a == slaveAddress
    ensures m.slave != 0x11 && m.slave != 0x00 ==> a == m.slave
  {
    if m.slave == 0x11 || m.slave == 0x00 then slaveAddress else m.slave
  }

  /** What a handled response does to its cache. `toDict` stands for the
      message's own index-to-value map. */
  function Store(c: RegisterCache, m: T.Message, toDict: map<int, int>): (r: Result<RegisterCache, Exception>)
    ensures r.Failure? <==> m.kind.WriteHoldingResponse? && m.base != 0 && |m.values| == 0
    ensures r.Failure? ==> r.error == IndexError
    ensures r.Success? ==> c.Keys <= r.value.Keys
    ensures r.Success? && m.kind.WriteHoldingResponse? && m.base != 0 ==> Register(HR, m.base) in r.value && r.value[Register(HR, m.base)] == m.values[0]
    ensures !m.kind.ReadInputResponse? && !m.kind.ReadHoldingResponse? && !m.kind.WriteHoldingResponse? ==> r == Success(c)
  {
    match m.kind
    case ReadHoldingResponse => Success(Merge(c, Keyed(HR, toDict)))
    case ReadInputResponse => Success(Merge(c, Keyed(IR, toDict)))
    case WriteHoldingResponse =>
      if m.base == 0 then Success(c)
      else if |m.values| == 0 then Failure(IndexError)
      else Success(Merge(c, map[Register(HR, m.base) := m.values[0]]))
    case _ => Success(c)
  }

  datatype State = State(
    caches: map<int, RegisterCache>,
    inverterSerial: string,
    dataAdapterSerial: string,
    numberBatteries: int,
    slaveAddress: int,
    isHV: bool)

  datatype Outcome = Outcome(state: State, result: Result<(), Exception>)

  /** `update`, as in the other plant but with this plant's address rule,
      a merge per read response, and no write notification. */
  function Step(s: State, p: P.Incoming, toDict: map<int, int>): (o: Outcome)
    ensures !P.Handled(p) ==> o == Outcome(s, Success(()))
    ensures s.caches.Keys <= o.state.caches.Keys && o.state.numberBatteries == s.numberBatteries
    ensures o.state.slaveAddress == s.slaveAddress && o.state.isHV == s.isHV
    ensures o.result.Failure? ==> o.result.error == AttributeError || o.result.error == IndexError
  {
    if !P.Handled(p) then Outcome(s, Success(()))
    else
      var m := p.m;
      var a := CacheAddress(s.slaveAddress, m);
      var c0 := if a in s.caches then s.caches[a] else map[];
      var s1 := s.(caches := s.caches[a := c0]);
      if m.inverterSerial.None? then Outcome(s1, Failure(AttributeError))
      else
        var s2 := s1.(inverterSerial := m.inverterSerial.value, dataAdapterSerial := m.dataAdapterSerial);
        match Store(c0, m, toDict)
        case Failure(e) => Outcome(s2, Failure(e))
        case Success(c1) => Outcome(s2.(caches := s2.caches[a := c1]), Success(()))
  }

  class Plant {
    var caches: map<int, RegisterCache>
    var additionalHoldingRegisters: seq<int>
    var inverterSerial: string
    var dataAdapterSerial: string
    var numberBatteries: int
    var slaveAddress: int
    var isHV: bool

    function Snapshot(): State
      reads this
    {
      State(caches, inverterSerial, dataAdapterSerial, numberBatteries, slaveAddress, isHV)
    }

    /** Without given caches, the plant starts with one empty cache at its
        own address. */
    constructor (initial: map<int, RegisterCache>, slaveAddress: int, isHV: bool)
      ensures |initial| == 0 ==> caches == map[slaveAddress := map[]]
      ensures |initial| != 0 ==> caches == initial
      ensures this.slaveAddress == slaveAddress && this.isHV == isHV
      ensures inverterSerial == "" && dataAdapterSerial == "" && numberBatteries == 0
      ensures additionalHoldingRegisters == []
    {
      caches := initial;
      additionalHoldingRegisters := [];
      inverterSerial := "";
      dataAdapterSerial := "";
      numberBatteries := 0;
      this.slaveAddress := slaveAddress;
      this.isHV := isHV;
      new;
      if |caches| == 0 {
        caches := map[slaveAddress := map[]];
      }
    }

    method Update(p: P.Incoming, toDict: map<int, int>) returns (r: Result<(), Exception>)
      modifies this
      ensures Snapshot() == Step(old(Snapshot()), p, toDict).state
      ensures r == Step(old(Snapshot()), p, toDict).result
      ensures additionalHoldingRegisters == old(additionalHoldingRegisters)
    {
      if !p.TransparentPdu? || !T.IsResponse(p.m.kind) || p.m.error {
        return Success(());
      }
      var m := p.m;
      var address;
      if m.slave == 0x11 || m.slave == 0x00 {
        address := slaveAddress;
      } else {
        address := m.slave;
      }
      assert address == CacheAddress(slaveAddress, m);
      ghost var s := old(Snapshot());
      ghost var c0 := if address in caches then caches[address] else map[];
      if address !in caches {
        caches := caches[address := map[]];
      } else {
        assert caches[address := c0] == caches;
      }
      assert caches == s.caches[address := c0];
      if m.inverterSerial.None? {
        return Failure(AttributeError);
      }
      inverterSerial := m.inverterSerial.value;
      dataAdapterSerial := m.dataAdapterSerial;
      r := StoreResponse(address, m, toDict);
    }

    /** The part of `update` that writes the cache, by message kind. */
    method StoreResponse(address: int, m: T.Message, toDict: map<int, int>) returns (r: Result<(), Exception>)
      requires address in caches
      modifies this
      ensures Store(old(caches)[address], m, toDict).Failure? ==>
                r == Failure(Store(old(caches)[address], m, toDict).error) && caches == old(caches)
      ensures Store(old(caches)[address], m, toDict).Success? ==>
                r == Success(()) &&
                caches == old(caches)[address := Store(old(caches)[address], m, toDict).value]
      ensures inverterSerial == old(inverterSerial) && dataAdapterSerial == old(dataAdapterSerial)
      ensures numberBatteries == old(numberBatteries) && slaveAddress == old(slaveAddress)
      ensures isHV == old(isHV) && additionalHoldingRegisters == old(additionalHoldingRegisters)
    {
      var c := caches[address];
      ghost var want := Store(c, m, toDict);
      if m.kind.ReadHoldingResponse? || m.kind.ReadInputResponse? {
        var cls := if m.kind.ReadHoldingResponse? then HR else IR;
        var c' := Merge(c, Keyed(cls, toDict));
        assert want == Success(c');
        caches := caches[address := c'];
      } else if m.kind.WriteHoldingResponse? && m.base != 0 {
        if |m.values| == 0 {
          return Failure(IndexError);
        }
        var c' := Merge(c, map[Register(HR, m.base) := m.values[0]]);
        assert want == Success(c');
        caches := caches[address := c'];
      } else {
        assert want == Success(c);
        assert caches[address := c] == caches;
      }
      r := Success(());
    }

    /** `detect_batteries`, corrected as in the synchronous plant: counts
        the high voltage battery caches from 0x50 or the low voltage ones
        from 0x32 up to the first missing or invalid one. The two checks
        stand for the two battery models' own validity checks; an
        exception either raises other than `KeyError` or `AssertionError`
        propagates and leaves the count as it was. */
    method DetectBatteries(isValidHV: RegisterCache -> Result<bool, Exception>, isValidLV: RegisterCache -> Result<bool, Exception>)
      returns (r: Result<(), Exception>)
      modifies this
      ensures caches == old(caches) && inverterSerial == old(inverterSerial)
      ensures dataAdapterSerial == old(dataAdapterSerial)
      ensures slaveAddress == old(slaveAddress) && isHV == old(isHV)
      ensures additionalHoldingRegisters == old(additionalHoldingRegisters)
      ensures var base := if isHV then HighVoltageBase else LowVoltageBase;
              var isValid := if isHV then isValidHV else isValidLV;
              match P.Escaping(caches, isValid, base, 0)
              case Some(e) => r == Failure(e) && numberBatteries == old(numberBatteries)
              case None => r == Success(()) && numberBatteries == P.LeadingValid(caches, isValid, base, 0)
    {
      if isHV {
        r := Scan(HighVoltageBase, isValidHV);
      } else {
        r := Scan(LowVoltageBase, isValidLV);
      }
    }

    /** The scan itself: looks at caches `base`, `base + 1`, ... up to six. */
    method Scan(base: int, isValid: RegisterCache -> Result<bool, Exception>) returns (r: Result<(), Exception>)
      modifies this
      ensures caches == old(caches) && inverterSerial == old(inverterSerial)
      ensures dataAdapterSerial == old(dataAdapterSerial)
      ensures slaveAddress == old(slaveAddress) && isHV == old(isHV)
      ensures additionalHoldingRegisters == old(additionalHoldingRegisters)
      ensures match P.Escaping(caches, isValid, base, 0)
              case Some(e) => r == Failure(e) && numberBatteries == old(numberBatteries)
              case None => r == Success(()) && numberBatteries == P.LeadingValid(caches, isValid, base, 0)
    {
      for k := 0 to 6
        invariant forall j :: 0 <= j < k ==> P.BatteryOk(caches, isValid, base, j)
      {
        var checked := Success(false);
        if base + k in caches {
          checked := isValid(caches[base + k]);
        }
        if checked.Failure? && checked.error != KeyError && checked.error != AssertionError {
          P.EscapingAfter(caches, isValid, base, k);
          return Failure(checked.error);
        }
        if checked != Success(true) {
          P.LeadingValidUpTo(caches, isValid, base, k);
          P.EscapingAfter(caches, isValid, base, k);
          numberBatteries := k;
          return Success(());
        }
      }
      P.LeadingValidUpTo(caches, isValid, base, 6);
      P.EscapingAfter(caches, isValid, base, 6);
      numberBatteries := 6;
      r := Success(());
    }

    /** `inverter`: the cache at the plant's own address. */
    function InverterCache(): (r: Result<RegisterCache, Exception>)
      reads this
      ensures slaveAddress in caches ==> r == Success(caches[slaveAddress])
      ensures slaveAddress !in caches ==> r == Failure(KeyError)
    {
      if slaveAddress in caches then Success(caches[slaveAddress]) else Failure(KeyError)
    }

    /** `batteries`: nothing without a cache at 0x32, otherwise the low
        voltage battery caches. */
    function Batteries(): (r: Option<Result<seq<RegisterCache>, Exception>>)
      reads this
      ensures LowVoltageBase !in caches <==> r.None?
      ensures r.Some? ==> r.value == P.BatteryCaches(caches, LowVoltageBase, numberBatteries)
    {
      if LowVoltageBase in caches then Some(P.BatteryCaches(caches, LowVoltageBase, numberBatteries)) else None
    }

    /** `hvbatteries`: nothing without a cache at 0x50, otherwise the high
        voltage battery caches. */
    function HighVoltageBatteries(): (r: Option<Result<seq<RegisterCache>, Exception>>)
      reads this
      ensures HighVoltageBase !in caches <==> r.None?
      ensures r.Some? ==> r.value == P.BatteryCaches(caches, HighVoltageBase, numberBatteries)
    {
      if HighVoltageBase in caches then Some(P.BatteryCaches(caches, HighVoltageBase, numberBatteries)) else None
    }

    /** `bcu`: nothing without a cache at 0x50; otherwise the control
        unit's cache at 0x70, which may be missing. */
    function ControlUnit(): (r: Option<Result<RegisterCache, Exception>>)
      reads this
      ensures HighVoltageBase !in caches <==> r.None?
      ensures r.Some? && ControlUnitAddress in caches ==> r.value == Success(caches[ControlUnitAddress])
      ensures r.Some? && ControlUnitAddress !in caches ==> r.value == Failure(KeyError)
    {
      if HighVoltageBase in caches then
        Some(if ControlUnitAddress in caches then Success(caches[ControlUnitAddress]) else Failure(KeyError))
      else None
    }
  }

  // ---------------------------------------------------------------------
  // Properties of `update`

  lemma IgnoredChangesNothing(s: State, p: P.Incoming, toDict: map<int, int>)
    requires !P.Handled(p)
    ensures Step(s, p, toDict) == Outcome(s, Success(()))
  {
  }

  /** A handled response adds at most the cache for its address and keeps
      the other caches, the plant's address and the battery count. */
  lemma StepCaches(s: State, p: P.Incoming, toDict: map<int, int>)
    requires P.Handled(p)
    ensures var s' := Step(s, p, toDict).state;
            s'.caches.Keys == s.caches.Keys + {CacheAddress(s.slaveAddress, p.m)} &&
            s'.numberBatteries == s.numberBatteries && s'.slaveAddress == s.slaveAddress &&
            forall a :: a in s.caches && a != CacheAddress(s.slaveAddress, p.m) ==> s'.caches[a] == s.caches[a]
  {
  }

  /** A read response whose map numbers its values from the base register
      leaves its cache exactly as the other plant's register-by-register
      loop does. */
  lemma StepReadAsBlock(s: State, p: P.Incoming)
    requires P.Handled(p) && p.m.inverterSerial.Some?
    requires p.m.kind.ReadInputResponse? || p.m.kind.ReadHoldingResponse?
    ensures var a := CacheAddress(s.slaveAddress, p.m);
            var cls := if p.m.kind.ReadInputResponse? then IR else HR;
            var c0 := if a in s.caches then s.caches[a] else map[];
            var out := Step(s, p, Numbered(p.m.base, p.m.values));
            out.result == Success(()) &&
            out.state.caches[a] == P.WriteBlock(c0, cls, p.m.base, p.m.values)
  {
    var a := CacheAddress(s.slaveAddress, p.m);
    var cls := if p.m.kind.ReadInputResponse? then IR else HR;
    var c0 := if a in s.caches then s.caches[a] else map[];
    MergeIsWriteBlock(c0, cls, p.m.base, p.m.values);
  }

  /** A write response to a register other than 0 sets that holding
      register; one to register 0 leaves the cache as it was. */
  lemma StepWrite(s: State, p: P.Incoming, toDict: map<int, int>)
    requires P.Handled(p) && p.m.inverterSerial.Some? && p.m.kind.WriteHoldingResponse?
    requires |p.m.values| > 0
    ensures var a := CacheAddress(s.slaveAddress, p.m);
            var c0 := if a in s.caches then s.caches[a] else map[];
            var out := Step(s, p, toDict);
            out.result == Success(()) &&
            (p.m.base == 0 ==> out.state.caches[a] == c0) &&
            (p.m.base != 0 ==> out.state.caches[a] == c0[Register(HR, p.m.base) := p.m.values[0]])
  {
    var a := CacheAddress(s.slaveAddress, p.m);
    var c0 := if a in s.caches then s.caches[a] else map[];
    if p.m.base != 0 {
      var upd := map[Register(HR, p.m.base) := p.m.values[0]];
      assert Merge(c0, upd) == c0[Register(HR, p.m.base) := p.m.values[0]];
    }
  }

  /** The plant's own cache, once there, stays. */
  lemma StepKeepsInverter(s: State, p: P.Incoming, toDict: map<int, int>)
    requires s.slaveAddress in s.caches
    ensures s.slaveAddress in Step(s, p, toDict).state.caches
  {
  }
}
