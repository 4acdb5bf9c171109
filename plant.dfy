/** The plant: one register cache per slave address, fed by the responses
    a client receives. The inverter's own cache is at 0x32, where the
    responses to the cloud and mobile app addresses 0x11 and 0x30 are
    filed too, and batteries sit at 0x32, 0x33, ... (the inverter and the
    first battery share a cache). */
module Plant {
  import opened Wrappers
  import opened Exceptions
  import opened Registers
  import opened RegisterCaches
  import T = Transparent

  const InverterAddress: int := 0x32

  /** What a client receives: a transparent message, or another PDU such
      as a heartbeat. */
  datatype Incoming = TransparentPdu(m: T.Message) | OtherPdu

  /** Only error-free transparent responses change the plant; the null
      response is not a transparent response. */
  predicate Handled(p: Incoming) {
    p.TransparentPdu? && T.IsResponse(p.m.kind) && !p.m.error
  }

  /** The cache a handled response is filed under: addresses from 0x32 up
      are kept, an input-register response for base register 60 keeps its
      address (those are battery registers), and the cloud and mobile app
      addresses 0x11 and 0x30 are mapped to the inverter. */
  function CacheAddress(m: T.Message): (a: int)
    ensures m.slave >= InverterAddress ==> a == m.slave
    ensures m.kind.ReadInputResponse? && m.base == 60 ==> a == m.slave
    ensures !(m.kind.ReadInputResponse? && m.base == 60) && (m.slave == 0x11 || m.slave == 0x30) ==> a == InverterAddress
    ensures m.slave != 0x11 && m.slave != 0x30 ==> a == m.slave
  {
    if m.slave >= InverterAddress then m.slave
    else if m.kind.ReadInputResponse? && m.base == 60 then m.slave
    else if m.slave == 0x11 || m.slave == 0x30 then InverterAddress
    else m.slave
  }

  predicate InBlock(q: Register, cls: RegType, base: int, n: int) {
    q.kind == cls && base <= q.idx < base + n
  }

  function BlockKeys(cls: RegType, base: int, n: nat): (ks: set<Register>)
    ensures forall q :: q in ks <==> InBlock(q, cls, base, n)
  {
    set i | base <= i < base + n :: Register(cls, i)
  }

  /** A cache after writing `vs` to the consecutive registers of one type
      from `base` up: those registers hold the values, every other entry
      is kept, and no other key appears. */
  function WriteBlock(c: RegisterCache, cls: RegType, base: int, vs: seq<int>): (r: RegisterCache)
    ensures forall q :: q in r <==> q in c || InBlock(q, cls, base, |vs|)
    ensures forall i :: 0 <= i < |vs| ==> Register(cls, base + i) in r && r[Register(cls, base + i)] == vs[i]
    ensures forall q :: q in c && !InBlock(q, cls, base, |vs|) ==> r[q] == c[q]
  {
    map q | q in c.Keys + BlockKeys(cls, base, |vs|) ::
      if InBlock(q, cls, base, |vs|) then vs[q.idx - base] else c[q]
  }

  /** Writing one more value extends the block by one register. */
  lemma WriteBlockStep(c: RegisterCache, cls: RegType, base: int, vs: seq<int>, v: int)
    ensures WriteBlock(c, cls, base, vs + [v]) == WriteBlock(c, cls, base, vs)[Register(cls, base + |vs|) := v]
  {
    var lhs := WriteBlock(c, cls, base, vs + [v]);
    var rhs := WriteBlock(c, cls, base, vs)[Register(cls, base + |vs|) := v];
    assert lhs.Keys == rhs.Keys;
    forall q | q in lhs
      ensures lhs[q] == rhs[q]
    {
      if InBlock(q, cls, base, |vs|) {
        assert q == Register(cls, base + (q.idx - base));
      }
    }
  }

  lemma WriteBlockEmpty(c: RegisterCache, cls: RegType, base: int)
    ensures WriteBlock(c, cls, base, []) == c
  {
    var r := WriteBlock(c, cls, base, []);
    assert r.Keys == c.Keys;
  }

  /** What a handled response does to the cache it is filed under, and the
      write it reports to `holding_register_updated`. Battery input
      responses are no input-register responses and store nothing. A write
      to register 0 is taken to be corrupt and ignored. */
  function Store(c: RegisterCache, m: T.Message): (r: Result<(RegisterCache, Option<(int, int)>), Exception>)
    ensures r.Failure? <==> m.kind.WriteHoldingResponse? && m.base != 0 && |m.values| == 0
    ensures r.Failure? ==> r.error == IndexError
    ensures r.Success? ==> c.Keys <= r.value.0.Keys
    ensures r.Success? && r.value.1.Some? <==> m.kind.WriteHoldingResponse? && m.base != 0 && |m.values| > 0
    ensures r.Success? && r.value.1.Some? ==>
              r.value.1.value == (m.base, m.values[0]) && Register(HR, m.base) in r.value.0 && r.value.0[Register(HR, m.base)] == m.values[0]
    ensures !m.kind.ReadInputResponse? && !m.kind.ReadHoldingResponse? && !m.kind.WriteHoldingResponse? ==>
              r == Success((c, None))
  {
    match m.kind
    case ReadInputResponse => Success((WriteBlock(c, IR, m.base, m.values), None))
    case ReadHoldingResponse => Success((WriteBlock(c, HR, m.base, m.values), None))
    case WriteHoldingResponse =>
      if m.base == 0 then Success((c, None))
      else if |m.values| == 0 then Failure(IndexError)
      else Success((c[Register(HR, m.base) := m.values[0]], Some((m.base, m.values[0]))))
    case _ => Success((c, None))
  }

  /** The plant's fields as a value. */
  datatype State = State(
    caches: map<int, RegisterCache>,
    inverterSerial: string,
    dataAdapterSerial: string,
    numberBatteries: int)

  datatype Outcome = Outcome(state: State, result: Result<Option<(int, int)>, Exception>)

  /** `update`: ignored messages change nothing; otherwise the cache is
      created if new, the serial numbers are copied (a response without an
      inverter serial raises `AttributeError` at that point), then the
      cache is written. */
  function Step(s: State, p: Incoming): (o: Outcome)
    ensures !Handled(p) ==> o == Outcome(s, Success(None))
    ensures s.caches.Keys <= o.state.caches.Keys && o.state.numberBatteries == s.numberBatteries
    ensures o.result.Failure? ==> o.result.error == AttributeError || o.result.error == IndexError
  {
    if !Handled(p) then Outcome(s, Success(None))
    else
      var m := p.m;
      var a := CacheAddress(m);
      var c0 := if a in s.caches then s.caches[a] else map[];
      var s1 := s.(caches := s.caches[a := c0]);
      if m.inverterSerial.None? then Outcome(s1, Failure(AttributeError))
      else
        var s2 := s1.(inverterSerial := m.inverterSerial.value, dataAdapterSerial := m.dataAdapterSerial);
        match Store(c0, m)
        case Failure(e) => Outcome(s2, Failure(e))
        case Success(stored) => Outcome(s2.(caches := s2.caches[a := stored.0]), Success(stored.1))
  }

  /** Looking at battery `k`: its cache at `base + k` is decoded and
      checked by `isValid`, which stands for the battery model's own
      validity check and may raise. A missing cache (`KeyError`) and a
      failed check (`AssertionError`) end the count, as `Success(false)`;
      any other exception propagates. */
  function CheckBattery(caches: map<int, RegisterCache>, isValid: RegisterCache -> Result<bool, Exception>, base: int, k: int): (r: Result<bool, Exception>)
    ensures base + k !in caches ==> r == Success(false)
    ensures r.Failure? ==> r.error != KeyError && r.error != AssertionError && base + k in caches && isValid(caches[base + k]) == r
    ensures r == Success(true) <==> base + k in caches && isValid(caches[base + k]) == Success(true)
  {
    if base + k !in caches then Success(false)
    else match isValid(caches[base + k])
      case Success(ok) => Success(ok)
      case Failure(e) => if e == KeyError || e == AssertionError then Success(false) else Failure(e)
  }

  /** Battery `k`'s cache exists and passes the validity check. */
  predicate BatteryOk(caches: map<int, RegisterCache>, isValid: RegisterCache -> Result<bool, Exception>, base: int, k: int) {
    CheckBattery(caches, isValid, base, k) == Success(true)
  }

  /** The number of leading battery caches, among the six looked at, that
      exist and are valid. */
  function LeadingValid(caches: map<int, RegisterCache>, isValid: RegisterCache -> Result<bool, Exception>, base: int, i: nat): (n: nat)
    requires i <= 6
    ensures i <= n <= 6
    decreases 6 - i
  {
    if i == 6 then 6
    else if BatteryOk(caches, isValid, base, i) then LeadingValid(caches, isValid, base, i + 1)
    else i
  }

  /** The exception, if any, that escapes the scan from battery `i` on:
      one raised by a check other than a missing cache or a failed
      assertion, before the count stops. */
  function Escaping(caches: map<int, RegisterCache>, isValid: RegisterCache -> Result<bool, Exception>, base: int, i: nat): (r: Option<Exception>)
    requires i <= 6
    decreases 6 - i
  {
    if i == 6 then None
    else match CheckBattery(caches, isValid, base, i)
      case Failure(e) => Some(e)
      case Success(ok) => if ok then Escaping(caches, isValid, base, i + 1) else None
  }

  /** An exception escapes exactly when the battery the count stops at
      raised it: the scan passes the leading valid batteries and ends at
      the first one that is not. */
  lemma {:induction false} EscapingMeaning(caches: map<int, RegisterCache>, isValid: RegisterCache -> Result<bool, Exception>, base: int, i: nat)
    requires i <= 6
    ensures var n := LeadingValid(caches, isValid, base, i);
            Escaping(caches, isValid, base, i) ==
              if n < 6 && CheckBattery(caches, isValid, base, n).Failure? then Some(CheckBattery(caches, isValid, base, n).error) else None
    decreases 6 - i
  {
    if i < 6 && BatteryOk(caches, isValid, base, i) {
      EscapingMeaning(caches, isValid, base, i + 1);
    }
  }

  /** When every validity check either answers or raises only `KeyError`
      or `AssertionError`, nothing escapes the scan. */
  lemma NothingEscapes(caches: map<int, RegisterCache>, isValid: RegisterCache -> Result<bool, Exception>, base: int)
    requires forall c :: isValid(c).Success? || isValid(c).error == KeyError || isValid(c).error == AssertionError
    ensures Escaping(caches, isValid, base, 0) == None
  {
    EscapingMeaning(caches, isValid, base, 0);
  }

  /** The leading valid batteries do not change where an exception escapes. */
  lemma {:induction false} EscapingAfter(caches: map<int, RegisterCache>, isValid: RegisterCache -> Result<bool, Exception>, base: int, k: nat)
    requires k <= 6
    requires forall j :: 0 <= j < k ==> BatteryOk(caches, isValid, base, j)
    ensures Escaping(caches, isValid, base, 0) == Escaping(caches, isValid, base, k)
  {
    if k > 0 {
      EscapingAfter(caches, isValid, base, k - 1);
      assert BatteryOk(caches, isValid, base, k - 1);
    }
  }

  /** The first `LeadingValid` caches are present and valid, and when fewer
      than six, the next one is missing or invalid. */
  lemma {:induction false} LeadingValidMeaning(caches: map<int, RegisterCache>, isValid: RegisterCache -> Result<bool, Exception>, base: int, i: nat)
    requires i <= 6
    ensures forall k :: i <= k < LeadingValid(caches, isValid, base, i) ==> BatteryOk(caches, isValid, base, k)
    ensures LeadingValid(caches, isValid, base, i) < 6 ==> !BatteryOk(caches, isValid, base, LeadingValid(caches, isValid, base, i))
    decreases 6 - i
  {
    if i < 6 && BatteryOk(caches, isValid, base, i) {
      LeadingValidMeaning(caches, isValid, base, i + 1);
    }
  }

  /** The battery count `detect_batteries` arrives at: the loop variable
      after the loop, which stops at 5 when no cache fails. */
  function DetectedCount(caches: map<int, RegisterCache>, isValid: RegisterCache -> Result<bool, Exception>, base: int): (n: nat)
    ensures n <= 5
    ensures n < 5 ==> n == LeadingValid(caches, isValid, base, 0)
  {
    var k := LeadingValid(caches, isValid, base, 0);
    if k == 6 then 5 else k
  }

  /** With six valid battery caches the count comes out as five. */
  lemma SixBatteriesCountedAsFive(caches: map<int, RegisterCache>, isValid: RegisterCache -> Result<bool, Exception>, base: int)
    requires forall k :: 0 <= k < 6 ==> BatteryOk(caches, isValid, base, k)
    ensures LeadingValid(caches, isValid, base, 0) == 6
    ensures DetectedCount(caches, isValid, base) == 5
  {
    LeadingValidUpTo(caches, isValid, base, 6);
  }

  /** `batteries`: the caches the battery views are built on, one per
      detected battery; a missing cache is a `KeyError`. */
  function BatteryCaches(caches: map<int, RegisterCache>, base: int, n: int): (r: Result<seq<RegisterCache>, Exception>)
    ensures r.Success? <==> forall i :: 0 <= i < n ==> HasCache(caches, base, i)
    ensures r.Failure? ==> r.error == KeyError
    ensures r.Success? ==> |r.value| == (if n < 0 then 0 else n) &&
                           forall i :: 0 <= i < |r.value| ==> HasCache(caches, base, i) && r.value[i] == caches[base + i]
  {
    if forall i :: 0 <= i < n ==> HasCache(caches, base, i) then
      Success(seq(if n < 0 then 0 else n, i requires 0 <= i < n && HasCache(caches, base, i) => caches[base + i]))
    else Failure(KeyError)
  }

  predicate HasCache(caches: map<int, RegisterCache>, base: int, i: int) {
    base + i in caches
  }

  class Plant {
    var caches: map<int, RegisterCache>
    var inverterSerial: string
    var dataAdapterSerial: string
    var numberBatteries: int

    function Snapshot(): State
      reads this
    {
      State(caches, inverterSerial, dataAdapterSerial, numberBatteries)
    }

    /** The inverter's cache exists, so the inverter view can be built. */
    ghost predicate Valid()
      reads this
    {
      InverterAddress in caches
    }

    /** Caches given at construction are kept; without any, the plant
        starts with one empty cache for the inverter. */
    constructor (initial: map<int, RegisterCache>, inverterSerial: string, dataAdapterSerial: string)
      ensures |initial| == 0 ==> caches == map[InverterAddress := map[]]
      ensures |initial| != 0 ==> caches == initial
      ensures this.inverterSerial == inverterSerial && this.dataAdapterSerial == dataAdapterSerial
      ensures numberBatteries == 0
      ensures InverterAddress in initial || |initial| == 0 ==> Valid()
    {
      caches := initial;
      this.inverterSerial := inverterSerial;
      this.dataAdapterSerial := dataAdapterSerial;
      numberBatteries := 0;
      new;
      if |caches| == 0 {
        caches := map[InverterAddress := map[]];
      }
    }

    /** `update`, writing a read response's values one register at a time. */
    method Update(p: Incoming) returns (r: Result<Option<(int, int)>, Exception>)
      modifies this
      ensures Snapshot() == Step(old(Snapshot()), p).state
      ensures r == Step(old(Snapshot()), p).result
    {
      if !p.TransparentPdu? || !T.IsResponse(p.m.kind) || p.m.error {
        return Success(None);
      }
      var m := p.m;
      var address := m.slave;
      if address >= InverterAddress {
      } else if m.kind.ReadInputResponse? && m.base == 60 {
      } else if address == 0x11 || address == 0x30 {
        address := InverterAddress;
      }
      assert address == CacheAddress(m);
      ghost var s := old(Snapshot());
      ghost var c0 := if address in caches then caches[address] else map[];
      if address !in caches {
        caches := caches[address := map[]];
      } else {
        assert caches[address := c0] == caches;
      }
      assert caches == s.caches[address := c0];
      if m.inverterSerial.None? {
        return Failure(AttributeError);
      }
      inverterSerial := m.inverterSerial.value;
      dataAdapterSerial := m.dataAdapterSerial;
      r := StoreResponse(address, m);
    }

    /** The part of `update` that writes the cache, by message kind. */
    method StoreResponse(address: int, m: T.Message) returns (r: Result<Option<(int, int)>, Exception>)
      requires address in caches
      modifies this
      ensures Store(old(caches)[address], m).Failure? ==>
                r == Failure(Store(old(caches)[address], m).error) && caches == old(caches)
      ensures Store(old(caches)[address], m).Success? ==>
                r == Success(Store(old(caches)[address], m).value.1) &&
                caches == old(caches)[address := Store(old(caches)[address], m).value.0]
      ensures inverterSerial == old(inverterSerial) && dataAdapterSerial == old(dataAdapterSerial)
      ensures numberBatteries == old(numberBatteries)
    {
      if m.kind.ReadInputResponse? || m.kind.ReadHoldingResponse? {
        WriteRegisters(address, if m.kind.ReadInputResponse? then IR else HR, m.base, m.values);
        r := Success(None);
      } else if m.kind.WriteHoldingResponse? {
        if m.base == 0 {
          assert caches[address := caches[address]] == caches;
          r := Success(None);
        } else if |m.values| == 0 {
          r := Failure(IndexError);
        } else {
          caches := caches[address := caches[address][Register(HR, m.base) := m.values[0]]];
          r := Success(Some((m.base, m.values[0])));
        }
      } else {
        assert caches[address := caches[address]] == caches;
        r := Success(None);
      }
    }

    /** The loop of `update` over a read response's values. */
    method WriteRegisters(address: int, cls: RegType, base: int, values: seq<int>)
      requires address in caches
      modifies this
      ensures caches == old(caches)[address := WriteBlock(old(caches)[address], cls, base, values)]
      ensures inverterSerial == old(inverterSerial) && dataAdapterSerial == old(dataAdapterSerial)
      ensures numberBatteries == old(numberBatteries)
    {
      var cache := caches[address];
      WriteBlockEmpty(cache, cls, base);
      assert values[..0] == [];
      for i := 0 to |values|
        invariant cache == WriteBlock(old(caches)[address], cls, base, values[..i])
        invariant caches == old(caches) && inverterSerial == old(inverterSerial)
        invariant dataAdapterSerial == old(dataAdapterSerial) && numberBatteries == old(numberBatteries)
      {
        WriteBlockStep(old(caches)[address], cls, base, values[..i], values[i]);
        assert values[..i + 1] == values[..i] + [values[i]];
        cache := cache[Register(cls, base + i) := values[i]];
      }
      assert values[..|values|] == values;
      caches := caches[address := cache];
    }

    /** `detect_batteries`, corrected: scans the six battery caches from
        0x32 and counts those before the first missing or invalid one, so
        that six valid batteries count as six (see `DetectedCount` for the
        count as written). `isValid` stands for the battery model's own
        validity check; an exception it raises other than `KeyError` or
        `AssertionError` propagates and leaves the count as it was. */
    method DetectBatteries(isValid: RegisterCache -> Result<bool, Exception>) returns (r: Result<(), Exception>)
      modifies this
      ensures caches == old(caches) && inverterSerial == old(inverterSerial)
      ensures dataAdapterSerial == old(dataAdapterSerial)
      ensures match Escaping(caches, isValid, InverterAddress, 0)
              case Some(e) => r == Failure(e) && numberBatteries == old(numberBatteries)
              case None => r == Success(()) && numberBatteries == LeadingValid(caches, isValid, InverterAddress, 0)
    {
      for k := 0 to 6
        invariant forall j :: 0 <= j < k ==> BatteryOk(caches, isValid, InverterAddress, j)
      {
        var checked := Success(false);
        if InverterAddress + k in caches {
          checked := isValid(caches[InverterAddress + k]);
        }
        if checked.Failure? && checked.error != KeyError && checked.error != AssertionError {
          EscapingAfter(caches, isValid, InverterAddress, k);
          return Failure(checked.error);
        }
        if checked != Success(true) {
          LeadingValidUpTo(caches, isValid, InverterAddress, k);
          EscapingAfter(caches, isValid, InverterAddress, k);
          numberBatteries := k;
          return Success(());
        }
      }
      LeadingValidUpTo(caches, isValid, InverterAddress, 6);
      EscapingAfter(caches, isValid, InverterAddress, 6);
      numberBatteries := 6;
      r := Success(());
    }

    /** `inverter`: the inverter's cache. */
    function InverterCache(): (r: Result<RegisterCache, Exception>)
      reads this
      ensures Valid() ==> r == Success(caches[InverterAddress])
      ensures !Valid() ==> r == Failure(KeyError)
    {
      if InverterAddress in caches then Success(caches[InverterAddress]) else Failure(KeyError)
    }

    /** `batteries`: the caches of the detected batteries. */
    function Batteries(): (r: Result<seq<RegisterCache>, Exception>)
      reads this
      ensures r == BatteryCaches(caches, InverterAddress, numberBatteries)
    {
      BatteryCaches(caches, InverterAddress, numberBatteries)
    }
  }

  /** When the first `k` battery caches are valid and cache `k` is not (or
      `k` is 6), `k` is the number of leading valid caches. */
  lemma LeadingValidUpTo(caches: map<int, RegisterCache>, isValid: RegisterCache -> Result<bool, Exception>, base: int, k: nat)
    requires k <= 6
    requires forall j :: 0 <= j < k ==> BatteryOk(caches, isValid, base, j)
    requires k < 6 ==> !BatteryOk(caches, isValid, base, k)
    ensures LeadingValid(caches, isValid, base, 0) == k
  {
    LeadingValidMeaning(caches, isValid, base, 0);
    var n := LeadingValid(caches, isValid, base, 0);
    assert n < k ==> BatteryOk(caches, isValid, base, n);
    assert k < n ==> BatteryOk(caches, isValid, base, k);
  }

  // ---------------------------------------------------------------------
  // Properties of `update`

  /** Messages that are not error-free transparent responses change
      nothing. */
  lemma IgnoredChangesNothing(s: State, p: Incoming)
    requires !Handled(p)
    ensures Step(s, p) == Outcome(s, Success(None))
  {
  }

  /** A handled response adds at most the cache for its address, keeps the
      other caches, and never touches the battery count. */
  lemma StepCaches(s: State, p: Incoming)
    requires Handled(p)
    ensures var s' := Step(s, p).state;
            s'.caches.Keys == s.caches.Keys + {CacheAddress(p.m)} &&
            s'.numberBatteries == s.numberBatteries &&
            forall a :: a in s.caches && a != CacheAddress(p.m) ==> s'.caches[a] == s.caches[a]
  {
  }

  /** Every handled response with an inverter serial copies both serial
      numbers into the plant. */
  lemma StepSerials(s: State, p: Incoming)
    requires Handled(p) && p.m.inverterSerial.Some?
    ensures Step(s, p).state.inverterSerial == p.m.inverterSerial.value
    ensures Step(s, p).state.dataAdapterSerial == p.m.dataAdapterSerial
  {
  }

  /** A read response stores every value at its register, of the
      response's register type, and keeps every other entry. */
  lemma StepRead(s: State, p: Incoming)
    requires Handled(p) && p.m.inverterSerial.Some?
    requires p.m.kind.ReadInputResponse? || p.m.kind.ReadHoldingResponse?
    ensures Step(s, p).result == Success(None)
    ensures var a := CacheAddress(p.m);
            var cls := if p.m.kind.ReadInputResponse? then IR else HR;
            var old_ := if a in s.caches then s.caches[a] else map[];
            var new_ := Step(s, p).state.caches[a];
            (forall i :: 0 <= i < |p.m.values| ==> new_[Register(cls, p.m.base + i)] == p.m.values[i]) &&
            (forall q :: q in new_ <==> q in old_ || InBlock(q, cls, p.m.base, |p.m.values|)) &&
            (forall q :: q in old_ && !InBlock(q, cls, p.m.base, |p.m.values|) ==> new_[q] == old_[q])
  {
  }

  /** A write response to a register other than 0 stores the value and
      reports the write; one to register 0 leaves the cache as it was. */
  lemma StepWrite(s: State, p: Incoming)
    requires Handled(p) && p.m.inverterSerial.Some? && p.m.kind.WriteHoldingResponse?
    requires |p.m.values| > 0
    ensures var a := CacheAddress(p.m);
            var old_ := if a in s.caches then s.caches[a] else map[];
            var out := Step(s, p);
            (p.m.base == 0 ==> out.result == Success(None) && out.state.caches[a] == old_) &&
            (p.m.base != 0 ==> out.result == Success(Some((p.m.base, p.m.values[0]))) &&
                               out.state.caches[a] == old_[Register(HR, p.m.base) := p.m.values[0]])
  {
  }

  /** A battery input response creates its cache but stores none of its
      values. */
  lemma StepBatteryResponse(s: State, p: Incoming)
    requires Handled(p) && p.m.inverterSerial.Some? && p.m.kind.ReadBatteryResponse?
    ensures var a := CacheAddress(p.m);
            Step(s, p).state.caches[a] == (if a in s.caches then s.caches[a] else map[])
  {
  }

  /** The inverter's cache, once there, stays: `update` never removes a
      cache, so the inverter view never fails. */
  lemma StepKeepsInverter(s: State, p: Incoming)
    requires InverterAddress in s.caches
    ensures InverterAddress in Step(s, p).state.caches
  {
  }

  /** After detection, the battery views can all be built. */
  lemma DetectedBatteriesExist(caches: map<int, RegisterCache>, isValid: RegisterCache -> Result<bool, Exception>, base: int)
    ensures BatteryCaches(caches, base, LeadingValid(caches, isValid, base, 0)).Success?
  {
    LeadingValidMeaning(caches, isValid, base, 0);
  }
}
