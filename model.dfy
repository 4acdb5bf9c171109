/** The shared pieces of the data model: wall-clock times, time slots with
    their parsing from the inverter's `HHMM` representation and their
    membership test, and the "unknown member" fallback of the model's
    integer enumerations. */
module Model {
  import opened Wrappers
  import opened Decimal
  import opened Exceptions

  /** A `datetime.time` with zero seconds; `MakeTime` is its validating
      constructor. */
  datatype Time = Time(hour: int, minute: int)

  predicate ValidTime(t: Time) {
    0 <= t.hour < 24 && 0 <= t.minute < 60
  }

  /** `time(hour, minute)`: `ValueError` unless both are in range. */
  function MakeTime(hour: int, minute: int): (r: Result<Time, Exception>)
    ensures r.Success? ==> ValidTime(r.value)
  {
    if 0 <= hour < 24 && 0 <= minute < 60 then Success(Time(hour, minute))
    else Failure(ValueError)
  }

  /** Python's ordering of times: by hour, then by minute. */
  predicate Before(a: Time, b: Time) {
    a.hour < b.hour || (a.hour == b.hour && a.minute < b.minute)
  }

  predicate AtOrBefore(a: Time, b: Time) {
    a == b || Before(a, b)
  }

  /** Minutes since midnight. */
  function Minutes(t: Time): int {
    60 * t.hour + t.minute
  }

  /** On valid times Python's ordering is the ordering of minutes since
      midnight. */
  lemma BeforeIsMinutes(a: Time, b: Time)
    requires ValidTime(a) && ValidTime(b)
    ensures Before(a, b) <==> Minutes(a) < Minutes(b)
    ensures a == b <==> Minutes(a) == Minutes(b)
  {
  }

  datatype TimeSlot = TimeSlot(start: Time, end: Time)

  /** `TimeSlot.from_components`. */
  function FromComponents(startHour: int, startMinute: int, endHour: int, endMinute: int)
    : (r: Result<TimeSlot, Exception>)
    ensures r.Success? <==>
              0 <= startHour < 24 && 0 <= startMinute < 60 && 0 <= endHour < 24 && 0 <= endMinute < 60
    ensures r.Success? ==>
              r.value == TimeSlot(Time(startHour, startMinute), Time(endHour, endMinute))
    ensures r.Failure? ==> r.error == ValueError
  {
    var start :- MakeTime(startHour, startMinute);
    var end :- MakeTime(endHour, endMinute);
    Success(TimeSlot(start, end))
  }

  /** An argument of `from_repr`: an integer or a string. */
  datatype Repr = IntRepr(n: int) | StrRepr(s: string)

  /** `f"{n:04d}"`: at least four characters, the sign counting as one. */
  function Format04d(n: int): (s: string)
    ensures |s| >= 4
  {
    PadInt(n, 4)
  }

  function ReprText(r: Repr): string {
    match r
    case IntRepr(n) => Format04d(n)
    case StrRepr(s) => s
  }

  /** Python's `s[:-2]`. */
  function DropLast2(s: string): string {
    if |s| >= 2 then s[..|s| - 2] else ""
  }

  /** Python's `s[-2:]`. */
  function Last2(s: string): string {
    if |s| >= 2 then s[|s| - 2..] else s
  }

  function ParseField(s: string): Result<int, Exception> {
    match ParseInt(s)
    case Some(v) => Success(v)
    case None => Failure(ValueError)
  }

  /** The hour and minute `from_repr` reads from one argument: the last
      two characters of its text are the minute and the rest the hour. */
  function SplitRepr(r: Repr): Result<(int, int), Exception> {
    var s := ReprText(r);
    var hour :- ParseField(DropLast2(s));
    var minute :- ParseField(Last2(s));
    Success((hour, minute))
  }

  /** `TimeSlot.from_repr`. */
  function FromRepr(start: Repr, end: Repr): (r: Result<TimeSlot, Exception>)
    ensures r.Success? ==> ValidTime(r.value.start) && ValidTime(r.value.end)
    ensures r.Failure? ==> r.error == ValueError
  {
    var s :- SplitRepr(start);
    var e :- SplitRepr(end);
    FromComponents(s.0, s.1, e.0, e.1)
  }

  /** The hour and minute `from_repr` reads from an integer argument: the
      quotient and remainder of its magnitude by 100, the sign going with
      the hour. */
  function ReprHour(n: int): int {
    if n >= 0 then n / 100 else -((-n) / 100)
  }

  function ReprMinute(n: int): int {
    if n >= 0 then n % 100 else (-n) % 100
  }

  /** Splitting a digit string before its last two digits divides its value
      by 100. */
  lemma {:induction false} SplitLast2(d: string)
    requires |d| >= 3 && AllDigits(d)
    ensures AllDigits(DropLast2(d)) && AllDigits(Last2(d))
    ensures |DropLast2(d)| >= 1 && |Last2(d)| == 2
    ensures Value(DropLast2(d)) == Value(d) / 100
    ensures Value(Last2(d)) == Value(d) % 100
  {
    var h, t := DropLast2(d), Last2(d);
    assert h + t == d;
    ValueAppend(h, t);
    ValueBound(t);
    assert Pow10(2) == 100;
    DivModUnique(Value(d), Value(h), Value(t));
  }

  lemma DivModUnique(n: int, q: int, r: int)
    requires n == q * 100 + r && 0 <= r < 100
    ensures q == n / 100 && r == n % 100
  {
  }

  /** The integer form of `from_repr` in closed form. */
  lemma SplitIntRepr(n: int)
    ensures SplitRepr(IntRepr(n)) == Success((ReprHour(n), ReprMinute(n)))
  {
    if n >= 0 {
      SplitNatRepr(n);
    } else {
      SplitNegRepr(n);
    }
  }

  lemma SplitNatRepr(n: nat)
    ensures ParseField(DropLast2(Format04d(n))) == Success(n / 100)
    ensures ParseField(Last2(Format04d(n))) == Success(n % 100)
  {
    var d := ZeroPad(NatToString(n), 4);
    PaddedDigits(n, 4);
    SplitLast2(d);
    ParseDigits(Last2(d));
    ParseDigits(DropLast2(d));
  }

  lemma SplitNegRepr(n: int)
    requires n < 0
    ensures ParseField(DropLast2(Format04d(n))) == Success(-((-n) / 100))
    ensures ParseField(Last2(Format04d(n))) == Success((-n) % 100)
  {
    SplitNegHour(n);
    SplitNegMinute(n);
  }

  /** The hour part of `f"{n:04d}"` for a negative `n`: the digits before
      the last two, with the sign. */
  lemma SplitNegHour(n: int)
    requires n < 0
    ensures ParseField(DropLast2(Format04d(n))) == Success(-((-n) / 100))
  {
    var d := ZeroPad(NatToString(-n), 3);
    var h := DropLast2(d);
    assert |h| >= 1 && AllDigits(h) && Value(h) == (-n) / 100 && DropLast2(Format04d(n)) == "-" + h by {
      PaddedDigits(-n, 3);
      NegFormat(n);
      SplitLast2(d);
      SplitAfterSign(d);
    }
    NegHour(DropLast2(Format04d(n)), h, -n);
  }

  /** The minute part of `f"{n:04d}"` for a negative `n`: its last two
      digits. */
  lemma SplitNegMinute(n: int)
    requires n < 0
    ensures ParseField(Last2(Format04d(n))) == Success((-n) % 100)
  {
    var d := ZeroPad(NatToString(-n), 3);
    var m := Last2(d);
    assert Last2(Format04d(n)) == m by {
      PaddedDigits(-n, 3);
      NegFormat(n);
      SplitAfterSign(d);
    }
    assert |m| >= 1 && AllDigits(m) && Value(m) == (-n) % 100 by {
      PaddedDigits(-n, 3);
      SplitLast2(d);
    }
    ParseDigits(m);
  }

  lemma NegFormat(n: int)
    requires n < 0
    ensures Format04d(n) == "-" + ZeroPad(NatToString(-n), 3)
  {
  }

  /** The hour part of a negative representation, read with its sign. */
  lemma NegHour(s: string, h: string, k: int)
    requires |h| >= 1 && AllDigits(h) && Value(h) == k / 100
    requires s == "-" + h
    ensures ParseField(s) == Success(-(k / 100))
  {
    ParseNegative(h);
  }

  /** `str(k)` zero-padded to `width` digits denotes `k`. */
  lemma PaddedDigits(k: nat, width: nat)
    requires width >= 3
    ensures var d := ZeroPad(NatToString(k), width);
            AllDigits(d) && |d| >= 3 && Value(d) == k
  {
    ZeroPadValue(NatToString(k), width);
    ValueOfNatToString(k);
  }

  lemma SplitAfterSign(d: string)
    requires |d| >= 2
    ensures Last2("-" + d) == Last2(d)
    ensures DropLast2("-" + d) == "-" + DropLast2(d)
  {
  }

  /** Encoding a slot as `100 * hour + minute` integers and reading it back
      with `from_repr` gives the slot built from its components. */
  lemma FromReprOfEncoded(startHour: int, startMinute: int, endHour: int, endMinute: int)
    requires 0 <= startHour < 24 && 0 <= startMinute < 60
    requires 0 <= endHour < 24 && 0 <= endMinute < 60
    ensures FromRepr(IntRepr(100 * startHour + startMinute), IntRepr(100 * endHour + endMinute))
            == FromComponents(startHour, startMinute, endHour, endMinute)
  {
    SplitIntRepr(100 * startHour + startMinute);
    SplitIntRepr(100 * endHour + endMinute);
    DivModUnique(100 * startHour + startMinute, startHour, startMinute);
    DivModUnique(100 * endHour + endMinute, endHour, endMinute);
  }

  /** `from_repr` of integers, in closed form: it succeeds exactly when the
      hour and minute digits name a valid time. Note that a negative
      argument above -100 is read as a time just after midnight. */
  lemma FromReprInts(start: int, end: int)
    ensures FromRepr(IntRepr(start), IntRepr(end))
            == FromComponents(ReprHour(start), ReprMinute(start), ReprHour(end), ReprMinute(end))
  {
    SplitIntRepr(start);
    SplitIntRepr(end);
  }

  /** The argument of `TimeSlot.__contains__`. */
  datatype Probe = AtTime(t: Time) | AtInt(n: int) | Other

  /** `t in slot`. An empty slot contains nothing; an integer is read as
      `100 * hour + minute` (with floor division); anything else is not
      contained; a slot whose start is after its end spans midnight. */
  function Contains(slot: TimeSlot, probe: Probe): (r: Result<bool, Exception>)
    ensures slot.start == slot.end || probe.Other? ==> r == Success(false)
    ensures r.Failure? <==> slot.start != slot.end && probe.AtInt? && !(0 <= probe.n / 100 < 24 && probe.n % 100 < 60)
    ensures r.Failure? ==> r.error == ValueError
  {
    if slot.start == slot.end then Success(false)
    else
      match probe
      case Other => Success(false)
      case AtTime(t) => Success(InSlot(slot, t))
      case AtInt(n) =>
        var t :- MakeTime(n / 100, n % 100);
        Success(InSlot(slot, t))
  }

  /** The comparison `__contains__` makes once it holds a time. */
  predicate InSlot(slot: TimeSlot, t: Time) {
    if Before(slot.start, slot.end) then AtOrBefore(slot.start, t) && Before(t, slot.end)
    else !(AtOrBefore(slot.end, t) && Before(t, slot.start))
  }

  /** Membership measured as a clock-face arc: `t` is in the slot when the
      minutes from the start to `t`, going forward round midnight, are fewer
      than the minutes from the start to the end. */
  lemma ContainsIsArc(slot: TimeSlot, t: Time)
    requires ValidTime(slot.start) && ValidTime(slot.end) && ValidTime(t)
    ensures Contains(slot, AtTime(t)) ==
            Success((Minutes(t) - Minutes(slot.start)) % 1440 < (Minutes(slot.end) - Minutes(slot.start)) % 1440)
  {
    var s, e, x := Minutes(slot.start), Minutes(slot.end), Minutes(t);
    BeforeIsMinutes(slot.start, slot.end);
    BeforeIsMinutes(slot.start, t);
    BeforeIsMinutes(t, slot.end);
    BeforeIsMinutes(slot.end, t);
    BeforeIsMinutes(t, slot.start);
    ArcOfMinutes(s, e, x);
    if slot.start == slot.end {
      assert (e - s) % 1440 == 0;
    } else {
      assert InSlot(slot, t) == if s < e then s <= x < e else !(e <= x < s);
    }
  }

  /** The forward distance round the clock, for minute counts within a day. */
  lemma ArcOfMinutes(s: int, e: int, x: int)
    requires 0 <= s < 1440 && 0 <= e < 1440 && 0 <= x < 1440
    ensures (x - s) % 1440 == if s <= x then x - s else x - s + 1440
    ensures (e - s) % 1440 == if s <= e then e - s else e - s + 1440
  {
  }

  /** A slot and the slot with its ends swapped split the day between them:
      every time is in exactly one of the two. */
  lemma ContainsComplement(slot: TimeSlot, t: Time)
    requires ValidTime(slot.start) && ValidTime(slot.end) && ValidTime(t)
    requires slot.start != slot.end
    ensures Contains(slot, AtTime(t)).Success? && Contains(TimeSlot(slot.end, slot.start), AtTime(t)).Success?
    ensures Contains(slot, AtTime(t)).value <==> !Contains(TimeSlot(slot.end, slot.start), AtTime(t)).value
  {
    BeforeIsMinutes(slot.start, slot.end);
    BeforeIsMinutes(slot.end, slot.start);
    BeforeIsMinutes(slot.start, t);
    BeforeIsMinutes(t, slot.end);
    BeforeIsMinutes(slot.end, t);
    BeforeIsMinutes(t, slot.start);
  }

  /** A non-empty slot contains its start and not its end. */
  lemma ContainsEnds(slot: TimeSlot)
    requires ValidTime(slot.start) && ValidTime(slot.end) && slot.start != slot.end
    ensures Contains(slot, AtTime(slot.start)) == Success(true)
    ensures Contains(slot, AtTime(slot.end)) == Success(false)
  {
    BeforeIsMinutes(slot.start, slot.end);
    BeforeIsMinutes(slot.end, slot.start);
  }

  /** An integer probe is the time it encodes; one that encodes no valid
      time raises `ValueError` (unless the slot is empty). */
  lemma ContainsInt(slot: TimeSlot, hour: int, minute: int)
    requires slot.start != slot.end
    ensures 0 <= hour < 24 && 0 <= minute < 60 ==>
              Contains(slot, AtInt(100 * hour + minute)) == Contains(slot, AtTime(Time(hour, minute)))
    ensures !(0 <= hour < 24) && 0 <= minute < 60 ==>
              Contains(slot, AtInt(100 * hour + minute)) == Failure(ValueError)
  {
    if 0 <= minute < 60 {
      DivModUnique(100 * hour + minute, hour, minute);
    }
  }

  /** Constructing a member of an integer enumeration from a raw register
      value: an unlisted value yields the `UNKNOWN` member instead of an
      error. Members are represented by their values. */
  function EnumLookup(members: set<int>, unknown: int, v: int): int {
    if v in members then v else unknown
  }

  /** The lookup never fails, always yields a member, keeps every listed
      value and maps every unlisted value to `UNKNOWN`. */
  lemma EnumLookupTotal(members: set<int>, unknown: int, v: int)
    requires unknown in members
    ensures EnumLookup(members, unknown, v) in members
    ensures v in members <==> EnumLookup(members, unknown, v) == v
    ensures v !in members ==> EnumLookup(members, unknown, v) == unknown
    ensures EnumLookup(members, unknown, EnumLookup(members, unknown, v)) == EnumLookup(members, unknown, v)
  {
  }
}
