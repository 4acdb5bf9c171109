/** The register cache: the most recent value of each register of one
    device, where a register never seen reads as 0. Also the key parser
    that rebuilds a cache from the key/value pairs of its JSON form. */
module RegisterCaches {
  import opened Wrappers
  import opened Decimal
  import opened Exceptions
  import opened Registers

  type RegisterCache = map<Register, int>

  /** `RegisterCache(registers)`: a copy of the given entries, or empty. */
  function NewCache(registers: Option<map<Register, int>>): (c: RegisterCache)
    ensures registers.None? ==> c == map[]
    ensures registers.Some? ==> c == registers.value
  {
    match registers
    case None => map[]
    case Some(m) => m
  }

  /** `cache[r]`: the stored value, or the default 0. (Reading also stores
      the default; the getter models that insertion.) */
  function Read(c: RegisterCache, r: Register): (v: int)
    ensures r in c ==> v == c[r]
    ensures r !in c ==> v == 0
  {
    if r in c then c[r] else 0
  }

  /** Storing the default for a missing register changes no read. */
  lemma ReadAfterDefault(c: RegisterCache, r: Register, q: Register)
    ensures Read(if r in c then c else c[r := 0], q) == Read(c, q)
  {
  }

  // ---------------------------------------------------------------------
  // JSON keys

  /** `s.find(c)`: the first position of `c`, or -1. */
  function Find(s: string, c: char): (k: int)
    ensures -1 <= k < |s|
    ensures k >= 0 ==> s[k] == c && forall i :: 0 <= i < k ==> s[i] != c
    ensures k == -1 ==> c !in s
  {
    if s == [] then -1
    else if s[0] == c then 0
    else
      var k := Find(s[1..], c);
      if k == -1 then -1 else k + 1
  }

  /** Python's `s[:-1]`. */
  function DropLast(s: string): string {
    if s == [] then [] else s[..|s| - 1]
  }

  /** The register type named by a key prefix (`lookup[reg]`); any other
      prefix is a `KeyError`. */
  function TypeOfTag(tag: string): Result<RegType, Exception> {
    if tag == "HR" then Success(HR)
    else if tag == "IR" then Success(IR)
    else Failure(KeyError)
  }

  /** One key of the object hook: `TYPE(idx)` or `TYPE:idx`, where the
      separator must not be the first character. The outcome is the
      register, `None` for a key that is silently skipped (its index is not
      an integer), or the exception that escapes: `ValueError` for a key
      with neither separator, `KeyError` for an unknown type. */
  function ParseKey(k: string): (r: Result<Option<Register>, Exception>)
    ensures r == Failure(ValueError) <==> Find(k, '(') <= 0 && Find(k, ':') <= 0
    ensures r.Failure? ==> r.error == ValueError || r.error == KeyError
  {
    var p := Find(k, '(');
    var q := Find(k, ':');
    if p > 0 then ParseParts(k[..p], DropLast(k[p + 1..]))
    else if q > 0 then ParseParts(k[..q], k[q + 1..])
    else Failure(ValueError)
  }

  /** `lookup[reg](int(idx))`: the type is looked up before the index is
      parsed, and only the index's `ValueError` is caught. */
  function ParseParts(tag: string, idx: string): Result<Option<Register>, Exception> {
    var kind :- TypeOfTag(tag);
    match ParseInt(idx)
    case None => Success(None)
    case Some(i) => Success(Some(Register(kind, i)))
  }

  lemma TypeOfTagTag(k: RegType)
    ensures TypeOfTag(TypeTag(k)) == Success(k)
  {
  }

  /** The parenthesised key form reads back the register it was written
      from. */
  lemma ParseKeyParen(r: Register)
    ensures ParseKey(TypeTag(r.kind) + "(" + IntToString(r.idx) + ")") == Success(Some(r))
  {
    var t, n := TypeTag(r.kind), IntToString(r.idx);
    var k := t + "(" + n + ")";
    assert k[0] != '(' && k[1] != '(' && k[2] == '(';
    assert Find(k, '(') == 2;
    assert k[..2] == t;
    assert k[3..] == n + ")";
    assert DropLast(n + ")") == n;
    ParseIntToString(r.idx);
    TypeOfTagTag(r.kind);
  }

  /** So does the colon form. */
  lemma ParseKeyColon(r: Register)
    ensures ParseKey(TypeTag(r.kind) + ":" + IntToString(r.idx)) == Success(Some(r))
  {
    var t, n := TypeTag(r.kind), IntToString(r.idx);
    var k := t + ":" + n;
    IntToStringChars(r.idx);
    assert '(' !in k by {
      forall i | 0 <= i < |k| ensures k[i] != '(' {
        if i >= 3 { assert k[i] == n[i - 3]; }
      }
    }
    assert k[0] != ':' && k[1] != ':' && k[2] == ':';
    assert Find(k, ':') == 2;
    assert k[..2] == t;
    assert k[3..] == n;
    ParseIntToString(r.idx);
    TypeOfTagTag(r.kind);
  }

  /** A key whose separator is missing, or only at the very start, raises
      `ValueError`; the `TYPE_idx` form of `str(register)` is one such key. */
  lemma ParseKeyRejects(k: string, r: Register)
    ensures Find(k, '(') <= 0 && Find(k, ':') <= 0 ==> ParseKey(k) == Failure(ValueError)
    ensures ParseKey(RegisterName(r)) == Failure(ValueError)
  {
    var n := RegisterName(r);
    var d := IntToString(r.idx);
    IntToStringChars(r.idx);
    assert forall i :: 0 <= i < |n| ==> n[i] != '(' && n[i] != ':' by {
      forall i | 0 <= i < |n| ensures n[i] != '(' && n[i] != ':' {
        if i >= 3 { assert n[i] == d[i - 3]; }
      }
    }
  }

  /** An index that is not an integer drops the entry, while an unknown
      type escapes as `KeyError` whatever the index. */
  lemma ParseKeyIndexErrors(tag: string, idx: string)
    requires tag == "HR" || tag == "IR"
    requires ParseInt(idx).None? && '(' !in idx
    ensures ParseKey(tag + ":" + idx) == Success(None)
    ensures ParseKey("XR" + ":" + idx) == Failure(KeyError)
  {
    ColonKey(tag, idx);
    assert TypeOfTag(tag).Success?;
    assert ParseParts(tag, idx) == Success(None);
    UnknownTag(idx);
  }

  lemma UnknownTag(idx: string)
    requires '(' !in idx
    ensures ParseKey("XR" + ":" + idx) == Failure(KeyError)
  {
    ColonKey("XR", idx);
    assert "XR"[0] != "HR"[0] && "XR"[0] != "IR"[0];
    assert TypeOfTag("XR") == Failure(KeyError);
  }

  lemma ColonKey(tag: string, idx: string)
    requires |tag| == 2 && tag[0] != '(' && tag[1] != '(' && tag[0] != ':' && tag[1] != ':'
    requires '(' !in idx
    ensures ParseKey(tag + ":" + idx) == ParseParts(tag, idx)
  {
    var k := tag + ":" + idx;
    assert '(' !in k by {
      forall i | 0 <= i < |k| ensures k[i] != '(' {
        if i >= 3 { assert k[i] == idx[i - 3]; }
      }
    }
    assert k[2] == ':';
    assert Find(k, ':') == 2;
    assert k[..2] == tag && k[3..] == idx;
  }

  /** What a key parser makes of one key. */
  type KeyParser = string -> Result<Option<Register>, Exception>

  /** The object hook over the items of one JSON object, in order, for a
      given key parser: each parsed key is stored (a later key naming the
      same register wins), skipped keys are dropped, and the first escaping
      exception ends the whole parse. */
  function Collect(parse: KeyParser, items: seq<(string, int)>): Result<map<Register, int>, Exception> {
    if items == [] then Success(map[])
    else
      var acc :- Collect(parse, items[..|items| - 1]);
      var (k, v) := items[|items| - 1];
      var key :- parse(k);
      match key
      case None => Success(acc)
      case Some(r) => Success(acc[r := v])
  }

  /** `register_object_hook`. */
  function Hook(items: seq<(string, int)>): Result<map<Register, int>, Exception> {
    Collect(ParseKey, items)
  }

  /** `register_object_hook`, as the loop that builds `ret`. */
  method ObjectHook(items: seq<(string, int)>) returns (r: Result<map<Register, int>, Exception>)
    ensures r == Hook(items)
  {
    var ret: map<Register, int> := map[];
    var i := 0;
    while i < |items|
      invariant 0 <= i <= |items|
      invariant Collect(ParseKey, items[..i]) == Success(ret)
    {
      var (k, v) := items[i];
      assert items[..i + 1][..i] == items[..i];
      var key := ParseKey(k);
      if key.Failure? {
        r := Failure(key.error);
        FailureStays(ParseKey, items, i + 1);
        assert items[..|items|] == items;
        return;
      }
      if key.value.Some? {
        ret := ret[key.value.value := v];
      }
      i := i + 1;
    }
    assert items[..i] == items;
    r := Success(ret);
  }

  /** Once a prefix fails, every longer prefix fails with the same
      exception. */
  lemma {:induction false} FailureStays(parse: KeyParser, items: seq<(string, int)>, n: nat)
    requires 0 < n <= |items| && Collect(parse, items[..n]).Failure?
    ensures forall m :: n <= m <= |items| ==> Collect(parse, items[..m]) == Collect(parse, items[..n])
  {
    forall m | n <= m <= |items| ensures Collect(parse, items[..m]) == Collect(parse, items[..n]) {
      FailureStaysFrom(parse, items, n, m);
    }
  }

  lemma {:induction false} FailureStaysFrom(parse: KeyParser, items: seq<(string, int)>, n: nat, m: nat)
    requires 0 < n <= m <= |items| && Collect(parse, items[..n]).Failure?
    ensures Collect(parse, items[..m]) == Collect(parse, items[..n])
    decreases m - n
  {
    if m > n {
      FailureStaysFrom(parse, items, n, m - 1);
      assert items[..m][..m - 1] == items[..m - 1];
    }
  }

  /** The collection succeeds exactly when no key raises. */
  lemma {:induction false} CollectSucceeds(parse: KeyParser, items: seq<(string, int)>)
    ensures Collect(parse, items).Success? <==> forall i :: 0 <= i < |items| ==> parse(items[i].0).Success?
  {
    if items != [] {
      var n := |items| - 1;
      CollectSucceeds(parse, items[..n]);
      assert forall i :: 0 <= i < n ==> items[..n][i] == items[i];
    }
  }

  /** The key `items[i]` names register `r`. */
  predicate Names(parse: KeyParser, items: seq<(string, int)>, i: int, r: Register) {
    0 <= i < |items| && parse(items[i].0) == Success(Some(r))
  }

  /** When it succeeds, the collection holds exactly the registers that some
      key names, each with the value of the last key naming it. */
  lemma {:induction false} CollectEntries(parse: KeyParser, items: seq<(string, int)>)
    requires Collect(parse, items).Success?
    ensures forall r :: r in Collect(parse, items).value <==> exists i :: Names(parse, items, i, r)
    ensures forall r :: r in Collect(parse, items).value ==>
              exists i :: Names(parse, items, i, r) && Collect(parse, items).value[r] == items[i].1 &&
                forall j :: i < j < |items| ==> !Names(parse, items, j, r)
  {
    if items != [] {
      var n := |items| - 1;
      var front := items[..n];
      var acc := Collect(parse, front).value;
      var key := parse(items[n].0).value;
      var m := Collect(parse, items).value;
      CollectEntries(parse, front);
      assert m == if key.Some? then acc[key.value := items[n].1] else acc;
      forall r ensures r in m <==> exists i :: Names(parse, items, i, r) {
        if r in m {
          if key != Some(r) {
            var i :| Names(parse, front, i, r);
            assert front[i] == items[i];
            assert Names(parse, items, i, r);
          } else {
            assert Names(parse, items, n, r);
          }
        }
        if exists i :: Names(parse, items, i, r) {
          var i :| Names(parse, items, i, r);
          if i < n {
            assert front[i] == items[i];
            assert Names(parse, front, i, r);
          }
        }
      }
      forall r | r in m
        ensures exists i :: Names(parse, items, i, r) && m[r] == items[i].1 &&
                  forall j :: i < j < |items| ==> !Names(parse, items, j, r)
      {
        if key == Some(r) {
          assert Names(parse, items, n, r);
        } else {
          var i :| Names(parse, front, i, r) && acc[r] == front[i].1 &&
                   forall j :: i < j < |front| ==> !Names(parse, front, j, r);
          assert front[i] == items[i];
          forall j | i < j < |items| ensures !Names(parse, items, j, r) {
            if j < n {
              assert front[j] == items[j];
              assert !Names(parse, front, j, r);
            }
          }
          assert Names(parse, items, i, r);
        }
      }
    }
  }

  /** The hook succeeds exactly when no key raises, and then holds exactly
      the registers named by keys, each with the value of the last key
      naming it. */
  lemma HookContents(items: seq<(string, int)>)
    ensures Hook(items).Success? <==> forall i :: 0 <= i < |items| ==> ParseKey(items[i].0).Success?
    ensures Hook(items).Success? ==>
              forall r :: r in Hook(items).value ==>
                exists i :: Names(ParseKey, items, i, r) && Hook(items).value[r] == items[i].1 &&
                  forall j :: i < j < |items| ==> !Names(ParseKey, items, j, r)
    ensures Hook(items).Success? ==>
              forall r :: r in Hook(items).value <==> exists i :: Names(ParseKey, items, i, r)
  {
    CollectSucceeds(ParseKey, items);
    if Hook(items).Success? {
      CollectEntries(ParseKey, items);
    }
  }

  /** `RegisterCache.from_json` on an already-parsed object. */
  function FromItems(items: seq<(string, int)>): (c: Result<RegisterCache, Exception>)
    ensures c.Success? <==> forall i :: 0 <= i < |items| ==> ParseKey(items[i].0).Success?
    ensures c.Success? ==> forall r :: r in c.value <==> exists i :: Names(ParseKey, items, i, r)
  {
    HookContents(items);
    var m :- Hook(items);
    Success(NewCache(Some(m)))
  }
}
