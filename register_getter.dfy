/** The register getter: a device view that answers a named attribute by
    reading the registers its definition lists from the device's cache and
    applying the definition's conversions. */
module RegisterGetters {
  import opened Wrappers
  import opened Exceptions
  import opened Registers
  import opened RegisterCaches

  /** The values read for a list of registers, in order. */
  function ReadAll(c: RegisterCache, regs: seq<Register>): (vals: seq<int>)
    ensures |vals| == |regs|
    ensures forall i :: 0 <= i < |regs| ==> vals[i] == Read(c, regs[i])
  {
    seq(|regs|, i requires 0 <= i < |regs| => Read(c, regs[i]))
  }

  /** The cache after reading a list of registers: every one that was
      missing now holds the default 0. */
  function WithDefaults(c: RegisterCache, regs: seq<Register>): RegisterCache {
    map q | q in c.Keys + (set r | r in regs) :: Read(c, q)
  }

  /** Filling in defaults keeps every stored entry, adds only the registers
      read, and changes no value that a read returns. */
  lemma WithDefaultsReads(c: RegisterCache, regs: seq<Register>)
    ensures WithDefaults(c, regs).Keys == c.Keys + (set r | r in regs)
    ensures forall q :: q in c ==> WithDefaults(c, regs)[q] == c[q]
    ensures forall q :: Read(WithDefaults(c, regs), q) == Read(c, q)
  {
  }

  /** Reading one more register: its value is the stored one or 0, and a
      missing one is added with 0. */
  lemma ReadOneMore(c: RegisterCache, regs: seq<Register>, reg: Register)
    ensures ReadAll(c, regs + [reg]) == ReadAll(c, regs) + [Read(c, reg)]
    ensures var d := WithDefaults(c, regs);
            WithDefaults(c, regs + [reg]) == if reg in d then d else d[reg := 0]
  {
    var d := WithDefaults(c, regs);
    var e := if reg in d then d else d[reg := 0];
    WithDefaultsReads(c, regs);
    WithDefaultsReads(c, regs + [reg]);
    assert (set r | r in regs + [reg]) == (set r | r in regs) + {reg};
    assert WithDefaults(c, regs + [reg]).Keys == e.Keys;
    forall q | q in e
      ensures WithDefaults(c, regs + [reg])[q] == e[q]
    {
      assert Read(WithDefaults(c, regs + [reg]), q) == Read(d, q);
    }
  }

  class RegisterGetter {
    /** `REGISTER_LUT`: the definition of each attribute name. */
    const lut: map<string, RegisterDefinition>
    var cache: RegisterCache

    constructor (lut: map<string, RegisterDefinition>, cache: RegisterCache)
      ensures this.lut == lut && this.cache == cache
    {
      this.lut := lut;
      this.cache := cache;
    }

    /** `get(key, default)`: the default for a name without a definition;
        otherwise the definition's recipe applied to the values of its
        registers. Reading a missing register stores 0 for it. */
    method Get(key: string, default: Value) returns (r: Result<Value, Exception>)
      modifies this
      ensures key !in lut ==> r == Success(default) && cache == old(cache)
      ensures key in lut ==>
                r == Recipe(lut[key], ReadAll(old(cache), lut[key].registers)) &&
                cache == WithDefaults(old(cache), lut[key].registers)
    {
      if key !in lut {
        return Success(default);
      }
      var def := lut[key];
      var regs := def.registers;
      var vals: seq<int> := [];
      var i := 0;
      while i < |regs|
        invariant 0 <= i <= |regs|
        invariant vals == ReadAll(old(cache), regs[..i])
        invariant cache == WithDefaults(old(cache), regs[..i])
      {
        var reg := regs[i];
        WithDefaultsReads(old(cache), regs[..i]);
        ReadOneMore(old(cache), regs[..i], reg);
        if reg !in cache {
          cache := cache[reg := 0];
        }
        vals := vals + [cache[reg]];
        assert regs[..i + 1] == regs[..i] + [reg];
        i := i + 1;
      }
      assert regs[..i] == regs;
      r := Recipe(def, vals);
    }
  }
}
