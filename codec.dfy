/** Fixed-width byte codec used by the PDU layer: big-endian unsigned
    integers of 1, 2 and 8 bytes, one little-endian 16-bit word (the CRC),
    and fixed-length strings stored one byte per character.

    The encoder appends to a growing payload; the decoder owns the frame and
    a cursor that each read advances. A read past the end of the frame
    fails instead of returning a value. */
module Codec {
  import opened Wrappers

  type Byte = b: int | 0 <= b < 256

  /** An unsigned 16-bit value, such as a CRC. */
  type Word = w: int | 0 <= w < 0x1_0000

  function Pow256(n: nat): (p: nat)
    ensures p >= 1
  {
    if n == 0 then 1 else 256 * Pow256(n - 1)
  }

  /** The `n`-byte big-endian encoding of `v`. */
  function BE(v: nat, n: nat): (r: seq<Byte>)
    requires v < Pow256(n)
    ensures |r| == n
  {
    if n == 0 then [] else BE(v / 256, n - 1) + [v % 256]
  }

  /** The number a big-endian byte string denotes. */
  function UnBE(bs: seq<Byte>): nat {
    if bs == [] then 0 else UnBE(bs[..|bs| - 1]) * 256 + bs[|bs| - 1]
  }

  /** A 16-bit word, least significant byte first. */
  function LE16(v: nat): (r: seq<Byte>)
    requires v < 0x1_0000
    ensures |r| == 2 && UnBE(r) == SwapBytes16(v)
  {
    var r: seq<Byte> := [v % 256, v / 256];
    assert r[..1] == [v % 256] && r[..1][..0] == [];
    assert UnBE(r[..1]) == v % 256;
    r
  }

  /** The word obtained by reading a little-endian word as big-endian. */
  function SwapBytes16(v: nat): nat {
    (v % 256) * 256 + v / 256
  }

  /** A little-endian word is the big-endian encoding of the swapped word. */
  lemma LE16AsBE(v: nat)
    requires v < 0x1_0000
    ensures LE16(v) == BE(SwapBytes16(v), 2)
  {
    var w := SwapBytes16(v);
    assert w / 256 == v % 256 && w % 256 == v / 256;
    assert BE(w, 2) == BE(w / 256, 1) + [w % 256];
    assert BE(w / 256, 1) == BE(w / 256 / 256, 0) + [(w / 256) % 256];
  }

  predicate OneByteChars(s: string) {
    forall i :: 0 <= i < |s| ==> s[i] as int < 256
  }

  /** A string stored one byte per character. */
  function StringBytes(s: string): (r: seq<Byte>)
    requires OneByteChars(s)
    ensures |r| == |s|
  {
    seq(|s|, i requires 0 <= i < |s| => s[i] as int)
  }

  function BytesString(bs: seq<Byte>): (s: string)
    ensures |s| == |bs| && OneByteChars(s)
  {
    seq(|bs|, i requires 0 <= i < |bs| => bs[i] as char)
  }

  /** A value read off the front of a byte string, with what follows it. */
  datatype Got<+T> = Got(v: T, rest: seq<Byte>)

  function ReadUInt(s: seq<Byte>, n: nat): (r: Option<Got<nat>>)
    ensures r.Some? ==> r.value.v < Pow256(n)
  {
    if |s| < n then None
    else
      UnBEBound(s[..n]);
      Some(Got(UnBE(s[..n]), s[n..]))
  }

  function ReadString(s: seq<Byte>, n: nat): Option<Got<string>> {
    if |s| < n then None else Some(Got(BytesString(s[..n]), s[n..]))
  }

  lemma {:induction false} UnBEBound(bs: seq<Byte>)
    ensures UnBE(bs) < Pow256(|bs|)
  {
    if bs != [] {
      UnBEBound(bs[..|bs| - 1]);
    }
  }

  /** Big-endian encoding and decoding are inverse. */
  lemma {:induction false} UnBEOfBE(v: nat, n: nat)
    requires v < Pow256(n)
    ensures UnBE(BE(v, n)) == v
  {
    if n > 0 {
      var r := BE(v, n);
      assert r[..n - 1] == BE(v / 256, n - 1);
      UnBEOfBE(v / 256, n - 1);
    }
  }

  /** Reading `n` bytes back from the front of an encoding. */
  lemma ReadUIntOfBE(v: nat, n: nat, rest: seq<Byte>)
    requires v < Pow256(n)
    ensures ReadUInt(BE(v, n) + rest, n) == Some(Got(v, rest))
  {
    assert (BE(v, n) + rest)[..n] == BE(v, n);
    assert (BE(v, n) + rest)[n..] == rest;
    UnBEOfBE(v, n);
  }

  lemma ReadStringOfBytes(s: string, rest: seq<Byte>)
    requires OneByteChars(s)
    ensures ReadString(StringBytes(s) + rest, |s|) == Some(Got(s, rest))
  {
    var n := |s|;
    assert (StringBytes(s) + rest)[..n] == StringBytes(s);
    assert (StringBytes(s) + rest)[n..] == rest;
    assert BytesString(StringBytes(s)) == s;
  }

  /** The growing payload of a message under construction. */
  class Encoder {
    var payload: seq<Byte>

    constructor ()
      ensures payload == []
    {
      payload := [];
    }

    method AddUInt(v: nat, n: nat)
      requires v < Pow256(n)
      modifies this
      ensures payload == old(payload) + BE(v, n)
    {
      payload := payload + BE(v, n);
    }

    method AddLE16(v: nat)
      requires v < 0x1_0000
      modifies this
      ensures payload == old(payload) + LE16(v)
    {
      payload := payload + LE16(v);
    }

    /** A string of exactly `n` characters. */
    method AddString(s: string, n: nat)
      requires |s| == n && OneByteChars(s)
      modifies this
      ensures payload == old(payload) + StringBytes(s)
    {
      payload := payload + StringBytes(s);
    }

    method Append(bs: seq<Byte>)
      modifies this
      ensures payload == old(payload) + bs
    {
      payload := payload + bs;
    }
  }

  /** A cursor over a received frame. */
  class Decoder {
    const data: seq<Byte>
    var pos: nat

    ghost predicate Valid()
      reads this
    {
      pos <= |data|
    }

    /** The bytes not yet consumed. */
    function Remaining(): seq<Byte>
      reads this
      requires Valid()
    {
      data[pos..]
    }

    constructor (frame: seq<Byte>)
      ensures Valid() && data == frame && pos == 0
    {
      data := frame;
      pos := 0;
    }

    method UInt(n: nat) returns (r: Option<nat>)
      requires Valid()
      modifies this
      ensures Valid()
      ensures ReadUInt(old(Remaining()), n).None? ==> r.None?
      ensures ReadUInt(old(Remaining()), n).Some? ==>
                r == Some(ReadUInt(old(Remaining()), n).value.v) &&
                Remaining() == ReadUInt(old(Remaining()), n).value.rest
    {
      if |data| - pos < n {
        r := None;
      } else {
        r := Some(UnBE(data[pos..pos + n]));
        assert data[pos..][..n] == data[pos..pos + n];
        pos := pos + n;
      }
    }

    method String(n: nat) returns (r: Option<string>)
      requires Valid()
      modifies this
      ensures Valid()
      ensures ReadString(old(Remaining()), n).None? ==> r.None?
      ensures ReadString(old(Remaining()), n).Some? ==>
                r == Some(ReadString(old(Remaining()), n).value.v) &&
                Remaining() == ReadString(old(Remaining()), n).value.rest
    {
      if |data| - pos < n {
        r := None;
      } else {
        r := Some(BytesString(data[pos..pos + n]));
        assert data[pos..][..n] == data[pos..pos + n];
        pos := pos + n;
      }
    }
  }
}
