/** Little-endian fields inside a byte buffer, and the add-in-place operation
    that relocations are made of. */
module Bytes {
  import opened Common

  type byte = n: nat | n < 256

  /** 256 to the power w: the number of values a w-byte field can hold. */
  function Modulus(w: nat): (m: nat)
    ensures m > 0
  {
    if w == 0 then 1 else 256 * Modulus(w - 1)
  }

  lemma ModulusValues()
    ensures Modulus(2) == 0x1_0000 && Modulus(4) == 0x1_0000_0000
    ensures Modulus(8) == 0x1_0000_0000_0000_0000
  {
    assert Modulus(2) == 256 * Modulus(1) == 0x1_0000;
    assert Modulus(4) == 256 * Modulus(3) == 256 * (256 * Modulus(2));
    assert Modulus(6) == 256 * Modulus(5) == 256 * (256 * Modulus(4));
    assert Modulus(8) == 256 * Modulus(7) == 256 * (256 * Modulus(6));
  }

  /** The w low-order bytes of v, least significant first. */
  function Encode(v: nat, w: nat): (s: seq<byte>)
    ensures |s| == w
  {
    if w == 0 then [] else [v % 256] + Encode(v / 256, w - 1)
  }

  function Decode(s: seq<byte>): (v: nat)
    ensures v < Modulus(|s|)
  {
    if s == [] then 0 else s[0] + 256 * Decode(s[1..])
  }

  /** A two-byte and a four-byte field, written out. */
  lemma SmallFields(v: nat)
    ensures Encode(v, 2) == [v % 256, v / 256 % 256]
    ensures Encode(v, 4) == [v % 256, v / 256 % 256, v / 256 / 256 % 256, v / 256 / 256 / 256 % 256]
  {
    assert Encode(v, 1) == [v % 256] by { OneByte(v); }
    assert Encode(v / 256, 1) == [v / 256 % 256] by { OneByte(v / 256); }
    var u := v / 256 / 256;
    assert Encode(u, 1) == [u % 256] && Encode(u / 256, 1) == [u / 256 % 256] by { OneByte(u); OneByte(u / 256); }
    assert Encode(u, 2) == [u % 256] + Encode(u / 256, 1);
    assert Encode(v / 256, 3) == [v / 256 % 256] + Encode(u, 2);
    assert Encode(v, 4) == [v % 256] + Encode(v / 256, 3);
  }

  lemma OneByte(v: nat)
    ensures Encode(v, 1) == [v % 256]
  {
    assert Encode(v / 256, 0) == [];
  }

  lemma {:induction false} DecodeEncode(v: nat, w: nat)
    requires v < Modulus(w)
    ensures Decode(Encode(v, w)) == v
  {
    if w > 0 {
      DecodeEncode(v / 256, w - 1);
      assert Encode(v, w)[1..] == Encode(v / 256, w - 1);
    }
  }

  lemma LowByte(b: byte, rest: nat)
    ensures (b + 256 * rest) % 256 == b && (b + 256 * rest) / 256 == rest
  {
  }

  lemma {:induction false} EncodeDecode(s: seq<byte>)
    ensures Encode(Decode(s), |s|) == s
  {
    if s != [] {
      EncodeDecode(s[1..]);
      LowByte(s[0], Decode(s[1..]));
      assert s == [s[0]] + s[1..];
    }
  }

  lemma DecodeInjective(s: seq<byte>, t: seq<byte>)
    requires |s| == |t| && Decode(s) == Decode(t)
    ensures s == t
  {
    EncodeDecode(s);
    EncodeDecode(t);
  }

  /** The value of the w-byte field at offset loc. */
  function Read(buf: seq<byte>, loc: nat, w: nat): (v: nat)
    requires loc + w <= |buf|
  {
    Decode(buf[loc..loc + w])
  }

  lemma ReadIsSmall(buf: seq<byte>, loc: nat, w: nat)
    requires loc + w <= |buf|
    ensures Read(buf, loc, w) < Modulus(w)
  {
    assert |buf[loc..loc + w]| == w;
  }

  function Write(buf: seq<byte>, loc: nat, w: nat, v: nat): (r: seq<byte>)
    requires loc + w <= |buf|
    ensures |r| == |buf|
    ensures forall i :: 0 <= i < |buf| && !(loc <= i < loc + w) ==> r[i] == buf[i]
  {
    buf[..loc] + Encode(v, w) + buf[loc + w..]
  }

  /** add16, add32 and add64: the field wraps around at its own width, whatever
      the sign or the size of the addend. */
  function Add(buf: seq<byte>, loc: nat, w: nat, addend: int): (r: seq<byte>)
    requires loc + w <= |buf|
    ensures |r| == |buf|
    ensures forall i :: 0 <= i < |buf| && !(loc <= i < loc + w) ==> r[i] == buf[i]
  {
    Write(buf, loc, w, (Read(buf, loc, w) + addend) % Modulus(w))
  }

  lemma ReadWrite(buf: seq<byte>, loc: nat, w: nat, v: nat)
    requires loc + w <= |buf| && v < Modulus(w)
    ensures Read(Write(buf, loc, w, v), loc, w) == v
  {
    var r := Write(buf, loc, w, v);
    assert r[loc..loc + w] == Encode(v, w);
    DecodeEncode(v, w);
  }

  lemma ReadAdd(buf: seq<byte>, loc: nat, w: nat, addend: int)
    requires loc + w <= |buf|
    ensures Read(Add(buf, loc, w, addend), loc, w) == (Read(buf, loc, w) + addend) % Modulus(w)
  {
    ReadWrite(buf, loc, w, (Read(buf, loc, w) + addend) % Modulus(w));
  }

  /** Bytes outside the field are untouched, so a disjoint field keeps its value. */
  lemma ReadAddElsewhere(buf: seq<byte>, loc: nat, w: nat, addend: int, loc': nat, w': nat)
    requires loc + w <= |buf| && loc' + w' <= |buf|
    requires loc + w <= loc' || loc' + w' <= loc
    ensures Read(Add(buf, loc, w, addend), loc', w') == Read(buf, loc', w')
  {
    assert Add(buf, loc, w, addend)[loc'..loc' + w'] == buf[loc'..loc' + w'];
  }

  lemma AddZero(buf: seq<byte>, loc: nat, w: nat)
    requires loc + w <= |buf|
    ensures Add(buf, loc, w, 0) == buf
  {
    EncodeDecode(buf[loc..loc + w]);
    var v := Read(buf, loc, w);
    assert v % Modulus(w) == v by { ModSmall(v, Modulus(w)); }
    assert buf == buf[..loc] + buf[loc..loc + w] + buf[loc + w..];
  }
}
