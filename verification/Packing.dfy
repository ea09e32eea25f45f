/** Little-endian fields and strings inside byte buffers, shared by the decoders. */
module Packing {
  import opened Digits

  type Bytes = seq<byte>

  const TWO_32: nat := 0x1_0000_0000
  const TWO_64: nat := 0x1_0000_0000_0000_0000

  function Least(a: nat, b: nat): nat { if a < b then a else b }

  // ---------- machine words ----------

  const INT_MAX: int := 0x7FFF_FFFF

  /** The longest text that fits with its terminator into an object; sizes of objects stay below 2^31. */
  const MAX_TEXT: nat := INT_MAX - 1

  predicate IsInt(n: int) { -INT_MAX - 1 <= n <= INT_MAX }

  /** A number in a 32-bit size_t, and in an int. */
  function SizeT(n: int): (r: nat)
    ensures r < TWO_32
  {
    n % TWO_32
  }

  function Int32(n: int): (r: int)
    ensures IsInt(r)
  {
    if SizeT(n) <= INT_MAX then SizeT(n) else SizeT(n) - TWO_32
  }

  lemma InRange(n: int)
    requires IsInt(n)
    ensures Int32(n) == n
  {
  }

  // ---------- fields ----------

  function Clip(s: Bytes, n: nat): Bytes {
    if |s| <= n then s else s[..n]
  }

  lemma Widths()
    ensures Pow(256, 2) == 0x1_0000 && Pow(256, 4) == TWO_32 && Pow(256, 8) == TWO_64
  {
    assert Pow(256, 4) == Pow(256, 2) * 256 * 256;
    assert Pow(256, 6) == Pow(256, 4) * 256 * 256;
  }

  /** A piece of data stands at a position. */
  predicate At(data: Bytes, at: nat, piece: Bytes) {
    at + |piece| <= |data| && data[at..at + |piece|] == piece
  }

  lemma AtSplit(data: Bytes, at: nat, a: Bytes, b: Bytes)
    requires At(data, at, a + b)
    ensures At(data, at, a) && At(data, at + |a|, b)
  {
    var whole := data[at..at + |a| + |b|];
    assert whole[..|a|] == a && whole[|a|..] == b;
  }

  lemma AtJoin(data: Bytes, at: nat, a: Bytes, b: Bytes)
    requires At(data, at, a) && At(data, at + |a|, b)
    ensures At(data, at, a + b)
  {
  }

  /** A field stands at a position exactly if its value is read there. */
  lemma FieldAt(data: Bytes, at: nat, v: nat, n: nat)
    ensures v < Pow(256, n) && At(data, at, Little(v, n)) <==> at + n <= |data| && LittleValue(data[at..at + n]) == v
  {
    if v < Pow(256, n) {
      LittleRoundTrip(v, n);
    }
    if at + n <= |data| {
      LittleBound(data[at..at + n]);
      LittleInverse(data[at..at + n]);
    }
  }

  /** Reading an integer byte by byte: every byte is put above the ones before it. */
  method ReadLittle(data: Bytes, offset: nat, n: nat) returns (value: nat)
    requires offset + n <= |data|
    ensures value == LittleValue(data[offset..offset + n])
  {
    value := 0;
    assert data[offset..offset] == [];
    var i: nat, weight: nat := 0, 1;
    while i < n
      invariant 0 <= i <= n && weight == Pow(256, i)
      invariant value == LittleValue(data[offset..offset + i])
    {
      LittleSnoc(data[offset..offset + i], data[offset + i]);
      assert data[offset..offset + i + 1] == data[offset..offset + i] + [data[offset + i]];
      value := value + data[offset + i] * weight;
      weight := weight * 256;
      i := i + 1;
    }
  }

  /** Writing an integer, least significant byte first, behind what is there already. */
  method PutLittle(dest: array<byte>, pos: nat, v: nat, n: nat)
    requires pos + n <= dest.Length
    modifies dest
    ensures dest[..pos + n] == old(dest[..pos]) + Little(v, n)
    ensures forall k :: pos + n <= k < dest.Length ==> dest[k] == old(dest[k])
  {
    var bytes := Little(v, n);
    forall i | 0 <= i < n { dest[pos + i] := bytes[i]; }
  }

  /** memcpy behind what is there already. */
  method PutBytes(dest: array<byte>, pos: nat, src: Bytes)
    requires pos + |src| <= dest.Length
    modifies dest
    ensures dest[..pos + |src|] == old(dest[..pos]) + src
    ensures forall k :: pos + |src| <= k < dest.Length ==> dest[k] == old(dest[k])
  {
    forall i | 0 <= i < |src| { dest[pos + i] := src[i]; }
  }
}
