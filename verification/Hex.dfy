/** bin2hex and hex2bin of components/stratum/utils.c. */
module Hex {
  import opened Digits

  type Bytes = seq<byte>

  /** hex_table: "0123456789abcdef" */
  function HexDigit(v: nat): byte
    requires v < 16
  {
    if v < 10 then '0' as int + v else 'a' as int + (v - 10)
  }

  /** hex_val_table: every code that is not a hexadecimal digit counts as 0. */
  function HexValue(c: byte): (v: nat)
    ensures v < 16
  {
    if '0' as int <= c <= '9' as int then c - '0' as int
    else if 'a' as int <= c <= 'f' as int then c - 'a' as int + 10
    else if 'A' as int <= c <= 'F' as int then c - 'A' as int + 10
    else 0
  }

  function HexOf(data: Bytes): (h: Bytes)
    ensures |h| == 2 * |data|
  {
    seq(2 * |data|, i requires 0 <= i < 2 * |data| => HexDigit(if i % 2 == 0 then data[i / 2] / 16 else data[i / 2] % 16))
  }

  /** Pairs of digits; a last lone digit is the high half of a byte. */
  function BinOf(hex: Bytes): (b: Bytes)
    ensures |b| == (|hex| + 1) / 2
    decreases |hex|
  {
    if hex == [] then []
    else if |hex| == 1 then [HexValue(hex[0]) * 16]
    else [HexValue(hex[0]) * 16 + HexValue(hex[1])] + BinOf(hex[2..])
  }

  lemma {:induction false} BinAt(hex: Bytes, i: nat)
    requires i < |BinOf(hex)|
    ensures BinOf(hex)[i] == HexValue(hex[2 * i]) * 16 + if 2 * i + 1 < |hex| then HexValue(hex[2 * i + 1]) else 0
    decreases i
  {
    if i > 0 {
      BinAt(hex[2..], i - 1);
      assert hex[2..][2 * (i - 1)] == hex[2 * i];
      assert BinOf(hex)[i] == BinOf(hex[2..])[i - 1];
    }
  }

  /** The digits written, and which codes count for more than 0. */
  lemma Codes(v: nat, c: byte)
    requires v < 16
    ensures HexDigit(v) == ("0123456789abcdef"[v]) as int && HexValue(HexDigit(v)) == v
    ensures 'A' as int <= c <= 'F' as int ==> HexValue(c) == HexValue(c + 32)
    ensures HexValue(c) > 0 ==>
      '1' as int <= c <= '9' as int || 'A' as int <= c <= 'F' as int || 'a' as int <= c <= 'f' as int
  {
  }

  /** Decoding an encoding gives the bytes back. */
  lemma BinOfHex(data: Bytes)
    ensures BinOf(HexOf(data)) == data
  {
    forall i | 0 <= i < |data|
      ensures BinOf(HexOf(data))[i] == data[i]
    {
      ByteAt(data, i);
    }
  }

  lemma ByteAt(data: Bytes, i: nat)
    requires i < |data|
    ensures BinOf(HexOf(data))[i] == data[i]
  {
    hide HexDigit, HexValue, BinOf;
    BinAt(HexOf(data), i);
    DigitValue(data[i] / 16);
    DigitValue(data[i] % 16);
  }

  lemma DigitValue(v: nat)
    requires v < 16
    ensures HexValue(HexDigit(v)) == v
  {
  }

  /** Texts of whole bytes decode piece by piece. */
  lemma {:induction false} BinConcat(a: Bytes, b: Bytes)
    requires |a| % 2 == 0
    ensures BinOf(a + b) == BinOf(a) + BinOf(b)
    decreases |a|
  {
    if a == [] {
      assert a + b == b;
    } else {
      assert (a + b)[2..] == a[2..] + b;
      BinConcat(a[2..], b);
    }
  }

  /** Decoding may start at any whole byte. */
  lemma {:induction false} BinFrom(hex: Bytes, k: nat)
    requires 2 * k <= |hex|
    ensures BinOf(hex[2 * k..]) == BinOf(hex)[k..]
    decreases k
  {
    if k > 0 {
      var rest := hex[2..];
      assert rest[2 * (k - 1)..] == hex[2 * k..];
      BinFrom(rest, k - 1);
      assert BinOf(hex)[1..] == BinOf(rest);
      assert BinOf(hex)[k..] == BinOf(hex)[1..][k - 1..];
    }
  }

  /** bin2hex: nothing is written unless text and terminator fit. */
  method Bin2Hex(buf: Bytes, hex: array<byte>, hexlen: nat) returns (n: nat)
    requires hexlen <= hex.Length
    modifies hex
    ensures hexlen <= 2 * |buf| ==> n == 0 && hex[..] == old(hex[..])
    ensures hexlen > 2 * |buf| ==> n == 2 * |buf| && hex[..] == HexOf(buf) + [0] + old(hex[..])[n + 1..]
  {
    if hexlen <= 2 * |buf| {
      return 0;
    }
    ghost var before := hex[..];
    var i := 0;
    while i < |buf|
      invariant 0 <= i <= |buf|
      invariant forall k :: 0 <= k < 2 * i ==> hex[k] == HexOf(buf)[k]
      invariant forall k :: 2 * i <= k < hex.Length ==> hex[k] == before[k]
    {
      hex[2 * i] := HexDigit(buf[i] / 16);
      hex[2 * i + 1] := HexDigit(buf[i] % 16);
      assert HexOf(buf)[2 * i] == HexDigit(buf[i] / 16) && HexOf(buf)[2 * i + 1] == HexDigit(buf[i] % 16);
      i := i + 1;
    }
    hex[2 * |buf|] := 0;
    n := 2 * |buf|;
  }

  /** hex2bin: as many whole pairs as fit, and the lone last digit if there is room for it. */
  method Hex2Bin(hex: Bytes, bin: array<byte>, at: nat, binLen: nat) returns (len: nat)
    requires 0 !in hex && at + binLen <= bin.Length
    modifies bin
    ensures len == if |BinOf(hex)| <= binLen then |BinOf(hex)| else binLen
    ensures bin[..] == old(bin[..])[..at] + BinOf(hex)[..len] + old(bin[..])[at + len..]
  {
    ghost var before := bin[..];
    len := 0;
    while len < binLen && 2 * len < |hex|
      invariant 0 <= len <= binLen && len <= |BinOf(hex)|
      invariant forall k :: 0 <= k < len ==> bin[at + k] == BinOf(hex)[k]
      invariant forall k :: 0 <= k < at || at + len <= k < bin.Length ==> bin[k] == before[k]
      decreases binLen - len
    {
      BinAt(hex, len);
      if 2 * len + 1 == |hex| {
        bin[at + len] := HexValue(hex[2 * len]) * 16;
        len := len + 1;
        break;
      }
      bin[at + len] := HexValue(hex[2 * len]) * 16 + HexValue(hex[2 * len + 1]);
      len := len + 1;
    }
  }
}
