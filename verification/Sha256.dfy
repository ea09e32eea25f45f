/**
 SHA-256 as the firmware uses it (components/stratum/utils.c): streaming contexts, the state
 saved after one block and the hash resumed from it. The compression function is a
 parameter; padding and chaining are those of FIPS 180-4, sections 5.1.1 and 6.2.2.

 A state is held as the 32 bytes its eight words occupy in memory, least significant byte
 of each word first.
 */
module Sha256 {
  import opened Digits

  type Bytes = seq<byte>

  type State = s: seq<byte> | |s| == 32 witness seq(32, _ => 0)
  type Block = s: seq<byte> | |s| == 64 witness seq(64, _ => 0)

  type Compress = (State, Block) -> State

  /** The initial hash value of FIPS 180-4, section 5.3.3. */
  const IV: State := [
    0x67, 0xe6, 0x09, 0x6a, 0x85, 0xae, 0x67, 0xbb, 0x72, 0xf3, 0x6e, 0x3c, 0x3a, 0xf5, 0x4f, 0xa5,
    0x7f, 0x52, 0x0e, 0x51, 0x8c, 0x68, 0x05, 0x9b, 0xab, 0xd9, 0x83, 0x1f, 0x19, 0xcd, 0xe0, 0x5b]

  /** A word, most significant byte first, as the first 32 bits of the square root of p behind its whole part. */
  predicate RootBits(a: byte, b: byte, c: byte, d: byte, whole: nat, p: nat) {
    var r := (((whole * 256 + a) * 256 + b) * 256 + c) * 256 + d;
    r * r <= p * 0x1_0000_0000_0000_0000 < (r + 1) * (r + 1)
  }

  lemma Roots()
    ensures RootBits(0x6a, 0x09, 0xe6, 0x67, 1, 2) && RootBits(0xbb, 0x67, 0xae, 0x85, 1, 3)
    ensures RootBits(0x3c, 0x6e, 0xf3, 0x72, 2, 5) && RootBits(0xa5, 0x4f, 0xf5, 0x3a, 2, 7)
    ensures RootBits(0x51, 0x0e, 0x52, 0x7f, 3, 11) && RootBits(0x9b, 0x05, 0x68, 0x8c, 3, 13)
    ensures RootBits(0x1f, 0x83, 0xd9, 0xab, 4, 17) && RootBits(0x5b, 0xe0, 0xcd, 0x19, 4, 19)
  {
  }

  /** The words are the square roots of the first eight primes. */
  lemma InitialValue()
    ensures RootBits(IV[3], IV[2], IV[1], IV[0], 1, 2) && RootBits(IV[7], IV[6], IV[5], IV[4], 1, 3)
    ensures RootBits(IV[11], IV[10], IV[9], IV[8], 2, 5) && RootBits(IV[15], IV[14], IV[13], IV[12], 2, 7)
    ensures RootBits(IV[19], IV[18], IV[17], IV[16], 3, 11) && RootBits(IV[23], IV[22], IV[21], IV[20], 3, 13)
    ensures RootBits(IV[27], IV[26], IV[25], IV[24], 4, 17) && RootBits(IV[31], IV[30], IV[29], IV[28], 4, 19)
  {
    hide RootBits;
    Roots();
  }

  /** The digest: every word of the state, most significant byte first. */
  function Output(s: State): (d: State)
    ensures forall i :: 0 <= i < 32 ==> d[i] == s[i - i % 4 + (3 - i % 4)]
  {
    seq(32, i requires 0 <= i < 32 => s[i - i % 4 + (3 - i % 4)])
  }

  /** Chaining over whole blocks. */
  function Blocks(f: Compress, s: State, data: Bytes): State
    requires |data| % 64 == 0
    decreases data
  {
    if data == [] then s else Blocks(f, f(s, data[..64]), data[64..])
  }

  /** n as eight big-endian bytes, modulo 2^64. */
  function Big64(n: nat): (s: Bytes)
    ensures |s| == 8
  {
    Fixed(n, 256, 8)
  }

  /** How many bytes fill len up to whole blocks, nine of them at least. */
  function PadLength(len: nat): (n: nat)
    ensures n >= 9
  {
    if len % 64 < 56 then 64 - len % 64 else 128 - len % 64
  }

  lemma PadLengthFits(len: nat, counted: nat)
    requires counted % 64 == 0
    ensures (len + PadLength(counted + len)) % 64 == 0
  {
    var c := counted / 64;
    assert counted + len == 64 * (c + len / 64) + len % 64;
    assert (counted + len) % 64 == len % 64;
    assert len == 64 * (len / 64) + len % 64;
  }

  /** 0x80, zeros up to 8 bytes short of a block, the length in bits. */
  function Padding(len: nat): (p: Bytes)
    ensures |p| == PadLength(len)
  {
    [0x80] + Repeat(0, PadLength(len) - 9) + Big64(8 * len)
  }

  /** The padding of FIPS 180-4, section 5.1.1: a one bit, zero bits, and the length of the data in bits. */
  lemma PaddingLayout(len: nat)
    requires 8 * len < Pow(256, 8)
    ensures var p, n := Padding(len), PadLength(len);
      && p[0] == 0x80 && (forall i :: 1 <= i < n - 8 ==> p[i] == 0)
      && AllBelow(p, 256) && Value(p[n - 8..], 256) == 8 * len
  {
    hide Value, Pow;
    FixedValue(8 * len, 256, 8);
    assert Padding(len)[PadLength(len) - 8..] == Big64(8 * len);
  }

  /** It is the shortest that reaches a whole block. */
  lemma PaddingShortest(len: nat, n: nat)
    requires n >= 9
    ensures (len + PadLength(len)) % 64 == 0
    ensures (len + n) % 64 == 0 ==> PadLength(len) <= n
  {
    PadLengthFits(len, 0);
    var r := len % 64;
    assert (len + n) % 64 == (r + n) % 64 by {
      assert len + n == 64 * (len / 64) + (r + n);
    }
  }

  function Hash(f: Compress, data: Bytes): State {
    PadLengthFits(|data|, 0);
    Output(Blocks(f, IV, data + Padding(|data|)))
  }

  /** double_sha256_bin */
  function DoubleHash(f: Compress, data: Bytes): State {
    Hash(f, Hash(f, data))
  }

  lemma {:induction false} BlocksConcat(f: Compress, s: State, a: Bytes, b: Bytes)
    requires |a| % 64 == 0 && |b| % 64 == 0
    ensures (|a| + |b|) % 64 == 0
    ensures Blocks(f, s, a + b) == Blocks(f, Blocks(f, s, a), b)
    decreases a
  {
    if a == [] {
      assert a + b == b;
    } else {
      assert (a + b)[..64] == a[..64] && (a + b)[64..] == a[64..] + b;
      BlocksConcat(f, f(s, a[..64]), a[64..], b);
    }
  }

  // ---------- streaming ----------

  /** The length of the whole blocks among n bytes. */
  function Whole(n: nat): (w: nat)
    ensures w <= n < w + 64 && w % 64 == 0
  {
    n - n % 64
  }

  /** Padded data, for a context that had already counted some whole blocks. */
  function Closed(data: Bytes, counted: nat): (s: Bytes)
    requires counted % 64 == 0
    ensures |s| % 64 == 0
  {
    PadLengthFits(|data|, counted);
    data + Padding(counted + |data|)
  }

  class Context {
    var state: State
    var total: nat
    var buffer: Bytes

    /**
     The context stands for data taken in after a state that counted some whole blocks:
     the initial hash value that counted none, or a restored one.
     */
    ghost predicate Represents(f: Compress, from: State, counted: nat, data: Bytes)
      reads this
    {
      && counted % 64 == 0
      && total == counted + |data|
      && buffer == data[Whole(|data|)..]
      && state == Blocks(f, from, data[..Whole(|data|)])
    }

    /** starts */
    constructor (f: Compress)
      ensures Represents(f, IV, 0, [])
    {
      state, total, buffer := IV, 0, [];
    }

    /** update: chains every block that fills up. */
    method Update(f: Compress, input: Bytes, ghost from: State, ghost counted: nat, ghost data: Bytes)
      requires Represents(f, from, counted, data)
      modifies this
      ensures Represents(f, from, counted, data + input)
    {
      hide Blocks, Whole;
      var rest := buffer + input;
      total := total + |input|;
      ghost var whole, all := Whole(|data|), data + input;
      assert all[whole..] == rest;
      assert all[..whole] == data[..whole];
      while |rest| >= 64
        invariant whole <= |all| && whole % 64 == 0 && total == counted + |all|
        invariant rest == all[whole..] && state == Blocks(f, from, all[..whole])
        decreases |rest|
      {
        NextBlock(f, from, all, whole);
        state := f(state, rest[..64]);
        rest := rest[64..];
        whole := whole + 64;
      }
      WholeUnique(|all|, whole);
      buffer := rest;
    }

    /** finish: the padding, then the digest. */
    method Finish(f: Compress, ghost from: State, ghost counted: nat, ghost data: Bytes) returns (digest: State)
      requires Represents(f, from, counted, data)
      modifies this
      ensures digest == Output(Blocks(f, from, Closed(data, counted)))
    {
      hide Blocks, Padding, Output, Whole;
      var pad := Padding(total);
      Update(f, pad, from, counted, data);
      ghost var all := Closed(data, counted);
      WholeUnique(|all|, |all|);
      assert all[..|all|] == all;
      digest := Output(state);
    }
  }

  lemma WholeUnique(n: nat, w: nat)
    requires w <= n < w + 64 && w % 64 == 0
    ensures Whole(n) == w
  {
  }

  lemma NextBlock(f: Compress, from: State, all: Bytes, whole: nat)
    requires whole % 64 == 0 && whole + 64 <= |all|
    ensures Blocks(f, from, all[..whole + 64]) == f(Blocks(f, from, all[..whole]), all[whole..][..64])
  {
    var block := all[whole..][..64];
    assert all[..whole + 64] == all[..whole] + block;
    BlocksConcat(f, from, all[..whole], block);
    assert block[..64] == block && block[64..] == [];
  }

  /** mbedtls_sha256: a one-shot digest. */
  method OneShot(f: Compress, data: Bytes) returns (digest: State)
    ensures digest == Hash(f, data)
  {
    var ctx := new Context(f);
    ctx.Update(f, data, IV, 0, []);
    assert [] + data == data;
    digest := ctx.Finish(f, IV, 0, data);
  }

  // ---------- the midstate ----------

  /** midstate_sha256_bin: the state left by the first 64 bytes. */
  method Midstate(f: Compress, data: Bytes) returns (mid: State)
    requires |data| >= 64
    ensures mid == f(IV, data[..64])
  {
    hide Blocks, Whole;
    var block: Block := data[..64];
    var ctx := new Context(f);
    ctx.Update(f, block, IV, 0, []);
    OneBlock(f, block);
    mid := ctx.state;
  }

  /** After one block a context holds nothing but the block's state. */
  lemma OneBlock(f: Compress, block: Block)
    ensures var data := [] + block;
      Blocks(f, IV, data[..Whole(|data|)]) == f(IV, block)
  {
    var data: Bytes := [] + block;
    assert data == block && data[..64] == block && data[64..] == [];
    WholeUnique(64, 64);
  }

  /** The digest from a saved state and a tail. */
  function Resumed(f: Compress, mid: State, tail: Bytes): State {
    Output(Blocks(f, mid, Closed(tail, 64)))
  }

  /** sha256_resume_bin: restores a state, declares 64 bytes counted, hashes the tail. */
  method Resume(f: Compress, mid: State, tail: Bytes) returns (digest: State)
    ensures digest == Resumed(f, mid, tail)
  {
    hide Blocks, Whole, Closed, Output;
    var ctx := new Context(f);
    ctx.state := mid;
    ctx.total := 64;
    Restored(f, mid);
    ctx.Update(f, tail, mid, 64, []);
    assert [] + tail == tail;
    digest := ctx.Finish(f, mid, 64, tail);
  }

  lemma Restored(f: Compress, mid: State)
    ensures Whole(0) == 0 && Blocks(f, mid, []) == mid
  {
  }

  /** Resuming from the state of a first block gives the hash of the block and the tail, of any length. */
  lemma ResumeIsHash(f: Compress, block: Block, tail: Bytes)
    ensures Resumed(f, f(IV, block), tail) == Hash(f, block + tail)
  {
    hide Padding, Output;
    var closed := Closed(tail, 64);
    assert (block + tail) + Padding(|block + tail|) == block + closed;
    assert (block + closed)[..64] == block && (block + closed)[64..] == closed;
  }
}
