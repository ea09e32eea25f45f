/**
 The checksum of ASIC responses and commands (components/asic/crc.c): CRC-5 bit by bit, with
 what it detects.
 */
module Crc {
  import opened Digits

  // ---------- one bit ----------

  /** The register after one more bit, most significant bit first: x^5 + x^2 + 1. */
  function Step(crc: bv8, bit: bool): bv8 {
    var newBit := ((crc >> 4) ^ (if bit then 1 else 0)) & 1;
    (((crc << 1) | newBit) ^ (newBit << 2)) & 0x1F
  }

  /** Only the five low bits of the register are used. */
  predicate Small(crc: bv8) { crc & 0x1F == crc }

  function Xor(a: bv8, b: bv8): bv8 { a ^ b }

  lemma StepSmall(crc: bv8, bit: bool)
    ensures Small(Step(crc, bit))
  {
  }

  lemma ZeroSmall()
    ensures Small(0)
  {
  }

  /** Over GF(2) the step is linear in register and bit. */
  lemma StepLinear(crc: bv8, error: bv8, bit: bool, flip: bool)
    requires Small(crc) && Small(error)
    ensures Step(Xor(crc, error), bit != flip) == Xor(Step(crc, bit), Step(error, flip))
  {
  }

  lemma XorZero(a: bv8, b: bv8)
    ensures Xor(a, b) == a <==> b == 0
    ensures Xor(a, b) == 0 <==> a == b
  {
  }

  /** Without input, only the zero register becomes zero. */
  lemma StepKernel(crc: bv8)
    requires Small(crc)
    ensures Step(crc, false) == 0 <==> crc == 0
  {
  }

  // ---------- messages ----------

  type Bits = seq<bool>

  function Feed(crc: bv8, bits: Bits): bv8
    decreases |bits|
  {
    if bits == [] then crc else Feed(Step(crc, bits[0]), bits[1..])
  }

  lemma {:induction false} FeedSmall(crc: bv8, bits: Bits)
    requires Small(crc)
    ensures Small(Feed(crc, bits))
    decreases |bits|
  {
    hide Step, Small;
    if bits != [] {
      StepSmall(crc, bits[0]);
      FeedSmall(Step(crc, bits[0]), bits[1..]);
    }
  }

  lemma {:induction false} FeedConcat(crc: bv8, a: Bits, b: Bits)
    ensures Feed(crc, a + b) == Feed(Feed(crc, a), b)
    decreases |a|
  {
    hide Step;
    if a == [] {
      assert a + b == b;
    } else {
      assert (a + b)[1..] == a[1..] + b;
      FeedConcat(Step(crc, a[0]), a[1..], b);
    }
  }

  /** A message with some bits flipped. */
  function Flip(bits: Bits, errors: Bits): (r: Bits)
    requires |bits| == |errors|
    ensures |r| == |bits|
  {
    seq(|bits|, i requires 0 <= i < |bits| => bits[i] != errors[i])
  }

  lemma {:induction false} FeedLinear(crc: bv8, error: bv8, bits: Bits, errors: Bits)
    requires Small(crc) && Small(error) && |bits| == |errors|
    ensures Feed(Xor(crc, error), Flip(bits, errors)) == Xor(Feed(crc, bits), Feed(error, errors))
    decreases |bits|
  {
    hide Step, Small, Xor;
    if bits != [] {
      StepLinear(crc, error, bits[0], errors[0]);
      StepSmall(crc, bits[0]);
      StepSmall(error, errors[0]);
      assert Flip(bits, errors)[1..] == Flip(bits[1..], errors[1..]);
      FeedLinear(Step(crc, bits[0]), Step(error, errors[0]), bits[1..], errors[1..]);
    }
  }

  /** An error goes unnoticed exactly if the error pattern by itself leaves the zero register zero. */
  lemma Unnoticed(crc: bv8, bits: Bits, errors: Bits)
    requires Small(crc) && |bits| == |errors|
    ensures Feed(crc, Flip(bits, errors)) == Feed(crc, bits) <==> Feed(0, errors) == 0
  {
    hide Step, Xor, Small;
    ZeroSmall();
    XorZero(crc, 0);
    FeedLinear(crc, 0, bits, errors);
    XorZero(Feed(crc, bits), Feed(0, errors));
  }

  function Zeros(n: nat): (z: Bits)
    ensures |z| == n
  {
    seq(n, _ => false)
  }

  lemma {:induction false} FeedZeros(crc: bv8, n: nat)
    requires Small(crc)
    ensures Feed(crc, Zeros(n)) == 0 <==> crc == 0
    decreases n
  {
    hide Step, Small;
    if n > 0 {
      StepKernel(crc);
      StepSmall(crc, false);
      assert Zeros(n)[1..] == Zeros(n - 1);
      FeedZeros(Step(crc, false), n - 1);
    }
  }

  // ---------- bursts ----------

  /** Up to five error bits, the first of them set, always show. */
  lemma BurstShows(a: bool, b: bool, c: bool, d: bool)
    ensures Step(Step(Step(Step(Step(0, true), a), b), c), d) != 0
  {
  }

  lemma FeedFive(s: bv8, bits: Bits)
    requires |bits| == 5
    ensures Feed(s, bits) == Step(Step(Step(Step(Step(s, bits[0]), bits[1]), bits[2]), bits[3]), bits[4])
  {
    hide *;
    FeedNext(s, bits, 0);
    var s1 := Step(s, bits[0]);
    FeedNext(s1, bits, 1);
    var s2 := Step(s1, bits[1]);
    FeedNext(s2, bits, 2);
    var s3 := Step(s2, bits[2]);
    FeedNext(s3, bits, 3);
    FeedNext(Step(s3, bits[3]), bits, 4);
  }

  lemma FeedNext(s: bv8, bits: Bits, k: nat)
    requires k < |bits|
    ensures Feed(s, bits[k..]) == Feed(Step(s, bits[k]), bits[k + 1..])
    ensures Feed(Step(s, bits[k]), bits[|bits|..]) == Step(s, bits[k]) && bits[0..] == bits
  {
    hide Step;
    assert bits[k..][1..] == bits[k + 1..];
  }

  lemma BurstFeeds(tail: Bits)
    requires |tail| <= 4
    ensures Feed(0, [true] + tail) != 0
  {
    hide Step, Small;
    var pad := Zeros(4 - |tail|);
    var all := [true] + tail + pad;
    FeedFive(0, all);
    BurstShows(all[1], all[2], all[3], all[4]);
    FeedConcat(0, [true] + tail, pad);
    ZeroSmall();
    FeedSmall(0, [true] + tail);
    FeedZeros(Feed(0, [true] + tail), 4 - |tail|);
  }

  /** Any error confined to five consecutive bits changes the checksum, in messages of any length. */
  lemma BurstDetected(crc: bv8, bits: Bits, before: nat, tail: Bits, after: nat)
    requires Small(crc) && |tail| <= 4 && |bits| == before + 1 + |tail| + after
    ensures Feed(crc, Flip(bits, Zeros(before) + ([true] + tail) + Zeros(after))) != Feed(crc, bits)
  {
    hide Step, Small;
    ZeroSmall();
    var errors, burst := Zeros(before) + ([true] + tail) + Zeros(after), [true] + tail;
    Unnoticed(crc, bits, errors);
    FeedConcat(0, Zeros(before) + burst, Zeros(after));
    FeedConcat(0, Zeros(before), burst);
    FeedZeros(0, before);
    BurstFeeds(tail);
    FeedSmall(0, burst);
    FeedZeros(Feed(0, burst), after);
  }

  // ---------- two flipped bits ----------

  /** The register k zeros after one error bit: it runs through all 31 nonzero values. */
  function Orbit(k: nat): bv8 {
    if k == 0 then Step(0, true) else Step(Orbit(k - 1), false)
  }

  lemma OrbitValues()
    ensures
      && Orbit(0) == 5 && Orbit(1) == 10 && Orbit(2) == 20 && Orbit(3) == 13
      && Orbit(4) == 26 && Orbit(5) == 17 && Orbit(6) == 7 && Orbit(7) == 14
      && Orbit(8) == 28 && Orbit(9) == 29 && Orbit(10) == 31 && Orbit(11) == 27
      && Orbit(12) == 19 && Orbit(13) == 3 && Orbit(14) == 6 && Orbit(15) == 12
      && Orbit(16) == 24 && Orbit(17) == 21 && Orbit(18) == 15 && Orbit(19) == 30
      && Orbit(20) == 25 && Orbit(21) == 23 && Orbit(22) == 11 && Orbit(23) == 22
      && Orbit(24) == 9 && Orbit(25) == 18 && Orbit(26) == 1 && Orbit(27) == 2
      && Orbit(28) == 4 && Orbit(29) == 8 && Orbit(30) == 16 && Orbit(31) == 5
  {
  }

  lemma OrbitReturns(k: nat)
    requires k < 31
    ensures Orbit(k) == Orbit(0) <==> k == 0
  {
    OrbitValues();
    hide *;
    assert k == 0 || k == 1 || k == 2 || k == 3 || k == 4 || k == 5 || k == 6 || k == 7 || k == 8 || k == 9 || k == 10
      || k == 11 || k == 12 || k == 13 || k == 14 || k == 15 || k == 16 || k == 17 || k == 18 || k == 19 || k == 20
      || k == 21 || k == 22 || k == 23 || k == 24 || k == 25 || k == 26 || k == 27 || k == 28 || k == 29 || k == 30;
  }

  /** The orbit repeats every 31 steps. */
  lemma {:induction false} OrbitCycles(k: nat)
    ensures Orbit(k + 31) == Orbit(k)
  {
    hide Step;
    if k == 0 {
      OrbitValues();
    } else {
      OrbitCycles(k - 1);
    }
  }

  lemma {:induction false} OrbitPeriod(k: nat)
    ensures Orbit(k) == Orbit(0) <==> k % 31 == 0
  {
    hide Orbit;
    if k < 31 {
      OrbitReturns(k);
    } else {
      OrbitPeriod(k - 31);
      OrbitCycles(k - 31);
    }
  }

  lemma {:induction false} OrbitFeeds(k: nat)
    ensures Feed(0, [true] + Zeros(k)) == Orbit(k)
  {
    hide Step;
    if k == 0 {
      FeedNext(0, [true], 0);
      assert [true] + Zeros(0) == [true];
    } else {
      var front := [true] + Zeros(k - 1);
      assert [true] + Zeros(k) == front + [false];
      FeedConcat(0, front, [false]);
      FeedNext(Feed(0, front), [false], 0);
      OrbitFeeds(k - 1);
    }
  }

  /** Two flipped bits, a distance apart. */
  function TwoErrors(before: nat, distance: nat, after: nat): (e: Bits)
    requires distance > 0
    ensures |e| == before + distance + 1 + after
  {
    Zeros(before) + ([true] + Zeros(distance - 1)) + [true] + Zeros(after)
  }

  /** A second error bit cancels the register exactly when the first would have come round to its start. */
  lemma SecondError(distance: nat)
    requires distance > 0
    ensures Feed(0, ([true] + Zeros(distance - 1)) + [true]) == 0 <==> distance % 31 == 0
  {
    hide Step, Small;
    var front := [true] + Zeros(distance - 1);
    FeedConcat(0, front, [true]);
    OrbitFeeds(distance - 1);
    FeedNext(Orbit(distance - 1), [true], 0);
    ZeroSmall();
    FeedSmall(0, front);
    StepLinear(Orbit(distance - 1), 0, false, true);
    XorZero(Orbit(distance - 1), 0);
    XorZero(Orbit(distance), Orbit(0));
    OrbitPeriod(distance);
  }

  /** Two flipped bits go unnoticed exactly when they are a multiple of 31 bits apart. */
  lemma TwoErrorsDetected(crc: bv8, bits: Bits, before: nat, distance: nat, after: nat)
    requires Small(crc) && distance > 0 && |bits| == before + distance + 1 + after
    ensures Feed(crc, Flip(bits, TwoErrors(before, distance, after))) == Feed(crc, bits) <==> distance % 31 == 0
  {
    hide Step, Small;
    ZeroSmall();
    var pair := ([true] + Zeros(distance - 1)) + [true];
    var errors := TwoErrors(before, distance, after);
    assert errors == Zeros(before) + pair + Zeros(after);
    Unnoticed(crc, bits, errors);
    FeedConcat(0, Zeros(before) + pair, Zeros(after));
    FeedConcat(0, Zeros(before), pair);
    ZerosStay(before);
    SecondError(distance);
    FeedSmall(0, pair);
    FeedZeros(Feed(0, pair), after);
  }

  lemma ZerosStay(n: nat)
    ensures Feed(0, Zeros(n)) == 0
  {
    ZeroSmall();
    FeedZeros(0, n);
  }

  // ---------- frames ----------

  type Bytes = seq<bv8>

  function High(b: bv8): bool { b & 0x80 != 0 }

  function Up(b: bv8): bv8 { b << 1 }

  /** The n leading bits of a byte. */
  function Top(b: bv8, n: nat): (r: Bits)
    ensures |r| == n
    decreases n
  {
    if n == 0 then [] else [High(b)] + Top(Up(b), n - 1)
  }

  function AllBits(data: Bytes): (r: Bits)
    ensures |r| == 8 * |data|
  {
    if data == [] then [] else AllBits(data[..|data| - 1]) + Top(data[|data| - 1], 8)
  }

  function Checksum(data: Bytes): bv8 {
    Feed(0x1F, AllBits(data))
  }

  /** The five bits of a register, most significant first. */
  function FiveBits(crc: bv8): (r: Bits)
    ensures |r| == 5
  {
    [crc & 0x10 != 0, crc & 0x08 != 0, crc & 0x04 != 0, crc & 0x02 != 0, crc & 0x01 != 0]
  }

  lemma FiveZero(s: bv8, a: bool, b: bool, c: bool, d: bool, e: bool)
    requires Small(s)
    ensures Step(Step(Step(Step(Step(s, a), b), c), d), e) == 0
      <==> (a == (s & 0x10 != 0) && b == (s & 0x08 != 0) && c == (s & 0x04 != 0) && d == (s & 0x02 != 0) && e == (s & 0x01 != 0))
  {
  }

  /** Five more bits make the register zero exactly if they repeat it. */
  lemma ZeroExactly(s: bv8, bits: Bits)
    requires Small(s) && |bits| == 5
    ensures Feed(s, bits) == 0 <==> bits == FiveBits(s)
  {
    FeedFive(s, bits);
    FiveZero(s, bits[0], bits[1], bits[2], bits[3], bits[4]);
    assert bits == [bits[0], bits[1], bits[2], bits[3], bits[4]];
  }

  /** The register behind everything but the last five bits of a frame. */
  function BeforeChecksum(data: Bytes): bv8
    requires data != []
  {
    Feed(0x1F, AllBits(data[..|data| - 1]) + Top(data[|data| - 1], 3))
  }

  lemma ThreeUp(b: bv8)
    ensures var x := Up(Up(Up(b)));
      && High(x) == (b & 0x10 != 0) && High(Up(x)) == (b & 0x08 != 0) && High(Up(Up(x))) == (b & 0x04 != 0)
      && High(Up(Up(Up(x)))) == (b & 0x02 != 0) && High(Up(Up(Up(Up(x))))) == (b & 0x01 != 0)
  {
  }

  lemma TopNext(b: bv8, n: nat)
    requires n > 0
    ensures Top(b, n) == [High(b)] + Top(Up(b), n - 1)
    ensures n == 1 ==> Top(b, n) == [High(b)]
  {
    hide High, Up;
  }

  lemma TopFive(b: bv8)
    ensures Top(b, 5) == [High(b), High(Up(b)), High(Up(Up(b))), High(Up(Up(Up(b)))), High(Up(Up(Up(Up(b)))))]
  {
    hide *;
    var b1 := Up(b);
    var b2 := Up(b1);
    var b3 := Up(b2);
    TopNext(b, 5);
    TopNext(b1, 4);
    TopNext(b2, 3);
    TopNext(b3, 2);
    TopNext(Up(b3), 1);
  }

  function Ups(b: bv8, n: nat): bv8
    decreases n
  {
    if n == 0 then b else Ups(Up(b), n - 1)
  }

  lemma {:induction false} TopSplit(b: bv8, n: nat, m: nat)
    ensures Top(b, n + m) == Top(b, n) + Top(Ups(b, n), m)
    decreases n
  {
    hide High, Up;
    if n == 0 {
      assert [] + Top(b, m) == Top(b, m);
    } else {
      hide Top;
      TopSplit(Up(b), n - 1, m);
      TopNext(b, n);
      TopNext(b, n + m);
      SpreadHead(High(b), Top(Up(b), n - 1), Top(Ups(b, n), m));
    }
  }

  lemma TopMore(b: bv8)
    ensures Top(b, 8) == Top(b, 3) + Top(Up(Up(Up(b))), 5)
  {
    hide High, Up, Top;
    TopSplit(b, 3, 5);
    assert Ups(Up(Up(b)), 1) == Ups(Up(Up(Up(b))), 0);
    assert Ups(Up(b), 2) == Ups(Up(Up(b)), 1);
  }

  lemma LowFive(b: bv8)
    ensures FiveBits(b & 0x1F) == [b & 0x10 != 0, b & 0x08 != 0, b & 0x04 != 0, b & 0x02 != 0, b & 0x01 != 0]
  {
  }

  /** A byte is its three high bits and the bits a register would fill. */
  lemma LastByte(b: bv8)
    ensures Top(b, 8) == Top(b, 3) + FiveBits(b & 0x1F)
  {
    hide High, Up, Top, FiveBits;
    TopMore(b);
    TopFive(Up(Up(Up(b))));
    ThreeUp(b);
    LowFive(b);
  }

  lemma FiveBitsUnique(a: bv8, b: bv8)
    requires Small(a) && Small(b)
    ensures FiveBits(a) == FiveBits(b) <==> a == b
  {
    var p, q := FiveBits(a), FiveBits(b);
    if p == q {
      assert p[0] == q[0] && p[1] == q[1] && p[2] == q[2] && p[3] == q[3] && p[4] == q[4];
      SameFive(a, b);
    }
  }

  lemma SameFive(a: bv8, b: bv8)
    requires Small(a) && Small(b)
    requires (a & 0x10 != 0) == (b & 0x10 != 0) && (a & 0x08 != 0) == (b & 0x08 != 0) && (a & 0x04 != 0) == (b & 0x04 != 0)
    requires (a & 0x02 != 0) == (b & 0x02 != 0) && (a & 0x01 != 0) == (b & 0x01 != 0)
    ensures a == b
  {
  }

  /** A frame passes exactly if the five low bits of its last byte are the register of all bits before. */
  lemma PassesExactly(data: Bytes)
    requires data != []
    ensures Checksum(data) == 0 <==> data[|data| - 1] & 0x1F == BeforeChecksum(data)
  {
    hide Step, Top, FiveBits, Small;
    var last, front := data[|data| - 1], AllBits(data[..|data| - 1]);
    LastByte(last);
    var before := front + Top(last, 3);
    assert AllBits(data) == before + FiveBits(last & 0x1F);
    FeedConcat(0x1F, before, FiveBits(last & 0x1F));
    StartSmall(last);
    FeedSmall(0x1F, before);
    ZeroExactly(BeforeChecksum(data), FiveBits(last & 0x1F));
    FiveBitsUnique(last & 0x1F, BeforeChecksum(data));
  }

  /** receive_work rejects every frame that differs from a good one within five consecutive bits. */
  lemma CorruptFrameRejected(good: Bytes, bad: Bytes, before: nat, tail: Bits, after: nat)
    requires |tail| <= 4 && 8 * |good| == before + 1 + |tail| + after
    requires AllBits(bad) == Flip(AllBits(good), Zeros(before) + ([true] + tail) + Zeros(after))
    requires Checksum(good) == 0
    ensures Checksum(bad) != 0
  {
    StartSmall(0);
    BurstDetected(0x1F, AllBits(good), before, tail, after);
  }

  lemma StartSmall(b: bv8)
    ensures Small(0x1F) && Small(b & 0x1F)
  {
  }

  lemma BitsOfNext(data: Bytes, i: nat)
    requires i < |data|
    ensures AllBits(data[..i + 1]) == AllBits(data[..i]) + Top(data[i], 8)
  {
    hide Top;
    assert data[..i + 1][..i] == data[..i] && data[..i + 1][i] == data[i];
  }

  /** crc5 */
  method Crc5(data: Bytes, length: nat) returns (crc: bv8)
    requires length <= |data| && length < 256
    ensures crc == Checksum(data[..length])
  {
    hide Step, Top, Feed;
    crc := 0x1F;
    FeedNothing(data);
    var i := 0;
    while i < length
      invariant 0 <= i <= length && crc == Feed(0x1F, AllBits(data[..i]))
    {
      BitsOfNext(data, i);
      FeedConcat(0x1F, AllBits(data[..i]), Top(data[i], 8));
      crc := FeedByte(crc, data[i]);
      i := i + 1;
    }
  }

  lemma FeedOne(data: Bytes, b: bv8)
    ensures Checksum(data + [b]) == Feed(Checksum(data), Top(b, 8))
  {
    hide Feed, Top;
    assert (data + [b])[..|data|] == data;
    FeedConcat(0x1F, AllBits(data), Top(b, 8));
  }

  lemma EightSteps(crc: bv8, b: bv8)
    ensures var b1 := Up(b);
      var b2 := Up(b1);
      var b3 := Up(b2);
      var b4 := Up(b3);
      var b5 := Up(b4);
      var b6 := Up(b5);
      var half := Step(Step(Step(Step(crc, High(b)), High(b1)), High(b2)), High(b3));
      Feed(crc, Top(b, 8)) == Step(Step(Step(Step(half, High(b4)), High(b5)), High(b6)), High(Up(b6)))
  {
    hide Step, High, Up, Top;
    var b1 := Up(b);
    var b2 := Up(b1);
    var b3 := Up(b2);
    var b4 := Up(b3);
    var b5 := Up(b4);
    var b6 := Up(b5);
    var c1 := Step(crc, High(b));
    var c2 := Step(c1, High(b1));
    var c3 := Step(c2, High(b2));
    var c4 := Step(c3, High(b3));
    var c5 := Step(c4, High(b4));
    var c6 := Step(c5, High(b5));
    FeedTopBit(crc, b, 8);
    FeedTopBit(c1, b1, 7);
    FeedTopBit(c2, b2, 6);
    FeedTopBit(c3, b3, 5);
    FeedTopBit(c4, b4, 4);
    FeedTopBit(c5, b5, 3);
    FeedTopBit(c6, b6, 2);
    FeedTopBit(Step(c6, High(b6)), Up(b6), 1);
  }

  lemma FeedTopBit(crc: bv8, b: bv8, n: nat)
    requires n > 0
    ensures Feed(crc, Top(b, n)) == Feed(Step(crc, High(b)), Top(Up(b), n - 1))
    ensures n == 1 ==> Feed(crc, Top(b, n)) == Step(crc, High(b))
  {
    hide Step, High, Up;
    assert Top(b, n)[1..] == Top(Up(b), n - 1);
  }

  lemma NoBytes()
    ensures Checksum([]) == 0x1F
  {
  }

  lemma Registers()
    ensures Feed(0x1F, Top(0x52, 8)) == 0x18 && Feed(0x18, Top(0x05, 8)) == 0x18
    ensures Feed(0x18, Top(0x00, 8)) == 0x09 && Feed(0x09, Top(0x00, 8)) == 0x0A
  {
    hide Feed, Top;
    EightSteps(0x1F, 0x52);
    EightSteps(0x18, 0x05);
    EightSteps(0x18, 0x00);
    EightSteps(0x09, 0x00);
  }

  /** The command that reads a chip's first register ends in the checksum of the bytes before: 52 05 00 00 0a. */
  lemma ReadCommand()
    ensures Checksum([]) == 0x1F && Checksum([0x52, 0x05, 0x00, 0x00]) == 0x0A
  {
    hide *;
    NoBytes();
    Registers();
    var one: Bytes, two: Bytes, three: Bytes := [0x52], [0x52, 0x05], [0x52, 0x05, 0x00];
    FeedOne([], 0x52);
    assert [] + one == one;
    FeedOne(one, 0x05);
    assert one + [0x05] == two;
    FeedOne(two, 0x00);
    assert two + [0x00] == three;
    FeedOne(three, 0x00);
    assert three + [0x00] == [0x52, 0x05, 0x00, 0x00];
  }

  lemma FeedNothing(data: Bytes)
    ensures Feed(0x1F, AllBits(data[..0])) == 0x1F
  {
  }

  /** The inner loop of crc5: the byte is shifted out at the top. */
  method FeedByte(start: bv8, data: bv8) returns (crc: bv8)
    ensures crc == Feed(start, Top(data, 8))
  {
    crc := start;
    var rest, i := data, 0;
    while i < 8
      invariant 0 <= i <= 8 && Feed(crc, Top(rest, 8 - i)) == Feed(start, Top(data, 8))
    {
      var bit := (rest >> 7) & 1;
      TopBit(rest, crc, bit);
      assert Top(rest, 8 - i)[1..] == Top(Up(rest), 7 - i);
      rest := rest << 1;
      var newBit := ((crc >> 4) ^ bit) & 1;
      crc := ((crc << 1) | newBit) ^ (newBit << 2);
      crc := crc & 0x1F;
      i := i + 1;
    }
  }

  lemma TopBit(rest: bv8, crc: bv8, bit: bv8)
    requires bit == (rest >> 7) & 1
    ensures var newBit := ((crc >> 4) ^ bit) & 1;
      Step(crc, High(rest)) == (((crc << 1) | newBit) ^ (newBit << 2)) & 0x1F
  {
  }
}
