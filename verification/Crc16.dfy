/**
 CRC-16 of components/asic/crc.c, table-driven, against the register of x^16 + x^12 + x^5 + 1
 that takes in one bit at a time, and what it detects.
 */
module Crc16 {
  import opened Crc

  // ---------- one bit ----------

  function Xor16(a: bv16, b: bv16): bv16 { a ^ b }

  predicate TopSet(a: bv16) { a & 0x8000 != 0 }

  function Up16(a: bv16): bv16 { a << 1 }

  /** The register shifted by one, with the polynomial taken in when a bit leaves it. */
  function Shift(crc: bv16): bv16 {
    if TopSet(crc) then Xor16(Up16(crc), 0x1021) else Up16(crc)
  }

  /** The register after one more bit. */
  function Step16(crc: bv16, bit: bool): bv16 {
    Shift(Xor16(crc, FirstBit(bit)))
  }

  function FirstBit(bit: bool): bv16 { if bit then 0x8000 else 0 }

  function Feed16(crc: bv16, bits: Bits): bv16
    decreases |bits|
  {
    if bits == [] then crc else Feed16(Step16(crc, bits[0]), bits[1..])
  }

  lemma UpXor(a: bv16, b: bv16)
    ensures Up16(Xor16(a, b)) == Xor16(Up16(a), Up16(b))
  {
  }

  lemma TopXor(a: bv16, b: bv16)
    ensures TopSet(Xor16(a, b)) <==> TopSet(a) != TopSet(b)
  {
  }

  lemma XorSwap(a: bv16, b: bv16)
    ensures Xor16(a, b) == Xor16(b, a)
  {
  }

  lemma XorAgain(a: bv16, b: bv16)
    ensures Xor16(Xor16(a, b), b) == a
  {
  }

  lemma XorAssociative(a: bv16, b: bv16, c: bv16)
    ensures Xor16(Xor16(a, b), c) == Xor16(a, Xor16(b, c))
  {
  }

  lemma ShiftLinear(a: bv16, b: bv16)
    ensures Shift(Xor16(a, b)) == Xor16(Shift(a), Shift(b))
  {
    hide Xor16, TopSet, Up16;
    var x, y := Up16(a), Up16(b);
    UpXor(a, b);
    TopXor(a, b);
    XorSwap(y, 0x1021);
    XorAssociative(x, y, 0x1021);
    XorAssociative(x, 0x1021, y);
    XorAssociative(x, 0x1021, Xor16(0x1021, y));
    XorSwap(0x1021, Xor16(0x1021, y));
    XorSwap(0x1021, y);
    XorAgain(y, 0x1021);
  }

  lemma BitXor(bit: bool, flip: bool)
    ensures FirstBit(bit != flip) == Xor16(FirstBit(bit), FirstBit(flip))
  {
  }

  lemma Step16Linear(crc: bv16, error: bv16, bit: bool, flip: bool)
    ensures Step16(Xor16(crc, error), bit != flip) == Xor16(Step16(crc, bit), Step16(error, flip))
  {
    hide Xor16, Shift, FirstBit;
    var b, f := FirstBit(bit), FirstBit(flip);
    BitXor(bit, flip);
    ShiftLinear(Xor16(crc, b), Xor16(error, f));
    XorAssociative(crc, error, Xor16(b, f));
    XorAssociative(error, b, f);
    XorSwap(error, b);
    XorAssociative(b, error, f);
    XorAssociative(crc, b, Xor16(error, f));
  }

  lemma ShiftKernel(crc: bv16)
    ensures Shift(crc) == 0 <==> crc == 0
  {
  }

  lemma Xor16Zero(a: bv16, b: bv16)
    ensures Xor16(a, b) == a <==> b == 0
    ensures Xor16(a, b) == 0 <==> a == b
  {
  }

  lemma Step16Kernel(crc: bv16)
    ensures Step16(crc, false) == 0 <==> crc == 0
  {
    hide Shift, Xor16;
    Xor16Zero(crc, 0);
    ShiftKernel(crc);
  }

  lemma {:induction false} Feed16Concat(crc: bv16, a: Bits, b: Bits)
    ensures Feed16(crc, a + b) == Feed16(Feed16(crc, a), b)
    decreases |a|
  {
    hide Step16;
    if a == [] {
      assert a + b == b;
    } else {
      assert (a + b)[1..] == a[1..] + b;
      Feed16Concat(Step16(crc, a[0]), a[1..], b);
    }
  }

  lemma {:induction false} Feed16Linear(crc: bv16, error: bv16, bits: Bits, errors: Bits)
    requires |bits| == |errors|
    ensures Feed16(Xor16(crc, error), Flip(bits, errors)) == Xor16(Feed16(crc, bits), Feed16(error, errors))
    decreases |bits|
  {
    hide Step16, Xor16;
    if bits != [] {
      Step16Linear(crc, error, bits[0], errors[0]);
      assert Flip(bits, errors)[1..] == Flip(bits[1..], errors[1..]);
      Feed16Linear(Step16(crc, bits[0]), Step16(error, errors[0]), bits[1..], errors[1..]);
    }
  }

  /** Again an error goes unnoticed exactly if its pattern leaves the zero register zero. */
  lemma Unnoticed16(crc: bv16, bits: Bits, errors: Bits)
    requires |bits| == |errors|
    ensures Feed16(crc, Flip(bits, errors)) == Feed16(crc, bits) <==> Feed16(0, errors) == 0
  {
    hide Step16, Xor16;
    Xor16Zero(crc, 0);
    Feed16Linear(crc, 0, bits, errors);
    Xor16Zero(Feed16(crc, bits), Feed16(0, errors));
  }

  lemma {:induction false} Feed16Zeros(crc: bv16, n: nat)
    ensures Feed16(crc, Zeros(n)) == 0 <==> crc == 0
    decreases n
  {
    hide Step16;
    if n > 0 {
      Step16Kernel(crc);
      assert Zeros(n)[1..] == Zeros(n - 1);
      Feed16Zeros(Step16(crc, false), n - 1);
    }
  }

  // ---------- bursts ----------

  /** The 16 - n low bits. */
  function Lows(n: nat): bv16 {
    if n == 0 then 0xFFFF else Lows(n - 1) >> 1
  }

  lemma LowsValues()
    ensures Lows(0) == 0xFFFF && Lows(1) == 0x7FFF && Lows(2) == 0x3FFF && Lows(3) == 0x1FFF
    ensures Lows(4) == 0xFFF && Lows(5) == 0x7FF && Lows(6) == 0x3FF && Lows(7) == 0x1FF
    ensures Lows(8) == 0xFF && Lows(9) == 0x7F && Lows(10) == 0x3F && Lows(11) == 0x1F
    ensures Lows(12) == 0xF && Lows(13) == 7 && Lows(14) == 3 && Lows(15) == 1
  {
  }

  lemma LowsOdd(n: nat)
    requires n <= 15
    ensures Odd(Lows(n))
  {
    LowsValues();
    hide Lows;
    assert n == 0 || n == 1 || n == 2 || n == 3 || n == 4 || n == 5 || n == 6 || n == 7 || n == 8 || n == 9 || n == 10
      || n == 11 || n == 12 || n == 13 || n == 14 || n == 15;
  }

  predicate Odd(x: bv16) { x & 1 == 1 }

  predicate Clear(crc: bv16, mask: bv16) { crc & mask == 0 }

  /** A step that clears some low bits has shifted zeros into them. */
  lemma StepBack(crc: bv16, bit: bool, mask: bv16)
    requires Odd(mask) && Clear(Step16(crc, bit), mask)
    ensures Clear(crc, mask >> 1)
  {
  }

  /** A register that n more bits make zero has zeros below. */
  lemma {:induction false} ZerosBelow(crc: bv16, bits: Bits)
    requires |bits| <= 15 && Feed16(crc, bits) == 0
    ensures Clear(crc, Lows(|bits|))
    decreases |bits|
  {
    hide Step16, Odd;
    if bits == [] {
      Nothing(crc);
    } else {
      var rest := bits[1..];
      ZerosBelow(Step16(crc, bits[0]), rest);
      LowsOdd(|rest|);
      StepBack(crc, bits[0], Lows(|rest|));
    }
  }

  lemma Nothing(crc: bv16)
    requires crc == 0
    ensures Clear(crc, 0xFFFF)
  {
  }

  lemma FirstError()
    ensures Step16(0, true) == 0x1021
  {
  }

  lemma OddShows(crc: bv16, mask: bv16)
    requires crc == 0x1021 && Odd(mask)
    ensures !Clear(crc, mask)
  {
  }

  /** Any error confined to sixteen consecutive bits changes the checksum, in messages of any length. */
  lemma Burst16Detected(crc: bv16, bits: Bits, before: nat, tail: Bits, after: nat)
    requires |tail| <= 15 && |bits| == before + 1 + |tail| + after
    ensures Feed16(crc, Flip(bits, Zeros(before) + ([true] + tail) + Zeros(after))) != Feed16(crc, bits)
  {
    hide Step16, Odd, Clear, Lows;
    var errors, burst := Zeros(before) + ([true] + tail) + Zeros(after), [true] + tail;
    Unnoticed16(crc, bits, errors);
    Feed16Concat(0, Zeros(before) + burst, Zeros(after));
    Feed16Concat(0, Zeros(before), burst);
    Feed16Zeros(0, before);
    Feed16Zeros(Feed16(0, burst), after);
    FirstError();
    LowsOdd(|tail|);
    OddShows(0x1021, Lows(|tail|));
    assert burst[1..] == tail && Feed16(0, burst) == Feed16(0x1021, tail);
    if Feed16(0x1021, tail) == 0 {
      ZerosBelow(0x1021, tail);
    }
  }

  // ---------- one byte ----------

  /** Eight shifts. */
  function Eight(crc: bv16): bv16 {
    Shift(Shift(Shift(Shift(Shift(Shift(Shift(Shift(crc))))))))
  }

  /** A byte at the top of the register. */
  function AtTop(b: bv8): bv16 { (b as bv16) << 8 }

  function HighByte(crc: bv16): bv8 { (crc >> 8) as bv8 }

  function LowByte(crc: bv16): bv8 { (crc & 0xFF) as bv8 }

  function LowHalf(crc: bv16): bv16 { crc & 0xFF }

  function Left8(crc: bv16): bv16 { crc << 8 }

  /** One of a row of eight. */
  function Pick(c: bv8, e0: bv16, e1: bv16, e2: bv16, e3: bv16, e4: bv16, e5: bv16, e6: bv16, e7: bv16): bv16 {
    if c == 0 then e0 else if c == 1 then e1 else if c == 2 then e2 else if c == 3 then e3
    else if c == 4 then e4 else if c == 5 then e5 else if c == 6 then e6 else e7
  }
  /** Rows 0 to 15 of crc16_table. */
  function FirstHalf(b: bv8): bv16 {
    var row, c := b >> 3, b & 7;
    if row == 0 then Pick(c, 0x0000, 0x1021, 0x2042, 0x3063, 0x4084, 0x50A5, 0x60C6, 0x70E7)
    else if row == 1 then Pick(c, 0x8108, 0x9129, 0xA14A, 0xB16B, 0xC18C, 0xD1AD, 0xE1CE, 0xF1EF)
    else if row == 2 then Pick(c, 0x1231, 0x0210, 0x3273, 0x2252, 0x52B5, 0x4294, 0x72F7, 0x62D6)
    else if row == 3 then Pick(c, 0x9339, 0x8318, 0xB37B, 0xA35A, 0xD3BD, 0xC39C, 0xF3FF, 0xE3DE)
    else if row == 4 then Pick(c, 0x2462, 0x3443, 0x0420, 0x1401, 0x64E6, 0x74C7, 0x44A4, 0x5485)
    else if row == 5 then Pick(c, 0xA56A, 0xB54B, 0x8528, 0x9509, 0xE5EE, 0xF5CF, 0xC5AC, 0xD58D)
    else if row == 6 then Pick(c, 0x3653, 0x2672, 0x1611, 0x0630, 0x76D7, 0x66F6, 0x5695, 0x46B4)
    else if row == 7 then Pick(c, 0xB75B, 0xA77A, 0x9719, 0x8738, 0xF7DF, 0xE7FE, 0xD79D, 0xC7BC)
    else if row == 8 then Pick(c, 0x48C4, 0x58E5, 0x6886, 0x78A7, 0x0840, 0x1861, 0x2802, 0x3823)
    else if row == 9 then Pick(c, 0xC9CC, 0xD9ED, 0xE98E, 0xF9AF, 0x8948, 0x9969, 0xA90A, 0xB92B)
    else if row == 10 then Pick(c, 0x5AF5, 0x4AD4, 0x7AB7, 0x6A96, 0x1A71, 0x0A50, 0x3A33, 0x2A12)
    else if row == 11 then Pick(c, 0xDBFD, 0xCBDC, 0xFBBF, 0xEB9E, 0x9B79, 0x8B58, 0xBB3B, 0xAB1A)
    else if row == 12 then Pick(c, 0x6CA6, 0x7C87, 0x4CE4, 0x5CC5, 0x2C22, 0x3C03, 0x0C60, 0x1C41)
    else if row == 13 then Pick(c, 0xEDAE, 0xFD8F, 0xCDEC, 0xDDCD, 0xAD2A, 0xBD0B, 0x8D68, 0x9D49)
    else if row == 14 then Pick(c, 0x7E97, 0x6EB6, 0x5ED5, 0x4EF4, 0x3E13, 0x2E32, 0x1E51, 0x0E70)
    else Pick(c, 0xFF9F, 0xEFBE, 0xDFDD, 0xCFFC, 0xBF1B, 0xAF3A, 0x9F59, 0x8F78)
  }

  /** Rows 16 to 31 of crc16_table. */
  function SecondHalf(b: bv8): bv16 {
    var row, c := b >> 3, b & 7;
    if row == 16 then Pick(c, 0x9188, 0x81A9, 0xB1CA, 0xA1EB, 0xD10C, 0xC12D, 0xF14E, 0xE16F)
    else if row == 17 then Pick(c, 0x1080, 0x00A1, 0x30C2, 0x20E3, 0x5004, 0x4025, 0x7046, 0x6067)
    else if row == 18 then Pick(c, 0x83B9, 0x9398, 0xA3FB, 0xB3DA, 0xC33D, 0xD31C, 0xE37F, 0xF35E)
    else if row == 19 then Pick(c, 0x02B1, 0x1290, 0x22F3, 0x32D2, 0x4235, 0x5214, 0x6277, 0x7256)
    else if row == 20 then Pick(c, 0xB5EA, 0xA5CB, 0x95A8, 0x8589, 0xF56E, 0xE54F, 0xD52C, 0xC50D)
    else if row == 21 then Pick(c, 0x34E2, 0x24C3, 0x14A0, 0x0481, 0x7466, 0x6447, 0x5424, 0x4405)
    else if row == 22 then Pick(c, 0xA7DB, 0xB7FA, 0x8799, 0x97B8, 0xE75F, 0xF77E, 0xC71D, 0xD73C)
    else if row == 23 then Pick(c, 0x26D3, 0x36F2, 0x0691, 0x16B0, 0x6657, 0x7676, 0x4615, 0x5634)
    else if row == 24 then Pick(c, 0xD94C, 0xC96D, 0xF90E, 0xE92F, 0x99C8, 0x89E9, 0xB98A, 0xA9AB)
    else if row == 25 then Pick(c, 0x5844, 0x4865, 0x7806, 0x6827, 0x18C0, 0x08E1, 0x3882, 0x28A3)
    else if row == 26 then Pick(c, 0xCB7D, 0xDB5C, 0xEB3F, 0xFB1E, 0x8BF9, 0x9BD8, 0xABBB, 0xBB9A)
    else if row == 27 then Pick(c, 0x4A75, 0x5A54, 0x6A37, 0x7A16, 0x0AF1, 0x1AD0, 0x2AB3, 0x3A92)
    else if row == 28 then Pick(c, 0xFD2E, 0xED0F, 0xDD6C, 0xCD4D, 0xBDAA, 0xAD8B, 0x9DE8, 0x8DC9)
    else if row == 29 then Pick(c, 0x7C26, 0x6C07, 0x5C64, 0x4C45, 0x3CA2, 0x2C83, 0x1CE0, 0x0CC1)
    else if row == 30 then Pick(c, 0xEF1F, 0xFF3E, 0xCF5D, 0xDF7C, 0xAF9B, 0xBFBA, 0x8FD9, 0x9FF8)
    else Pick(c, 0x6E17, 0x7E36, 0x4E55, 0x5E74, 0x2E93, 0x3EB2, 0x0ED1, 0x1EF0)
  }

  /** crc16_table */
  function Table(b: bv8): bv16 {
    if b < 0x80 then FirstHalf(b) else SecondHalf(b)
  }

  lemma FirstRight(b: bv8)
    requires b < 0x80
    ensures FirstHalf(b) == Eight(AtTop(b))
  {
  }

  lemma SecondRight(b: bv8)
    requires b >= 0x80
    ensures SecondHalf(b) == Eight(AtTop(b))
  {
  }

  /** The entry of each byte is the register that the byte alone leaves behind. */
  lemma TableIs(b: bv8)
    ensures Table(b) == Eight(AtTop(b))
  {
    hide FirstHalf, SecondHalf, Eight, AtTop;
    if b < 0x80 {
      FirstRight(b);
    } else {
      SecondRight(b);
    }
  }

  lemma EightLinear(a: bv16, b: bv16)
    ensures Eight(Xor16(a, b)) == Xor16(Eight(a), Eight(b))
  {
    hide Shift, Xor16;
    ShiftLinear(a, b);
    var a1, b1 := Shift(a), Shift(b);
    ShiftLinear(a1, b1);
    var a2, b2 := Shift(a1), Shift(b1);
    ShiftLinear(a2, b2);
    var a3, b3 := Shift(a2), Shift(b2);
    ShiftLinear(a3, b3);
    var a4, b4 := Shift(a3), Shift(b3);
    ShiftLinear(a4, b4);
    var a5, b5 := Shift(a4), Shift(b4);
    ShiftLinear(a5, b5);
    var a6, b6 := Shift(a5), Shift(b5);
    ShiftLinear(a6, b6);
    ShiftLinear(Shift(a6), Shift(b6));
  }

  /** The low byte of a register is just shifted up by eight steps. */
  lemma EightLow(crc: bv16)
    ensures Eight(LowHalf(crc)) == Left8(crc)
  {
  }

  lemma TopBits(a: bv8, b: bv8)
    ensures AtTop(Xor(a, b)) == Xor16(AtTop(a), AtTop(b))
  {
  }

  lemma Halves(crc: bv16)
    ensures crc == Xor16(AtTop(HighByte(crc)), LowHalf(crc))
  {
  }

  lemma Mixed(crc: bv16, b: bv8)
    ensures Xor16(crc, AtTop(b)) == Xor16(AtTop(Xor(HighByte(crc), b)), LowHalf(crc))
  {
    hide *;
    var top, high, low := AtTop(b), AtTop(HighByte(crc)), LowHalf(crc);
    Halves(crc);
    TopBits(HighByte(crc), b);
    XorAssociative(high, low, top);
    XorSwap(low, top);
    XorAssociative(high, top, low);
  }

  /** table[(crc >> 8) ^ b] ^ (crc << 8) */
  function Lookup(crc: bv16, b: bv8): bv16 {
    Xor16(Table(Xor(HighByte(crc), b)), Left8(crc))
  }

  lemma LookupIs(crc: bv16, b: bv8)
    ensures Lookup(crc, b) == Eight(Xor16(crc, AtTop(b)))
  {
    hide Eight, AtTop, HighByte, LowHalf, Table, Xor16, Xor, Left8;
    var high := Xor(HighByte(crc), b);
    Mixed(crc, b);
    TableIs(high);
    EightLow(crc);
    EightLinear(AtTop(high), LowHalf(crc));
  }

  function Rest(b: bv8): bv8 { b & 0x7F }

  /** The bit that leaves a byte, and the seven behind it. */
  lemma BitAndRest(b: bv8)
    ensures AtTop(b) == Xor16(FirstBit(High(b)), AtTop(Rest(b)))
    ensures Shift(AtTop(Rest(b))) == AtTop(Up(b))
  {
  }

  lemma OneBit(crc: bv16, b: bv8)
    ensures Xor16(Step16(crc, High(b)), AtTop(Up(b))) == Shift(Xor16(crc, AtTop(b)))
  {
    hide Shift, Xor16, FirstBit, AtTop, High, Up;
    var bit, rest := FirstBit(High(b)), AtTop(Rest(b));
    BitAndRest(b);
    XorAssociative(crc, bit, rest);
    ShiftLinear(Xor16(crc, bit), rest);
  }

  function Shifts(crc: bv16, n: nat): bv16
    decreases n
  {
    if n == 0 then crc else Shifts(Shift(crc), n - 1)
  }

  /** Bits taken in one at a time are shifts of a register that holds them already. */
  lemma {:induction false} FeedTop(crc: bv16, b: bv8, n: nat)
    ensures Xor16(Feed16(crc, Top(b, n)), AtTop(Ups(b, n))) == Shifts(Xor16(crc, AtTop(b)), n)
    decreases n
  {
    hide Shift, Step16, Xor16, AtTop, High, Up;
    if n > 0 {
      OneBit(crc, b);
      assert Top(b, n)[1..] == Top(Up(b), n - 1);
      FeedTop(Step16(crc, High(b)), Up(b), n - 1);
    }
  }

  lemma NothingLeft(b: bv8)
    ensures AtTop(Ups(b, 8)) == 0
  {
    hide Up, AtTop;
    UpsEight(b);
    EightUps(b);
  }

  lemma UpsEight(b: bv8)
    ensures Ups(b, 8) == Up(Up(Up(Up(Up(Up(Up(Up(b))))))))
  {
    hide Up;
    var b2 := Up(Up(b));
    var b4 := Up(Up(b2));
    var b6 := Up(Up(b4));
    assert Ups(b6, 2) == Up(Up(b6));
    assert Ups(b4, 4) == Ups(b6, 2);
    assert Ups(b2, 6) == Ups(b4, 4);
  }

  lemma EightUps(b: bv8)
    ensures AtTop(Up(Up(Up(Up(Up(Up(Up(Up(b))))))))) == 0
  {
  }

  lemma ShiftsEight(crc: bv16)
    ensures Shifts(crc, 8) == Eight(crc)
  {
    hide Shift;
    var c2 := Shift(Shift(crc));
    var c4 := Shift(Shift(c2));
    var c6 := Shift(Shift(c4));
    assert Shifts(c6, 2) == Shift(Shift(c6));
    assert Shifts(c4, 4) == Shifts(c6, 2);
    assert Shifts(c2, 6) == Shifts(c4, 4);
  }

  /** One table lookup takes in the eight bits of a byte. */
  lemma LookupFeeds(crc: bv16, b: bv8)
    ensures Lookup(crc, b) == Feed16(crc, Top(b, 8))
  {
    hide *;
    FeedTop(crc, b, 8);
    NothingLeft(b);
    Xor16Zero(Feed16(crc, Top(b, 8)), 0);
    ShiftsEight(Xor16(crc, AtTop(b)));
    LookupIs(crc, b);
  }

  lemma FeedNext16(start: bv16, data: Bytes, k: nat)
    requires k < |data|
    ensures Feed16(start, AllBits(data[..k + 1])) == Lookup(Feed16(start, AllBits(data[..k])), data[k])
  {
    hide Lookup, Feed16, AllBits, Top;
    BitsOfNext(data, k);
    Feed16Concat(start, AllBits(data[..k]), Top(data[k], 8));
    LookupFeeds(Feed16(start, AllBits(data[..k])), data[k]);
  }

  lemma FeedNothing16(start: bv16, data: Bytes)
    ensures Feed16(start, AllBits(data[..0])) == start
  {
  }

  /** crc16, unrolled four times. */
  method Crc16(data: Bytes) returns (crc: bv16)
    ensures crc == Feed16(0, AllBits(data))
  {
    hide Feed16, AllBits, Lookup;
    crc := 0;
    var at: nat, length: nat := 0, |data|;
    FeedNothing16(0, data);
    while length >= 4
      invariant at + length == |data| && crc == Feed16(0, AllBits(data[..at]))
    {
      FeedNext16(0, data, at);
      crc := Lookup(crc, data[at]);
      FeedNext16(0, data, at + 1);
      crc := Lookup(crc, data[at + 1]);
      FeedNext16(0, data, at + 2);
      crc := Lookup(crc, data[at + 2]);
      FeedNext16(0, data, at + 3);
      crc := Lookup(crc, data[at + 3]);
      at, length := at + 4, length - 4;
    }
    while length > 0
      invariant at + length == |data| && crc == Feed16(0, AllBits(data[..at]))
    {
      FeedNext16(0, data, at);
      crc := Lookup(crc, data[at]);
      at, length := at + 1, length - 1;
    }
    assert data[..at] == data;
  }

  /** crc16_false, the checksum of job packets. */
  method Crc16False(data: Bytes) returns (crc: bv16)
    ensures crc == Feed16(0xFFFF, AllBits(data))
  {
    hide Feed16, AllBits, Lookup;
    crc := 0xFFFF;
    var at: nat, length: nat := 0, |data|;
    FeedNothing16(0xFFFF, data);
    while length > 0
      invariant at + length == |data| && crc == Feed16(0xFFFF, AllBits(data[..at]))
    {
      FeedNext16(0xFFFF, data, at);
      crc := Lookup(crc, data[at]);
      at, length := at + 1, length - 1;
    }
    assert data[..at] == data;
  }

  // ---------- packets that end with their checksum ----------

  /** A byte at the top leaves a low byte behind, so only zero leaves none. */
  lemma LowOfTable(b: bv8, c: bv16)
    ensures LowHalf(Xor16(Eight(AtTop(b)), Left8(c))) == 0 <==> b == 0
  {
  }

  /**
   Two more bytes leave the register zero exactly if they are the checksum so far, high byte
   first: what a receiver checks on a job packet that ends with its checksum.
   */
  lemma PacketPasses(start: bv16, data: Bytes, high: bv8, low: bv8)
    ensures var crc := Feed16(start, AllBits(data));
      Feed16(start, AllBits(data + [high, low])) == 0 <==> high == HighByte(crc) && low == LowByte(crc)
  {
    hide Feed16, AllBits, Lookup, HighByte, LowByte;
    var packet, crc := data + [high, low], Feed16(start, AllBits(data));
    assert packet[..|data|] == data && packet[..|data| + 2] == packet;
    FeedNext16(start, packet, |data|);
    FeedNext16(start, packet, |data| + 1);
    ZeroAfter(crc, high, low);
  }

  lemma ZeroAfter(crc: bv16, high: bv8, low: bv8)
    ensures Lookup(Lookup(crc, high), low) == 0 <==> high == HighByte(crc) && low == LowByte(crc)
  {
    hide *;
    var next := Lookup(crc, high);
    LookupIs(next, low);
    EightKernel(Xor16(next, AtTop(low)));
    Xor16Zero(next, AtTop(low));
    LookupLow(crc, high, low);
  }

  lemma EightKernel(crc: bv16)
    ensures Eight(crc) == 0 <==> crc == 0
  {
    hide Shift;
    var c1 := Shift(crc);
    var c2 := Shift(c1);
    var c3 := Shift(c2);
    var c4 := Shift(c3);
    var c5 := Shift(c4);
    var c6 := Shift(c5);
    ShiftKernel(crc);
    ShiftKernel(c1);
    ShiftKernel(c2);
    ShiftKernel(c3);
    ShiftKernel(c4);
    ShiftKernel(c5);
    ShiftKernel(c6);
    ShiftKernel(Shift(c6));
  }

  lemma LookupLow(crc: bv16, high: bv8, low: bv8)
    ensures Lookup(crc, high) == AtTop(low) <==> high == HighByte(crc) && low == LowByte(crc)
  {
    hide Table, HighByte, LowByte, Eight, LowHalf, AtTop, Xor, Xor16, Left8;
    var b := Xor(HighByte(crc), high);
    TableIs(b);
    LowOfTable(b, crc);
    NoLow(low);
    Same(HighByte(crc), high);
    EightOfNone();
    LowAtTop(crc, low);
  }

  lemma NoLow(low: bv8)
    ensures LowHalf(AtTop(low)) == 0
  {
  }

  lemma Same(a: bv8, b: bv8)
    ensures Xor(a, b) == 0 <==> b == a
  {
  }

  lemma EightOfNone()
    ensures Eight(AtTop(0)) == 0
  {
  }

  lemma LowAtTop(crc: bv16, low: bv8)
    ensures Xor16(0, Left8(crc)) == AtTop(low) <==> low == LowByte(crc)
  {
  }
}
