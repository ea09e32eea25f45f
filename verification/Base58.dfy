/**
 Base58 as in components/stratum/base58.c: byte strings to base-58 text and back.
 Encode and Decode say what the text means; B58Enc and B58ToBin are the C loops,
 which work in place on base-58 cells and on 32-bit limbs, proved against them.
 */
module Base58 {
  import opened Options
  import opened Digits

  const ONE: byte := 49  // '1', the letter of digit 0
  const LIMB: nat := 0x1_0000_0000

  // ---------- the alphabet ----------

  /** b58digits_ordered: "123456789ABCDEFGHJKLMNPQRSTUVWXYZabcdefghijkmnopqrstuvwxyz". */
  function Letter(d: nat): byte
    requires d < 58
  {
    if d < 9 then '1' as int + d
    else if d < 17 then 'A' as int + (d - 9)
    else if d < 22 then 'J' as int + (d - 17)
    else if d < 33 then 'P' as int + (d - 22)
    else if d < 44 then 'a' as int + (d - 33)
    else 'm' as int + (d - 44)
  }

  /** b58digits_map, whose invalid entries are -1; the map covers codes below 128 only. */
  function DigitOf(c: byte): (d: int)
    ensures -1 <= d < 58
  {
    if '1' as int <= c <= '9' as int then c - '1' as int
    else if 'A' as int <= c <= 'H' as int then c - 'A' as int + 9
    else if 'J' as int <= c <= 'N' as int then c - 'J' as int + 17
    else if 'P' as int <= c <= 'Z' as int then c - 'P' as int + 22
    else if 'a' as int <= c <= 'k' as int then c - 'a' as int + 33
    else if 'm' as int <= c <= 'z' as int then c - 'm' as int + 44
    else -1
  }

  /** The letters are digits, upper case and lower case in the order of their codes, without 0, I, O and l. */
  lemma Alphabet(d: nat, e: nat, c: byte)
    requires d < e < 58
    ensures Letter(d) < Letter(e)
    ensures DigitOf(c) != -1 <==>
      && ('0' as int <= c <= '9' as int || 'A' as int <= c <= 'Z' as int || 'a' as int <= c <= 'z' as int)
      && c != '0' as int && c != 'I' as int && c != 'O' as int && c != 'l' as int
    ensures DigitOf(Letter(d)) == d
  {
  }

  predicate Valid(s: seq<byte>) {
    forall i :: 0 <= i < |s| ==> DigitOf(s[i]) != -1
  }

  function Letters(ds: seq<nat>): (s: seq<byte>)
    requires AllBelow(ds, 58)
    ensures |s| == |ds|
  {
    seq(|ds|, i requires 0 <= i < |ds| => Letter(ds[i]))
  }

  function DigitsOf(s: seq<byte>): (ds: seq<nat>)
    requires Valid(s)
    ensures |ds| == |s| && AllBelow(ds, 58)
  {
    seq(|s|, i requires 0 <= i < |s| => DigitOf(s[i]) as nat)
  }

  lemma LettersValid(ds: seq<nat>)
    requires AllBelow(ds, 58)
    ensures Valid(Letters(ds)) && DigitsOf(Letters(ds)) == ds
  {
  }

  lemma DigitsLetters(s: seq<byte>)
    requires Valid(s)
    ensures Letters(DigitsOf(s)) == s
  {
  }

  // ---------- what the text means ----------

  /** One '1' per leading zero byte, then the base-58 digits of the number. */
  function Encode(data: seq<byte>): seq<byte> {
    Repeat(ONE, Leading(data, 0)) + Letters(Shortest(Value(data, 256), 58))
  }

  /** The right-aligned bytes of a text in a buffer of binsz bytes, and the reported size. */
  function Decode(text: seq<byte>, binsz: nat): Option<(seq<byte>, nat)> {
    var z := Leading(text, ONE);
    var rest := text[z..];
    if !Valid(rest) || Value(DigitsOf(rest), 58) >= Pow(256, binsz) then None
    else
      var bytes := Fixed(Value(DigitsOf(rest), 58), 256, binsz);
      Some((bytes, binsz - Leading(bytes, 0) + z))
  }

  // ---------- round trips ----------

  lemma EncodeLeadingOnes(data: seq<byte>)
    ensures Leading(Encode(data), ONE) == Leading(data, 0)
    ensures Encode(data)[Leading(data, 0)..] == Letters(Shortest(Value(data, 256), 58))
  {
    LeadingUnique(Encode(data), ONE, Leading(data, 0));
  }

  /**
   A text is read in base 58 as its data in base 256, most significant digit first, and has as
   many leading ones as the data has leading zeros.
   */
  lemma TextValue(data: seq<byte>)
    ensures var text := Encode(data);
      && Valid(text) && Value(DigitsOf(text), 58) == Value(data, 256)
      && Leading(text, ONE) == Leading(data, 0)
  {
    hide Value, Shortest;
    var z, ds := Leading(data, 0), Shortest(Value(data, 256), 58);
    EncodeLeadingOnes(data);
    LettersValid(ds);
    ShortestValue(Value(data, 256), 58);
    assert DigitsOf(Encode(data)) == Repeat(0, z) + ds;
    ValueConcat(Repeat(0, z), ds, 58);
    ValueOfZeros(z, 58);
  }

  /** Decoding an encoding into a buffer of the original length returns the bytes and that length. */
  lemma DecodeEncode(data: seq<byte>)
    ensures Decode(Encode(data), |data|) == Some((data, |data|))
  {
    hide Value, Pow, Fixed, Shortest, Letters, DigitsOf;
    var v := Value(data, 256);
    EncodeLeadingOnes(data);
    LettersValid(Shortest(v, 58));
    ShortestValue(v, 58);
    ValueBound(data, 256);
    ValueFixed(data, 256);
  }

  lemma SuffixLeading(s: seq<nat>, x: nat, k: nat)
    requires k <= Leading(s, x)
    ensures Leading(s[k..], x) == Leading(s, x) - k
  {
    LeadingUnique(s[k..], x, Leading(s, x) - k);
  }

  lemma EncodeOf(data: seq<byte>, ds: seq<nat>)
    requires AllBelow(ds, 58) && (ds != [] ==> ds[0] != 0)
    requires Value(data, 256) == Value(ds, 58)
    ensures Encode(data) == Repeat(ONE, Leading(data, 0)) + Letters(ds)
  {
    ShortestUnique(ds, 58);
  }

  /** A decoded text whose size fits the buffer is the encoding of the bytes it reports. */
  lemma EncodeDecode(text: seq<byte>, binsz: nat)
    requires Decode(text, binsz).Some?
    requires Decode(text, binsz).value.1 <= binsz
    ensures var (bytes, size) := Decode(text, binsz).value;
            |bytes| == binsz >= size && Encode(bytes[binsz - size..]) == text
  {
    hide Pow, Value, Fixed, Shortest;
    var (bytes, size) := Decode(text, binsz).value;
    var z := Leading(text, ONE);
    var ds := DigitsOf(text[z..]);
    var drop := Leading(bytes, 0) - z;
    SuffixLeading(bytes, 0, drop);
    FixedValue(Value(ds, 58), 256, binsz);
    ValueSkipZeros(bytes, drop, 256);
    EncodeOf(bytes[drop..], ds);
    DigitsLetters(text[z..]);
    assert text == Repeat(ONE, z) + text[z..];
  }

  // ---------- the size bound of the encoder ----------

  lemma ElevenDigitsHoldEightBytes()
    ensures Pow(256, 8) <= Pow(58, 11)
  {
    assert Pow(58, 2) == 3364;
    assert Pow(58, 4) == 3364 * 3364;
    assert Pow(58, 6) == 11316496 * 3364;
    assert Pow(58, 8) == 38068692544 * 3364;
    assert Pow(58, 10) == 128063081718016 * 3364;
    assert Pow(58, 11) == 430804206899405824 * 58;
    assert Pow(256, 2) == 65536;
    assert Pow(256, 4) == 65536 * 65536;
    assert Pow(256, 6) == 4294967296 * 65536;
    assert Pow(256, 8) == 281474976710656 * 65536;
  }

  /** If q digits in base b hold p digits in base a, then d hold k once q*k <= d*p. */
  lemma DigitsHold(a: nat, p: nat, b: nat, q: nat, k: nat, d: nat)
    requires Pow(a, p) <= Pow(b, q) && q * k <= d * p
    requires p > 0 && b > 0
    ensures Pow(a, k) <= Pow(b, d)
  {
    hide Pow;
    calc {
      Pow(Pow(a, k), p);
      { PowPow(a, k, p); PowPow(a, p, k); assert k * p == p * k; }
      Pow(Pow(a, p), k);
    <= { PowMonoBase(Pow(a, p), Pow(b, q), k); }
      Pow(Pow(b, q), k);
      { PowPow(b, q, k); }
      Pow(b, q * k);
    <= { PowMonoExp(b, q * k, d * p); }
      Pow(b, d * p);
      { PowPow(b, d, p); }
      Pow(Pow(b, d), p);
    }
    if Pow(b, d) < Pow(a, k) {
      PowStrictBase(Pow(b, d), Pow(a, k), p);
    }
  }

  /** The number of base-58 cells allocated for n bytes. */
  function CellCount(n: nat): (c: nat)
    ensures c > 0
  {
    n * 138 / 100 + 1
  }

  /** These cells hold n bytes, and cell 0 is not needed before the last of them. */
  lemma CellsSuffice(n: nat)
    ensures CellCount(n) == n * 138 / 100 + 1 && Pow(256, n) <= Pow(58, CellCount(n))
    ensures n > 0 ==> Pow(256, n - 1) <= Pow(58, CellCount(n) - 1)
  {
    ElevenDigitsHoldEightBytes();
    DigitsHold(256, 8, 58, 11, n, n * 138 / 100 + 1);
    if n > 0 {
      DigitsHold(256, 8, 58, 11, n - 1, n * 138 / 100);
    }
  }

  // ---------- b58enc ----------

  lemma ValueCons(d: nat, s: seq<nat>, base: nat)
    ensures Value([d] + s, base) == d * Pow(base, |s|) + Value(s, base)
  {
    ValueConcat([d], s, base);
    assert [d][..0] == [];
    assert Value([d], base) == d;
  }

  lemma CarryZero(s: seq<nat>, b: nat)
    ensures WithCarry(0, s, b) == Value(s, b)
  {
  }

  lemma NothingDone(carry: nat, b: nat)
    ensures WithCarry(carry, [], b) == carry && Value([], b) == 0
  {
  }

  lemma CarryArithmetic(q: nat, r: nat, b: nat, p: nat, carry: nat, m: nat, cell: nat, lo: nat, rest: nat, add: nat)
    requires q * b + r == carry + m * cell
    requires lo + carry * p == rest * m + add
    ensures r * p + lo + q * (p * b) == (cell * p + rest) * m + add
  {
    assert q * (p * b) + r * p == (q * b + r) * p;
    assert (carry + m * cell) * p == carry * p + m * cell * p;
    assert (cell * p + rest) * m == m * cell * p + rest * m;
  }

  /** The low cells done so far together with the carry that still belongs above them. */
  function WithCarry(carry: nat, lo: seq<nat>, b: nat): nat {
    carry * Pow(b, |lo|) + Value(lo, b)
  }

  /** One cell of a multiply-and-add pass: base b, multiplier m, carry in and carry out q. */
  lemma CarryStep(cell: nat, rest: seq<nat>, lo: seq<nat>, b: nat, m: nat, carry: nat, add: nat, q: nat, r: nat)
    requires |rest| == |lo| && q * b + r == carry + m * cell
    requires WithCarry(carry, lo, b) == Value(rest, b) * m + add
    ensures WithCarry(q, [r] + lo, b) == Value([cell] + rest, b) * m + add
  {
    ValueCons(r, lo, b);
    ValueCons(cell, rest, b);
    CarryArithmetic(q, r, b, Pow(b, |lo|), carry, m, cell, Value(lo, b), Value(rest, b), add);
  }

  /** Multiplies the cells by 256 and adds one byte; stops early above the cells in use. */
  method PushByte(buf: array<nat>, high: nat, x: byte) returns (j: nat)
    requires high < buf.Length && AllBelow(buf[..], 58)
    requires forall k :: 0 <= k <= high ==> buf[k] == 0
    requires Value(buf[..], 58) * 256 + x < Pow(58, buf.Length)
    modifies buf
    ensures AllBelow(buf[..], 58)
    ensures Value(buf[..], 58) == old(Value(buf[..], 58)) * 256 + x
    ensures j <= high
    ensures j > 0 ==> forall k :: 0 <= k <= j ==> buf[k] == 0
  {
    hide Pow, Value, WithCarry;
    ghost var cells := buf[..];
    var size := buf.Length;
    var carry: nat := x;
    j := size - 1;
    assert buf[size..] == cells[size..] == [];
    NothingDone(x, 58);
    while j > high || carry != 0
      invariant 0 <= j < size
      invariant forall k :: 0 <= k < size ==> buf[k] < 58
      invariant buf[..j + 1] == cells[..j + 1]
      invariant WithCarry(carry, buf[j + 1..], 58) == Value(cells[j + 1..], 58) * 256 + x
      decreases j
    {
      ghost var lo, rest, before := buf[j + 1..], cells[j + 1..], carry;
      carry := carry + 256 * buf[j];
      buf[j] := carry % 58;
      carry := carry / 58;
      assert buf[j..] == [buf[j]] + lo;
      assert cells[j..] == [cells[j]] + rest;
      CarryStep(cells[j], rest, lo, 58, 256, before, x, carry, buf[j]);
      if j == 0 {
        assert buf[0..] == buf[..] && cells[0..] == cells;
        NoCarryLeft(carry, buf[..], 58);
        return;
      }
      j := j - 1;
    }
    StoppedEarly(buf[..], cells, j, x);
    assert forall k :: 0 <= k <= j ==> buf[k] == buf[..j + 1][k];
  }

  lemma NoCarryLeft(carry: nat, cells: seq<nat>, b: nat)
    requires b > 0 && WithCarry(carry, cells, b) < Pow(b, |cells|)
    ensures carry == 0 && WithCarry(carry, cells, b) == Value(cells, b)
  {
    hide Value;
    if carry > 0 {
      MulMono(1, carry, Pow(b, |cells|), Pow(b, |cells|));
    }
  }

  /** Where the pass stops early, the cells above are zero and stay zero. */
  lemma StoppedEarly(buf: seq<nat>, cells: seq<nat>, j: nat, x: nat)
    requires 0 <= j < |cells| == |buf|
    requires buf[..j + 1] == cells[..j + 1] && (forall k :: 0 <= k <= j ==> cells[k] == 0)
    requires WithCarry(0, buf[j + 1..], 58) == Value(cells[j + 1..], 58) * 256 + x
    ensures Value(buf, 58) == Value(cells, 58) * 256 + x
  {
    assert forall k :: 0 <= k <= j ==> buf[k] == buf[..j + 1][k];
    ValueSkipZeros(buf, j + 1, 58);
    ValueSkipZeros(cells, j + 1, 58);
  }

  /** The first i bytes are a number of the bytes after z leading zeros. */
  lemma PrefixBound(data: seq<byte>, z: nat, i: nat)
    requires z <= i <= |data|
    requires forall k :: 0 <= k < z ==> data[k] == 0
    ensures Value(data[..i], 256) < Pow(256, i - z)
  {
    ValueSkipZeros(data[..i], z, 256);
    ValueBound(data[..i][z..], 256);
  }

  lemma TopCellZero(s: seq<nat>, base: nat)
    requires s != [] && Value(s, base) < Pow(base, |s| - 1)
    ensures s[0] == 0
  {
    assert s == [s[0]] + s[1..];
    ValueCons(s[0], s[1..], base);
    if s[0] > 0 {
      MulMono(1, s[0], Pow(base, |s| - 1), Pow(base, |s| - 1));
    }
  }

  /** Taking in byte i keeps the number below the cells' capacity, and below cell 0 before the end. */
  lemma NextByte(data: seq<byte>, z: nat, i: nat)
    requires z <= i < |data|
    requires forall k :: 0 <= k < z ==> data[k] == 0
    ensures Value(data[..i + 1], 256) == Value(data[..i], 256) * 256 + data[i]
    ensures Value(data[..i + 1], 256) < Pow(58, CellCount(|data| - z))
    ensures i + 1 < |data| ==> Value(data[..i + 1], 256) < Pow(58, CellCount(|data| - z) - 1)
  {
    assert data[..i + 1] == data[..i] + [data[i]];
    ValueSnoc(data[..i], data[i], 256);
    PrefixBound(data, z, i + 1);
    FitsCells(Value(data[..i + 1], 256), i + 1 - z, |data| - z);
  }

  lemma FitsCells(v: nat, k: nat, n: nat)
    requires k <= n && v < Pow(256, k)
    ensures v < Pow(58, CellCount(n))
    ensures k < n ==> v < Pow(58, CellCount(n) - 1)
  {
    CellsSuffice(n);
    PowMonoExp(256, k, n);
    if k < n {
      PowMonoExp(256, k, n - 1);
    }
  }

  lemma AllZeros(s: seq<nat>, base: nat)
    requires forall i :: 0 <= i < |s| ==> s[i] == 0
    ensures Value(s, base) == 0
  {
    ValueSkipZeros(s, |s|, base);
  }

  /** The nested conversion loop: fresh cells that hold the number of data in base 58. */
  method ToCells(data: seq<byte>, zcount: nat) returns (buf: array<nat>)
    requires zcount <= |data| && forall k :: 0 <= k < zcount ==> data[k] == 0
    ensures fresh(buf) && buf.Length > 0
    ensures AllBelow(buf[..], 58) && Value(buf[..], 58) == Value(data, 256)
  {
    hide Pow, Value;
    var binsz := |data|;
    var size := CellCount(binsz - zcount);
    buf := new nat[size](_ => 0);
    AllZeros(buf[..], 58);
    AllZeros(data[..zcount], 256);
    var i, high := zcount, size - 1;
    while i < binsz
      invariant zcount <= i <= binsz && 0 <= high < size
      invariant AllBelow(buf[..], 58)
      invariant Value(buf[..], 58) == Value(data[..i], 256)
      invariant i < binsz ==> forall k :: 0 <= k <= high ==> buf[k] == 0
    {
      NextByte(data, zcount, i);
      high := PushByte(buf, high, data[i]);
      i := i + 1;
      if i < binsz {
        TopCellZero(buf[..], 58);
        assert buf[..][0] == 0;
      }
    }
    assert data[..binsz] == data;
  }

  /** Writes the ones, the letters of the cells from j on, and the terminator. */
  method WriteText(b58: array<byte>, zcount: nat, cells: seq<nat>) returns (newsz: nat)
    requires AllBelow(cells, 58) && zcount + |cells| < b58.Length
    modifies b58
    ensures newsz == zcount + |cells| + 1
    ensures b58[..] == Repeat(ONE, zcount) + Letters(cells) + [0] + old(b58[..])[newsz..]
  {
    ghost var text, before := Repeat(ONE, zcount) + Letters(cells), b58[..];
    var i, j := 0, 0;
    while i < zcount
      invariant 0 <= i <= zcount
      invariant forall k :: 0 <= k < i ==> b58[k] == text[k]
      invariant forall k :: i <= k < b58.Length ==> b58[k] == before[k]
    {
      b58[i] := ONE;
      i := i + 1;
    }
    while j < |cells|
      invariant 0 <= j <= |cells| && i == zcount + j
      invariant forall k :: 0 <= k < i ==> b58[k] == text[k]
      invariant forall k :: i <= k < b58.Length ==> b58[k] == before[k]
    {
      b58[i] := Letter(cells[j]);
      i, j := i + 1, j + 1;
    }
    b58[i] := 0;
    newsz := i + 1;
  }

  /**
   b58enc. The caller's buffer is written only when the text and its terminator fit in
   b58sz; newsz is the value stored through the size pointer in both cases.
   */
  method B58Enc(b58: array<byte>, b58sz: nat, data: seq<byte>) returns (ok: bool, newsz: nat)
    requires b58sz <= b58.Length
    modifies b58
    ensures newsz == |Encode(data)| + 1
    ensures ok == (newsz <= b58sz)
    ensures ok ==> b58[..] == Encode(data) + [0] + old(b58[..])[newsz..]
    ensures !ok ==> b58[..] == old(b58[..])
  {
    var zcount := 0;
    while zcount < |data| && data[zcount] == 0
      invariant 0 <= zcount <= |data|
      invariant forall k :: 0 <= k < zcount ==> data[k] == 0
    {
      zcount := zcount + 1;
    }
    LeadingUnique(data, 0, zcount);
    var buf := ToCells(data, zcount);
    var size := buf.Length;
    var j := 0;
    while j < size && buf[j] == 0
      invariant 0 <= j <= size
      invariant forall k :: 0 <= k < j ==> buf[k] == 0
    {
      j := j + 1;
    }
    ValueSkipZeros(buf[..], j, 58);
    EncodeOf(data, buf[j..]);
    if b58sz <= zcount + size - j {
      return false, zcount + size - j + 1;
    }
    newsz := WriteText(b58, zcount, buf[j..]);
    ok := true;
  }

  // ---------- b58tobin ----------

  /** Multiplies the limbs by 58 and adds one digit; c is what no longer fits. */
  method PushDigit(outi: array<nat>, digit: nat) returns (c: nat)
    requires digit < 58 && AllBelow(outi[..], LIMB)
    modifies outi
    ensures AllBelow(outi[..], LIMB) && c < 58
    ensures WithCarry(c, outi[..], LIMB) == old(Value(outi[..], LIMB)) * 58 + digit
    ensures outi.Length == 0 ==> c == digit
  {
    hide Pow, Value, WithCarry;
    ghost var limbs, n := outi[..], outi.Length;
    c := digit;
    var j := outi.Length;
    assert outi[n..] == limbs[n..] == [];
    NothingDone(digit, LIMB);
    while j > 0
      invariant 0 <= j <= n && c < 58
      invariant forall k :: 0 <= k < n ==> outi[k] < LIMB
      invariant outi[..j] == limbs[..j]
      invariant WithCarry(c, outi[j..], LIMB) == Value(limbs[j..], LIMB) * 58 + digit
      invariant j == n ==> c == digit
    {
      j := j - 1;
      ghost var lo, rest, before := outi[j + 1..], limbs[j + 1..], c;
      var t := outi[j] * 58 + c;
      c := t / LIMB;
      outi[j] := t % LIMB;
      assert outi[j..] == [outi[j]] + lo;
      assert limbs[j..] == [limbs[j]] + rest;
      CarryStep(limbs[j], rest, lo, LIMB, 58, before, digit, c, outi[j]);
    }
    assert outi[0..] == outi[..] && limbs[0..] == limbs;
  }

  function Limbs(binsz: nat): nat { (binsz + 3) / 4 }

  /**
   outi[0] & zeromask: zeromask is 0 when bytesleft is 0, and otherwise keeps the bits of the
   limb from 8 * bytesleft up, that is, the quotient below.
   */
  predicate Overfilled(limb: nat, bytesleft: nat)
    requires bytesleft < 4
  {
    match bytesleft
    case 0 => false
    case 1 => limb / 0x100 != 0
    case 2 => limb / 0x1_0000 != 0
    case 3 => limb / 0x100_0000 != 0
  }

  lemma LimbIsFourBytes(n: nat)
    ensures Pow(LIMB, n) == Pow(256, 4 * n)
  {
    assert Pow(256, 2) == 65536;
    assert Pow(256, 4) == LIMB;
    PowPow(256, 4, n);
  }

  /** The bytes of the top limb that the buffer has room for. */
  function TopBytes(binsz: nat): nat { if binsz % 4 == 0 then 4 else binsz % 4 }

  lemma TopCapacity(limb: nat, binsz: nat)
    requires limb < LIMB
    ensures limb < Pow(256, TopBytes(binsz)) <==> !Overfilled(limb, binsz % 4)
  {
    assert Pow(256, 1) == 0x100;
    assert Pow(256, 2) == 0x1_0000;
    assert Pow(256, 3) == 0x100_0000;
    assert Pow(256, 4) == LIMB;
  }

  lemma TopLimb(top: nat, p: nat, w: nat, low: nat)
    requires low < w
    ensures top * w + low < p * w <==> top < p
  {
    if top < p {
      MulStrict(top, p, w);
    } else {
      MulMono(p, top, w, w);
    }
  }

  lemma LimbsFit(limbs: seq<nat>, binsz: nat)
    requires |limbs| == Limbs(binsz) > 0 && AllBelow(limbs, LIMB)
    ensures Value(limbs, LIMB) < Pow(256, binsz) <==> !Overfilled(limbs[0], binsz % 4)
  {
    hide Pow, Value;
    var n, k := |limbs|, TopBytes(binsz);
    assert limbs == [limbs[0]] + limbs[1..];
    ValueCons(limbs[0], limbs[1..], LIMB);
    ValueBound(limbs[1..], LIMB);
    LimbIsFourBytes(n - 1);
    assert binsz == k + 4 * (n - 1);
    PowAdd(256, k, 4 * (n - 1));
    TopLimb(limbs[0], Pow(256, k), Pow(LIMB, n - 1), Value(limbs[1..], LIMB));
    TopCapacity(limbs[0], binsz);
  }

  /** The number of a buffer of binsz bytes is too large exactly when the C code says so. */
  lemma FitsExactly(limbs: seq<nat>, c: nat, binsz: nat)
    requires |limbs| == Limbs(binsz) && AllBelow(limbs, LIMB)
    requires limbs == [] ==> c > 0
    ensures WithCarry(c, limbs, LIMB) < Pow(256, binsz)
        <==> c == 0 && !Overfilled(limbs[0], binsz % 4)
  {
    var n := |limbs|;
    if c > 0 {
      LimbIsFourBytes(n);
      PowMonoExp(256, binsz, 4 * n);
      MulMono(1, c, Pow(LIMB, n), Pow(LIMB, n));
    } else {
      LimbsFit(limbs, binsz);
    }
  }

  /** Once a prefix of the digits is too large, or one is invalid, the text has no decoding. */
  lemma NoDecoding(text: seq<byte>, i: nat, binsz: nat)
    requires Leading(text, ONE) <= i < |text|
    requires Valid(text[Leading(text, ONE)..i])
    requires DigitOf(text[i]) == -1
          || Value(DigitsOf(text[Leading(text, ONE)..i]), 58) * 58 + DigitOf(text[i]) >= Pow(256, binsz)
    ensures Decode(text, binsz) == None
  {
    var z := Leading(text, ONE);
    assert text[z..] == (text[z..i] + [text[i]]) + text[i + 1..];
    NoNumber(text[z..i], text[i], text[i + 1..], Pow(256, binsz));
  }

  lemma NoNumber(first: seq<byte>, c: byte, last: seq<byte>, bound: nat)
    requires Valid(first)
    requires DigitOf(c) == -1 || Value(DigitsOf(first), 58) * 58 + DigitOf(c) >= bound
    ensures var rest := (first + [c]) + last;
            Valid(rest) ==> Value(DigitsOf(rest), 58) >= bound
  {
    hide Value;
    var rest := (first + [c]) + last;
    assert rest[|first|] == c;
    if Valid(rest) {
      DigitsConcat(first + [c], last);
      DigitsConcat(first, [c]);
      assert DigitsOf([c]) == [DigitOf(c)];
      ValueSnoc(DigitsOf(first), DigitOf(c), 58);
      PrefixNoLarger(DigitsOf(first + [c]), DigitsOf(last), 58);
    }
  }

  lemma PrefixNoLarger(s: seq<nat>, t: seq<nat>, base: nat)
    requires base > 0
    ensures Value(s, base) <= Value(s + t, base)
  {
    ValueConcat(s, t, base);
    PowPositive(base, |t|);
    MulMono(Value(s, base), Value(s, base), 1, Pow(base, |t|));
  }

  lemma DigitsConcat(s: seq<byte>, t: seq<byte>)
    requires Valid(s + t)
    ensures Valid(s) && Valid(t) && DigitsOf(s + t) == DigitsOf(s) + DigitsOf(t)
  {
    assert forall i :: 0 <= i < |s| ==> s[i] == (s + t)[i];
    assert forall i :: 0 <= i < |t| ==> t[i] == (s + t)[|s| + i];
  }

  /** The digit loop: the limbs take the number of the text, unless it cannot be decoded. */
  method ReadDigits(outi: array<nat>, text: seq<byte>, z: nat, binsz: nat) returns (ok: bool)
    requires z == Leading(text, ONE) && outi.Length == Limbs(binsz)
    requires forall k :: 0 <= k < outi.Length ==> outi[k] == 0
    modifies outi
    ensures AllBelow(outi[..], LIMB)
    ensures ok ==> Valid(text[z..]) && Value(outi[..], LIMB) == Value(DigitsOf(text[z..]), 58) < Pow(256, binsz)
    ensures !ok ==> Decode(text, binsz) == None
  {
    hide Pow, Value, WithCarry, Fixed;
    var i := z;
    AllZeros(outi[..], LIMB);
    NothingDone(0, 58);
    PowPositive(256, binsz);
    while i < |text|
      invariant z <= i <= |text| && AllBelow(outi[..], LIMB)
      invariant Valid(text[z..i])
      invariant Value(outi[..], LIMB) == Value(DigitsOf(text[z..i]), 58) < Pow(256, binsz)
      invariant outi.Length == 0 ==> i == z
    {
      if text[i] >= 128 || DigitOf(text[i]) == -1 {
        NoDecoding(text, i, binsz);
        return false;
      }
      var c := PushDigit(outi, DigitOf(text[i]));
      FitsExactly(outi[..], c, binsz);
      CarryZero(outi[..], LIMB);
      if c != 0 || Overfilled(outi[0], binsz % 4) {
        NoDecoding(text, i, binsz);
        return false;
      }
      assert text[z..i + 1] == text[z..i] + [text[i]];
      assert DigitsOf(text[z..i + 1]) == DigitsOf(text[z..i]) + [DigitOf(text[i])];
      ValueSnoc(DigitsOf(text[z..i]), DigitOf(text[i]), 58);
      i := i + 1;
    }
    assert text[z..i] == text[z..];
    ok := true;
  }

  /** Shifting and masking picks the big-endian bytes of a limb. */
  lemma {:induction false} FixedByShift(limb: nat, k: nat, m: nat)
    requires m < k
    ensures Fixed(limb, 256, k)[m] == Shift(limb, k - 1 - m) % 256
    decreases k
  {
    if m < k - 1 {
      FixedByShift(limb / 256, k - 1, m);
      ShiftQuotient(limb, k - 2 - m);
    }
  }

  /** A buffer with some bytes overwritten from pos on. */
  function Patch(s: seq<byte>, pos: nat, bytes: seq<byte>): (r: seq<byte>)
    requires pos + |bytes| <= |s|
    ensures |r| == |s|
  {
    s[..pos] + bytes + s[pos + |bytes|..]
  }

  lemma PatchNext(s: seq<byte>, done: seq<byte>, bytes: seq<byte>)
    requires |done| + |bytes| <= |s|
    ensures Patch(Patch(s, 0, done), |done|, bytes) == Patch(s, 0, done + bytes)
    ensures Patch(s, 0, []) == s
    ensures Patch(s, 0, done) == done + s[|done|..]
  {
  }

  /** Writes the low k bytes of a limb, most significant first, at pos. */
  method WriteLimb(bin: array<byte>, pos: nat, limb: nat, k: nat)
    requires pos + k <= bin.Length
    modifies bin
    ensures bin[..] == Patch(old(bin[..]), pos, Fixed(limb, 256, k))
  {
    ghost var before := bin[..];
    var i := k;
    while i > 0
      invariant 0 <= i <= k
      invariant forall m :: 0 <= m < k - i ==> bin[pos + m] == Fixed(limb, 256, k)[m]
      invariant forall m :: 0 <= m < pos || pos + (k - i) <= m < bin.Length ==> bin[m] == before[m]
    {
      FixedByShift(limb, k, k - i);
      bin[pos + (k - i)] := Shift(limb, i - 1) % 256;
      i := i - 1;
    }
  }

  /** Appending the k bytes of a limb to big-endian bytes. */
  lemma AppendLimb(bytes: seq<byte>, limb: nat, k: nat)
    requires limb < Pow(256, k)
    ensures Value(bytes + Fixed(limb, 256, k), 256) == Value(bytes, 256) * Pow(256, k) + limb
  {
    ValueConcat(bytes, Fixed(limb, 256, k), 256);
    FixedValue(limb, 256, k);
  }

  /** The bytes of the first j limbs, the first limb contributing TopBytes(binsz) of them. */
  ghost predicate Laid(bytes: seq<byte>, outi: seq<nat>, j: nat, binsz: nat)
    requires j <= |outi|
  {
    && |bytes| + 4 * (|outi| - j) == binsz
    && Value(bytes, 256) == Value(outi[..j], LIMB)
  }

  lemma LayNone(outi: seq<nat>, binsz: nat)
    requires 4 * |outi| == binsz
    ensures Laid([], outi, 0, binsz)
  {
  }

  lemma LayTop(outi: seq<nat>, binsz: nat)
    requires |outi| == Limbs(binsz) > 0 && AllBelow(outi, LIMB)
    requires Value(outi, LIMB) < Pow(256, binsz)
    ensures Laid(Fixed(outi[0], 256, TopBytes(binsz)), outi, 1, binsz)
  {
    hide Pow, Value, Fixed;
    var k := TopBytes(binsz);
    assert k + 4 * (|outi| - 1) == binsz;
    assert Value(Fixed(outi[0], 256, k), 256) == outi[0] by {
      LimbsFit(outi, binsz);
      TopCapacity(outi[0], binsz);
      FixedValue(outi[0], 256, k);
    }
    assert Value(outi[..1], LIMB) == outi[0] by {
      assert outi[..1] == outi[..0] + [outi[0]];
      NothingDone(0, LIMB);
      ValueSnoc(outi[..0], outi[0], LIMB);
    }
  }

  lemma LayNext(bytes: seq<byte>, outi: seq<nat>, j: nat, binsz: nat)
    requires j < |outi| && AllBelow(outi, LIMB) && Laid(bytes, outi, j, binsz)
    ensures Laid(bytes + Fixed(outi[j], 256, 4), outi, j + 1, binsz)
  {
    LimbIsFourBytes(1);
    assert Pow(LIMB, 1) == LIMB;
    AppendLimb(bytes, outi[j], 4);
    assert outi[..j + 1] == outi[..j] + [outi[j]];
    ValueSnoc(outi[..j], outi[j], LIMB);
  }

  /** Lays the limbs out as binsz big-endian bytes. */
  method WriteBytes(bin: array<byte>, binsz: nat, outi: seq<nat>)
    requires |outi| == Limbs(binsz) && AllBelow(outi, LIMB) && binsz <= bin.Length
    requires Value(outi, LIMB) < Pow(256, binsz)
    modifies bin
    ensures bin[..] == Fixed(Value(outi, LIMB), 256, binsz) + old(bin[..])[binsz..]
  {
    hide Pow, Value, Fixed, Laid, Patch;
    ghost var before, done: seq<byte> := bin[..], [];
    PatchNext(before, [], []);
    var bytesleft := binsz % 4;
    var j, pos := 0, 0;
    if bytesleft != 0 {
      WriteLimb(bin, 0, outi[0], bytesleft);
      LayTop(outi, binsz);
      done := Fixed(outi[0], 256, bytesleft);
      j, pos := 1, bytesleft;
    } else {
      LayNone(outi, binsz);
    }
    while j < |outi|
      invariant 0 <= j <= |outi| && pos == |done| && pos + 4 * (|outi| - j) == binsz
      invariant bin[..] == Patch(before, 0, done)
      invariant Laid(done, outi, j, binsz)
    {
      LayNext(done, outi, j, binsz);
      PatchNext(before, done, Fixed(outi[j], 256, 4));
      WriteLimb(bin, pos, outi[j], 4);
      done := done + Fixed(outi[j], 256, 4);
      j, pos := j + 1, pos + 4;
    }
    AllLaid(done, outi, binsz);
    PatchNext(before, done, []);
  }

  lemma AllLaid(bytes: seq<byte>, outi: seq<nat>, binsz: nat)
    requires Laid(bytes, outi, |outi|, binsz)
    ensures bytes == Fixed(Value(outi, LIMB), 256, binsz)
  {
    assert outi[..|outi|] == outi;
    ValueFixed(bytes, 256);
  }

  /**
   b58tobin. A size argument of 0 means the text is a C string. The bytes are right-aligned
   in the first binsz cells of bin; newsz is what the size pointer holds afterwards.
   */
  method B58ToBin(bin: array<byte>, binsz: nat, b58: seq<byte>, b58szArg: nat) returns (ok: bool, newsz: nat)
    requires binsz <= bin.Length && b58szArg <= |b58|
    modifies bin
    ensures var text := b58[..if b58szArg == 0 then IndexOf(b58, 0) else b58szArg];
      match Decode(text, binsz)
      case None => !ok && newsz == binsz && bin[..] == old(bin[..])
      case Some((bytes, size)) => ok && newsz == size && bin[..] == bytes + old(bin[..])[binsz..]
  {
    hide Pow, Value, Fixed;
    var b58sz := if b58szArg == 0 then IndexOf(b58, 0) else b58szArg;
    var text := b58[..b58sz];
    newsz := binsz;
    var outi := new nat[Limbs(binsz)](_ => 0);
    var zerocount := 0;
    while zerocount < b58sz && text[zerocount] == ONE
      invariant 0 <= zerocount <= b58sz
      invariant forall k :: 0 <= k < zerocount ==> text[k] == ONE
    {
      zerocount := zerocount + 1;
    }
    LeadingUnique(text, ONE, zerocount);
    ok := ReadDigits(outi, text, zerocount, binsz);
    if !ok {
      return;
    }
    WriteBytes(bin, binsz, outi[..]);
    var i := 0;
    while i < binsz && bin[i] == 0
      invariant 0 <= i <= binsz && newsz == binsz - i
      invariant forall k :: 0 <= k < i ==> bin[k] == 0
    {
      i, newsz := i + 1, newsz - 1;
    }
    LeadingUnique(bin[..binsz], 0, i);
    newsz := newsz + zerocount;
  }
}
