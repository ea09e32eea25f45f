/**
 The Bech32 checksum register of components/stratum/segwit_addr.c: a linear, invertible
 step over 30 bits. Everything the code relies on follows from those two facts.
 */
module Polymod {
  import opened Digits

  function Xor(a: bv32, b: bv32): bv32 { a ^ b }

  /** -bit & g: the generator g when the bit is set. */
  function Tap(bit: bv32, g: bv32): bv32 {
    (0 - bit) & g
  }

  /** bech32_polymod_step */
  function Step(pre: bv32): bv32 {
    var b := pre >> 25;
    Xor(Xor(Xor(Xor(Xor((pre & 0x1FFFFFF) << 5,
      Tap((b >> 0) & 1, 0x3b6a57b2)),
      Tap((b >> 1) & 1, 0x26508e6d)),
      Tap((b >> 2) & 1, 0x1ea119fa)),
      Tap((b >> 3) & 1, 0x3d4233dd)),
      Tap((b >> 4) & 1, 0x2a1462b3))
  }

  /** A byte in the register's width. */
  function Word(v: byte): bv32 { v as bv32 }

  /** The register after taking in 5-bit symbols one at a time. */
  function Feed(chk: bv32, s: seq<byte>): bv32 {
    if s == [] then chk else Xor(Step(Feed(chk, s[..|s| - 1])), Word(s[|s| - 1]))
  }

  predicate Symbols(s: seq<byte>) {
    forall i :: 0 <= i < |s| ==> s[i] < 32
  }

  function Zeros(n: nat): (s: seq<byte>)
    ensures |s| == n && Symbols(s)
  {
    seq(n, _ => 0)
  }

  // ---------- exclusive or ----------

  lemma XorAssoc(a: bv32, b: bv32, c: bv32)
    ensures Xor(Xor(a, b), c) == Xor(a, Xor(b, c))
  {
  }

  lemma Interchange(a: bv32, b: bv32, c: bv32, d: bv32)
    ensures Xor(Xor(a, b), Xor(c, d)) == Xor(Xor(a, c), Xor(b, d))
  {
    hide Xor;
    XorAssoc(a, b, Xor(c, d));
    XorAssoc(b, c, d);
    XorLaws(b, c);
    XorAssoc(c, b, d);
    XorAssoc(a, c, Xor(b, d));
  }

  lemma XorLaws(a: bv32, b: bv32)
    ensures Xor(a, b) == 0 ==> a == b
    ensures Xor(a, a) == 0 && Xor(a, 0) == a && Xor(0, a) == a
    ensures Xor(a, Xor(a, b)) == b
    ensures Xor(a, b) == Xor(b, a)
  {
  }

  lemma XorCancel(a: bv32, b: bv32, v: bv32)
    requires Xor(a, v) == Xor(b, v)
    ensures a == b
  {
  }

  lemma XorBound(a: bv32, b: bv32)
    requires a < LIMIT && b < LIMIT
    ensures Xor(a, b) < LIMIT
  {
  }

  // ---------- the step on 30-bit states ----------

  const LIMIT: bv32 := 0x4000_0000

  lemma TapLinear(p: bv32, q: bv32, g: bv32)
    requires p <= 1 && q <= 1
    ensures Tap(Xor(p, q), g) == Xor(Tap(p, g), Tap(q, g))
  {
  }

  /** The bits the step looks at are those of the two registers, added. */
  lemma BitsLinear(a: bv32, b: bv32)
    ensures var x, y, z := a >> 25, b >> 25, Xor(a, b) >> 25;
      && (z >> 0) & 1 == Xor((x >> 0) & 1, (y >> 0) & 1)
      && (z >> 1) & 1 == Xor((x >> 1) & 1, (y >> 1) & 1)
      && (z >> 2) & 1 == Xor((x >> 2) & 1, (y >> 2) & 1)
      && (z >> 3) & 1 == Xor((x >> 3) & 1, (y >> 3) & 1)
      && (z >> 4) & 1 == Xor((x >> 4) & 1, (y >> 4) & 1)
    ensures (Xor(a, b) & 0x1FFFFFF) << 5 == Xor((a & 0x1FFFFFF) << 5, (b & 0x1FFFFFF) << 5)
  {
  }

  lemma OneBit(b: bv32, i: bv6)
    requires i < 5
    ensures (b >> i) & 1 <= 1
  {
  }

  lemma StepLinear(a: bv32, b: bv32)
    ensures Step(Xor(a, b)) == Xor(Step(a), Step(b))
  {
    hide Tap, Xor;
    BitsLinear(a, b);
    var x, y := a >> 25, b >> 25;
    var p0, q0 := (x >> 0) & 1, (y >> 0) & 1;
    var p1, q1 := (x >> 1) & 1, (y >> 1) & 1;
    var p2, q2 := (x >> 2) & 1, (y >> 2) & 1;
    var p3, q3 := (x >> 3) & 1, (y >> 3) & 1;
    var p4, q4 := (x >> 4) & 1, (y >> 4) & 1;
    TapLinear(p0, q0, 0x3b6a57b2);
    TapLinear(p1, q1, 0x26508e6d);
    TapLinear(p2, q2, 0x1ea119fa);
    TapLinear(p3, q3, 0x3d4233dd);
    TapLinear(p4, q4, 0x2a1462b3);
    SixPairs((a & 0x1FFFFFF) << 5, (b & 0x1FFFFFF) << 5,
      Tap(p0, 0x3b6a57b2), Tap(q0, 0x3b6a57b2), Tap(p1, 0x26508e6d), Tap(q1, 0x26508e6d),
      Tap(p2, 0x1ea119fa), Tap(q2, 0x1ea119fa), Tap(p3, 0x3d4233dd), Tap(q3, 0x3d4233dd),
      Tap(p4, 0x2a1462b3), Tap(q4, 0x2a1462b3));
  }

  function Sum6(a: bv32, b: bv32, c: bv32, d: bv32, e: bv32, f: bv32): bv32 {
    Xor(Xor(Xor(Xor(Xor(a, b), c), d), e), f)
  }

  lemma SixPairs(a0: bv32, b0: bv32, a1: bv32, b1: bv32, a2: bv32, b2: bv32,
                 a3: bv32, b3: bv32, a4: bv32, b4: bv32, a5: bv32, b5: bv32)
    ensures Sum6(Xor(a0, b0), Xor(a1, b1), Xor(a2, b2), Xor(a3, b3), Xor(a4, b4), Xor(a5, b5))
         == Xor(Sum6(a0, a1, a2, a3, a4, a5), Sum6(b0, b1, b2, b3, b4, b5))
  {
    hide Xor;
    var c1, d1 := Xor(a0, a1), Xor(b0, b1);
    var c2, d2 := Xor(c1, a2), Xor(d1, b2);
    var c3, d3 := Xor(c2, a3), Xor(d2, b3);
    var c4, d4 := Xor(c3, a4), Xor(d3, b4);
    Interchange(a0, b0, a1, b1);
    Interchange(c1, d1, a2, b2);
    Interchange(c2, d2, a3, b3);
    Interchange(c3, d3, a4, b4);
    Interchange(c4, d4, a5, b5);
  }

  lemma StepBound(a: bv32)
    ensures Step(a) < LIMIT
  {
  }

  /** Only the zero state steps to zero. */
  lemma StepKernel(a: bv32)
    requires a < LIMIT && Step(a) == 0
    ensures a == 0
  {
  }

  /** A register with no top bits is only shifted. */
  lemma StepLow(x: bv32)
    requires x < 0x200_0000
    ensures Step(x) == x << 5
  {
    hide Xor, Tap;
    var b := x >> 25;
    assert b == 0;
    NoTaps(b);
    assert (x & 0x1FFFFFF) << 5 == x << 5;
    XorLaws(x << 5, 0);
  }

  // ---------- the step over GF(32) ----------

  function Kept(chk: bv32): bv32 { (chk & 0x1EF7BDEF) << 1 }

  function Over(chk: bv32): bv32 { (chk & 0x21084210) >> 4 }

  function OverUp(chk: bv32): bv32 { (chk & 0x21084210) >> 1 }

  /** The six symbols times the element x of GF(32), which is taken modulo x^5 + x^3 + 1. */
  function Times(chk: bv32): bv32 {
    Xor(Xor(Kept(chk), Over(chk)), OverUp(chk))
  }

  function Upper(chk: bv32): bv32 { chk & 0x3E000000 }

  function Lower(chk: bv32): bv32 { chk & 0x1FFFFFF }

  /** The step is linear over GF(32), so it is determined by what it makes of a single 1. */
  lemma StepOverField(chk: bv32)
    requires chk < LIMIT
    ensures Step(Times(chk)) == Times(Step(chk))
  {
    hide *;
    var low, high := Lower(chk), Upper(chk);
    HalvesOf(chk);
    LowOverField(chk);
    HighOverField(chk);
    TimesLinear(high, low);
    TimesLinear(Step(high), Step(low));
    StepLinear(high, low);
    StepLinear(Times(high), Times(low));
  }

  lemma HalvesOf(chk: bv32)
    requires chk < LIMIT
    ensures chk == Xor(Upper(chk), Lower(chk))
  {
  }

  lemma LowOverField(chk: bv32)
    ensures Step(Times(Lower(chk))) == Times(Step(Lower(chk)))
  {
    hide Step, Times, Lower;
    LowTimes(chk);
    StepLow(Lower(chk));
    StepLow(Times(Lower(chk)));
  }

  lemma LowTimes(chk: bv32)
    ensures Lower(chk) < 0x200_0000 && Times(Lower(chk)) < 0x200_0000
    ensures Times(Lower(chk)) << 5 == Times(Lower(chk) << 5)
  {
  }

  lemma HighOverField(chk: bv32)
    ensures Step(Times(Upper(chk))) == Times(Step(Upper(chk)))
  {
  }

  lemma TimesLinear(a: bv32, b: bv32)
    ensures Times(Xor(a, b)) == Xor(Times(a), Times(b))
  {
    hide Xor, Kept, Over, OverUp;
    KeptLinear(a, b);
    OverLinear(a, b);
    OverUpLinear(a, b);
    Interchange(Kept(a), Kept(b), Over(a), Over(b));
    Interchange(Xor(Kept(a), Over(a)), Xor(Kept(b), Over(b)), OverUp(a), OverUp(b));
  }

  lemma KeptLinear(a: bv32, b: bv32)
    ensures Kept(Xor(a, b)) == Xor(Kept(a), Kept(b))
  {
  }

  lemma OverLinear(a: bv32, b: bv32)
    ensures Over(Xor(a, b)) == Xor(Over(a), Over(b))
  {
  }

  lemma OverUpLinear(a: bv32, b: bv32)
    ensures OverUp(Xor(a, b)) == Xor(OverUp(a), OverUp(b))
  {
  }

  /** The generator of BIP-173: x^6 + 29 x^5 + 22 x^4 + 20 x^3 + 21 x^2 + 29 x + 18. */
  lemma Generator()
    ensures Step(0x200_0000) == 0x3b6a57b2 && Picks(Step(0x200_0000)) == [29, 22, 20, 21, 29, 18]
  {
  }

  lemma NoTaps(b: bv32)
    requires b == 0
    ensures Tap((b >> 0) & 1, 0x3b6a57b2) == 0 && Tap((b >> 1) & 1, 0x26508e6d) == 0
    ensures Tap((b >> 2) & 1, 0x1ea119fa) == 0 && Tap((b >> 3) & 1, 0x3d4233dd) == 0
    ensures Tap((b >> 4) & 1, 0x2a1462b3) == 0
  {
  }

  lemma SymbolBits(v: byte)
    requires v < 32
    ensures Word(v) < 32 && Word(v) as int == v && (v == 0 ==> Word(v) == 0)
  {
  }

  // ---------- feeding ----------

  lemma {:induction false} FeedConcat(chk: bv32, s: seq<byte>, t: seq<byte>)
    ensures Feed(chk, s + t) == Feed(Feed(chk, s), t)
  {
    hide Step, Xor, Word;
    if t == [] {
      assert s + t == s;
    } else {
      assert (s + t)[..|s + t| - 1] == s + t[..|t| - 1];
      FeedConcat(chk, s, t[..|t| - 1]);
    }
  }

  lemma {:induction false} FeedBound(chk: bv32, s: seq<byte>)
    requires chk < LIMIT && Symbols(s)
    ensures Feed(chk, s) < LIMIT
  {
    hide Step, Xor, Word;
    if s != [] {
      var x, v := Step(Feed(chk, s[..|s| - 1])), s[|s| - 1];
      StepBound(Feed(chk, s[..|s| - 1]));
      SymbolBits(v);
      XorBound(x, Word(v));
    }
  }

  /** A register splits into what it held and what was fed. */
  lemma {:induction false} FeedSplit(chk: bv32, s: seq<byte>)
    ensures Feed(chk, s) == Xor(Feed(chk, Zeros(|s|)), Feed(0, s))
  {
    hide Step, Xor, Word;
    if s == [] {
      XorLaws(chk, 0);
    } else {
      var t, v := s[..|s| - 1], Word(s[|s| - 1]);
      assert Zeros(|s|)[..|s| - 1] == Zeros(|t|);
      FeedSplit(chk, t);
      SymbolBits(0);
      var x, y := Feed(chk, Zeros(|t|)), Feed(0, t);
      StepLinear(x, y);
      Interchange(Step(x), Step(y), 0, v);
      XorLaws(Step(x), v);
      XorLaws(v, 0);
    }
  }

  /** Feeding the same symbols to different states keeps them different. */
  lemma {:induction false} FeedInjective(a: bv32, b: bv32, s: seq<byte>)
    requires a < LIMIT && b < LIMIT && Symbols(s)
    requires Feed(a, s) == Feed(b, s)
    ensures a == b
  {
    hide Step, Xor, Word;
    if s != [] {
      var t, v := s[..|s| - 1], Word(s[|s| - 1]);
      var x, y := Feed(a, t), Feed(b, t);
      FeedBound(a, t);
      FeedBound(b, t);
      StepLinear(x, y);
      XorCancel(Step(x), Step(y), v);
      XorLaws(Step(x), 0);
      XorBound(x, y);
      StepKernel(Xor(x, y));
      XorLaws(x, y);
      FeedInjective(a, b, t);
    }
  }

  // ---------- the checksum symbols ----------

  /** word & 0x1f */
  function Low(word: bv32): (v: byte)
    ensures v < 32 && Word(v) == word & 0x1f
  {
    SmallBits(word & 0x1f);
    (word & 0x1f) as int
  }

  lemma SmallBits(x: bv32)
    requires x == x & 0x1f
    ensures x < 32 && (x as int) < 32 && (x as int) as bv32 == x
  {
  }

  /** The six symbols (chk >> ((5 - i) * 5)) & 0x1f the encoder appends. */
  function Picks(chk: bv32): (s: seq<byte>)
    ensures |s| == 6 && Symbols(s)
  {
    Six(chk >> 25, chk >> 20, chk >> 15, chk >> 10, chk >> 5, chk)
  }

  function Six(a: bv32, b: bv32, c: bv32, d: bv32, e: bv32, f: bv32): (s: seq<byte>)
    ensures |s| == 6 && Symbols(s)
  {
    [Low(a)] + [Low(b)] + [Low(c)] + [Low(d)] + [Low(e)] + [Low(f)]
  }

  /** z is the word above, shifted up to make room for one more symbol. */
  predicate Extends(above: bv32, z: bv32) {
    z < LIMIT && z >> 5 == above
  }

  lemma Append(above: bv32, z: bv32, s: seq<byte>)
    requires Extends(above, z) && Feed(0, s) == above
    ensures Feed(0, s + [Low(z)]) == z
  {
    hide Step, Xor, Word, Low;
    assert (s + [Low(z)])[..|s|] == s;
    Regroup(z);
    StepLow(z >> 5);
  }

  lemma AppendSix(a: bv32, b: bv32, c: bv32, d: bv32, e: bv32, f: bv32)
    requires Extends(0, a) && Extends(a, b) && Extends(b, c) && Extends(c, d) && Extends(d, e) && Extends(e, f)
    ensures Feed(0, Six(a, b, c, d, e, f)) == f
  {
    hide Step, Xor, Word, Low, Extends, Feed;
    var s1 := [Low(a)];
    var s2 := s1 + [Low(b)];
    var s3 := s2 + [Low(c)];
    var s4 := s3 + [Low(d)];
    var s5 := s4 + [Low(e)];
    FeedNothing();
    Append(0, a, []);
    assert [] + [Low(a)] == s1;
    Append(a, b, s1);
    Append(b, c, s2);
    Append(c, d, s3);
    Append(d, e, s4);
    Append(e, f, s5);
  }

  lemma FeedNothing()
    ensures Feed(0, []) == 0
  {
  }

  /** Fed to an empty register, the six symbols rebuild the word they were picked from. */
  lemma FeedPicks(chk: bv32)
    requires chk < LIMIT
    ensures Feed(0, Picks(chk)) == chk
  {
    hide Low, Feed, Six;
    ShiftChain(chk);
    AppendSix(chk >> 25, chk >> 20, chk >> 15, chk >> 10, chk >> 5, chk);
  }

  lemma ShiftChain(chk: bv32)
    requires chk < LIMIT
    ensures Extends(0, chk >> 25) && Extends(chk >> 25, chk >> 20) && Extends(chk >> 20, chk >> 15)
    ensures Extends(chk >> 15, chk >> 10) && Extends(chk >> 10, chk >> 5) && Extends(chk >> 5, chk)
  {
  }

  lemma Regroup(z: bv32)
    requires z < LIMIT
    ensures z >> 5 < 0x200_0000
    ensures Xor((z >> 5) << 5, z & 0x1f) == z
  {
  }

  // ---------- up to six symbols are laid side by side ----------

  /** 32 to the power n, for up to five symbols below the top. */
  function Cap(n: nat): bv32 {
    match n
    case 0 => 1
    case 1 => 0x20
    case 2 => 0x400
    case 3 => 0x8000
    case 4 => 0x10_0000
    case _ => 0x200_0000
  }

  lemma FeedSnoc(chk: bv32, s: seq<byte>, v: byte)
    ensures Feed(chk, s + [v]) == Xor(Step(Feed(chk, s)), Word(v))
  {
    hide Step, Xor, Word;
    assert (s + [v])[..|s|] == s;
  }

  lemma ShiftCap(x: bv32, v: bv32, n: nat)
    requires n < 5 && x < Cap(n) && v < 32
    ensures Xor(x << 5, v) < Cap(n + 1)
  {
  }

  lemma CapTop(x: bv32, n: nat)
    requires n <= 5 && x < Cap(n)
    ensures x < 0x200_0000
  {
  }

  lemma CapZero()
    ensures 0 < Cap(0)
  {
  }

  lemma SymbolCap(x: bv32, v: byte, n: nat)
    requires n < 5 && x < Cap(n) && v < 32
    ensures Xor(Step(x), Word(v)) < Cap(n + 1)
  {
    hide Step, Xor, Word, Cap;
    CapTop(x, n);
    StepLow(x);
    SymbolBits(v);
    ShiftCap(x, Word(v), n);
  }

  lemma {:induction false} FeedCap(s: seq<byte>)
    requires |s| <= 5 && Symbols(s)
    ensures Feed(0, s) < Cap(|s|)
  {
    hide Step, Xor, Word, Cap;
    if s == [] {
      CapZero();
    } else {
      FeedCap(s[..|s| - 1]);
      SymbolCap(Feed(0, s[..|s| - 1]), s[|s| - 1], |s| - 1);
    }
  }

  lemma SplitShift(x: bv32, y: bv32, v: bv32, w: bv32)
    requires x < 0x200_0000 && y < 0x200_0000 && v < 32 && w < 32
    requires Xor(x << 5, v) == Xor(y << 5, w)
    ensures x == y && v == w
  {
  }

  lemma FeedLow(s: seq<byte>)
    requires |s| <= 5 && Symbols(s)
    ensures Feed(0, s) < 0x200_0000
  {
    hide Cap, Feed;
    FeedCap(s);
    CapTop(Feed(0, s), |s|);
  }

  lemma SplitLast(x: bv32, y: bv32, v: byte, w: byte)
    requires x < 0x200_0000 && y < 0x200_0000 && v < 32 && w < 32
    requires Xor(Step(x), Word(v)) == Xor(Step(y), Word(w))
    ensures x == y && v == w
  {
    hide Step, Xor, Word;
    StepLow(x);
    StepLow(y);
    SymbolBits(v);
    SymbolBits(w);
    SplitShift(x, y, Word(v), Word(w));
  }

  lemma LastUnique(s: seq<byte>, v: byte, t: seq<byte>, w: byte)
    requires |s| == |t| <= 5 && Symbols(s) && Symbols(t) && v < 32 && w < 32
    requires Feed(0, s + [v]) == Feed(0, t + [w])
    ensures v == w && Feed(0, s) == Feed(0, t)
  {
    hide Step, Xor, Word, Feed;
    FeedSnoc(0, s, v);
    FeedSnoc(0, t, w);
    FeedLow(s);
    FeedLow(t);
    SplitLast(Feed(0, s), Feed(0, t), v, w);
  }

  /** At most six symbols fed to an empty register can be read back. */
  lemma {:induction false} FeedUnique(s: seq<byte>, t: seq<byte>)
    requires |s| == |t| <= 6 && Symbols(s) && Symbols(t)
    requires Feed(0, s) == Feed(0, t)
    ensures s == t
  {
    hide Feed;
    if s != [] {
      var n := |s| - 1;
      assert s == s[..n] + [s[n]] && t == t[..n] + [t[n]];
      LastUnique(s[..n], s[n], t[..n], t[n]);
      FeedUnique(s[..n], t[..n]);
    }
  }

  /**
   Burst detection: two symbol streams that differ only inside a window of at most six
   symbols leave different registers.
   */
  lemma WindowVisible(chk: bv32, a: seq<byte>, w: seq<byte>, w': seq<byte>, b: seq<byte>)
    requires chk < LIMIT && Symbols(a) && Symbols(w) && Symbols(w') && Symbols(b)
    requires |w| == |w'| <= 6
    requires Feed(chk, a + w + b) == Feed(chk, a + w' + b)
    ensures w == w'
  {
    hide Step, Feed, Word;
    var top := Feed(chk, a);
    FeedBound(chk, a);
    FeedConcat(chk, a + w, b);
    FeedConcat(chk, a, w);
    FeedConcat(chk, a + w', b);
    FeedConcat(chk, a, w');
    FeedBound(top, w);
    FeedBound(top, w');
    FeedInjective(Feed(top, w), Feed(top, w'), b);
    FeedSplit(top, w);
    FeedSplit(top, w');
    XorLaws(Feed(top, Zeros(|w|)), Feed(0, w));
    XorLaws(Feed(top, Zeros(|w|)), Feed(0, w'));
    FeedUnique(w, w');
  }

  /**
   Six symbols c close a stream on the constant k exactly when they are the symbols of the
   zero-padded register with k added.
   */
  lemma ClosesExactly(chk: bv32, s: seq<byte>, c: seq<byte>, k: bv32)
    requires chk < LIMIT && k < LIMIT && Symbols(s) && Symbols(c) && |c| == 6
    ensures Feed(chk, s + c) == k <==> c == Picks(Xor(Feed(chk, s + Zeros(6)), k))
  {
    hide Step, Feed, Xor, Word, Picks;
    var top, word := Feed(chk, s + Zeros(6)), Xor(Feed(chk, s + Zeros(6)), k);
    FeedConcat(chk, s, c);
    FeedConcat(chk, s, Zeros(6));
    FeedSplit(Feed(chk, s), c);
    FeedBound(chk, s + Zeros(6));
    XorBound(top, k);
    FeedPicks(word);
    XorLaws(top, k);
    XorLaws(top, Feed(0, c));
    if Feed(chk, s + c) == k {
      FeedUnique(c, Picks(word));
    }
  }
}
