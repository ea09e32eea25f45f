/**
 Positional numbers: a sequence of digits, most significant first, read in a base.
 Base58 cells, 32-bit limbs, bytes and 5-bit Bech32 symbols are all such sequences,
 so the base conversions of the firmware are stated as equalities between values.
 */
module Digits {

  type byte = x: int | 0 <= x < 256

  function Pow(base: nat, e: nat): nat {
    if e == 0 then 1 else Pow(base, e - 1) * base
  }

  /** The number a digit sequence denotes, most significant digit first. */
  function Value(s: seq<nat>, base: nat): nat {
    if s == [] then 0 else Value(s[..|s| - 1], base) * base + s[|s| - 1]
  }

  predicate AllBelow(s: seq<nat>, base: nat) {
    forall i :: 0 <= i < |s| ==> s[i] < base
  }

  function Repeat(x: nat, n: nat): (s: seq<nat>)
    ensures |s| == n && forall i :: 0 <= i < n ==> s[i] == x
  {
    seq(n, _ => x)
  }

  /** The n low digits of v. */
  function Fixed(v: nat, base: nat, n: nat): (s: seq<nat>)
    requires base > 0
    ensures |s| == n && AllBelow(s, base)
    decreases n
  {
    if n == 0 then [] else
      DivMod(v, base);
      Fixed(v / base, base, n - 1) + [v % base]
  }

  /** The digits of v without leading zeros; none at all for 0. */
  function Shortest(v: nat, base: nat): (s: seq<nat>)
    requires base > 1
    ensures AllBelow(s, base)
    ensures s != [] ==> s[0] != 0
    ensures (s == []) == (v == 0)
    decreases v
  {
    if v == 0 then [] else
      DivSmaller(v, base);
      DivMod(v, base);
      Shortest(v / base, base) + [v % base]
  }

  /** How many leading entries equal x. */
  function Leading(s: seq<nat>, x: nat): (n: nat)
    ensures n <= |s|
    ensures forall i :: 0 <= i < n ==> s[i] == x
    ensures n < |s| ==> s[n] != x
  {
    if s == [] || s[0] != x then 0 else 1 + Leading(s[1..], x)
  }

  lemma {:induction false} LeadingUnique(s: seq<nat>, x: nat, n: nat)
    requires n <= |s|
    requires forall i :: 0 <= i < n ==> s[i] == x
    requires n < |s| ==> s[n] != x
    ensures Leading(s, x) == n
  {
    if n > 0 {
      LeadingUnique(s[1..], x, n - 1);
    }
  }

  /** The position of the first x, the length if there is none. */
  function IndexOf(s: seq<byte>, x: byte): (n: nat)
    ensures n <= |s| && (n < |s| ==> s[n] == x)
    ensures forall i :: 0 <= i < n ==> s[i] != x
  {
    if s == [] || s[0] == x then 0 else 1 + IndexOf(s[1..], x)
  }

  lemma {:induction false} IndexOfUnique(s: seq<byte>, x: byte, n: nat)
    requires n <= |s| && (n < |s| ==> s[n] == x)
    requires forall i :: 0 <= i < n ==> s[i] != x
    ensures IndexOf(s, x) == n
    decreases n
  {
    if n > 0 {
      IndexOfUnique(s[1..], x, n - 1);
    }
  }

  lemma {:induction false} IndexOfConcat(s: seq<byte>, t: seq<byte>, x: byte)
    ensures IndexOf(s + t, x) == if IndexOf(s, x) < |s| then IndexOf(s, x) else |s| + IndexOf(t, x)
    decreases |s|
  {
    if s == [] {
      assert s + t == t;
    } else {
      assert (s + t)[1..] == s[1..] + t;
      IndexOfConcat(s[1..], t, x);
    }
  }

  lemma SpreadHead<T>(x: T, a: seq<T>, b: seq<T>)
    ensures ([x] + a) + b == [x] + (a + b)
  {
  }

  // ---------- multiplication and division ----------

  lemma MulMono(a: nat, b: nat, c: nat, d: nat)
    requires a <= b && c <= d
    ensures a * c <= b * d
  {
    assert a * c <= b * c;
    assert b * c <= b * d;
  }

  lemma MulStrict(a: nat, b: nat, c: nat)
    requires a < b && c > 0
    ensures a * c + c <= b * c
  {
    var k: nat := b - a - 1;
    assert b * c == (a + 1 + k) * c == a * c + c + k * c;
  }

  lemma Distribute(v: nat, p: nat, w: nat, base: nat)
    ensures (v * p + w) * base == v * (p * base) + w * base
  {
  }

  lemma DivMod(v: nat, base: nat)
    requires base > 0
    ensures v == (v / base) * base + v % base
    ensures 0 <= v / base && 0 <= v % base < base
  {
  }

  lemma DivSmaller(v: nat, base: nat)
    requires v > 0 && base > 1
    ensures v / base < v
  {
    DivMod(v, base);
    MulMono(v / base, v / base, 2, base);
  }

  /** Division with remainder is the only way to split a number. */
  lemma DivModUnique(q: nat, r: nat, base: nat)
    requires r < base
    ensures (q * base + r) / base == q
    ensures (q * base + r) % base == r
  {
    var v := q * base + r;
    var q': nat := v / base;
    DivMod(v, base);
    if q < q' {
      MulStrict(q, q', base);
    } else if q' < q {
      MulStrict(q', q, base);
    }
  }

  // ---------- powers ----------

  lemma PowPositive(base: nat, e: nat)
    requires base > 0
    ensures Pow(base, e) > 0
  {
    if e > 0 {
      PowPositive(base, e - 1);
      MulMono(1, Pow(base, e - 1), 1, base);
    }
  }

  lemma {:induction false} PowAdd(base: nat, a: nat, b: nat)
    ensures Pow(base, a + b) == Pow(base, a) * Pow(base, b)
  {
    if b > 0 {
      PowAdd(base, a, b - 1);
      Distribute(Pow(base, a), Pow(base, b - 1), 0, base);
    }
  }

  lemma {:induction false} PowPow(base: nat, a: nat, b: nat)
    ensures Pow(Pow(base, a), b) == Pow(base, a * b)
  {
    if b > 0 {
      PowPow(base, a, b - 1);
      PowAdd(base, a * (b - 1), a);
      assert a * (b - 1) + a == a * b;
    }
  }

  lemma {:induction false} PowMonoBase(a: nat, b: nat, e: nat)
    requires a <= b
    ensures Pow(a, e) <= Pow(b, e)
  {
    if e > 0 {
      PowMonoBase(a, b, e - 1);
      MulMono(Pow(a, e - 1), Pow(b, e - 1), a, b);
    }
  }

  lemma {:induction false} PowMonoExp(base: nat, a: nat, b: nat)
    requires base > 0 && a <= b
    ensures Pow(base, a) <= Pow(base, b)
  {
    PowAdd(base, a, b - a);
    PowPositive(base, b - a);
    MulMono(Pow(base, a), Pow(base, a), 1, Pow(base, b - a));
  }

  lemma {:induction false} PowStrictBase(a: nat, b: nat, e: nat)
    requires a < b && e > 0
    ensures Pow(a, e) < Pow(b, e)
  {
    PowMonoBase(a, b, e - 1);
    var x, y := Pow(a, e - 1), Pow(b, e - 1);
    PowPositive(b, e - 1);
    MulMono(x, y, a, a);
    MulStrict(a, b, y);
    assert y * b == b * y && y * a == a * y;
  }

  // ---------- values ----------

  lemma ValueSnoc(s: seq<nat>, d: nat, base: nat)
    ensures Value(s + [d], base) == Value(s, base) * base + d
  {
    assert (s + [d])[..|s|] == s;
  }

  lemma {:induction false} ValueConcat(s: seq<nat>, t: seq<nat>, base: nat)
    ensures Value(s + t, base) == Value(s, base) * Pow(base, |t|) + Value(t, base)
  {
    if t == [] {
      assert s + t == s;
    } else {
      var t', d := t[..|t| - 1], t[|t| - 1];
      assert s + t == (s + t') + [d];
      assert t == t' + [d];
      ValueConcat(s, t', base);
      ValueSnoc(s + t', d, base);
      Distribute(Value(s, base), Pow(base, |t'|), Value(t', base), base);
    }
  }

  lemma {:induction false} ValueBound(s: seq<nat>, base: nat)
    requires AllBelow(s, base)
    ensures Value(s, base) < Pow(base, |s|)
  {
    if s != [] {
      assert s[|s| - 1] < base;
      ValueBound(s[..|s| - 1], base);
      MulStrict(Value(s[..|s| - 1], base), Pow(base, |s| - 1), base);
    }
  }

  lemma {:induction false} ValueOfZeros(n: nat, base: nat)
    ensures Value(Repeat(0, n), base) == 0
  {
    if n > 0 {
      assert Repeat(0, n)[..n - 1] == Repeat(0, n - 1);
      ValueOfZeros(n - 1, base);
    }
  }

  /** Leading zeros do not change the value. */
  lemma ValueSkipZeros(s: seq<nat>, n: nat, base: nat)
    requires n <= |s|
    requires forall i :: 0 <= i < n ==> s[i] == 0
    ensures Value(s, base) == Value(s[n..], base)
  {
    assert s == Repeat(0, n) + s[n..];
    ValueConcat(Repeat(0, n), s[n..], base);
    ValueOfZeros(n, base);
  }

  /** A digit sequence of known length is determined by its value. */
  lemma {:induction false} ValueFixed(s: seq<nat>, base: nat)
    requires base > 0
    requires AllBelow(s, base)
    ensures Fixed(Value(s, base), base, |s|) == s
  {
    if s != [] {
      DivModUnique(Value(s[..|s| - 1], base), s[|s| - 1], base);
      ValueFixed(s[..|s| - 1], base);
    }
  }

  lemma ValueUnique(s: seq<nat>, t: seq<nat>, base: nat)
    requires base > 0
    requires AllBelow(s, base) && AllBelow(t, base)
    requires |s| == |t| && Value(s, base) == Value(t, base)
    ensures s == t
  {
    ValueFixed(s, base);
    ValueFixed(t, base);
  }

  lemma {:induction false} FixedValue(v: nat, base: nat, n: nat)
    requires base > 0
    requires v < Pow(base, n)
    ensures Value(Fixed(v, base, n), base) == v
    decreases n
  {
    if n > 0 {
      var q: nat, d: nat, p := v / base, v % base, Pow(base, n - 1);
      assert v == q * base + d by { DivMod(v, base); }
      assert q < p by {
        if p <= q {
          MulMono(p, q, base, base);
        }
      }
      FixedValue(q, base, n - 1);
      ValueSnoc(Fixed(q, base, n - 1), d, base);
    }
  }

  lemma {:induction false} ShortestValue(v: nat, base: nat)
    requires base > 1
    ensures Value(Shortest(v, base), base) == v
    decreases v
  {
    if v > 0 {
      DivSmaller(v, base);
      DivMod(v, base);
      ShortestValue(v / base, base);
      ValueSnoc(Shortest(v / base, base), v % base, base);
    }
  }

  /** The shortest form is the only form that starts with a nonzero digit. */
  lemma {:induction false} ShortestUnique(s: seq<nat>, base: nat)
    requires base > 1
    requires AllBelow(s, base)
    requires s != [] ==> s[0] != 0
    ensures Shortest(Value(s, base), base) == s
  {
    if s != [] {
      var t, d := s[..|s| - 1], s[|s| - 1];
      ShortestUnique(t, base);
      DivModUnique(Value(t, base), d, base);
      if t != [] {
        assert Value(t, base) != 0;
        MulMono(1, Value(t, base), 1, base);
      }
    }
  }

  // ---------- little-endian bytes ----------

  /** The n low bytes of v, least significant first. */
  function Little(v: nat, n: nat): (s: seq<byte>)
    ensures |s| == n
    decreases n
  {
    if n == 0 then [] else [v % 256] + Little(v / 256, n - 1)
  }

  function LittleValue(s: seq<byte>): nat {
    if s == [] then 0 else s[0] + 256 * LittleValue(s[1..])
  }

  lemma {:induction false} LittleRoundTrip(v: nat, n: nat)
    requires v < Pow(256, n)
    ensures LittleValue(Little(v, n)) == v
    decreases n
  {
    if n > 0 {
      LittleRoundTrip(v / 256, n - 1);
      assert Little(v, n)[1..] == Little(v / 256, n - 1);
    }
  }

  lemma {:induction false} LittleMod(v: nat, n: nat)
    ensures Pow(256, n) > 0 && LittleValue(Little(v, n)) == v % Pow(256, n)
    decreases n
  {
    PowPositive(256, n);
    if n > 0 {
      LittleMod(v / 256, n - 1);
      ModSplit(v, 256, Pow(256, n - 1));
    }
  }

  lemma ModSplit(v: nat, b: nat, p: nat)
    requires b > 0 && p > 0
    ensures p * b > 0 && v % (p * b) == v % b + b * (v / b % p)
  {
    var u, m := v / b, v % b;
    var q, r := u / p, u % p;
    DivMod(v, b);
    DivMod(u, p);
    MulStrict(r, p, b);
    TwoDigits(q, r, m, b, p);
    DivModUnique(q, r * b + m, p * b);
  }

  lemma TwoDigits(q: nat, r: nat, m: nat, b: nat, p: nat)
    ensures (q * p + r) * b + m == q * (p * b) + (r * b + m)
  {
  }

  lemma {:induction false} LittleSnoc(s: seq<byte>, b: byte)
    ensures LittleValue(s + [b]) == LittleValue(s) + b * Pow(256, |s|)
  {
    if s == [] {
      assert [b][1..] == [];
    } else {
      assert (s + [b])[1..] == s[1..] + [b];
      LittleSnoc(s[1..], b);
      LittleShift(b, Pow(256, |s| - 1));
    }
  }

  lemma LittleShift(b: nat, p: nat)
    ensures 256 * (b * p) == b * (p * 256)
  {
  }

  /** Bytes are determined by their number and their value. */
  lemma {:induction false} LittleInverse(s: seq<byte>)
    ensures Little(LittleValue(s), |s|) == s
    decreases |s|
  {
    if s != [] {
      LittleInverse(s[1..]);
      DivModUnique(LittleValue(s[1..]), s[0], 256);
      assert s == [s[0]] + s[1..];
    }
  }

  lemma {:induction false} LittleZeros(s: seq<byte>, n: nat)
    ensures LittleValue(s + Repeat(0, n)) == LittleValue(s)
  {
    if s != [] {
      assert (s + Repeat(0, n))[1..] == s[1..] + Repeat(0, n);
      LittleZeros(s[1..], n);
    } else if n > 0 {
      assert ([] + Repeat(0, n))[1..] == [] + Repeat(0, n - 1);
      LittleZeros([], n - 1);
    }
  }

  lemma {:induction false} LittleBound(s: seq<byte>)
    ensures LittleValue(s) < Pow(256, |s|)
  {
    if s != [] {
      LittleBound(s[1..]);
    }
  }

  /** v >> (8 * i) */
  function Shift(v: nat, i: nat): nat
    decreases i
  {
    if i == 0 then v else Shift(v, i - 1) / 256
  }

  lemma {:induction false} ShiftQuotient(v: nat, i: nat)
    ensures Shift(v / 256, i) == Shift(v, i + 1)
    decreases i
  {
    if i > 0 {
      ShiftQuotient(v, i - 1);
    }
  }

  lemma {:induction false} LittleAt(v: nat, n: nat, i: nat)
    requires i < n
    ensures Little(v, n)[i] == Shift(v, i) % 256
    decreases n
  {
    if i > 0 {
      LittleAt(v / 256, n - 1, i - 1);
      ShiftQuotient(v, i - 1);
    }
  }
}
