/**
 convert_bits of components/stratum/segwit_addr.c: regrouping a bit string from groups of
 one width into groups of another, through a 32-bit accumulator that overflows.
 */
module BitGroups {
  import opened Options
  import opened Digits

  const WORD: nat := 0x1_0000_0000

  function P(n: nat): nat { Pow(2, n) }

  /** The number of a bit string and its length, cut into whole groups and a remainder. */
  function Whole(v: nat, bits: nat, width: nat): (s: seq<nat>)
    requires width > 0
    ensures |s| == bits / width
  {
    PowPositive(2, bits % width);
    PowPositive(2, width);
    Fixed(v / P(bits % width), P(width), bits / width)
  }

  function Rest(v: nat, bits: nat, width: nat): nat
    requires width > 0
  {
    PowPositive(2, bits % width);
    v % P(bits % width)
  }

  /** A remainder moved up by k bits. */
  function Raised(rest: nat, k: nat): nat { rest * P(k) }

  /** What the conversion yields, with and without padding. */
  function Regroup(s: seq<nat>, inbits: nat, outbits: nat, pad: bool): (d: Option<seq<nat>>)
    requires outbits > 0
    ensures pad ==> d.Some?
  {
    var v, bits := Value(s, P(inbits)), inbits * |s|;
    var r, rest := bits % outbits, Rest(v, bits, outbits);
    if pad then
      Some(Whole(v, bits, outbits) + if r > 0 then [Raised(rest, outbits - r)] else [])
    else if Raised(rest, outbits - r) != 0 || r >= inbits then None
    else Some(Whole(v, bits, outbits))
  }

  // ---------- arithmetic of powers of two ----------

  lemma PAdd(a: nat, b: nat)
    ensures P(a + b) == P(a) * P(b) && P(a) > 0
  {
    PowAdd(2, a, b);
    PowPositive(2, a);
  }

  lemma PMono(a: nat, b: nat)
    requires a <= b
    ensures P(a) <= P(b)
  {
    PowMonoExp(2, a, b);
  }

  lemma ModOfMod(x: nat, a: nat, k: nat)
    requires a > 0 && k > 0
    ensures (x % (a * k)) % a == x % a
  {
    var m := a * k;
    assert m > 0;
    DivMod(x, m);
    DivMod(x % m, a);
    var q, r, q', r' := x / m, x % m, (x % m) / a, (x % m) % a;
    assert x == (q * k + q') * a + r' by {
      assert q * (a * k) == (q * k) * a;
    }
    DivModUnique(q * k + q', r', a);
  }

  /** Removing whole multiples above keeps the low part. */
  lemma TruncateHigh(h: nat, low: nat, a: nat, k: nat)
    requires low < a && k > 0
    ensures exists h': nat :: (h * a + low) % (a * k) == h' * a + low
  {
    var x := h * a + low;
    assert a * k > 0;
    ModOfMod(x, a, k);
    DivModUnique(h, low, a);
    DivMod(x % (a * k), a);
    assert x % (a * k) == ((x % (a * k)) / a) * a + low;
  }

  lemma WordSplit(n: nat)
    requires n <= 32
    ensures WORD == P(n) * P(32 - n)
  {
    PAdd(n, 32 - n);
    assert P(8) == 256;
    assert P(16) == 65536 by { PAdd(8, 8); }
    assert P(32) == WORD by { PAdd(16, 16); }
  }

  // ---------- the accumulator ----------

  /**
   n is the number read so far: the symbols already written, then held bits worth rem. The
   accumulator holds rem below whatever h is left over from earlier input.
   */
  predicate Pending(n: nat, out: seq<nat>, held: nat, val: nat, rem: nat, h: nat, outbits: nat) {
    && n == Value(out, P(outbits)) * P(held) + rem
    && val == h * P(held) + rem
    && rem < P(held)
  }

  lemma Shifted(x: nat, rem: nat, held: nat, k: nat, b: nat)
    ensures (x * P(held) + rem) * P(k) + b == x * P(held + k) + (rem * P(k) + b)
  {
    PAdd(held, k);
    Distribute(x, P(held), rem, P(k));
  }

  lemma BelowShifted(rem: nat, held: nat, k: nat, b: nat)
    requires rem < P(held) && b < P(k)
    ensures rem * P(k) + b < P(held + k)
  {
    PAdd(held, k);
    MulStrict(rem, P(held), P(k));
  }

  /** (val << inbits) | b in the 32-bit accumulator; b has no bits above inbits. */
  function ShiftIn(val: nat, inbits: nat, b: nat): (r: nat)
    ensures r < WORD
  {
    (val * P(inbits) + b) % WORD
  }

  /** (val >> bits) & maxv */
  function Extract(val: nat, bits: nat, outbits: nat): nat {
    PowPositive(2, bits);
    PowPositive(2, outbits);
    (val / P(bits)) % P(outbits)
  }

  /** (val << (outbits - bits)) & maxv */
  function Padded(val: nat, bits: nat, outbits: nat): nat
    requires bits <= outbits
  {
    PowPositive(2, outbits);
    ((val * P(outbits - bits)) % WORD) % P(outbits)
  }

  /** Taking a symbol in keeps the account; what overflows the word only changes h. */
  lemma TakeIn(n: nat, out: seq<nat>, held: nat, val: nat, rem: nat, h: nat, outbits: nat, inbits: nat, b: nat)
    returns (h': nat)
    requires Pending(n, out, held, val, rem, h, outbits)
    requires b < P(inbits) && held + inbits <= 32
    ensures Pending(n * P(inbits) + b, out, held + inbits, ShiftIn(val, inbits, b), rem * P(inbits) + b, h', outbits)
  {
    hide P, Value;
    var a, low := P(held + inbits), rem * P(inbits) + b;
    BelowShifted(rem, held, inbits, b);
    Shifted(Value(out, P(outbits)), rem, held, inbits, b);
    Shifted(h, rem, held, inbits, b);
    WordSplit(held + inbits);
    PAdd(32 - (held + inbits), 0);
    TruncateHigh(h, low, a, P(32 - (held + inbits)));
    h' :| (h * a + low) % (a * P(32 - (held + inbits))) == h' * a + low;
  }

  lemma SplitRest(x: nat, rem: nat, k: nat, outbits: nat, q: nat, r: nat)
    requires rem == q * P(k) + r
    ensures x * P(k + outbits) + rem == (x * P(outbits) + q) * P(k) + r
  {
    PAdd(outbits, k);
    Distribute(x, P(outbits), q, P(k));
  }

  /** Writing a group keeps the account. */
  lemma PutOut(n: nat, out: seq<nat>, held: nat, val: nat, rem: nat, h: nat, outbits: nat)
    returns (q: nat, r: nat, h': nat)
    requires Pending(n, out, held, val, rem, h, outbits) && held >= outbits
    ensures q < P(outbits) && Extract(val, held - outbits, outbits) == q
    ensures Pending(n, out + [q], held - outbits, val, r, h', outbits)
  {
    hide P, Value;
    var k := held - outbits;
    PAdd(k, outbits);
    PAdd(outbits, k);
    q, r, h' := rem / P(k), rem % P(k), h * P(outbits) + rem / P(k);
    DivMod(rem, P(k));
    if P(outbits) <= q {
      MulMono(P(outbits), q, P(k), P(k));
    }
    SplitRest(h, rem, k, outbits, q, r);
    SplitRest(Value(out, P(outbits)), rem, k, outbits, q, r);
    ValueSnoc(out, q, P(outbits));
    DivModUnique(h', r, P(k));
    DivModUnique(h, q, P(outbits));
  }

  /** What is left, moved to the top of a group. */
  lemma LastGroup(n: nat, out: seq<nat>, held: nat, val: nat, rem: nat, h: nat, outbits: nat)
    requires Pending(n, out, held, val, rem, h, outbits) && held < outbits <= 32
    ensures Padded(val, held, outbits) == Raised(rem, outbits - held) < P(outbits)
  {
    hide P, Value;
    var k := outbits - held;
    Shifted(h, rem, held, k, 0);
    PAdd(k, 0);
    PAdd(outbits, 0);
    PAdd(32 - outbits, 0);
    BelowShifted(rem, held, k, 0);
    WordSplit(outbits);
    ModOfMod(val * P(k), P(outbits), P(32 - outbits));
    DivModUnique(h, rem * P(k), P(outbits));
  }

  /** When all input is in, the symbols and the remainder are the ones Regroup speaks of. */
  lemma AllTaken(n: nat, out: seq<nat>, held: nat, val: nat, rem: nat, h: nat, outbits: nat, bits: nat, cap: nat)
    requires Pending(n, out, held, val, rem, h, outbits)
    requires 0 < outbits && held < outbits && Balanced(|out|, outbits, held, bits, cap)
    requires AllBelow(out, P(outbits))
    ensures out == Whole(n, bits, outbits) && rem == Rest(n, bits, outbits) && held == bits % outbits
  {
    hide P, Value, Fixed;
    DivModUnique(|out|, held, outbits);
    PAdd(held, 0);
    PAdd(outbits, 0);
    DivModUnique(Value(out, P(outbits)), rem, P(held));
    ValueFixed(out, P(outbits));
  }

  /** The bits read are those written and those held, and the buffer has room for all of them. */
  predicate Balanced(outlen: nat, outbits: nat, bits: nat, total: nat, cap: nat) {
    outlen * outbits + bits == total <= cap * outbits
  }

  lemma RoomLeft(outlen: nat, outbits: nat, bits: nat, total: nat, cap: nat)
    requires Balanced(outlen, outbits, bits, total, cap)
    requires outbits > 0 && bits > 0
    ensures outlen < cap
    ensures bits >= outbits ==> Balanced(outlen + 1, outbits, bits - outbits, total, cap)
  {
    if cap <= outlen {
      MulMono(cap, outlen, outbits, outbits);
    }
    Distribute(1, outlen, 1, outbits);
  }

  lemma ByteWide(q: nat, outbits: nat)
    requires q < P(outbits) && outbits <= 8
    ensures q < 256
  {
    PMono(outbits, 8);
    assert P(8) == 256;
  }

  /** The inner loop: writes whole groups until fewer than outbits bits are held. */
  method Drain(out: array<byte>, at: nat, outlen0: nat, outbits: nat, val: nat, bits0: nat, ghost cap: nat, ghost total: nat,
               ghost n: nat, ghost outs0: seq<nat>, ghost rem0: nat, ghost h0: nat)
    returns (outlen: nat, bits: nat, ghost outs: seq<nat>, ghost rem: nat, ghost h: nat)
    requires 0 < outbits <= 8 && at + cap <= out.Length
    requires Balanced(outlen0, outbits, bits0, total, cap)
    requires Pending(n, outs0, bits0, val, rem0, h0, outbits) && AllBelow(outs0, P(outbits))
    requires |outs0| == outlen0 <= cap && out[at..at + outlen0] == outs0
    modifies out
    ensures bits < outbits && Balanced(outlen, outbits, bits, total, cap)
    ensures Pending(n, outs, bits, val, rem, h, outbits) && AllBelow(outs, P(outbits))
    ensures |outs| == outlen <= cap && out[at..at + outlen] == outs
    ensures forall k :: 0 <= k < at ==> out[k] == old(out[k])
  {
    hide Pending, P, Extract, Balanced;
    outlen, bits, outs, rem, h := outlen0, bits0, outs0, rem0, h0;
    while bits >= outbits
      invariant Balanced(outlen, outbits, bits, total, cap)
      invariant Pending(n, outs, bits, val, rem, h, outbits) && AllBelow(outs, P(outbits))
      invariant |outs| == outlen <= cap && out[at..at + outlen] == outs
      invariant forall k :: 0 <= k < at ==> out[k] == old(out[k])
      decreases bits
    {
      RoomLeft(outlen, outbits, bits, total, cap);
      ghost var q, r, h' := PutOut(n, outs, bits, val, rem, h, outbits);
      ByteWide(q, outbits);
      bits := bits - outbits;
      out[at + outlen] := Extract(val, bits, outbits);
      outs, rem, h := outs + [q], r, h';
      outlen := outlen + 1;
    }
  }

  lemma NothingHeld(outbits: nat)
    ensures Pending(0, [], 0, 0, 0, 0, outbits)
  {
  }

  /** The state of the loop over the input after i symbols. */
  ghost predicate ReadSoFar(out: seq<byte>, at: nat, outbits: nat, input: seq<byte>, inbits: nat, i: nat, cap: nat,
                            outlen: nat, bits: nat, val: nat, outs: seq<nat>, rem: nat, h: nat) {
    && i <= |input| && at + outlen <= |out| && bits < outbits
    && |outs| == outlen <= cap && AllBelow(outs, P(outbits)) && out[at..at + outlen] == outs
    && Balanced(outlen, outbits, bits, Total(inbits, i), cap)
    && Pending(Value(input[..i], P(inbits)), outs, bits, val, rem, h, outbits)
  }

  /** One symbol is taken in and every whole group written. */
  method ReadOne(out: array<byte>, at: nat, outbits: nat, input: seq<byte>, inbits: nat, i: nat, ghost cap: nat,
                 outlen0: nat, bits0: nat, val0: nat, ghost outs0: seq<nat>, ghost rem0: nat, ghost h0: nat)
    returns (outlen: nat, bits: nat, val: nat, ghost outs: seq<nat>, ghost rem: nat, ghost h: nat)
    requires 0 < outbits <= 8 && 0 < inbits <= 8 && i < |input|
    requires AllBelow(input, P(inbits))
    requires at + cap <= out.Length && inbits * |input| <= cap * outbits
    requires ReadSoFar(out[..], at, outbits, input, inbits, i, cap, outlen0, bits0, val0, outs0, rem0, h0)
    modifies out
    ensures ReadSoFar(out[..], at, outbits, input, inbits, i + 1, cap, outlen, bits, val, outs, rem, h)
    ensures forall k :: 0 <= k < at ==> out[k] == old(out[k])
  {
    hide Pending, P, Value, ShiftIn, Balanced, Total, AllBelow;
    assert out[..][at..at + outlen0] == out[at..at + outlen0];
    NextInput(input, i, P(inbits));
    ghost var n := Value(input[..i], P(inbits));
    h := TakeIn(n, outs0, bits0, val0, rem0, h0, outbits, inbits, input[i]);
    OneMore(outlen0, outbits, bits0, inbits, i, |input|, cap);
    val := ShiftIn(val0, inbits, input[i]);
    n, rem := n * P(inbits) + input[i], rem0 * P(inbits) + input[i];
    outlen, bits, outs, rem, h :=
      Drain(out, at, outlen0, outbits, val, bits0 + inbits, cap, Total(inbits, i + 1), n, outs0, rem, h);
    assert out[..][at..at + outlen] == out[at..at + outlen];
  }

  /** The loop over the input: reads every symbol and writes every whole group. */
  method ReadAll(out: array<byte>, at: nat, outbits: nat, input: seq<byte>, inbits: nat, ghost cap: nat)
    returns (outlen: nat, bits: nat, val: nat, ghost outs: seq<nat>, ghost rem: nat, ghost h: nat)
    requires 0 < outbits <= 8 && 0 < inbits <= 8
    requires AllBelow(input, P(inbits))
    requires at + cap <= out.Length && inbits * |input| <= cap * outbits
    modifies out
    ensures ReadSoFar(out[..], at, outbits, input, inbits, |input|, cap, outlen, bits, val, outs, rem, h)
    ensures forall k :: 0 <= k < at ==> out[k] == old(out[k])
  {
    outs, rem, h, val, bits, outlen := [], 0, 0, 0, 0, 0;
    var i: nat := 0;
    NothingHeld(outbits);
    NoDigits(P(outbits));
    NoInput(input, P(inbits), outbits, inbits, cap);
    assert out[..][at..at + 0] == [];
    hide AllBelow, P, Pending, Balanced, Total, Value;
    assert ReadSoFar(out[..], at, outbits, input, inbits, 0, cap, 0, 0, 0, [], 0, 0);
    hide *;
    while i < |input|
      invariant i <= |input|
      invariant ReadSoFar(out[..], at, outbits, input, inbits, i, cap, outlen, bits, val, outs, rem, h)
      invariant forall k :: 0 <= k < at ==> out[k] == old(out[k])
    {
      outlen, bits, val, outs, rem, h := ReadOne(out, at, outbits, input, inbits, i, cap, outlen, bits, val, outs, rem, h);
      i := i + 1;
    }
  }

  lemma NoDigits(base: nat)
    ensures AllBelow([], base)
  {
  }

  lemma NextInput(input: seq<nat>, i: nat, base: nat)
    requires i < |input| && AllBelow(input, base)
    ensures Value(input[..i + 1], base) == Value(input[..i], base) * base + input[i]
    ensures input[i] < base
  {
    assert input[..i + 1] == input[..i] + [input[i]];
    ValueSnoc(input[..i], input[i], base);
  }

  /**
   convert_bits. Symbols go to out from index at on; the method reports how many were
   written and the C return value.
   */
  method ConvertBits(out: array<byte>, at: nat, outbits: nat, input: seq<byte>, inbits: nat, pad: bool, ghost cap: nat)
    returns (ok: bool, outlen: nat)
    requires 0 < outbits <= 8 && 0 < inbits <= 8
    requires AllBelow(input, P(inbits))
    requires at + cap <= out.Length && inbits * |input| <= cap * outbits
    modifies out
    ensures ok == Regroup(input, inbits, outbits, pad).Some?
    ensures ok ==> at + outlen <= out.Length && out[at..at + outlen] == Regroup(input, inbits, outbits, pad).value
    ensures forall k :: 0 <= k < at ==> out[k] == old(out[k])
  {
    hide Pending, P, Whole, Rest, Value, Padded, Balanced, Total, Regroup, Raised;
    var bits, val;
    ghost var outs, rem, h;
    outlen, bits, val, outs, rem, h := ReadAll(out, at, outbits, input, inbits, cap);
    assert input[..|input|] == input && out[..][at..at + outlen] == out[at..at + outlen];
    ghost var n, total := Value(input, P(inbits)), Total(inbits, |input|);
    AllTaken(n, outs, bits, val, rem, h, outbits, total, cap);
    LastGroup(n, outs, bits, val, rem, h, outbits);
    var last := Padded(val, bits, outbits);
    RegroupIs(input, inbits, outbits, pad, outs, last, bits);
    if pad {
      if bits != 0 {
        RoomLeft(outlen, outbits, bits, total, cap);
        ByteWide(last, outbits);
        out[at + outlen] := last;
        outlen := outlen + 1;
      }
      ok := true;
    } else {
      ok := !(last != 0 || bits >= inbits);
    }
  }

  function Total(inbits: nat, i: nat): nat { inbits * i }

  lemma OneMore(outlen: nat, outbits: nat, bits: nat, inbits: nat, i: nat, n: nat, cap: nat)
    requires Balanced(outlen, outbits, bits, Total(inbits, i), cap)
    requires i < n && inbits * n <= cap * outbits
    ensures Balanced(outlen, outbits, bits + inbits, Total(inbits, i + 1), cap)
  {
    MulMono(inbits, inbits, i + 1, n);
  }

  lemma RegroupIs(input: seq<nat>, inbits: nat, outbits: nat, pad: bool, outs: seq<nat>, last: nat, bits: nat)
    requires outbits > 0 && bits < outbits
    requires var (v, t) := (Value(input, P(inbits)), Total(inbits, |input|));
      && outs == Whole(v, t, outbits) && bits == t % outbits
      && last == Raised(Rest(v, t, outbits), outbits - bits)
    ensures Regroup(input, inbits, outbits, pad) ==
      if pad then Some(outs + if bits > 0 then [last] else [])
      else if last != 0 || bits >= inbits then None
      else Some(outs)
  {
    hide Whole, Rest, Raised, Value, P;
  }

  lemma NoInput(input: seq<nat>, base: nat, outbits: nat, inbits: nat, cap: nat)
    ensures Value(input[..0], base) == 0
    ensures Balanced(0, outbits, 0, Total(inbits, 0), cap)
  {
  }

  // ---------- regrouping is undone exactly ----------

  /** Cutting off the remainder and putting it back. */
  lemma WholeValue(v: nat, bits: nat, width: nat)
    requires width > 0 && v < P(bits)
    ensures var (s, rest, r) := (Whole(v, bits, width), Rest(v, bits, width), bits % width);
      && AllBelow(s, P(width)) && rest < P(r)
      && Value(s, P(width)) * P(r) + rest == v
  {
    hide P;
    var q, r := bits / width, bits % width;
    DivMod(bits, width);
    PAdd(r, width * q);
    PAdd(width * q, r);
    PAdd(width, 0);
    assert width * q == q * width;
    DivMod(v, P(r));
    var top: nat := v / P(r);
    if P(width * q) <= top {
      MulMono(P(width * q), top, P(r), P(r));
    }
    PowerOfGroup(width, q);
    FixedValue(top, P(width), q);
  }

  lemma PowerOfGroup(width: nat, q: nat)
    ensures P(width * q) == Pow(P(width), q)
  {
    PowPow(2, width, q);
  }

  lemma InputBound(s: seq<nat>, inbits: nat)
    requires AllBelow(s, P(inbits))
    ensures Value(s, P(inbits)) < P(inbits * |s|)
  {
    ValueBound(s, P(inbits));
    PowerOfGroup(inbits, |s|);
  }

  /** Padding appends zero bits up to a whole group. */
  lemma PaddedGroups(s: seq<nat>, inbits: nat, outbits: nat)
    requires outbits > 0 && AllBelow(s, P(inbits))
    ensures var (d, bits) := (Regroup(s, inbits, outbits, true).value, inbits * |s|);
      var r := bits % outbits;
      && AllBelow(d, P(outbits))
      && |d| == bits / outbits + (if r > 0 then 1 else 0)
      && Value(d, P(outbits)) == Value(s, P(inbits)) * P(if r > 0 then outbits - r else 0)
  {
    hide *;
    var v, bits := Value(s, P(inbits)), inbits * |s|;
    InputBound(s, inbits);
    RegroupPadded(s, inbits, outbits);
    PaddedValue(v, bits, outbits);
  }

  lemma RegroupPadded(s: seq<nat>, inbits: nat, outbits: nat)
    requires outbits > 0
    ensures Regroup(s, inbits, outbits, true) == Some(WithPadding(Value(s, P(inbits)), inbits * |s|, outbits))
  {
    hide P, Value, Whole, Rest, Raised;
  }

  /** The whole groups, and the remainder at the top of one more. */
  function WithPadding(v: nat, bits: nat, width: nat): seq<nat>
    requires width > 0
  {
    Whole(v, bits, width) + if bits % width > 0 then [Raised(Rest(v, bits, width), width - bits % width)] else []
  }

  lemma PaddedValue(v: nat, bits: nat, width: nat)
    requires width > 0 && v < P(bits)
    ensures var (d, r) := (WithPadding(v, bits, width), bits % width);
      && AllBelow(d, P(width))
      && |d| == bits / width + (if r > 0 then 1 else 0)
      && Value(d, P(width)) == v * P(if r > 0 then width - r else 0)
  {
    hide P, Value, Whole, Rest, Raised;
    WholeValue(v, bits, width);
    WithLast(Whole(v, bits, width), Rest(v, bits, width), bits % width, width, v);
  }

  lemma WithLast(whole: seq<nat>, rest: nat, r: nat, width: nat, v: nat)
    requires r < width && AllBelow(whole, P(width)) && rest < P(r)
    requires Value(whole, P(width)) * P(r) + rest == v
    ensures var d := whole + if r > 0 then [Raised(rest, width - r)] else [];
      && AllBelow(d, P(width))
      && Value(d, P(width)) == v * P(if r > 0 then width - r else 0)
  {
    hide P, Value, Raised;
    PZero();
    if r > 0 {
      LastPadded(whole, rest, r, width - r, v);
    } else {
      assert whole + [] == whole;
    }
  }

  lemma LastPadded(whole: seq<nat>, rest: nat, r: nat, k: nat, v: nat)
    requires AllBelow(whole, P(r + k)) && rest < P(r)
    requires Value(whole, P(r + k)) * P(r) + rest == v
    ensures AllBelow(whole + [Raised(rest, k)], P(r + k))
    ensures Value(whole + [Raised(rest, k)], P(r + k)) == v * P(k)
  {
    hide P, Value;
    PAdd(k, 0);
    PAdd(r, k);
    BelowShifted(rest, r, k, 0);
    ValueSnoc(whole, Raised(rest, k), P(r + k));
    Distribute(Value(whole, P(r + k)), P(r), rest, P(k));
  }

  lemma PZero()
    ensures P(0) == 1
  {
  }

  /** Without padding a conversion succeeds exactly when it loses nothing but a short run of zero bits. */
  lemma ExactGroups(s: seq<nat>, inbits: nat, outbits: nat, d: seq<nat>)
    requires outbits > 0 && AllBelow(s, P(inbits))
    ensures Regroup(s, inbits, outbits, false) == Some(d) <==>
      var bits := inbits * |s|;
      && bits % outbits < inbits && |d| == bits / outbits && AllBelow(d, P(outbits))
      && Value(d, P(outbits)) * P(bits % outbits) == Value(s, P(inbits))
  {
    hide P, Value, Whole, Rest;
    var v, bits := Value(s, P(inbits)), inbits * |s|;
    var r := bits % outbits;
    InputBound(s, inbits);
    WholeValue(v, bits, outbits);
    PAdd(r, 0);
    PAdd(outbits - r, 0);
    PAdd(outbits, 0);
    RaisedZero(Rest(v, bits, outbits), outbits - r);
    if AllBelow(d, P(outbits)) && |d| == bits / outbits && Value(d, P(outbits)) * P(r) == v {
      DivModUnique(Value(d, P(outbits)), 0, P(r));
      DivModUnique(Value(Whole(v, bits, outbits), P(outbits)), Rest(v, bits, outbits), P(r));
      ValueUnique(d, Whole(v, bits, outbits), P(outbits));
    }
  }

  lemma RaisedZero(rest: nat, k: nat)
    ensures Raised(rest, k) == 0 <==> rest == 0
  {
    PowPositive(2, k);
    if rest > 0 {
      MulMono(1, rest, P(k), P(k));
    }
  }

  lemma Widths()
    ensures P(8) == 256 && P(5) == 32
  {
  }

  /** Bytes to 5-bit symbols and back, for any number of bytes. */
  lemma BytesRoundTrip(bytes: seq<nat>)
    requires AllBelow(bytes, 256)
    ensures Regroup(Regroup(bytes, 8, 5, true).value, 5, 8, false) == Some(bytes)
  {
    hide P, Value, Regroup;
    Widths();
    PaddedGroups(bytes, 8, 5);
    var d := Regroup(bytes, 8, 5, true).value;
    PZero();
    ExactGroups(d, 5, 8, bytes);
  }

  /** Symbols that convert to bytes are the ones those bytes convert to: no second spelling. */
  lemma SymbolsRoundTrip(symbols: seq<nat>, bytes: seq<nat>)
    requires AllBelow(symbols, 32)
    requires Regroup(symbols, 5, 8, false) == Some(bytes)
    ensures AllBelow(bytes, 256) && Regroup(bytes, 8, 5, true) == Some(symbols)
  {
    hide P, Value, Regroup;
    Widths();
    ExactGroups(symbols, 5, 8, bytes);
    PaddedGroups(bytes, 8, 5);
    PZero();
    ValueUnique(symbols, Regroup(bytes, 8, 5, true).value, 32);
  }
}