/**
 increment_bitmask of components/stratum/mining.c: adding one to the bits of a value that a
 mask selects, by recursion on the carry. Words are 32 bits wide and wrap.
 */
module VersionRoll {

  /** The bits of a value inside a mask, outside it, and below a single bit. */
  function In(value: bv32, mask: bv32): bv32 { value & mask }
  function Out(value: bv32, mask: bv32): bv32 { value & !mask }
  function Below(value: bv32, bit: bv32): bv32 { value & (bit - 1) }

  /** mask & -mask: the lowest bit of the mask. */
  function Lowest(mask: bv32): bv32 { mask & (0 - mask) }

  function Plus(a: bv32, b: bv32): bv32 { a + b }

  function Carry(value: bv32, mask: bv32): bv32 { Plus(In(value, mask), Lowest(mask)) }

  function Overflow(value: bv32, mask: bv32): bv32 { Out(Carry(value, mask), mask) }

  function Merged(value: bv32, mask: bv32): bv32 { Out(value, mask) | In(Carry(value, mask), mask) }

  /** overflow << 1 */
  function Next(value: bv32, mask: bv32): bv32 { Overflow(value, mask) << 1 }

  predicate OneBit(bit: bv32) { bit != 0 && bit & (bit - 1) == 0 }

  // ---------- termination ----------

  /** At most one bit overflows, above the lowest bit of the mask; the next mask lies higher still. */
  lemma OverflowOneBit(value: bv32, mask: bv32)
    requires mask != 0 && Overflow(value, mask) != 0
    ensures OneBit(Overflow(value, mask)) && Overflow(value, mask) > Lowest(mask)
    ensures Next(value, mask) == 0 || (OneBit(Next(value, mask)) && Lowest(Next(value, mask)) == Next(value, mask) > Lowest(mask))
  {
  }

  lemma LowestIsBit(mask: bv32)
    requires mask != 0
    ensures OneBit(Lowest(mask))
  {
    assert mask & (0 - mask) != 0;
    assert (mask & (0 - mask)) & ((mask & (0 - mask)) - 1) == 0;
  }

  /** Falls as the lowest bit of the mask rises, and is least without a mask. */
  function Rank(mask: bv32): bv32 {
    if mask == 0 then 0 else !Lowest(mask)
  }

  lemma RankFalls(value: bv32, mask: bv32)
    requires mask != 0 && Overflow(value, mask) != 0
    ensures Rank(Next(value, mask)) < Rank(mask)
  {
    hide Overflow, Lowest, Next, OneBit;
    OverflowOneBit(value, mask);
    LowestIsBit(mask);
    RankPositive(Lowest(mask));
    if Next(value, mask) != 0 {
      RankOrder(Lowest(mask), Next(value, mask));
    }
  }

  lemma RankOrder(a: bv32, b: bv32)
    requires a < b
    ensures !b < !a
  {
  }

  lemma RankPositive(bit: bv32)
    requires OneBit(bit)
    ensures !bit > 0
  {
  }

  /** increment_bitmask */
  function Increment(value: bv32, mask: bv32): bv32
    decreases Rank(mask)
  {
    if mask == 0 then value
    else if Overflow(value, mask) > 0 then
      RankFalls(value, mask);
      Increment(Merged(value, mask), Next(value, mask))
    else Merged(value, mask)
  }

  // ---------- contiguous masks ----------

  /** One unbroken run of bits. */
  predicate Contiguous(mask: bv32) {
    mask != 0 && (mask + Lowest(mask)) & mask == 0
  }

  /** Every bit of the field is one. */
  predicate Full(value: bv32, mask: bv32) { In(value, mask) == mask }

  lemma FieldRoom(f: bv32, mask: bv32)
    requires Contiguous(mask) && Out(f, mask) == 0 && f != mask
    ensures Out(Plus(f, Lowest(mask)), mask) == 0
    ensures Plus(f, Lowest(mask)) > f
  {
  }

  lemma InPart(value: bv32, mask: bv32)
    ensures Out(In(value, mask), mask) == 0 && Out(Out(value, mask), mask) == Out(value, mask)
  {
  }

  lemma Joined(a: bv32, c: bv32, mask: bv32)
    requires Out(c, mask) == 0
    ensures Out(Out(a, mask) | In(c, mask), mask) == Out(a, mask)
    ensures In(Out(a, mask) | In(c, mask), mask) == c
  {
  }

  /** A field that is not all ones is incremented by one of its units, and no other bit changes. */
  lemma IncrementField(value: bv32, mask: bv32)
    requires Contiguous(mask) && !Full(value, mask)
    ensures Out(Increment(value, mask), mask) == Out(value, mask)
    ensures In(Increment(value, mask), mask) == Plus(In(value, mask), Lowest(mask)) > In(value, mask)
  {
    hide In, Out, Plus, Lowest, Contiguous, Next, Increment;
    MaskSome(mask);
    InPart(value, mask);
    FieldRoom(In(value, mask), mask);
    Joined(value, Carry(value, mask), mask);
    NoMore(value, mask);
  }

  lemma NoMore(value: bv32, mask: bv32)
    requires mask != 0 && Overflow(value, mask) == 0
    ensures Increment(value, mask) == Merged(value, mask)
  {
    hide Overflow, Merged, Next;
  }

  lemma MaskSome(mask: bv32)
    requires Contiguous(mask)
    ensures mask != 0
  {
  }

  // ---------- what happens when the field wraps ----------

  /** The bit two above the top of the field, if the word has it: the carry skips the bit right above it. */
  function Skipped(mask: bv32): bv32 { Plus(mask, Lowest(mask)) << 1 }

  lemma FullField(mask: bv32)
    requires Contiguous(mask)
    ensures var o := Plus(mask, Lowest(mask)); In(o, mask) == 0 && Out(o, mask) == o
    ensures Skipped(mask) != 0 ==> OneBit(Skipped(mask)) && In(Skipped(mask), mask) == 0
    ensures Plus(mask, Lowest(mask)) == 0 ==> Skipped(mask) == 0
  {
  }

  lemma OrZero(a: bv32)
    ensures a | 0 == a
  {
  }

  lemma BelowMerged(value: bv32, mask: bv32)
    requires mask != 0
    ensures Below(Merged(value, mask), Lowest(mask)) == Below(value, Lowest(mask))
  {
  }

  lemma BelowLower(a: bv32, b: bv32, hi: bv32, lo: bv32)
    requires OneBit(hi) && OneBit(lo) && hi > lo && Below(a, hi) == Below(b, hi)
    ensures Below(a, lo) == Below(b, lo) && In(a, lo) == In(b, lo)
  {
  }

  /** Bits below the mask are never touched. */
  lemma {:induction false} LowUntouched(value: bv32, mask: bv32)
    requires mask != 0
    ensures Below(Increment(value, mask), Lowest(mask)) == Below(value, Lowest(mask))
    decreases Rank(mask)
  {
    hide Overflow, Merged, Next, Lowest, Below, OneBit, Rank;
    BelowMerged(value, mask);
    if Overflow(value, mask) > 0 {
      RankFalls(value, mask);
      OverflowOneBit(value, mask);
      LowestIsBit(mask);
      var m, next := Merged(value, mask), Next(value, mask);
      if next != 0 {
        LowUntouched(m, next);
        BelowLower(Increment(m, next), m, next, Lowest(mask));
      }
    }
  }

  lemma MergedFlips(value: bv32, bit: bv32)
    requires OneBit(bit)
    ensures In(Merged(value, bit), bit) != In(value, bit) && Lowest(bit) == bit
  {
  }

  /** A mask of one bit flips that bit, whatever happens above. */
  lemma SingleFlips(value: bv32, bit: bv32)
    requires OneBit(bit)
    ensures In(Increment(value, bit), bit) != In(value, bit)
  {
    BitSome(bit);
    hide Overflow, Merged, Next, Lowest, Below, In, OneBit;
    MergedFlips(value, bit);
    if Overflow(value, bit) > 0 {
      OverflowOneBit(value, bit);
      var m, next := Merged(value, bit), Next(value, bit);
      if next != 0 {
        LowUntouched(m, next);
        BelowLower(Increment(m, next), m, next, bit);
      }
    }
  }

  lemma BitSome(bit: bv32)
    requires OneBit(bit)
    ensures bit != 0
  {
  }

  lemma FlipShows(result: bv32, rest: bv32, mask: bv32, bit: bv32)
    requires In(bit, mask) == 0 && In(result, bit) != In(rest, bit)
    ensures Out(result, mask) != Out(rest, mask)
  {
  }

  /** A full field is cleared and the carry goes on above it. */
  lemma WrapStep(value: bv32, mask: bv32)
    requires Contiguous(mask) && Full(value, mask)
    ensures Increment(value, mask) == Increment(Out(value, mask), Skipped(mask))
  {
    MaskSome(mask);
    hide Contiguous, Lowest, In, Out, Plus, Rank, OneBit;
    FullField(mask);
    OrZero(Out(value, mask));
  }

  /**
   For a contiguous mask, the bits outside it survive exactly when the field does not wrap or
   the word has no bit two above it for the carry to go to.
   */
  lemma OutsideSurvives(value: bv32, mask: bv32)
    requires Contiguous(mask)
    ensures Out(Increment(value, mask), mask) == Out(value, mask) <==> !Full(value, mask) || Skipped(mask) == 0
  {
    hide Contiguous, Skipped, Full, In, Out, OneBit;
    if !Full(value, mask) {
      IncrementField(value, mask);
    } else {
      WrapStep(value, mask);
      FullField(mask);
      InPart(value, mask);
      var rest := Out(value, mask);
      if Skipped(mask) != 0 {
        SingleFlips(rest, Skipped(mask));
        FlipShows(Increment(rest, Skipped(mask)), rest, mask, Skipped(mask));
      }
    }
  }

  // ---------- the four versions of a job ----------

  /** The version after k increments: hashed by construct_bm_job, replayed by BM1397_process_work. */
  function Rolled(version: bv32, mask: bv32, k: nat): bv32
    decreases k
  {
    if k == 0 then version else Increment(Rolled(version, mask, k - 1), mask)
  }

  /** for (int i = 0; i < rx_midstate_index; i++) rolled_version = increment_bitmask(...) */
  method Replay(version: bv32, mask: bv32, index: nat) returns (rolled: bv32)
    ensures rolled == Rolled(version, mask, index)
  {
    hide Increment;
    rolled := version;
    var i := 0;
    while i < index
      invariant 0 <= i <= index && rolled == Rolled(version, mask, i)
    {
      rolled := Increment(rolled, mask);
      i := i + 1;
    }
  }

  predicate AllDiffer(a: bv32, b: bv32, c: bv32, d: bv32) {
    a != b && a != c && a != d && b != c && b != d && c != d
  }

  // The field counts round: it takes the next value, and 0 after the last.

  lemma WithinBelow(x: bv32, mask: bv32)
    requires Contiguous(mask) && Skipped(mask) != 0
    ensures In(Below(x, Skipped(mask)), mask) == In(x, mask)
    ensures Lowest(Skipped(mask)) == Skipped(mask)
  {
  }

  lemma InOut(value: bv32, mask: bv32)
    ensures In(Out(value, mask), mask) == 0
    ensures Out(value, mask) == 0 ==> In(value, mask) == value
  {
  }

  /** What one increment does to the field, whether it wraps or not. */
  lemma FieldCycles(value: bv32, mask: bv32)
    requires Contiguous(mask)
    ensures In(Increment(value, mask), mask) == In(Plus(In(value, mask), Lowest(mask)), mask)
  {
    hide Contiguous, Skipped, In, Out, Plus, Lowest, Below, OneBit, Increment;
    InOut(value, mask);
    InPart(value, mask);
    if !Full(value, mask) {
      IncrementField(value, mask);
      FieldRoom(In(value, mask), mask);
      InOut(Plus(In(value, mask), Lowest(mask)), mask);
    } else {
      WrapStep(value, mask);
      FullField(mask);
      var rest := Out(value, mask);
      if Skipped(mask) == 0 {
        NoMask(rest);
      } else {
        LowUntouched(rest, Skipped(mask));
        WithinBelow(rest, mask);
        WithinBelow(Increment(rest, Skipped(mask)), mask);
      }
    }
  }

  lemma NoMask(value: bv32)
    ensures Increment(value, 0) == value
  {
  }

  /** Four successive values of a field of two bits or more are different. */
  lemma CycleApart(f: bv32, mask: bv32)
    requires Contiguous(mask) && !OneBit(mask) && In(f, mask) == f
    ensures In(Plus(f, Lowest(mask)), mask) != f
    ensures In(Plus(In(Plus(f, Lowest(mask)), mask), Lowest(mask)), mask) != f
    ensures In(Plus(In(Plus(In(Plus(f, Lowest(mask)), mask), Lowest(mask)), mask), Lowest(mask)), mask) != f
  {
  }

  lemma InTwice(value: bv32, mask: bv32)
    ensures In(In(value, mask), mask) == In(value, mask)
  {
  }

  /** A version does not come back within three increments of a field of two bits or more. */
  lemma ThreeAhead(v: bv32, mask: bv32)
    requires Contiguous(mask) && !OneBit(mask)
    ensures var v1 := Increment(v, mask);
      var v2 := Increment(v1, mask);
      v1 != v && v2 != v && Increment(v2, mask) != v
  {
    hide Contiguous, In, Plus, Lowest, OneBit, Increment;
    var v1 := Increment(v, mask);
    var v2 := Increment(v1, mask);
    FieldCycles(v, mask);
    FieldCycles(v1, mask);
    FieldCycles(v2, mask);
    InTwice(v, mask);
    CycleApart(In(v, mask), mask);
  }

  // A field of one bit alternates, and every other increment carries out of it.

  lemma SameBit(a: bv32, b: bv32, mask: bv32, bit: bv32)
    requires In(bit, mask) == 0 && Out(a, mask) == Out(b, mask)
    ensures In(a, bit) == In(b, bit)
  {
  }

  lemma OneBitField(value: bv32, mask: bv32)
    requires OneBit(mask)
    ensures In(value, mask) == 0 || In(value, mask) == mask
    ensures mask != 0 && Lowest(mask) == mask && Contiguous(mask)
  {
  }

  /** One step: the field flips, and the skipped bit flips exactly if the field was full. */
  lemma BitStep(value: bv32, mask: bv32)
    requires OneBit(mask) && Skipped(mask) != 0
    ensures In(Increment(value, mask), mask) != In(value, mask)
    ensures In(Increment(value, mask), Skipped(mask)) == In(value, Skipped(mask)) <==> !Full(value, mask)
  {
    OneBitField(value, mask);
    hide Contiguous, Skipped, In, Out, Plus, Lowest, OneBit, Increment, Full;
    SingleFlips(value, mask);
    FullField(mask);
    if !Full(value, mask) {
      IncrementField(value, mask);
      SameBit(Increment(value, mask), value, mask, Skipped(mask));
    } else {
      WrapStep(value, mask);
      InPart(value, mask);
      SingleFlips(Out(value, mask), Skipped(mask));
      SameBit(Out(value, mask), value, mask, Skipped(mask));
    }
  }

  lemma TwoAhead(v: bv32, mask: bv32)
    requires OneBit(mask) && Skipped(mask) != 0
    ensures Increment(Increment(v, mask), mask) != v && Increment(v, mask) != v
    ensures In(Increment(Increment(v, mask), mask), mask) == In(v, mask)
  {
    hide Contiguous, Skipped, In, Out, Plus, Lowest, OneBit, Increment;
    var v1 := Increment(v, mask);
    BitStep(v, mask);
    BitStep(v1, mask);
    OneBitField(v, mask);
    OneBitField(v1, mask);
    OneBitField(Increment(v1, mask), mask);
  }

  lemma Rejoined(a: bv32, b: bv32, mask: bv32)
    requires Out(a, mask) == Out(b, mask) && In(a, mask) == In(b, mask)
    ensures a == b
  {
  }

  /** At the top of the word nothing is left of the carry: the second increment undoes the first. */
  lemma TwoBack(v: bv32, mask: bv32)
    requires OneBit(mask) && Skipped(mask) == 0
    ensures Increment(Increment(v, mask), mask) == v
  {
    hide Contiguous, Skipped, In, Out, Plus, Lowest, OneBit, Increment;
    var v1 := Increment(v, mask);
    OneBitField(v, mask);
    OneBitField(v1, mask);
    OneBitField(Increment(v1, mask), mask);
    SingleFlips(v, mask);
    SingleFlips(v1, mask);
    OutsideSurvives(v, mask);
    OutsideSurvives(v1, mask);
    Rejoined(Increment(v1, mask), v, mask);
  }

  lemma TopBits(mask: bv32)
    requires Contiguous(mask)
    ensures OneBit(mask) && Skipped(mask) == 0 <==> mask == 0x4000_0000 || mask == 0x8000_0000
  {
  }

  /**
   The four versions of a job are pairwise distinct, whether the field wraps or not, for every
   contiguous mask but the two that consist of one of the top two bits alone.
   */
  lemma FourOfRun(version: bv32, mask: bv32)
    requires Contiguous(mask)
    ensures AllDiffer(Rolled(version, mask, 0), Rolled(version, mask, 1), Rolled(version, mask, 2), Rolled(version, mask, 3))
      <==> mask != 0x4000_0000 && mask != 0x8000_0000
  {
    hide Contiguous, Skipped, In, OneBit, Increment;
    TopBits(mask);
    var r0, r1, r2, r3 := Rolled(version, mask, 0), Rolled(version, mask, 1), Rolled(version, mask, 2), Rolled(version, mask, 3);
    assert r1 == Increment(r0, mask) && r2 == Increment(r1, mask) && r3 == Increment(r2, mask);
    if !OneBit(mask) {
      ThreeAhead(r0, mask);
      ThreeAhead(r1, mask);
      ThreeAhead(r2, mask);
    } else if Skipped(mask) == 0 {
      TwoBack(r0, mask);
    } else {
      TwoAhead(r0, mask);
      TwoAhead(r1, mask);
      BitStep(r2, mask);
    }
  }

  // ---------- any mask ----------

  /** The lowest unbroken run of bits of a mask. */
  function LowestRun(mask: bv32): bv32 { mask & !Plus(mask, Lowest(mask)) }

  lemma RunIsRun(mask: bv32)
    requires mask != 0
    ensures Contiguous(LowestRun(mask)) && Lowest(LowestRun(mask)) == Lowest(mask)
  {
  }

  /** A run of a mask from its lowest bit, the unit, with the bit above it, if any, outside the mask. */
  predicate Apart(mask: bv32, run: bv32, unit: bv32, above: bv32) {
    && run & mask == run && above & mask == 0 && above == run + unit
    && unit != 0 && unit & (unit - 1) == 0 && unit & run == unit && mask & (unit - 1) == 0
  }

  lemma RunUnit(mask: bv32, unit: bv32)
    requires mask != 0 && unit == Lowest(mask)
    ensures unit != 0 && unit & (unit - 1) == 0 && mask & (unit - 1) == 0
  {
  }

  lemma RunAbove(mask: bv32, run: bv32, unit: bv32, above: bv32)
    requires mask != 0 && unit == Lowest(mask) && run == LowestRun(mask) && above == Plus(run, unit)
    ensures run & mask == run && above & mask == 0 && unit & run == unit
  {
  }

  lemma IsApart(mask: bv32, run: bv32, unit: bv32, above: bv32)
    requires run & mask == run && above & mask == 0 && above == Plus(run, unit)
    requires unit != 0 && unit & (unit - 1) == 0 && unit & run == unit && mask & (unit - 1) == 0
    ensures Apart(mask, run, unit, above) && Apart(run, run, unit, above)
    ensures In(run, mask) == run && In(above, mask) == 0
  {
  }

  // A value x of the whole field and its part y in the run, each with the unit added.

  lemma SumBeyond(x: bv32, mask: bv32, run: bv32, unit: bv32, above: bv32)
    requires Apart(mask, run, unit, above) && In(x, mask) == x
    ensures Out(Plus(x, unit), mask | above) == 0
  {
  }

  lemma AboveBits(x: bv32, y: bv32, mask: bv32, run: bv32, unit: bv32, above: bv32)
    requires Apart(mask, run, unit, above) && x & mask == x && x & run == y
    ensures (x + unit) & above == (y + unit) & above
  {
  }

  lemma SumAbove(x: bv32, y: bv32, mask: bv32, run: bv32, unit: bv32, above: bv32)
    requires Apart(mask, run, unit, above) && In(x, mask) == x && In(x, run) == y
    ensures In(Plus(x, unit), above) == In(Plus(y, unit), above)
  {
    hide Apart;
    AboveBits(x, y, mask, run, unit, above);
  }

  lemma InsideBits(x: bv32, y: bv32, mask: bv32, run: bv32, unit: bv32, above: bv32)
    requires Apart(mask, run, unit, above) && x & mask == x && x & run == y
    ensures (x + unit) & run == (y + unit) & run
  {
  }

  lemma SumInside(x: bv32, y: bv32, mask: bv32, run: bv32, unit: bv32, above: bv32)
    requires Apart(mask, run, unit, above) && In(x, mask) == x && In(x, run) == y
    ensures In(Plus(x, unit), run) == In(Plus(y, unit), run)
  {
    hide Apart;
    InsideBits(x, y, mask, run, unit, above);
  }

  lemma SumElsewhere(x: bv32, mask: bv32, run: bv32, unit: bv32, above: bv32)
    requires Apart(mask, run, unit, above) && In(x, mask) == x
    ensures In(Plus(x, unit), Out(mask, run)) == In(x, Out(mask, run))
  {
  }

  lemma Settled(mask: bv32, run: bv32, above: bv32, all: bv32, low: bv32)
    requires In(run, mask) == run && In(above, mask) == 0
    requires Out(all, mask | above) == 0 && In(all, above) == In(low, above) && Out(low, run | above) == 0
    ensures Out(all, mask) == Out(low, run)
  {
  }

  lemma Remerged(value: bv32, mask: bv32, run: bv32, all: bv32, low: bv32)
    requires In(run, mask) == run
    requires In(all, run) == In(low, run) && In(all, Out(mask, run)) == In(value, Out(mask, run))
    ensures Out(value, mask) | In(all, mask) == Out(value, run) | In(low, run)
  {
  }

  lemma Parts(value: bv32, mask: bv32, run: bv32)
    requires In(run, mask) == run
    ensures In(In(value, mask), run) == In(value, run) && In(In(value, mask), Out(mask, run)) == In(value, Out(mask, run))
    ensures In(In(value, mask), mask) == In(value, mask) && In(In(value, run), run) == In(value, run)
  {
  }

  lemma RunApart(mask: bv32)
    requires mask != 0
    ensures var run, unit := LowestRun(mask), Lowest(mask);
      && Apart(mask, run, unit, Plus(run, unit)) && Apart(run, run, unit, Plus(run, unit))
      && In(run, mask) == run && In(Plus(run, unit), mask) == 0
  {
    hide *;
    var run, unit := LowestRun(mask), Lowest(mask);
    RunUnit(mask, unit);
    RunAbove(mask, run, unit, Plus(run, unit));
    IsApart(mask, run, unit, Plus(run, unit));
  }

  lemma StepParts(value: bv32, mask: bv32)
    ensures Overflow(value, mask) == Out(Plus(In(value, mask), Lowest(mask)), mask)
    ensures Merged(value, mask) == Out(value, mask) | In(Plus(In(value, mask), Lowest(mask)), mask)
  {
    hide In, Out, Plus, Lowest;
  }

  /** The first step with the whole mask is the first step with its lowest run. */
  lemma RunStep(value: bv32, mask: bv32)
    requires mask != 0
    ensures Merged(value, mask) == Merged(value, LowestRun(mask))
    ensures Overflow(value, mask) == Overflow(value, LowestRun(mask))
  {
    hide *;
    var unit, run := Lowest(mask), LowestRun(mask);
    var above, x, y := Plus(run, unit), In(value, mask), In(value, run);
    RunIsRun(mask);
    RunApart(mask);
    Parts(value, mask, run);
    SumBeyond(x, mask, run, unit, above);
    SumBeyond(y, run, run, unit, above);
    SumAbove(x, y, mask, run, unit, above);
    SumInside(x, y, mask, run, unit, above);
    SumElsewhere(x, mask, run, unit, above);
    Settled(mask, run, above, Plus(x, unit), Plus(y, unit));
    Remerged(value, mask, run, Plus(x, unit), Plus(y, unit));
    StepParts(value, mask);
    StepParts(value, run);
  }

  lemma NextSame(value: bv32, a: bv32, b: bv32)
    requires Overflow(value, a) == Overflow(value, b)
    ensures Next(value, a) == Next(value, b)
  {
    hide Overflow;
  }

  lemma NoRun()
    ensures LowestRun(0) == 0
  {
  }

  lemma Unrolled(value: bv32, mask: bv32)
    requires mask != 0
    ensures Increment(value, mask) ==
      if Overflow(value, mask) > 0 then Increment(Merged(value, mask), Next(value, mask)) else Merged(value, mask)
  {
    hide Overflow, Merged, Next, Lowest, Rank, OneBit;
  }

  /** Only the lowest run of a mask is ever counted in. */
  lemma OnlyLowestRun(value: bv32, mask: bv32)
    ensures Increment(value, mask) == Increment(value, LowestRun(mask))
  {
    hide Merged, Overflow, Next, Contiguous, Increment, Lowest, LowestRun;
    if mask == 0 {
      NoRun();
    } else {
      RunStep(value, mask);
      NextSame(value, mask, LowestRun(mask));
      RunIsRun(mask);
      MaskSome(LowestRun(mask));
      Unrolled(value, mask);
      Unrolled(value, LowestRun(mask));
    }
  }

  lemma {:induction false} RollsLowestRun(version: bv32, mask: bv32, k: nat)
    ensures Rolled(version, mask, k) == Rolled(version, LowestRun(mask), k)
  {
    hide Increment, LowestRun;
    if k > 0 {
      RollsLowestRun(version, mask, k - 1);
      OnlyLowestRun(Rolled(version, mask, k - 1), mask);
    }
  }

  lemma RunOfRun(mask: bv32)
    requires Contiguous(mask)
    ensures LowestRun(mask) == mask
  {
  }

  /**
   One increment, for any mask: a lowest run that is not all ones goes up by one unit, and the bits
   outside it survive exactly when it is not full or the word has no bit two above it.
   */
  lemma IncrementAny(value: bv32, mask: bv32)
    requires mask != 0
    ensures var run := LowestRun(mask);
      && (!Full(value, run) ==> In(Increment(value, mask), run) == Plus(In(value, run), Lowest(mask)))
      && (Out(Increment(value, mask), run) == Out(value, run) <==> !Full(value, run) || Skipped(run) == 0)
  {
    var run := LowestRun(mask);
    RunIsRun(mask);
    hide *;
    OnlyLowestRun(value, mask);
    OutsideSurvives(value, run);
    if !Full(value, run) {
      IncrementField(value, run);
    }
  }

  /** The run that is counted in does not wrap in the first n increments of a version. */
  predicate NoWrap(version: bv32, mask: bv32, n: nat) {
    forall k :: 0 <= k < n ==> !Full(Rolled(version, mask, k), LowestRun(mask))
  }

  /** While the run does not wrap, rolling changes nothing outside it. */
  lemma {:induction false} RolledOutside(version: bv32, mask: bv32, n: nat)
    requires mask != 0 && NoWrap(version, mask, n)
    ensures Out(Rolled(version, mask, n), LowestRun(mask)) == Out(version, LowestRun(mask))
  {
    hide Full, Increment, In, Out, Plus, Lowest, LowestRun;
    if n > 0 {
      RolledOutside(version, mask, n - 1);
      assert !Full(Rolled(version, mask, n - 1), LowestRun(mask));
      IncrementAny(Rolled(version, mask, n - 1), mask);
    }
  }

  lemma TopRuns(mask: bv32)
    requires mask != 0
    ensures LowestRun(mask) == 0x4000_0000 <==> mask == 0x4000_0000
    ensures LowestRun(mask) == 0x8000_0000 <==> mask == 0x8000_0000
  {
  }

  lemma FourDiffer(version: bv32, mask: bv32)
    ensures AllDiffer(Rolled(version, mask, 0), Rolled(version, mask, 1), Rolled(version, mask, 2), Rolled(version, mask, 3))
      <==> mask != 0 && mask != 0x4000_0000 && mask != 0x8000_0000
  {
    hide Contiguous, LowestRun, Increment;
    if mask != 0 {
      RollsLowestRun(version, mask, 0);
      RollsLowestRun(version, mask, 1);
      RollsLowestRun(version, mask, 2);
      RollsLowestRun(version, mask, 3);
      RunIsRun(mask);
      TopRuns(mask);
      FourOfRun(version, LowestRun(mask));
    } else {
      NoMask(version);
      assert Rolled(version, mask, 1) == Increment(Rolled(version, mask, 0), mask);
    }
  }

  /**
   The four versions of a job are pairwise distinct, for every version and every mask but none at
   all and the two that consist of one of the top two bits alone.
   */
  lemma FourDistinct(version: bv32, mask: bv32)
    ensures (forall j, k :: 0 <= j < k < 4 ==> Rolled(version, mask, j) != Rolled(version, mask, k))
      <==> mask != 0 && mask != 0x4000_0000 && mask != 0x8000_0000
  {
    hide Rolled, Increment;
    FourDiffer(version, mask);
    var a, b, c, d := Rolled(version, mask, 0), Rolled(version, mask, 1), Rolled(version, mask, 2), Rolled(version, mask, 3);
    assert AllDiffer(a, b, c, d) <==> a != b && a != c && a != d && b != c && b != d && c != d;
  }

  /** A full field at work: the carry of 0x1fffe000 goes to bit 30 instead of bit 29. */
  lemma CarrySkips()
    ensures Increment(0x1fff_e000, 0x1fff_e000) == 0x4000_0000
  {
  }
}
