/**
 Two increments of a version are one increment with another mask: the lowest run without its
 lowest bit or, if it has no other, the bit its carry goes to.
 */
module VersionSteps {
  import opened VersionMasks
  import opened VersionRoll

  function With(value: bv32, bit: bv32): bv32 { value | bit }

  /** What a run counts in with every other increment. */
  function Half(run: bv32): bv32 {
    if run == 0 then 0 else if OneBit(run) then Skipped(run) else Out(run, Lowest(run))
  }

  // ---------- bits below a mask stay out of it ----------

  lemma InWith(value: bv32, d: bv32, mask: bv32)
    requires Below(d, Lowest(mask)) == d
    ensures In(With(value, d), mask) == In(value, mask)
  {
  }

  lemma MergedWith(x: bv32, y: bv32, value: bv32, d: bv32, mask: bv32, c: bv32)
    requires In(d, mask) == 0 && x == With(value, d) && y == With(Out(value, mask), In(c, mask))
    ensures With(Out(x, mask), In(c, mask)) == With(y, d)
  {
  }

  lemma MergedJoins(value: bv32, mask: bv32)
    ensures Merged(value, mask) == With(Out(value, mask), In(Carry(value, mask), mask))
    ensures Overflow(value, mask) == Out(Carry(value, mask), mask)
    ensures Carry(value, mask) == Plus(In(value, mask), Lowest(mask))
  {
    hide In, Out, Plus, Lowest;
  }

  lemma NotIn(d: bv32, mask: bv32)
    requires Below(d, Lowest(mask)) == d
    ensures In(d, mask) == 0
  {
  }

  lemma StepWith(value: bv32, d: bv32, mask: bv32)
    requires Below(d, Lowest(mask)) == d
    ensures Merged(With(value, d), mask) == With(Merged(value, mask), d)
    ensures Overflow(With(value, d), mask) == Overflow(value, mask)
  {
    hide *;
    InWith(value, d, mask);
    NotIn(d, mask);
    MergedJoins(With(value, d), mask);
    MergedJoins(value, mask);
    MergedWith(With(value, d), Merged(value, mask), value, d, mask, Carry(value, mask));
  }

  lemma BelowHigher(d: bv32, lo: bv32, hi: bv32)
    requires OneBit(lo) && OneBit(hi) && hi > lo && Below(d, lo) == d
    ensures Below(d, hi) == d
  {
  }

  /** Bits below a mask are carried along. */
  lemma {:induction false} CarriedAlong(value: bv32, d: bv32, mask: bv32)
    requires mask == 0 || Below(d, Lowest(mask)) == d
    ensures Increment(With(value, d), mask) == With(Increment(value, mask), d)
    decreases Rank(mask)
  {
    if mask == 0 {
      NoMask(value);
      NoMask(With(value, d));
    } else {
      hide Overflow, Merged, Next, Lowest, Below, OneBit, Rank, Increment, With;
      StepWith(value, d, mask);
      Unrolled(value, mask);
      Unrolled(With(value, d), mask);
      NextOf(With(value, d), value, mask);
      if Overflow(value, mask) > 0 {
        RankFalls(value, mask);
        OverflowOneBit(value, mask);
        LowestIsBit(mask);
        var next := Next(value, mask);
        if next != 0 {
          BelowHigher(d, Lowest(mask), next);
        }
        CarriedAlong(Merged(value, mask), d, next);
      }
    }
  }

  lemma NextOf(a: bv32, b: bv32, mask: bv32)
    requires Overflow(a, mask) == Overflow(b, mask)
    ensures Next(a, mask) == Next(b, mask)
  {
    hide Overflow;
  }

  // ---------- setting the lowest bit, and carrying out of it ----------

  lemma AddToClear(f: bv32, unit: bv32)
    requires OneBit(unit) && In(f, unit) == 0
    ensures Plus(f, unit) == With(f, unit)
  {
  }

  lemma WithInside(value: bv32, bit: bv32, run: bv32)
    requires In(bit, run) == bit
    ensures In(With(value, bit), run) == With(In(value, run), bit) && Out(With(value, bit), run) == Out(value, run)
  {
  }

  lemma ClearNotFull(value: bv32, bit: bv32, run: bv32)
    requires In(bit, run) == bit && In(value, bit) == 0 && bit != 0
    ensures !Full(value, run) && In(In(value, run), bit) == 0
  {
  }

  /** With its lowest bit clear, a run just sets it. */
  lemma SetsLow(value: bv32, run: bv32)
    requires Contiguous(run) && In(value, Lowest(run)) == 0
    ensures Increment(value, run) == With(value, Lowest(run))
  {
    hide *;
    var unit := Lowest(run);
    IsFromLow(run);
    BitSome(unit);
    ClearNotFull(value, unit, run);
    IncrementField(value, run);
    AddToClear(In(value, run), unit);
    WithInside(value, unit, run);
    Rejoined(Increment(value, run), With(value, unit), run);
  }

  lemma HalfRun(run: bv32)
    requires Contiguous(run) && !OneBit(run)
    ensures var half := Out(run, Lowest(run));
      && Contiguous(half) && Lowest(half) == Second(run) && In(Lowest(run), half) == 0 && In(half, run) == half
  {
  }

  lemma HalfEnds(run: bv32)
    requires Contiguous(run) && !OneBit(run)
    ensures Plus(Out(run, Lowest(run)), Lowest(run) << 1) == Plus(run, Lowest(run))
  {
  }

  lemma HalfSkips(run: bv32)
    requires Contiguous(run) && !OneBit(run)
    ensures Skipped(Out(run, Lowest(run))) == Skipped(run)
  {
    hide Contiguous, OneBit, Plus, Out, Lowest;
    HalfRun(run);
    HalfEnds(run);
  }

  lemma ClearParts(value: bv32, run: bv32, unit: bv32)
    requires In(unit, run) == unit && In(value, unit) == 0
    ensures Out(value, run) == Out(value, Out(run, unit)) && In(value, run) == In(value, Out(run, unit))
  {
  }

  lemma WithAll(f: bv32, run: bv32, unit: bv32)
    requires f & unit == 0 && f | unit == run
    ensures f == run & !unit
  {
  }

  lemma AllWith(f: bv32, run: bv32, unit: bv32)
    requires unit & run == unit && f == run & !unit
    ensures f | unit == run
  {
  }

  lemma FillsUp(f: bv32, run: bv32, unit: bv32)
    requires In(unit, run) == unit && In(f, unit) == 0
    ensures With(f, unit) == run <==> f == Out(run, unit)
  {
    if f | unit == run {
      WithAll(f, run, unit);
    }
    if f == run & !unit {
      AllWith(f, run, unit);
    }
  }

  /** A run is full with its lowest bit set exactly if its other half is full. */
  lemma FullAlike(value: bv32, run: bv32, unit: bv32)
    requires In(unit, run) == unit && In(value, unit) == 0
    ensures Full(With(value, unit), run) <==> Full(value, Out(run, unit))
  {
    FullIs(With(value, unit), run);
    FullIs(value, Out(run, unit));
    hide *;
    WithInside(value, unit, run);
    ClearParts(value, run, unit);
    Nested(value, unit, run);
    FillsUp(In(value, run), run, unit);
  }

  lemma CarryBits(x: bv32, f: bv32, unit: bv32, half: bv32, second: bv32)
    requires FromLow(half, second) && second == unit << 1 && f & half == f
    requires unit != 0 && unit & (unit - 1) == 0 && x == f | unit
    ensures (x + unit) & half == (f + second) & half
  {
  }

  lemma WithIs(x: bv32, f: bv32, unit: bv32)
    requires x == With(f, unit)
    ensures x == f | unit
  {
  }

  lemma BitIs(unit: bv32)
    requires OneBit(unit)
    ensures unit != 0 && unit & (unit - 1) == 0
  {
  }

  /** Adding the unit to a field that holds it adds the next bit to the rest. */
  lemma CarryIn(x: bv32, f: bv32, unit: bv32, half: bv32, second: bv32)
    requires FromLow(half, second) && second == unit << 1 && In(f, half) == f && OneBit(unit) && x == With(f, unit)
    ensures In(Plus(x, unit), half) == In(Plus(f, second), half)
  {
    WithIs(x, f, unit);
    BitIs(unit);
    hide FromLow, With, OneBit;
    CarryBits(x, f, unit, half, second);
  }

  lemma ClearAgain(value: bv32, unit: bv32)
    requires In(value, unit) == 0
    ensures Out(With(value, unit), unit) == value
  {
  }

  /** With its lowest bit just set, a run carries into its other half. */
  lemma CarriesUp(value: bv32, run: bv32)
    requires Contiguous(run) && In(value, Lowest(run)) == 0
    ensures Increment(With(value, Lowest(run)), run) == Increment(value, Half(run))
  {
    HalfIs(run);
    MaskSome(run);
    hide *;
    var unit, half, raised := Lowest(run), Out(run, Lowest(run)), With(value, Lowest(run));
    IsFromLow(run);
    WithInside(value, unit, run);
    ClearParts(value, run, unit);
    FullAlike(value, run, unit);
    if OneBit(run) {
      OneBitField(raised, run);
      ClearAgain(value, unit);
      FullSet(value, run);
      WrapStep(raised, run);
    } else {
      HalfRun(run);
      HalfSkips(run);
      if Full(raised, run) {
        WrapStep(raised, run);
        WrapStep(value, half);
      } else {
        NoWrapUp(value, run, half, raised, unit);
      }
    }
  }

  lemma HalfIs(run: bv32)
    ensures run != 0 ==> Half(run) == if OneBit(run) then Skipped(run) else Out(run, Lowest(run))
    ensures Half(0) == 0
  {
    hide OneBit, Skipped, Out, Lowest;
  }

  lemma FullSet(value: bv32, bit: bv32)
    ensures Full(With(value, bit), bit)
  {
  }

  lemma NoWrapUp(value: bv32, run: bv32, half: bv32, raised: bv32, unit: bv32)
    requires Contiguous(run) && !OneBit(run) && unit == Lowest(run) && half == Out(run, unit) && raised == With(value, unit)
    requires In(value, unit) == 0 && !Full(raised, run)
    ensures Increment(raised, run) == Increment(value, half)
  {
    SecondIs(run);
    hide *;
    var f, a, b := In(value, run), Increment(raised, run), Increment(value, half);
    IsFromLow(run);
    WithInside(value, unit, run);
    ClearParts(value, run, unit);
    FullAlike(value, run, unit);
    HalfRun(run);
    IsFromLow(half);
    FullIs(value, half);
    IncrementField(raised, run);
    IncrementField(value, half);
    InTwice(value, half);
    CarryIn(With(f, unit), f, unit, half, Second(run));
    InPart(value, half);
    FieldRoom(f, half);
    Inside(Plus(f, Second(run)), half);
    Nested(a, half, run);
    Unset(raised, value, run, unit);
    OutsideHalf(a, value, run, unit);
    Rejoined(a, b, half);
  }

  lemma Unset(raised: bv32, value: bv32, run: bv32, unit: bv32)
    requires Contiguous(run) && unit == Lowest(run) && raised == With(value, unit)
    ensures In(Increment(raised, run), unit) == 0
  {
    hide *;
    IsFromLow(run);
    LowFlips(raised, run);
    IsSet(value, unit);
    OneBitField(Increment(raised, run), unit);
  }

  lemma IsSet(value: bv32, unit: bv32)
    ensures In(With(value, unit), unit) == unit
  {
  }

  lemma OutsideHalf(a: bv32, value: bv32, run: bv32, unit: bv32)
    requires In(unit, run) == unit && Out(a, run) == Out(value, run) && In(value, unit) == 0 && In(a, unit) == 0
    ensures Out(a, Out(run, unit)) == Out(value, Out(run, unit))
  {
    hide In, Out;
    ClearParts(a, run, unit);
    ClearParts(value, run, unit);
  }

  // ---------- two steps, three steps ----------

  lemma Halves(run: bv32)
    requires Contiguous(run)
    ensures Half(run) == 0 || (Contiguous(Half(run)) && OneBit(Lowest(Half(run))) && Lowest(Half(run)) > Lowest(run))
  {
    HalfIs(run);
    MaskSome(run);
    hide *;
    IsFromLow(run);
    if OneBit(run) {
      if Skipped(run) != 0 {
        FullField(run);
        SkippedHigher(run);
        OneBitField(0, Skipped(run));
      }
    } else {
      HalfRun(run);
      IsSecond(run);
    }
  }

  lemma SkippedHigher(run: bv32)
    requires Contiguous(run) && Skipped(run) != 0
    ensures Skipped(run) > Lowest(run) && Lowest(Skipped(run)) == Skipped(run)
  {
  }

  lemma Split(value: bv32, unit: bv32)
    requires OneBit(unit) && In(value, unit) != 0
    ensures With(Out(value, unit), unit) == value && In(Out(value, unit), unit) == 0
  {
  }

  lemma SelfBelow(lo: bv32, hi: bv32)
    requires OneBit(lo) && OneBit(hi) && hi > lo
    ensures Below(lo, hi) == lo
  {
  }

  /** An increment with the other half leaves the lowest bit alone. */
  lemma HalfKeeps(value: bv32, run: bv32)
    requires Contiguous(run)
    ensures In(Increment(value, Half(run)), Lowest(run)) == In(value, Lowest(run))
    ensures Increment(With(value, Lowest(run)), Half(run)) == With(Increment(value, Half(run)), Lowest(run))
  {
    hide *;
    var unit, half := Lowest(run), Half(run);
    IsFromLow(run);
    Halves(run);
    if half == 0 {
      NoMask(value);
      NoMask(With(value, unit));
    } else {
      LowUntouched(value, half);
      BelowLower(Increment(value, half), value, Lowest(half), unit);
      SelfBelow(unit, Lowest(half));
      CarriedAlong(value, unit, half);
    }
  }

  /** Two increments with a run are one with its half. */
  lemma TwoSteps(value: bv32, run: bv32)
    requires Contiguous(run)
    ensures Increment(Increment(value, run), run) == Increment(value, Half(run))
  {
    hide *;
    var unit := Lowest(run);
    IsFromLow(run);
    if In(value, unit) == 0 {
      SetsLow(value, run);
      CarriesUp(value, run);
    } else {
      var clear := Out(value, unit);
      Split(value, unit);
      CarriesUp(clear, run);
      HalfKeeps(clear, run);
      SetsLow(Increment(clear, Half(run)), run);
    }
  }

  lemma TwoStepsOrNone(value: bv32, run: bv32)
    requires run == 0 || Contiguous(run)
    ensures Increment(Increment(value, run), run) == Increment(value, Half(run))
  {
    hide *;
    HalfIs(run);
    if run == 0 {
      NoMask(value);
    } else {
      TwoSteps(value, run);
    }
  }

  /** Three increments are one with the half, from the bit set, or one with a quarter, from the bit cleared. */
  lemma ThreeSteps(value: bv32, run: bv32)
    requires Contiguous(run)
    ensures var unit := Lowest(run);
      Increment(Increment(Increment(value, run), run), run) ==
        if In(value, unit) == 0 then Increment(With(value, unit), Half(run))
        else Increment(Out(value, unit), Half(Half(run)))
  {
    hide *;
    var unit := Lowest(run);
    IsFromLow(run);
    if In(value, unit) == 0 {
      SetsLow(value, run);
      TwoSteps(With(value, unit), run);
    } else {
      var clear := Out(value, unit);
      var next := Increment(clear, Half(run));
      Split(value, unit);
      CarriesUp(clear, run);
      HalfKeeps(clear, run);
      SetsLow(next, run);
      CarriesUp(next, run);
      Halves(run);
      TwoStepsOrNone(clear, Half(run));
    }
  }

  // ---------- two masks, every step ----------

  /**
   When the versions rolled with two masks agree after k steps. After one step the masks need the
   same lowest bit, and the same lowest run or a shorter one with room; more steps come down to
   one with the halves of the runs.
   */
  predicate AgreeAfter(version: bv32, a: bv32, b: bv32, k: nat)
    requires k <= 3
  {
    var x, y, unit := LowestRun(a), LowestRun(b), Lowest(a);
    if k == 0 then true
    else if k == 1 then SameUpTo(version, a, b, 1)
    else if k == 2 then SameUpTo(version, Half(x), Half(y), 1)
    else if Lowest(a) != Lowest(b) then false
    else if In(version, unit) == 0 then SameUpTo(With(version, unit), Half(x), Half(y), 1)
    else SameUpTo(Out(version, unit), Half(Half(x)), Half(Half(y)), 1)
  }

  lemma OneStepAgrees(value: bv32, x: bv32, y: bv32)
    ensures Increment(value, x) == Increment(value, y) <==> SameUpTo(value, x, y, 1)
  {
    hide *;
    RollSteps(value, x);
    RollSteps(value, y);
    VersionsAgree(value, x, y, 1);
  }

  lemma RollOfRun(version: bv32, mask: bv32)
    ensures var run := LowestRun(mask);
      && (run == 0 <==> mask == 0) && (mask != 0 ==> Contiguous(run) && Lowest(run) == Lowest(mask))
      && Rolled(version, mask, 2) == Increment(Increment(version, run), run)
      && Rolled(version, mask, 3) == Increment(Increment(Increment(version, run), run), run)
  {
    hide *;
    var run := LowestRun(mask);
    NoRun();
    if mask != 0 {
      RunIsRun(mask);
      MaskSome(run);
    }
    RollsLowestRun(version, mask, 2);
    RollsLowestRun(version, mask, 3);
    RollSteps(version, run);
  }

  /** For every version, every two masks and up to three steps. */
  lemma AgreeExactly(version: bv32, a: bv32, b: bv32, k: nat)
    requires k <= 3
    ensures Rolled(version, a, k) == Rolled(version, b, k) <==> AgreeAfter(version, a, b, k)
  {
    AgreeIs(version, a, b);
    hide *;
    RollSteps(version, a);
    RollSteps(version, b);
    if k == 1 {
      VersionsAgree(version, a, b, 1);
    } else if k == 2 {
      TwoAgree(version, a, b);
    } else if k == 3 {
      ThreeAgree(version, a, b);
    }
  }

  lemma AgreeIs(version: bv32, a: bv32, b: bv32)
    ensures var x, y := LowestRun(a), LowestRun(b);
      && AgreeAfter(version, a, b, 0)
      && (AgreeAfter(version, a, b, 1) <==> SameUpTo(version, a, b, 1))
      && (AgreeAfter(version, a, b, 2) <==> SameUpTo(version, Half(x), Half(y), 1))
  {
    hide SameUpTo, Half, LowestRun, Lowest, In, Out, With;
  }

  lemma ThreeIs(version: bv32, a: bv32, b: bv32)
    ensures var x, y, unit := LowestRun(a), LowestRun(b), Lowest(a);
      AgreeAfter(version, a, b, 3) <==>
        if Lowest(a) != Lowest(b) then false
        else if In(version, unit) == 0 then SameUpTo(With(version, unit), Half(x), Half(y), 1)
        else SameUpTo(Out(version, unit), Half(Half(x)), Half(Half(y)), 1)
  {
    hide SameUpTo, Half, LowestRun, Lowest, In, Out, With;
  }

  lemma TwoAgree(version: bv32, a: bv32, b: bv32)
    ensures Rolled(version, a, 2) == Rolled(version, b, 2)
      <==> SameUpTo(version, Half(LowestRun(a)), Half(LowestRun(b)), 1)
  {
    hide *;
    var x, y := LowestRun(a), LowestRun(b);
    RollOfRun(version, a);
    RollOfRun(version, b);
    TwoStepsOrNone(version, x);
    TwoStepsOrNone(version, y);
    OneStepAgrees(version, Half(x), Half(y));
  }

  lemma ThreeAgree(version: bv32, a: bv32, b: bv32)
    ensures Rolled(version, a, 3) == Rolled(version, b, 3) <==> AgreeAfter(version, a, b, 3)
  {
    ThreeIs(version, a, b);
    hide *;
    var x, y, unit := LowestRun(a), LowestRun(b), Lowest(a);
    RollOfRun(version, a);
    RollOfRun(version, b);
    if a != 0 && b != 0 {
      if Lowest(a) == Lowest(b) {
        ThreeSteps(version, x);
        ThreeSteps(version, y);
        OneStepAgrees(With(version, unit), Half(x), Half(y));
        OneStepAgrees(Out(version, unit), Half(Half(x)), Half(Half(y)));
      } else {
        RunsApart(version, a, b);
      }
    } else if a == 0 && b == 0 {
      NothingInside(version);
      SameMask(With(version, 0), Half(x));
    } else {
      NoLowest();
      Stays(version, 3);
      if a != 0 {
        Changes(version, a, 3);
      } else {
        Changes(version, b, 3);
      }
    }
  }

  lemma NothingInside(version: bv32)
    ensures In(version, 0) == 0 && Lowest(0) == 0
  {
  }

  lemma SameMask(value: bv32, x: bv32)
    ensures SameUpTo(value, x, x, 1)
  {
    hide LowestRun, Lowest, NoWrap, In;
  }

  lemma RunsApart(version: bv32, a: bv32, b: bv32)
    requires a != 0 && b != 0 && Lowest(a) != Lowest(b)
    ensures Rolled(version, a, 3) != Rolled(version, b, 3)
  {
    hide *;
    var x, y := LowestRun(a), LowestRun(b);
    RunIsRun(a);
    RunIsRun(b);
    IsFromLow(x);
    IsFromLow(y);
    RollsLowestRun(version, a, 3);
    RollsLowestRun(version, b, 3);
    OneLess(Lowest(x), Lowest(y));
    if Lowest(x) < Lowest(y) {
      UnitsDiffer(version, x, y, 3);
    } else {
      UnitsDiffer(version, y, x, 3);
    }
  }
}
