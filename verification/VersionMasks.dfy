/**
 Rolling one version with two masks: main/tasks/create_jobs_task.c reads the pool's mask once to
 make the midstates of a job and once more to keep it for replaying versions.
 */
module VersionMasks {
  import opened VersionRoll

  // ---------- the low bits of a field ----------

  /** A run of bits and its lowest bit. */
  predicate FromLow(run: bv32, unit: bv32) {
    && run & (run + unit) == 0 && unit != 0 && unit & (unit - 1) == 0
    && unit & run == unit && run & (unit - 1) == 0
  }

  lemma IsFromLow(run: bv32)
    requires Contiguous(run)
    ensures FromLow(run, Lowest(run)) && OneBit(Lowest(run)) && In(Lowest(run), run) == Lowest(run)
  {
  }

  lemma Nested(value: bv32, part: bv32, whole: bv32)
    requires In(part, whole) == part
    ensures In(In(value, whole), part) == In(value, part)
  {
  }

  lemma UnitFlips(f: bv32, run: bv32, unit: bv32)
    requires Contiguous(run) && unit == Lowest(run) && In(f, run) == f
    ensures In(In(Plus(f, unit), run), unit) != In(f, unit)
  {
  }

  /** An increment flips the lowest bit of its run and leaves the bits below alone. */
  lemma LowFlips(value: bv32, run: bv32)
    requires Contiguous(run)
    ensures In(Increment(value, run), Lowest(run)) != In(value, Lowest(run))
    ensures Below(Increment(value, run), Lowest(run)) == Below(value, Lowest(run))
  {
    MaskSome(run);
    hide *;
    var unit, next := Lowest(run), Increment(value, run);
    FieldCycles(value, run);
    InTwice(value, run);
    UnitFlips(In(value, run), run, unit);
    IsFromLow(run);
    Nested(next, unit, run);
    Nested(value, unit, run);
    LowUntouched(value, run);
  }

  /** The bit above the lowest. */
  function Second(run: bv32): bv32 { Lowest(run) << 1 }

  lemma SecondFlips(f: bv32, run: bv32, unit: bv32)
    requires Contiguous(run) && unit == Lowest(run) && In(f, run) == f && !OneBit(run)
    ensures In(In(Plus(f, unit), run), unit << 1) == In(f, unit << 1) <==> In(f, unit) == 0
  {
  }

  lemma IsSecond(run: bv32)
    requires Contiguous(run) && !OneBit(run)
    ensures OneBit(Second(run)) && Second(run) > Lowest(run) && In(Second(run), run) == Second(run)
  {
  }

  /** An increment flips the second bit exactly if the lowest is set. */
  lemma SecondStep(value: bv32, run: bv32)
    requires Contiguous(run) && !OneBit(run)
    ensures In(Increment(value, run), Second(run)) == In(value, Second(run)) <==> In(value, Lowest(run)) == 0
  {
    hide In, Plus, Increment, Contiguous, OneBit, Lowest;
    var unit, next := Lowest(run), Increment(value, run);
    FieldCycles(value, run);
    InTwice(value, run);
    SecondFlips(In(value, run), run, unit);
    IsFromLow(run);
    IsSecond(run);
    Nested(next, Second(run), run);
    Nested(value, Second(run), run);
    Nested(value, unit, run);
  }

  lemma BelowDouble(a: bv32, b: bv32, unit: bv32, second: bv32)
    requires OneBit(unit) && OneBit(second) && second == unit << 1
    requires Below(a, unit) == Below(b, unit) && In(a, unit) == In(b, unit)
    ensures Below(a, second) == Below(b, second)
  {
  }

  lemma RollSteps(version: bv32, mask: bv32)
    ensures Rolled(version, mask, 0) == version && Rolled(version, mask, 1) == Increment(version, mask)
    ensures Rolled(version, mask, 2) == Increment(Rolled(version, mask, 1), mask)
    ensures Rolled(version, mask, 3) == Increment(Rolled(version, mask, 2), mask)
  {
    hide Increment;
  }

  /** A bit is there or not. */
  lemma BitTold(x: bv32, y: bv32, bit: bv32)
    requires OneBit(bit)
    ensures In(x, bit) == In(y, bit) <==> (In(x, bit) == 0 <==> In(y, bit) == 0)
  {
  }

  /** After an odd number of increments the lowest bit has changed. */
  lemma OddRoll(version: bv32, run: bv32, k: nat)
    requires Contiguous(run) && (k == 1 || k == 3)
    ensures In(Rolled(version, run, k), Lowest(run)) != In(version, Lowest(run))
    ensures Below(Rolled(version, run, k), Lowest(run)) == Below(version, Lowest(run))
  {
    hide *;
    IsFromLow(run);
    RollSteps(version, run);
    var unit, r0, r1, r2, r3 := Lowest(run), version, Rolled(version, run, 1), Rolled(version, run, 2), Rolled(version, run, 3);
    LowFlips(r0, run);
    LowFlips(r1, run);
    LowFlips(r2, run);
    BitTold(r0, r1, unit);
    BitTold(r1, r2, unit);
    BitTold(r2, r3, unit);
    BitTold(r0, r3, unit);
  }

  /** After two increments of a field of two bits or more its second bit is the lowest that has changed. */
  lemma TwoRolls(version: bv32, run: bv32)
    requires Contiguous(run) && !OneBit(run)
    ensures In(Rolled(version, run, 2), Second(run)) != In(version, Second(run))
    ensures Below(Rolled(version, run, 2), Second(run)) == Below(version, Second(run))
  {
    hide *;
    IsFromLow(run);
    IsSecond(run);
    SecondIs(run);
    RollSteps(version, run);
    var unit, second, r0, r1, r2 := Lowest(run), Second(run), version, Rolled(version, run, 1), Rolled(version, run, 2);
    LowFlips(r0, run);
    LowFlips(r1, run);
    BitTold(r0, r1, unit);
    BitTold(r1, r2, unit);
    BitTold(r0, r2, unit);
    SecondStep(r0, run);
    SecondStep(r1, run);
    BitTold(r0, r1, second);
    BitTold(r1, r2, second);
    BitTold(r0, r2, second);
    BelowDouble(r2, r0, unit, second);
  }

  lemma SecondIs(run: bv32)
    ensures Second(run) == Lowest(run) << 1
  {
    hide Lowest;
  }

  // ---------- different units ----------

  lemma Doubled(a: bv32, b: bv32)
    requires OneBit(a) && OneBit(b) && a < b && b << 1 > b
    ensures a << 1 < b << 1
  {
  }

  /** Fields with different lowest bits lead to different versions. */
  lemma UnitsDiffer(version: bv32, a: bv32, b: bv32, k: nat)
    requires Contiguous(a) && Contiguous(b) && Lowest(a) < Lowest(b) && 1 <= k <= 3
    requires k == 2 ==> !OneBit(a) && !OneBit(b)
    ensures Rolled(version, a, k) != Rolled(version, b, k)
  {
    IsFromLow(a);
    IsFromLow(b);
    hide In, Contiguous, Lowest, Below, OneBit, Increment, Rolled;
    if k == 2 {
      IsSecond(a);
      IsSecond(b);
      TwoRolls(version, a);
      TwoRolls(version, b);
      Doubled(Lowest(a), Lowest(b));
      BelowLower(Rolled(version, b, 2), version, Second(b), Second(a));
    } else {
      OddRoll(version, a, k);
      OddRoll(version, b, k);
      BelowLower(Rolled(version, b, k), version, Lowest(b), Lowest(a));
    }
  }

  // ---------- one unit, two runs ----------

  /** Two runs from the same lowest bit, the first the shorter one. */
  predicate Shorter(n: bv32, w: bv32) {
    Contiguous(n) && Contiguous(w) && Lowest(n) == Lowest(w) && n != w && In(n, w) == n
  }

  lemma ShorterOf(a: bv32, b: bv32)
    requires Contiguous(a) && Contiguous(b) && Lowest(a) == Lowest(b) && a != b
    ensures (Shorter(a, b) && In(a, b) == a) || (Shorter(b, a) && In(a, b) == b)
  {
  }

  lemma LowPart(value: bv32, w: bv32)
    requires Contiguous(w)
    ensures Below(In(value, w), Lowest(w)) == 0
  {
  }

  lemma SumLow(x: bv32, y: bv32, run: bv32, unit: bv32)
    requires FromLow(run, unit) && x & (unit - 1) == 0 && x & run == y
    ensures (x + unit) & run == (y + unit) & run
  {
  }

  lemma SumInRun(x: bv32, y: bv32, run: bv32, unit: bv32)
    requires FromLow(run, unit) && Below(x, unit) == 0 && In(x, run) == y
    ensures In(Plus(x, unit), run) == In(Plus(y, unit), run)
  {
    hide FromLow;
    SumLow(x, y, run, unit);
  }

  lemma SumOutRun(x: bv32, run: bv32, unit: bv32)
    requires FromLow(run, unit) && Below(x, unit) == 0 && In(x, run) != run
    ensures Out(Plus(x, unit), run) == Out(x, run)
  {
  }

  lemma SumOverRun(x: bv32, run: bv32, unit: bv32, above: bv32)
    requires FromLow(run, unit) && Below(x, unit) == 0 && In(x, run) == run && above == Plus(run, unit) && above != 0
    ensures In(Plus(x, unit), above) != In(x, above)
  {
  }

  /** The bit right above the shorter run. */
  function Above(n: bv32): bv32 { Plus(n, Lowest(n)) }

  lemma IsAbove(n: bv32, w: bv32)
    requires Shorter(n, w)
    ensures In(Above(n), w) == Above(n) && OneBit(Above(n)) && In(Above(n), n) == 0 && Above(n) != 0
    ensures Above(n) == Plus(n, Lowest(n))
  {
  }

  lemma SkippedAbove(n: bv32)
    requires Contiguous(n) && Above(n) != 0 && Skipped(n) != 0
    ensures Skipped(n) > Above(n) && OneBit(Skipped(n)) && Lowest(Skipped(n)) == Skipped(n)
  {
  }

  lemma NotFull(value: bv32, n: bv32, w: bv32)
    requires In(n, w) == n && !Full(value, n)
    ensures !Full(value, w)
  {
  }

  lemma OutParts(value: bv32, n: bv32, w: bv32)
    requires In(n, w) == n
    ensures Out(value, n) == Out(value, w) | Out(In(value, w), n)
  {
  }

  /** While the shorter run is not full, the sum in the longer one is the sum in the shorter one. */
  lemma SumsMeet(value: bv32, n: bv32, w: bv32)
    requires Shorter(n, w) && !Full(value, n)
    ensures var x, unit := In(value, w), Lowest(n);
      In(Plus(x, unit), n) == Plus(In(value, n), unit) && Out(Plus(x, unit), n) == Out(x, n)
  {
    FullIs(value, n);
    ShorterIs(n, w);
    IsFromLow(n);
    hide *;
    var x, y, unit := In(value, w), In(value, n), Lowest(n);
    LowPart(value, w);
    Nested(value, n, w);
    SumInRun(x, y, n, unit);
    SumOutRun(x, n, unit);
    InPart(value, n);
    FieldRoom(y, n);
    Inside(Plus(y, unit), n);
  }

  lemma FullIs(value: bv32, n: bv32)
    ensures Full(value, n) <==> In(value, n) == n
  {
    hide In;
  }

  lemma ShorterIs(n: bv32, w: bv32)
    requires Shorter(n, w)
    ensures Contiguous(n) && Contiguous(w) && Lowest(n) == Lowest(w) && In(n, w) == n
  {
    hide Contiguous, Lowest, In;
  }

  /** Neither run wrapping, both count alike. */
  lemma BothCount(value: bv32, n: bv32, w: bv32)
    requires Shorter(n, w) && !Full(value, n)
    ensures Increment(value, n) == Increment(value, w)
  {
    ShorterIs(n, w);
    hide *;
    var a, b := Increment(value, n), Increment(value, w);
    SumsMeet(value, n, w);
    NotFull(value, n, w);
    IncrementField(value, n);
    IncrementField(value, w);
    Nested(b, n, w);
    OutMeets(value, b, n, w);
    Rejoined(a, b, n);
  }

  lemma OutMeets(value: bv32, next: bv32, n: bv32, w: bv32)
    requires In(n, w) == n && Out(next, w) == Out(value, w) && Out(In(next, w), n) == Out(In(value, w), n)
    ensures Out(next, n) == Out(value, n)
  {
    hide In, Out;
    OutParts(value, n, w);
    OutParts(next, n, w);
  }

  lemma Inside(value: bv32, mask: bv32)
    requires Out(value, mask) == 0
    ensures In(value, mask) == value
  {
  }

  /** The shorter run does not touch the bit above it. */
  lemma ShortSkips(value: bv32, n: bv32, w: bv32)
    requires Shorter(n, w)
    ensures In(Increment(value, n), Above(n)) == In(value, Above(n))
  {
    IsAbove(n, w);
    hide In, Out, Plus, Lowest, Contiguous, Increment, OneBit, Skipped, Full, Below, Above;
    InPart(value, n);
    var rest := Out(value, n);
    SameBit(rest, value, n, Above(n));
    if !Full(value, n) {
      IncrementField(value, n);
      SameBit(Increment(value, n), value, n, Above(n));
    } else {
      WrapStep(value, n);
      if Skipped(n) == 0 {
        NoMask(rest);
      } else {
        SkippedAbove(n);
        LowUntouched(rest, Skipped(n));
        BelowLower(Increment(rest, Skipped(n)), rest, Skipped(n), Above(n));
      }
    }
  }

  /** The longer run counts in the shorter one and carries into the bit above it. */
  lemma LongCarries(value: bv32, n: bv32, w: bv32)
    requires Shorter(n, w)
    ensures In(Increment(value, w), n) == In(Plus(In(value, n), Lowest(n)), n)
    ensures In(Increment(value, w), Above(n)) == In(value, Above(n)) <==> !Full(value, n)
  {
    FullIs(value, n);
    ShorterIs(n, w);
    IsFromLow(n);
    IsAbove(n, w);
    hide *;
    var unit, x, next, above := Lowest(n), In(value, w), Increment(value, w), Above(n);
    FieldCycles(value, w);
    LowPart(value, w);
    Nested(value, n, w);
    Nested(next, n, w);
    Nested(Plus(x, unit), n, w);
    SumInRun(x, In(value, n), n, unit);
    Nested(value, above, w);
    Nested(next, above, w);
    Nested(Plus(x, unit), above, w);
    if Full(value, n) {
      SumOverRun(x, n, unit, above);
    } else {
      SumOutRun(x, n, unit);
      SameBit(Plus(x, unit), x, n, above);
    }
  }

  /** Both versions hold the same in the shorter run, and the bit above it stays with the shorter run. */
  lemma {:induction false} SameField(version: bv32, n: bv32, w: bv32, k: nat)
    requires Shorter(n, w)
    ensures In(Rolled(version, w, k), n) == In(Rolled(version, n, k), n)
    ensures In(Rolled(version, n, k), Above(n)) == In(version, Above(n))
  {
    hide In, Plus, Lowest, Contiguous, Increment, Full, Above;
    if k > 0 {
      SameField(version, n, w, k - 1);
      FieldCycles(Rolled(version, n, k - 1), n);
      LongCarries(Rolled(version, w, k - 1), n, w);
      ShortSkips(Rolled(version, n, k - 1), n, w);
    }
  }

  /** A field of two bits or more is not full again within two increments. */
  lemma FullOnce(value: bv32, n: bv32)
    requires Contiguous(n) && !OneBit(n) && Full(value, n)
    ensures !Full(Increment(value, n), n) && !Full(Increment(Increment(value, n), n), n)
  {
    hide In, Plus, Lowest, Contiguous, Increment, OneBit;
    FieldCycles(value, n);
    FieldCycles(Increment(value, n), n);
    InTwice(value, n);
    CycleApart(In(value, n), n);
  }

  lemma {:induction false} CountAlike(version: bv32, n: bv32, w: bv32, k: nat)
    requires Shorter(n, w) && (forall j :: 0 <= j < k ==> !Full(Rolled(version, n, j), n))
    ensures Rolled(version, n, k) == Rolled(version, w, k)
  {
    hide Shorter, Increment, Full;
    if k > 0 {
      CountAlike(version, n, w, k - 1);
      assert !Full(Rolled(version, n, k - 1), n);
      BothCount(Rolled(version, n, k - 1), n, w);
    }
  }

  /** Where the shorter run wraps once, the longer one has flipped the bit above it. */
  lemma WrapTells(version: bv32, n: bv32, w: bv32, k: nat, j: nat)
    requires Shorter(n, w) && j < k <= 3 && Full(Rolled(version, n, j), n) && (k == 1 || !OneBit(n))
    ensures In(Rolled(version, w, k), Above(n)) != In(version, Above(n))
  {
    hide *;
    IsAbove(n, w);
    ShorterIs(n, w);
    RollSteps(version, n);
    RollSteps(version, w);
    var above, v0, v1, v2 := Above(n), version, Rolled(version, n, 1), Rolled(version, n, 2);
    var w0, w1, w2, w3 := version, Rolled(version, w, 1), Rolled(version, w, 2), Rolled(version, w, 3);
    SameField(version, n, w, 1);
    SameField(version, n, w, 2);
    SameFull(v1, w1, n);
    SameFull(v2, w2, n);
    if !OneBit(n) {
      OnlyOneFull(v0, v1, v2, n);
    }
    LongCarries(w0, n, w);
    LongCarries(w1, n, w);
    LongCarries(w2, n, w);
    BitTold(w0, w1, above);
    BitTold(w1, w2, above);
    BitTold(w2, w3, above);
    BitTold(w0, w2, above);
    BitTold(w0, w3, above);
    assert j == 0 || j == 1 || j == 2;
  }

  lemma SameFull(a: bv32, b: bv32, n: bv32)
    requires In(a, n) == In(b, n)
    ensures Full(a, n) <==> Full(b, n)
  {
    hide In;
  }

  lemma OnlyOneFull(v0: bv32, v1: bv32, v2: bv32, n: bv32)
    requires Contiguous(n) && !OneBit(n) && v1 == Increment(v0, n) && v2 == Increment(v1, n)
    ensures (Full(v0, n) ==> !Full(v1, n) && !Full(v2, n)) && (Full(v1, n) ==> !Full(v2, n))
  {
    hide Full, Contiguous, OneBit, Increment;
    if Full(v0, n) {
      FullOnce(v0, n);
    }
    if Full(v1, n) {
      FullOnce(v1, n);
    }
  }

  // ---------- any two masks ----------

  lemma RunsAgree(version: bv32, a: bv32, b: bv32, k: nat)
    requires Contiguous(a) && Contiguous(b) && 1 <= k <= 3 && (k == 1 || (!OneBit(a) && !OneBit(b)))
    ensures Rolled(version, a, k) == Rolled(version, b, k)
      <==> Lowest(a) == Lowest(b) && (a == b || NoWrap(version, In(a, b), k))
  {
    hide Contiguous, OneBit, Lowest, Rolled, Increment, In, NoWrap;
    if Lowest(a) != Lowest(b) {
      IsFromLow(a);
      IsFromLow(b);
      OneLess(Lowest(a), Lowest(b));
      if Lowest(a) < Lowest(b) {
        UnitsDiffer(version, a, b, k);
      } else {
        UnitsDiffer(version, b, a, k);
      }
    } else if a != b {
      ShorterOf(a, b);
      if Shorter(a, b) && In(a, b) == a {
        ShorterAgrees(version, a, b, k);
      } else {
        ShorterAgrees(version, b, a, k);
      }
    }
  }

  lemma OneLess(a: bv32, b: bv32)
    requires OneBit(a) && OneBit(b) && a != b
    ensures a < b || b < a
  {
  }

  lemma ShorterAgrees(version: bv32, n: bv32, w: bv32, k: nat)
    requires Shorter(n, w) && 1 <= k <= 3 && (k == 1 || !OneBit(n))
    ensures Rolled(version, n, k) == Rolled(version, w, k) <==> NoWrap(version, n, k)
  {
    ShorterIs(n, w);
    RunOfRun(n);
    hide Shorter, OneBit, Rolled, Increment, Full, In, LowestRun, Contiguous, Lowest;
    if forall j :: 0 <= j < k ==> !Full(Rolled(version, n, j), n) {
      CountAlike(version, n, w, k);
    } else {
      var j :| 0 <= j < k && Full(Rolled(version, n, j), n);
      WrapTells(version, n, w, k, j);
      SameField(version, n, w, k);
    }
  }

  /** The lowest run of a mask is empty or has two bits or more. */
  predicate Wide(mask: bv32) {
    mask == 0 || !OneBit(LowestRun(mask))
  }

  /** Without a mask a version stays, with one it changes. */
  lemma {:induction false} Stays(version: bv32, k: nat)
    ensures Rolled(version, 0, k) == version
  {
    hide Increment;
    if k > 0 {
      Stays(version, k - 1);
      NoMask(version);
    }
  }

  lemma Changes(version: bv32, mask: bv32, k: nat)
    requires mask != 0 && 1 <= k <= 3 && (k == 2 ==> Wide(mask))
    ensures Rolled(version, mask, k) != version && Lowest(mask) != 0
  {
    var run := LowestRun(mask);
    RunIsRun(mask);
    IsFromLow(run);
    hide Rolled, Contiguous, Lowest, LowestRun, In, Below, Second;
    RollsLowestRun(version, mask, k);
    if k == 2 {
      TwoRolls(version, run);
    } else {
      OddRoll(version, run, k);
    }
  }

  /**
   The versions rolled with two masks agree after one to three steps if and only if the masks have
   the same lowest bit and either the same lowest run or no wrap of the shorter one. After a single
   step this holds for all masks, after more if no mask has a single bit for its lowest run.
   */
  lemma VersionsAgree(version: bv32, a: bv32, b: bv32, k: nat)
    requires k <= 3 && (k <= 1 || (Wide(a) && Wide(b)))
    ensures Rolled(version, a, k) == Rolled(version, b, k)
      <==> k == 0 || SameUpTo(version, a, b, k)
  {
    RollSteps(version, a);
    RollSteps(version, b);
    if k > 0 && a != 0 && b != 0 {
      NonzeroAgree(version, a, b, k);
    } else if k > 0 && a != b {
      Stays(version, k);
      NoLowest();
      if a != 0 {
        Changes(version, a, k);
      } else {
        Changes(version, b, k);
      }
    }
  }

  /** The same lowest bit, and the same lowest run or a shorter one that does not wrap. */
  predicate SameUpTo(version: bv32, a: bv32, b: bv32, k: nat) {
    var x, y := LowestRun(a), LowestRun(b);
    Lowest(a) == Lowest(b) && (x == y || NoWrap(version, In(x, y), k))
  }

  lemma NoLowest()
    ensures Lowest(0) == 0
  {
  }

  lemma NonzeroAgree(version: bv32, a: bv32, b: bv32, k: nat)
    requires a != 0 && b != 0 && 1 <= k <= 3 && (k == 1 || (Wide(a) && Wide(b)))
    ensures Rolled(version, a, k) == Rolled(version, b, k) <==> SameUpTo(version, a, b, k)
  {
    hide *;
    RunIsRun(a);
    RunIsRun(b);
    RollsLowestRun(version, a, k);
    RollsLowestRun(version, b, k);
    SameIs(version, a, b, k);
    if k > 1 {
      WideIs(a);
      WideIs(b);
    }
    RunsAgree(version, LowestRun(a), LowestRun(b), k);
  }

  lemma SameIs(version: bv32, a: bv32, b: bv32, k: nat)
    ensures var x, y := LowestRun(a), LowestRun(b);
      SameUpTo(version, a, b, k) <==> Lowest(a) == Lowest(b) && (x == y || NoWrap(version, In(x, y), k))
  {
    hide LowestRun, Lowest, NoWrap, In;
  }

  lemma WideIs(mask: bv32)
    requires Wide(mask) && mask != 0
    ensures !OneBit(LowestRun(mask))
  {
    hide LowestRun, OneBit;
  }

  /** Two masks that differ in their lowest bits, as a pool may send them one after the other. */
  lemma MasksDisagree()
    ensures Rolled(0x2000_0000, 0x1fff_e000, 1) == 0x2000_2000 && Rolled(0x2000_0000, 0x1fff_0000, 1) == 0x2001_0000
  {
    var version: bv32 := 0x2000_0000;
    assert Rolled(version, 0x1fff_e000, 1) == Increment(Rolled(version, 0x1fff_e000, 0), 0x1fff_e000);
    assert Rolled(version, 0x1fff_0000, 1) == Increment(Rolled(version, 0x1fff_0000, 0), 0x1fff_0000);
  }
}
