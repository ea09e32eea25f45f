/**
 The job table shared by the task that sends work to the ASIC and the task that reads its
 results (components/asic/bm1370.c, components/asic/bm1397.c, main/system.c). Each locked
 region is one step.
 */
module JobSlots {
  import opened Digits
  import opened Options
  import opened VersionRoll
  import Mining
  import Sha256

  /** The size of active_jobs and valid_jobs. */
  const SLOTS: nat := 128

  /** A job, told apart by the allocation it came from. */
  datatype Job = Job(serial: nat, version: bv32, versionMask: bv32)

  /** The steps that change the table. */
  datatype Event = Send(job: Job) | Clean

  // ---------- identifiers ----------

  /** The strides of the four chips: 4 for BM1397, 8 for BM1366, 24 for BM1368 and BM1370. */
  predicate Stride(stride: nat) {
    stride == 4 || stride == 8 || stride == 24
  }

  /** How many identifiers a stride visits. */
  function Period(stride: nat): nat {
    if stride == 4 then 32 else 16
  }

  /** The static identifier after n sends. */
  function Id(stride: nat, n: nat): (id: nat)
    ensures id < SLOTS
  {
    if n == 0 then 0 else (Id(stride, n - 1) + stride) % SLOTS
  }

  lemma ModNext(n: nat, p: nat)
    requires p > 0
    ensures (n + 1) % p == if n % p == p - 1 then 0 else n % p + 1
  {
    var q: nat, r: nat := n / p, n % p;
    assert n == q * p + r by { DivMod(n, p); }
    if r == p - 1 {
      assert n + 1 == (q + 1) * p + 0;
      DivModUnique(q + 1, 0, p);
    } else {
      DivModUnique(q, r + 1, p);
    }
  }

  /** The identifier at each point of the cycle; a stride of 24 runs past the table twice. */
  function InCycle(stride: nat, r: nat): int {
    if stride == 4 then 4 * r
    else if stride == 8 then 8 * r
    else if r < 6 then 24 * r
    else if r < 11 then 24 * r - SLOTS
    else 24 * r - 2 * SLOTS
  }

  lemma CycleStep(stride: nat, r: nat)
    requires Stride(stride) && r < Period(stride)
    ensures InCycle(stride, if r == Period(stride) - 1 then 0 else r + 1) == (InCycle(stride, r) + stride) % SLOTS
  {
  }

  lemma CycleDistinct(stride: nat, a: nat, b: nat)
    requires Stride(stride) && a < Period(stride) && b < Period(stride)
    ensures InCycle(stride, a) == InCycle(stride, b) <==> a == b
    ensures InCycle(stride, a) % 4 == 0
  {
  }

  lemma {:induction false} IdClosed(stride: nat, n: nat)
    requires Stride(stride)
    ensures Id(stride, n) == InCycle(stride, n % Period(stride))
  {
    if n > 0 {
      IdClosed(stride, n - 1);
      ModNext(n - 1, Period(stride));
      CycleStep(stride, (n - 1) % Period(stride));
    }
  }

  lemma {:induction false} IdOf(stride: nat, n: nat)
    ensures Id(stride, n) == n * stride % SLOTS
  {
    if n > 0 {
      IdOf(stride, n - 1);
      OneMoreTime(stride, n);
      AddMod((n - 1) * stride, stride);
    }
  }

  lemma OneMoreTime(stride: nat, n: nat)
    requires n > 0
    ensures n * stride == (n - 1) * stride + stride
  {
  }

  lemma AddMod(x: nat, y: nat)
    ensures (x % SLOTS + y) % SLOTS == (x + y) % SLOTS
  {
  }

  /** Identifiers repeat with the period, and not earlier: every one of them is used before any is used again. */
  lemma SameId(stride: nat, a: nat, b: nat)
    requires Stride(stride)
    ensures Id(stride, a) == a * stride % SLOTS
    ensures Id(stride, a) == Id(stride, b) <==> a % Period(stride) == b % Period(stride)
  {
    IdOf(stride, a);
    hide InCycle, Id;
    IdClosed(stride, a);
    IdClosed(stride, b);
    CycleDistinct(stride, a % Period(stride), b % Period(stride));
  }

  /** Every identifier is one that a clean step resets. */
  lemma IdCleaned(stride: nat, n: nat)
    requires Stride(stride)
    ensures Id(stride, n) % 4 == 0
  {
    hide InCycle, Id;
    IdClosed(stride, n);
    CycleDistinct(stride, n % Period(stride), 0);
  }

  // ---------- the history ----------

  /** The jobs sent so far, oldest first. */
  function Sends(events: seq<Event>): (s: seq<Job>)
    ensures |s| <= |events|
  {
    if events == [] then []
    else
      var sent, last := Sends(events[..|events| - 1]), events[|events| - 1];
      if last.Send? then sent + [last.job] else sent
  }

  /** How many jobs had been sent at the last clean step. */
  function Cleaned(events: seq<Event>): (n: nat)
    ensures n <= |Sends(events)|
  {
    if events == [] then 0
    else
      var before := events[..|events| - 1];
      if events[|events| - 1].Clean? then |Sends(before)| else Cleaned(before)
  }

  // ---------- the table ----------

  /** active_jobs[i] */
  function Active(stride: nat, events: seq<Event>, i: nat): Option<Job> {
    if events == [] then None
    else
      var before, last := events[..|events| - 1], events[|events| - 1];
      if last.Send? && Id(stride, |Sends(before)| + 1) == i then Some(last.job) else Active(stride, before, i)
  }

  /** valid_jobs[i] */
  predicate Usable(stride: nat, events: seq<Event>, i: nat) {
    events != [] &&
      var before, last := events[..|events| - 1], events[|events| - 1];
      match last
      case Send(_) => Id(stride, |Sends(before)| + 1) == i || Usable(stride, before, i)
      case Clean => i % 4 != 0 && Usable(stride, before, i)
  }

  /** The jobs freed so far, in order. */
  function Freed(stride: nat, events: seq<Event>): seq<Job> {
    if events == [] then []
    else
      var before, last := events[..|events| - 1], events[|events| - 1];
      var held := Active(stride, before, Id(stride, |Sends(before)| + 1));
      if last.Send? && held.Some? then Freed(stride, before) + [held.value] else Freed(stride, before)
  }

  /** The job a result with an identifier is credited to. */
  function Accepted(stride: nat, events: seq<Event>, i: nat): Option<Job> {
    if Usable(stride, events, i) then Active(stride, events, i) else None
  }

  // ---------- the table is a window on the sends ----------

  /** The last of n sends, counted from 1, that used an identifier; 0 if none did. */
  function LastUse(stride: nat, n: nat, i: nat): (k: nat)
    ensures k <= n && (k > 0 ==> Id(stride, k) == i)
    ensures forall j :: k < j <= n ==> Id(stride, j) != i
  {
    if n == 0 || Id(stride, n) == i then n else LastUse(stride, n - 1, i)
  }

  lemma ModPeriod(a: nat, b: nat, p: nat)
    requires p > 0 && a <= b < a + p && a % p == b % p
    ensures a == b
  {
    DivMod(a, p);
    DivMod(b, p);
    if a / p < b / p {
      MulStrict(a / p, b / p, p);
    } else if b / p < a / p {
      MulStrict(b / p, a / p, p);
    }
  }

  lemma ModPlus(a: nat, p: nat)
    requires p > 0
    ensures (a + p) % p == a % p
  {
    DivMod(a, p);
    assert a + p == (a / p + 1) * p + a % p;
    DivModUnique(a / p + 1, a % p, p);
  }

  /** The last use of an identifier is its one use within the last period. */
  lemma LastUseRecent(stride: nat, n: nat, i: nat, k: nat)
    requires Stride(stride) && 0 < k <= n
    ensures LastUse(stride, n, i) == k <==> n < k + Period(stride) && Id(stride, k) == i
  {
    hide Id;
    var last, p := LastUse(stride, n, i), Period(stride);
    if last == k && k + p <= n {
      ModPlus(k, p);
      SameId(stride, k, k + p);
    }
    if n < k + p && Id(stride, k) == i {
      SameId(stride, k, last);
      ModPeriod(k, last, p);
    }
  }

  /** A slot holds the job most recently sent with its identifier. */
  lemma {:induction false} ActiveIsLatest(stride: nat, events: seq<Event>, i: nat)
    ensures var k := LastUse(stride, |Sends(events)|, i);
      Active(stride, events, i) == if k == 0 then None else Some(Sends(events)[k - 1])
    decreases |events|
  {
    if events != [] {
      ActiveIsLatest(stride, events[..|events| - 1], i);
    }
  }

  /**
   A result with an identifier is credited to a job exactly if that job was sent with the
   identifier, within the last period of sends and since the last clean step.
   */
  lemma AcceptedExact(stride: nat, events: seq<Event>, i: nat, job: Job)
    requires Stride(stride)
    ensures Accepted(stride, events, i) == Some(job) <==>
      exists k :: Credited(stride, events, i, k) && Sends(events)[k - 1] == job
  {
    hide Id, Active, Usable;
    var n := |Sends(events)|;
    ActiveIsLatest(stride, events, i);
    UsableIsRecent(stride, events, i);
    var last := LastUse(stride, n, i);
    if last > 0 {
      LastUseRecent(stride, n, i, last);
    }
    forall k | Credited(stride, events, i, k)
      ensures k == last
    {
      LastUseRecent(stride, n, i, k);
    }
    if Accepted(stride, events, i) == Some(job) {
      assert Credited(stride, events, i, last);
    }
  }

  /** The k-th send used an identifier, after the last clean step and within the last period. */
  predicate Credited(stride: nat, events: seq<Event>, i: nat, k: nat) {
    && Cleaned(events) < k <= |Sends(events)| < k + Period(stride)
    && Id(stride, k) == i
  }

  /** A slot is usable exactly if its identifier was used since the last clean step. */
  lemma {:induction false} UsableIsRecent(stride: nat, events: seq<Event>, i: nat)
    requires Stride(stride)
    ensures Usable(stride, events, i) <==> LastUse(stride, |Sends(events)|, i) > Cleaned(events)
    decreases |events|
  {
    if events != [] {
      var before, last := events[..|events| - 1], events[|events| - 1];
      UsableIsRecent(stride, before, i);
      if last.Clean? {
        var k := LastUse(stride, |Sends(before)|, i);
        if k > 0 {
          IdCleaned(stride, k);
        }
      }
    }
  }

  /** The job freed by a send is the one sent a period earlier, so jobs are freed in the order they were sent. */
  lemma {:induction false} FreedInOrder(stride: nat, events: seq<Event>)
    requires Stride(stride)
    ensures var n := |Sends(events)|;
      Freed(stride, events) == if n <= Period(stride) then [] else Sends(events)[..n - Period(stride)]
    decreases |events|
  {
    if events != [] {
      var before, last := events[..|events| - 1], events[|events| - 1];
      FreedInOrder(stride, before);
      if last.Send? {
        hide Active, Id;
        var n, p := |Sends(before)|, Period(stride);
        var i := Id(stride, n + 1);
        ActiveIsLatest(stride, before, i);
        FirstReuse(stride, n);
        if n >= p {
          assert Sends(before)[..n + 1 - p] == Sends(before)[..n - p] + [Sends(before)[n - p]];
          assert Sends(events)[..n + 1 - p] == Sends(before)[..n + 1 - p];
        }
      }
    }
  }

  /** The identifier of the next send was last used exactly one period before. */
  lemma FirstReuse(stride: nat, n: nat)
    requires Stride(stride)
    ensures LastUse(stride, n, Id(stride, n + 1)) == if n < Period(stride) then 0 else n + 1 - Period(stride)
  {
    hide Id;
    var p, last := Period(stride), LastUse(stride, n, Id(stride, n + 1));
    if n >= p {
      ModPlus(n + 1 - p, p);
      SameId(stride, n + 1, n + 1 - p);
      LastUseRecent(stride, n, Id(stride, n + 1), n + 1 - p);
    } else if last > 0 {
      SameId(stride, n + 1, last);
      ModPeriod(last, n + 1, p);
    }
  }

  predicate Distinct(jobs: seq<Job>) {
    forall a, b :: 0 <= a < b < |jobs| ==> jobs[a] != jobs[b]
  }

  /** No job is freed twice, and no job in the table has been freed. */
  lemma NeverFreedTwice(stride: nat, events: seq<Event>, i: nat)
    requires Stride(stride) && Distinct(Sends(events))
    ensures Distinct(Freed(stride, events))
    ensures Active(stride, events, i).Some? ==> Active(stride, events, i).value !in Freed(stride, events)
  {
    hide Active, Freed, Id;
    var n := |Sends(events)|;
    FreedInOrder(stride, events);
    ActiveIsLatest(stride, events, i);
    var k := LastUse(stride, n, i);
    if k > 0 {
      LastUseRecent(stride, n, i, k);
    }
  }

  /** No job is lost: every job sent is freed or still in the slot of its identifier. */
  lemma NeverLost(stride: nat, events: seq<Event>, k: nat)
    requires Stride(stride) && 0 < k <= |Sends(events)|
    ensures Sends(events)[k - 1] in Freed(stride, events) || Active(stride, events, Id(stride, k)) == Some(Sends(events)[k - 1])
  {
    hide Active, Freed, Id;
    var n, p := |Sends(events)|, Period(stride);
    FreedInOrder(stride, events);
    if k + p <= n {
      assert Freed(stride, events)[k - 1] == Sends(events)[k - 1];
    } else {
      LastUseRecent(stride, n, Id(stride, k), k);
      ActiveIsLatest(stride, events, Id(stride, k));
    }
  }

  // ---------- results ----------

  /** Sends of a later stretch come behind the earlier ones. */
  lemma {:induction false} SendsConcat(events: seq<Event>, later: seq<Event>)
    ensures Sends(events + later) == Sends(events) + Sends(later)
    decreases |later|
  {
    if later == [] {
      assert events + later == events;
    } else {
      var front := later[..|later| - 1];
      assert (events + later)[..|events + later| - 1] == events + front;
      SendsConcat(events, front);
    }
  }

  /**
   A result is judged in two locked regions, one that reads the job's version and one that
   copies the job. Both see the same job exactly if its slot was not used again in between.
   */
  lemma SameJobTwice(stride: nat, events: seq<Event>, later: seq<Event>, i: nat)
    requires Stride(stride) && Distinct(Sends(events + later))
    requires Accepted(stride, events, i).Some? && Accepted(stride, events + later, i).Some?
    ensures Accepted(stride, events, i) == Accepted(stride, events + later, i)
      <==> |Sends(events + later)| < LastUse(stride, |Sends(events)|, i) + Period(stride)
  {
    hide Active, Usable, Id;
    SendsConcat(events, later);
    ActiveIsLatest(stride, events, i);
    ActiveIsLatest(stride, events + later, i);
    var k, m := LastUse(stride, |Sends(events)|, i), LastUse(stride, |Sends(events + later)|, i);
    LastUseRecent(stride, |Sends(events + later)|, i, k);
    assert Sends(events + later)[k - 1] == Sends(events)[k - 1];
  }

  /** The slot a BM1370 result names: (id & 0xf0) >> 1. */
  function Slot1370(id: nat): nat {
    id / 16 * 8
  }

  /** The BM1370 puts the small core into the low half; any byte decodes to a slot of the table. */
  lemma Slot1370Decodes(n: nat, core: nat)
    requires core < 16
    ensures Slot1370(2 * Id(24, n) + core) == Id(24, n) && 2 * Id(24, n) + core < 256
  {
    hide Id;
    IdClosed(24, n);
  }

  /** A BM1397 result names the slot and, in the low two bits, the midstate. */
  lemma Slot1397Decodes(n: nat, index: nat)
    requires index < 4
    ensures var id := Id(4, n) + index;
      id < SLOTS && id - id % 4 == Id(4, n) && id % 4 == index
  {
    IdCleaned(4, n);
  }

  /** task_result, without the chip and core numbers. */
  datatype TaskResult = TaskResult(jobId: nat, nonce: nat, rolledVersion: bv32, midstateIndex: Option<nat>)

  /** What a BM1397 response for a job is reported as: with the version of the midstate it names. */
  function Replayed(job: Job, response: nat, nonce: nat): TaskResult {
    TaskResult(response - response % 4, nonce, Rolled(job.version, job.versionMask, response % 4), Some(response % 4))
  }

  /**
   The version reported for a midstate of a job is the one construct_bm_job made that midstate
   for, when the job carries the mask it was constructed with.
   */
  lemma ReportsMidstate(f: Sha256.Compress, n: Mining.Notify, root: Sha256.State, mask: bv32, job: Job, response: nat, nonce: nat)
    requires job.version == n.version && job.versionMask == mask
    requires response % 4 < Mining.MidstateCount(mask)
    ensures Mining.Built(f, n, root, mask).midstates[response % 4]
         == Mining.MidstateOf(f, Replayed(job, response, nonce).rolledVersion, n, root)
  {
    Mining.StoredVersion(n, root, mask, response % 4, Replayed(job, response, nonce).rolledVersion);
  }

  /** A job was sent with an identifier, within the last period and since the last clean. */
  ghost predicate SentAs(stride: nat, events: seq<Event>, id: nat, job: Job) {
    exists k :: Credited(stride, events, id, k) && Sends(events)[k - 1] == job
  }

  /** The slot arrays, the static identifier and the nonce seen last. */
  class JobTable {
    const stride: nat
    const active: array<Option<Job>>
    const valid: array<bool>
    var id: nat
    var prevNonce: nat
    ghost var events: seq<Event>
    ghost var freed: seq<Job>

    ghost predicate Valid()
      reads this, active, valid
    {
      && Stride(stride) && active.Length == SLOTS && valid.Length == SLOTS
      && id == Id(stride, |Sends(events)|)
      && freed == Freed(stride, events)
      && (forall i :: 0 <= i < SLOTS ==> active[i] == Active(stride, events, i))
      && (forall i :: 0 <= i < SLOTS ==> valid[i] == Usable(stride, events, i))
    }

    /** The empty table of create_jobs_task. */
    constructor (stride: nat)
      requires Stride(stride)
      ensures Valid() && this.stride == stride && events == [] && prevNonce == 0
    {
      this.stride := stride;
      active := new Option<Job>[SLOTS](_ => None);
      valid := new bool[SLOTS](_ => false);
      id, prevNonce, events, freed := 0, 0, [], [];
    }

    /** BM1370_send_work and BM1397_send_work: the job takes over the next slot, the one in it is freed. */
    method SendWork(job: Job)
      requires Valid()
      modifies this, active, valid
      ensures Valid() && events == old(events) + [Send(job)] && prevNonce == old(prevNonce)
    {
      hide Id, Freed, Active, Usable, Sends;
      SendStep(stride, events, job);
      id := (id + stride) % SLOTS;
      if active[id].Some? {
        freed := freed + [active[id].value];
      }
      active[id] := Some(job);
      valid[id] := true;
      events := events + [Send(job)];
    }

    /** The loop of SYSTEM_clean_jobs_queue. */
    method CleanJobs()
      requires Valid()
      modifies this`events, valid
      ensures Valid() && events == old(events) + [Clean]
    {
      hide Id, Freed, Active, Usable, Sends;
      var i := 0;
      while i < SLOTS
        invariant 0 <= i <= SLOTS && i % 4 == 0 && events == old(events)
        invariant forall j :: 0 <= j < SLOTS ==> valid[j] == if j < i && j % 4 == 0 then false else old(valid[j])
        decreases SLOTS - i
      {
        valid[i] := false;
        i := i + 4;
      }
      CleanStep(stride, events);
      events := events + [Clean];
    }

    /** The locked lookup both result paths and the snapshot of asic_result_task make. */
    method Lookup(i: nat) returns (job: Option<Job>)
      requires Valid() && i < SLOTS
      ensures job == Accepted(stride, events, i)
    {
      if !valid[i] || active[i].None? {
        return None;
      }
      job := active[i];
    }

    /** BM1370_process_work, for a job response. */
    method Process1370(response: nat, nonce: nat, versionBits: bv32) returns (r: Option<TaskResult>)
      requires Valid() && response < 256
      ensures r == match Accepted(stride, events, Slot1370(response))
        case None => None
        case Some(job) => Some(TaskResult(Slot1370(response), nonce, job.version | versionBits, None))
      ensures r.Some? ==>
        && r.value.nonce == nonce
        && exists job :: SentAs(stride, events, r.value.jobId, job) && r.value.rolledVersion == job.version | versionBits
    {
      hide Accepted, Sends, Credited;
      var slot := response / 16 * 8;
      var job := Lookup(slot);
      if job.None? {
        return None;
      }
      AcceptedExact(stride, events, slot, job.value);
      assert SentAs(stride, events, slot, job.value);
      r := Some(TaskResult(slot, nonce, job.value.version | versionBits, None));
    }

    /** BM1397_process_work, for a job response: identifiers out of range and a repeated nonce are dropped. */
    method Process1397(response: nat, nonce: nat) returns (r: Option<TaskResult>)
      requires Valid() && response < 256
      modifies this`prevNonce
      ensures Valid() && events == old(events)
      ensures var slot := response - response % 4;
        var job := if slot < SLOTS then Accepted(stride, events, slot) else None;
        if job.None? || nonce == old(prevNonce) then r == None && prevNonce == old(prevNonce)
        else prevNonce == nonce && r == Some(Replayed(job.value, response, nonce))
      ensures r.Some? ==>
        && r.value.nonce == nonce && r.value.midstateIndex == Some(response % 4) && r.value.jobId + response % 4 == response
        && exists job :: SentAs(stride, events, r.value.jobId, job)
             && r.value.rolledVersion == Rolled(job.version, job.versionMask, response % 4)
    {
      hide Rolled, Id, Freed, Active, Usable, Sends, Credited;
      var slot, index := response - response % 4, response % 4;
      if slot >= SLOTS {
        return None;
      }
      var job := Lookup(slot);
      if job.None? {
        return None;
      }
      var rolled := Replay(job.value.version, job.value.versionMask, index);
      if nonce == prevNonce {
        return None;
      }
      prevNonce := nonce;
      AcceptedExact(stride, events, slot, job.value);
      assert SentAs(stride, events, slot, job.value);
      r := Some(TaskResult(slot, nonce, rolled, Some(index)));
    }
  }

  /** What one send does to the specification of the table. */
  lemma SendStep(stride: nat, events: seq<Event>, job: Job)
    requires Stride(stride)
    ensures var after, id := events + [Send(job)], Id(stride, |Sends(events)| + 1);
      && id == (Id(stride, |Sends(events)|) + stride) % SLOTS
      && id == Id(stride, |Sends(after)|)
      && Active(stride, after, id) == Some(job) && Usable(stride, after, id)
      && (forall i :: 0 <= i < SLOTS && i != id ==> Active(stride, after, i) == Active(stride, events, i))
      && (forall i :: 0 <= i < SLOTS && i != id ==> Usable(stride, after, i) == Usable(stride, events, i))
      && Freed(stride, after) == Freed(stride, events)
           + if Active(stride, events, id).Some? then [Active(stride, events, id).value] else []
  {
    var after := events + [Send(job)];
    assert after[..|after| - 1] == events;
  }

  lemma CleanStep(stride: nat, events: seq<Event>)
    requires Stride(stride)
    ensures var after := events + [Clean];
      && Sends(after) == Sends(events) && Freed(stride, after) == Freed(stride, events)
      && (forall i :: 0 <= i < SLOTS ==> Active(stride, after, i) == Active(stride, events, i))
      && (forall i :: 0 <= i < SLOTS ==> Usable(stride, after, i) == (i % 4 != 0 && Usable(stride, events, i)))
  {
    var after := events + [Clean];
    assert after[..|after| - 1] == events;
  }
}
