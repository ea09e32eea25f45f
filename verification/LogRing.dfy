/**
 The log ring (main/log_buffer.c): a fixed buffer that stands for an unbounded log, and the
 readers that follow it (main/http_server/websocket_log.c, GET_system_logs).
 */
module LogRing {
  import opened Digits
  import opened Packing

  /** LOG_BUFFER_SIZE */
  const SIZE: nat := 0x80000

  /** How far a reader that fell behind looks for a line end. */
  const SCAN: nat := 4096

  const NEWLINE: byte := 10

  lemma Wrap(a: nat, i: nat)
    requires i <= SIZE
    ensures (a + i) % SIZE == if a % SIZE + i < SIZE then a % SIZE + i else a % SIZE + i - SIZE
  {
  }

  // ---------- what a reader gets ----------

  /** The oldest position still in the buffer. */
  function Oldest(log: Bytes): nat {
    if |log| < SIZE then 0 else |log| - SIZE
  }

  /** Where a read starts: at its position, unless that is ahead of the log or has been overwritten. */
  function Start(log: Bytes, pos: nat): (p: nat)
    ensures Oldest(log) <= p <= |log|
  {
    if pos > |log| then |log|
    else if pos >= Oldest(log) then pos
    else
      var i := IndexOf(log[Oldest(log)..Oldest(log) + SCAN], NEWLINE);
      if i < SCAN then Oldest(log) + i + 1 else Oldest(log)
  }

  /** How much a read takes: up to the first line end, the room, or the end of the log. */
  function Taken(log: Bytes, start: nat, room: nat): (n: nat)
    requires start <= |log|
    ensures start + n <= |log| && n <= room
  {
    var m := Least(|log| - start, room);
    var i := IndexOf(log[start..start + m], NEWLINE);
    if i < m then i + 1 else m
  }

  // ---------- the ring ----------

  class Ring {
    const buffer: array<byte>
    var total: nat
    /** Everything ever written. */
    ghost var log: Bytes

    /** The buffer holds the end of the log, every byte at its position modulo the size. */
    ghost predicate Valid()
      reads this, buffer
    {
      && buffer.Length == SIZE
      && total == |log|
      && forall k :: Oldest(log) <= k < |log| ==> buffer[k % SIZE] == log[k]
    }

    /** A cold boot. */
    constructor ()
      ensures Valid() && log == [] && fresh(buffer)
    {
      buffer := new byte[SIZE](_ => 0);
      total, log := 0, [];
    }

    /** How much fits before the buffer wraps around. */
    function TillEnd(): (n: nat)
      reads this
      ensures 0 < n <= SIZE
    {
      SIZE - total % SIZE
    }

    /** memcpy into the buffer */
    method Copy(at: nat, data: Bytes)
      requires buffer.Length == SIZE && at + |data| <= SIZE
      modifies buffer
      ensures forall k :: 0 <= k < SIZE ==> buffer[k] == if at <= k < at + |data| then data[k - at] else old(buffer[k])
    {
      forall i | 0 <= i < |data| { buffer[at + i] := data[i]; }
    }

    /**
     ring_write. Both copies stay inside the buffer for up to one full turn after the wrap, and
     then the ring again holds the end of the log.
     */
    method Write(data: Bytes)
      requires Valid() && |data| <= SIZE + TillEnd()
      modifies this, buffer
      ensures Valid() && log == old(log) + data
    {
      if |data| == 0 {
        assert log + data == log;
        return;
      }
      ghost var before := buffer[..];
      var offset := total % SIZE;
      var tillEnd := SIZE - offset;
      if |data| <= tillEnd {
        Copy(offset, data);
      } else {
        Copy(offset, data[..tillEnd]);
        Copy(0, data[tillEnd..]);
      }
      WriteKeeps(before, buffer[..], log, data);
      total := total + |data|;
      log := log + data;
    }

    /** The scan for a line end, from a position in the window. */
    method FindNewline(pos: nat, n: nat) returns (i: nat)
      requires Valid() && Oldest(log) <= pos && pos + n <= |log|
      ensures i == IndexOf(log[pos..pos + n], NEWLINE)
    {
      ghost var window := log[pos..pos + n];
      i := 0;
      while i < n
        invariant 0 <= i <= n
        invariant forall k :: 0 <= k < i ==> window[k] != NEWLINE
      {
        assert buffer[(pos + i) % SIZE] == window[i];
        if buffer[(pos + i) % SIZE] == NEWLINE {
          break;
        }
        i := i + 1;
      }
      IndexOfUnique(window, NEWLINE, i);
    }

    /** The clamping of log_buffer_read_absolute. */
    method FindStart(pos: nat) returns (start: nat)
      requires Valid()
      ensures start == Start(log, pos)
    {
      hide IndexOf;
      start := pos;
      if start > total {
        start := total;
      }
      if total >= SIZE && start < total - SIZE {
        start := total - SIZE;
        var i := FindNewline(start, SCAN);
        if i < SCAN {
          start := start + i + 1;
        }
      }
    }

    /** How much the read takes: the room, what is there, or up to the first line end. */
    method FindEnd(start: nat, room: nat) returns (n: nat)
      requires Valid() && Oldest(log) <= start <= |log|
      ensures n == Taken(log, start, room)
    {
      hide IndexOf;
      n := Least(total - start, room);
      if n > 0 {
        var i := FindNewline(start, n);
        if i < n {
          n := i + 1;
        }
      }
    }

    /** log_buffer_read_absolute */
    method ReadAbsolute(pos: nat, dest: array<byte>, room: nat) returns (next: nat, n: nat)
      requires Valid() && dest != buffer && room <= dest.Length
      modifies dest
      ensures Valid()
      ensures room == 0 ==> n == 0 && next == pos && dest[..] == old(dest[..])
      ensures room > 0 ==>
        var start := Start(log, pos);
        n == Taken(log, start, room) && next == start + n && dest[..n] == log[start..next]
      ensures room > 0 ==> next == |log| || n == room || (0 < n && dest[n - 1] == NEWLINE)
    {
      hide *;
      if room == 0 {
        return pos, 0;
      }
      var start := FindStart(pos);
      n := FindEnd(start, room);
      CopyOut(start, dest, n);
      TakenEnds(log, start, room);
      ghost var taken := log[start..start + n];
      assert n > 0 ==> taken[n - 1] == log[start + n - 1];
      next := start + n;
    }

    /** The copies of a read. */
    method CopyOut(start: nat, dest: array<byte>, n: nat)
      requires Valid() && dest != buffer && Oldest(log) <= start && start + n <= |log| && n <= dest.Length
      modifies dest
      ensures dest[..n] == log[start..start + n]
    {
      var offset := start % SIZE;
      var tillEnd := SIZE - offset;
      if n <= tillEnd {
        forall i | 0 <= i < n { dest[i] := buffer[offset + i]; }
      } else {
        forall i | 0 <= i < tillEnd { dest[i] := buffer[offset + i]; }
        forall i | tillEnd <= i < n { dest[i] := buffer[i - tillEnd]; }
      }
      forall i | 0 <= i < n
        ensures dest[i] == log[start + i]
      {
        Wrap(start, i);
      }
    }
  }

  /** What a cell holds after both copies of a write. */
  function Overwritten(before: Bytes, data: Bytes, offset: nat, k: nat): byte
    requires |before| == SIZE && k < SIZE && offset < SIZE
  {
    if k + (SIZE - offset) < |data| then data[k + (SIZE - offset)]
    else if offset <= k < offset + |data| then data[k - offset]
    else before[k]
  }

  /** The ring property survives a write of up to one turn beyond the wrap. */
  lemma WriteKeeps(before: Bytes, after: Bytes, log: Bytes, data: Bytes)
    requires |before| == |after| == SIZE
    requires forall k :: Oldest(log) <= k < |log| ==> before[k % SIZE] == log[k]
    requires var offset := |log| % SIZE;
      |data| <= SIZE + (SIZE - offset) && forall k :: 0 <= k < SIZE ==> after[k] == Overwritten(before, data, offset, k)
    ensures forall k :: Oldest(log + data) <= k < |log + data| ==> after[k % SIZE] == (log + data)[k]
  {
    forall k | Oldest(log + data) <= k < |log + data|
      ensures after[k % SIZE] == (log + data)[k]
    {
      if k < |log| {
        KeptCell(|log|, k, |data|);
      } else {
        var j := k - |log|;
        if j <= SIZE {
          Wrap(|log|, j);
        } else {
          Wrap(|log| + SIZE, j - SIZE);
          Wrap(|log|, SIZE);
        }
      }
    }
  }

  /** An old byte that is still in the window lies in a cell the write does not touch. */
  lemma KeptCell(total: nat, k: nat, n: nat)
    requires k < total && total + n <= k + SIZE
    ensures var offset, cell := total % SIZE, k % SIZE;
      cell + SIZE - offset >= n && !(offset <= cell < offset + n)
  {
    Wrap(k, total - k);
  }

  // ---------- following the log ----------

  /** A part of the log handed to a reader by one read. */
  datatype Span = Span(from: nat, to: nat)

  /** Writers and one reader, in any interleaving. */
  datatype Event = Wrote(data: Bytes) | Read(room: nat)

  datatype Trace = Trace(log: Bytes, pos: nat, spans: seq<Span>)

  /** One read of a reader. */
  function ReadSpan(log: Bytes, pos: nat, room: nat): Span {
    var start := Start(log, pos);
    Span(start, start + Taken(log, start, room))
  }

  function Run(log: Bytes, pos: nat, events: seq<Event>): Trace
    decreases |events|
  {
    if events == [] then Trace(log, pos, [])
    else match events[0]
      case Wrote(data) => Run(log + data, pos, events[1..])
      case Read(room) =>
        if room == 0 then Run(log, pos, events[1..])
        else
          var s := ReadSpan(log, pos, room);
          var t := Run(log, s.to, events[1..]);
          Trace(t.log, t.pos, [s] + t.spans)
  }

  /** No read comes after the bytes at its position were overwritten. */
  predicate InTime(log: Bytes, pos: nat, events: seq<Event>)
    decreases |events|
  {
    events == [] || match events[0]
      case Wrote(data) => InTime(log + data, pos, events[1..])
      case Read(room) =>
        if room == 0 then InTime(log, pos, events[1..])
        else pos >= Oldest(log) && InTime(log, ReadSpan(log, pos, room).to, events[1..])
  }

  /** The spans lie one behind the other between two positions. */
  predicate Ordered(spans: seq<Span>, lo: nat, hi: nat) {
    if spans == [] then lo <= hi else lo <= spans[0].from <= spans[0].to && Ordered(spans[1..], spans[0].to, hi)
  }

  /** The spans lie one behind the other without gaps. */
  predicate Gapless(spans: seq<Span>, lo: nat, hi: nat) {
    if spans == [] then lo == hi else spans[0].from == lo && Gapless(spans[1..], spans[0].to, hi)
  }

  /** At most one line end, and only as the last byte. */
  predicate OneLine(log: Bytes, s: Span) {
    s.from <= s.to <= |log| && forall k :: s.from <= k < s.to - 1 ==> log[k] != NEWLINE
  }

  predicate OneLines(log: Bytes, spans: seq<Span>) {
    forall i :: 0 <= i < |spans| ==> OneLine(log, spans[i])
  }

  /** The bytes handed over. */
  function Content(log: Bytes, spans: seq<Span>): Bytes
    requires OneLines(log, spans)
  {
    if spans == [] then [] else log[spans[0].from..spans[0].to] + Content(log, spans[1..])
  }

  /** A read goes on to a line end, to the end of its room, or to the end of the log, whichever comes first. */
  lemma TakenEnds(log: Bytes, start: nat, room: nat)
    requires start <= |log|
    ensures var to := start + Taken(log, start, room);
      to == |log| || to == start + room || (start < to && log[to - 1] == NEWLINE)
  {
    var window := log[start..start + Least(|log| - start, room)];
    var i := IndexOf(window, NEWLINE);
    if i < |window| {
      assert log[start + i] == window[i];
    }
  }

  lemma ReadEnds(log: Bytes, pos: nat, room: nat)
    ensures var s := ReadSpan(log, pos, room);
      && s.to <= |log| && s.from <= s.to <= s.from + room
      && (s.to == |log| || s.to == s.from + room || (s.from < s.to && log[s.to - 1] == NEWLINE))
  {
    TakenEnds(log, Start(log, pos), room);
  }

  lemma SpanIsLine(log: Bytes, pos: nat, room: nat)
    requires pos <= |log|
    ensures OneLine(log, ReadSpan(log, pos, room)) && pos <= ReadSpan(log, pos, room).from
    ensures ReadSpan(log, pos, room).from == pos <==> pos >= Oldest(log)
  {
    var s := ReadSpan(log, pos, room);
    var window := log[s.from..s.from + Least(|log| - s.from, room)];
    forall k | s.from <= k < s.to - 1
      ensures log[k] != NEWLINE
    {
      assert log[k] == window[k - s.from];
    }
  }

  /** A reader that was overtaken goes on behind a line end, or at the oldest byte if none is near. */
  lemma Resync(log: Bytes, pos: nat)
    ensures pos > |log| ==> Start(log, pos) == |log|
    ensures Oldest(log) <= pos <= |log| ==> Start(log, pos) == pos
    ensures pos < Oldest(log) ==> var p := Start(log, pos);
      || (p == Oldest(log) && forall k :: p <= k < p + SCAN ==> log[k] != NEWLINE)
      || (Oldest(log) < p <= Oldest(log) + SCAN && log[p - 1] == NEWLINE
          && forall k :: Oldest(log) <= k < p - 1 ==> log[k] != NEWLINE)
  {
    if pos >= Oldest(log) {
      return;
    }
    var window := log[Oldest(log)..Oldest(log) + SCAN];
    assert forall k :: Oldest(log) <= k < Oldest(log) + SCAN ==> log[k] == window[k - Oldest(log)];
  }

  /** Every byte is handed over at most once, in order, a line or less at a time. */
  lemma {:induction false} RunOrdered(log: Bytes, pos: nat, events: seq<Event>)
    requires pos <= |log|
    ensures var t := Run(log, pos, events);
      && |log| <= |t.log| && t.log[..|log|] == log
      && t.pos <= |t.log| && Ordered(t.spans, pos, t.pos) && OneLines(t.log, t.spans)
    decreases |events|
  {
    hide Start, Taken;
    if events != [] {
      match events[0]
      case Wrote(data) =>
        RunOrdered(log + data, pos, events[1..]);
      case Read(room) =>
        if room == 0 {
          RunOrdered(log, pos, events[1..]);
        } else {
          SpanIsLine(log, pos, room);
          RunOrdered(log, ReadSpan(log, pos, room).to, events[1..]);
        }
    }
  }

  /** A reader loses nothing exactly when it is never overtaken. */
  lemma {:induction false} LossExact(log: Bytes, pos: nat, events: seq<Event>)
    requires pos <= |log|
    ensures var t := Run(log, pos, events);
      Gapless(t.spans, pos, t.pos) <==> InTime(log, pos, events)
    decreases |events|
  {
    hide Start, Taken;
    if events != [] {
      match events[0]
      case Wrote(data) =>
        LossExact(log + data, pos, events[1..]);
      case Read(room) =>
        if room == 0 {
          LossExact(log, pos, events[1..]);
        } else {
          SpanIsLine(log, pos, room);
          LossExact(log, ReadSpan(log, pos, room).to, events[1..]);
        }
    }
  }

  /** Spans without gaps are one stretch of the log. */
  lemma {:induction false} GaplessIsSlice(log: Bytes, spans: seq<Span>, lo: nat, hi: nat)
    requires OneLines(log, spans) && Gapless(spans, lo, hi) && hi <= |log|
    ensures lo <= hi && Content(log, spans) == log[lo..hi]
    decreases |spans|
  {
    if spans != [] {
      GaplessIsSlice(log, spans[1..], spans[0].to, hi);
    }
  }

  /**
   Whatever the interleaving of writers and reader: a reader that is never overtaken has been
   given the log from its first position to its last, byte for byte.
   */
  lemma FollowsLog(log: Bytes, pos: nat, events: seq<Event>)
    requires pos <= |log| && InTime(log, pos, events)
    ensures var t := Run(log, pos, events);
      OneLines(t.log, t.spans) && pos <= t.pos <= |t.log| && Content(t.log, t.spans) == t.log[pos..t.pos]
  {
    hide *;
    var t := Run(log, pos, events);
    RunOrdered(log, pos, events);
    LossExact(log, pos, events);
    GaplessIsSlice(t.log, t.spans, pos, t.pos);
  }

  /** A read comes back empty exactly at the end of the log. */
  lemma EmptyRead(log: Bytes, pos: nat, room: nat)
    requires room > 0
    ensures Taken(log, Start(log, pos), room) == 0 <==> pos >= |log|
    ensures pos >= |log| ==> Start(log, pos) == |log|
    ensures Oldest(log) <= pos <= |log| ==> Start(log, pos) == pos
  {
  }

  lemma SliceGrows(log: Bytes, from: nat, mid: nat, to: nat)
    requires from <= mid <= to <= |log|
    ensures log[from..mid] + log[mid..to] == log[from..to]
  {
  }

  /** The reading loops of websocket_log_task and GET_system_logs, between two writes: they end at the end of the log. */
  method Drain(ring: Ring, pos: nat, chunk: array<byte>) returns (next: nat, ghost sent: Bytes)
    requires ring.Valid() && chunk != ring.buffer && chunk.Length > 0
    modifies chunk
    ensures next == |ring.log| && sent == ring.log[Start(ring.log, pos)..]
  {
    hide *;
    ghost var log, from := ring.log, Start(ring.log, pos);
    EmptyRead(log, pos, chunk.Length);
    var n;
    next, n := ring.ReadAbsolute(pos, chunk, chunk.Length);
    sent := log[from..from];
    while n > 0
      invariant ring.Valid() && ring.log == log
      invariant from <= next - n <= next <= |log| && Oldest(log) <= next && 0 <= n <= chunk.Length
      invariant chunk[..n] == log[next - n..next]
      invariant sent == log[from..next - n]
      invariant n == 0 ==> next == |log|
      decreases |log| - next + n
    {
      SliceGrows(log, from, next - n, next);
      sent := sent + chunk[..n];
      EmptyRead(log, next, chunk.Length);
      next, n := ring.ReadAbsolute(next, chunk, chunk.Length);
    }
    assert log[from..|log|] == log[from..];
  }
}
