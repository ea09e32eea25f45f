/**
 Runs of the encrypted channel of components/stratum_v2/sv2_noise.c: two endpoints that share a
 key, sends that may fail or be cut short, bytes that arrive in any portions, and receives at
 any time. What keeps the endpoints in step is stated exactly.
 */
module NoiseRun {
  import opened Noise

  /** The counters of both ends, the bytes that have arrived and those still under way, the frames sent and received. */
  datatype Channel = Channel(sendCount: nat, recvCount: nat, arrived: Bytes, flying: Bytes,
                             sent: seq<Framed>, got: seq<Bytes>)

  /** A receive takes what has arrived until its timeout; bytes that arrive while it waits arrive before it. */
  datatype Event = Send(frame: Framed, fate: Fate) | Arrive(n: nat) | Recv

  /** A send that reports an error does not count as sent; a receive that does leaves no frame. */
  function Step(c: Cipher, key: Bytes, max: int, ch: Channel, e: Event): Channel {
    match e
    case Send(frame, fate) =>
      ch.(sendCount := ch.sendCount + Uses(frame, fate),
          flying := ch.flying + Written(c, key, ch.sendCount, frame, fate),
          sent := if fate.Accepted? then ch.sent + [frame] else ch.sent)
    case Arrive(n) =>
      var k := if n < |ch.flying| then n else |ch.flying|;
      ch.(arrived := ch.arrived + ch.flying[..k], flying := ch.flying[k..])
    case Recv =>
      var (r, consumed, uses) := Receive(c, key, ch.recvCount, ch.arrived, max);
      ch.(recvCount := ch.recvCount + uses, arrived := ch.arrived[consumed..],
          got := if r.Frame? then ch.got + [r.hdr + r.payload] else ch.got)
  }

  /** Only frames that tell their own length, within the receiver's limit, are sent. */
  predicate Legal(events: seq<Event>, max: int) {
    events == [] || ((events[0].Send? ==> WellFramed(events[0].frame, max)) && Legal(events[1..], max))
  }

  const START: Channel := Channel(0, 0, [], [], [], [])

  function Run(c: Cipher, key: Bytes, max: int, ch: Channel, events: seq<Event>): Channel
    decreases |events|
  {
    if events == [] then ch else Run(c, key, max, Step(c, key, max, ch, events[0]), events[1..])
  }

  // ---------- the bytes of several frames ----------

  predicate AllFramed(frames: seq<Framed>, max: int) {
    forall i :: 0 <= i < |frames| ==> WellFramed(frames[i], max)
  }

  /** The wire image of a list of frames, the first sealed at the given counter. */
  function WireAll(c: Cipher, key: Bytes, counter: nat, frames: seq<Framed>): Bytes
    decreases frames
  {
    if frames == [] then []
    else Wire(c, key, counter, frames[0]) + WireAll(c, key, counter + Units(frames[0]), frames[1..])
  }

  function UnitsAll(frames: seq<Framed>): nat {
    if frames == [] then 0 else Units(frames[0]) + UnitsAll(frames[1..])
  }

  lemma {:induction false} WireAllSnoc(c: Cipher, key: Bytes, counter: nat, frames: seq<Framed>, last: Framed)
    ensures WireAll(c, key, counter, frames + [last]) ==
            WireAll(c, key, counter, frames) + Wire(c, key, counter + UnitsAll(frames), last)
    ensures UnitsAll(frames + [last]) == UnitsAll(frames) + Units(last)
    decreases frames
  {
    hide Wire, Units;
    if frames == [] {
      assert frames + [last] == [last];
      assert [last][1..] == [];
    } else {
      assert (frames + [last])[1..] == frames[1..] + [last];
      WireAllSnoc(c, key, counter + Units(frames[0]), frames[1..], last);
    }
  }

  // ---------- in step ----------

  /** The frames sent and not yet received. */
  function Pending(ch: Channel): seq<Framed> {
    if |ch.got| <= |ch.sent| then ch.sent[|ch.got|..] else []
  }

  /**
   In step: the frames received are a prefix of those sent, in order; the bytes arrived and
   under way are the others, sealed from the receiver's counter on; and the sender's counter
   is ahead of the receiver's by exactly their cipher uses.
   */
  ghost predicate InStep(c: Cipher, key: Bytes, max: int, ch: Channel) {
    && ch.got <= ch.sent && AllFramed(ch.sent, max)
    && ch.arrived + ch.flying == WireAll(c, key, ch.recvCount, Pending(ch))
    && ch.sendCount == ch.recvCount + UnitsAll(Pending(ch))
  }

  /**
   An event that does what it is meant to: a send that either used the cipher not at all or had
   all of its bytes taken; a receive that finds nothing arrived or a whole frame.
   */
  predicate Whole(c: Cipher, key: Bytes, ch: Channel, e: Event) {
    match e
    case Send(frame, Refused(uses)) => uses == 0
    case Send(frame, Accepted(taken)) => taken >= |Wire(c, key, ch.sendCount, frame)|
    case Arrive(_) => true
    case Recv => ch.arrived == [] || FrontArrived(c, key, ch)
  }

  /** The first frame not yet received has arrived whole. */
  predicate FrontArrived(c: Cipher, key: Bytes, ch: Channel) {
    Pending(ch) != [] && |ch.arrived| >= |Wire(c, key, ch.recvCount, Pending(ch)[0])|
  }

  lemma AcceptedExact(c: Cipher, key: Bytes, max: int, ch: Channel, frame: Framed, taken: nat)
    requires InStep(c, key, max, ch) && WellFramed(frame, max)
    ensures InStep(c, key, max, Step(c, key, max, ch, Send(frame, Accepted(taken))))
      <==> taken >= |Wire(c, key, ch.sendCount, frame)|
  {
    hide Wire, Units, WellFramed, WireAll, UnitsAll;
    var pending, wire := Pending(ch), Wire(c, key, ch.sendCount, frame);
    var after := Step(c, key, max, ch, Send(frame, Accepted(taken)));
    assert Pending(after) == pending + [frame];
    WireAllSnoc(c, key, ch.recvCount, pending, frame);
    var written := Written(c, key, ch.sendCount, frame, Accepted(taken));
    assert after.arrived + after.flying == (ch.arrived + ch.flying) + written;
    if taken < |wire| {
      assert |after.arrived + after.flying| < |(ch.arrived + ch.flying) + wire|;
    }
  }

  lemma RefusedExact(c: Cipher, key: Bytes, max: int, ch: Channel, frame: Framed, uses: nat)
    requires InStep(c, key, max, ch) && WellFramed(frame, max)
    ensures InStep(c, key, max, Step(c, key, max, ch, Send(frame, Refused(uses)))) <==> uses == 0
  {
    hide Wire, Units, WellFramed, WireAll, UnitsAll;
    var after := Step(c, key, max, ch, Send(frame, Refused(uses)));
    assert after.flying == ch.flying && Pending(after) == Pending(ch);
  }

  lemma ArriveKeeps(c: Cipher, key: Bytes, max: int, ch: Channel, n: nat)
    requires InStep(c, key, max, ch)
    ensures InStep(c, key, max, Step(c, key, max, ch, Arrive(n)))
  {
    hide WireAll, UnitsAll, AllFramed;
    var after := Step(c, key, max, ch, Arrive(n));
    assert after.arrived + after.flying == ch.arrived + ch.flying;
  }

  // ---------- receiving ----------

  lemma NothingArrived(c: Cipher, key: Bytes, counter: nat, max: int)
    ensures Receive(c, key, counter, [], max) == (Failed, 0, 0)
  {
  }

  /** A receive that starts inside a partly arrived frame swallows the part, and the counter may move on. */
  lemma PartialReceive(c: Cipher, key: Bytes, counter: nat, frame: Framed, part: Bytes, max: int)
    requires Ideal(c) && WellFramed(frame, max)
    requires part != [] && part < Wire(c, key, counter, frame)
    ensures Receive(c, key, counter, part, max) == (Failed, |part|, if |part| < HEADER + TAG then 0 else 1)
  {
    hide Ideal, OpenUnit, SealUnit, NonceBytes;
    var hdr, payload, wire := frame[..HEADER], frame[HEADER..], Wire(c, key, counter, frame);
    OpenSealed(c, key, counter, hdr);
    OpenSealed(c, key, counter + 1, payload);
    assert HeaderLength(hdr) == HeaderLength(frame);
    if |part| >= HEADER + TAG {
      assert part[..HEADER + TAG] == wire[..HEADER + TAG] == SealUnit(c, key, counter, hdr);
    }
  }

  /** A whole frame at the front of what has arrived is received as sent. */
  lemma WholeReceive(c: Cipher, key: Bytes, max: int, ch: Channel)
    requires Ideal(c) && InStep(c, key, max, ch) && Pending(ch) != []
    requires FrontArrived(c, key, ch)
    ensures var after := Step(c, key, max, ch, Recv);
      InStep(c, key, max, after) && after.got == ch.got + [Pending(ch)[0]]
  {
    hide Receive, Wire, Ideal, Units, WellFramed;
    var pending := Pending(ch);
    var frame, wire := pending[0], Wire(c, key, ch.recvCount, pending[0]);
    assert WellFramed(frame, max);
    var rest := ch.arrived[|wire|..];
    FrontOf(ch.arrived, ch.flying, wire, WireAll(c, key, ch.recvCount + Units(frame), pending[1..]));
    FrameDelivered(c, key, ch.recvCount, frame, rest, max);
    FrameParts(frame);
    var after := Step(c, key, max, ch, Recv);
    assert after.got == ch.got + [frame] && after.arrived == rest;
    assert Pending(after) == pending[1..];
  }

  lemma FrontOf(a: Bytes, b: Bytes, x: Bytes, y: Bytes)
    requires a + b == x + y && |a| >= |x|
    ensures a == x + a[|x|..] && a[|x|..] + b == y
  {
    assert (a + b)[..|x|] == x && (a + b)[|x|..] == y;
    assert a[..|x|] == x;
  }

  lemma FrameParts(frame: Framed)
    ensures frame[..HEADER] + frame[HEADER..] == frame
  {
  }

  /** A receive keeps the endpoints in step exactly if nothing has arrived or a whole frame has. */
  lemma ReceiveExact(c: Cipher, key: Bytes, max: int, ch: Channel)
    requires Ideal(c) && InStep(c, key, max, ch)
    ensures InStep(c, key, max, Step(c, key, max, ch, Recv)) <==> Whole(c, key, ch, Recv)
    ensures ch.arrived == [] ==> Step(c, key, max, ch, Recv) == ch
  {
    hide Receive, Wire, Ideal, Units, WellFramed, WireAll;
    var pending := Pending(ch);
    if ch.arrived == [] {
      NothingArrived(c, key, ch.recvCount, max);
    } else {
      SomePending(c, key, max, ch);
      var wire := Wire(c, key, ch.recvCount, pending[0]);
      if |ch.arrived| >= |wire| {
        WholeReceive(c, key, max, ch);
      } else {
        PartBreaks(c, key, max, ch);
      }
    }
  }

  lemma SomePending(c: Cipher, key: Bytes, max: int, ch: Channel)
    requires InStep(c, key, max, ch) && ch.arrived != []
    ensures Pending(ch) != []
  {
    assert |ch.arrived + ch.flying| > 0;
  }

  lemma PartBreaks(c: Cipher, key: Bytes, max: int, ch: Channel)
    requires Ideal(c) && InStep(c, key, max, ch) && ch.arrived != [] && Pending(ch) != []
    requires !FrontArrived(c, key, ch)
    ensures !InStep(c, key, max, Step(c, key, max, ch, Recv))
  {
    hide Receive, Wire, Ideal, Units, WellFramed, UnitsAll;
    var pending := Pending(ch);
    var frame, wire := pending[0], Wire(c, key, ch.recvCount, pending[0]);
    assert WellFramed(frame, max);
    var whole := ch.arrived + ch.flying;
    assert whole[..|ch.arrived|] == ch.arrived && whole[..|wire|] == wire;
    assert ch.arrived == wire[..|ch.arrived|];
    PartialReceive(c, key, ch.recvCount, frame, ch.arrived, max);
    hide WireAll;
    var after := Step(c, key, max, ch, Recv);
    assert after.arrived == [] && after.got == ch.got && Pending(after) == pending;
    assert after.arrived + after.flying == ch.flying;
    if after.recvCount == ch.recvCount {
      assert |ch.flying| < |whole|;
    }
  }

  // ---------- whole runs ----------

  /** One event keeps the endpoints in step if and only if it is whole. */
  lemma StepExact(c: Cipher, key: Bytes, max: int, ch: Channel, e: Event)
    requires Ideal(c) && InStep(c, key, max, ch) && (e.Send? ==> WellFramed(e.frame, max))
    ensures InStep(c, key, max, Step(c, key, max, ch, e)) <==> Whole(c, key, ch, e)
  {
    hide Ideal, InStep, Step, Wire;
    match e
    case Send(frame, Refused(uses)) => RefusedExact(c, key, max, ch, frame, uses);
    case Send(frame, Accepted(taken)) => AcceptedExact(c, key, max, ch, frame, taken);
    case Arrive(n) => ArriveKeeps(c, key, max, ch, n);
    case Recv => ReceiveExact(c, key, max, ch);
  }

  /** Every state along a run is in step. */
  ghost predicate AlwaysInStep(c: Cipher, key: Bytes, max: int, ch: Channel, events: seq<Event>)
    decreases |events|
  {
    InStep(c, key, max, ch) && (events == [] || AlwaysInStep(c, key, max, Step(c, key, max, ch, events[0]), events[1..]))
  }

  /** Every event of a run is whole at the state it meets. */
  predicate AllWhole(c: Cipher, key: Bytes, max: int, ch: Channel, events: seq<Event>)
    decreases |events|
  {
    events == [] || (Whole(c, key, ch, events[0]) && AllWhole(c, key, max, Step(c, key, max, ch, events[0]), events[1..]))
  }

  /**
   Over every run, with any faults, short writes, portions of arrival and timing of receives:
   the endpoints are in step all along if and only if every send that used the cipher had all of
   its bytes taken and no receive began inside a partly arrived frame.
   */
  lemma {:induction false} RunExact(c: Cipher, key: Bytes, max: int, ch: Channel, events: seq<Event>)
    requires Ideal(c) && Legal(events, max) && InStep(c, key, max, ch)
    ensures AlwaysInStep(c, key, max, ch, events) <==> AllWhole(c, key, max, ch, events)
    decreases |events|
  {
    hide Ideal, Step, Whole, WellFramed, InStep;
    if events != [] {
      StepExact(c, key, max, ch, events[0]);
      var next := Step(c, key, max, ch, events[0]);
      if InStep(c, key, max, next) {
        RunExact(c, key, max, next, events[1..]);
      }
    }
  }

  /** The last state of such a run. */
  lemma {:induction false} RunInStep(c: Cipher, key: Bytes, max: int, ch: Channel, events: seq<Event>)
    requires AlwaysInStep(c, key, max, ch, events)
    ensures InStep(c, key, max, Run(c, key, max, ch, events))
    decreases |events|
  {
    hide Step, InStep;
    if events != [] {
      RunInStep(c, key, max, Step(c, key, max, ch, events[0]), events[1..]);
    }
  }

  lemma StartInStep(c: Cipher, key: Bytes, max: int)
    ensures InStep(c, key, max, START)
  {
  }

  /** k receives in a row. */
  function Recvs(k: nat): (es: seq<Event>)
    ensures |es| == k
  {
    if k == 0 then [] else [Recv] + Recvs(k - 1)
  }

  /**
   With everything arrived, receiving as often as frames are pending delivers them all in order
   and brings the counters level.
   */
  lemma {:induction false} Drained(c: Cipher, key: Bytes, max: int, ch: Channel)
    requires Ideal(c) && InStep(c, key, max, ch) && ch.flying == []
    ensures var end := Run(c, key, max, ch, Recvs(|Pending(ch)|));
      && end.got == end.sent == ch.sent
      && end.arrived == [] && end.flying == [] && end.sendCount == end.recvCount
    decreases |Pending(ch)|
  {
    hide Ideal, Wire, WellFramed, Units, Receive;
    var pending := Pending(ch);
    if pending == [] {
      assert ch.got == ch.sent;
    } else {
      AllArrived(c, key, max, ch);
      WholeReceive(c, key, max, ch);
      var next := Step(c, key, max, ch, Recv);
      assert next.flying == [] && next.sent == ch.sent && Pending(next) == pending[1..];
      assert Recvs(|pending|)[1..] == Recvs(|pending| - 1);
      Drained(c, key, max, next);
    }
  }

  lemma AllArrived(c: Cipher, key: Bytes, max: int, ch: Channel)
    requires InStep(c, key, max, ch) && ch.flying == [] && Pending(ch) != []
    ensures FrontArrived(c, key, ch)
  {
    hide Wire, Units, WellFramed;
    assert ch.arrived + ch.flying == ch.arrived;
  }

  /**
   A run of whole events, then the rest of the bytes arriving, then as many receives as frames
   are pending: every frame sent has been received, in order.
   */
  lemma EverythingDelivered(c: Cipher, key: Bytes, max: int, events: seq<Event>)
    requires Ideal(c) && Legal(events, max) && AllWhole(c, key, max, START, events)
    ensures var ch := Run(c, key, max, START, events);
      var end := Run(c, key, max, Step(c, key, max, ch, Arrive(|ch.flying|)), Recvs(|Pending(ch)|));
      end.got == end.sent == ch.sent && end.sendCount == end.recvCount
  {
    StartInStep(c, key, max);
    RunExact(c, key, max, START, events);
    RunInStep(c, key, max, START, events);
    var ch := Run(c, key, max, START, events);
    ArriveKeeps(c, key, max, ch, |ch.flying|);
    var full := Step(c, key, max, ch, Arrive(|ch.flying|));
    assert full.flying == [] && full.sent == ch.sent && Pending(full) == Pending(ch);
    hide *;
    Drained(c, key, max, full);
  }
}
