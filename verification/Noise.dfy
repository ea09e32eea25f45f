/**
 The encrypted Stratum V2 channel of components/stratum_v2/sv2_noise.c. The cipher is ideal:
 opening returns a plaintext exactly for the ciphertext sealing it gives.
 */
module Noise {
  import opened Options
  import opened Digits

  const HEADER: nat := 6         // SV2_FRAME_HEADER_SIZE
  const TAG: nat := 16
  const COUNTERS: nat := 0x1_0000_0000_0000_0000  // values of the 64-bit nonce counters

  type Bytes = seq<byte>

  type Counter = n: nat | n < COUNTERS

  /** A frame has a whole header. */
  type Framed = f: Bytes | |f| >= HEADER witness Repeat(0, HEADER)

  /** The value of a 64-bit counter after n increments. */
  function Wrap(n: nat): Counter
  {
    n % COUNTERS
  }

  lemma WrapAgain(n: nat)
    ensures Wrap(Wrap(n)) == Wrap(n) && Wrap(Wrap(n) + 1) == Wrap(n + 1) && Wrap(Wrap(n) + 2) == Wrap(n + 2)
    ensures n < COUNTERS ==> Wrap(n) == n
  {
  }

  /** ChaCha20-Poly1305 with key, nonce, associated data and text. */
  datatype Cipher = Cipher(seal: (Bytes, Bytes, Bytes, Bytes) -> Bytes, open: (Bytes, Bytes, Bytes, Bytes) -> Option<Bytes>)

  ghost predicate Ideal(c: Cipher) {
    && (forall k, n, a, p :: |c.seal(k, n, a, p)| == |p| + TAG)
    && (forall k, n, a, p, t :: c.open(k, n, a, t) == Some(p) <==> t == c.seal(k, n, a, p))
  }

  // ---------- nonces ----------

  /** Four zero bytes, then the counter in eight little-endian bytes. */
  function NonceBytes(counter: nat): (n: Bytes)
    ensures |n| == 12
  {
    [0, 0, 0, 0] + Little(counter, 8)
  }

  /** The first four bytes are zero, and the others the counter, least significant byte first. */
  predicate NonceOf(nonce: Bytes, counter: nat) {
    |nonce| == 12 && nonce[..4] == [0, 0, 0, 0] && LittleValue(nonce[4..]) == counter
  }

  lemma NonceLayout(counter: nat)
    requires counter < COUNTERS
    ensures NonceOf(NonceBytes(counter), counter)
  {
    CounterRange();
    LittleRoundTrip(counter, 8);
    assert NonceBytes(counter)[4..] == Little(counter, 8);
  }

  lemma CounterRange()
    ensures Pow(256, 8) == COUNTERS
  {
    PowAdd(256, 4, 4);
    PowAdd(256, 2, 2);
    assert Pow(256, 2) == 65536;
  }

  /** Different counters give different nonces. */
  lemma NonceInjective(a: nat, b: nat)
    requires a < COUNTERS && b < COUNTERS && NonceBytes(a) == NonceBytes(b)
    ensures a == b
  {
    CounterRange();
    assert NonceBytes(a)[4..] == Little(a, 8) && NonceBytes(b)[4..] == Little(b, 8);
    LittleRoundTrip(a, 8);
    LittleRoundTrip(b, 8);
  }

  /** build_nonce */
  method BuildNonce(counter: nat, nonce: array<byte>)
    requires nonce.Length == 12
    modifies nonce
    ensures nonce[..] == NonceBytes(counter)
    ensures counter < COUNTERS ==> NonceOf(nonce[..], counter)
  {
    if counter < COUNTERS {
      NonceLayout(counter);
    }
    nonce[0], nonce[1], nonce[2], nonce[3] := 0, 0, 0, 0;
    var i := 0;
    while i < 8
      invariant 0 <= i <= 8
      invariant forall k :: 0 <= k < 4 ==> nonce[k] == 0
      invariant forall k :: 0 <= k < i ==> nonce[4 + k] == Little(counter, 8)[k]
    {
      LittleAt(counter, 8, i);
      nonce[4 + i] := Shift(counter, i) % 256;
      i := i + 1;
    }
  }

  // ---------- frames ----------

  /** msg_length of a frame header: 24 bits, little-endian, at offset 3. */
  function HeaderLength(hdr: Bytes): nat
    requires |hdr| >= HEADER
  {
    hdr[3] as nat + 0x100 * (hdr[4] as nat) + 0x1_0000 * (hdr[5] as nat)
  }

  /** How many times the cipher is used for a frame. */
  function Units(frame: Bytes): nat {
    if |frame| <= HEADER then 1 else 2
  }

  /** One encryption or decryption unit: no associated data after the handshake. */
  function SealUnit(c: Cipher, key: Bytes, counter: nat, text: Bytes): Bytes {
    c.seal(key, NonceBytes(Wrap(counter)), [], text)
  }

  /** Opening writes |text| - TAG bytes or reports failure. */
  function OpenUnit(c: Cipher, key: Bytes, counter: nat, text: Bytes): (p: Option<Bytes>)
    ensures p.Some? ==> |p.value| + TAG == |text|
  {
    if |text| < TAG then None else
      match c.open(key, NonceBytes(Wrap(counter)), [], text)
      case Some(p) => if |p| + TAG == |text| then Some(p) else None
      case None => None
  }

  /** The bytes sv2_noise_send puts on the wire. */
  function Wire(c: Cipher, key: Bytes, counter: nat, frame: Bytes): Bytes
    requires |frame| >= HEADER
  {
    SealUnit(c, key, counter, frame[..HEADER]) +
    if |frame| == HEADER then [] else SealUnit(c, key, counter + 1, frame[HEADER..])
  }

  lemma NonceUnique(nonce: Bytes, counter: nat)
    requires counter < COUNTERS && NonceOf(nonce, counter)
    ensures nonce == NonceBytes(counter)
  {
    LittleInverse(nonce[4..]);
    assert nonce == nonce[..4] + nonce[4..];
  }

  /**
   What is on the wire: header and payload sealed one by one, without associated data, under the
   nonces of two consecutive counters.
   */
  lemma WireParts(c: Cipher, key: Bytes, counter: nat, frame: Bytes, first: Bytes, second: Bytes)
    requires |frame| >= HEADER
    requires NonceOf(first, counter % COUNTERS) && NonceOf(second, (counter + 1) % COUNTERS)
    ensures Wire(c, key, counter, frame) ==
      c.seal(key, first, [], frame[..HEADER]) + if |frame| == HEADER then [] else c.seal(key, second, [], frame[HEADER..])
  {
    hide NonceBytes, NonceOf;
    NonceUnique(first, counter % COUNTERS);
    NonceUnique(second, (counter + 1) % COUNTERS);
  }

  datatype Received =
    | Frame(hdr: Bytes, payload: Bytes)
    | Failed

  /** What sv2_noise_recv makes of a byte stream: result, bytes consumed, cipher uses. */
  function Receive(c: Cipher, key: Bytes, counter: nat, stream: Bytes, max: int): (r: (Received, nat, nat))
    ensures r.1 <= |stream| && r.2 <= 2
  {
    if |stream| < HEADER + TAG then (Failed, |stream|, 0) else
      match OpenUnit(c, key, counter, stream[..HEADER + TAG])
      case None => (Failed, HEADER + TAG, 1)
      case Some(hdr) =>
        var len := HeaderLength(hdr);
        if len == 0 then (Frame(hdr, []), HEADER + TAG, 1)
        else if len > max then (Failed, HEADER + TAG, 1)
        else
          var rest := stream[HEADER + TAG..];
          if |rest| < len + TAG then (Failed, |stream|, 1)
          else
            match OpenUnit(c, key, counter + 1, rest[..len + TAG])
            case None => (Failed, HEADER + TAG + len + TAG, 2)
            case Some(payload) => (Frame(hdr, payload), HEADER + TAG + len + TAG, 2)
  }

  /** A frame the receiver can reconstruct: its header tells its payload length, within the limit. */
  predicate WellFramed(frame: Bytes, max: int) {
    |frame| >= HEADER && HeaderLength(frame) == |frame| - HEADER && (|frame| > HEADER ==> |frame| - HEADER <= max)
  }

  /**
   What a failed receive has consumed, and how often it has used the cipher: a header that was not
   sealed for this counter is thrown away alone, like one that tells too long a payload, a payload
   that was not sealed for the next counter together with its header.
   */
  lemma FailuresCost(c: Cipher, key: Bytes, counter: nat, stream: Bytes, max: int)
    requires |stream| >= HEADER + TAG
    ensures OpenUnit(c, key, counter, stream[..HEADER + TAG]).None? ==>
      Receive(c, key, counter, stream, max) == (Failed, HEADER + TAG, 1)
    ensures OpenUnit(c, key, counter, stream[..HEADER + TAG]).Some? ==>
      var hdr := OpenUnit(c, key, counter, stream[..HEADER + TAG]).value;
      var len := hdr[3] as nat + 256 * hdr[4] as nat + 65536 * hdr[5] as nat;
      && (len > max && len > 0 ==> Receive(c, key, counter, stream, max) == (Failed, HEADER + TAG, 1))
      && (0 < len <= max && |stream| < HEADER + TAG + len + TAG ==>
            Receive(c, key, counter, stream, max) == (Failed, |stream|, 1))
      && (0 < len <= max && |stream| >= HEADER + TAG + len + TAG ==>
            var r := Receive(c, key, counter, stream, max);
            && r.1 == HEADER + TAG + len + TAG && r.2 == 2
            && (r.0.Failed? <==> OpenUnit(c, key, counter + 1, stream[HEADER + TAG..r.1]).None?))
  {
    hide NonceBytes;
    var n := Receive(c, key, counter, stream, max).1;
    if n >= HEADER + TAG {
      assert stream[HEADER + TAG..][..n - HEADER - TAG] == stream[HEADER + TAG..n];
    }
  }

  lemma OpenSealed(c: Cipher, key: Bytes, counter: nat, text: Bytes)
    requires Ideal(c)
    ensures OpenUnit(c, key, counter, SealUnit(c, key, counter, text)) == Some(text)
    ensures |SealUnit(c, key, counter, text)| == |text| + TAG
  {
    var n := NonceBytes(Wrap(counter));
    assert |c.seal(key, n, [], text)| == |text| + TAG;
    assert c.open(key, n, [], c.seal(key, n, [], text)) == Some(text);
  }

  /**
   One frame, whatever follows it on the stream: the receiver with the same key and counter
   returns exactly that frame, consumes exactly its bytes and uses the cipher as often as the
   sender did, if and only if the frame tells its own length within the receiver's limit.
   */
  lemma FrameDelivered(c: Cipher, key: Bytes, counter: nat, frame: Bytes, rest: Bytes, max: int)
    requires Ideal(c) && |frame| >= HEADER
    ensures Receive(c, key, counter, Wire(c, key, counter, frame) + rest, max)
         == (Frame(frame[..HEADER], frame[HEADER..]), |Wire(c, key, counter, frame)|, Units(frame))
      <==> WellFramed(frame, max)
  {
    hide Ideal, OpenUnit, SealUnit;
    var hdr, payload, wire := frame[..HEADER], frame[HEADER..], Wire(c, key, counter, frame);
    var stream, first := wire + rest, SealUnit(c, key, counter, hdr);
    OpenSealed(c, key, counter, hdr);
    OpenSealed(c, key, counter + 1, payload);
    assert stream[..HEADER + TAG] == first;
    assert HeaderLength(hdr) == HeaderLength(frame);
    var len, tail := HeaderLength(hdr), stream[HEADER + TAG..];
    if len == |payload| && len > 0 {
      assert tail[..len + TAG] == SealUnit(c, key, counter + 1, payload);
    }
  }

  // ---------- how a send ends ----------

  /**
   What becomes of one sv2_noise_send: an error return after some uses of the cipher, with
   nothing written, or a write that took some of the bytes, which counts as success.
   */
  datatype Fate = Refused(uses: nat) | Accepted(taken: nat)

  /** How far a send moves the counter on. */
  function Uses(frame: Bytes, fate: Fate): nat {
    match fate
    case Refused(uses) => uses
    case Accepted(_) => Units(frame)
  }

  /** What a send puts on the wire. */
  function Written(c: Cipher, key: Bytes, counter: nat, frame: Bytes, fate: Fate): (w: Bytes)
    requires |frame| >= HEADER
  {
    var wire := Wire(c, key, counter, frame);
    match fate
    case Refused(_) => []
    case Accepted(taken) => if taken < |wire| then wire[..taken] else wire
  }

  // ---------- the C functions ----------

  /** A byte transport that hands out what has arrived in fragments of any size. */
  class Transport {
    var incoming: Bytes
    var outgoing: Bytes
    var up: bool

    /** esp_transport_read: some of the bytes asked for, or an error when there is nothing to wait for. */
    method Read(want: nat) returns (r: int, bytes: Bytes)
      requires want > 0
      modifies this`incoming
      ensures r > 0 <==> up && |old(incoming)| > 0
      ensures r > 0 ==> r <= want && r <= |old(incoming)| && bytes == old(incoming)[..r] && incoming == old(incoming)[r..]
      ensures r <= 0 ==> incoming == old(incoming)
    {
      if !up || incoming == [] {
        return -1, [];
      }
      var k: nat :| 1 <= k <= want && k <= |incoming|;
      r, bytes := k, incoming[..k];
      incoming := incoming[k..];
    }

    /** esp_transport_write: an error, or some number of bytes taken. */
    method Write(bytes: Bytes) returns (r: int)
      modifies this`outgoing
      ensures r < 0 ==> outgoing == old(outgoing)
      ensures r >= 0 ==> r <= |bytes| && outgoing == old(outgoing) + bytes[..r]
    {
      if * {
        return -1;
      }
      var k: nat :| k <= |bytes|;
      r := k;
      outgoing := outgoing + bytes[..k];
    }
  }

  /** noise_recv_exact: however the stream is fragmented, exactly the first len bytes, or failure. */
  method RecvExact(t: Transport, len: nat) returns (ret: int, buf: Bytes)
    modifies t`incoming
    ensures ret == 0 || ret == -1
    ensures t.up ==> (ret == 0 <==> len <= |old(t.incoming)|)
    ensures !t.up && len > 0 ==> ret != 0
    ensures ret == 0 ==> len <= |old(t.incoming)| && buf == old(t.incoming)[..len] && t.incoming == old(t.incoming)[len..]
    ensures ret != 0 && t.up ==> t.incoming == []
    ensures ret != 0 && !t.up ==> t.incoming == old(t.incoming)
  {
    var received := 0;
    buf := [];
    ghost var before := t.incoming;
    while received < len
      invariant 0 <= received <= len && received <= |before|
      invariant buf == before[..received] && t.incoming == before[received..]
      invariant received > 0 ==> t.up
    {
      var r, bytes := t.Read(len - received);
      if r <= 0 {
        return -1, buf;
      }
      buf := buf + bytes;
      received := received + r;
    }
    ret := 0;
  }

  /** noise_send_all: a short write counts as success. */
  method SendAll(t: Transport, bytes: Bytes) returns (ret: int, ghost taken: nat)
    modifies t`outgoing
    ensures ret == 0 || ret == -1
    ensures taken <= |bytes| && t.outgoing == old(t.outgoing) + bytes[..taken]
    ensures ret != 0 ==> taken == 0
  {
    var r := t.Write(bytes);
    if r < 0 {
      return -1, 0;
    }
    ret, taken := 0, r;
  }

  /** Failures of one sv2_noise_send that do not come from the transport. */
  datatype Faults = Faults(malloc: bool, first: bool, second: bool)

  /** sv2_noise_ctx. The handshake hash, the chaining key and the ephemeral private key are buffers it works in. */
  class NoiseContext {
    const h: array<byte>
    const ck: array<byte>
    const ePriv: array<byte>
    var sendKey: Bytes
    var recvKey: Bytes
    var sendNonce: Counter
    var recvNonce: Counter
    var complete: bool
    /** Every nonce the send key was used with for an encryption, oldest first. */
    ghost var sealed: seq<Bytes>

    ghost predicate Valid()
      reads this
    {
      && h.Length == 32 && ck.Length == 32 && ePriv.Length == 32
      && h != ck && h != ePriv && ck != ePriv
      && sendNonce == Wrap(|sealed|)
      && forall i :: 0 <= i < |sealed| ==> sealed[i] == NonceBytes(Wrap(i))
    }

    constructor ()
      ensures Valid() && !complete && sealed == []
      ensures fresh(h) && fresh(ck) && fresh(ePriv)
    {
      h, ck, ePriv := new byte[32](_ => 0), new byte[32](_ => 0), new byte[32](_ => 0);
      sendKey, recvKey, sendNonce, recvNonce, complete := [], [], 0, 0, false;
      sealed := [];
    }

    /** noise_encrypt with ctx->send_nonce++: the counter moves on even when the cipher fails. */
    method EncryptNext(c: Cipher, text: Bytes, fails: bool) returns (ok: bool, out: Bytes)
      requires Valid()
      modifies this`sendNonce, this`sealed
      ensures Valid()
      ensures ok == !fails && (ok ==> out == SealUnit(c, sendKey, old(sendNonce), text))
      ensures sendNonce == Wrap(old(sendNonce) + 1)
      ensures sealed == old(sealed) + [NonceBytes(old(sendNonce))]
    {
      hide NonceBytes, Wrap;
      var counter := sendNonce;
      WrapAgain(|sealed|);
      WrapAgain(sendNonce);
      sendNonce := Wrap(sendNonce + 1);
      var nonce := new byte[12];
      BuildNonce(counter, nonce);
      sealed := sealed + [nonce[..]];
      if fails {
        return false, [];
      }
      ok, out := true, c.seal(sendKey, nonce[..], [], text);
    }

    /** sv2_noise_send. Without a handshake, or for a frame shorter than a header, nothing happens. */
    method SendFrame(c: Cipher, t: Transport, frame: Bytes, faults: Faults) returns (ret: int, ghost fate: Fate)
      requires Valid()
      modifies this`sendNonce, this`sealed, t`outgoing
      ensures Valid() && old(sealed) <= sealed
      ensures ret == if fate.Accepted? then 0 else -1
      ensures !complete || |frame| < HEADER ==>
        fate == Refused(0) && sealed == old(sealed) && t.outgoing == old(t.outgoing)
      ensures complete && |frame| >= HEADER ==>
        && |sealed| == |old(sealed)| + Uses(frame, fate)
        && t.outgoing == old(t.outgoing) + Written(c, sendKey, old(sendNonce), frame, fate)
        && (fate.Refused? ==> fate.uses <= Units(frame))
        && (fate.Accepted? ==> fate.taken <= |Wire(c, sendKey, old(sendNonce), frame)|)
    {
      hide NonceBytes, Wrap, SealUnit, NoiseContext.Valid;
      WrapAgain(sendNonce);
      ghost var counter := sendNonce;
      ghost var taken;
      assert t.outgoing == t.outgoing + [];
      if !complete || |frame| < HEADER {
        return -1, Refused(0);
      }
      var wire;
      if |frame| == HEADER {
        var ok;
        ok, wire := EncryptNext(c, frame[..HEADER], faults.first);
        if !ok {
          return -1, Refused(1);
        }
      } else {
        if faults.malloc {
          return -1, Refused(0);
        }
        var ok, first := EncryptNext(c, frame[..HEADER], faults.first);
        if !ok {
          return -1, Refused(1);
        }
        var second;
        ok, second := EncryptNext(c, frame[HEADER..], faults.second);
        if !ok {
          return -1, Refused(2);
        }
        SameUnit(c, sendKey, counter, frame[HEADER..]);
        wire := first + second;
      }
      assert wire == Wire(c, sendKey, counter, frame);
      ret, taken := SendAll(t, wire);
      fate := if ret == 0 then Accepted(taken) else Refused(Units(frame));
    }

    /** noise_decrypt with ctx->recv_nonce++. */
    method DecryptNext(c: Cipher, text: Bytes) returns (p: Option<Bytes>)
      requires Valid()
      modifies this`recvNonce
      ensures Valid()
      ensures p == OpenUnit(c, recvKey, old(recvNonce), text)
      ensures recvNonce == Wrap(old(recvNonce) + 1)
    {
      hide NonceBytes, Wrap;
      var counter := recvNonce;
      recvNonce := Wrap(recvNonce + 1);
      p := OpenUnit(c, recvKey, counter, text);
    }

    /** sv2_noise_recv, whatever sizes the reads come in. Without a handshake or a transport nothing is consumed. */
    method RecvFrame(c: Cipher, t: Transport, max: int) returns (ret: int, hdr: Bytes, payload: Bytes)
      requires Valid()
      modifies this`recvNonce, t`incoming
      ensures Valid() && (ret == 0 || ret == -1)
      ensures !complete || !t.up ==> ret == -1 && recvNonce == old(recvNonce) && t.incoming == old(t.incoming)
      ensures complete && t.up ==>
        var (r, consumed, uses) := Receive(c, recvKey, old(recvNonce), old(t.incoming), max);
        && recvNonce == Wrap(old(recvNonce) + uses)
        && t.incoming == old(t.incoming)[consumed..]
        && (ret == 0 <==> r.Frame?)
        && (ret == 0 ==> r == Frame(hdr, payload))
    {
      hide NonceBytes, Wrap, OpenUnit, HeaderLength, NoiseContext.Valid;
      if !complete {
        return -1, [], [];
      }
      ghost var stream, counter := t.incoming, recvNonce;
      WrapAgain(recvNonce);
      WrapAgain(recvNonce + 1);
      hdr, payload := [], [];
      var encHdr, encPayload;
      ret, encHdr := RecvExact(t, HEADER + TAG);
      if ret != 0 {
        return;
      }
      var h := DecryptNext(c, encHdr);
      if h.None? {
        return -1, hdr, payload;
      }
      hdr := h.value;
      var len := HeaderLength(hdr);
      if len == 0 {
        return 0, hdr, [];
      }
      if len > max {
        return -1, hdr, payload;
      }
      ret, encPayload := RecvExact(t, len + TAG);
      if ret != 0 {
        return;
      }
      SameOpen(c, recvKey, counter, encPayload);
      var p := DecryptNext(c, encPayload);
      if p.None? {
        return -1, hdr, payload;
      }
      ret, payload := 0, p.value;
    }
  }

  lemma SameUnit(c: Cipher, key: Bytes, counter: nat, text: Bytes)
    ensures SealUnit(c, key, Wrap(counter + 1), text) == SealUnit(c, key, counter + 1, text)
  {
    hide NonceBytes, Wrap;
    WrapAgain(counter + 1);
  }

  lemma SameOpen(c: Cipher, key: Bytes, counter: nat, text: Bytes)
    ensures OpenUnit(c, key, Wrap(counter + 1), text) == OpenUnit(c, key, counter + 1, text)
  {
    hide NonceBytes, Wrap;
    WrapAgain(counter + 1);
  }

  /** The channel's unbounded counts stand for the 64-bit counters. */
  lemma CountersWrap(c: Cipher, key: Bytes, n: nat, frame: Bytes, stream: Bytes, max: int)
    requires |frame| >= HEADER
    ensures Wire(c, key, Wrap(n), frame) == Wire(c, key, n, frame)
    ensures Receive(c, key, Wrap(n), stream, max) == Receive(c, key, n, stream, max)
  {
    hide Wrap, NonceBytes, SealUnit, OpenUnit;
    WrapAgain(n);
    SealWraps(c, key, n, n + 1, Wrap(n) + 1);
    OpenWraps(c, key, n, n + 1, Wrap(n) + 1);
  }

  lemma SealWraps(c: Cipher, key: Bytes, n: nat, a: nat, b: nat)
    requires Wrap(Wrap(n)) == Wrap(n) && Wrap(a) == Wrap(b)
    ensures forall text :: SealUnit(c, key, Wrap(n), text) == SealUnit(c, key, n, text)
    ensures forall text :: SealUnit(c, key, a, text) == SealUnit(c, key, b, text)
  {
    hide Wrap, NonceBytes;
  }

  lemma OpenWraps(c: Cipher, key: Bytes, n: nat, a: nat, b: nat)
    requires Wrap(Wrap(n)) == Wrap(n) && Wrap(a) == Wrap(b)
    ensures forall text :: OpenUnit(c, key, Wrap(n), text) == OpenUnit(c, key, n, text)
    ensures forall text :: OpenUnit(c, key, a, text) == OpenUnit(c, key, b, text)
  {
    hide Wrap, NonceBytes;
  }

  lemma WrapAround()
    ensures Wrap(COUNTERS) == 0
  {
  }

  /**
   No nonce is used twice for encryption under one key, whatever frames are sent and whatever
   fails, exactly as long as the 64-bit counter has not wrapped.
   */
  lemma NonceUsedOnce(log: seq<Bytes>)
    requires forall i :: 0 <= i < |log| ==> log[i] == NonceBytes(Wrap(i))
    ensures (forall i, j :: 0 <= i < j < |log| ==> log[i] != log[j]) <==> |log| <= COUNTERS
  {
    hide NonceBytes, Wrap;
    if |log| <= COUNTERS {
      forall i, j | 0 <= i < j < |log|
        ensures log[i] != log[j]
      {
        WrapAgain(i);
        WrapAgain(j);
        if log[i] == log[j] {
          NonceInjective(i, j);
        }
      }
    } else {
      WrapAgain(0);
      WrapAround();
      assert log[0] == log[COUNTERS];
    }
  }
}