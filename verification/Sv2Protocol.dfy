/**
 Stratum V2 messages (components/stratum_v2/sv2_protocol.c): builders that put a frame header
 before a payload, and parsers that read payloads from the pool. Section 3.2 of the Stratum V2
 specification (Framing) and its data types (STR0_255, B0_32, B0_64K, SEQ0_255, OPTION).
 */
module Sv2Protocol {
  import opened Digits
  import opened Options
  import opened Packing
  import Noise

  const CHANNEL_MSG_FLAG: nat := 0x8000
  const SETUP_CONNECTION: byte := 0x00
  const OPEN_STANDARD_MINING_CHANNEL: byte := 0x10
  const OPEN_EXTENDED_MINING_CHANNEL: byte := 0x13
  const SUBMIT_SHARES_STANDARD: byte := 0x1a
  const SUBMIT_SHARES_EXTENDED: byte := 0x1b

  /** SV2_MAX_MERKLE_BRANCHES */
  const MAX_BRANCHES: nat := 20

  // ---------- frames ----------

  function FrameHeader(extension: nat, msgType: byte, length: nat): (h: Bytes)
    ensures |h| == Noise.HEADER
  {
    Little(extension, 2) + [msgType] + Little(length, 3)
  }

  function FrameOf(extension: nat, msgType: byte, payload: Bytes): (f: Bytes)
    ensures |f| == Noise.HEADER + |payload|
  {
    FrameHeader(extension, msgType, |payload|) + payload
  }

  /** A frame built like this is one the encrypted channel delivers: its header tells its payload length. */
  lemma FramesAreWellFramed(extension: nat, msgType: byte, payload: Bytes, max: int)
    requires |payload| < 0x100_0000 && |payload| <= max
    ensures Noise.WellFramed(FrameOf(extension, msgType, payload), max)
  {
    var n := |payload|;
    var tail := Little(n, 3);
    assert tail == [n % 256] + ([n / 256 % 256] + ([n / 256 / 256 % 256] + []));
    var f := FrameOf(extension, msgType, payload);
    assert f[3] == tail[0] && f[4] == tail[1] && f[5] == tail[2];
  }

  datatype Header = Header(extension: nat, msgType: byte, length: nat)

  /** sv2_parse_frame_header */
  method ParseFrameHeader(data: Bytes) returns (h: Header)
    requires |data| >= Noise.HEADER
    ensures h == HeaderOf(data)
    ensures h.extension == data[0] + 0x100 * (data[1] as nat) && h.msgType == data[2]
    ensures h.length == data[3] + 0x100 * (data[4] as nat) + 0x1_0000 * (data[5] as nat)
  {
    TwoBytes(data);
    LengthAgrees(data);
    var extension := ReadLittle(data, 0, 2);
    var length := ReadLittle(data, 3, 3);
    h := Header(extension, data[2], length);
  }

  function HeaderOf(data: Bytes): Header
    requires |data| >= Noise.HEADER
  {
    Header(LittleValue(data[0..2]), data[2], LittleValue(data[3..6]))
  }

  /** The three fields of a header come back, lengths up to 24 bits. */
  lemma HeaderRoundTrip(extension: nat, msgType: byte, length: nat, rest: Bytes)
    requires extension < 0x1_0000 && length < 0x100_0000
    ensures HeaderOf(FrameHeader(extension, msgType, length) + rest) == Header(extension, msgType, length)
  {
    hide Little, LittleValue;
    var data := FrameHeader(extension, msgType, length) + rest;
    assert data[0..2] == Little(extension, 2) && data[3..6] == Little(length, 3);
    Widths();
    assert Pow(256, 3) == Pow(256, 2) * 256;
    LittleRoundTrip(extension, 2);
    LittleRoundTrip(length, 3);
  }

  /** The length field is the one the encrypted channel goes by. */
  lemma LengthAgrees(data: Bytes)
    requires |data| >= Noise.HEADER
    ensures HeaderOf(data).length == Noise.HeaderLength(data)
  {
    hide LittleValue;
    ThreeBytes(data[3], data[4], data[5]);
    assert data[3..6] == [data[3], data[4], data[5]];
  }

  lemma ThreeBytes(a: byte, b: byte, c: byte)
    ensures LittleValue([a, b, c]) == a + 0x100 * (b as nat) + 0x1_0000 * (c as nat)
  {
    assert [a, b, c][1..] == [b, c] && [b, c][1..] == [c] && [c][1..] == [];
    assert LittleValue([c]) == c;
    assert LittleValue([b, c]) == b + 256 * LittleValue([c]);
  }

  lemma TwoBytes(data: Bytes)
    requires |data| >= 2
    ensures LittleValue(data[0..2]) == data[0] + 0x100 * (data[1] as nat)
  {
    var s := data[0..2];
    assert s[1..][1..] == [] && LittleValue(s[1..]) == data[1];
  }

  /** sv2_encode_frame_header */
  method EncodeFrameHeader(dest: array<byte>, extension: nat, msgType: byte, length: nat)
    requires dest.Length >= Noise.HEADER
    modifies dest
    ensures dest[..Noise.HEADER] == FrameHeader(extension, msgType, length)
    ensures forall k :: Noise.HEADER <= k < dest.Length ==> dest[k] == old(dest[k])
  {
    PutLittle(dest, 0, extension, 2);
    dest[2] := msgType;
    PutLittle(dest, 3, length, 3);
  }

  // ---------- strings ----------

  /** STR0_255: strings are cut to 255 bytes. */
  function Str(s: Bytes): (e: Bytes)
    ensures 1 <= |e| <= 256
  {
    var cut := if |s| > 255 then s[..255] else s;
    [|cut|] + cut
  }

  /** write_str0255; None is -1. */
  method WriteStr(dest: array<byte>, pos: nat, s: Bytes) returns (n: Option<nat>)
    requires pos <= dest.Length
    modifies dest
    ensures n.Some? <==> pos + |Str(s)| <= dest.Length
    ensures n.Some? ==> n.value == |Str(s)| && dest[..pos + n.value] == old(dest[..pos]) + Str(s)
    ensures n.None? ==> dest[..] == old(dest[..])
  {
    var length := |s|;
    if length > 255 {
      length := 255;
    }
    if dest.Length - pos < 1 + length {
      return None;
    }
    dest[pos] := length;
    PutBytes(dest, pos + 1, s[..length]);
    assert Str(s) == [length] + s[..length];
    n := Some(1 + length);
  }

  /** read_str0255: the text and the bytes consumed; None is -1. */
  method ReadStr(src: Bytes, destSize: nat) returns (r: Option<(Bytes, nat)>)
    requires destSize > 0
    ensures r == StrAt(src, destSize)
  {
    if |src| < 1 {
      return None;
    }
    var length: nat := src[0];
    if |src| < 1 + length {
      return None;
    }
    var copy: nat := length;
    if copy >= destSize {
      copy := destSize - 1;
    }
    r := Some((src[1..1 + copy], 1 + length));
  }

  function StrAt(src: Bytes, destSize: nat): (r: Option<(Bytes, nat)>)
    requires destSize > 0
    ensures r.Some? ==> r.value.1 <= |src| && |r.value.0| < destSize
  {
    if |src| < 1 || |src| - 1 < src[0] then None
    else
      var length: nat := src[0];
      var copy := if length >= destSize then destSize - 1 else length;
      Some((src[1..1 + copy], 1 + length))
  }

  /** A written string is read back, as far as both sides have room for it, and consumed whole. */
  lemma StrRoundTrip(s: Bytes, tail: Bytes, destSize: nat)
    requires destSize > 0
    ensures StrAt(Str(s) + tail, destSize) ==
      Some((s[..Least(|s|, Least(255, destSize - 1))], |Str(s)|))
  {
    var data, cut := Str(s) + tail, if |s| > 255 then s[..255] else s;
    assert data[0] == |cut|;
    var copy := Least(|s|, Least(255, destSize - 1));
    assert data[1..1 + copy] == s[..copy];
  }

  // ---------- builders ----------

  /** The size of the buffers payloads are built in. */
  const ROOM: nat := 512

  /** The end of a builder: header and payload into the caller's buffer, if they fit. */
  method Finish(buf: array<byte>, bufLen: nat, payload: array<byte>, pos: nat, extension: nat, msgType: byte)
    returns (total: Option<nat>)
    requires bufLen <= buf.Length && pos <= payload.Length && buf != payload
    modifies buf
    ensures total.Some? <==> Noise.HEADER + pos <= bufLen
    ensures total.Some? ==> total.value == Noise.HEADER + pos && buf[..total.value] == FrameOf(extension, msgType, payload[..pos])
    ensures total.None? ==> buf[..] == old(buf[..])
  {
    if Noise.HEADER + pos > bufLen {
      return None;
    }
    EncodeFrameHeader(buf, extension, msgType, pos);
    PutBytes(buf, Noise.HEADER, payload[..pos]);
    total := Some(Noise.HEADER + pos);
  }

  /** A builder's result: the whole frame, or nothing written. */
  predicate Built(before: Bytes, after: Bytes, bufLen: nat, total: Option<nat>, frame: Bytes) {
    && (total.Some? <==> |frame| <= Noise.HEADER + ROOM && |frame| <= bufLen)
    && (total.Some? ==> total.value == |frame| <= |after| && after[..|frame|] == frame)
    && (total.None? ==> after == before)
  }

  function SetupStart(host: Bytes, port: nat, flags: nat): Bytes {
    [0] + Little(2, 2) + Little(2, 2) + Little(flags, 4) + Str(host) + Little(port, 2)
  }

  function SetupPayload(host: Bytes, port: nat, vendor: Bytes, hardware: Bytes, firmware: Bytes, device: Bytes,
                        flags: nat): Bytes {
    SetupStart(host, port, flags) + Str(vendor) + Str(hardware) + Str(firmware) + Str(device)
  }

  /** What is left of a string on the wire. */
  function Cut(s: Bytes): Bytes { s[..Least(|s|, 255)] }

  /** A string is read at a position, up to the next one. */
  predicate StrRead(p: Bytes, at: nat, s: Bytes, next: nat) {
    at <= |p| && StrAt(p[at..], 256) == Some((Cut(s), next - at))
  }

  lemma StrStands(before: Bytes, s: Bytes, rest: Bytes)
    ensures StrRead(before + Str(s) + rest, |before|, s, |before| + |Str(s)|)
  {
    hide StrAt;
    var p := before + Str(s) + rest;
    assert p[|before|..] == Str(s) + rest;
    StrRoundTrip(s, rest, 256);
  }

  /** Every field of a connection request is read back, one behind the other. */
  lemma SetupReadBack(host: Bytes, port: nat, vendor: Bytes, hardware: Bytes, firmware: Bytes, device: Bytes, flags: nat,
                      tail: Bytes)
    requires port < 0x1_0000 && flags < TWO_32
    ensures var p := SetupPayload(host, port, vendor, hardware, firmware, device, flags) + tail;
      var at1 := 9 + |Str(host)|;
      var at2 := at1 + 2 + |Str(vendor)|;
      var at3 := at2 + |Str(hardware)|;
      var at4 := at3 + |Str(firmware)|;
      && p[0] == 0 && LittleValue(p[1..3]) == 2 && LittleValue(p[3..5]) == 2 && LittleValue(p[5..9]) == flags
      && StrRead(p, 9, host, at1) && LittleValue(p[at1..at1 + 2]) == port
      && StrRead(p, at1 + 2, vendor, at2) && StrRead(p, at2, hardware, at3)
      && StrRead(p, at3, firmware, at4) && StrRead(p, at4, device, at4 + |Str(device)|)
  {
    hide *;
    SetupFront(host, port, vendor, hardware, firmware, device, flags, tail);
    SetupBehindHost(host, port, vendor, hardware, firmware, device, flags, tail);
  }

  lemma SetupFront(host: Bytes, port: nat, vendor: Bytes, hardware: Bytes, firmware: Bytes, device: Bytes, flags: nat,
                   tail: Bytes)
    requires flags < TWO_32
    ensures var p := SetupPayload(host, port, vendor, hardware, firmware, device, flags) + tail;
      && |p| >= 9 && p[0] == 0 && LittleValue(p[1..3]) == 2 && LittleValue(p[3..5]) == 2 && LittleValue(p[5..9]) == flags
      && StrRead(p, 9, host, 9 + |Str(host)|)
  {
    hide Little, LittleValue, Str, StrRead;
    Widths();
    LittleRoundTrip(2, 2);
    LittleRoundTrip(flags, 4);
    var fixed := [0] + Little(2, 2) + Little(2, 2) + Little(flags, 4);
    var rest := Little(port, 2) + (Str(vendor) + (Str(hardware) + (Str(firmware) + (Str(device) + tail))));
    var p := SetupPayload(host, port, vendor, hardware, firmware, device, flags) + tail;
    assert p == fixed + Str(host) + rest;
    assert fixed[1..3] == Little(2, 2) && fixed[3..5] == Little(2, 2) && fixed[5..9] == Little(flags, 4);
    assert p[1..3] == fixed[1..3] && p[3..5] == fixed[3..5] && p[5..9] == fixed[5..9];
    StrStands(fixed, host, rest);
  }

  lemma SetupBehindHost(host: Bytes, port: nat, vendor: Bytes, hardware: Bytes, firmware: Bytes, device: Bytes, flags: nat,
                        tail: Bytes)
    requires port < 0x1_0000
    ensures var p := SetupPayload(host, port, vendor, hardware, firmware, device, flags) + tail;
      var at1 := 9 + |Str(host)|;
      var at2 := at1 + 2 + |Str(vendor)|;
      var at3 := at2 + |Str(hardware)|;
      var at4 := at3 + |Str(firmware)|;
      && |p| >= at1 + 2 && LittleValue(p[at1..at1 + 2]) == port
      && StrRead(p, at1 + 2, vendor, at2) && StrRead(p, at2, hardware, at3)
      && StrRead(p, at3, firmware, at4) && StrRead(p, at4, device, at4 + |Str(device)|)
  {
    hide Little, LittleValue, Str, StrRead;
    Widths();
    LittleRoundTrip(port, 2);
    var start := SetupStart(host, port, flags);
    var v, h, f, d := Str(vendor), Str(hardware), Str(firmware), Str(device);
    var p := SetupPayload(host, port, vendor, hardware, firmware, device, flags) + tail;
    assert p == start + v + (h + (f + (d + tail)));
    assert p == (start + v) + h + (f + (d + tail));
    assert p == (start + v + h) + f + (d + tail);
    assert p == (start + v + h + f) + d + tail;
    assert p[|start| - 2..|start|] == Little(port, 2);
    StrStands(start, vendor, h + (f + (d + tail)));
    StrStands(start + v, hardware, f + (d + tail));
    StrStands(start + v + h, firmware, d + tail);
    StrStands(start + v + h + f, device, tail);
  }

  /** The fields that always fit: protocol, versions, flags, host and port. */
  method StartSetup(payload: array<byte>, host: Bytes, port: nat, flags: nat) returns (pos: nat)
    requires payload.Length == ROOM
    modifies payload
    ensures pos <= 267 && payload[..pos] == SetupStart(host, port, flags)
  {
    hide Str, Little;
    payload[0] := 0;
    PutLittle(payload, 1, 2, 2);
    PutLittle(payload, 3, 2, 2);
    PutLittle(payload, 5, flags, 4);
    assert payload[..9] == [0] + Little(2, 2) + Little(2, 2) + Little(flags, 4);
    var n := WriteStr(payload, 9, host);
    pos := 9 + n.value;
    PutLittle(payload, pos, port, 2);
    pos := pos + 2;
  }

  /** sv2_build_setup_connection */
  method BuildSetupConnection(buf: array<byte>, bufLen: nat, host: Bytes, port: nat, vendor: Bytes, hardware: Bytes,
                              firmware: Bytes, device: Bytes, flags: nat) returns (total: Option<nat>)
    requires bufLen <= buf.Length
    modifies buf
    ensures Built(old(buf[..]), buf[..], bufLen, total,
                  FrameOf(0, SETUP_CONNECTION, SetupPayload(host, port, vendor, hardware, firmware, device, flags)))
  {
    hide Str, FrameHeader, SetupStart;
    var payload := new byte[ROOM];
    var pos := StartSetup(payload, host, port, flags);
    var n := WriteStr(payload, pos, vendor);
    if n.None? {
      return None;
    }
    pos := pos + n.value;
    n := WriteStr(payload, pos, hardware);
    if n.None? {
      return None;
    }
    pos := pos + n.value;
    n := WriteStr(payload, pos, firmware);
    if n.None? {
      return None;
    }
    pos := pos + n.value;
    n := WriteStr(payload, pos, device);
    if n.None? {
      return None;
    }
    pos := pos + n.value;
    assert payload[..pos] == SetupPayload(host, port, vendor, hardware, firmware, device, flags);
    total := Finish(buf, bufLen, payload, pos, 0, SETUP_CONNECTION);
  }

  /** max_target: all ones. */
  function AnyTarget(): Bytes { Repeat(0xFF, 32) }

  function OpenPayload(requestId: nat, user: Bytes, hashRate: nat, tail: Bytes): Bytes {
    Little(requestId, 4) + Str(user) + Little(hashRate, 4) + AnyTarget() + tail
  }

  /** Every field of a channel request is read back; what follows the target is the tail. */
  lemma OpenReadBack(requestId: nat, user: Bytes, hashRate: nat, tail: Bytes)
    requires requestId < TWO_32 && hashRate < TWO_32
    ensures var p := OpenPayload(requestId, user, hashRate, tail);
      var at := 4 + |Str(user)|;
      && LittleValue(p[0..4]) == requestId && StrRead(p, 4, user, at)
      && LittleValue(p[at..at + 4]) == hashRate
      && (forall i :: at + 4 <= i < at + 36 ==> p[i] == 0xFF) && p[at + 36..] == tail
  {
    hide Little, LittleValue, Str, StrRead;
    Widths();
    LittleRoundTrip(requestId, 4);
    LittleRoundTrip(hashRate, 4);
    var p, at := OpenPayload(requestId, user, hashRate, tail), 4 + |Str(user)|;
    var rest := Little(hashRate, 4) + AnyTarget() + tail;
    assert p == Little(requestId, 4) + Str(user) + rest;
    assert p[0..4] == Little(requestId, 4) && p[at..at + 4] == Little(hashRate, 4);
    assert p[at + 4..at + 36] == AnyTarget();
    StrStands(Little(requestId, 4), user, rest);
  }

  /** The common part of both channel requests; the hash rate is its 32-bit pattern. */
  method StartOpen(payload: array<byte>, requestId: nat, user: Bytes, hashRate: nat) returns (pos: nat)
    requires payload.Length == ROOM
    modifies payload
    ensures pos <= 296 && payload[..pos] == OpenPayload(requestId, user, hashRate, [])
  {
    hide Str, Little;
    PutLittle(payload, 0, requestId, 4);
    var n := WriteStr(payload, 4, user);
    pos := 4 + n.value;
    PutLittle(payload, pos, hashRate, 4);
    pos := pos + 4;
    PutBytes(payload, pos, AnyTarget());
    pos := pos + 32;
  }

  /** sv2_build_open_standard_mining_channel */
  method BuildOpenStandard(buf: array<byte>, bufLen: nat, requestId: nat, user: Bytes, hashRate: nat) returns (total: Option<nat>)
    requires bufLen <= buf.Length
    modifies buf
    ensures Built(old(buf[..]), buf[..], bufLen, total,
                  FrameOf(0, OPEN_STANDARD_MINING_CHANNEL, OpenPayload(requestId, user, hashRate, [])))
  {
    hide OpenPayload, FrameOf;
    var payload := new byte[ROOM];
    var pos := StartOpen(payload, requestId, user, hashRate);
    total := Finish(buf, bufLen, payload, pos, 0, OPEN_STANDARD_MINING_CHANNEL);
  }

  /** sv2_build_open_extended_mining_channel */
  method BuildOpenExtended(buf: array<byte>, bufLen: nat, requestId: nat, user: Bytes, hashRate: nat, extranonceSize: nat)
    returns (total: Option<nat>)
    requires bufLen <= buf.Length
    modifies buf
    ensures Built(old(buf[..]), buf[..], bufLen, total,
                  FrameOf(0, OPEN_EXTENDED_MINING_CHANNEL, OpenPayload(requestId, user, hashRate, Little(extranonceSize, 2))))
  {
    hide Little, FrameOf, Str;
    var payload := new byte[ROOM];
    var pos := StartOpen(payload, requestId, user, hashRate);
    PutLittle(payload, pos, extranonceSize, 2);
    assert payload[..pos + 2] == OpenPayload(requestId, user, hashRate, Little(extranonceSize, 2));
    total := Finish(buf, bufLen, payload, pos + 2, 0, OPEN_EXTENDED_MINING_CHANNEL);
  }

  datatype Share = Share(channelId: nat, sequenceNumber: nat, jobId: nat, nonce: nat, ntime: nat, version: nat)

  function SharePayload(s: Share): (p: Bytes)
    ensures |p| == 24
  {
    Little(s.channelId, 4) + Little(s.sequenceNumber, 4) + Little(s.jobId, 4) + Little(s.nonce, 4) + Little(s.ntime, 4)
      + Little(s.version, 4)
  }

  /** The six fields of a share, behind the header. */
  method PutShare(buf: array<byte>, s: Share)
    requires buf.Length >= Noise.HEADER + 24
    modifies buf
    ensures buf[..Noise.HEADER + 24] == old(buf[..Noise.HEADER]) + SharePayload(s)
    ensures forall k :: Noise.HEADER + 24 <= k < buf.Length ==> buf[k] == old(buf[k])
  {
    hide Little;
    ghost var front := buf[..Noise.HEADER];
    PutLittle(buf, Noise.HEADER, s.channelId, 4);
    PutLittle(buf, Noise.HEADER + 4, s.sequenceNumber, 4);
    PutLittle(buf, Noise.HEADER + 8, s.jobId, 4);
    assert buf[..Noise.HEADER + 12] == front + (Little(s.channelId, 4) + Little(s.sequenceNumber, 4) + Little(s.jobId, 4));
    PutLittle(buf, Noise.HEADER + 12, s.nonce, 4);
    PutLittle(buf, Noise.HEADER + 16, s.ntime, 4);
    PutLittle(buf, Noise.HEADER + 20, s.version, 4);
  }

  /** sv2_build_submit_shares_standard */
  method BuildSubmitStandard(buf: array<byte>, bufLen: nat, s: Share) returns (total: Option<nat>)
    requires bufLen <= buf.Length
    modifies buf
    ensures Built(old(buf[..]), buf[..], bufLen, total, FrameOf(CHANNEL_MSG_FLAG, SUBMIT_SHARES_STANDARD, SharePayload(s)))
  {
    hide SharePayload, FrameHeader;
    if Noise.HEADER + 24 > bufLen {
      return None;
    }
    EncodeFrameHeader(buf, CHANNEL_MSG_FLAG, SUBMIT_SHARES_STANDARD, 24);
    PutShare(buf, s);
    total := Some(Noise.HEADER + 24);
  }

  /** sv2_build_submit_shares_extended */
  method BuildSubmitExtended(buf: array<byte>, bufLen: nat, s: Share, extranonce: Bytes) returns (total: Option<nat>)
    requires bufLen <= buf.Length && |extranonce| <= 255
    modifies buf
    ensures Built(old(buf[..]), buf[..], bufLen, total,
                  FrameOf(CHANNEL_MSG_FLAG, SUBMIT_SHARES_EXTENDED, SharePayload(s) + [|extranonce|] + extranonce))
  {
    hide SharePayload, FrameHeader;
    var length := 24 + 1 + |extranonce|;
    if Noise.HEADER + length > bufLen {
      return None;
    }
    EncodeFrameHeader(buf, CHANNEL_MSG_FLAG, SUBMIT_SHARES_EXTENDED, length);
    PutShare(buf, s);
    buf[Noise.HEADER + 24] := |extranonce|;
    PutBytes(buf, Noise.HEADER + 25, extranonce);
    assert buf[..Noise.HEADER + length]
      == FrameOf(CHANNEL_MSG_FLAG, SUBMIT_SHARES_EXTENDED, SharePayload(s) + [|extranonce|] + extranonce);
    total := Some(Noise.HEADER + length);
  }

  /** Different shares make different payloads. */
  lemma ShareRoundTrip(s: Share, tail: Bytes)
    requires s.channelId < TWO_32 && s.sequenceNumber < TWO_32 && s.jobId < TWO_32
    requires s.nonce < TWO_32 && s.ntime < TWO_32 && s.version < TWO_32
    ensures var p := SharePayload(s) + tail;
      Share(LittleValue(p[0..4]), LittleValue(p[4..8]), LittleValue(p[8..12]), LittleValue(p[12..16]),
            LittleValue(p[16..20]), LittleValue(p[20..24])) == s
  {
    hide Little, LittleValue;
    Widths();
    LittleRoundTrip(s.channelId, 4);
    LittleRoundTrip(s.sequenceNumber, 4);
    LittleRoundTrip(s.jobId, 4);
    LittleRoundTrip(s.nonce, 4);
    LittleRoundTrip(s.ntime, 4);
    LittleRoundTrip(s.version, 4);
    var p := SharePayload(s) + tail;
    assert p[0..4] == Little(s.channelId, 4) && p[4..8] == Little(s.sequenceNumber, 4) && p[8..12] == Little(s.jobId, 4);
    assert p[12..16] == Little(s.nonce, 4) && p[16..20] == Little(s.ntime, 4) && p[20..24] == Little(s.version, 4);
  }

  // ---------- extended jobs ----------

  /** sv2_ext_job_t as far as the parser fills it; ntime is min_ntime or 0, clean_jobs whether there is one. */
  datatype ExtJob = ExtJob(channelId: nat, jobId: nat, minNtime: Option<nat>, version: nat, rolling: bool,
                           path: seq<Bytes>, prefix: Bytes, suffix: Bytes)

  /** A B0_64K string: the text and the position behind it. */
  function Blob(p: Bytes, at: nat): (r: Option<(Bytes, nat)>)
    ensures r.Some? ==> r.value.1 == at + 2 + |r.value.0| <= |p|
  {
    if at + 2 > |p| then None
    else
      var n := LittleValue(p[at..at + 2]);
      if at + 2 + n > |p| then None else Some((p[at + 2..at + 2 + n], at + 2 + n))
  }

  function EncodeBlob(b: Bytes): (e: Bytes)
    ensures |e| == 2 + |b|
  {
    Little(|b|, 2) + b
  }

  lemma BlobExact(p: Bytes, at: nat, b: Bytes)
    ensures Blob(p, at) == Some((b, at + 2 + |b|)) <==> |b| < 0x1_0000 && At(p, at, EncodeBlob(b))
  {
    hide Little, LittleValue;
    Widths();
    FieldAt(p, at, |b|, 2);
    if At(p, at, EncodeBlob(b)) {
      AtSplit(p, at, Little(|b|, 2), b);
    }
    if Blob(p, at) == Some((b, at + 2 + |b|)) {
      AtJoin(p, at, Little(|b|, 2), b);
    }
  }

  /** One branch of the Merkle path. */
  predicate Branch(b: Bytes) { |b| == 32 }

  predicate ValidPath(path: seq<Bytes>) {
    |path| <= MAX_BRANCHES && forall i :: 0 <= i < |path| ==> Branch(path[i])
  }

  /** n branches from a position on. */
  function Branches(p: Bytes, at: nat, n: nat): (r: seq<Bytes>)
    requires at + 32 * n <= |p|
    ensures |r| == n && forall i :: 0 <= i < n ==> Branch(r[i])
    decreases n
  {
    if n == 0 then [] else Branches(p, at, n - 1) + [p[at + 32 * (n - 1)..at + 32 * n]]
  }

  function EncodeBranches(path: seq<Bytes>): (e: Bytes)
    requires forall i :: 0 <= i < |path| ==> Branch(path[i])
    ensures |e| == 32 * |path|
    decreases |path|
  {
    if path == [] then []
    else
      assert Branch(path[|path| - 1]);
      EncodeBranches(path[..|path| - 1]) + path[|path| - 1]
  }

  lemma {:induction false} BranchesExact(p: Bytes, at: nat, path: seq<Bytes>)
    requires at + 32 * |path| <= |p| && forall i :: 0 <= i < |path| ==> Branch(path[i])
    ensures Branches(p, at, |path|) == path <==> At(p, at, EncodeBranches(path))
    decreases |path|
  {
    if path == [] {
      PieceAt(p, at, []);
    } else {
      var n := |path| - 1;
      var front, last := path[..n], path[n];
      assert EncodeBranches(path) == EncodeBranches(front) + last && Branch(last);
      LastBranch(p, at, front, last);
      assert path == front + [last];
      hide *;
      BranchesExact(p, at, front);
    }
  }

  lemma LastBranch(p: Bytes, at: nat, front: seq<Bytes>, last: Bytes)
    requires at + 32 * (|front| + 1) <= |p| && Branch(last) && forall i :: 0 <= i < |front| ==> Branch(front[i])
    ensures Branches(p, at, |front + [last]|) == front + [last]
      <==> Branches(p, at, |front|) == front && At(p, at + 32 * |front|, last)
    ensures At(p, at, EncodeBranches(front) + last)
      <==> At(p, at, EncodeBranches(front)) && At(p, at + 32 * |front|, last)
  {
    hide At, EncodeBranches;
    var n, first := |front|, EncodeBranches(front);
    var read := Branches(p, at, n);
    PieceAt(p, at + 32 * n, last);
    assert Branches(p, at, n + 1) == read + [p[at + 32 * n..at + 32 * n + 32]];
    assert (read + [p[at + 32 * n..at + 32 * n + 32]])[..n] == read && (front + [last])[..n] == front;
    if At(p, at, first + last) {
      AtSplit(p, at, first, last);
    }
    if At(p, at, first) && At(p, at + 32 * n, last) {
      AtJoin(p, at, first, last);
    }
  }

  /** SEQ0_255 of branches, at most 20 of them. */
  function Path(p: Bytes, at: nat): (r: Option<(seq<Bytes>, nat)>)
    ensures r.Some? ==> ValidPath(r.value.0) && r.value.1 == at + 1 + 32 * |r.value.0| <= |p|
  {
    if at + 1 > |p| then None
    else
      var n: nat := p[at];
      if n > MAX_BRANCHES || at + 1 + 32 * n > |p| then None
      else Some((Branches(p, at + 1, n), at + 1 + 32 * n))
  }

  function EncodePath(path: seq<Bytes>): (e: Bytes)
    requires ValidPath(path)
    ensures |e| == 1 + 32 * |path|
  {
    [|path|] + EncodeBranches(path)
  }

  lemma PathExact(p: Bytes, at: nat, path: seq<Bytes>)
    requires ValidPath(path)
    ensures Path(p, at) == Some((path, at + 1 + 32 * |path|)) <==> At(p, at, EncodePath(path))
  {
    hide Branches, EncodeBranches;
    if At(p, at, EncodePath(path)) {
      AtSplit(p, at, [|path|], EncodeBranches(path));
      assert p[at] == p[at..at + 1][0];
      BranchesExact(p, at + 1, path);
    }
    if Path(p, at) == Some((path, at + 1 + 32 * |path|)) {
      assert p[at] == |path|;
      BranchesExact(p, at + 1, path);
      AtJoin(p, at, [|path|], EncodeBranches(path));
    }
  }

  // ---------- whole extended jobs ----------

  /**
   What stands before the Merkle path: identifiers, optional time, version, rolling flag. All
   of it lies within the 19 bytes that are demanded first.
   */
  function Front(p: Bytes): (r: Option<(ExtJob, nat)>)
    ensures r.Some? ==> r.value.1 <= |p|
  {
    if |p| < 19 then None
    else
      var at := if p[8] == 1 then 13 else 9;
      Some((ExtJob(LittleValue(p[0..4]), LittleValue(p[4..8]),
                        if p[8] == 1 then Some(LittleValue(p[9..13])) else None,
                        LittleValue(p[at..at + 4]), p[at + 4] != 0, [], [], []), at + 5))
  }

  /** sv2_parse_new_extended_mining_job; None is NULL. */
  function ParseJob(p: Bytes): Option<ExtJob> {
    match Front(p)
    case None => None
    case Some((front, at1)) =>
      match Path(p, at1)
      case None => None
      case Some((path, at2)) =>
        match Blob(p, at2)
        case None => None
        case Some((prefix, at3)) =>
          match Blob(p, at3)
          case None => None
          case Some((suffix, _)) => Some(front.(path := path, prefix := prefix, suffix := suffix))
  }

  predicate ValidFront(j: ExtJob) {
    j.channelId < TWO_32 && j.jobId < TWO_32 && j.version < TWO_32 && (j.minNtime.Some? ==> j.minNtime.value < TWO_32)
  }

  predicate ValidJob(j: ExtJob) {
    ValidFront(j) && ValidPath(j.path) && |j.prefix| < 0x1_0000 && |j.suffix| < 0x1_0000
  }

  /** The option byte is 1 exactly if there is a time; any nonzero byte allows rolling. */
  predicate Flags(j: ExtJob, option: byte, roll: byte) {
    (option == 1 <==> j.minNtime.Some?) && (roll != 0 <==> j.rolling)
  }

  function OptionBytes(j: ExtJob): (e: Bytes)
    ensures |e| == if j.minNtime.Some? then 4 else 0
  {
    if j.minNtime.Some? then Little(j.minNtime.value, 4) else []
  }

  function EncodeFront(j: ExtJob, option: byte, roll: byte): (e: Bytes)
    ensures |e| == if j.minNtime.Some? then 18 else 14
  {
    Little(j.channelId, 4) + (Little(j.jobId, 4) + ([option] + (OptionBytes(j) + (Little(j.version, 4) + [roll]))))
  }

  function EncodeJob(j: ExtJob, option: byte, roll: byte): Bytes
    requires ValidJob(j)
  {
    EncodeFront(j, option, roll) + (EncodePath(j.path) + (EncodeBlob(j.prefix) + EncodeBlob(j.suffix)))
  }

  /** Where the rolling flag stands. */
  function RollAt(j: ExtJob): nat {
    if j.minNtime.Some? then 17 else 13
  }

  lemma FrontSound(p: Bytes, j: ExtJob, at: nat)
    requires Front(p) == Some((j, at))
    ensures ValidFront(j) && at == RollAt(j) + 1 && Flags(j, p[8], p[RollAt(j)]) && At(p, 0, EncodeFront(j, p[8], p[RollAt(j)]))
  {
    hide LittleValue, Little;
    Widths();
    var option, roll := p[8], p[RollAt(j)];
    var v := RollAt(j) - 4;
    FieldAt(p, 0, j.channelId, 4);
    FieldAt(p, 4, j.jobId, 4);
    FieldAt(p, v, j.version, 4);
    if j.minNtime.Some? {
      FieldAt(p, 9, j.minNtime.value, 4);
    }
    assert At(p, 9, OptionBytes(j)) && At(p, 8, [option]) && At(p, v + 4, [roll]);
    FrontJoined(p, j, option, roll);
  }

  lemma FrontJoined(p: Bytes, j: ExtJob, option: byte, roll: byte)
    requires At(p, 0, Little(j.channelId, 4)) && At(p, 4, Little(j.jobId, 4)) && At(p, 8, [option]) && At(p, 9, OptionBytes(j))
    requires At(p, RollAt(j) - 4, Little(j.version, 4)) && At(p, RollAt(j), [roll])
    ensures At(p, 0, EncodeFront(j, option, roll))
  {
    hide Little, At;
    var last := Little(j.version, 4) + [roll];
    AtJoin(p, RollAt(j) - 4, Little(j.version, 4), [roll]);
    AtJoin(p, 9, OptionBytes(j), last);
    AtJoin(p, 8, [option], OptionBytes(j) + last);
    AtJoin(p, 4, Little(j.jobId, 4), [option] + (OptionBytes(j) + last));
    AtJoin(p, 0, Little(j.channelId, 4), Little(j.jobId, 4) + ([option] + (OptionBytes(j) + last)));
  }

  lemma FrontComplete(p: Bytes, j: ExtJob, option: byte, roll: byte)
    requires |p| >= 19 && ValidFront(j) && Flags(j, option, roll) && At(p, 0, EncodeFront(j, option, roll))
    ensures Front(p) == Some((j.(path := [], prefix := [], suffix := []), RollAt(j) + 1))
    ensures p[8] == option && p[RollAt(j)] == roll
  {
    hide LittleValue, Little;
    Widths();
    var v := RollAt(j) - 4;
    AtSplit(p, 0, Little(j.channelId, 4), Little(j.jobId, 4) + ([option] + (OptionBytes(j) + (Little(j.version, 4) + [roll]))));
    AtSplit(p, 4, Little(j.jobId, 4), [option] + (OptionBytes(j) + (Little(j.version, 4) + [roll])));
    AtSplit(p, 8, [option], OptionBytes(j) + (Little(j.version, 4) + [roll]));
    AtSplit(p, 9, OptionBytes(j), Little(j.version, 4) + [roll]);
    AtSplit(p, v, Little(j.version, 4), [roll]);
    assert p[8] == p[8..9][0] && p[v + 4] == p[v + 4..v + 5][0];
    FieldAt(p, 0, j.channelId, 4);
    FieldAt(p, 4, j.jobId, 4);
    FieldAt(p, v, j.version, 4);
    if j.minNtime.Some? {
      FieldAt(p, 9, j.minNtime.value, 4);
    }
  }

  /** Whatever the parser makes of a payload, the payload begins with the encoding of it. */
  lemma ParseSound(p: Bytes, j: ExtJob)
    requires ParseJob(p) == Some(j)
    ensures ValidJob(j) && RollAt(j) < |p| && 8 < |p|
    ensures Flags(j, p[8], p[RollAt(j)]) && At(p, 0, EncodeJob(j, p[8], p[RollAt(j)]))
  {
    hide Front, Path, Blob, EncodeFront, EncodePath, EncodeBlob, At;
    var (front, at1) := Front(p).value;
    FrontSound(p, front, at1);
    var at2 := at1 + 1 + 32 * |j.path|;
    var at3 := at2 + 2 + |j.prefix|;
    PathExact(p, at1, j.path);
    BlobExact(p, at2, j.prefix);
    BlobExact(p, at3, j.suffix);
    SameFront(front, j, p[8], p[RollAt(j)]);
    AtJoin(p, at2, EncodeBlob(j.prefix), EncodeBlob(j.suffix));
    AtJoin(p, at1, EncodePath(j.path), EncodeBlob(j.prefix) + EncodeBlob(j.suffix));
    AtJoin(p, 0, EncodeFront(j, p[8], p[RollAt(j)]), EncodePath(j.path) + (EncodeBlob(j.prefix) + EncodeBlob(j.suffix)));
  }

  lemma SameFront(a: ExtJob, b: ExtJob, option: byte, roll: byte)
    requires a.(path := b.path, prefix := b.prefix, suffix := b.suffix) == b
    ensures EncodeFront(a, option, roll) == EncodeFront(b, option, roll) && RollAt(a) == RollAt(b)
  {
  }

  /** The parser inverts the encoder, for every job within its limits and whatever follows it. */
  lemma ParseInverts(p: Bytes, j: ExtJob, option: byte, roll: byte)
    requires ValidJob(j) && Flags(j, option, roll) && At(p, 0, EncodeJob(j, option, roll))
    ensures ParseJob(p) == Some(j)
    ensures |p| >= 19 && p[8] == option && p[RollAt(j)] == roll
  {
    hide Front, Path, Blob, EncodeFront, EncodePath, EncodeBlob;
    var front := EncodeFront(j, option, roll);
    AtSplit(p, 0, front, EncodePath(j.path) + (EncodeBlob(j.prefix) + EncodeBlob(j.suffix)));
    AtSplit(p, |front|, EncodePath(j.path), EncodeBlob(j.prefix) + EncodeBlob(j.suffix));
    var at2 := |front| + 1 + 32 * |j.path|;
    AtSplit(p, at2, EncodeBlob(j.prefix), EncodeBlob(j.suffix));
    FrontComplete(p, j, option, roll);
    PathExact(p, |front|, j.path);
    BlobExact(p, at2, j.prefix);
    BlobExact(p, at2 + 2 + |j.prefix|, j.suffix);
  }

  /**
   The parser returns a job exactly for the payloads that begin with an encoding of that job:
   the option byte 1 for a time and any other byte for none, any nonzero byte for a true flag.
   */
  lemma ParseExact(p: Bytes, j: ExtJob)
    ensures ParseJob(p) == Some(j) <==>
      && |p| >= 19 && ValidJob(j) && Flags(j, p[8], p[RollAt(j)])
      && At(p, 0, EncodeJob(j, p[8], p[RollAt(j)]))
  {
    hide ParseJob, EncodeJob, Flags, At;
    if ParseJob(p) == Some(j) {
      ParseSound(p, j);
      ParseInverts(p, j, p[8], p[RollAt(j)]);
    }
    if |p| >= 19 && ValidJob(j) && Flags(j, p[8], p[RollAt(j)]) && At(p, 0, EncodeJob(j, p[8], p[RollAt(j)])) {
      ParseInverts(p, j, p[8], p[RollAt(j)]);
    }
  }

  /** Where every field of an extended job is read from. */
  lemma JobParts(p: Bytes)
    requires ParseJob(p).Some?
    ensures |p| >= 19
    ensures var j, at := ParseJob(p).value, if p[8] == 1 then 13 else 9;
      var prefixAt := at + 6 + 32 * |j.path|;
      var suffixAt := prefixAt + 2 + |j.prefix|;
      && suffixAt + 2 + |j.suffix| <= |p|
      && j.channelId == LittleValue(p[0..4]) && j.jobId == LittleValue(p[4..8])
      && j.minNtime == (if p[8] == 1 then Some(LittleValue(p[9..13])) else None)
      && j.version == LittleValue(p[at..at + 4]) && (j.rolling <==> p[at + 4] != 0)
      && |j.path| == p[at + 5] && (forall i :: 0 <= i < |j.path| ==> j.path[i] == p[at + 6 + 32 * i..at + 38 + 32 * i])
      && |j.prefix| == LittleValue(p[prefixAt..prefixAt + 2]) && j.prefix == p[prefixAt + 2..suffixAt]
      && |j.suffix| == LittleValue(p[suffixAt..suffixAt + 2]) && j.suffix == p[suffixAt + 2..suffixAt + 2 + |j.suffix|]
  {
    hide LittleValue, Branches;
    var at := if p[8] == 1 then 13 else 9;
    BranchesAt(p, at + 6, |ParseJob(p).value.path|);
  }

  lemma {:induction false} BranchesAt(p: Bytes, at: nat, n: nat)
    requires at + 32 * n <= |p|
    ensures forall i :: 0 <= i < n ==> Branches(p, at, n)[i] == p[at + 32 * i..at + 32 * i + 32]
    decreases n
  {
    if n > 0 {
      BranchesAt(p, at, n - 1);
    }
  }

  /** sv2_parse_new_extended_mining_job: nothing beyond the payload is read. */
  method ParseNewExtendedMiningJob(p: Bytes) returns (job: Option<ExtJob>)
    ensures job == ParseJob(p)
  {
    hide LittleValue, Branches;
    if |p| < 19 {
      return None;
    }
    var channelId := ReadLittle(p, 0, 4);
    var jobId := ReadLittle(p, 4, 4);
    var pos, minNtime := 9, None;
    if p[8] == 1 {
      if pos + 4 > |p| {
        return None;
      }
      var time := ReadLittle(p, 9, 4);
      minNtime := Some(time);
      pos := 13;
    }
    if pos + 4 + 1 > |p| {
      return None;
    }
    var version := ReadLittle(p, pos, 4);
    var rolling := p[pos + 4] != 0;
    pos := pos + 5;
    ghost var front := Front(p).value;
    assert Front(p) == Some((ExtJob(channelId, jobId, minNtime, version, rolling, [], [], []), pos));
    if pos + 1 > |p| {
      return None;
    }
    var count: nat := p[pos];
    if count > MAX_BRANCHES || pos + 1 + count * 32 > |p| {
      return None;
    }
    var path := ReadBranches(p, pos + 1, count);
    pos := pos + 1 + 32 * count;
    var prefix := ReadBlob(p, pos);
    if prefix.None? {
      return None;
    }
    pos := pos + 2 + |prefix.value|;
    var suffix := ReadBlob(p, pos);
    if suffix.None? {
      return None;
    }
    job := Some(ExtJob(channelId, jobId, minNtime, version, rolling, path, prefix.value, suffix.value));
  }

  method ReadBranches(p: Bytes, at: nat, n: nat) returns (path: seq<Bytes>)
    requires at + 32 * n <= |p|
    ensures path == Branches(p, at, n)
  {
    path := [];
    var i, pos := 0, at;
    while i < n
      invariant 0 <= i <= n && pos == at + 32 * i && path == Branches(p, at, i)
    {
      path := path + [p[pos..pos + 32]];
      pos := pos + 32;
      i := i + 1;
    }
  }

  method ReadBlob(p: Bytes, at: nat) returns (b: Option<Bytes>)
    ensures b == match Blob(p, at) case None => None case Some((text, _)) => Some(text)
  {
    hide LittleValue;
    if at + 2 > |p| {
      return None;
    }
    var n := ReadLittle(p, at, 2);
    if at + 2 + n > |p| {
      return None;
    }
    b := Some(p[at + 2..at + 2 + n]);
  }

  // ---------- other payloads ----------

  /** NewMiningJob of a standard channel. */
  datatype MiningJob = MiningJob(channelId: nat, jobId: nat, minNtime: Option<nat>, version: nat, merkleRoot: Bytes)

  function EncodeMiningJob(j: MiningJob, option: byte): Bytes {
    Little(j.channelId, 4) + (Little(j.jobId, 4) + ([option] +
      ((if j.minNtime.Some? then Little(j.minNtime.value, 4) else []) + (Little(j.version, 4) + j.merkleRoot))))
  }

  predicate ValidMiningJob(j: MiningJob) {
    && j.channelId < TWO_32 && j.jobId < TWO_32 && j.version < TWO_32 && |j.merkleRoot| == 32
    && (j.minNtime.Some? ==> j.minNtime.value < TWO_32)
  }

  function MiningJobOf(p: Bytes): Option<MiningJob> {
    if |p| < 45 || (p[8] == 1 && |p| < 49) then None
    else
      var at := if p[8] == 1 then 13 else 9;
      Some(MiningJob(LittleValue(p[0..4]), LittleValue(p[4..8]), if p[8] == 1 then Some(LittleValue(p[9..13])) else None,
                     LittleValue(p[at..at + 4]), p[at + 4..at + 36]))
  }

  /** sv2_parse_new_mining_job; None is -1. */
  method ParseNewMiningJob(p: Bytes) returns (job: Option<MiningJob>)
    ensures job == MiningJobOf(p)
    ensures job.Some? ==>
      && job.value.channelId == LittleValue(p[0..4]) && job.value.jobId == LittleValue(p[4..8])
      && (job.value.minNtime.Some? <==> p[8] == 1)
      && var at := if p[8] == 1 then 13 else 9;
      && (p[8] == 1 ==> job.value.minNtime.value == LittleValue(p[9..13]))
      && job.value.version == LittleValue(p[at..at + 4]) && job.value.merkleRoot == p[at + 4..at + 36]
  {
    hide LittleValue;
    if |p| < 45 {
      return None;
    }
    var channelId := ReadLittle(p, 0, 4);
    var jobId := ReadLittle(p, 4, 4);
    var pos, minNtime := 9, None;
    if p[8] == 1 {
      if |p| < 49 {
        return None;
      }
      var time := ReadLittle(p, 9, 4);
      minNtime := Some(time);
      pos := 13;
    }
    var version := ReadLittle(p, pos, 4);
    pos := pos + 4;
    job := Some(MiningJob(channelId, jobId, minNtime, version, p[pos..pos + 32]));
  }

  lemma MiningJobSound(p: Bytes, j: MiningJob)
    requires MiningJobOf(p) == Some(j)
    ensures ValidMiningJob(j) && (p[8] == 1 <==> j.minNtime.Some?) && At(p, 0, EncodeMiningJob(j, p[8]))
  {
    hide LittleValue, Little, At;
    Widths();
    var option, time := p[8], if j.minNtime.Some? then Little(j.minNtime.value, 4) else [];
    var v := 9 + |time|;
    var last := Little(j.version, 4) + j.merkleRoot;
    FieldAt(p, 0, j.channelId, 4);
    FieldAt(p, 4, j.jobId, 4);
    FieldAt(p, v, j.version, 4);
    if j.minNtime.Some? {
      FieldAt(p, 9, j.minNtime.value, 4);
    }
    PieceAt(p, v + 4, j.merkleRoot);
    PieceAt(p, 8, [option]);
    PieceAt(p, 9, []);
    AtJoin(p, v, Little(j.version, 4), j.merkleRoot);
    AtJoin(p, 9, time, last);
    AtJoin(p, 8, [option], time + last);
    AtJoin(p, 4, Little(j.jobId, 4), [option] + (time + last));
    AtJoin(p, 0, Little(j.channelId, 4), Little(j.jobId, 4) + ([option] + (time + last)));
  }

  lemma MiningJobComplete(p: Bytes, j: MiningJob)
    requires |p| >= 45 && ValidMiningJob(j) && (p[8] == 1 <==> j.minNtime.Some?) && At(p, 0, EncodeMiningJob(j, p[8]))
    ensures MiningJobOf(p) == Some(j)
  {
    hide LittleValue, Little, At;
    Widths();
    var option, time := p[8], if j.minNtime.Some? then Little(j.minNtime.value, 4) else [];
    var v := 9 + |time|;
    var last := Little(j.version, 4) + j.merkleRoot;
    AtSplit(p, 0, Little(j.channelId, 4), Little(j.jobId, 4) + ([option] + (time + last)));
    AtSplit(p, 4, Little(j.jobId, 4), [option] + (time + last));
    AtSplit(p, 8, [option], time + last);
    AtSplit(p, 9, time, last);
    AtSplit(p, v, Little(j.version, 4), j.merkleRoot);
    PieceAt(p, v + 4, j.merkleRoot);
    FieldAt(p, 0, j.channelId, 4);
    FieldAt(p, 4, j.jobId, 4);
    FieldAt(p, v, j.version, 4);
    if j.minNtime.Some? {
      FieldAt(p, 9, j.minNtime.value, 4);
    }
  }

  /** Again the parser returns a job exactly for the payloads that begin with its encoding. */
  lemma MiningJobExact(p: Bytes, j: MiningJob)
    ensures MiningJobOf(p) == Some(j) <==>
      && |p| >= 45 && ValidMiningJob(j) && (p[8] == 1 <==> j.minNtime.Some?) && At(p, 0, EncodeMiningJob(j, p[8]))
  {
    hide EncodeMiningJob, At, ValidMiningJob;
    if MiningJobOf(p) == Some(j) {
      MiningJobSound(p, j);
    }
    if |p| >= 45 && ValidMiningJob(j) && (p[8] == 1 <==> j.minNtime.Some?) && At(p, 0, EncodeMiningJob(j, p[8])) {
      MiningJobComplete(p, j);
    }
  }

  lemma PieceAt(p: Bytes, at: nat, piece: Bytes)
    ensures At(p, at, piece) <==> at + |piece| <= |p| && p[at..at + |piece|] == piece
  {
  }

  /** OpenExtendedMiningChannel.Success */
  datatype Opened = Opened(requestId: nat, channelId: nat, target: Bytes, extranonceSize: nat, prefix: Bytes, group: nat)

  predicate ValidOpened(o: Opened) {
    && o.requestId < TWO_32 && o.channelId < TWO_32 && |o.target| == 32 && o.extranonceSize < 0x1_0000
    && |o.prefix| <= 32 && o.group < TWO_32
  }

  function EncodeOpened(o: Opened): Bytes
    requires |o.prefix| < 256
  {
    Little(o.requestId, 4) + (Little(o.channelId, 4) + (o.target + (Little(o.extranonceSize, 2) +
      ([|o.prefix|] + (o.prefix + Little(o.group, 4))))))
  }

  function OpenedOf(p: Bytes): Option<Opened> {
    if |p| < 47 then None
    else
      var n: nat := p[42];
      if n > 32 || 43 + n + 4 > |p| then None
      else Some(Opened(LittleValue(p[0..4]), LittleValue(p[4..8]), p[8..40], LittleValue(p[40..42]), p[43..43 + n],
                       LittleValue(p[43 + n..47 + n])))
  }

  /** sv2_parse_open_extended_channel_success; None is -1. */
  method ParseOpenExtendedSuccess(p: Bytes) returns (o: Option<Opened>)
    ensures o == OpenedOf(p)
    ensures o.Some? ==>
      && o.value.requestId == LittleValue(p[0..4]) && o.value.channelId == LittleValue(p[4..8]) && o.value.target == p[8..40]
  {
    hide LittleValue;
    if |p| < 47 {
      return None;
    }
    var requestId := ReadLittle(p, 0, 4);
    var channelId := ReadLittle(p, 4, 4);
    var size := ReadLittle(p, 40, 2);
    var n: nat := p[42];
    if n > 32 || 43 + n + 4 > |p| {
      return None;
    }
    var group := ReadLittle(p, 43 + n, 4);
    o := Some(Opened(requestId, channelId, p[8..40], size, p[43..43 + n], group));
  }

  lemma OpenedSound(p: Bytes, o: Opened)
    requires OpenedOf(p) == Some(o)
    ensures ValidOpened(o) && At(p, 0, EncodeOpened(o))
  {
    hide LittleValue, Little, At;
    Widths();
    var n := |o.prefix|;
    FieldAt(p, 0, o.requestId, 4);
    FieldAt(p, 4, o.channelId, 4);
    PieceAt(p, 8, o.target);
    FieldAt(p, 40, o.extranonceSize, 2);
    PieceAt(p, 42, [n]);
    PieceAt(p, 43, o.prefix);
    FieldAt(p, 43 + n, o.group, 4);
    var e1 := o.prefix + Little(o.group, 4);
    AtJoin(p, 43, o.prefix, Little(o.group, 4));
    AtJoin(p, 42, [n], e1);
    AtJoin(p, 40, Little(o.extranonceSize, 2), [n] + e1);
    AtJoin(p, 8, o.target, Little(o.extranonceSize, 2) + ([n] + e1));
    AtJoin(p, 4, Little(o.channelId, 4), o.target + (Little(o.extranonceSize, 2) + ([n] + e1)));
    AtJoin(p, 0, Little(o.requestId, 4), Little(o.channelId, 4) + (o.target + (Little(o.extranonceSize, 2) + ([n] + e1))));
  }

  lemma OpenedComplete(p: Bytes, o: Opened)
    requires ValidOpened(o) && At(p, 0, EncodeOpened(o))
    ensures OpenedOf(p) == Some(o)
  {
    hide LittleValue, Little, At;
    Widths();
    var n := |o.prefix|;
    var e1 := o.prefix + Little(o.group, 4);
    AtSplit(p, 0, Little(o.requestId, 4), Little(o.channelId, 4) + (o.target + (Little(o.extranonceSize, 2) + ([n] + e1))));
    AtSplit(p, 4, Little(o.channelId, 4), o.target + (Little(o.extranonceSize, 2) + ([n] + e1)));
    AtSplit(p, 8, o.target, Little(o.extranonceSize, 2) + ([n] + e1));
    AtSplit(p, 40, Little(o.extranonceSize, 2), [n] + e1);
    AtSplit(p, 42, [n], e1);
    AtSplit(p, 43, o.prefix, Little(o.group, 4));
    FieldAt(p, 0, o.requestId, 4);
    FieldAt(p, 4, o.channelId, 4);
    PieceAt(p, 8, o.target);
    FieldAt(p, 40, o.extranonceSize, 2);
    PieceAt(p, 42, [n]);
    assert p[42] == p[42..43][0];
    PieceAt(p, 43, o.prefix);
    FieldAt(p, 43 + n, o.group, 4);
  }

  /** The parser accepts exactly the payloads that begin with an encoding whose prefix is at most 32 bytes long. */
  lemma OpenedExact(p: Bytes, o: Opened)
    ensures OpenedOf(p) == Some(o) <==> ValidOpened(o) && At(p, 0, EncodeOpened(o))
  {
    hide OpenedOf, EncodeOpened, At;
    if OpenedOf(p) == Some(o) {
      OpenedSound(p, o);
    }
    if ValidOpened(o) && At(p, 0, EncodeOpened(o)) {
      OpenedComplete(p, o);
    }
  }
}