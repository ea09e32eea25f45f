/**
 The coinbase decoder (components/stratum/coinbase_decoder.c): a coinbase transaction that
 arrives in four pieces is read without being put together first.
 */
module Coinbase {
  import opened Digits
  import opened Options
  import opened Packing
  import Hex
  import opened MinerTag

  /** MAX_COINBASE_TX_OUTPUTS */
  const MAX_OUTPUTS: nat := 6

  // ---------- variable-length integers ----------

  /** How many bytes follow the marker. */
  function Extra(first: byte): nat {
    if first < 0xFD then 0 else if first == 0xFD then 2 else if first == 0xFE then 4 else 8
  }

  /** The value at a position and the position behind it; 0 and the end if it is cut off. */
  function Varint(data: Bytes, at: nat): (r: (nat, nat))
    ensures at <= |data| ==> at <= r.1 <= |data|
    ensures r.0 < TWO_64
  {
    if at >= |data| then (0, |data|)
    else if data[at] < 0xFD then (data[at], at + 1)
    else if at + 1 + Extra(data[at]) > |data| then (0, |data|)
    else
      var bytes := data[at + 1..at + 1 + Extra(data[at])];
      LittleBound(bytes);
      Widths();
      (LittleValue(bytes), at + 1 + |bytes|)
  }

  function EncodeVarint(n: nat): (s: Bytes)
    requires n < TWO_64
    ensures |s| >= 1
  {
    if n < 0xFD then [n]
    else if n < 0x1_0000 then [0xFD] + Little(n, 2)
    else if n < TWO_32 then [0xFE] + Little(n, 4)
    else [0xFF] + Little(n, 8)
  }

  /** An encoded integer is read back wherever it stands. */
  lemma VarintRoundTrip(data: Bytes, at: nat, n: nat)
    requires n < TWO_64 && At(data, at, EncodeVarint(n))
    ensures Varint(data, at) == (n, at + |EncodeVarint(n)|)
  {
    hide LittleValue, Little;
    var code := EncodeVarint(n);
    assert data[at] == data[at..at + |code|][0] == code[0];
    if n >= 0xFD {
      var width := if n < 0x1_0000 then 2 else if n < TWO_32 then 4 else 8;
      Widths();
      LittleRoundTrip(n, width);
      AtSplit(data, at, [code[0]], Little(n, width));
    }
  }

  /** The four forms of an integer; one that is cut off counts as 0 up to the end. */
  lemma VarintForms(data: Bytes, at: nat)
    requires at < |data|
    ensures data[at] < 0xFD ==> Varint(data, at) == (data[at], at + 1)
    ensures data[at] >= 0xFD ==>
      var next := at + (if data[at] == 0xFD then 3 else if data[at] == 0xFE then 5 else 9);
      Varint(data, at) == if next > |data| then (0, |data|) else (LittleValue(data[at + 1..next]), next)
  {
    hide LittleValue;
  }

  /** coinbase_decode_varint */
  method DecodeVarint(data: Bytes, offset: nat) returns (value: nat, next: nat)
    ensures (value, next) == Varint(data, offset)
  {
    if offset >= |data| {
      return 0, |data|;
    }
    var first := data[offset];
    next := offset + 1;
    if first < 0xFD {
      return first, next;
    }
    var extra := if first == 0xFD then 2 else if first == 0xFE then 4 else 8;
    if next + extra > |data| {
      return 0, |data|;
    }
    value := ReadLittle(data, next, extra);
    next := next + extra;
  }

  // ---------- outputs ----------

  datatype TxOut = TxOut(value: nat, script: Bytes)

  predicate ValidOut(o: TxOut) {
    o.value < TWO_64 && |o.script| < TWO_64
  }

  predicate ValidOuts(outs: seq<TxOut>) {
    |outs| < TWO_64 && forall i :: 0 <= i < |outs| ==> ValidOut(outs[i])
  }

  /** Sum of all values. */
  function Total(outs: seq<TxOut>): nat {
    if outs == [] then 0 else outs[0].value + Total(outs[1..])
  }

  function EncodeOut(o: TxOut): (s: Bytes)
    requires ValidOut(o)
    ensures |s| >= 9
  {
    Little(o.value, 8) + EncodeVarint(|o.script|) + o.script
  }

  function EncodeOuts(outs: seq<TxOut>): Bytes
    requires forall i :: 0 <= i < |outs| ==> ValidOut(outs[i])
  {
    if outs == [] then [] else EncodeOut(outs[0]) + EncodeOuts(outs[1..])
  }

  /**
   What the output loop makes of arbitrary bytes: the complete outputs, the value of one whose
   script is cut off, which is still counted, and the position where the loop gives up or ends.
   */
  datatype Parsed = Parsed(outs: seq<TxOut>, cutOff: nat, next: nat)

  function ParseOuts(data: Bytes, at: nat, n: nat): (p: Parsed)
    requires at <= |data|
    ensures at <= p.next <= |data| && |p.outs| <= n
    ensures 9 * |p.outs| + (if p.cutOff > 0 then 8 else 0) <= p.next - at
    ensures p.cutOff < TWO_64 && forall i :: 0 <= i < |p.outs| ==> p.outs[i].value < TWO_64
    decreases |data| - at
  {
    if n == 0 || at + 8 > |data| then Parsed([], 0, at)
    else
      var value := ValueAt(data, at);
      if at + 8 == |data| then Parsed([], value, at + 8)
      else
        var (length, from) := Varint(data, at + 8);
        if length > |data| - from then Parsed([], value, from)
        else
          var rest := ParseOuts(data, from + length, n - 1);
          Parsed([TxOut(value, data[from..from + length])] + rest.outs, rest.cutOff, rest.next)
  }

  /** A 64-bit value. */
  function ValueAt(data: Bytes, at: nat): (v: nat)
    requires at + 8 <= |data|
    ensures v < TWO_64
  {
    LittleBound(data[at..at + 8]);
    Widths();
    LittleValue(data[at..at + 8])
  }

  /** One well-formed output is read whole. */
  lemma ParseOne(data: Bytes, at: nat, o: TxOut, n: nat)
    requires ValidOut(o) && At(data, at, EncodeOut(o)) && n > 0
    ensures ParseOuts(data, at, n) ==
      var rest := ParseOuts(data, at + |EncodeOut(o)|, n - 1);
      Parsed([o] + rest.outs, rest.cutOff, rest.next)
  {
    hide LittleValue, Little, Varint, EncodeVarint;
    var value, length := Little(o.value, 8), EncodeVarint(|o.script|);
    AtSplit(data, at, value + length, o.script);
    AtSplit(data, at, value, length);
    Widths();
    LittleRoundTrip(o.value, 8);
    VarintRoundTrip(data, at + 8, |o.script|);
    assert TxOut(o.value, o.script) == o;
  }

  lemma ParseFirst(data: Bytes, at: nat, outs: seq<TxOut>)
    requires outs != [] && ValidOuts(outs) && At(data, at, EncodeOuts(outs))
    ensures var next := at + |EncodeOut(outs[0])|;
      && ValidOut(outs[0]) && ValidOuts(outs[1..]) && At(data, next, EncodeOuts(outs[1..]))
      && next + |EncodeOuts(outs[1..])| == at + |EncodeOuts(outs)|
      && ParseOuts(data, at, |outs|) ==
           var rest := ParseOuts(data, next, |outs[1..]|);
           Parsed([outs[0]] + rest.outs, rest.cutOff, rest.next)
  {
    hide EncodeOut, ParseOuts, At;
    AtSplit(data, at, EncodeOut(outs[0]), EncodeOuts(outs[1..]));
    ParseOne(data, at, outs[0], |outs|);
  }

  /** Any number of well-formed outputs is read back exactly, up to the byte behind the last. */
  lemma {:induction false} ParseInverts(data: Bytes, at: nat, outs: seq<TxOut>)
    requires at <= |data| && ValidOuts(outs) && At(data, at, EncodeOuts(outs))
    ensures ParseOuts(data, at, |outs|) == Parsed(outs, 0, at + |EncodeOuts(outs)|)
    decreases |outs|
  {
    hide *;
    if outs == [] {
      ParseNothing(data, at);
    } else {
      ParseFirst(data, at, outs);
      ParseInverts(data, at + |EncodeOut(outs[0])|, outs[1..]);
      assert [outs[0]] + outs[1..] == outs;
    }
  }

  lemma ParseNothing(data: Bytes, at: nat)
    requires at <= |data|
    ensures EncodeOuts([]) == [] && ParseOuts(data, at, 0) == Parsed([], 0, at)
  {
  }

  /** One turn of the loop, on arbitrary bytes. */
  lemma ParseTurn(data: Bytes, at: nat, n: nat)
    requires at <= |data|
    ensures n == 0 || at + 8 > |data| ==> ParseOuts(data, at, n) == Parsed([], 0, at)
    ensures n > 0 && at + 8 <= |data| ==>
      var value, (length, from) := ValueAt(data, at), Varint(data, at + 8);
      && (at + 8 == |data| ==> ParseOuts(data, at, n) == Parsed([], value, at + 8))
      && (at + 8 < |data| && length > |data| - from ==> ParseOuts(data, at, n) == Parsed([], value, from))
      && (at + 8 < |data| && length <= |data| - from ==>
           (var rest := ParseOuts(data, from + length, n - 1);
            ParseOuts(data, at, n) == Parsed([TxOut(value, data[from..from + length])] + rest.outs, rest.cutOff, rest.next)))
  {
    hide Varint, ValueAt;
  }

  // ---------- what is reported ----------

  datatype Shown = Shown(value: nat, address: string, mine: bool)

  /** The settings of one call: how scripts are written as addresses, and whose address counts. */
  datatype View = View(address: Bytes -> string, user: Option<string>, decode: bool)

  /** strncmp over the length of the output's address: it has to be a prefix of the user's. */
  predicate Mine(view: View, o: TxOut) {
    o.value > 0 && view.user.Some? && view.address(o.script) <= view.user.value
  }

  function Show(view: View, o: TxOut): Shown {
    Shown(o.value, view.address(o.script), Mine(view, o))
  }

  function Shows(view: View, outs: seq<TxOut>): (s: seq<Shown>)
    ensures |s| == |outs|
  {
    seq(|outs|, i requires 0 <= i < |outs| => Show(view, outs[i]))
  }

  /** The first outputs, as many as there are places for. */
  function First(outs: seq<TxOut>): (s: seq<TxOut>)
    ensures |s| <= MAX_OUTPUTS
  {
    if |outs| <= MAX_OUTPUTS then outs else outs[..MAX_OUTPUTS]
  }

  /** Sum of the values paid to the user. */
  function MineTotal(view: View, outs: seq<TxOut>): nat {
    if outs == [] then 0 else (if Mine(view, outs[0]) then outs[0].value else 0) + MineTotal(view, outs[1..])
  }

  lemma {:induction false} TotalSnoc(view: View, outs: seq<TxOut>, o: TxOut)
    ensures Total(outs + [o]) == Total(outs) + o.value
    ensures MineTotal(view, outs + [o]) == MineTotal(view, outs) + if Mine(view, o) then o.value else 0
  {
    if outs == [] {
      assert [o][1..] == [];
    } else {
      assert (outs + [o])[1..] == outs[1..] + [o];
      TotalSnoc(view, outs[1..], o);
    }
  }

  /** What the first piece says about the script-sig: its length, the height, and how much of it is not in the piece. */
  datatype Head = Head(sigLength: nat, heightLength: nat, height: nat, remainder: int)

  function ReadHead(c1: Bytes): (h: Option<Head>)
    ensures h.Some? ==> 43 <= |c1| / 2 && 1 <= h.value.heightLength <= 4 && h.value.sigLength < 256
  {
    var length, bytes := |c1| / 2, Hex.BinOf(c1);
    if length < 43 || bytes[42] == 0 || bytes[42] > 4 then None
    else Some(Head(bytes[41], bytes[42], LittleValue(Clip(bytes[43..], bytes[42])), bytes[41] + 42 - length))
  }

  /** Where the outputs' part starts in the last piece. */
  function Skip(remainder: int, extranonce1: nat, extranonce2: int): nat {
    if remainder > 0 && Less(remainder, extranonce1, extranonce2) > 0 then Less(remainder, extranonce1, extranonce2) else 0
  }

  datatype Summary = Summary(height: nat, total: nat, userTotal: nat, listed: seq<Shown>, bip54: bool, bip110: bool)

  /** The four bytes at a position, 0 if they are not all there. */
  function LockTime(data: Bytes, at: nat): nat {
    if at + 4 <= |data| then LittleValue(data[at..at + 4]) else 0
  }

  /** BIP-54: a lock time one below the height and a sequence that is not final. */
  predicate Bip54(view: View, height: nat, sequence: nat, lockTime: nat) {
    view.decode && lockTime == (height + TWO_32 - 1) % TWO_32 && sequence != TWO_32 - 1
  }

  /** BIP-110: version bit 4, until its expiry block. */
  predicate Bip110(view: View, height: nat, version: nat) {
    view.decode && height < 965664 && version / 16 % 2 == 1
  }

  /** The summary of parsed outputs. */
  function Report(view: View, version: nat, height: nat, sequence: nat, p: Parsed, lockTime: nat): Summary {
    Summary(height, (Total(p.outs) + p.cutOff) % TWO_64,
            (if view.decode then MineTotal(view, p.outs) else 0) % TWO_64,
            if view.decode then Shows(view, First(p.outs)) else [],
            Bip54(view, height, sequence, lockTime), Bip110(view, height, version))
  }

  /** Everything from the sequence number on. */
  function ReadRest(view: View, version: nat, height: nat, data: Bytes, at: nat): Option<Summary> {
    if at + 4 >= |data| then None
    else
      var (n, from) := Varint(data, at + 4);
      var p := ParseOuts(data, from, n);
      Some(Report(view, version, height, LockTime(data, at), p, LockTime(data, p.next)))
  }

  /** coinbase_process_notification, on hexadecimal texts; None is ESP_ERR_INVALID_ARG. */
  function Decode(view: View, version: nat, c1: Bytes, e1: nat, e2: int, c2: Bytes): Option<Summary> {
    match ReadHead(c1)
    case None => None
    case Some(head) => ReadRest(view, version, head.height, Clip(Hex.BinOf(c2), |c2| / 2), Skip(head.remainder, e1, e2))
  }

  // ---------- inside the bounds ----------

  /** Which of the two allocations succeed: the buffer for the tag, and the one for the last piece. */
  datatype Memory = Memory(tag: bool, last: bool)

  /** Lengths of texts as objects hold them, and any int the pool may have told. */
  predicate Told(c1: Bytes, e1: nat, e2: int, c2: Bytes) {
    |c1| <= MAX_TEXT && e1 <= MAX_TEXT && IsInt(e2) && |c2| <= MAX_TEXT
  }

  function LayoutOf(head: Head, c1: Bytes, e1: nat, e2: int, c2: Bytes): Layout {
    Layout(|c1|, |c2|, head.sigLength, head.heightLength, e1, e2)
  }

  /** The check offset + 4 > coinbase_2_len, in an int. */
  predicate SequenceRejected(start: nat, length: nat) {
    Int32(start + 4) > length
  }

  /** The sequence number is not read, or read inside the last piece. */
  predicate SequenceInside(start: nat, length: nat) {
    SequenceRejected(start, length) || start + 4 <= length
  }

  lemma SequenceExact(start: nat, length: nat)
    requires start <= INT_MAX && length <= MAX_TEXT / 2
    ensures SequenceInside(start, length) <==> start <= INT_MAX - 4
  {
  }

  /** The decoder stays inside its texts and buffers. */
  predicate Defined(c1: Bytes, e1: nat, e2: int, c2: Bytes, m: Memory) {
    var head := ReadHead(c1);
    head.Some? ==>
      && (m.tag ==> Inside(LayoutOf(head.value, c1, e1, e2, c2)))
      && (m.last ==> SequenceInside(Skip(head.value.remainder, e1, e2), |c2| / 2))
  }

  /** A difference that lands within four of the largest int. */
  predicate AtTheTop(n: int) {
    INT_MAX - 4 < Int32(n)
  }

  /**
   Exactly when: the first piece holds the height or nothing is left of the script-sig to copy,
   and the script-sig ends in the first piece or its remainder without the extranonces does not
   come near the largest int, where the check for the sequence number overflows.
   */
  lemma DefinedExact(c1: Bytes, e1: nat, e2: int, c2: Bytes, m: Memory)
    requires Told(c1, e1, e2, c2)
    ensures var head := ReadHead(c1);
      Defined(c1, e1, e2, c2, m) <==>
        head.Some? ==>
          && (m.tag ==> 43 + head.value.heightLength <= |c1| / 2 || TagLength(LayoutOf(head.value, c1, e1, e2, c2)) <= 0)
          && (m.last ==> head.value.remainder <= 0 || !AtTheTop(head.value.remainder - e1 - e2))
  {
    hide LittleValue, Inside, TagLength, SequenceInside, Less, Int32;
    var read := ReadHead(c1);
    if read.Some? {
      var head := read.value;
      InsideExact(LayoutOf(head, c1, e1, e2, c2));
      SequenceExact(Skip(head.remainder, e1, e2), |c2| / 2);
      LessIs(head.remainder, e1, e2);
    }
  }

  /** A first piece of 43 bytes, of which the last announces four bytes of height. */
  const CUT_OFF: Bytes := Repeat('5' as int, 84) + ['0' as int, '4' as int]

  lemma CutOffEscapes(e1: nat, e2: int, c2: Bytes, last: bool)
    requires Told(CUT_OFF, e1, e2, c2) && 0 < 80 - e1 - e2 <= INT_MAX
    ensures !Defined(CUT_OFF, e1, e2, c2, Memory(true, last))
  {
    hide LittleValue, Inside, Less;
    Hex.BinAt(CUT_OFF, 41);
    Hex.BinAt(CUT_OFF, 42);
    assert CUT_OFF[82] == CUT_OFF[83] == '5' as int && CUT_OFF[84] == '0' as int && CUT_OFF[85] == '4' as int;
    LessIs(80, e1, e2);
    InRange(80 - e1 - e2);
    DefinedExact(CUT_OFF, e1, e2, c2, Memory(true, last));
  }

  /** A first piece of 50 bytes that holds the whole height, with a script-sig of 11 bytes. */
  const HEIGHT_HELD: Bytes := Repeat('0' as int, 82) + ['0' as int, 'b' as int, '0' as int, '3' as int] + Repeat('0' as int, 14)

  /**
   With an extranonce of 4 bytes and the least int told as the length of the second, the sequence
   number is read at the largest int.
   */
  lemma LeastIntEscapes(c2: Bytes, tag: bool)
    requires |c2| <= MAX_TEXT
    ensures ReadHead(HEIGHT_HELD).Some? && 43 + ReadHead(HEIGHT_HELD).value.heightLength <= |HEIGHT_HELD| / 2
    ensures Skip(ReadHead(HEIGHT_HELD).value.remainder, 4, -INT_MAX - 1) == INT_MAX
    ensures !Defined(HEIGHT_HELD, 4, -INT_MAX - 1, c2, Memory(tag, true))
  {
    hide LittleValue, Inside;
    Hex.BinAt(HEIGHT_HELD, 41);
    Hex.BinAt(HEIGHT_HELD, 42);
    assert HEIGHT_HELD[82] == '0' as int && HEIGHT_HELD[83] == 'b' as int;
    assert HEIGHT_HELD[84] == '0' as int && HEIGHT_HELD[85] == '3' as int;
    LessIs(3, 4, -INT_MAX - 1);
    DefinedExact(HEIGHT_HELD, 4, -INT_MAX - 1, c2, Memory(tag, true));
  }

  /** The tag field after a call: a tag that was found, or what was there. */
  function NewTag(c1: Bytes, e1: nat, e2: int, c2: Bytes, m: Memory, before: Option<Bytes>): Option<Bytes>
    requires Told(c1, e1, e2, c2) && Defined(c1, e1, e2, c2, m)
  {
    match ReadHead(c1)
    case None => before
    case Some(head) =>
      if !m.tag then before
      else
        var l := LayoutOf(head, c1, e1, e2, c2);
        InsideExact(l);
        var tag := TagOf(l, Hex.BinOf(c1), Hex.BinOf(c2));
        if tag.Some? then tag else before
  }

  /** How a call ends. */
  datatype Outcome = Rejected | NoMemory | Reported | OutOfBounds

  /** mining_notification_result_t */
  class NotificationResult {
    var blockHeight: nat
    var outputs: array<Shown>
    var outputCount: nat
    var total: nat
    var userTotal: nat
    var decoded: bool
    var scriptsig: Option<Bytes>
    var bip54: bool
    var bip110: bool

    ghost predicate Valid()
      reads this
    {
      outputs.Length == MAX_OUTPUTS && outputCount <= MAX_OUTPUTS
    }

    /** The outputs filled in so far. */
    ghost function Listed(): seq<Shown>
      reads this, outputs
      requires Valid()
    {
      outputs[..outputCount]
    }

    /** What the loop has done with the outputs it has completed. */
    ghost predicate Reports(view: View, outs: seq<TxOut>, cutOff: nat)
      reads this, outputs
    {
      && Valid()
      && total == (Total(outs) + cutOff) % TWO_64
      && userTotal == (if view.decode then MineTotal(view, outs) else 0) % TWO_64
      && Listed() == if view.decode then Shows(view, First(outs)) else []
    }

    /** The body of the loop for a complete output, the i-th. */
    method Take(view: View, o: TxOut, i: nat, ghost outs: seq<TxOut>)
      requires |outs| == i && Reports(view, outs, o.value)
      modifies this`userTotal, this`outputCount, outputs
      ensures Reports(view, outs + [o], 0)
    {
      hide Total, MineTotal;
      TotalSnoc(view, outs, o);
      ghost var all := outs + [o];
      if view.decode {
        var mine := false;
        var address := view.address(o.script);
        if o.value > 0 {
          mine := view.user.Some? && address <= view.user.value;
          if mine {
            AddWraps(MineTotal(view, outs), o.value);
            userTotal := (userTotal + o.value) % TWO_64;
          }
        }
        ghost var before := Listed();
        if i < MAX_OUTPUTS {
          outputs[outputCount] := Shown(o.value, address, mine);
          outputCount := outputCount + 1;
          assert Listed() == before + [Show(view, o)];
          assert Shows(view, all) == Shows(view, outs) + [Show(view, o)];
        } else {
          assert First(all) == First(outs);
        }
      }
    }

    /** The output loop. */
    method ReadOutputs(view: View, data: Bytes, start: nat, n: nat) returns (offset: nat)
      requires start <= |data| && Reports(view, [], 0)
      modifies this`total, this`userTotal, this`outputCount, outputs
      ensures var p := ParseOuts(data, start, n);
        offset == p.next && Reports(view, p.outs, p.cutOff)
    {
      hide Reports, LittleValue, ParseOuts, Varint;
      offset := start;
      var i := 0;
      ghost var outs: seq<TxOut> := [];
      while i < n && offset < |data|
        invariant 0 <= i <= n && offset <= |data| && |outs| == i
        invariant Reports(view, outs, 0)
        invariant ParseOuts(data, start, n) ==
          var rest := ParseOuts(data, offset, n - i);
          Parsed(outs + rest.outs, rest.cutOff, rest.next)
        decreases n - i
      {
        ParseTurn(data, offset, n - i);
        if offset + 8 > |data| {
          assert outs + [] == outs;
          return;
        }
        var value := ReadLittle(data, offset, 8);
        offset := offset + 8;
        AddToTotal(view, value, outs);
        if offset >= |data| {
          assert outs + [] == outs;
          return;
        }
        var length;
        length, offset := DecodeVarint(data, offset);
        if length > |data| - offset {
          assert outs + [] == outs;
          return;
        }
        var o := TxOut(value, data[offset..offset + length]);
        Take(view, o, i, outs);
        offset := offset + length;
        i := i + 1;
        ghost var rest := ParseOuts(data, offset, n - i);
        assert outs + ([o] + rest.outs) == (outs + [o]) + rest.outs;
        outs := outs + [o];
      }
      ParseTurn(data, offset, n - i);
      assert outs + [] == outs;
    }

    /** The value is counted before its script is known to be complete. */
    method AddToTotal(view: View, value: nat, ghost outs: seq<TxOut>)
      requires Reports(view, outs, 0)
      modifies this`total
      ensures Reports(view, outs, value)
    {
      AddWraps(Total(outs), value);
      total := (total + value) % TWO_64;
    }

    ghost function AsSummary(): Summary
      reads this, outputs
      requires Valid()
    {
      Summary(blockHeight, total, userTotal, Listed(), bip54, bip110)
    }

    /** output_count = 0 */
    method Restart(view: View)
      requires Valid() && total == userTotal == 0
      modifies this`outputCount
      ensures Reports(view, [], 0)
    {
      outputCount := 0;
    }

    /** The lock time and the signal that depends on it. */
    method Close(view: View, version: nat, data: Bytes, offset: nat, sequence: nat, ghost p: Parsed)
      requires offset == p.next && Reports(view, p.outs, p.cutOff) && bip110 == Bip110(view, blockHeight, version)
      modifies this`bip54
      ensures Valid() && AsSummary() == Report(view, version, blockHeight, sequence, p, LockTime(data, p.next))
    {
      hide LittleValue, Bip110, Total, MineTotal, Shows;
      var lockTime := 0;
      if offset + 4 <= |data| {
        lockTime := ReadLittle(data, offset, 4);
      }
      bip54 := view.decode && lockTime == (blockHeight + TWO_32 - 1) % TWO_32 && sequence != TWO_32 - 1;
    }

    /** From the sequence number, which is there, to the lock time. */
    method ReadTransaction(view: View, version: nat, data: Bytes, start: nat) returns (ok: bool)
      requires Valid() && total == userTotal == 0 && start + 4 <= |data|
      requires bip110 == Bip110(view, blockHeight, version)
      modifies this`total, this`userTotal, this`outputCount, this`bip54, outputs
      ensures Valid()
      ensures var s := ReadRest(view, version, blockHeight, data, start);
        ok == s.Some? && (ok ==> AsSummary() == s.value)
      ensures !ok ==> total == userTotal == 0 && outputCount == old(outputCount) && outputs[..] == old(outputs[..])
    {
      hide ParseOuts, Varint, LittleValue, Bip110, Reports, Report;
      var sequence := ReadLittle(data, start, 4);
      var offset := start + 4;
      if offset >= |data| {
        return false;
      }
      var n;
      n, offset := DecodeVarint(data, offset);
      ghost var p := ParseOuts(data, offset, n);
      Restart(view);
      offset := ReadOutputs(view, data, offset, n);
      Close(view, version, data, offset, sequence, p);
      ok := true;
    }

    /** The part of coinbase_process_notification that works on the last piece, with its buffer allocated. */
    method ReadLast(view: View, version: nat, c2: Bytes, remainder: int, e1: nat, e2: int) returns (outcome: Outcome)
      requires Valid() && total == userTotal == 0 && 0 !in c2 && |c2| <= MAX_TEXT
      requires bip110 == Bip110(view, blockHeight, version)
      modifies this`total, this`userTotal, this`outputCount, this`bip54, outputs
      ensures Valid() && !outcome.NoMemory?
      ensures outcome.OutOfBounds? <==> !SequenceInside(Skip(remainder, e1, e2), |c2| / 2)
      ensures !outcome.OutOfBounds? ==>
        var s := ReadRest(view, version, blockHeight, Clip(Hex.BinOf(c2), |c2| / 2), Skip(remainder, e1, e2));
        outcome.Reported? == s.Some? && (s.Some? ==> AsSummary() == s.value)
      ensures !outcome.Reported? ==> total == userTotal == 0 && outputCount == old(outputCount) && outputs[..] == old(outputs[..])
    {
      hide ReadRest, Bip110, Less;
      var skip := 0;
      if remainder > 0 {
        var inC2 := Less(remainder, e1, e2);
        if inC2 > 0 {
          skip := inC2;
        }
      }
      var length := |c2| / 2;
      var bytes := new byte[length];
      var _ := Hex.Hex2Bin(c2, bytes, 0, length);
      assert bytes[..] == Clip(Hex.BinOf(c2), length);
      if SequenceRejected(skip, length) {
        RejectedNone(view, version, blockHeight, bytes[..], skip);
        return Rejected;
      }
      if skip + 4 > length {
        return OutOfBounds;
      }
      var ok := ReadTransaction(view, version, bytes[..], skip);
      outcome := if ok then Reported else Rejected;
    }

    /**
     coinbase_process_notification. A notification that makes it leave its bounds has no defined
     result; all others are rejected or reported, or there is no memory.
     */
    method Process(view: View, version: nat, c1: Bytes, extranonce1: Bytes, extranonce2Length: int, c2: Bytes, m: Memory)
      returns (outcome: Outcome)
      requires Valid() && 0 !in c1 && 0 !in c2 && Told(c1, |extranonce1|, extranonce2Length, c2)
      modifies this, outputs
      ensures Valid() && outputs == old(outputs)
      ensures var e1 := |extranonce1| / 2;
        && (outcome.OutOfBounds? <==> !Defined(c1, e1, extranonce2Length, c2, m))
        && (!outcome.OutOfBounds? ==>
              var s := Decode(view, version, c1, e1, extranonce2Length, c2);
              && (outcome.NoMemory? <==> ReadHead(c1).Some? && !m.last)
              && (outcome.Reported? <==> s.Some? && m.last)
              && (outcome.Reported? ==> AsSummary() == s.value)
              && scriptsig == NewTag(c1, e1, extranonce2Length, c2, m, old(scriptsig)))
      ensures !outcome.Reported? ==> total == userTotal == 0 && outputCount == old(outputCount) && outputs[..] == old(outputs[..])
    {
      hide ReadRest, LittleValue, Inside, TagOf, Skip, SequenceInside;
      total, userTotal, decoded := 0, 0, view.decode;
      var head := ReadScriptSig(c1);
      if head.None? {
        return Rejected;
      }
      var h := head.value;
      blockHeight := h.height;
      bip110 := view.decode && blockHeight < 965664 && version / 16 % 2 == 1;
      var e1 := |extranonce1| / 2;
      var inside, tag := Extract(c1, c2, h.sigLength, h.heightLength, e1, extranonce2Length, m.tag);
      if !inside {
        return OutOfBounds;
      }
      if tag.Some? {
        scriptsig := tag;
      }
      if !m.last {
        return NoMemory;
      }
      outcome := ReadLast(view, version, c2, h.remainder, e1, extranonce2Length);
    }
  }

  lemma RejectedNone(view: View, version: nat, height: nat, data: Bytes, start: nat)
    requires start <= INT_MAX && |data| <= MAX_TEXT && SequenceRejected(start, |data|)
    ensures ReadRest(view, version, height, data, start) == None
    ensures SequenceInside(start, |data|)
  {
  }

  /** One byte of a hexadecimal text. */
  method ReadByte(hex: Bytes, k: nat) returns (b: byte)
    requires 2 * k + 1 < |hex| && 0 !in hex
    ensures k < |Hex.BinOf(hex)| && b == Hex.BinOf(hex)[k]
  {
    var cell := new byte[1];
    assert 0 !in hex[2 * k..];
    var n := Hex.Hex2Bin(hex[2 * k..], cell, 0, 1);
    Hex.BinFrom(hex, k);
    b := cell[0];
    assert cell[..][0] == b;
  }

  /** The height, as far as the text goes, into a cleared 32-bit field. */
  method ReadHeight(c1: Bytes, heightLength: nat) returns (height: nat)
    requires 0 !in c1 && 86 <= |c1| && heightLength <= 4
    ensures height == LittleValue(Clip(Hex.BinOf(c1)[43..], heightLength))
  {
    hide LittleValue;
    var cells := new byte[4](_ => 0);
    assert 0 !in c1[86..];
    var n := Hex.Hex2Bin(c1[86..], cells, 0, heightLength);
    Hex.BinFrom(c1, 43);
    ghost var read := Clip(Hex.BinOf(c1)[43..], heightLength);
    assert cells[..] == read + Repeat(0, 4 - |read|);
    LittleZeros(read, 4 - |read|);
    height := ReadLittle(cells[..], 0, 4);
    assert cells[..][0..4] == cells[..];
  }

  /** The first piece: script-sig length, height length and height. */
  method ReadScriptSig(c1: Bytes) returns (head: Option<Head>)
    requires 0 !in c1
    ensures head == ReadHead(c1)
  {
    hide LittleValue;
    var length := |c1| / 2;
    if length < 42 {
      return None;
    }
    var sigLength := ReadByte(c1, 41);
    if length < 43 {
      return None;
    }
    var heightLength := ReadByte(c1, 42);
    if heightLength == 0 || heightLength > 4 {
      return None;
    }
    var height := ReadHeight(c1, heightLength);
    head := Some(Head(sigLength, heightLength, height, sigLength - 1 - heightLength - (length - 43 - heightLength)));
  }

  lemma AddWraps(a: nat, b: nat)
    ensures (a % TWO_64 + b) % TWO_64 == (a + b) % TWO_64
  {
    var q := a / TWO_64;
    assert a == q * TWO_64 + a % TWO_64;
    var r := (a % TWO_64 + b) / TWO_64;
    assert a % TWO_64 + b == r * TWO_64 + (a % TWO_64 + b) % TWO_64;
    DivModUnique(q + r, (a % TWO_64 + b) % TWO_64, TWO_64);
  }
}
