/**
 Whole coinbase transactions: how components/stratum/mining.c puts one together from the
 pool's pieces, and what the decoder of components/stratum/coinbase_decoder.c says about
 the same transaction without putting it together.
 */
module CoinbaseTx {
  import opened Digits
  import opened Options
  import opened Coinbase
  import opened MinerTag
  import opened Packing
  import opened Sha256
  import Hex

  // ---------- transactions ----------

  /** A coinbase transaction. The script-sig starts with the pushed block height. */
  datatype Transaction = Transaction(version: seq<byte>, prevout: seq<byte>, height: seq<byte>, rest: seq<byte>,
                                     sequence: nat, outs: seq<TxOut>, lockTime: nat)

  function ScriptSig(tx: Transaction): seq<byte>
    requires |tx.height| < 256
  {
    [|tx.height|] + tx.height + tx.rest
  }

  /** Sizes as consensus has them; script-sigs are at most 100 bytes long. */
  predicate ValidTx(tx: Transaction) {
    && |tx.version| == 4 && |tx.prevout| == 36
    && 1 <= |tx.height| <= 4 && 1 + |tx.height| + |tx.rest| <= 100
    && tx.sequence < TWO_32 && tx.lockTime < TWO_32
    && ValidOuts(tx.outs)
  }

  /** Everything behind the script-sig. */
  function AfterScript(tx: Transaction): seq<byte>
    requires ValidTx(tx)
  {
    Little(tx.sequence, 4) + (EncodeVarint(|tx.outs|) + (EncodeOuts(tx.outs) + Little(tx.lockTime, 4)))
  }

  /** The bytes that are hashed. */
  function Serialize(tx: Transaction): seq<byte>
    requires ValidTx(tx)
  {
    tx.version + [1] + tx.prevout + [|ScriptSig(tx)|] + ScriptSig(tx) + AfterScript(tx)
  }

  /** Where the script-sig ends. */
  function ScriptEnd(tx: Transaction): nat
    requires ValidTx(tx)
  {
    42 + |ScriptSig(tx)|
  }

  /** What there is to report about a transaction. */
  function Facts(view: View, version: nat, tx: Transaction): Summary
    requires ValidTx(tx)
  {
    Report(view, version, LittleValue(tx.height), tx.sequence, Parsed(tx.outs, 0, 0), tx.lockTime)
  }

  /**
   The signals as their proposals define them: bit 4 of the version before block 965664, and a
   lock time one below the height with a sequence that is not final.
   */
  lemma SignalsSay(view: View, version: nat, tx: Transaction)
    requires ValidTx(tx)
    ensures var r := Facts(view, version, tx);
      && r.height == LittleValue(tx.height)
      && (r.bip110 <==> view.decode && r.height < 965664 && version % 32 >= 16)
      && (r.bip54 <==> view.decode && tx.sequence < 0xFFFF_FFFF && (tx.lockTime + 1) % TWO_32 == r.height)
  {
    HeightSmall(tx.height);
    hide LittleValue, Total, MineTotal, Shows, First;
    BitFour(version);
  }

  lemma BitFour(version: nat)
    ensures version / 16 % 2 == 1 <==> version % 32 >= 16
  {
  }

  lemma HeightSmall(height: seq<byte>)
    requires |height| <= 4
    ensures LittleValue(height) < TWO_32
  {
    hide LittleValue;
    LittleBound(height);
    Widths();
    PowMonoExp(256, |height|, 4);
  }

  /** An address is the beginning of the user's. */
  predicate Begins(address: string, user: string) {
    |address| <= |user| && user[..|address|] == address
  }

  /** The first six outputs in order with their addresses, marked as the user's if they pay to one. Nothing adds up to 0. */
  lemma OutputsSay(view: View, version: nat, tx: Transaction)
    requires ValidTx(tx)
    ensures var listed := Facts(view, version, tx).listed;
      && |listed| == (if !view.decode then 0 else if |tx.outs| < 6 then |tx.outs| else 6)
      && (forall i :: 0 <= i < |listed| ==>
            listed[i].value == tx.outs[i].value && listed[i].address == view.address(tx.outs[i].script))
      && (forall i :: 0 <= i < |listed| ==>
            (listed[i].mine <==> listed[i].value > 0 && view.user.Some? && Begins(listed[i].address, view.user.value)))
    ensures Facts(view, version, tx).total == Total(tx.outs) % TWO_64
    ensures Facts(view, version, tx).userTotal == if view.decode then MineTotal(view, tx.outs) % TWO_64 else 0
    ensures tx.outs == [] ==> Facts(view, version, tx).total == 0 && Facts(view, version, tx).userTotal == 0
  {
    hide LittleValue;
  }

  /** Where every field of a coinbase transaction stands. */
  lemma SerializeFields(tx: Transaction)
    requires ValidTx(tx)
    ensures var s, h, end := Serialize(tx), |tx.height|, 43 + |tx.height| + |tx.rest|;
      && |s| >= end + 8
      && s[0..4] == tx.version && s[4] == 1 && s[5..41] == tx.prevout && s[41] == 1 + h + |tx.rest|
      && s[42] == h && s[43..43 + h] == tx.height && s[43 + h..end] == tx.rest
      && LittleValue(s[end..end + 4]) == tx.sequence && LittleValue(s[|s| - 4..]) == tx.lockTime
      && Varint(s, end + 4).0 == |tx.outs|
  {
    hide LittleValue, Little, EncodeOuts, Varint, EncodeVarint;
    Widths();
    LittleRoundTrip(tx.sequence, 4);
    LittleRoundTrip(tx.lockTime, 4);
    var s, end := Serialize(tx), 43 + |tx.height| + |tx.rest|;
    var front := tx.version + [1] + tx.prevout + [|ScriptSig(tx)|] + ScriptSig(tx);
    var count, outs := EncodeVarint(|tx.outs|), EncodeOuts(tx.outs);
    assert s == front + (Little(tx.sequence, 4) + (count + (outs + Little(tx.lockTime, 4))));
    assert s[end..end + 4] == Little(tx.sequence, 4);
    assert s[end + 4..end + 4 + |count|] == count;
    assert s[|s| - 4..] == Little(tx.lockTime, 4);
    VarintRoundTrip(s, end + 4, |tx.outs|);
  }

  /** And of an output: value, length and script. */
  lemma OutFields(o: TxOut)
    requires ValidOut(o)
    ensures var e := EncodeOut(o);
      && LittleValue(e[..8]) == o.value && Varint(e, 8) == (|o.script|, |e| - |o.script|)
      && e[|e| - |o.script|..] == o.script
  {
    hide LittleValue, Little, Varint, EncodeVarint;
    Widths();
    LittleRoundTrip(o.value, 8);
    var e, count := EncodeOut(o), EncodeVarint(|o.script|);
    assert e[..8] == Little(o.value, 8);
    assert e[8..8 + |count|] == count;
    VarintRoundTrip(e, 8, |o.script|);
  }

  // ---------- the pieces ----------

  /** A transaction cut in four, with the height in the first piece and both extranonces in the script-sig. */
  predicate Split(tx: Transaction, c1: seq<byte>, x1: seq<byte>, x2: seq<byte>, c2: seq<byte>) {
    && ValidTx(tx)
    && Serialize(tx) == c1 + x1 + x2 + c2
    && 43 + |tx.height| <= |c1|
    && |c1| + |x1| + |x2| <= ScriptEnd(tx)
  }

  /** A text of whole bytes. */
  predicate Spells(hex: seq<byte>, bytes: seq<byte>) {
    |hex| == 2 * |bytes| && Hex.BinOf(hex) == bytes
  }

  /**
   The position the decoder starts at in the last piece is the end of the script-sig exactly when
   both extranonces lie inside the script-sig and the length told for the second is its length;
   or, with nothing of the script-sig behind them, when it is longer, or so much shorter that the
   difference turns negative again, or the script-sig ends in the first piece anyway.
   */
  lemma SkipExact(sigLength: nat, c1: nat, x1: nat, x2: nat, told: int)
    requires sigLength < 256 && c1 <= MAX_TEXT && x1 <= MAX_TEXT && IsInt(told)
    ensures c1 + x1 + x2 + Skip(sigLength + 42 - c1, x1, told) == 42 + sigLength
      <==>
      && c1 + x1 + x2 <= 42 + sigLength
      && (told == x2 || (c1 + x1 + x2 == 42 + sigLength && (x1 + x2 == 0 || told > x2 || told < x2 - INT_MAX)))
  {
    hide Less;
    LessIs(sigLength + 42 - c1, x1, told);
  }

  lemma SplitFacts(tx: Transaction, c1: seq<byte>, x1: seq<byte>, x2: seq<byte>, c2: seq<byte>)
    requires Split(tx, c1, x1, x2, c2)
    ensures c1[41] == |ScriptSig(tx)| && c1[42] == |tx.height| && c1[43..43 + |tx.height|] == tx.height
    ensures var skip := ScriptEnd(tx) - |c1| - |x1| - |x2|;
      skip <= |c2| && c2[skip..] == AfterScript(tx)
  {
    hide AfterScript, ValidOuts;
    var whole, h := Serialize(tx), |tx.height|;
    var before := tx.version + [1] + tx.prevout;
    var sig, after := ScriptSig(tx), AfterScript(tx);
    assert whole == c1 + (x1 + x2 + c2);
    assert whole[..43 + h] == c1[..43 + h];
    assert whole == before + [|sig|] + ([h] + tx.height + tx.rest) + after;
    assert |before| == 41;
    assert whole[41] == |sig| && whole[42] == h && whole[43..43 + h] == tx.height;
    assert whole[42 + |sig|..] == after;
    var front := c1 + x1 + x2;
    assert whole == front + c2;
    assert c2[42 + |sig| - |front|..] == whole[42 + |sig|..];
  }

  /** The rest of the transaction, read from the right place. */
  lemma RestIsRead(view: View, version: nat, tx: Transaction, height: nat, data: seq<byte>, at: nat)
    requires ValidTx(tx) && at <= |data| && data[at..] == AfterScript(tx)
    ensures ReadRest(view, version, height, data, at)
      == Some(Report(view, version, height, tx.sequence, Parsed(tx.outs, 0, 0), tx.lockTime))
  {
    hide Varint, ParseOuts, LittleValue, Little, EncodeVarint, EncodeOuts, Bip54, Bip110;
    var seqs, count, outs, lock := Little(tx.sequence, 4), EncodeVarint(|tx.outs|), EncodeOuts(tx.outs), Little(tx.lockTime, 4);
    CountFits(tx);
    assert data[at..at + |AfterScript(tx)|] == data[at..];
    AtSplit(data, at, seqs, count + (outs + lock));
    AtSplit(data, at + 4, count, outs + lock);
    AtSplit(data, at + 4 + |count|, outs, lock);
    Widths();
    LittleRoundTrip(tx.sequence, 4);
    LittleRoundTrip(tx.lockTime, 4);
    VarintRoundTrip(data, at + 4, |tx.outs|);
    ParseInverts(data, at + 4 + |count|, tx.outs);
  }

  lemma CountFits(tx: Transaction)
    requires ValidTx(tx)
    ensures |tx.outs| < TWO_64
  {
  }

  lemma HeadIsRead(tx: Transaction, c1: seq<byte>, x1: seq<byte>, x2: seq<byte>, c2: seq<byte>, hex1: seq<byte>)
    requires Split(tx, c1, x1, x2, c2) && Spells(hex1, c1)
    ensures ReadHead(hex1) == Some(Head(c1[41], |tx.height|, LittleValue(tx.height), ScriptEnd(tx) - |c1|))
  {
    hide LittleValue, AfterScript, Serialize, Hex.BinOf;
    SplitFacts(tx, c1, x1, x2, c2);
    assert Clip(c1[43..], |tx.height|) == c1[43..43 + |tx.height|];
  }

  /**
   For every coinbase transaction, every way to cut it with the extranonces in the script-sig
   and every spelling of the pieces, the decoder reports exactly the facts of the
   transaction: its height, the sum of all its outputs modulo 2^64, the first outputs in
   order, and the two signals.
   */
  lemma DecodesTransaction(view: View, version: nat, tx: Transaction,
                           c1: seq<byte>, x1: seq<byte>, x2: seq<byte>, c2: seq<byte>, hex1: seq<byte>, hex2: seq<byte>)
    requires Split(tx, c1, x1, x2, c2) && Spells(hex1, c1) && Spells(hex2, c2)
    ensures Told(hex1, |x1|, |x2|, hex2) ==> forall m :: Defined(hex1, |x1|, |x2|, hex2, m)
    ensures Decode(view, version, hex1, |x1|, |x2|, hex2) == Some(Facts(view, version, tx))
  {
    hide Defined, ReadRest, LittleValue, Report, AfterScript, Serialize, ReadHead, ValidTx, Hex.BinOf, Skip;
    forall m | Told(hex1, |x1|, |x2|, hex2)
      ensures Defined(hex1, |x1|, |x2|, hex2, m)
    {
      SplitDefined(tx, c1, x1, x2, c2, hex1, hex2, m);
    }
    HeadIsRead(tx, c1, x1, x2, c2, hex1);
    LastIsRead(view, version, tx, c1, x1, x2, c2);
    assert Clip(Hex.BinOf(hex2), |hex2| / 2) == c2;
  }

  lemma LastIsRead(view: View, version: nat, tx: Transaction, c1: seq<byte>, x1: seq<byte>, x2: seq<byte>, c2: seq<byte>)
    requires Split(tx, c1, x1, x2, c2)
    ensures ReadRest(view, version, LittleValue(tx.height), c2, Skip(ScriptEnd(tx) - |c1|, |x1|, |x2|))
      == Some(Facts(view, version, tx))
  {
    hide ReadRest, LittleValue, Report, AfterScript, Serialize, ValidOuts, Less;
    SplitFacts(tx, c1, x1, x2, c2);
    LessIs(ScriptEnd(tx) - |c1|, |x1|, |x2|);
    RestIsRead(view, version, tx, LittleValue(tx.height), c2, ScriptEnd(tx) - |c1| - |x1| - |x2|);
  }

  lemma SplitDefined(tx: Transaction, c1: seq<byte>, x1: seq<byte>, x2: seq<byte>, c2: seq<byte>,
                     hex1: seq<byte>, hex2: seq<byte>, m: Memory)
    requires Split(tx, c1, x1, x2, c2) && Spells(hex1, c1) && Told(hex1, |x1|, |x2|, hex2)
    ensures Defined(hex1, |x1|, |x2|, hex2, m)
  {
    hide Defined, LittleValue, AfterScript, Serialize, ReadHead, Hex.BinOf, TagLength, ValidOuts;
    HeadIsRead(tx, c1, x1, x2, c2, hex1);
    DefinedExact(hex1, |x1|, |x2|, hex2, m);
    InRange(ScriptEnd(tx) - |c1| - |x1| - |x2|);
  }

  /**
   Outside that condition: with the whole transaction in the first piece, and so with nothing of
   the script-sig behind it, no transaction is reported.
   */
  lemma WholeInFirstRejected(view: View, version: nat, tx: Transaction, hex1: seq<byte>)
    requires ValidTx(tx) && Spells(hex1, Serialize(tx))
    ensures Decode(view, version, hex1, 0, 0, []) == None
  {
    hide LittleValue;
  }

  /**
   No transaction is reported exactly if the first piece ends before the byte that tells the
   length of the height, that length is not from 1 to 4, or the last piece ends with the
   sequence number or before.
   */
  lemma RejectedExact(view: View, version: nat, hex1: seq<byte>, x1: nat, told: int, hex2: seq<byte>)
    ensures Decode(view, version, hex1, x1, told, hex2) == None <==>
      || |hex1| < 86 || Hex.BinOf(hex1)[42] == 0 || Hex.BinOf(hex1)[42] > 4
      || |hex2| / 2 <= 4 + Skip(Hex.BinOf(hex1)[41] + 42 - |hex1| / 2, x1, told)
  {
    hide Decode, ReadRest, ReadHead, Skip, Hex.BinOf, Hex.HexValue;
    DecodeTurns(view, version, hex1, x1, told, hex2);
    HeadExact(hex1);
    if ReadHead(hex1).Some? {
      var head := ReadHead(hex1).value;
      RestExact(view, version, head.height, Clip(Hex.BinOf(hex2), |hex2| / 2), Skip(head.remainder, x1, told));
    }
  }

  lemma DecodeTurns(view: View, version: nat, hex1: seq<byte>, x1: nat, told: int, hex2: seq<byte>)
    ensures Decode(view, version, hex1, x1, told, hex2) == match ReadHead(hex1)
      case None => None
      case Some(head) => ReadRest(view, version, head.height, Clip(Hex.BinOf(hex2), |hex2| / 2), Skip(head.remainder, x1, told))
  {
    hide ReadRest, ReadHead, Hex.BinOf;
  }

  lemma HeadExact(hex1: seq<byte>)
    ensures ReadHead(hex1) == None <==> |hex1| < 86 || Hex.BinOf(hex1)[42] == 0 || Hex.BinOf(hex1)[42] > 4
    ensures ReadHead(hex1).Some? ==> ReadHead(hex1).value.remainder == Hex.BinOf(hex1)[41] + 42 - |hex1| / 2
  {
    hide Hex.BinOf, LittleValue;
  }

  lemma RestExact(view: View, version: nat, height: nat, data: seq<byte>, at: nat)
    ensures ReadRest(view, version, height, data, at) == None <==> |data| <= at + 4
  {
    hide Varint, ParseOuts, Report, LockTime;
  }

  /** Every byte string has a text that spells it. */
  lemma Spelled(bytes: seq<byte>)
    ensures Spells(Hex.HexOf(bytes), bytes)
  {
    Hex.BinOfHex(bytes);
  }

  // ---------- the miner tag ----------

  /** The tag is the script-sig without the height and without the extranonces. */
  lemma TagIsTheRest(tx: Transaction, c1: seq<byte>, x1: seq<byte>, x2: seq<byte>, c2: seq<byte>)
    requires Split(tx, c1, x1, x2, c2)
    ensures var h, skip := |tx.height|, ScriptEnd(tx) - |c1| - |x1| - |x2|;
      && skip <= |c2|
      && tx.rest == c1[43 + h..] + x1 + x2 + c2[..skip]
      && var l := Layout(2 * |c1|, 2 * |c2|, |ScriptSig(tx)|, h, |x1|, |x2|);
      && 0 <= Behind(l)
      && var tag, r := c1[43 + h..] + c2[..skip], TagOf(l, c1, c2);
      && (r.Some? <==> tag != [])
      && (r.Some? ==> |r.value| == |tag| && forall i :: 0 <= i < |tag| ==>
            r.value[i] == if ' ' as int <= tag[i] <= '~' as int then tag[i] else '.' as int)
  {
    hide AfterScript, ValidOuts, TagOf, Behind, Serialize;
    SplitFacts(tx, c1, x1, x2, c2);
    PiecesOfRest(tx, c1, x1, x2, c2);
    TagOfCut(c1, c2, |ScriptSig(tx)|, |tx.height|, |x1|, |x2|);
  }

  lemma TagOfCut(c1: seq<byte>, c2: seq<byte>, sigLength: nat, h: nat, x1: nat, x2: nat)
    requires 43 + h <= |c1| && |c1| + x1 + x2 <= 42 + sigLength <= |c1| + x1 + x2 + |c2| && sigLength < 256
    ensures var l, skip := Layout(2 * |c1|, 2 * |c2|, sigLength, h, x1, x2), 42 + sigLength - |c1| - x1 - x2;
      && 0 <= Behind(l)
      && TagOf(l, c1, c2) ==
           var tag := c1[43 + h..] + c2[..skip];
           if tag == [] then None else Some(Printable(tag))
  {
    hide Less, Printable;
    LessIs(sigLength - 1 - h, x1, x2);
    InRange(sigLength - 1 - h - x1 - x2);
    var after := c1[43 + h..];
    assert after[..|after|] == after;
  }

  lemma PiecesOfRest(tx: Transaction, c1: seq<byte>, x1: seq<byte>, x2: seq<byte>, c2: seq<byte>)
    requires Split(tx, c1, x1, x2, c2)
    ensures var skip := ScriptEnd(tx) - |c1| - |x1| - |x2|;
      skip <= |c2| && tx.rest == c1[43 + |tx.height|..] + x1 + x2 + c2[..skip]
  {
    hide AfterScript, ValidOuts;
    SplitFacts(tx, c1, x1, x2, c2);
    var whole, from, skip := Serialize(tx), 43 + |tx.height|, ScriptEnd(tx) - |c1| - |x1| - |x2|;
    var before := tx.version + [1] + tx.prevout + [|ScriptSig(tx)|] + ([|tx.height|] + tx.height);
    assert whole == before + tx.rest + AfterScript(tx);
    assert whole[from..ScriptEnd(tx)] == tx.rest;
    assert whole == (c1 + x1 + x2 + c2[..skip]) + c2[skip..];
    assert whole[from..ScriptEnd(tx)] == (c1 + x1 + x2 + c2[..skip])[from..];
  }

  // ---------- assembling ----------

  /** The bytes of four texts one after the other. */
  function Joined(hex1: seq<byte>, y1: seq<byte>, y2: seq<byte>, hex2: seq<byte>): seq<byte> {
    Hex.BinOf(hex1) + Hex.BinOf(y1) + Hex.BinOf(y2) + Hex.BinOf(hex2)
  }

  /** What fits into half the total length of the texts. */
  function Assembled(hex1: seq<byte>, y1: seq<byte>, y2: seq<byte>, hex2: seq<byte>): seq<byte> {
    Clip(Joined(hex1, y1, y2, hex2), (|hex1| + |y1| + |y2| + |hex2|) / 2)
  }

  lemma ClipTwice(a: seq<byte>, b: seq<byte>, n: nat)
    ensures Clip(Clip(a, n) + b, n) == Clip(a + b, n)
  {
  }

  /** Appends what fits of a decoded text. */
  method Append(hex: seq<byte>, bin: array<byte>, at: nat, ghost sofar: seq<byte>) returns (next: nat)
    requires 0 !in hex && at <= bin.Length && bin[..at] == Clip(sofar, bin.Length)
    modifies bin
    ensures next <= bin.Length && bin[..next] == Clip(sofar + Hex.BinOf(hex), bin.Length)
  {
    var n := Hex.Hex2Bin(hex, bin, at, bin.Length - at);
    next := at + n;
    ghost var whole := Hex.BinOf(hex);
    assert bin[..next] == Clip(Clip(sofar, bin.Length) + whole, bin.Length);
    ClipTwice(sofar, whole, bin.Length);
  }

  /** calculate_coinbase_tx_hash */
  method TransactionHash(f: Compress, hex1: seq<byte>, hex2: seq<byte>, y1: seq<byte>, y2: seq<byte>) returns (dest: State)
    requires 0 !in hex1 && 0 !in hex2 && 0 !in y1 && 0 !in y2
    ensures dest == DoubleHash(f, Assembled(hex1, y1, y2, hex2))
  {
    hide Hash;
    var length := (|hex1| + |y1| + |y2| + |hex2|) / 2;
    var bin := new byte[length];
    var offset := Append(hex1, bin, 0, []);
    assert [] + Hex.BinOf(hex1) == Hex.BinOf(hex1);
    offset := Append(y1, bin, offset, Hex.BinOf(hex1));
    offset := Append(y2, bin, offset, Hex.BinOf(hex1) + Hex.BinOf(y1));
    offset := Append(hex2, bin, offset, Hex.BinOf(hex1) + Hex.BinOf(y1) + Hex.BinOf(y2));
    HalfSum(|hex1|, |y1|, |y2|, |hex2|);
    assert bin[..offset] == bin[..];
    var first := OneShot(f, bin[..]);
    dest := OneShot(f, first);
  }

  lemma HalfSum(a: nat, b: nat, c: nat, d: nat)
    ensures (a + b + c + d) / 2 <= (a + 1) / 2 + (b + 1) / 2 + (c + 1) / 2 + (d + 1) / 2
    ensures (a + b + c + d) / 2 == (a + 1) / 2 + (b + 1) / 2 + (c + 1) / 2 + (d + 1) / 2
      <==> a % 2 == 0 && b % 2 == 0 && c % 2 == 0 && d % 2 == 0
  {
  }

  /** The four pieces are put together whole exactly when every text has an even length. */
  lemma AssembledWhole(hex1: seq<byte>, y1: seq<byte>, y2: seq<byte>, hex2: seq<byte>)
    ensures Assembled(hex1, y1, y2, hex2) == Joined(hex1, y1, y2, hex2)
      <==> |hex1| % 2 == 0 && |y1| % 2 == 0 && |y2| % 2 == 0 && |hex2| % 2 == 0
  {
    HalfSum(|hex1|, |y1|, |y2|, |hex2|);
    hide Hex.BinOf;
    var whole := Joined(hex1, y1, y2, hex2);
    assert |whole| == |Hex.BinOf(hex1)| + |Hex.BinOf(y1)| + |Hex.BinOf(y2)| + |Hex.BinOf(hex2)|;
  }

  /** Two lone digits: two bytes if decoded one by one, cut to one. */
  lemma LoneDigitsCut()
    ensures Assembled(['5' as int], [], [], ['5' as int]) == [0x50] != Joined(['5' as int], [], [], ['5' as int])
  {
    assert Hex.BinOf(['5' as int]) == [0x50];
  }

  /** What is hashed is the transaction that is decoded. */
  lemma HashesTransaction(f: Compress, tx: Transaction, c1: seq<byte>, x1: seq<byte>, x2: seq<byte>, c2: seq<byte>,
                          hex1: seq<byte>, y1: seq<byte>, y2: seq<byte>, hex2: seq<byte>)
    requires Split(tx, c1, x1, x2, c2)
    requires Spells(hex1, c1) && Spells(y1, x1) && Spells(y2, x2) && Spells(hex2, c2)
    ensures DoubleHash(f, Assembled(hex1, y1, y2, hex2)) == DoubleHash(f, Serialize(tx))
  {
    AssembledWhole(hex1, y1, y2, hex2);
  }

  // ---------- extranonce 2 ----------

  /** The counter's low bytes, filled up with zeros to the length the pool asks for. */
  function Extranonce2(counter: nat, length: nat): (s: seq<byte>)
    ensures |s| == length
  {
    Little(counter, Least(length, 8)) + Repeat(0, length - Least(length, 8))
  }

  /** extranonce_2_generate */
  method Extranonce2Generate(counter: nat, length: nat, dest: array<byte>)
    requires counter < TWO_64 && dest.Length >= 2 * length + 1
    modifies dest
    ensures dest[..2 * length + 1] == Hex.HexOf(Extranonce2(counter, length)) + [0]
    ensures dest[2 * length + 1..] == old(dest[2 * length + 1..])
  {
    var bytes := new byte[length](_ => 0);
    var n := if length < 8 then length else 8;
    var value := Little(counter, 8);
    LittlePrefix(counter, 8, n);
    forall i | 0 <= i < n { bytes[i] := value[i]; }
    assert bytes[..] == Extranonce2(counter, length);
    var _ := Hex.Bin2Hex(bytes[..], dest, 2 * length + 1);
  }

  /** MAX_EXTRANONCE2_LEN and the buffer of generate_work */
  const MAX_LENGTH: nat := 32
  const ROOM: nat := 2 * MAX_LENGTH + 1

  /** How many characters bin2hex writes for so many bytes, when it is told twice their number and one; all in size_t. */
  function HexWritten(length: nat): nat {
    if SizeT(2 * length + 1) <= SizeT(2 * length) then 0 else 2 * length + 1
  }

  /** The text stays in the buffer of generate_work if and only if the length told is from 0 to 32. */
  lemma LengthFits(told: int)
    requires IsInt(told)
    ensures HexWritten(SizeT(told)) <= ROOM <==> 0 <= told <= MAX_LENGTH
  {
    if told < 0 {
      assert SizeT(told) > INT_MAX;
    }
  }

  lemma TextOf(buffer: seq<byte>, text: seq<byte>)
    requires buffer == text + [0]
    ensures buffer[..|text|] == text
  {
  }

  datatype Generated = Skipped | Text(hex: seq<byte>) | OutOfBuffer

  /** The extranonce of generate_work: lengths are checked from above only. */
  method MakeExtranonce2(counter: nat, told: int) returns (r: Generated)
    requires counter < TWO_64 && IsInt(told)
    ensures r.Skipped? <==> told > MAX_LENGTH
    ensures r.OutOfBuffer? <==> told < 0
    ensures r.OutOfBuffer? ==> HexWritten(SizeT(told)) > ROOM
    ensures r.Text? ==> r.hex == Hex.HexOf(Extranonce2(counter, told))
  {
    hide HexWritten, Extranonce2, Hex.HexOf;
    if told > MAX_LENGTH {
      return Skipped;
    }
    LengthFits(told);
    var length := SizeT(told);
    if length > MAX_LENGTH {
      return OutOfBuffer;
    }
    var text := GenerateText(counter, length);
    r := Text(text);
  }

  /** extranonce_2_generate into the buffer of generate_work. */
  method GenerateText(counter: nat, length: nat) returns (text: seq<byte>)
    requires counter < TWO_64 && length <= MAX_LENGTH
    ensures text == Hex.HexOf(Extranonce2(counter, length))
  {
    hide Extranonce2, Hex.HexOf;
    var dest := new byte[ROOM];
    Extranonce2Generate(counter, length, dest);
    TextOf(dest[..2 * length + 1], Hex.HexOf(Extranonce2(counter, length)));
    text := dest[..2 * length];
  }

  lemma {:induction false} LittlePrefix(v: nat, m: nat, n: nat)
    requires n <= m
    ensures Little(v, m)[..n] == Little(v, n)
    decreases n
  {
    if n > 0 {
      LittlePrefix(v / 256, m - 1, n - 1);
      assert Little(v, m)[..n] == [v % 256] + Little(v / 256, m - 1)[..n - 1];
    }
  }

  /** The bytes are the counter, least significant byte first; of a longer counter only the low bytes are left. */
  lemma ExtranonceWraps(counter: nat, length: nat)
    ensures Pow(256, Least(length, 8)) > 0
    ensures LittleValue(Extranonce2(counter, length)) == counter % Pow(256, Least(length, 8))
  {
    hide Little, LittleValue, Pow;
    LittleMod(counter, Least(length, 8));
    LittleZeros(Little(counter, Least(length, 8)), length - Least(length, 8));
  }

  /** All counters below 256^min(length, 8) give different texts. */
  lemma ExtranoncesDiffer(a: nat, b: nat, length: nat)
    requires a < Pow(256, Least(length, 8)) && b < Pow(256, Least(length, 8))
    ensures Hex.HexOf(Extranonce2(a, length)) == Hex.HexOf(Extranonce2(b, length)) <==> a == b
  {
    if Hex.HexOf(Extranonce2(a, length)) == Hex.HexOf(Extranonce2(b, length)) {
      var n := Least(length, 8);
      Hex.BinOfHex(Extranonce2(a, length));
      Hex.BinOfHex(Extranonce2(b, length));
      assert Extranonce2(a, length)[..n] == Little(a, n) && Extranonce2(b, length)[..n] == Little(b, n);
      LittleRoundTrip(a, n);
      LittleRoundTrip(b, n);
    }
  }
}
