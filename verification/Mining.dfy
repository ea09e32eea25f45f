/**
 Jobs and nonces in components/stratum/mining.c: how a job is built from a pool notification,
 and how the hash of a found nonce is recomputed from it.
 */
module Mining {
  import opened Digits
  import opened Sha256
  import opened VersionMasks
  import opened VersionRoll
  import opened VersionSteps
  import Hex
  import Packing

  // ---------- byte orders ----------

  /** reverse_32bit_words: the eight 4-byte words in opposite order. */
  function ReverseWords(s: State): (r: State)
    ensures forall i :: 0 <= i < 32 ==> r[i] == s[28 - (i - i % 4) + i % 4]
  {
    seq(32, i requires 0 <= i < 32 => s[28 - (i - i % 4) + i % 4])
  }

  lemma ReverseWordsTwice(s: State)
    ensures ReverseWords(ReverseWords(s)) == s
  {
  }

  lemma OutputTwice(s: State)
    ensures Output(Output(s)) == s
  {
  }

  /** d[to] = s[from], for 32-bit words. */
  method MoveWord(src: State, from: nat, dest: array<byte>, to: nat)
    requires dest.Length == 32 && from < 8 && to < 8
    modifies dest
    ensures forall i :: 0 <= i < 32 ==> dest[i] == if 4 * to <= i < 4 * to + 4 then src[4 * from + (i - 4 * to)] else old(dest[i])
  {
    dest[4 * to], dest[4 * to + 1] := src[4 * from], src[4 * from + 1];
    dest[4 * to + 2], dest[4 * to + 3] := src[4 * from + 2], src[4 * from + 3];
  }

  /** reverse_32bit_words */
  method CopyReversed(src: State, dest: array<byte>)
    requires dest.Length == 32
    modifies dest
    ensures dest[..] == ReverseWords(src)
  {
    MoveWord(src, 7, dest, 0);
    MoveWord(src, 6, dest, 1);
    MoveWord(src, 5, dest, 2);
    MoveWord(src, 4, dest, 3);
    MoveWord(src, 3, dest, 4);
    MoveWord(src, 2, dest, 5);
    MoveWord(src, 1, dest, 6);
    MoveWord(src, 0, dest, 7);
  }

  lemma OutputWord(was: State, at: nat)
    requires at % 4 == 0 && at + 4 <= 32
    ensures Output(was)[at] == was[at + 3] && Output(was)[at + 1] == was[at + 2]
    ensures Output(was)[at + 2] == was[at + 1] && Output(was)[at + 3] == was[at]
  {
  }

  /** The words before a position swapped, the others as they were. */
  ghost predicate Swapped(data: array<byte>, was: State, at: nat)
    reads data
  {
    data.Length == 32 && forall i :: 0 <= i < 32 ==> data[i] == if i < at then Output(was)[i] else was[i]
  }

  /** __builtin_bswap32 of the word at byte at. */
  method ByteSwap(data: array<byte>, at: nat)
    requires at + 4 <= data.Length
    modifies data
    ensures data[at] == old(data[at + 3]) && data[at + 1] == old(data[at + 2])
    ensures data[at + 2] == old(data[at + 1]) && data[at + 3] == old(data[at])
    ensures forall i :: 0 <= i < data.Length && !(at <= i < at + 4) ==> data[i] == old(data[i])
  {
    data[at], data[at + 1], data[at + 2], data[at + 3] := data[at + 3], data[at + 2], data[at + 1], data[at];
  }

  /** d[k] = __builtin_bswap32(d[k]), for the word at byte 4k. */
  method SwapWord(data: array<byte>, at: nat, ghost was: State)
    requires at % 4 == 0 && at + 4 <= 32 && Swapped(data, was, at)
    modifies data
    ensures Swapped(data, was, at + 4)
  {
    hide Output;
    OutputWord(was, at);
    assert data[at] == was[at] && data[at + 1] == was[at + 1] && data[at + 2] == was[at + 2] && data[at + 3] == was[at + 3];
    ByteSwap(data, at);
    forall i | 0 <= i < 32
      ensures data[i] == if i < at + 4 then Output(was)[i] else was[i]
    {
      if at <= i < at + 4 {
        assert i == at || i == at + 1 || i == at + 2 || i == at + 3;
      }
    }
  }

  /** reverse_endianness_per_word: the bytes of every word in opposite order, as in a digest. */
  method SwapEachWord(data: array<byte>)
    requires data.Length == 32
    modifies data
    ensures data[..] == Output(old(data[..]))
  {
    ghost var was: State := data[..];
    assert Swapped(data, was, 0);
    SwapEight(data, was);
    assert data[..] == Output(was);
  }

  method SwapEight(data: array<byte>, ghost was: State)
    requires data.Length == 32 && Swapped(data, was, 0)
    modifies data
    ensures Swapped(data, was, 32)
  {
    hide Swapped, Output;
    SwapWord(data, 0, was);
    SwapWord(data, 4, was);
    SwapWord(data, 8, was);
    SwapWord(data, 12, was);
    SwapWord(data, 16, was);
    SwapWord(data, 20, was);
    SwapWord(data, 24, was);
    SwapWord(data, 28, was);
  }

  // ---------- headers ----------

  /** A 32-bit field as it lies in memory. */
  function Word(v: nat): (b: Bytes)
    ensures |b| == 4
  {
    Little(v, 4)
  }

  /** The 80 bytes that are hashed. */
  function Header(version: bv32, prev: State, root: State, ntime: nat, nbits: nat, nonce: nat): (h: Bytes)
    ensures |h| == 80
  {
    Word(version as nat) + prev + root + Word(ntime) + Word(nbits) + Word(nonce)
  }

  /** Where every field of a header stands. */
  lemma HeaderFields(version: bv32, prev: State, root: State, ntime: nat, nbits: nat, nonce: nat)
    requires ntime < Packing.TWO_32 && nbits < Packing.TWO_32 && nonce < Packing.TWO_32
    ensures var h := Header(version, prev, root, ntime, nbits, nonce);
      && LittleValue(h[0..4]) == version as nat && h[4..36] == prev && h[36..68] == root
      && LittleValue(h[68..72]) == ntime && LittleValue(h[72..76]) == nbits && LittleValue(h[76..80]) == nonce
  {
    hide Little, LittleValue;
    Packing.Widths();
    LittleRoundTrip(version as nat, 4);
    LittleRoundTrip(ntime, 4);
    LittleRoundTrip(nbits, 4);
    LittleRoundTrip(nonce, 4);
    var h := Header(version, prev, root, ntime, nbits, nonce);
    assert h[0..4] == Word(version as nat) && h[4..36] == prev && h[36..68] == root;
    assert h[68..72] == Word(ntime) && h[72..76] == Word(nbits);
    assert h == (Word(version as nat) + prev + root + Word(ntime) + Word(nbits)) + Word(nonce);
    assert h[76..80] == h[76..] == Word(nonce);
  }

  /**
   The notification, as far as a job depends on it, and what the buffer for the previous block
   hash holds before its text is decoded.
   */
  datatype Notify = Notify(version: bv32, prevHashHex: Bytes, buffer: State, ntime: nat, target: nat)

  /** The previous block hash as received: a text of fewer than 63 digits leaves the end of the buffer as it was. */
  function PrevBytes(n: Notify): State {
    var read := Packing.Clip(Hex.BinOf(n.prevHashHex), 32);
    read + n.buffer[|read|..]
  }

  /** The previous block hash in header order: the pool sends every word byte-swapped. */
  function PrevHash(n: Notify): State {
    Output(PrevBytes(n))
  }

  /** Every byte of the previous block hash from its digits: the words in order, the bytes of each in opposite order. */
  lemma PrevHashDigits(n: Notify, k: nat, j: nat)
    requires |n.prevHashHex| >= 64 && k < 8 && j < 4
    ensures var d := 2 * (4 * k + 3 - j);
      PrevHash(n)[4 * k + j] == Hex.HexValue(n.prevHashHex[d]) * 16 + Hex.HexValue(n.prevHashHex[d + 1])
  {
    var i := 4 * k + 3 - j;
    hide Hex.BinOf, Hex.HexValue, Output;
    Hex.BinAt(n.prevHashHex, i);
    OutputAt(PrevBytes(n), k, j);
    assert PrevBytes(n)[i] == Hex.BinOf(n.prevHashHex)[i];
  }

  lemma OutputAt(s: State, k: nat, j: nat)
    requires k < 8 && j < 4
    ensures Output(s)[4 * k + j] == s[4 * k + 3 - j]
  {
    var i := 4 * k + j;
    assert i % 4 == j;
  }

  /** The first 64 bytes of the header, whose state is the midstate. */
  function HeadBlock(version: bv32, prev: State, root: State): (b: Block)
  {
    Word(version as nat) + prev + root[..28]
  }

  function Tail(root: State, ntime: nat, nbits: nat, nonce: nat): (t: Bytes)
    ensures |t| == 16
  {
    root[28..] + Word(ntime) + Word(nbits) + Word(nonce)
  }

  lemma HeaderSplits(version: bv32, prev: State, root: State, ntime: nat, nbits: nat, nonce: nat)
    ensures Header(version, prev, root, ntime, nbits, nonce) == HeadBlock(version, prev, root) + Tail(root, ntime, nbits, nonce)
  {
    assert root == root[..28] + root[28..];
  }

  // ---------- jobs ----------

  /** bm_job: the fields a nonce check reads. The stored hashes are in reversed word order. */
  datatype Job = Job(version: bv32, prevBlockHash: State, merkleRoot: State, ntime: nat, target: nat, midstates: seq<State>)

  /** How many midstates construct_bm_job stores. */
  function MidstateCount(mask: bv32): nat { if mask != 0 then 4 else 1 }

  /** The k-th midstate, in the word order construct_bm_job stores it in. */
  function Stored(f: Compress, n: Notify, root: State, mask: bv32, k: nat): State
  {
    ReverseWords(f(IV, HeadBlock(Rolled(n.version, mask, k), PrevHash(n), root)))
  }

  /** The job construct_bm_job builds. */
  function Built(f: Compress, n: Notify, root: State, mask: bv32): Job
  {
    Job(n.version, ReverseWords(PrevHash(n)), ReverseWords(root), n.ntime, n.target,
        seq<State>(MidstateCount(mask), k requires 0 <= k => Stored(f, n, root, mask, k)))
  }

  /** What the fields of a job hold: the words of root and previous hash in opposite order, and the rest as it came. */
  lemma JobFields(f: Compress, n: Notify, root: State, mask: bv32, k: nat, j: nat)
    requires k < 8 && j < 4
    ensures var job := Built(f, n, root, mask);
      && job.version == n.version && job.ntime == n.ntime && job.target == n.target
      && |job.midstates| == (if mask == 0 then 1 else 4)
      && job.merkleRoot[4 * k + j] == root[28 - 4 * k + j]
      && job.prevBlockHash[4 * k + j] == PrevHash(n)[28 - 4 * k + j]
  {
    hide PrevHash, Stored;
    WordsOpposite(root, k, j);
    WordsOpposite(PrevHash(n), k, j);
  }

  lemma WordsOpposite(s: State, k: nat, j: nat)
    requires k < 8 && j < 4
    ensures ReverseWords(s)[4 * k + j] == s[28 - 4 * k + j]
  {
    var i := 4 * k + j;
    assert i % 4 == j;
  }

  /** The hash test_nonce_value judges. */
  function NonceHash(f: Compress, job: Job, nonce: nat, rolled: bv32, index: nat): State {
    var root := ReverseWords(job.merkleRoot);
    if index < |job.midstates| then
      Hash(f, Resumed(f, job.midstates[index], Tail(root, job.ntime, job.target, nonce)))
    else
      DoubleHash(f, Header(rolled, ReverseWords(job.prevBlockHash), root, job.ntime, job.target, nonce))
  }

  /** The hash of the block header with a given version: what a share is worth. */
  function ShareHash(f: Compress, n: Notify, root: State, version: bv32, nonce: nat): State
  {
    DoubleHash(f, Header(version, PrevHash(n), root, n.ntime, n.target, nonce))
  }

  /**
   A job depends on nothing but the notification, and not on what the buffer held, exactly if
   the text of the previous block hash has at least 63 digits.
   */
  lemma JobDetermined(f: Compress, n: Notify, root: State, mask: bv32)
    ensures (forall other: State :: Built(f, n.(buffer := other), root, mask) == Built(f, n, root, mask))
      <==> |n.prevHashHex| >= 63
  {
    hide Hex.BinOf, Output, ReverseWords, HeadBlock, Rolled;
    if |n.prevHashHex| >= 63 {
      forall other: State
        ensures Built(f, n.(buffer := other), root, mask) == Built(f, n, root, mask)
      {
        assert PrevBytes(n.(buffer := other)) == PrevBytes(n);
      }
    } else {
      var other: State := n.buffer[31 := if n.buffer[31] == 0 then 1 else 0];
      var m := n.(buffer := other);
      assert PrevBytes(m)[31] == other[31] != PrevBytes(n)[31];
      PrevHashTold(m, n);
      assert Built(f, m, root, mask).prevBlockHash != Built(f, n, root, mask).prevBlockHash;
    }
  }

  lemma PrevHashTold(m: Notify, n: Notify)
    requires PrevBytes(m) != PrevBytes(n)
    ensures ReverseWords(PrevHash(m)) != ReverseWords(PrevHash(n))
  {
    hide PrevBytes, Output, ReverseWords;
    ReverseWordsTwice(PrevHash(m));
    ReverseWordsTwice(PrevHash(n));
    OutputTwice(PrevBytes(m));
    OutputTwice(PrevBytes(n));
  }

  // ---------- what a nonce check computes ----------

  /** Without a stored midstate the header is rebuilt exactly from the job's reversed fields. */
  lemma FullPath(f: Compress, n: Notify, root: State, mask: bv32, nonce: nat, rolled: bv32, index: nat)
    requires index >= MidstateCount(mask)
    ensures NonceHash(f, Built(f, n, root, mask), nonce, rolled, index) == ShareHash(f, n, root, rolled, nonce)
  {
    hide Hash, Output, ReverseWords, Header;
    ReverseWordsTwice(PrevHash(n));
    ReverseWordsTwice(root);
  }

  /**
   Resuming from a stored midstate whose word order is restored first gives the hash of the
   header with the version the midstate was made for.
   */
  lemma RestoredPath(f: Compress, n: Notify, root: State, mask: bv32, nonce: nat, index: nat)
    requires index < MidstateCount(mask)
    ensures var job := Built(f, n, root, mask);
      Hash(f, Resumed(f, ReverseWords(job.midstates[index]), Tail(ReverseWords(job.merkleRoot), job.ntime, job.target, nonce)))
      == ShareHash(f, n, root, Rolled(n.version, mask, index), nonce)
  {
    hide Hash, Output, ReverseWords, Header, HeadBlock, Tail, Resumed;
    var v, prev := Rolled(n.version, mask, index), PrevHash(n);
    ReverseWordsTwice(f(IV, HeadBlock(v, prev, root)));
    ReverseWordsTwice(root);
    HeaderSplits(v, prev, root, n.ntime, n.target, nonce);
    ResumeIsHash(f, HeadBlock(v, prev, root), Tail(root, n.ntime, n.target, nonce));
  }

  /** Different versions make different first blocks. */
  lemma HeadBlocksDiffer(a: bv32, b: bv32, prev: State, root: State)
    ensures HeadBlock(a, prev, root) == HeadBlock(b, prev, root) <==> a == b
  {
    hide Little;
    if HeadBlock(a, prev, root) == HeadBlock(b, prev, root) {
      assert HeadBlock(a, prev, root)[..4] == Word(a as nat) && HeadBlock(b, prev, root)[..4] == Word(b as nat);
      WordInjective(a as nat, b as nat);
      SameNumber(a, b);
    }
  }

  lemma WordInjective(x: nat, y: nat)
    requires x < 0x1_0000_0000 && y < 0x1_0000_0000 && Word(x) == Word(y)
    ensures x == y
  {
    hide Little, LittleValue;
    assert Pow(256, 4) == 0x1_0000_0000 by { assert Pow(256, 2) == 65536; }
    LittleRoundTrip(x, 4);
    LittleRoundTrip(y, 4);
  }

  lemma SameNumber(a: bv32, b: bv32)
    requires a as nat == b as nat
    ensures a == b
  {
    assert (a as nat) as bv32 == a && (b as nat) as bv32 == b;
  }

  /** A compression function that tells one block from all others. */
  function Telling(block: Block): Compress {
    (s: State, b: Block) => if b == block then Repeat(1, 32) else Repeat(0, 32)
  }

  /** The midstate stored at an index is that of a version, for every compression function, exactly if it was made for it. */
  lemma StoredVersion(n: Notify, root: State, mask: bv32, index: nat, version: bv32)
    requires index < MidstateCount(mask)
    ensures (forall f: Compress :: Stored(f, n, root, mask, index) == MidstateOf(f, version, n, root))
      <==> Rolled(n.version, mask, index) == version
  {
    hide Rolled, HeadBlock, PrevHash;
    var a := Rolled(n.version, mask, index);
    if a != version {
      HeadBlocksDiffer(a, version, PrevHash(n), root);
      var f := Telling(HeadBlock(a, PrevHash(n), root));
      assert Stored(f, n, root, mask, index)[0] == 1 && MidstateOf(f, version, n, root)[0] == 0;
    }
  }

  /**
   The version reported for a midstate index, replayed with a mask that was read again, is the one
   whose midstate is stored there, for every compression function, if and only if the two masks
   agree after so many steps. If no lowest run is a single bit this means that the index is 0, or
   the masks have the same lowest bit and either the same lowest run or no wrap of the shorter.
   */
  lemma MidstateOfVersion(n: Notify, root: State, built: bv32, replayed: bv32, index: nat)
    requires index < MidstateCount(built)
    ensures (forall f: Compress :: Stored(f, n, root, built, index) == MidstateOf(f, Rolled(n.version, replayed, index), n, root))
      <==> AgreeAfter(n.version, built, replayed, index)
    ensures Wide(built) && Wide(replayed) ==>
      (AgreeAfter(n.version, built, replayed, index) <==> index == 0 || SameUpTo(n.version, built, replayed, index))
  {
    hide Rolled, Wide, SameUpTo, Stored, MidstateOf, AgreeAfter;
    StoredVersion(n, root, built, index, Rolled(n.version, replayed, index));
    AgreeExactly(n.version, built, replayed, index);
    if Wide(built) && Wide(replayed) {
      VersionsAgree(n.version, built, replayed, index);
    }
  }

  /** The stored form of the midstate of a version. */
  function MidstateOf(f: Compress, version: bv32, n: Notify, root: State): State
  {
    ReverseWords(f(IV, HeadBlock(version, PrevHash(n), root)))
  }

  // ---------- the midstates as they are stored ----------

  /** A state whose reversal differs, told apart by its first byte. */
  function Marked(c: byte): State {
    [c] + Repeat(0, 31)
  }

  /** A compression function for which a given first block leads to a chosen state. */
  function Chosen(block: Block, target: State): Compress {
    (s: State, b: Block) => if s != IV then s else if b == block then target else b[..32]
  }

  lemma MarkedFacts(c: byte, d: byte)
    requires 0 < c != d && d > 0
    ensures Marked(c) != IV && ReverseWords(Marked(c)) != IV
    ensures Output(Marked(c)) != Output(ReverseWords(Marked(c)))
    ensures Output(Marked(c)) != Output(Marked(d)) && Output(Marked(c)) != Output(ReverseWords(Marked(d)))
    ensures Output(ReverseWords(Marked(c))) != Output(ReverseWords(Marked(d)))
  {
    assert Marked(c)[0] == c && Marked(c)[1] == 0 && ReverseWords(Marked(c))[0] == 0 && ReverseWords(Marked(c))[28] == c;
    assert Output(Marked(c))[3] == c && Output(Marked(d))[3] == d;
    assert Output(ReverseWords(Marked(c)))[3] == 0 && Output(ReverseWords(Marked(d)))[3] == 0;
    assert Output(ReverseWords(Marked(c)))[31] == c && Output(ReverseWords(Marked(d)))[31] == d;
    assert IV[0] == 0x67 && IV[1] == 0xe6;
  }

  /** A state that is not IV passes through all further blocks. */
  lemma {:induction false} PassesThrough(block: Block, target: State, s: State, data: Bytes)
    requires s != IV && |data| % 64 == 0
    ensures Blocks(Chosen(block, target), s, data) == s
    decreases data
  {
    if data != [] {
      PassesThrough(block, target, s, data[64..]);
    }
  }

  /** The padded second hash is one block that starts with the first digest. */
  lemma SecondHash(block: Block, target: State, d: State)
    requires block[..32] != d
    ensures Hash(Chosen(block, target), d) == Output(d)
  {
    var padded := d + Padding(32);
    assert padded[..64] == padded && padded[64..] == [];
    assert padded[..32] == d;
    var f := Chosen(block, target);
    assert Blocks(f, IV, padded) == f(IV, padded);
  }

  /** A target state whose two digests both differ from the start of a block. */
  function Apart(block: Block): (t: State)
    ensures t != IV && ReverseWords(t) != IV && Output(t) != Output(ReverseWords(t))
    ensures block[..32] != Output(t) && block[..32] != Output(ReverseWords(t))
  {
    MarkedFacts(1, 2);
    MarkedFacts(2, 1);
    if block[..32] != Output(Marked(1)) && block[..32] != Output(ReverseWords(Marked(1))) then Marked(1) else Marked(2)
  }

  /** With a suitable compression function, the stored midstate leads to another hash. */
  lemma StoredDiffers(n: Notify, root: State, mask: bv32, nonce: nat, index: nat)
    requires index < MidstateCount(mask)
    ensures var v := Rolled(n.version, mask, index);
      var f := Chosen(HeadBlock(v, PrevHash(n), root), Apart(HeadBlock(v, PrevHash(n), root)));
      NonceHash(f, Built(f, n, root, mask), nonce, v, index) != ShareHash(f, n, root, v, nonce)
  {
    hide HeadBlock, Header, Tail, Output, ReverseWords, PrevHash, Rolled, Apart, Padding, Hash;
    var v, prev := Rolled(n.version, mask, index), PrevHash(n);
    var block, tail := HeadBlock(v, prev, root), Tail(root, n.ntime, n.target, nonce);
    var t := Apart(block);
    var f := Chosen(block, t);
    ReverseWordsTwice(root);
    PassesThrough(block, t, ReverseWords(t), Closed(tail, 64));
    SecondHash(block, t, Output(ReverseWords(t)));
    HeaderSplits(v, prev, root, n.ntime, n.target, nonce);
    ResumeIsHash(f, block, tail);
    PassesThrough(block, t, t, Closed(tail, 64));
    SecondHash(block, t, Output(t));
    OutputTwice(t);
    OutputTwice(ReverseWords(t));
  }

  /**
   A nonce check agrees with the hash of the header, for every compression function, exactly
   when the index names no stored midstate: the midstates are stored with their words
   reversed and resumed from as stored.
   */
  lemma NonceCheckAgrees(n: Notify, root: State, mask: bv32, nonce: nat, rolled: bv32, index: nat)
    requires index < MidstateCount(mask) ==> rolled == Rolled(n.version, mask, index)
    ensures (forall f: Compress ::
               NonceHash(f, Built(f, n, root, mask), nonce, rolled, index) == ShareHash(f, n, root, rolled, nonce))
      <==> index >= MidstateCount(mask)
  {
    hide NonceHash, Built, ShareHash, Rolled;
    if index >= MidstateCount(mask) {
      forall f: Compress
        ensures NonceHash(f, Built(f, n, root, mask), nonce, rolled, index) == ShareHash(f, n, root, rolled, nonce)
      {
        FullPath(f, n, root, mask, nonce, rolled, index);
      }
    } else {
      StoredDiffers(n, root, mask, nonce, index);
    }
  }

  // ---------- the C functions ----------

  /** bm_job as the code fills it in. */
  class BmJob {
    var version: bv32
    var ntime: nat
    var target: nat
    var startingNonce: nat
    var merkleRoot: State
    var prevBlockHash: State
    var numMidstates: nat
    var midstates: seq<State>

    constructor ()
      ensures |midstates| == 4
    {
      var zero: State := Repeat(0, 32);
      version, ntime, target, startingNonce, numMidstates := 0, 0, 0, 0, 0;
      merkleRoot, prevBlockHash := zero, zero;
      midstates := [zero, zero, zero, zero];
    }

    function View(): Job
      reads this
      requires numMidstates <= |midstates|
    {
      Job(version, prevBlockHash, merkleRoot, ntime, target, midstates[..numMidstates])
    }

    /** Hashes the first header block with a version and stores the reversed state. */
    method StoreMidstate(f: Compress, rolled: bv32, prev: State, root: State, k: nat)
      requires k < |midstates|
      modifies this`midstates
      ensures midstates == old(midstates)[k := ReverseWords(f(IV, HeadBlock(rolled, prev, root)))]
    {
      hide HeadBlock, ReverseWords;
      var block := HeadBlock(rolled, prev, root);
      var mid := Midstate(f, block);
      assert block[..64] == block;
      var words := new byte[32];
      CopyReversed(mid, words);
      midstates := midstates[k := words[..]];
    }

    /** The byte-order work of construct_bm_job: root and previous hash into reversed word order. */
    method StoreHashes(n: Notify, root: State) returns (prev: State)
      requires 0 !in n.prevHashHex
      modifies this`merkleRoot, this`prevBlockHash
      ensures prev == PrevHash(n)
      ensures merkleRoot == ReverseWords(root) && prevBlockHash == ReverseWords(PrevHash(n))
    {
      hide ReverseWords, Output;
      var words := new byte[32];
      CopyReversed(root, words);
      merkleRoot := words[..];
      var prevBytes := new byte[32](i requires 0 <= i < 32 => n.buffer[i]);
      assert prevBytes[..] == n.buffer;
      var _ := Hex.Hex2Bin(n.prevHashHex, prevBytes, 0, 32);
      assert prevBytes[..] == PrevBytes(n);
      SwapEachWord(prevBytes);
      prev := prevBytes[..];
      CopyReversed(prev, words);
      prevBlockHash := words[..];
    }

    /** The midstates of construct_bm_job, one per rolled version. */
    method StoreMidstates(f: Compress, n: Notify, prev: State, root: State, mask: bv32)
      requires prev == PrevHash(n) && |midstates| == 4
      modifies this`midstates, this`numMidstates
      ensures |midstates| == 4 && numMidstates == MidstateCount(mask)
      ensures forall k :: 0 <= k < numMidstates ==> midstates[k] == Stored(f, n, root, mask, k)
      ensures forall k :: numMidstates <= k < 4 ==> midstates[k] == old(midstates[k])
    {
      hide HeadBlock, ReverseWords, Increment, Rolled, PrevHash;
      FourVersions(n.version, mask);
      StoreMidstate(f, n.version, prev, root, 0);
      if mask != 0 {
        var rolled := Increment(n.version, mask);
        StoreMidstate(f, rolled, prev, root, 1);
        rolled := Increment(rolled, mask);
        StoreMidstate(f, rolled, prev, root, 2);
        rolled := Increment(rolled, mask);
        StoreMidstate(f, rolled, prev, root, 3);
        numMidstates := 4;
      } else {
        numMidstates := 1;
      }
    }

    /** construct_bm_job. Without a mask only the first midstate is made; the others keep their contents. */
    method Construct(f: Compress, n: Notify, root: State, mask: bv32)
      requires 0 !in n.prevHashHex && |midstates| == 4
      modifies this
      ensures |midstates| == 4 && numMidstates == MidstateCount(mask) && startingNonce == 0
      ensures View() == Built(f, n, root, mask)
      ensures forall k :: numMidstates <= k < 4 ==> midstates[k] == old(midstates[k])
    {
      hide ReverseWords, Stored, PrevHash;
      version, target, ntime, startingNonce := n.version, n.target, n.ntime, 0;
      var prev := StoreHashes(n, root);
      StoreMidstates(f, n, prev, root, mask);
      assert midstates[..numMidstates] == Built(f, n, root, mask).midstates;
    }

    /** test_nonce_value, up to the conversion of the hash to a difficulty. */
    method TestNonce(f: Compress, nonce: nat, rolled: bv32, index: nat) returns (hash: State)
      requires |midstates| == 4 && numMidstates <= 4
      ensures hash == NonceHash(f, View(), nonce, rolled, index)
    {
      hide Header, Tail, Resumed, Hash;
      var rootBytes := new byte[32];
      CopyReversed(merkleRoot, rootBytes);
      var root: State := rootBytes[..];
      if index < numMidstates {
        var first := Resume(f, midstates[index], Tail(root, ntime, target, nonce));
        hash := OneShot(f, first);
      } else {
        var prevBytes := new byte[32];
        CopyReversed(prevBlockHash, prevBytes);
        var first := OneShot(f, Header(rolled, prevBytes[..], root, ntime, target, nonce));
        hash := OneShot(f, first);
      }
    }
  }

  lemma FourVersions(version: bv32, mask: bv32)
    ensures Rolled(version, mask, 0) == version && Rolled(version, mask, 1) == Increment(version, mask)
    ensures Rolled(version, mask, 2) == Increment(Increment(version, mask), mask)
    ensures Rolled(version, mask, 3) == Increment(Increment(Increment(version, mask), mask), mask)
  {
    hide Increment;
    assert Rolled(version, mask, 2) == Increment(Rolled(version, mask, 1), mask);
    assert Rolled(version, mask, 3) == Increment(Rolled(version, mask, 2), mask);
  }
}
