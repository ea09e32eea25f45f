/**
 The miner tag of components/stratum/coinbase_decoder.c:212-253: the script-sig without the
 height and the extranonces, copied from two hexadecimal texts into an allocated buffer. The
 length of the first copy is computed as a signed number and passed as a size.
 */
module MinerTag {
  import opened Digits
  import opened Options
  import opened Packing
  import Hex

  // ---------- the copies ----------

  /** hex2bin(text + from, tag + at, count), for a text of so many characters and a buffer with so much room. */
  datatype Copy = Copy(text: nat, from: nat, room: nat, at: int, count: nat)

  /** How many bytes a copy writes: hex2bin ends at the terminator. */
  function Written(c: Copy): nat
    requires c.from <= c.text
  {
    Least(c.count, (c.text - c.from + 1) / 2)
  }

  /** The copy reads no character behind the terminator and writes no byte outside the buffer. */
  predicate Stays(c: Copy) {
    c.count == 0 || (c.from <= c.text && 0 <= c.at && c.at + Written(c) <= c.room)
  }

  /**
   What a notification says about its tag: text lengths, script-sig length, height length, length
   of the first extranonce, and the number the pool gave as the length of the second.
   */
  datatype Layout = Layout(text1: nat, text2: nat, sigLength: nat, heightLength: nat, extranonce1: nat, extranonce2: int)

  /** As the decoder reaches the extraction: with 43 bytes in the first piece and a height length from 1 to 4. */
  predicate Reached(l: Layout) {
    && 86 <= l.text1 <= MAX_TEXT && l.text2 <= MAX_TEXT
    && l.sigLength < 256 && 1 <= l.heightLength <= 4
    && l.extranonce1 <= MAX_TEXT && IsInt(l.extranonce2)
  }

  /** A length without both extranonces: their sum is a size_t, and the difference goes back into an int. */
  function Less(n: int, extranonce1: nat, extranonce2: int): (r: int)
    ensures IsInt(r)
  {
    Int32(SizeT(n) - SizeT(extranonce1 + SizeT(extranonce2)))
  }

  lemma LessIs(n: int, extranonce1: nat, extranonce2: int)
    ensures Less(n, extranonce1, extranonce2) == Int32(n - extranonce1 - extranonce2)
  {
  }

  /** What the first piece holds behind the height; negative if it ends inside the height. */
  function Behind(l: Layout): int {
    l.text1 / 2 - 43 - l.heightLength
  }

  /** What the script-sig holds behind the height. */
  function Whole(l: Layout): int {
    l.sigLength - 1 - l.heightLength
  }

  /** scriptsig_length: without the extranonces if the script-sig goes on behind the first piece. */
  function TagLength(l: Layout): int {
    if Behind(l) < Whole(l) then Less(Whole(l), l.extranonce1, l.extranonce2) else Whole(l)
  }

  /** coinbase_1_tag_len and coinbase_2_tag_len */
  function FromFirst(l: Layout): int {
    if Behind(l) > TagLength(l) then TagLength(l) else Behind(l)
  }

  function FromLast(l: Layout): int {
    TagLength(l) - FromFirst(l)
  }

  /** The copies of the extraction. */
  function Copies(l: Layout): seq<Copy> {
    if TagLength(l) <= 0 then []
    else
      var room := SizeT(TagLength(l) + 1);
      [Copy(l.text1, 2 * (43 + l.heightLength), room, 0, SizeT(FromFirst(l)))] +
      if 0 < FromLast(l) <= l.text2 / 2 then [Copy(l.text2, 0, room, FromFirst(l), FromLast(l))] else []
  }

  predicate Inside(l: Layout) {
    forall i :: 0 <= i < |Copies(l)| ==> Stays(Copies(l)[i])
  }

  /**
   The extraction stays inside both texts and its buffer if and only if the first piece holds
   the whole height or there is nothing to extract.
   */
  lemma InsideExact(l: Layout)
    requires Reached(l)
    ensures Inside(l) <==> 43 + l.heightLength <= l.text1 / 2 || TagLength(l) <= 0
  {
    hide Less, SizeT, Int32;
    var copies := Copies(l);
    if TagLength(l) > 0 {
      AsSize(FromFirst(l));
      AsSize(TagLength(l));
      if Behind(l) < 0 {
        assert !Stays(copies[0]);
      }
    }
  }

  lemma AsSize(n: int)
    requires IsInt(n)
    ensures n >= 0 ==> SizeT(n) == n && SizeT(n + 1) == n + 1
    ensures n < 0 ==> SizeT(n) > INT_MAX
  {
  }

  /**
   With script-sig behind the first piece, the length of the tag is that of the script-sig without
   height and extranonces if and only if the pool told the length of the second one as it is.
   */
  lemma LengthExact(l: Layout, x2: nat)
    requires Reached(l) && l.extranonce1 + x2 <= Whole(l) && Behind(l) < Whole(l)
    ensures TagLength(l) == Whole(l) - l.extranonce1 - x2 <==> l.extranonce2 == x2
  {
    hide Less;
    LessIs(Whole(l), l.extranonce1, l.extranonce2);
  }

  // ---------- the tag ----------

  /** isprint */
  predicate Prints(b: byte) {
    0x20 <= b <= 0x7E
  }

  /** A full stop for everything that does not print. */
  function Printable(s: Bytes): (r: Bytes)
    ensures |r| == |s|
  {
    seq(|s|, i requires 0 <= i < |s| => if Prints(s[i]) then s[i] else '.' as int)
  }

  /** The tag, if there is one and the last piece is long enough for it. */
  function TagOf(l: Layout, c1: Bytes, c2: Bytes): Option<Bytes>
    requires 0 <= Behind(l) || TagLength(l) <= 0
    requires l.text1 / 2 <= |c1| && l.text2 / 2 <= |c2|
  {
    if TagLength(l) <= 0 || FromLast(l) > l.text2 / 2 then None
    else Some(Printable(c1[43 + l.heightLength..][..FromFirst(l)] + c2[..FromLast(l)]))
  }

  /** A copy writes the bytes it decodes, as far as it counts. */
  lemma WrittenIs(c: Copy, hex: Bytes)
    requires |hex| == c.text && c.from <= c.text
    ensures Written(c) == |Clip(Hex.BinOf(hex[c.from..]), c.count)|
  {
    hide Hex.HexValue;
  }

  lemma CopiesAre(l: Layout)
    requires Reached(l) && 0 <= Behind(l) && TagLength(l) > 0 && FromLast(l) <= l.text2 / 2
    ensures var n, m, room, from := FromFirst(l), FromLast(l), TagLength(l) + 1, 2 * (43 + l.heightLength);
      && 0 <= n && 0 <= m && n + m == TagLength(l) && from + 2 * n <= l.text1
      && Copies(l) == [Copy(l.text1, from, room, 0, n)] + (if m == 0 then [] else [Copy(l.text2, 0, room, n, m)])
      && Written(Copies(l)[0]) == n && (m > 0 ==> Written(Copies(l)[1]) == m)
  {
    hide Less;
  }

  lemma PrintableParts(a: Bytes, b: Bytes)
    ensures Printable(a + b)[..|a|] == Printable(a) && Printable(a + b)[|a|..] == Printable(b)
  {
  }

  /**
   The copies are those that make the tag: into room for it and a terminator, the first part from
   the first piece, and what it lacks, if anything, behind it from the last piece.
   */
  lemma CopiesMakeTag(l: Layout, hex1: Bytes, hex2: Bytes)
    requires Reached(l) && |hex1| == l.text1 && |hex2| == l.text2 && (0 <= Behind(l) || TagLength(l) <= 0)
    requires TagOf(l, Hex.BinOf(hex1), Hex.BinOf(hex2)).Some?
    ensures var cs, tag := Copies(l), TagOf(l, Hex.BinOf(hex1), Hex.BinOf(hex2)).value;
      && 1 <= |cs| <= 2 && cs[0].from <= |hex1| && cs[0].at == 0 && cs[0].room == |tag| + 1
      && Written(cs[0]) <= |tag| && (|cs| == 1 <==> Written(cs[0]) == |tag|)
      && tag[..Written(cs[0])] == Printable(Clip(Hex.BinOf(hex1[cs[0].from..]), cs[0].count))
      && (|cs| == 2 ==>
            && cs[1].from <= |hex2| && cs[1].at == Written(cs[0]) && cs[1].room == |tag| + 1
            && Written(cs[1]) == |tag| - cs[1].at
            && tag[cs[1].at..] == Printable(Clip(Hex.BinOf(hex2[cs[1].from..]), cs[1].count)))
  {
    hide Copies, Written, Hex.BinOf, Hex.HexValue, Printable, Behind, TagLength, FromFirst, FromLast, Reached, Less, Int32, SizeT;
    var n, m, c1, c2 := FromFirst(l), FromLast(l), Hex.BinOf(hex1), Hex.BinOf(hex2);
    CopiesAre(l);
    Hex.BinFrom(hex1, 43 + l.heightLength);
    var a, b := c1[43 + l.heightLength..][..n], c2[..m];
    PrintableParts(a, b);
    assert Clip(Hex.BinOf(hex1[2 * (43 + l.heightLength)..]), n) == a;
    assert hex2[0..] == hex2 && Clip(c2, m) == b;
  }

  /** If the script-sig ends in the first piece, the lengths of the extranonces are not looked at. */
  lemma EndsInFirst(l: Layout)
    requires Behind(l) >= Whole(l)
    ensures TagLength(l) == Whole(l)
  {
  }

  /**
   The extraction; granted says whether the buffer can be allocated. It goes no further when a
   copy would leave its text or the buffer.
   */
  method Extract(hex1: Bytes, hex2: Bytes, sigLength: nat, heightLength: nat, extranonce1: nat, extranonce2: int, granted: bool)
    returns (inside: bool, tag: Option<Bytes>)
    requires 0 !in hex1 && 0 !in hex2
    requires Reached(Layout(|hex1|, |hex2|, sigLength, heightLength, extranonce1, extranonce2))
    ensures var l := Layout(|hex1|, |hex2|, sigLength, heightLength, extranonce1, extranonce2);
      && inside == (granted ==> Inside(l))
      && (inside && !granted ==> tag == None)
      && (inside && granted ==>
           && (0 <= Behind(l) || TagLength(l) <= 0)
           && tag == TagOf(l, Hex.BinOf(hex1), Hex.BinOf(hex2)))
  {
    ghost var l := Layout(|hex1|, |hex2|, sigLength, heightLength, extranonce1, extranonce2);
    InsideExact(l);
    hide Inside, Printable, Less;
    var offset := 43 + heightLength;
    var length := sigLength - 1 - heightLength;
    if |hex1| / 2 - offset < length {
      length := Less(length, extranonce1, extranonce2);
    }
    if length <= 0 || !granted {
      return true, None;
    }
    var fromFirst := |hex1| / 2 - offset;
    if fromFirst > length {
      fromFirst := length;
    }
    if fromFirst < 0 {
      return false, None;
    }
    var fromLast := length - fromFirst;
    if |hex2| / 2 < fromLast {
      return true, None;
    }
    var text := CopyTag(hex1, hex2, offset, fromFirst, fromLast);
    tag := Some(text);
    inside := true;
  }

  /** Both copies, inside their bounds, and the filter. */
  method CopyTag(hex1: Bytes, hex2: Bytes, offset: nat, fromFirst: nat, fromLast: nat) returns (text: Bytes)
    requires 0 !in hex1 && 0 !in hex2 && offset + fromFirst <= |hex1| / 2 && fromLast <= |hex2| / 2
    ensures text == Printable(Hex.BinOf(hex1)[offset..][..fromFirst] + Hex.BinOf(hex2)[..fromLast])
  {
    hide Printable;
    var tag := new byte[fromFirst + fromLast];
    assert 0 !in hex1[2 * offset..];
    Hex.BinFrom(hex1, offset);
    ghost var first := Hex.BinOf(hex1)[offset..][..fromFirst];
    var _ := Hex.Hex2Bin(hex1[2 * offset..], tag, 0, fromFirst);
    assert tag[..fromFirst] == first;
    if fromLast > 0 {
      var _ := Hex.Hex2Bin(hex2, tag, fromFirst, fromLast);
    }
    assert tag[..] == tag[..fromFirst] + tag[fromFirst..];
    assert tag[..] == first + Hex.BinOf(hex2)[..fromLast];
    Filter(tag);
    text := tag[..];
  }

  /** The loop over the tag. */
  method Filter(tag: array<byte>)
    modifies tag
    ensures tag[..] == Printable(old(tag[..]))
  {
    var i := 0;
    while i < tag.Length
      invariant 0 <= i <= tag.Length
      invariant forall k :: 0 <= k < i ==> tag[k] == Printable(old(tag[..]))[k]
      invariant forall k :: i <= k < tag.Length ==> tag[k] == old(tag[k])
    {
      if !Prints(tag[i]) {
        tag[i] := '.' as int;
      }
      i := i + 1;
    }
  }
}
