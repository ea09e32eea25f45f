/**
 Bech32 and Bech32m text as in components/stratum/segwit_addr.c. Encode and Decode say
 which texts stand for which data; the two methods are the C loops proved against them.
 */
module Bech32 {
  import opened Options
  import opened Digits
  import opened Polymod

  datatype Encoding = NONE | BECH32 | BECH32M

  /** The contents of a C string. */
  type CString = s: seq<byte> | 0 !in s

  /** A human-readable part, data symbols and the encoding they were protected with. */
  datatype Decoded = Decoded(hrp: seq<byte>, data: seq<byte>, enc: Encoding)

  const SEPARATOR: byte := 49  // '1'

  /** bech32_final_constant */
  function FinalConstant(enc: Encoding): bv32
    requires enc != NONE
  {
    if enc == BECH32 then 1 else 0x2bc830a3
  }

  // ---------- characters ----------

  /** charset: "qpzry9x8gf2tvdw0s3jn54khce6mua7l" */
  function Char(v: byte): byte
    requires v < 32
  {
    match v
    case 0 => 'q' as int  case 1 => 'p' as int  case 2 => 'z' as int  case 3 => 'r' as int
    case 4 => 'y' as int  case 5 => '9' as int  case 6 => 'x' as int  case 7 => '8' as int
    case 8 => 'g' as int  case 9 => 'f' as int  case 10 => '2' as int case 11 => 't' as int
    case 12 => 'v' as int case 13 => 'd' as int case 14 => 'w' as int case 15 => '0' as int
    case 16 => 's' as int case 17 => '3' as int case 18 => 'j' as int case 19 => 'n' as int
    case 20 => '5' as int case 21 => '4' as int case 22 => 'k' as int case 23 => 'h' as int
    case 24 => 'c' as int case 25 => 'e' as int case 26 => '6' as int case 27 => 'm' as int
    case 28 => 'u' as int case 29 => 'a' as int case 30 => '7' as int case 31 => 'l' as int
  }

  function Lower(c: byte): byte {
    if 'A' as int <= c <= 'Z' as int then c + 32 else c
  }

  /** charset_rev, in which both cases of a letter share an entry; codes from 128 on give -1. */
  function Rev(c: byte): (v: int)
    ensures -1 <= v < 32
  {
    var l := Lower(c);
    if l == 'q' as int then 0 else if l == 'p' as int then 1 else if l == 'z' as int then 2
    else if l == 'r' as int then 3 else if l == 'y' as int then 4 else if l == '9' as int then 5
    else if l == 'x' as int then 6 else if l == '8' as int then 7 else if l == 'g' as int then 8
    else if l == 'f' as int then 9 else if l == '2' as int then 10 else if l == 't' as int then 11
    else if l == 'v' as int then 12 else if l == 'd' as int then 13 else if l == 'w' as int then 14
    else if l == '0' as int then 15 else if l == 's' as int then 16 else if l == '3' as int then 17
    else if l == 'j' as int then 18 else if l == 'n' as int then 19 else if l == '5' as int then 20
    else if l == '4' as int then 21 else if l == 'k' as int then 22 else if l == 'h' as int then 23
    else if l == 'c' as int then 24 else if l == 'e' as int then 25 else if l == '6' as int then 26
    else if l == 'm' as int then 27 else if l == 'u' as int then 28 else if l == 'a' as int then 29
    else if l == '7' as int then 30 else if l == 'l' as int then 31
    else -1
  }

  predicate IsUpper(c: byte) { 'A' as int <= c <= 'Z' as int }
  predicate IsLower(c: byte) { 'a' as int <= c <= 'z' as int }
  predicate Printable(c: byte) { 33 <= c <= 126 }

  lemma CharRev(v: byte)
    requires v < 32
    ensures Rev(Char(v)) == v
    ensures Printable(Char(v)) && !IsUpper(Char(v)) && Char(v) != SEPARATOR
  {
  }

  lemma RevChar(c: byte)
    ensures Rev(c) != -1 ==> Char(Rev(c)) == Lower(c) && c != SEPARATOR && c < 128
    ensures Rev(Lower(c)) == Rev(c)
  {
  }

  // ---------- the checksum of a human-readable part and data ----------

  function Lowers(s: seq<byte>): (r: seq<byte>)
    ensures |r| == |s|
  {
    seq(|s|, i requires 0 <= i < |s| => Lower(s[i]))
  }

  function Chars(s: seq<byte>): (r: seq<byte>)
    requires Symbols(s)
    ensures |r| == |s|
  {
    seq(|s|, i requires 0 <= i < |s| => Char(s[i]))
  }

  predicate DataText(s: seq<byte>) {
    forall i :: 0 <= i < |s| ==> Rev(s[i]) != -1
  }

  function Revs(s: seq<byte>): (r: seq<byte>)
    requires DataText(s)
    ensures |r| == |s| && Symbols(r)
  {
    seq(|s|, i requires 0 <= i < |s| => Rev(s[i]))
  }

  /** ch >> 5 of every character */
  function Highs(hrp: seq<byte>): (r: seq<byte>)
    ensures |r| == |hrp| && Symbols(r)
  {
    seq(|hrp|, i requires 0 <= i < |hrp| => hrp[i] / 32)
  }

  /** ch & 0x1f of every character */
  function Lows(hrp: seq<byte>): (r: seq<byte>)
    ensures |r| == |hrp| && Symbols(r)
  {
    seq(|hrp|, i requires 0 <= i < |hrp| => hrp[i] % 32)
  }

  /** What the register takes in for the human-readable part. */
  function Expand(hrp: seq<byte>): (r: seq<byte>)
    ensures Symbols(r)
  {
    Highs(hrp) + [0] + Lows(hrp)
  }

  /** The checksum symbols: register of the zero-padded data plus the final constant. */
  function Checksum(hrp: seq<byte>, data: seq<byte>, enc: Encoding): (c: seq<byte>)
    requires enc != NONE
    ensures |c| == 6 && Symbols(c)
  {
    Picks(Xor(Feed(1, Expand(hrp) + data + Zeros(6)), FinalConstant(enc)))
  }

  // ---------- which text stands for which data ----------

  predicate HrpLegal(hrp: seq<byte>) {
    forall i :: 0 <= i < |hrp| ==> Printable(hrp[i]) && !IsUpper(hrp[i])
  }

  function Encode(hrp: seq<byte>, data: seq<byte>, enc: Encoding): Option<seq<byte>>
    requires enc != NONE
  {
    if !HrpLegal(hrp) || |hrp| + 7 + |data| > 90 || !Symbols(data) then None
    else Some(hrp + [SEPARATOR] + Chars(data + Checksum(hrp, data, enc)))
  }

  /** The characters after the last separator, or all of them when there is none. */
  function DataLen(text: seq<byte>): (d: nat)
    ensures d <= |text|
    ensures forall i :: |text| - d <= i < |text| ==> text[i] != SEPARATOR
    ensures d < |text| ==> text[|text| - 1 - d] == SEPARATOR
  {
    if text == [] || text[|text| - 1] == SEPARATOR then 0 else 1 + DataLen(text[..|text| - 1])
  }

  predicate Mixed(text: seq<byte>) {
    (exists i :: 0 <= i < |text| && IsLower(text[i])) && (exists i :: 0 <= i < |text| && IsUpper(text[i]))
  }

  predicate AllPrintable(s: seq<byte>) {
    forall i :: 0 <= i < |s| ==> Printable(s[i])
  }

  /** What the register takes in when the decoder reads hrp, separator, symbols. */
  function Stream(hrp: seq<byte>, part: seq<byte>): (r: seq<byte>)
    requires DataText(part)
    ensures Symbols(r)
  {
    Highs(Lowers(hrp)) + [0] + Lows(hrp) + Revs(part)
  }

  function Residue(hrp: seq<byte>, part: seq<byte>): bv32
    requires DataText(part)
  {
    Feed(1, Stream(hrp, part))
  }

  function Decode(text: seq<byte>): Option<Decoded> {
    var d := DataLen(text);
    if |text| < 8 || |text| > 90 || 1 + d >= |text| || d < 6 then None else
      var hrp, part := text[..|text| - 1 - d], text[|text| - d..];
      if !AllPrintable(hrp) || !DataText(part) || Mixed(text) then None
      else if Residue(hrp, part) == FinalConstant(BECH32) then Some(Decoded(Lowers(hrp), Revs(part)[..d - 6], BECH32))
      else if Residue(hrp, part) == FinalConstant(BECH32M) then Some(Decoded(Lowers(hrp), Revs(part)[..d - 6], BECH32M))
      else None
  }

  // ---------- what decoding accepts ----------

  lemma {:induction false} DataLenUnique(text: seq<byte>, d: nat)
    requires d < |text| && text[|text| - 1 - d] == SEPARATOR
    requires forall i :: |text| - d <= i < |text| ==> text[i] != SEPARATOR
    ensures DataLen(text) == d
  {
    if d > 0 {
      DataLenUnique(text[..|text| - 1], d - 1);
    }
  }

  lemma RevsLower(part: seq<byte>)
    ensures DataText(Lowers(part)) == DataText(part)
    ensures DataText(part) ==> Revs(Lowers(part)) == Revs(part) && Chars(Revs(part)) == Lowers(part)
  {
    forall i | 0 <= i < |part|
      ensures Rev(Lowers(part)[i]) == Rev(part[i])
      ensures Rev(part[i]) != -1 ==> Char(Rev(part[i])) == Lower(part[i])
    {
      RevChar(part[i]);
    }
  }

  lemma CharsRevs(s: seq<byte>)
    requires Symbols(s)
    ensures DataText(Chars(s)) && Revs(Chars(s)) == s
    ensures forall i :: 0 <= i < |s| ==> Chars(s)[i] != SEPARATOR && !IsUpper(Chars(s)[i])
  {
    forall i | 0 <= i < |s|
      ensures Rev(Chars(s)[i]) == s[i] && Chars(s)[i] != SEPARATOR && !IsUpper(Chars(s)[i])
    {
      CharRev(s[i]);
    }
  }

  /** Folding a letter to lower case only touches bit 5. */
  lemma LowsLower(hrp: seq<byte>)
    ensures Lows(Lowers(hrp)) == Lows(hrp)
  {
  }

  lemma LowersSame(s: seq<byte>)
    requires forall i :: 0 <= i < |s| ==> !IsUpper(s[i])
    ensures Lowers(s) == s
  {
  }

  /** The stream ends on the constant exactly when its last six symbols are the checksum. */
  lemma ResidueExact(hrp: seq<byte>, part: seq<byte>, enc: Encoding)
    requires DataText(part) && |part| >= 6 && enc != NONE
    ensures var data, tail := Revs(part)[..|part| - 6], Revs(part)[|part| - 6..];
            Residue(hrp, part) == FinalConstant(enc) <==> tail == Checksum(Lowers(hrp), data, enc)
  {
    hide Feed, Xor, Picks;
    var data, tail := Revs(part)[..|part| - 6], Revs(part)[|part| - 6..];
    var s := Expand(Lowers(hrp)) + data;
    LowsLower(hrp);
    assert Stream(hrp, part) == s + tail;
    ClosesExactly(1, s, tail, FinalConstant(enc));
  }

  /** A text the encoder wrote, possibly in upper case, splits where the encoder joined it. */
  lemma TextSplits(text: seq<byte>, hrp: seq<byte>, body: seq<byte>)
    requires Symbols(body)
    requires Lowers(text) == hrp + [SEPARATOR] + Chars(body)
    ensures DataLen(text) == |body| && |text| == |hrp| + 1 + |body|
    ensures Lowers(text[..|hrp|]) == hrp
    ensures DataText(text[|hrp| + 1..]) && Revs(text[|hrp| + 1..]) == body
  {
    hide Lowers, Chars, Revs, DataText, DataLen;
    SplitsAt(text, hrp, Chars(body));
    var part := text[|hrp| + 1..];
    CharsRevs(body);
    RevsLower(part);
    NoSeparator(part);
    DataLenUnique(text, |body|);
  }

  lemma SplitsAt(text: seq<byte>, hrp: seq<byte>, body: seq<byte>)
    requires Lowers(text) == hrp + [SEPARATOR] + body
    ensures |text| == |hrp| + 1 + |body| && text[|hrp|] == SEPARATOR
    ensures Lowers(text[..|hrp|]) == hrp && Lowers(text[|hrp| + 1..]) == body
  {
    var h, low := |hrp|, Lowers(text);
    assert low[..h] == hrp && low[h] == SEPARATOR && low[h + 1..] == body;
    assert Lower(text[h]) == low[h];
    LowerSeparator(text[h]);
    assert Lowers(text[..h]) == low[..h];
    assert Lowers(text[h + 1..]) == low[h + 1..];
  }

  lemma LowerSeparator(c: byte)
    requires Lower(c) == SEPARATOR
    ensures c == SEPARATOR
  {
  }

  lemma NoSeparator(part: seq<byte>)
    requires DataText(part)
    ensures forall i :: 0 <= i < |part| ==> part[i] != SEPARATOR
  {
    forall i | 0 <= i < |part|
      ensures part[i] != SEPARATOR
    {
      RevChar(part[i]);
    }
  }

  lemma PrintableLower(hrp: seq<byte>)
    ensures HrpLegal(Lowers(hrp)) == AllPrintable(hrp)
  {
    assert forall i :: 0 <= i < |hrp| ==> Lowers(hrp)[i] == Lower(hrp[i]);
    if HrpLegal(Lowers(hrp)) {
      forall i | 0 <= i < |hrp|
        ensures Printable(hrp[i])
      {
        assert Printable(Lowers(hrp)[i]);
      }
    }
  }

  /** The data characters of a decoded text, checksum included. */
  function Part(text: seq<byte>): (part: seq<byte>)
    requires Decode(text).Some?
    ensures DataText(part) && |text| == |Decode(text).value.hrp| + 1 + |part|
  {
    text[|text| - DataLen(text)..]
  }

  lemma DecodedParts(text: seq<byte>)
    requires Decode(text).Some?
    ensures var (r, part) := (Decode(text).value, Part(text));
      && r.enc != NONE
      && Lowers(text) == r.hrp + [SEPARATOR] + Chars(Revs(part))
      && Feed(1, Expand(r.hrp) + Revs(part)) == FinalConstant(r.enc)
  {
    hide Feed, FinalConstant;
    var d := DataLen(text);
    var raw, part := text[..|text| - 1 - d], text[|text| - d..];
    LowsLower(raw);
    RevsLower(part);
    assert text == raw + [SEPARATOR] + part;
    assert Lowers(text) == Lowers(raw) + [SEPARATOR] + Lowers(part);
    assert Stream(raw, part) == Expand(Lowers(raw)) + Revs(part);
  }

  /** What the branches of the decoder have established about an accepted text. */
  lemma DecodedFields(text: seq<byte>)
    requires Decode(text).Some?
    ensures var (r, part) := (Decode(text).value, Part(text));
      && r.enc != NONE && r.hrp != [] && !Mixed(text)
      && 6 <= |part| && |r.hrp| + 1 + |part| == |text| <= 90
      && AllPrintable(text[..|r.hrp|]) && r.hrp == Lowers(text[..|r.hrp|])
      && r.data == Revs(part)[..|part| - 6]
      && Residue(text[..|r.hrp|], part) == FinalConstant(r.enc)
  {
    hide Residue, FinalConstant, Mixed, AllPrintable, Lowers, Revs, DataText;
  }

  /** The decoder accepts a text only as the encoding of what it returns. */
  lemma DecodeSound(text: seq<byte>)
    requires Decode(text).Some?
    ensures var r := Decode(text).value;
      && r.enc != NONE && r.hrp != [] && !Mixed(text)
      && Encode(r.hrp, r.data, r.enc) == Some(Lowers(text))
  {
    hide Residue, Checksum, FinalConstant, Chars, Decode, Mixed, Revs, Lowers, Part, AllPrintable, HrpLegal;
    var r, part := Decode(text).value, Part(text);
    var raw := text[..|r.hrp|];
    DecodedFields(text);
    DecodedParts(text);
    ResidueExact(raw, part, r.enc);
    PrintableLower(raw);
    var tail := Revs(part)[|part| - 6..];
    assert Revs(part) == r.data + tail;
    assert Symbols(r.data);
  }

  /** It accepts every encoding with a human-readable part, in lower or in upper case. */
  lemma DecodeComplete(text: seq<byte>, hrp: seq<byte>, data: seq<byte>, enc: Encoding)
    requires enc != NONE && hrp != [] && !Mixed(text)
    requires Encode(hrp, data, enc) == Some(Lowers(text))
    ensures Decode(text) == Some(Decoded(hrp, data, enc))
  {
    hide Residue, Checksum, DataLen, Mixed;
    var body := data + Checksum(hrp, data, enc);
    TextSplits(text, hrp, body);
    var raw, part := text[..|hrp|], text[|hrp| + 1..];
    PrintableLower(raw);
    ResidueExact(raw, part, enc);
    assert Revs(part)[..|part| - 6] == data && Revs(part)[|part| - 6..] == Checksum(hrp, data, enc);
  }

  /** Exactly which texts decode to what. */
  lemma DecodeExact(text: seq<byte>, r: Decoded)
    ensures Decode(text) == Some(r) <==>
      r.enc != NONE && r.hrp != [] && !Mixed(text) && Encode(r.hrp, r.data, r.enc) == Some(Lowers(text))
  {
    hide Decode, Encode, Mixed;
    if Decode(text) == Some(r) {
      DecodeSound(text);
    } else if r.enc != NONE && r.hrp != [] && !Mixed(text) && Encode(r.hrp, r.data, r.enc) == Some(Lowers(text)) {
      DecodeComplete(text, r.hrp, r.data, r.enc);
    }
  }

  lemma EncodedIsLower(hrp: seq<byte>, data: seq<byte>, enc: Encoding)
    requires enc != NONE && Encode(hrp, data, enc).Some?
    ensures var text := Encode(hrp, data, enc).value; Lowers(text) == text && !Mixed(text)
  {
    var body := data + Checksum(hrp, data, enc);
    CharsRevs(body);
    var text := Encode(hrp, data, enc).value;
    assert forall i :: 0 <= i < |text| ==> !IsUpper(text[i]);
    LowersSame(text);
  }

  /**
   The round trip. The encoder also accepts an empty human-readable part, which the decoder
   rejects: that is the only case in which it does not get its input back.
   */
  lemma RoundTrip(hrp: seq<byte>, data: seq<byte>, enc: Encoding)
    requires enc != NONE && Encode(hrp, data, enc).Some?
    ensures Decode(Encode(hrp, data, enc).value) == Some(Decoded(hrp, data, enc)) <==> hrp != []
  {
    hide Decode, Encode, Mixed;
    EncodedIsLower(hrp, data, enc);
    DecodeExact(Encode(hrp, data, enc).value, Decoded(hrp, data, enc));
  }

  // The part "a" without data, symbol by symbol.

  lemma StreamOfA()
    ensures Expand(['a' as int]) + [] + Zeros(6) == [3, 0, 1, 0, 0, 0, 0, 0, 0]
  {
  }

  lemma FirstSteps()
    ensures Feed(1, []) == 1 && Xor(Step(1), Word(3)) == 0x23 && Step(0x23) == 0x460 && Xor(Step(0x460), Word(1)) == 0x8c01
    ensures Step(0x8c01) == 0x11_8020 && Step(0x11_8020) == 0x230_0400
  {
  }

  lemma LastSteps()
    ensures Step(0x230_0400) == 0x3d6a_d7b2 && Step(0x3d6a_d7b2) == 0x2fd_30b9 && Step(0x2fd_30b9) == 0x24cc_4092
    ensures Step(0x24cc_4092) == 0x15cc_fe9e
  {
  }

  lemma RegisterOfA()
    ensures Feed(1, Expand(['a' as int]) + [] + Zeros(6)) == 0x15cc_fe9e
  {
    hide *;
    StreamOfA();
    FirstSteps();
    LastSteps();
    var stream: seq<byte> := [3, 0, 1, 0, 0, 0, 0, 0, 0];
    assert stream[..0] == [] && stream[..9] == stream;
    FeedNext(stream, 0);
    FeedNext(stream, 1);
    FeedNext(stream, 2);
    ZeroSteps(stream);
  }

  /** The zeros at the end. */
  lemma ZeroSteps(stream: seq<byte>)
    requires stream == [3, 0, 1, 0, 0, 0, 0, 0, 0] && Feed(1, stream[..3]) == 0x8c01
    ensures Feed(1, stream[..9]) == 0x15cc_fe9e
  {
    hide *;
    FirstSteps();
    LastSteps();
    FeedNext(stream, 3);
    FeedNext(stream, 4);
    FeedNext(stream, 5);
    FeedNext(stream, 6);
    FeedNext(stream, 7);
    FeedNext(stream, 8);
  }

  lemma SixOfA()
    ensures Picks(Xor(0x15cc_fe9e, FinalConstant(BECH32))) == [10, 28, 25, 31, 20, 31]
    ensures Picks(Xor(0x15cc_fe9e, FinalConstant(BECH32M))) == [31, 0, 9, 19, 17, 29]
  {
  }

  /** The shortest texts of BIP-173 and BIP-350: a12uel5l and a1lqfn3a. */
  lemma KnownTexts()
    ensures Encode(['a' as int], [], BECH32) ==
      Some(['a' as int, '1' as int, '2' as int, 'u' as int, 'e' as int, 'l' as int, '5' as int, 'l' as int])
    ensures Encode(['a' as int], [], BECH32M) ==
      Some(['a' as int, '1' as int, 'l' as int, 'q' as int, 'f' as int, 'n' as int, '3' as int, 'a' as int])
  {
    hide *;
    SixOfA();
    LettersOfA();
    WrittenA(BECH32, [10, 28, 25, 31, 20, 31]);
    WrittenA(BECH32M, [31, 0, 9, 19, 17, 29]);
  }

  lemma WrittenA(enc: Encoding, sum: seq<byte>)
    requires enc != NONE && |sum| == 6 && Symbols(sum) && Picks(Xor(0x15cc_fe9e, FinalConstant(enc))) == sum
    ensures Encode(['a' as int], [], enc) ==
      Some(['a' as int, SEPARATOR, Char(sum[0]), Char(sum[1]), Char(sum[2]), Char(sum[3]), Char(sum[4]), Char(sum[5])])
  {
    RegisterOfA();
    hide Feed, Expand, Picks, Xor, FinalConstant, Char;
    var chars := [Char(sum[0]), Char(sum[1]), Char(sum[2]), Char(sum[3]), Char(sum[4]), Char(sum[5])];
    assert Checksum(['a' as int], [], enc) == sum && [] + sum == sum;
    assert Chars([] + sum) == chars;
    assert ['a' as int] + [SEPARATOR] + chars
      == ['a' as int, SEPARATOR, chars[0], chars[1], chars[2], chars[3], chars[4], chars[5]];
  }

  lemma LettersOfA()
    ensures Char(10) == '2' as int && Char(28) == 'u' as int && Char(25) == 'e' as int && Char(31) == 'l' as int
    ensures Char(20) == '5' as int && Char(0) == 'q' as int && Char(9) == 'f' as int && Char(19) == 'n' as int
    ensures Char(17) == '3' as int && Char(29) == 'a' as int
    ensures SEPARATOR == '1' as int
  {
  }

  /** The characters of the data part in the order of their symbols: qpzry9x8gf2tvdw0s3jn54khce6mua7l. */
  lemma Charset(v: byte)
    requires v < 32
    ensures Char(v) == ("qpzry9x8gf2tvdw0s3jn54khce6mua7l"[v]) as int
  {
  }

  /** The two cases of letters. */
  lemma Cases(c: byte)
    ensures IsUpper(c) <==> Lower(c) != c
    ensures IsLower(c) <==> c >= 32 && IsUpper(c - 32)
  {
  }

  /**
   Exactly which inputs have a text: codes from 33 to 126 but no upper case, symbols below 32, and
   at most 90 characters in all.
   */
  lemma EncodeDefined(hrp: seq<byte>, data: seq<byte>, enc: Encoding)
    requires enc != NONE
    ensures Encode(hrp, data, enc).Some? <==>
      && (forall i :: 0 <= i < |hrp| ==> 33 <= hrp[i] <= 126 && !('A' as int <= hrp[i] <= 'Z' as int))
      && (forall i :: 0 <= i < |data| ==> data[i] < 32)
      && |hrp| + 1 + |data| + 6 <= 90
  {
    hide Checksum, Chars;
  }

  /** The shortest such input: no part and no data. */
  lemma EmptyPartRejected(enc: Encoding)
    requires enc != NONE
    ensures Encode([], [], enc).Some? && Decode(Encode([], [], enc).value) != Some(Decoded([], [], enc))
  {
    RoundTrip([], [], enc);
  }

  /**
   Error detection. Two texts that decode with the same encoding and the same human-readable
   part, and whose characters differ at most inside a window of six data characters (case
   apart), are the same: no wrong data character, and no burst of up to six, goes unnoticed.
   */
  lemma WindowDetected(text: seq<byte>, text': seq<byte>, p: nat)
    requires Decode(text).Some? && Decode(text').Some?
    requires Decode(text).value.enc == Decode(text').value.enc
    requires Decode(text).value.hrp == Decode(text').value.hrp
    requires |text| == |text'| && |Decode(text).value.hrp| < p <= |text| - 6
    requires forall i :: 0 <= i < |text| && !(p <= i < p + 6) ==> Lower(text[i]) == Lower(text'[i])
    ensures Lowers(text) == Lowers(text')
  {
    hide Decode, Feed, FinalConstant;
    DecodedParts(text);
    DecodedParts(text');
    var hrp, enc := Decode(text).value.hrp, Decode(text).value.enc;
    var part, part' := Part(text), Part(text');
    AgreeOutside(part, part', p - |hrp| - 1);
    SameSymbols(Expand(hrp), Revs(part), Revs(part'), p - |hrp| - 1, FinalConstant(enc));
  }

  lemma AgreeOutside(part: seq<byte>, part': seq<byte>, q: nat)
    requires DataText(part) && DataText(part') && |part| == |part'|
    requires forall i :: 0 <= i < |part| && !(q <= i < q + 6) ==> Lower(part[i]) == Lower(part'[i])
    ensures forall i :: 0 <= i < |part| && !(q <= i < q + 6) ==> Revs(part)[i] == Revs(part')[i]
  {
    forall i | 0 <= i < |part| && !(q <= i < q + 6)
      ensures Revs(part)[i] == Revs(part')[i]
    {
      RevChar(part[i]);
      RevChar(part'[i]);
    }
  }

  lemma SameSymbols(start: seq<byte>, s: seq<byte>, s': seq<byte>, q: nat, k: bv32)
    requires Symbols(start) && Symbols(s) && Symbols(s')
    requires |s| == |s'| && q + 6 <= |s|
    requires forall i :: 0 <= i < |s| && !(q <= i < q + 6) ==> s[i] == s'[i]
    requires Feed(1, start + s) == k && Feed(1, start + s') == k
    ensures s == s'
  {
    hide Feed, Symbols;
    var a, w, w', b := s[..q], s[q..q + 6], s'[q..q + 6], s[q + 6..];
    Windows(s, s', q);
    Prepend(start, a, w, b);
    Prepend(start, a, w', b);
    assert Symbols(start + a) && Symbols(w) && Symbols(w') && Symbols(b) by {
      SymbolParts(start, s, q);
      SymbolParts(start, s', q);
    }
    WindowVisible(1, start + a, w, w', b);
  }

  lemma SymbolParts(start: seq<byte>, s: seq<byte>, q: nat)
    requires Symbols(start) && Symbols(s) && q + 6 <= |s|
    ensures Symbols(start + s[..q]) && Symbols(s[q..q + 6]) && Symbols(s[q + 6..])
  {
  }

  lemma Windows(s: seq<byte>, s': seq<byte>, q: nat)
    requires |s| == |s'| && q + 6 <= |s|
    requires forall i :: 0 <= i < |s| && !(q <= i < q + 6) ==> s[i] == s'[i]
    ensures s == s[..q] + s[q..q + 6] + s[q + 6..]
    ensures s' == s[..q] + s'[q..q + 6] + s[q + 6..]
  {
  }

  lemma Prepend(start: seq<byte>, a: seq<byte>, w: seq<byte>, b: seq<byte>)
    ensures start + (a + w + b) == (start + a) + w + b
  {
  }

  // ---------- the loops of the C code ----------

  lemma FeedNext(stream: seq<byte>, k: nat)
    requires k < |stream|
    ensures Feed(1, stream[..k + 1]) == Xor(Step(Feed(1, stream[..k])), Word(stream[k]))
    ensures stream[k] == 0 ==> Feed(1, stream[..k + 1]) == Step(Feed(1, stream[..k]))
  {
    hide Step, Feed, Xor, Word;
    assert stream[..k + 1] == stream[..k] + [stream[k]];
    FeedSnoc(1, stream[..k], stream[k]);
    SymbolBits(0);
    XorLaws(Step(Feed(1, stream[..k])), 0);
  }

  lemma Started(stream: seq<byte>)
    ensures Feed(1, stream[..0]) == 1
  {
    assert stream[..0] == [];
  }

  /** The first pass over the human-readable part: legality and the high bits. */
  method HighPass(hrp: CString, ghost stream: seq<byte>) returns (ok: bool, chk: bv32)
    requires |hrp| <= |stream| && stream[..|hrp|] == Highs(hrp)
    ensures ok == HrpLegal(hrp)
    ensures ok ==> chk == Feed(1, stream[..|hrp|])
  {
    hide Feed, Step, Xor, Word;
    chk := 1;
    var i := 0;
    Started(stream);
    while i < |hrp|
      invariant 0 <= i <= |hrp| && HrpLegal(hrp[..i])
      invariant chk == Feed(1, stream[..i])
    {
      var ch := hrp[i];
      if ch < 33 || ch > 126 {
        return false, chk;
      }
      if IsUpper(ch) {
        return false, chk;
      }
      assert stream[..|hrp|][i] == ch / 32;
      FeedNext(stream, i);
      chk := Xor(Step(chk), Word(ch / 32));
      i := i + 1;
    }
    assert hrp[..i] == hrp;
    ok := true;
  }

  /** The second pass: the low bits, and the copy to the output. */
  method LowPass(output: array<byte>, hrp: CString, start: bv32, ghost stream: seq<byte>) returns (chk: bv32)
    requires |hrp| <= output.Length && 2 * |hrp| + 1 <= |stream|
    requires stream[|hrp| + 1..2 * |hrp| + 1] == Lows(hrp)
    requires start == Feed(1, stream[..|hrp| + 1])
    modifies output
    ensures chk == Feed(1, stream[..2 * |hrp| + 1])
    ensures forall k :: 0 <= k < |hrp| ==> output[k] == hrp[k]
    ensures forall k :: |hrp| <= k < output.Length ==> output[k] == old(output[k])
  {
    hide Feed, Step, Xor, Word;
    var n, i := |hrp|, 0;
    chk := start;
    while i < n
      invariant 0 <= i <= n
      invariant chk == Feed(1, stream[..n + 1 + i])
      invariant forall k :: 0 <= k < i ==> output[k] == hrp[k]
      invariant forall k :: n <= k < output.Length ==> output[k] == old(output[k])
    {
      assert stream[n + 1..2 * n + 1][i] == hrp[i] % 32;
      FeedNext(stream, n + 1 + i);
      chk := Xor(Step(chk), Word(hrp[i] % 32));
      output[i] := hrp[i];
      i := i + 1;
    }
  }

  /** The data symbols: a value of 32 or more stops the encoder. */
  method DataPass(output: array<byte>, pos: nat, data: seq<byte>, start: bv32, ghost stream: seq<byte>, ghost at: nat)
    returns (ok: bool, chk: bv32)
    requires pos + |data| <= output.Length && at + |data| <= |stream|
    requires stream[at..at + |data|] == data && start == Feed(1, stream[..at])
    modifies output
    ensures ok == Symbols(data)
    ensures ok ==> chk == Feed(1, stream[..at + |data|])
    ensures ok ==> forall k :: 0 <= k < |data| ==> output[pos + k] == Chars(data)[k]
    ensures forall k :: 0 <= k < pos || pos + |data| <= k < output.Length ==> output[k] == old(output[k])
  {
    hide Feed, Step, Xor, Word, Char;
    chk := start;
    var i := 0;
    while i < |data|
      invariant 0 <= i <= |data| && forall k :: 0 <= k < i ==> data[k] < 32
      invariant chk == Feed(1, stream[..at + i])
      invariant forall k :: 0 <= k < i ==> output[pos + k] == Char(data[k])
      invariant forall k :: 0 <= k < pos || pos + |data| <= k < output.Length ==> output[k] == old(output[k])
    {
      if data[i] / 32 != 0 {
        return false, chk;
      }
      assert stream[at..at + |data|][i] == data[i];
      FeedNext(stream, at + i);
      chk := Xor(Step(chk), Word(data[i]));
      output[pos + i] := Char(data[i]);
      i := i + 1;
    }
    ok := true;
  }

  /** Six zero symbols. */
  method ZeroPass(start: bv32, ghost stream: seq<byte>) returns (chk: bv32)
    requires |stream| >= 6 && stream[|stream| - 6..] == Zeros(6)
    requires start == Feed(1, stream[..|stream| - 6])
    ensures chk == Feed(1, stream)
  {
    hide Feed, Step, Xor, Word;
    chk := start;
    var i := 0;
    while i < 6
      invariant 0 <= i <= 6
      invariant chk == Feed(1, stream[..|stream| - 6 + i])
    {
      assert stream[|stream| - 6..][i] == 0;
      FeedNext(stream, |stream| - 6 + i);
      chk := Step(chk);
      i := i + 1;
    }
    assert stream[..|stream|] == stream;
  }

  lemma StreamParts(hrp: seq<byte>, data: seq<byte>)
    ensures var (n, m, stream) := (|hrp|, |data|, Expand(hrp) + data + Zeros(6));
      && |stream| == 2 * n + 1 + m + 6
      && stream[..n] == Highs(hrp) && stream[n] == 0 && stream[n + 1..2 * n + 1] == Lows(hrp)
      && stream[2 * n + 1..2 * n + 1 + m] == data && stream[|stream| - 6..] == Zeros(6)
  {
  }

  /** bech32_encode. The buffer must have room for hrp, separator, data, checksum and terminator. */
  method Bech32Encode(output: array<byte>, hrp: CString, data: seq<byte>, enc: Encoding) returns (ok: bool)
    requires enc != NONE && output.Length >= |hrp| + |data| + 8
    modifies output
    ensures ok == Encode(hrp, data, enc).Some?
    ensures ok ==> var text := Encode(hrp, data, enc).value;
      |text| == |hrp| + |data| + 7 && output[..|text| + 1] == text + [0]
    ensures forall k :: |hrp| + |data| + 8 <= k < output.Length ==> output[k] == old(output[k])
  {
    hide Feed, Step, Xor, Word, Picks, Expand, Char;
    ghost var stream := Expand(hrp) + data + Zeros(6);
    StreamParts(hrp, data);
    var n, m := |hrp|, |data|;
    var chk: bv32;
    ok, chk := HighPass(hrp, stream);
    if !ok {
      return;
    }
    if n + 7 + m > 90 {
      return false;
    }
    FeedNext(stream, n);
    chk := Step(chk);
    chk := LowPass(output, hrp, chk, stream);
    output[n] := SEPARATOR;
    ok, chk := DataPass(output, n + 1, data, chk, stream, 2 * n + 1);
    if !ok {
      return;
    }
    chk := ZeroPass(chk, stream);
    chk := Xor(chk, FinalConstant(enc));
    AppendChecksum(output, n + 1 + m, chk);
    Assembled(output[..], hrp, data, Picks(chk));
  }

  lemma Assembled(out: seq<byte>, hrp: seq<byte>, data: seq<byte>, sum: seq<byte>)
    requires Symbols(data) && Symbols(sum) && |sum| == 6 && |out| >= |hrp| + |data| + 8
    requires forall k :: 0 <= k < |hrp| ==> out[k] == hrp[k]
    requires out[|hrp|] == SEPARATOR
    requires forall k :: 0 <= k < |data| ==> out[|hrp| + 1 + k] == Chars(data)[k]
    requires forall k :: 0 <= k < 6 ==> out[|hrp| + 1 + |data| + k] == Chars(sum)[k]
    requires out[|hrp| + |data| + 7] == 0
    ensures out[..|hrp| + |data| + 8] == hrp + [SEPARATOR] + Chars(data + sum) + [0]
  {
    hide Char;
    assert Chars(data + sum) == Chars(data) + Chars(sum);
  }

  /** Writes the six checksum characters and the terminator. */
  method AppendChecksum(output: array<byte>, pos: nat, chk: bv32)
    requires pos + 7 <= output.Length
    modifies output
    ensures forall k :: 0 <= k < 6 ==> output[pos + k] == Chars(Picks(chk))[k]
    ensures output[pos + 6] == 0
    ensures forall k :: 0 <= k < pos || pos + 7 <= k < output.Length ==> output[k] == old(output[k])
  {
    hide Picks, Char;
    var i := 0;
    while i < 6
      invariant 0 <= i <= 6
      invariant forall k :: 0 <= k < i ==> output[pos + k] == Chars(Picks(chk))[k]
      invariant forall k :: 0 <= k < pos || pos + i <= k < output.Length ==> output[k] == old(output[k])
    {
      output[pos + i] := Char(Picks(chk)[i]);
      i := i + 1;
    }
    output[pos + 6] := 0;
  }

  predicate SomeLower(s: seq<byte>) { exists i :: 0 <= i < |s| && IsLower(s[i]) }
  predicate SomeUpper(s: seq<byte>) { exists i :: 0 <= i < |s| && IsUpper(s[i]) }

  lemma SomeSnoc(s: seq<byte>, c: byte)
    ensures SomeLower(s + [c]) <==> SomeLower(s) || IsLower(c)
    ensures SomeUpper(s + [c]) <==> SomeUpper(s) || IsUpper(c)
  {
    var t := s + [c];
    assert t[|s|] == c;
    if SomeLower(s) {
      var i :| 0 <= i < |s| && IsLower(s[i]);
      assert IsLower(t[i]);
    }
    if SomeUpper(s) {
      var i :| 0 <= i < |s| && IsUpper(s[i]);
      assert IsUpper(t[i]);
    }
  }

  /** First decoding pass: legality, case and high bits; writes the lower-case part and its terminator. */
  method DecodeHighPass(hrpOut: array<byte>, hrp: seq<byte>) returns (ok: bool, chk: bv32, lower: bool, upper: bool)
    requires |hrp| < hrpOut.Length
    modifies hrpOut
    ensures ok == AllPrintable(hrp)
    ensures ok ==> chk == Feed(1, Highs(Lowers(hrp))) && lower == SomeLower(hrp) && upper == SomeUpper(hrp)
    ensures ok ==> hrpOut[..|hrp| + 1] == Lowers(hrp) + [0]
  {
    hide Feed, Step, Xor, Word, SomeLower, SomeUpper;
    ghost var stream := Highs(Lowers(hrp));
    chk, lower, upper := 1, false, false;
    Started(stream);
    NoCase();
    var i := 0;
    while i < |hrp|
      invariant 0 <= i <= |hrp| && forall k :: 0 <= k < i ==> Printable(hrp[k])
      invariant chk == Feed(1, stream[..i])
      invariant lower == SomeLower(hrp[..i]) && upper == SomeUpper(hrp[..i])
      invariant forall k :: 0 <= k < i ==> hrpOut[k] == Lower(hrp[k])
    {
      var ch := hrp[i];
      if ch < 33 || ch > 126 {
        return false, chk, lower, upper;
      }
      assert hrp[..i + 1] == hrp[..i] + [ch];
      SomeSnoc(hrp[..i], ch);
      if IsLower(ch) {
        lower := true;
      } else if IsUpper(ch) {
        upper := true;
        ch := ch + 32;
      }
      hrpOut[i] := ch;
      FeedNext(stream, i);
      chk := Xor(Step(chk), Word(ch / 32));
      i := i + 1;
    }
    hrpOut[i] := 0;
    assert hrp[..i] == hrp && stream[..i] == stream;
    ok := true;
  }

  lemma NoCase()
    ensures !SomeLower([]) && !SomeUpper([])
  {
  }

  /** Second decoding pass: the low bits. */
  method DecodeLowPass(hrp: seq<byte>, start: bv32) returns (chk: bv32)
    requires start == Feed(1, Highs(Lowers(hrp)) + [0])
    ensures chk == Feed(1, Highs(Lowers(hrp)) + [0] + Lows(hrp))
  {
    hide Feed, Step, Xor, Word;
    ghost var head := Highs(Lowers(hrp)) + [0];
    ghost var stream := head + Lows(hrp);
    chk := start;
    var i := 0;
    assert stream[..|head|] == head;
    while i < |hrp|
      invariant 0 <= i <= |hrp|
      invariant chk == Feed(1, stream[..|head| + i])
    {
      assert stream[|head| + i] == hrp[i] % 32;
      FeedNext(stream, |head| + i);
      chk := Xor(Step(chk), Word(hrp[i] % 32));
      i := i + 1;
    }
    assert stream[..|head| + i] == stream;
  }

  /** Third decoding pass: the symbols, of which the last six are the checksum. */
  method DecodeDataPass(dataOut: array<byte>, part: seq<byte>, start: bv32, lowerIn: bool, upperIn: bool, ghost head: seq<byte>)
    returns (ok: bool, chk: bv32, lower: bool, upper: bool)
    requires 6 <= |part| <= dataOut.Length + 6 && start == Feed(1, head)
    modifies dataOut
    ensures ok == DataText(part)
    ensures ok ==> chk == Feed(1, head + Revs(part))
    ensures ok ==> lower == (lowerIn || SomeLower(part)) && upper == (upperIn || SomeUpper(part))
    ensures ok ==> dataOut[..|part| - 6] == Revs(part)[..|part| - 6]
  {
    hide Feed, Step, Xor, Word, Rev, SomeLower, SomeUpper;
    chk, lower, upper := start, lowerIn, upperIn;
    NoCase();
    assert head + Revs([]) == head;
    assert part[..0] == [];
    var i := 0;
    while i < |part|
      invariant 0 <= i <= |part| && DataText(part[..i])
      invariant chk == Feed(1, head + Revs(part[..i]))
      invariant lower == (lowerIn || SomeLower(part[..i])) && upper == (upperIn || SomeUpper(part[..i]))
      invariant forall k :: 0 <= k < i && k < |part| - 6 ==> dataOut[k] == Rev(part[k])
    {
      var v := if part[i] >= 128 then -1 else Rev(part[i]);
      assert part[..i + 1] == part[..i] + [part[i]];
      SomeSnoc(part[..i], part[i]);
      if IsLower(part[i]) {
        lower := true;
      }
      if IsUpper(part[i]) {
        upper := true;
      }
      RevChar(part[i]);
      if v == -1 {
        assert !DataText(part);
        return false, chk, lower, upper;
      }
      DataNext(head, part, i);
      chk := Xor(Step(chk), Word(v));
      if i + 6 < |part| {
        dataOut[i] := v;
      }
      i := i + 1;
    }
    assert part[..i] == part;
    ok := true;
  }

  lemma DataNext(head: seq<byte>, part: seq<byte>, i: nat)
    requires i < |part| && DataText(part[..i]) && Rev(part[i]) != -1
    ensures DataText(part[..i + 1])
    ensures Feed(1, head + Revs(part[..i + 1])) == Xor(Step(Feed(1, head + Revs(part[..i]))), Word(Rev(part[i])))
  {
    hide Feed, Step, Xor, Word, Rev;
    assert part[..i + 1] == part[..i] + [part[i]];
    assert head + Revs(part[..i + 1]) == (head + Revs(part[..i])) + [Rev(part[i])];
    FeedSnoc(1, head + Revs(part[..i]), Rev(part[i]));
  }

  lemma MixedParts(text: seq<byte>, hrp: seq<byte>, part: seq<byte>)
    requires text == hrp + [SEPARATOR] + part
    ensures Mixed(text) <==> (SomeLower(hrp) || SomeLower(part)) && (SomeUpper(hrp) || SomeUpper(part))
  {
    assert Mixed(text) == (SomeLower(text) && SomeUpper(text));
    SomeConcat(hrp + [SEPARATOR], part);
    SomeSnoc(hrp, SEPARATOR);
  }

  lemma {:induction false} SomeConcat(s: seq<byte>, t: seq<byte>)
    ensures SomeLower(s + t) <==> SomeLower(s) || SomeLower(t)
    ensures SomeUpper(s + t) <==> SomeUpper(s) || SomeUpper(t)
  {
    if t == [] {
      assert s + t == s;
    } else {
      var t', c := t[..|t| - 1], t[|t| - 1];
      assert s + t == (s + t') + [c] && t == t' + [c];
      SomeConcat(s, t');
      SomeSnoc(s + t', c);
      SomeSnoc(t', c);
    }
  }

  /** Counts the characters after the last separator. */
  method FindSeparator(input: seq<byte>) returns (d: nat)
    ensures d == DataLen(input)
  {
    var n := |input|;
    d := 0;
    while d < n && input[n - 1 - d] != SEPARATOR
      invariant 0 <= d <= n
      invariant forall i :: n - d <= i < n ==> input[i] != SEPARATOR
    {
      d := d + 1;
    }
    if d < n {
      DataLenUnique(input, d);
    }
  }

  /** bech32_decode. The buffers are those the header file asks for: |input| - 6 and |input| - 8 bytes. */
  method Bech32Decode(hrpOut: array<byte>, dataOut: array<byte>, input: CString) returns (enc: Encoding, dataLen: nat)
    requires hrpOut != dataOut
    requires |input| >= 8 ==> hrpOut.Length >= |input| - 6 && dataOut.Length >= |input| - 8
    modifies hrpOut, dataOut
    ensures match Decode(input)
      case None => enc == NONE
      case Some(r) =>
        && enc == r.enc && dataLen == |r.data| && dataOut[..dataLen] == r.data
        && |r.hrp| < hrpOut.Length && hrpOut[..|r.hrp| + 1] == r.hrp + [0]
  {
    hide Feed, Step, Xor, Word, Rev, DataText, Mixed, SomeLower, SomeUpper, DataLen;
    dataLen := 0;
    var n := |input|;
    if n < 8 || n > 90 {
      return NONE, dataLen;
    }
    dataLen := FindSeparator(input);
    if 1 + dataLen >= n || dataLen < 6 {
      return NONE, dataLen;
    }
    var h := n - (1 + dataLen);
    var hrp, part := input[..h], input[h + 1..];
    dataLen := dataLen - 6;
    MixedParts(input, hrp, part);
    var ok, chk, lower, upper := DecodeHighPass(hrpOut, hrp);
    if !ok {
      return NONE, dataLen;
    }
    FeedOneZero(Highs(Lowers(hrp)));
    chk := Step(chk);
    chk := DecodeLowPass(hrp, chk);
    ok, chk, lower, upper := DecodeDataPass(dataOut, part, chk, lower, upper, Highs(Lowers(hrp)) + [0] + Lows(hrp));
    if !ok || (lower && upper) {
      return NONE, dataLen;
    }
    if chk == FinalConstant(BECH32) {
      enc := BECH32;
    } else if chk == FinalConstant(BECH32M) {
      enc := BECH32M;
    } else {
      enc := NONE;
    }
  }

  lemma FeedOneZero(s: seq<byte>)
    ensures Feed(1, s + [0]) == Step(Feed(1, s))
  {
    hide Feed, Step, Xor, Word;
    FeedSnoc(1, s, 0);
    SymbolBits(0);
    XorLaws(Step(Feed(1, s)), 0);
  }
}