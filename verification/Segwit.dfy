/**
 Segwit addresses as in components/stratum/segwit_addr.c: a witness version and program,
 regrouped into 5-bit symbols and written as Bech32 (version 0) or Bech32m text.
 */
module Segwit {
  import opened Options
  import opened Digits
  import opened BitGroups
  import opened Bech32
  import Polymod

  // ---------- what an address stands for ----------

  predicate ProgramLegal(witver: int, len: nat) {
    2 <= len <= 40 && (witver == 0 ==> len == 20 || len == 32)
  }

  function EncodingOf(witver: int): (enc: Encoding)
    ensures enc != NONE
  {
    if witver > 0 then BECH32M else BECH32
  }

  /** The symbols of a program: its version, truncated to a byte, and its regrouped bytes. */
  function DataOf(witver: int, prog: seq<byte>): (data: seq<byte>)
    ensures |data| == 1 + (8 * |prog| + 4) / 5
  {
    ProgramSymbols(prog);
    [witver % 256] + Regroup(prog, 8, 5, true).value
  }

  lemma ProgramSymbols(prog: seq<byte>)
    ensures var d := Regroup(prog, 8, 5, true).value;
            AllBelow(d, 32) && |d| == (8 * |prog| + 4) / 5
  {
    Widths();
    PaddedGroups(prog, 8, 5);
  }

  /** The encoder checks the version from above only. */
  function EncodeAddress(hrp: seq<byte>, witver: int, prog: seq<byte>): Option<seq<byte>> {
    if witver > 16 || !ProgramLegal(witver, |prog|) then None
    else Encode(hrp, DataOf(witver, prog), EncodingOf(witver))
  }

  function DecodeAddress(hrp: seq<byte>, addr: seq<byte>): Option<(int, seq<nat>)> {
    match Decode(addr)
    case None => None
    case Some(r) =>
      if |r.data| == 0 || |r.data| > 65 || hrp != r.hrp || r.data[0] > 16 || r.enc != EncodingOf(r.data[0]) then None
      else
        match Regroup(r.data[1..], 5, 8, false)
        case None => None
        case Some(prog) => if ProgramLegal(r.data[0], |prog|) then Some((r.data[0], prog)) else None
  }

  // ---------- decoding is exactly the inverse of encoding ----------

  lemma DecodedData(addr: seq<byte>)
    requires Decode(addr).Some?
    ensures Polymod.Symbols(Decode(addr).value.data) && AllBelow(Decode(addr).value.data, 32)
  {
  }

  lemma DecodeAddressSound(hrp: seq<byte>, addr: seq<byte>)
    requires DecodeAddress(hrp, addr).Some?
    ensures var (v, prog) := DecodeAddress(hrp, addr).value;
      && 0 <= v && hrp != [] && !Mixed(addr) && AllBelow(prog, 256)
      && EncodeAddress(hrp, v, prog) == Some(Lowers(addr))
  {
    hide Decode, Encode, Mixed, Regroup;
    var r := Decode(addr).value;
    DecodeExact(addr, r);
    DecodedData(addr);
    var (v, prog) := DecodeAddress(hrp, addr).value;
    SymbolsRoundTrip(r.data[1..], prog);
    assert r.data == [v] + r.data[1..];
  }

  lemma DecodeAddressComplete(hrp: seq<byte>, addr: seq<byte>, witver: int, prog: seq<byte>)
    requires 0 <= witver && hrp != [] && !Mixed(addr)
    requires EncodeAddress(hrp, witver, prog) == Some(Lowers(addr))
    ensures DecodeAddress(hrp, addr) == Some((witver, prog))
  {
    hide Decode, Encode, Mixed, Regroup;
    var data := DataOf(witver, prog);
    DecodeExact(addr, Decoded(hrp, data, EncodingOf(witver)));
    BytesRoundTrip(prog);
    assert data[0] == witver && data[1..] == Regroup(prog, 8, 5, true).value;
  }

  /** Exactly which addresses decode, and to what. */
  lemma DecodeAddressExact(hrp: seq<byte>, addr: seq<byte>, witver: int, prog: seq<byte>)
    ensures DecodeAddress(hrp, addr) == Some((witver, prog)) <==>
      0 <= witver && hrp != [] && !Mixed(addr) && EncodeAddress(hrp, witver, prog) == Some(Lowers(addr))
  {
    hide DecodeAddress, EncodeAddress, Mixed;
    if DecodeAddress(hrp, addr) == Some((witver, prog)) {
      DecodeAddressSound(hrp, addr);
    } else if 0 <= witver && hrp != [] && !Mixed(addr) && EncodeAddress(hrp, witver, prog) == Some(Lowers(addr)) {
      DecodeAddressComplete(hrp, addr, witver, prog);
    }
  }

  /**
   The round trip. It fails for exactly two kinds of input the encoder does not check: an
   empty human-readable part, and a negative version, which is truncated to a byte.
   */
  lemma AddressRoundTrip(hrp: seq<byte>, witver: int, prog: seq<byte>)
    requires EncodeAddress(hrp, witver, prog).Some?
    ensures DecodeAddress(hrp, EncodeAddress(hrp, witver, prog).value) == Some((witver, prog))
      <==> witver >= 0 && hrp != []
  {
    hide DecodeAddress, Encode, Mixed;
    EncodedIsLower(hrp, DataOf(witver, prog), EncodingOf(witver));
    DecodeAddressExact(hrp, EncodeAddress(hrp, witver, prog).value, witver, prog);
  }

  /**
   What an accepted address says, part by part: Bech32 for version 0 and Bech32m for all others,
   the version in front, behind it the number of the program shifted by less than a symbol, and
   lengths from 2 to 40 bytes, for version 0 20 or 32.
   */
  lemma AcceptedAddress(hrp: seq<byte>, addr: seq<byte>)
    requires DecodeAddress(hrp, addr).Some?
    ensures var (v, prog) := DecodeAddress(hrp, addr).value;
      && Decode(addr).Some?
      && var r := Decode(addr).value;
      && r.enc == (if v == 0 then BECH32 else BECH32M)
      && r.hrp == hrp && |r.data| > 0 && r.data[0] == v && 0 <= v <= 16
      && 2 <= |prog| <= 40 && (v == 0 ==> |prog| == 20 || |prog| == 32)
      && var spare := 5 * (|r.data| - 1) - 8 * |prog|;
      && 0 <= spare < 5 && AllBelow(prog, 256)
      && Value(prog, 256) * Pow(2, spare) == Value(r.data[1..], 32)
  {
    hide Decode, Regroup;
    var (v, prog) := DecodeAddress(hrp, addr).value;
    var symbols := Decode(addr).value.data[1..];
    DecodedData(addr);
    Widths();
    ExactGroups(symbols, 5, 8, prog);
    hide Pow, Value;
    PowerOfTwo(5 * |symbols| % 8);
  }

  lemma PowerOfTwo(n: nat)
    ensures P(n) == Pow(2, n)
  {
  }

  /** The symbols of a program: the version cut to a byte, and the number of the program shifted by less than a symbol. */
  predicate Carries(data: seq<byte>, witver: int, prog: seq<byte>) {
    && |data| > 0 && data[0] == witver % 256
    && var spare := 5 * (|data| - 1) - 8 * |prog|;
    && 0 <= spare < 5 && Value(data[1..], 32) == Value(prog, 256) * Pow(2, spare)
  }

  lemma DataCarries(witver: int, prog: seq<byte>)
    ensures Carries(DataOf(witver, prog), witver, prog)
  {
    hide Regroup, Value, Pow;
    var data := DataOf(witver, prog);
    Widths();
    PaddedGroups(prog, 8, 5);
    assert data[1..] == Regroup(prog, 8, 5, true).value;
    PowerOfTwo(5 * (|data| - 1) - 8 * |prog|);
  }

  /** What an address is written from: symbols of the program, with Bech32m exactly for positive versions. */
  lemma WrittenAddress(hrp: seq<byte>, witver: int, prog: seq<byte>)
    requires EncodeAddress(hrp, witver, prog).Some?
    ensures witver <= 16 && 2 <= |prog| <= 40 && (witver == 0 ==> |prog| == 20 || |prog| == 32)
    ensures var enc := if witver > 0 then BECH32M else BECH32;
      exists data :: Carries(data, witver, prog) && EncodeAddress(hrp, witver, prog) == Encode(hrp, data, enc)
  {
    hide Encode, DataOf, Carries;
    DataCarries(witver, prog);
    assert EncodeAddress(hrp, witver, prog) == Encode(hrp, DataOf(witver, prog), if witver > 0 then BECH32M else BECH32);
  }

  /** Exactly which inputs have an address: negative versions too, if what is left of them in a byte is a symbol. */
  lemma AddressDefined(hrp: seq<byte>, witver: int, prog: seq<byte>)
    ensures EncodeAddress(hrp, witver, prog).Some? <==>
      && witver <= 16 && witver % 256 < 32
      && 2 <= |prog| <= 40 && (witver == 0 ==> |prog| == 20 || |prog| == 32)
      && (forall i :: 0 <= i < |hrp| ==> 33 <= hrp[i] <= 126 && !('A' as int <= hrp[i] <= 'Z' as int))
      && |hrp| + (8 * |prog| + 4) / 5 <= 82
  {
    hide Encode, Regroup;
    var data := DataOf(witver, prog);
    ProgramSymbols(prog);
    assert data[1..] == Regroup(prog, 8, 5, true).value;
    assert forall i :: 1 <= i < |data| ==> data[i] == data[1..][i - 1];
    assert data[0] == witver % 256;
    EncodeDefined(hrp, data, EncodingOf(witver));
  }

  /** Version -256 is such an input: it is written as version 0 with a program of any legal length. */
  lemma NegativeVersionAccepted()
    ensures EncodeAddress([98, 99], -256, [0, 0]).Some?
    ensures DecodeAddress([98, 99], EncodeAddress([98, 99], -256, [0, 0]).value) != Some((-256, [0, 0]))
  {
    ProgramSymbols([0, 0]);
    AddressRoundTrip([98, 99], -256, [0, 0]);
  }

  // ---------- the C functions ----------

  lemma WrittenAs(hrp: seq<byte>, witver: int, prog: seq<byte>)
    ensures EncodeAddress(hrp, witver, prog).Some? && hrp != [] ==>
      var r := Decode(EncodeAddress(hrp, witver, prog).value);
      r.Some? && r.value.enc == if witver > 0 then BECH32M else BECH32
  {
    hide Encode, Decode, Regroup;
    if EncodeAddress(hrp, witver, prog).Some? {
      RoundTrip(hrp, DataOf(witver, prog), EncodingOf(witver));
    }
  }

  /** segwit_addr_encode. */
  method SegwitEncode(output: array<byte>, hrp: CString, witver: int, prog: seq<byte>) returns (ok: bool)
    requires output.Length >= 73 + |hrp|
    modifies output
    ensures ok == EncodeAddress(hrp, witver, prog).Some?
    ensures ok ==> var text := EncodeAddress(hrp, witver, prog).value;
      |text| < output.Length && output[..|text| + 1] == text + [0]
    ensures ok && hrp != [] ==>
      var r := Decode(EncodeAddress(hrp, witver, prog).value);
      r.Some? && r.value.enc == if witver > 0 then BECH32M else BECH32
  {
    hide Encode, Decode, Regroup;
    WrittenAs(hrp, witver, prog);
    if witver > 16 {
      return false;
    }
    if witver == 0 && |prog| != 20 && |prog| != 32 {
      return false;
    }
    if |prog| < 2 || |prog| > 40 {
      return false;
    }
    var enc := BECH32;
    if witver > 0 {
      enc := BECH32M;
    }
    var data := new byte[65];
    data[0] := witver % 256;
    Widths();
    ProgramSymbols(prog);
    var _, datalen := ConvertBits(data, 1, 5, prog, 8, true, 64);
    datalen := datalen + 1;
    assert data[..datalen] == [data[0]] + data[1..datalen];
    ok := Bech32Encode(output, hrp, data[..datalen], enc);
  }

  /** strncmp(hrp, buf, n) == 0, for a terminated string in buf. */
  method StrnEqual(hrp: CString, buf: array<byte>, n: nat, ghost content: seq<byte>) returns (same: bool)
    requires |content| < n <= buf.Length && 0 !in content && buf[..|content| + 1] == content + [0]
    ensures same == (hrp == content)
  {
    var i := 0;
    while i < n
      invariant 0 <= i <= |content| && i <= |hrp|
      invariant hrp[..i] == content[..i]
    {
      var c := if i < |hrp| then hrp[i] else 0;
      assert buf[i] == (content + [0])[i];
      if c != buf[i] {
        return false;
      }
      if c == 0 {
        assert hrp == hrp[..i] && content == content[..i];
        return true;
      }
      assert hrp[..i + 1] == hrp[..i] + [c] && content[..i + 1] == content[..i] + [c];
      i := i + 1;
    }
    same := true;
  }

  lemma PrintableHasNoZero(addr: seq<byte>)
    requires Decode(addr).Some?
    ensures 0 !in Decode(addr).value.hrp && |Decode(addr).value.hrp| < 84
  {
  }

  /** segwit_addr_decode. The program goes to witdata, of 40 bytes. */
  method SegwitDecode(witdata: array<byte>, hrp: CString, addr: CString) returns (ok: bool, witver: int, witlen: nat)
    requires witdata.Length >= 40
    modifies witdata
    ensures match DecodeAddress(hrp, addr)
      case None => !ok
      case Some((v, prog)) => ok && witver == v && witlen == |prog| <= witdata.Length && witdata[..witlen] == prog
    ensures ok ==> Decode(addr).Some? && Decode(addr).value.enc == if witver == 0 then BECH32 else BECH32M
  {
    hide Decode, Regroup;
    witver, witlen := 0, 0;
    var data, hrpActual := new byte[84], new byte[84];
    if |addr| > 90 {
      TooLong(addr);
      return false, witver, witlen;
    }
    var enc, dataLen := Bech32Decode(hrpActual, data, addr);
    if enc == NONE {
      Decodable(addr);
      return false, witver, witlen;
    }
    DecodedData(addr);
    PrintableHasNoZero(addr);
    if dataLen == 0 || dataLen > 65 {
      return false, witver, witlen;
    }
    var same := StrnEqual(hrp, hrpActual, 84, Decode(addr).value.hrp);
    if !same {
      return false, witver, witlen;
    }
    assert data[0] == data[..dataLen][0];
    if data[0] > 16 || (data[0] == 0 && enc != BECH32) || (data[0] > 0 && enc != BECH32M) {
      return false, witver, witlen;
    }
    Widths();
    assert data[1..dataLen] == data[..dataLen][1..];
    ok, witlen := ConvertBits(witdata, 0, 8, data[1..dataLen], 5, false, 40);
    if !ok {
      return;
    }
    if witlen < 2 || witlen > 40 || (data[0] == 0 && witlen != 20 && witlen != 32) {
      return false, witver, witlen;
    }
    witver := data[0];
  }

  lemma TooLong(addr: seq<byte>)
    requires |addr| > 90
    ensures Decode(addr) == None
  {
  }

  lemma Decodable(addr: seq<byte>)
    ensures Decode(addr).Some? ==> Decode(addr).value.enc != NONE
  {
  }
}
