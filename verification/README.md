# ESP-Miner: verified models of the mining firmware's cores

Dafny models of the self-contained parts of an ESP32 mining firmware that sit between the pool and
the ASIC: address codecs, the encrypted Stratum V2 channel, job construction and nonce checking, the
coinbase decoder, log and line buffers, job slots and checksums, the work queue and the state
difference of the web interface. Modelled loops are methods proved against a specification function;
the specification functions carry the properties the code is for.

`dafny verify dfyconfig.toml` checks everything.

## Modules

| module | models |
|---|---|
| `Digits`, `Packing`, `Options` | positional numbers, little-endian fields and shared functions, `Option` |
| `Base58` | `b58enc`, `b58tobin` |
| `Polymod`, `Bech32`, `BitGroups`, `Segwit` | Bech32 and Bech32m (BIP-173, BIP-350) and segwit addresses |
| `Noise`, `NoiseRun`, `NoiseHandshake` | the encrypted channel over ideal primitives, its runs, and its key schedule |
| `Sv2Protocol` | frame headers, message builders and parsers |
| `Sha256`, `Hex`, `VersionRoll`, `VersionMasks`, `VersionSteps`, `Mining`, `Merkle` | midstates, jobs, nonce checks, version rolling with one mask and with two, Merkle fold |
| `MinerTag`, `Coinbase`, `CoinbaseTx` | the tag extraction and the coinbase decoder, and the transaction the same pieces make up |
| `LogRing`, `LineFramer`, `WorkQueue` | buffers against the log, the line splitter and the list they stand for |
| `JobSlots` | the job table over all interleavings |
| `Crc`, `Crc16` | CRC-5 bit by bit, CRC-16 by table, and the errors they detect |
| `JsonDiff` | the structural difference of two states, and merging it |

## Where the code does less than one would expect

Each of these is proved with its exact condition.

- Stored midstates are kept in reversed word order and resumed from as stored, so the nonce check
  agrees with the header's hash exactly when no stored midstate is named
  (`Mining.NonceCheckAgrees`). The comment above the lookup and the tests of `test_nonce_value`
  describe the resumed path as equivalent; the model follows the code.
- `increment_bitmask` carries out of a full field into the bit two above it
  (`VersionRoll.OutsideSurvives`, `VersionRoll.CarrySkips`), counts in no bit above the lowest run of
  a mask (`VersionRoll.OnlyLowestRun`), and repeats versions with a mask of one of the top two bits
  alone (`VersionRoll.FourDistinct`).
- The version reported for a midstate is replayed with a mask that is read a second time; it is the
  version of that midstate exactly when the index is 0 or both masks have the same lowest bit, and the
  same lowest run or no wrap of the shorter; masks whose lowest run is a single bit have a condition of
  their own (`Mining.MidstateOfVersion`, `VersionSteps.AgreeExactly`, `VersionMasks.MasksDisagree`).
- The buffer for the previous block hash is not initialised, so a text of fewer than 63 digits leaves
  its end undefined (`Mining.JobDetermined`).
- `bech32_encode` accepts an empty human-readable part and `segwit_addr_encode` a negative version,
  which do not decode (`Bech32.RoundTrip`, `Segwit.AddressRoundTrip`).
- A line that is complete in the buffer is dropped when the text behind it exceeds the length limit;
  lines are safe up to one chunk below the limit (`LineFramer.SafeLength`).
- The endpoints of the encrypted channel fall out of step exactly when a send uses the cipher without
  all of its bytes being taken (`noise_send_all` takes a short write for success, and an error return
  does not take the counter back) or a receive begins inside a partly arrived frame, whose bytes its
  timeout throws away (`NoiseRun.RunExact`).
- A failed handshake leaves the ephemeral private key in the context (`NoiseHandshake.Handshake`); the
  comment on the field says it is zeroed after the handshake.
- The tag extraction leaves its texts and its buffer exactly when the first piece ends before the
  height does and something is left to extract (`MinerTag.InsideExact`, `Coinbase.CutOffEscapes`).
- The length of the second extranonce is checked from above only. The decoder reads outside the last
  piece exactly when the remainder of the script-sig without the extranonces comes within four of the
  largest int (`Coinbase.DefinedExact`, `Coinbase.LeastIntEscapes`), and the text of the extranonce
  leaves its buffer exactly for negative lengths (`CoinbaseTx.LengthFits`).
- The coinbase decoder finds the outputs exactly when the extranonces lie inside the script-sig and the
  length told is the real one, or a wrong one makes no difference (`CoinbaseTx.SkipExact`), and the
  coinbase hash is that of the whole pieces exactly when all texts
  have even lengths (`CoinbaseTx.AssembledWhole`).
- The web interface merges the difference one level deep, which loses members exactly when a nested
  object has changed in part (`JsonDiff.SpreadCovers`, `JsonDiff.SpreadLoses`).
- A log reader loses text exactly when it is overtaken (`LogRing.LossExact`).

## Model

| member | source | states |
|---|---|---|
| `Base58.B58Enc` | components/stratum/base58.c:145-189 | the in-place conversion writes exactly the base-58 text of the input (one `1` per leading zero byte, then the shortest digits of its value) and a terminator, or nothing; it reports the size needed in both cases |
| `Base58.ToCells` | components/stratum/base58.c:149-171 | after the outer loop the cells are the base-58 digits of the input's value, for every byte string: the hard-coded cell count always suffices and no carry is lost by the early break |
| `Base58.PushByte` | components/stratum/base58.c:160-169 | one inner pass with the `high` shortcut multiplies the cells by 256 and adds a byte, leaving all cells below 58 |
| `Base58.CellsSuffice` | components/stratum/base58.c:152 | 256^n is at most 58^(n*138/100+1), for every n |
| `Base58.NoCarryLeft` | components/stratum/base58.c:165-168 | when the next number fits the cells, the loop that breaks at cell 0 has no carry left to lose |
| `Base58.StoppedEarly` | components/stratum/base58.c:158-160 | when a pass has stopped above cell 0 with nothing carried and only zero cells above, all cells together still hold 256 times the old number plus the byte |
| `Base58.B58ToBin` | components/stratum/base58.c:39-113 | the limb arithmetic accepts exactly the texts of valid digits whose value is below 256^binsz and then writes their right-aligned bytes and the canonical size; a rejected text changes nothing |
| `Base58.FitsExactly` | components/stratum/base58.c:82-87 | carry and `zeromask` checks together say exactly whether the number is below 256^binsz |
| `Base58.PushDigit` | components/stratum/base58.c:76-81 | one pass over the 32-bit limbs multiplies the number by 58 and adds a digit, the returned carry being what no longer fits |
| `Base58.WriteBytes` | components/stratum/base58.c:90-102 | the limbs are written out as the binsz low bytes of their number, most significant first |
| `Base58.DecodeEncode` | components/stratum/base58.c:39-189 | decoding the encoding of any byte string into a buffer of its length gives back the bytes and that length, leading zeros included |
| `Base58.EncodeDecode` | components/stratum/base58.c:39-189 | a decoded text whose reported size fits the buffer is the encoding of the reported bytes |
| `Base58.TextValue` | components/stratum/base58.c:145-189 | read in base 58 the text is the number its data is in base 256, most significant digit first, with as many leading ones as the data has leading zeros |
| `Base58.Alphabet` | components/stratum/base58.c:23-143 | the letters are digits, upper case and lower case in the order of their codes, without 0, I, O and l, and decode to their place |
| `Polymod.StepLinear` | components/stratum/segwit_addr.c:28-36 | the polymod step is linear over GF(2) |
| `Polymod.StepKernel` | components/stratum/segwit_addr.c:28-36 | only the zero register steps to zero |
| `Polymod.StepOverField` | components/stratum/segwit_addr.c:28-36 | the step is linear over GF(32): it commutes with multiplying all six symbols by x modulo x^5 + x^3 + 1 |
| `Polymod.Generator` | components/stratum/segwit_addr.c:28-36 | its first row is the generator of BIP-173, x^6 + 29x^5 + 22x^4 + 20x^3 + 21x^2 + 29x + 18 |
| `Polymod.FeedInjective` | components/stratum/segwit_addr.c:28-36 | feeding the same symbols keeps different registers different |
| `Polymod.WindowVisible` | components/stratum/segwit_addr.c:57-154 | two streams that differ only inside a window of at most six symbols leave different registers |
| `Polymod.ClosesExactly` | components/stratum/segwit_addr.c:79-86 | six symbols close a stream on a constant exactly when they are the ones the encoder appends |
| `Bech32.DecodeExact` | components/stratum/segwit_addr.c:57-154 | a text decodes to a result if and only if it is the encoding of that result (non-empty human-readable part), all in lower or all in upper case |
| `Bech32.RoundTrip` | components/stratum/segwit_addr.c:57-154 | decoding an encoding returns human-readable part, data and variant, even with `1` in the part, if and only if the part is not empty, which the encoder does not check |
| `Bech32.EmptyPartRejected` | components/stratum/segwit_addr.c:57-154 | an empty part with no data is an input that encodes, in both variants, and does not decode |
| `Bech32.WindowDetected` | components/stratum/segwit_addr.c:91-154 | two valid texts of one part and variant that differ at most in a window of six data characters are the same: every error in one character, and every burst of up to six, is detected |
| `Bech32.Bech32Encode` | components/stratum/segwit_addr.c:57-89 | the passes over part, data and checksum write exactly the specified text, or return 0 for exactly the inputs without one |
| `Bech32.Bech32Decode` | components/stratum/segwit_addr.c:91-154 | the three decoding passes return exactly the specified part, symbols and variant, or none |
| `Bech32.FindSeparator` | components/stratum/segwit_addr.c:101-103 | the data part starts behind the last separator |
| `Bech32.EncodeDefined` | components/stratum/segwit_addr.c:57-89 | a text exists exactly for a part of codes 33 to 126 without upper case, symbols below 32, and at most 90 characters in all |
| `Bech32.Charset` | components/stratum/segwit_addr.c:44 | the characters of the data part in the order of their symbols |
| `Bech32.KnownTexts` | components/stratum/segwit_addr.c:28-42 | the checksums of both variants on the shortest texts of BIP-173 and BIP-350, a12uel5l and a1lqfn3a |
| `BitGroups.ConvertBits` | components/stratum/segwit_addr.c:156-176 | regrouping through the overflowing 32-bit accumulator yields the specified groups for input of any length, and returns 0 for exactly the inputs that have none |
| `BitGroups.TakeIn` | components/stratum/segwit_addr.c:160-162 | what is shifted out of the accumulator never belongs to bits still to be written |
| `BitGroups.PaddedGroups` | components/stratum/segwit_addr.c:168-171 | padded regrouping multiplies the number by the power of two that fills the last group |
| `BitGroups.ExactGroups` | components/stratum/segwit_addr.c:172-175 | unpadded regrouping succeeds exactly when it drops fewer bits than one input group and all of them are zero |
| `BitGroups.BytesRoundTrip` | components/stratum/segwit_addr.c:156-176 | 8 to 5 bits with padding and back without gives back the bytes, for any number of them |
| `BitGroups.SymbolsRoundTrip` | components/stratum/segwit_addr.c:156-176 | symbols that convert to bytes are the ones those bytes convert to: no second spelling |
| `Segwit.DecodeAddressExact` | components/stratum/segwit_addr.c:192-209 | exactly which addresses decode, and to which version and program |
| `Segwit.AddressRoundTrip` | components/stratum/segwit_addr.c:178-209 | an encoded address decodes to its version and program if and only if the version is not negative and the human-readable part not empty, neither of which the encoder checks |
| `Segwit.AcceptedAddress` | components/stratum/segwit_addr.c:192-209 | an accepted address carries the Bech32 checksum for version 0 and Bech32m for all others, the version as its first symbol, behind it the number of its program shifted by less than a symbol, and a program of 2 to 40 bytes, 20 or 32 for version 0 |
| `Segwit.WrittenAddress` | components/stratum/segwit_addr.c:178-190 | an address is written with Bech32m exactly for positive versions, from the version and the symbols of the program |
| `Segwit.AddressDefined` | components/stratum/segwit_addr.c:178-190 | exactly which human-readable parts, versions and programs have an address, negative versions included |
| `Segwit.NegativeVersionAccepted` | components/stratum/segwit_addr.c:178-190 | version -256 is such an input: it is accepted and written as version 0 |
| `Segwit.SegwitEncode` | components/stratum/segwit_addr.c:178-190 | writes exactly the specified address or returns 0; what it writes is the Bech32m text for a positive version and the Bech32 text otherwise |
| `Segwit.SegwitDecode` | components/stratum/segwit_addr.c:192-209 | returns exactly the specified version and program or 0; what it accepts is a Bech32 text for version 0 and a Bech32m text for all others |
| `Noise.BuildNonce` | components/stratum_v2/sv2_noise.c:117-123 | four zero bytes, then the counter, least significant byte first |
| `Noise.NonceInjective` | components/stratum_v2/sv2_noise.c:117-123 | different counters give different nonces |
| `Noise.NonceLayout` | components/stratum_v2/sv2_noise.c:117-123 | the nonce every frame is sealed under is four zero bytes and the counter, least significant byte first |
| `Noise.WireParts` | components/stratum_v2/sv2_noise.c:497-542 | on the wire are header and payload, sealed one by one without associated data under the nonces of two consecutive counters |
| `Noise.RecvExact` | components/stratum_v2/sv2_noise.c:46-58 | however the stream is fragmented, exactly the bytes asked for in order, or failure |
| `Noise.SendAll` | components/stratum_v2/sv2_noise.c:60-68 | an error with nothing written, or success with any number of the bytes taken: a short write counts as success |
| `Noise.NoiseContext.SendFrame` | components/stratum_v2/sv2_noise.c:497-542 | without a handshake or a whole header nothing happens; otherwise the counter moves on once per encryption even on error returns, and what goes on the wire is nothing after an error, and after a success as much as the write took of the sealed header and payload under consecutive counters |
| `Noise.NoiseContext.RecvFrame` | components/stratum_v2/sv2_noise.c:544-599 | returns exactly what the specification receives from the bytes arrived, for every fragmentation, and moves the counter on once per decryption; -1 with nothing consumed without a handshake or a transport |
| `Noise.FrameDelivered` | components/stratum_v2/sv2_noise.c:497-599 | a frame is received as sent, with its bytes consumed exactly and the counters level, if and only if its header tells its payload length within the receiver's limit |
| `Noise.FailuresCost` | components/stratum_v2/sv2_noise.c:544-599 | what a receive has consumed and how often it has used the cipher when the header was not sealed for its counter, tells too long a payload, or the payload is cut off or was not sealed for the next counter |
| `NoiseRun.AcceptedExact` | components/stratum_v2/sv2_noise.c:60-68 | a send that reports success leaves the endpoints in step if and only if all bytes of the frame's wire image were taken |
| `NoiseRun.RefusedExact` | components/stratum_v2/sv2_noise.c:507-541 | a send that reports an error leaves them in step if and only if it had not yet used the cipher |
| `NoiseRun.PartialReceive` | components/stratum_v2/sv2_noise.c:46-58 | a receive that meets a part of a frame fails, has swallowed the part, and has moved the counter on if the part holds the sealed header |
| `NoiseRun.ReceiveExact` | components/stratum_v2/sv2_noise.c:544-599 | a receive leaves the endpoints in step if and only if nothing has arrived or the first frame has arrived whole |
| `NoiseRun.StepExact` | components/stratum_v2/sv2_noise.c:497-599 | every kind of event keeps the endpoints in step if and only if it is whole |
| `NoiseRun.RunExact` | components/stratum_v2/sv2_noise.c:497-599 | over every interleaving of sends with any failures and short writes, arrivals in any portions and receives at any time: the endpoints are in step all along if and only if every send that used the cipher had all its bytes taken and no receive began inside a partly arrived frame |
| `NoiseRun.RunInStep` | components/stratum_v2/sv2_noise.c:497-599 | at the end of such a run the frames received are a prefix of those sent, the bytes arrived and under way are the others, and the counters differ by exactly their cipher uses |
| `NoiseRun.Drained` | components/stratum_v2/sv2_noise.c:497-599 | once everything has arrived, receiving as often as frames are pending delivers them all in order and brings the counters level |
| `NoiseRun.EverythingDelivered` | components/stratum_v2/sv2_noise.c:497-599 | from the start of the channel, over every run of whole events: after the last bytes arrive, all frames sent are received in order |
| `Noise.CountersWrap` | components/stratum_v2/sv2_noise.c:508-513 | the unbounded counts of the run stand for the 64-bit counters |
| `Noise.NonceUsedOnce` | components/stratum_v2/sv2_noise.c:497-542 | no nonce is used for two encryptions under one key exactly as long as at most 2^64 have taken place; the log of a context has this form after every send, failed or not |
| `NoiseHandshake.HandshakeAgrees` | components/stratum_v2/sv2_noise.c:268-495 | the initiator accepts a responder that follows the Noise framework (NX, revision 34, section 5.2) and both ends hold the same two traffic keys |
| `NoiseHandshake.AcceptsExactly` | components/stratum_v2/sv2_noise.c:344-468 | the initiator accepts an answer, with two traffic keys, if and only if the answer is an ephemeral key followed by the responder's key and a certificate, each sealed as the framework does, the keys are those of the framework, and the certificate passes the check |
| `NoiseHandshake.AnswerWrittenOut` | components/stratum_v2/sv2_noise.c:344-468 | such an answer written out: both texts sealed under a zero nonce with the handshake hash so far as associated data, and every key as a chain of HMACs over the shared secrets |
| `NoiseHandshake.ReadAnswer` | components/stratum_v2/sv2_noise.c:344-468 | the in-place work on hash and chaining key accepts exactly the answers of the specification and leaves the chaining key both traffic keys come from |
| `NoiseHandshake.Handshake` | components/stratum_v2/sv2_noise.c:268-495 | the handshake sends its ephemeral key, reads 234 bytes, and either installs the specified keys with both counters zero and private key, chaining key and hash zeroed, or fails with keys and counters as they were and the ephemeral private key still in the context |
| `NoiseHandshake.Hkdf2` | components/stratum_v2/sv2_noise.c:99-114 | both outputs come from the chaining key as it was before the call, when the first or the second output is the buffer of the chaining key itself |
| `Sha256.Context.Update` | components/stratum/utils.c:85-118 | a streaming context stands for all data so far, whatever the pieces |
| `Sha256.Context.Finish` | components/stratum/utils.c:85-118 | the digest of the padded data, with the length that was counted |
| `Sha256.OneShot` | components/stratum/utils.c:77-83 | the digest of FIPS 180-4 for data of any length |
| `Sha256.InitialValue` | components/stratum/utils.c:77-83 | hashing starts from the square roots of the first eight primes (FIPS 180-4, section 5.3.3) |
| `Sha256.Midstate` | components/stratum/utils.c:85-97 | the state after exactly the first 64 bytes |
| `Sha256.Resume` | components/stratum/utils.c:99-118 | the digest from a saved state, 64 bytes counted before |
| `Sha256.ResumeIsHash` | components/stratum/utils.c:85-118 | resuming from the state of a block gives the hash of block and tail, for every block, every tail length and every compression function |
| `Sha256.PaddingLayout` | components/stratum/utils.c:77-118 | the padding is that of FIPS 180-4, section 5.1.1: 0x80, zero bytes, and the length in bits, most significant byte first |
| `Sha256.PaddingShortest` | components/stratum/utils.c:77-118 | the padding reaches a whole block, and no shorter one of at least nine bytes does |
| `VersionRoll.OverflowOneBit` | components/stratum/mining.c:198-207 | the overflow is at most one bit, above the lowest bit of the mask |
| `VersionRoll.RankFalls` | components/stratum/mining.c:201-207 | the lowest mask bit rises with every recursive call, so the recursion ends |
| `VersionRoll.IncrementField` | components/stratum/mining.c:192-210 | for a contiguous mask whose field is not all ones: one is added to the field and nothing else changes |
| `VersionRoll.LowUntouched` | components/stratum/mining.c:192-210 | bits below the mask never change, for any mask |
| `VersionRoll.WrapStep` | components/stratum/mining.c:201-207 | a full field is cleared and the carry goes on two bits above it |
| `VersionRoll.SingleFlips` | components/stratum/mining.c:192-210 | a mask of one bit flips that bit, whatever its carry does above |
| `VersionRoll.OutsideSurvives` | components/stratum/mining.c:192-210 | the bits outside a contiguous mask survive if and only if the field is not full or there is no bit two above it: the carry of a full field skips the bit right above |
| `VersionRoll.OnlyLowestRun` | components/stratum/mining.c:192-210 | for every mask, incrementing with it is incrementing with its lowest unbroken run of bits: no other bit of a mask is ever counted in |
| `VersionRoll.IncrementAny` | components/stratum/mining.c:192-210 | for every mask: a lowest run with room goes up by one unit, and the bits outside it survive if and only if it has room or there is no bit two above it |
| `VersionRoll.Replay` | components/asic/bm1397.c:363-366 | replays exactly the version hashed for a midstate |
| `VersionRoll.RolledOutside` | components/stratum/mining.c:95-111 | for every mask, rolling changes nothing outside its lowest run while that does not wrap |
| `VersionRoll.CarrySkips` | components/stratum/mining.c:201-207 | a concrete full field: the carry of 0x1fffe000 goes to bit 30 instead of bit 29 |
| `VersionRoll.FourDistinct` | components/stratum/mining.c:95-111 | the four versions of a job are pairwise distinct, for every version, wrap or no wrap, if and only if the mask is neither empty nor one of the top two bits alone |
| `VersionMasks.VersionsAgree` | components/stratum/mining.c:95-111 | the versions rolled with two masks agree after up to three steps if and only if the masks have the same lowest bit, and the same lowest run or a shorter one that does not wrap; for one step with all masks, for more with masks whose lowest run has two bits or more |
| `VersionSteps.TwoSteps` | components/stratum/mining.c:192-210 | two increments with a run of bits are one with the run less its lowest bit, or with the bit its carry goes to if it has no other; wrap or no wrap |
| `VersionSteps.ThreeSteps` | components/stratum/mining.c:192-210 | three increments come down to one in the same way, depending on the lowest bit of the run |
| `VersionSteps.AgreeExactly` | components/stratum/mining.c:95-111 | for every version, every two masks and up to three steps, the exact condition on version and masks under which both rolled versions agree |
| `VersionMasks.MasksDisagree` | main/tasks/create_jobs_task.c:235-239 | concrete masks that differ in their lowest bit: 0x1fffe000 and 0x1fff0000 roll 0x20000000 to different versions |
| `Hex.BinOfHex` | components/stratum/utils.c:22-50 | decoding hexadecimal text gives back the bytes it was made from |
| `Hex.BinConcat` | components/stratum/utils.c:36-50 | texts of whole bytes decode piece by piece |
| `Hex.Bin2Hex` | components/stratum/utils.c:22-34 | writes the text and its terminator, or nothing if they do not fit |
| `Hex.Hex2Bin` | components/stratum/utils.c:36-50 | writes the decoded bytes as far as they fit, a last lone digit included, and nothing else |
| `Mining.CopyReversed` | components/stratum/utils.c:120-133 | the eight words in opposite order |
| `Mining.SwapEachWord` | components/stratum/utils.c:135-147 | the bytes of every word in opposite order |
| `Mining.FullPath` | components/stratum/mining.c:143-190 | the header rebuilt from a job's reversed fields is version, previous hash, root, time, bits and nonce in order, so the result is the hash of the header |
| `Mining.RestoredPath` | components/stratum/mining.c:69-117 | resuming from a stored midstate after restoring its word order gives the hash of the header with the version of that midstate |
| `Mining.NonceCheckAgrees` | components/stratum/mining.c:143-190 | the nonce check agrees with the hash of the header, for every compression function, if and only if the index names no stored midstate |
| `Mining.StoredDiffers` | components/stratum/mining.c:151-178 | a compression function for which resuming from the midstate as stored gives another hash |
| `Mining.HeaderFields` | components/stratum/mining.c:165-184 | where every field of the 80 bytes stands: version, previous hash, root, time, bits, nonce |
| `Mining.PrevHashDigits` | components/stratum/mining.c:78-80 | every byte of the previous hash from the pool's digits: words in order, the bytes of each in opposite order |
| `Mining.JobFields` | components/stratum/mining.c:69-81 | root and previous hash are kept with their words in opposite order, the other fields as they came |
| `Mining.MidstateOfVersion` | components/stratum/mining.c:95-111 | the version replayed with a mask that was read again is the one whose midstate is stored at the index, for every compression function, if and only if a condition on version, masks and index holds; unless a lowest run is a single bit, it says that the index is 0 or both masks have the same lowest bit, and the same lowest run or a shorter one that does not wrap |
| `Mining.JobDetermined` | components/stratum/mining.c:79-82 | a job depends on the notification alone if and only if the text of the previous block hash has at least 63 digits; a shorter one leaves the end of an uninitialised buffer in the job |
| `Mining.BmJob.Construct` | components/stratum/mining.c:69-117 | the whole job, its four or one midstates included; without a mask the other midstates keep their contents |
| `Mining.BmJob.TestNonce` | components/stratum/mining.c:143-190 | computes the specified hash from the stored job |
| `Merkle.MerkleRootHash` | components/stratum/mining.c:56-66 | the loop over one 64-byte buffer folds the branches into the coinbase hash |
| `Merkle.FoldIsRoot` | components/stratum/mining.c:56-66 | folding the right siblings of the leftmost path gives the Merkle root, an odd last node being its own sibling, for every tree size and hash |
| `Merkle.RootOfHalves` | components/stratum/mining.c:56-66 | the root of two whole trees side by side is the join of their roots |
| `Merkle.OddLevel` | components/stratum/mining.c:56-66 | an odd level counts as one in which the last node stands twice |
| `Merkle.AnyCoinbase` | components/stratum/mining.c:56-66 | the same branches give the root for every coinbase put in first place |
| `Merkle.Collision` | components/stratum/mining.c:56-66 | two different folds to one root exhibit a hash collision |
| `Merkle.BranchCount` | components/stratum/mining.c:56-66 | a tree of n leaves has as many branches as it takes doublings to reach n |
| `Coinbase.DecodeVarint` | components/stratum/coinbase_decoder.c:26-56 | the value and the position behind it, which never passes the end; 0 and the end if the integer is cut off |
| `Coinbase.VarintRoundTrip` | components/stratum/coinbase_decoder.c:26-56 | an encoded integer below 2^64 is read back wherever it stands |
| `Coinbase.ParseInverts` | components/stratum/coinbase_decoder.c:296-348 | any number of well-formed outputs is read back exactly, up to the byte behind the last |
| `Coinbase.NotificationResult.ReadOutputs` | components/stratum/coinbase_decoder.c:296-348 | on arbitrary bytes the loop ends inside the data with the sum modulo 2^64, the user's sum and the first six outputs of what the specification parses |
| `Coinbase.NotificationResult.Process` | components/stratum/coinbase_decoder.c:155-363 | for every int told as a length: has no defined result for exactly the notifications that make it leave its bounds; of the others it rejects exactly the specified ones, leaving the outputs alone, reports the specified summary and tag, or runs out of memory |
| `Coinbase.ReadScriptSig` | components/stratum/coinbase_decoder.c:187-207 | script-sig length, height and what the first piece lacks of the script-sig, or an error for exactly the cut-off or malformed headers |
| `CoinbaseTx.SkipExact` | components/stratum/coinbase_decoder.c:255-267 | for every int told as the length of the second extranonce: the outputs' part is found at the end of the script-sig if and only if both extranonces lie inside the script-sig and the length told is the real one, or a wrong one makes no difference because the script-sig ends before the last piece |
| `CoinbaseTx.DecodesTransaction` | components/stratum/coinbase_decoder.c:155-363 | for every transaction, every cut into four pieces with the extranonces in the script-sig and every spelling: the decoder stays in bounds and reports its height, the sum of all outputs modulo 2^64, the first six outputs, and both signals, exactly |
| `CoinbaseTx.RejectedExact` | components/stratum/coinbase_decoder.c:155-283 | for every notification: no transaction is reported exactly if the first piece ends before the byte that tells the length of the height, that length is not from 1 to 4, or the last piece ends with the sequence number or before |
| `CoinbaseTx.SerializeFields` | components/stratum/coinbase_decoder.c:187-348 | where every field of the transaction stands that the decoder reads |
| `CoinbaseTx.SignalsSay` | components/stratum/coinbase_decoder.c:203-210 | bit 4 of the version signals before block 965664 only, and a lock time one below the height with a sequence that is not final is the other signal |
| `CoinbaseTx.OutputsSay` | components/stratum/coinbase_decoder.c:296-348 | the outputs reported are the first six in order, with value and address, marked as the user's exactly if they are worth something and the address begins the user's |
| `CoinbaseTx.WholeInFirstRejected` | components/stratum/coinbase_decoder.c:255-283 | with the whole transaction in the first piece and nothing in the others, no transaction is reported |
| `MinerTag.InsideExact` | components/stratum/coinbase_decoder.c:209-234 | for every int told as a length: the extraction reads inside both texts and writes inside its buffer if and only if the first piece holds the whole height or the computed tag length is not positive |
| `MinerTag.LengthExact` | components/stratum/coinbase_decoder.c:209-216 | the tag has the length of the script-sig without height and extranonces if and only if the length told is the real one |
| `MinerTag.CopiesMakeTag` | components/stratum/coinbase_decoder.c:218-245 | the copies are those that make the tag: into room for it and a terminator, the first part from the first piece and what it lacks from the last |
| `MinerTag.Extract` | components/stratum/coinbase_decoder.c:209-253 | reports exactly whether the extraction stays in bounds, and then the specified part of both pieces with unprintable bytes replaced, or none; none also if its buffer cannot be allocated |
| `Coinbase.DefinedExact` | components/stratum/coinbase_decoder.c:187-279 | for every int told as a length, and whichever allocations succeed: the decoder stays inside its texts and buffers if and only if the first piece holds the height or nothing is left to copy, and the script-sig ends in the first piece or its remainder without the extranonces stays clear of the largest int, where the check for the sequence number overflows |
| `Coinbase.CutOffEscapes` | components/stratum/coinbase_decoder.c:203-224 | a first piece of 43 bytes whose last announces four bytes of height does not, whatever the last piece is |
| `Coinbase.LeastIntEscapes` | components/stratum/coinbase_decoder.c:255-279 | a first piece that holds its height, an extranonce of four bytes and the least int told for the second neither: the sequence number is read at the largest int |
| `CoinbaseTx.TagIsTheRest` | components/stratum/coinbase_decoder.c:212-253 | for every transaction and cut, the tag is the script-sig without the height and without the extranonces, and there is none if nothing is left |
| `CoinbaseTx.TransactionHash` | components/stratum/mining.c:16-34 | hashes the decoded texts one after the other, cut to half their total length |
| `CoinbaseTx.AssembledWhole` | components/stratum/mining.c:23-31 | the pieces are put together whole if and only if every text has an even length |
| `CoinbaseTx.LoneDigitsCut` | components/stratum/mining.c:23-31 | two texts of one digit each: of their two bytes one is hashed |
| `CoinbaseTx.HashesTransaction` | components/stratum/mining.c:16-34 | what is hashed is the transaction that the decoder reports on |
| `CoinbaseTx.Extranonce2Generate` | components/stratum/mining.c:119-132 | the counter's low bytes, least significant first, zero-filled to the length, as text |
| `CoinbaseTx.ExtranonceWraps` | components/stratum/mining.c:119-132 | the bytes are the counter modulo 256^min(length, 8), least significant byte first |
| `CoinbaseTx.LengthFits` | main/tasks/create_jobs_task.c:210-219 | the text of the second extranonce stays in the caller's buffer if and only if the length told is from 0 to 32 |
| `CoinbaseTx.MakeExtranonce2` | main/tasks/create_jobs_task.c:210-219 | skips exactly the lengths above 32, leaves its buffer for exactly the negative ones, and makes the specified text for all others |
| `CoinbaseTx.ExtranoncesDiffer` | components/stratum/mining.c:119-132 | all counters below 256^min(length, 8) give different texts |
| `LogRing.Ring.Write` | main/log_buffer.c:43-65 | for every length up to one turn beyond the wrap, both copies stay inside the buffer and the ring again holds the end of the log |
| `LogRing.WriteKeeps` | main/log_buffer.c:47-60 | every cell holds the most recent byte written at a position congruent to it |
| `LogRing.Ring.ReadAbsolute` | main/log_buffer.c:174-229 | returns exactly the log from the specified start; it ends at its room, at the end of the log, or on a line end |
| `LogRing.ReadEnds` | main/log_buffer.c:209-226 | a read ends at its room, at the end of the log, or right behind a line end |
| `LogRing.Resync` | main/log_buffer.c:192-207 | an overtaken reader goes on behind the first line end within 4096 bytes of the oldest byte, or at the oldest byte |
| `LogRing.RunOrdered` | main/log_buffer.c:174-229 | over every interleaving of writers and a reader, every byte is handed over at most once, in order, at most one line end per read and only as its last byte |
| `LogRing.LossExact` | main/log_buffer.c:192-194 | a reader loses nothing if and only if no read comes after its position was overwritten |
| `LogRing.FollowsLog` | main/http_server/websocket_log.c:42-55 | a reader that is never overtaken has been given the log from its first to its last position, byte for byte |
| `LogRing.EmptyRead` | main/log_buffer.c:209-226 | a read comes back empty exactly at the end of the log |
| `LogRing.Drain` | main/http_server/http_server.c:141-150 | the reading loop ends at the end of the log, having sent everything from its start |
| `LineFramer.Framer.Reallocate` | components/stratum/stratum_api.c:134-158 | the text is kept and len more bytes with a terminator fit |
| `LineFramer.Framer.Append` | components/stratum/stratum_api.c:196-197 | the bytes up to the first NUL are appended and the text stays terminated inside the buffer |
| `LineFramer.Framer.ReceiveLine` | components/stratum/stratum_api.c:160-224 | one call returns exactly the specified line and keeps the specified rest, or frees the buffer; content and terminator always fit, and the buffer never exceeds 18432 bytes |
| `LineFramer.SessionConserves` | components/stratum/stratum_api.c:160-224 | over all calls, the lines returned and the text still buffered are exactly the bytes received |
| `LineFramer.LinesOfStream` | components/stratum/stratum_api.c:160-224 | for every chunking on which the connection is not dropped, the lines are the stream cut at its line ends |
| `LineFramer.TextWhole` | components/stratum/stratum_api.c:197 | nothing is cut off from a chunk if and only if it holds no NUL |
| `LineFramer.ShortLinesSafe` | components/stratum/stratum_api.c:198-205 | lines of up to 15361 bytes are never dropped, however they are chunked |
| `LineFramer.LongerLineDropped` | components/stratum/stratum_api.c:198-205 | every longer line is dropped when it arrives byte by byte and its end in a full chunk; up to the length limit although the buffer then holds the complete line |
| `LineFramer.SafeLength` | components/stratum/stratum_api.c:198-205 | a limit on line lengths keeps every stream and chunking from being dropped if and only if it is at most one chunk below the length limit |
| `JobSlots.SameId` | components/asic/bm1370.c:331 | identifiers repeat with a period of 32 (stride 4) or 16 (strides 8 and 24), and not earlier |
| `JobSlots.IdCleaned` | main/system.c:349-353 | the clean loop resets every identifier in use |
| `JobSlots.ActiveIsLatest` | components/asic/bm1370.c:345-351 | over every interleaving a slot holds the job most recently sent with its identifier |
| `JobSlots.AcceptedExact` | components/asic/bm1370.c:398-406 | a result is credited to a job if and only if that job was sent with its identifier, within the last period of sends and since the last clean |
| `JobSlots.FreedInOrder` | components/asic/bm1370.c:345-348 | the jobs freed are exactly those sent more than a period ago, in the order they were sent |
| `JobSlots.NeverFreedTwice` | components/asic/bm1370.c:345-351 | no job is freed twice and no job in the table has been freed |
| `JobSlots.NeverLost` | components/asic/bm1370.c:345-351 | every job sent is freed or still in the slot of its identifier |
| `JobSlots.SameJobTwice` | main/tasks/asic_result_task.c:53-67 | the two locked lookups of one result see the same job if and only if its slot was not used again in between |
| `JobSlots.Slot1370Decodes` | components/asic/bm1370.c:389 | the response byte decodes to the identifier that was sent, for every small core |
| `JobSlots.Slot1397Decodes` | components/asic/bm1397.c:336-344 | slot and midstate index are taken apart exactly |
| `JobSlots.JobTable.SendWork` | components/asic/bm1370.c:324-351 | one send: the next identifier, its slot replaced, the old job freed |
| `JobSlots.JobTable.CleanJobs` | main/system.c:349-353 | one clean: no identifier stays valid, jobs stay in the table |
| `JobSlots.JobTable.Process1370` | components/asic/bm1370.c:389-416 | a result exactly for the credited job, with the identifier that job was sent with, the nonce of the response, and its version combined with the reported bits |
| `JobSlots.JobTable.Process1397` | components/asic/bm1397.c:336-404 | a result exactly for the credited job and a nonce other than the last one, with the identifier that job was sent with, the nonce and midstate index of the response, and the version replayed for that midstate |
| `JobSlots.ReportsMidstate` | components/asic/bm1397.c:359-366 | the version reported for a job and midstate index is the one whose midstate the job was constructed with at that index, when the job carries the mask of its construction |
| `Crc.Crc5` | components/asic/crc.c:6-24 | the loops over bytes and bits compute the checksum of the message's bits |
| `Crc.ReadCommand` | components/asic/bm1366.c:201 | a command written out in the firmware ends in the checksum of its bytes: 52 05 00 00 0a |
| `Crc.PassesExactly` | components/asic/asic_common.c:180 | a frame passes if and only if the five low bits of its last byte are the register of all bits before |
| `Crc.FeedLinear` | components/asic/crc.c:18-20 | the register is linear over GF(2) in start and message |
| `Crc.Unnoticed` | components/asic/crc.c:6-24 | an error is unnoticed if and only if its pattern alone leaves the zero register zero |
| `Crc.BurstDetected` | components/asic/crc.c:6-24 | any error within five consecutive bits is detected, in messages of any length |
| `Crc.TwoErrorsDetected` | components/asic/crc.c:6-24 | two flipped bits go unnoticed if and only if they are a multiple of 31 bits apart |
| `Crc.CorruptFrameRejected` | components/asic/asic_common.c:180-185 | a frame that differs from a good one within five consecutive bits is rejected |
| `Crc16.TableIs` | components/asic/include/crc.h:6-39 | every entry of the table is the register that its byte leaves behind when it is shifted in bit by bit |
| `Crc16.LookupFeeds` | components/asic/crc.c:32 | one table lookup takes in the eight bits of a byte, most significant first |
| `Crc16.Crc16` | components/asic/crc.c:27-44 | the unrolled loop leaves the register of x^16 + x^12 + x^5 + 1 that has taken in the message bit by bit, from 0 |
| `Crc16.Crc16False` | components/asic/crc.c:46-55 | the same from 0xFFFF |
| `Crc16.Burst16Detected` | components/asic/crc.c:46-55 | any error within sixteen consecutive bits changes the checksum, in messages of any length |
| `Crc16.PacketPasses` | components/asic/bm1397.c:110-114 | two more bytes leave the register zero if and only if they are the checksum of the packet so far, high byte first |
| `WorkQueue.Queue.EnqueueItem` | main/work_queue.c:18-34 | the item is appended with the free function then in force, and nothing leaves; or it waits when the queue is full |
| `WorkQueue.Queue.DequeueItem` | main/work_queue.c:36-95 | the front item is returned with its own free function, leaves the queue and is counted as handed out; or the call waits when the queue is empty |
| `WorkQueue.Queue.ClearItems` | main/work_queue.c:97-119 | one step: every item freed with its own function, in order |
| `WorkQueue.Queue.SetFreeFn` | main/tasks/stratum_v1_task.c:182 | one step: only the function for later items changes |
| `WorkQueue.FirstInFirstOut` | main/work_queue.c:18-119 | over every interleaving with free-function swaps and timeouts: what arrived, paired with the function then in force, is what left, in order, followed by what is queued |
| `WorkQueue.EachOnce` | main/work_queue.c:18-119 | over every interleaving: what the dequeues returned and the clears freed, in order, followed by what is queued, are the arrivals, so every item is handed out or freed once or is still there |
| `JsonDiff.GetDiff` | main/http_server/cjson_utils.c:17-55 | the recursive loop collects exactly the specified members |
| `JsonDiff.MergedCovers` | main/http_server/cjson_utils.c:17-55 | merging the difference into the old state at every depth gives, for every nested key of the new state, its value, and keeps every other key |
| `JsonDiff.SameExact` | main/http_server/cjson_utils.c:33 | two values compare as the same if and only if they are alike under every path of keys and indexes: equal or near scalars, arrays of one length, objects with the same keys |
| `JsonDiff.MergedShows` | main/http_server/cjson_utils.c:17-55 | under every path of keys and indexes where the new state has a value, the merged state has an equal or near scalar, an array of the same length, or an object; with a NULL result the old state had all of these |
| `JsonDiff.DiffMinimal` | main/http_server/cjson_utils.c:28-45 | what a difference holds under a path of keys is in the new state, and the old state did not cover it |
| `JsonDiff.SpreadCovers` | main/http_server/axe-os/src/app/services/live-data.service.ts:57-70 | merging the difference one level deep, as the web interface does, gives a state that covers the new one if and only if every member of the new state is covered by the old one or has changed at every depth |
| `JsonDiff.SpreadLoses` | main/http_server/axe-os/src/app/services/live-data.service.ts:57-70 | an object of two members of which one changes is such a state: the other member is lost |
| `JsonDiff.NothingReported` | main/http_server/cjson_utils.c:48-52 | the result is NULL if and only if the old state already covers the new one |
| `JsonDiff.FindMerge` | main/http_server/cjson_utils.c:17-55 | what a merged state holds under a key |
| `JsonDiff.DiffUnique` | main/http_server/cjson_utils.c:28-45 | a difference has every key at most once, and only keys of the new state |
| `Sv2Protocol.FramesAreWellFramed` | components/stratum_v2/sv2_protocol.c:64-81 | every built frame is one the encrypted channel delivers: its header tells its payload length |
| `Sv2Protocol.HeaderRoundTrip` | components/stratum_v2/sv2_protocol.c:64-81 | a header is read back, lengths up to 24 bits |
| `Sv2Protocol.LengthAgrees` | components/stratum_v2/sv2_noise.c:567-568 | the parsed length is the one the receiver goes by |
| `Sv2Protocol.ParseFrameHeader` | components/stratum_v2/sv2_protocol.c:64-71 | extension, type and 24-bit length, least significant byte first |
| `Sv2Protocol.WriteStr` | components/stratum_v2/sv2_protocol.c:38-47 | the string cut to 255 bytes behind its length, or nothing written exactly if it does not fit |
| `Sv2Protocol.ReadStr` | components/stratum_v2/sv2_protocol.c:49-60 | the text as far as the destination has room and the bytes consumed, or an error exactly if the string is cut off |
| `Sv2Protocol.StrRoundTrip` | components/stratum_v2/sv2_protocol.c:38-60 | a written string is read back as far as both sides have room, and consumed whole |
| `Sv2Protocol.BuildSetupConnection` | components/stratum_v2/sv2_protocol.c:85-150 | the frame of the specified payload, or nothing written exactly if payload or frame do not fit |
| `Sv2Protocol.SetupReadBack` | components/stratum_v2/sv2_protocol.c:91-132 | protocol, versions, flags, host, port, vendor, hardware, firmware and device are read back from the payload, one behind the other |
| `Sv2Protocol.BuildOpenStandard` | components/stratum_v2/sv2_protocol.c:152-186 | the frame of the specified payload, or nothing written |
| `Sv2Protocol.BuildOpenExtended` | components/stratum_v2/sv2_protocol.c:341-378 | the frame of the specified payload, or nothing written |
| `Sv2Protocol.OpenReadBack` | components/stratum_v2/sv2_protocol.c:152-378 | request, user, hash rate and target are read back from the payload, and what follows is the tail |
| `Sv2Protocol.BuildSubmitStandard` | components/stratum_v2/sv2_protocol.c:188-211 | the frame of the six fields, or nothing written |
| `Sv2Protocol.BuildSubmitExtended` | components/stratum_v2/sv2_protocol.c:380-410 | the frame of the six fields and the extranonce, or nothing written |
| `Sv2Protocol.ShareRoundTrip` | components/stratum_v2/sv2_protocol.c:198-206 | the six fields of a share are read back from its payload |
| `Sv2Protocol.ParseNewExtendedMiningJob` | components/stratum_v2/sv2_protocol.c:443-536 | returns exactly the specified job and reads only inside the payload |
| `Sv2Protocol.ParseExact` | components/stratum_v2/sv2_protocol.c:443-536 | a job is returned if and only if the payload begins with an encoding of it, option and flag bytes apart |
| `Sv2Protocol.ParseInverts` | components/stratum_v2/sv2_protocol.c:443-536 | the parser inverts the encoder for every job with at most 20 branches, whatever follows it |
| `Sv2Protocol.JobParts` | components/stratum_v2/sv2_protocol.c:443-536 | where in the payload every field of a returned job was read |
| `Sv2Protocol.ParseNewMiningJob` | components/stratum_v2/sv2_protocol.c:253-282 | returns exactly the specified job |
| `Sv2Protocol.MiningJobExact` | components/stratum_v2/sv2_protocol.c:253-282 | a job is returned if and only if the payload begins with its encoding |
| `Sv2Protocol.ParseOpenExtendedSuccess` | components/stratum_v2/sv2_protocol.c:412-441 | returns exactly the specified answer |
| `Sv2Protocol.OpenedExact` | components/stratum_v2/sv2_protocol.c:412-441 | an answer is returned if and only if the payload begins with its encoding and the prefix has at most 32 bytes |

## Left out

- `Mining.BmJob.TestNonce`: returns the hash; its conversion to a floating-point difficulty is not modelled.
- `Coinbase.NotificationResult.Process`: where the decoder leaves its bounds, what happens next is not modelled; signed additions that overflow are taken to wrap, and texts are shorter than 2^31 characters, the limit for objects; script-to-address conversion is a parameter and the network difficulty is not computed.
- `LogRing.Ring.Write`: the total is unbounded, so the wrap of the 64-bit position after 2^64 bytes is not modelled; a log kept over a soft reboot and its header checksum are not modelled either.
- `LineFramer.Framer.ReceiveLine`: the results of the transport reads are given in advance as a finite list, after which the transport fails; allocation failure and the restart it causes are not modelled.
- `JobSlots.JobTable.SendWork`: a job is a value with a serial number, not a heap object, so the memory of a freed job is not modelled; the UART packet is not modelled.
- `WorkQueue.Queue.EnqueueItem`: waiting on a condition variable is a step that changes nothing; fairness and the length of a timeout are not modelled.
- `JsonDiff.GetDiff`: keys are unique within an object and numbers are reals compared by a parameter that need only be reflexive, in place of cJSON's relative tolerance; duplicate keys are not covered.
- `Noise.NoiseContext.RecvFrame`: allocation failure before the payload is read is not modelled, and lengths are unbounded integers.
- `CoinbaseTx.MakeExtranonce2`: the copy of the first extranonce and its length check are not modelled.
- `NoiseRun.RunExact`: the frames sent tell their own length within the receiver's limit, bytes on the wire are neither lost nor altered, and receive buffers can always be allocated.
- `VersionRoll.OutsideSurvives`: for contiguous masks; `VersionRoll.IncrementAny` states it for every mask, about the bits outside the lowest run.
- `VersionMasks.VersionsAgree`: after two or three steps for masks whose lowest run has two bits or more; `VersionSteps.AgreeExactly` is for all masks.
- `NoiseHandshake.Handshake`: the certificate check is a parameter; the self-test of the curve library and a failure to make the ephemeral key are not modelled.
- `Sv2Protocol.BuildOpenStandard`: the hash rate is given as its 32-bit pattern.
- `Sv2Protocol.ParseNewExtendedMiningJob`: allocation failure of the job and its two strings is not modelled; the parsers of SetupConnection.Success, OpenStandardMiningChannel.Success, SetNewPrevHash, SetTarget and the submit answers read fixed offsets and are left out as easier than those modelled.
- Cryptographic primitives (SHA-256 compression, ChaCha20-Poly1305, HMAC, key exchange) are function parameters with only the laws the proofs use.
- Base58Check, script-to-address conversion, and the hash function pointer of base58.c.
- SV1 message parsing with cJSON, pool configuration, NVS settings, the BAP interface.
- HTTP and web socket handlers, Wi-Fi, sockets, UART and I2C drivers, displays, OTA updates, self-test, power, fans and thermal control.
- Floating-point code: difficulties, PLL and frequency steps, hash-rate estimates, timeouts.
- Register responses of the ASICs, chip and core numbers of a result.
- Locks, logging and cache synchronisation; every locked region is one atomic step.
