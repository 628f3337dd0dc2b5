# qpac block codecs in Dafny

This project models the core of qpac, a compressor for one block of bytes.
qpac runs several simple codecs over a block and keeps the shortest output.
It tags the result with the strategy that produced it so the block can be
decoded later. The model covers:

- the run-length codec, `rle_compress` / `rle_decompress` (module `Rle`, `rle.dfy`);
- the delta codec, `delta_compress` / `delta_decompress` (module `Delta`, `delta.dfy`);
- the adaptive dictionary codec, `dict_compress` / `dict_decompress` (module `Dictionary`, `dictionary.dfy`);
- the hybrid codec, `hybrid_compress` / `hybrid_decompress` (module `Hybrid`, `hybrid.dfy`);
- the strategy selector, `compress_block` / `decompress_block`, and the `CompressedBlock` record (module `Selector`, `selector.dfy`);
- the `hexdump` formatter (module `HexFormat`, `hexdump.dfy`);
- shared definitions in module `Blocks` (`blocks.dfy`): bytes, the strategy tags 0=RAW, 1=RLE, 2=DICT, 3=DELTA, 4=HYBRID, and the decoder errors.

Bytes are integers in 0..255. The bit operations of the dictionary codec are
written as arithmetic: `0x80 | b` is `SetHigh`, `b & 0x7F` is `LowBits`, and
`b & 0x80` is `HighBit`. Exceptions become `Err` values of a `Result` type:
an invalid dictionary index, a failed hybrid decode carrying both causes,
and an unknown strategy tag.

The loops of the source are methods proved equal to specification
functions: `RleCompress`, `RleDecompress`, `DictCompress`, `DictDecompress`,
`DeltaDecompress` (filling a fresh array) and `CompressBlock` (updating
the best payload and tag step by step). The expression-only code is
functions: `DeltaCompress`, `HybridCompress`, `HybridDecompress`,
`DecompressBlock` and `Hexdump`. `Select` is the candidate chain of
`compress_block` as a function; `CompressBlock` is proved to return it.

The three defects in the codecs are modelled as written, not repaired.
For the delta and dictionary codecs, the round-trip lemmas state the exact
conditions under which the code works. For the hybrid codec and the
selector they state sufficient conditions, together with inputs that fail:

- The delta encoder always writes 0 in the first slot, and the decoder takes
  that slot as the first byte. The delta round trip holds exactly when the
  block is empty or starts with 0 (`DeltaRoundTrip`).
- The dictionary decoder keeps only the low seven bits of a literal.
  The dictionary round trip holds exactly when every byte is below 0x80
  (`DictRoundTrip`). A block with at most 0x80 distinct values comes back
  with every high bit cleared (`DictStripsHighBits`). Once the dictionary
  has more than 0x80 entries, an emitted index can also be read as a literal.
  The block 0, 1, .., 0x80, 0x80 comes back as 0, 1, .., 0x7F, 0, 0
  (`IndexFlagCollision`).
- The hybrid payload does not record which pipeline produced it. The codec
  also loses data on its own, even on bytes below 0x80. A single run of such
  a byte `v` with a count `n` of 0x80 to 0xFF gives the `rle_first` payload
  `[v | 0x80, n]`, and that payload wins. The decoder reads `n` back as the
  literal `n & 0x7F`. For example, 200 zero bytes come back as 72 zero
  bytes (`HybridTruncatesLongRun`). `compress_block` never stores such a
  run as HYBRID, because plain RLE is just as short and is tried first
  (`LongRunStoredAsRle`).

What the proofs show about `compress_block` as written:

- DELTA and DICT payloads are exactly as long as the block, so neither is ever
  selected. For the same reason the entropy value, which only gates DELTA,
  cannot change the result.
- The RLE-first hybrid payload is exactly as long as the RLE payload, so a
  selected HYBRID payload is always the DICT-then-RLE pipeline.
- Without hybrid, every block round-trips.
- With hybrid, every block whose bytes are all below 0x80 round-trips. That
  includes both fixed test blocks.
- With hybrid, the block `[1, 129, 1, 1, 1, 1, 1]` selects HYBRID with payload
  `[129, 2, 0, 5]`. It decodes without error to `[1, 1, 1, 1, 1, 1, 1]`
  (`HybridSilentCorruption`).

## Model

| member | source | states |
|---|---|---|
| `Rle.RunLength` | qpac/strategies.py:27-30 | the inner scan counts exactly the leading run of the rest of the block, capped at 255 |
| `Rle.RleCompress` | qpac/strategies.py:22-34 | the outer encoder loop, calling `RunLength` for each run, produces exactly `RleEncode(data)` |
| `Rle.LeadRunIsMaximal` | qpac/strategies.py:27-30 | the counted run holds only copies of its first byte and stops only at the end of the block, at 255, or at a different byte |
| `Rle.RleDecompress` | qpac/strategies.py:36-45 | the pair-reading loop produces exactly `RleDecode(data)` |
| `Rle.RleRoundTrip` | qpac/strategies.py:22-45 | decoding an encoded block gives back the block, for every block |
| `Rle.RleEmpty` | qpac/strategies.py:22-45 | the encoder maps a block to empty exactly when the block is empty, and the decoder maps empty to empty |
| `Rle.RleEncodeShape` | qpac/strategies.py:26-33 | encoder output has even length, at most twice the input; every count byte is in 1..255; the counts add up to the block length |
| `Rle.RleLongRun` | qpac/strategies.py:29-33 | a run of 300 equal bytes becomes the two pairs (v, 255) and (v, 45) |
| `Rle.RleDecodeLength` | qpac/strategies.py:39-44 | the decoder outputs exactly as many bytes as the count bytes of the complete pairs add up to |
| `Rle.RleDecodeIgnoresTrailingByte` | qpac/strategies.py:40 | an unpaired trailing byte does not change the decoder's output |
| `Delta.DeltaCompress` | qpac/strategies.py:50-55 | output as long as the input, first byte 0, every later byte the difference to its predecessor mod 256 |
| `Delta.DeltaDecode` | qpac/strategies.py:57-65 | output as long as the input, and its first byte is the first encoded byte |
| `Delta.DeltaDecompress` | qpac/strategies.py:57-65 | the array-filling loop yields byte i = sum of the first i+1 encoded bytes mod 256 |
| `Delta.DeltaRoundTripAt` | qpac/strategies.py:50-65 | after a round trip, byte i is (x[i] - x[0]) mod 256 |
| `Delta.DeltaRoundTrip` | qpac/strategies.py:50-65 | the round trip restores the block exactly when the block is empty or its first byte is 0 |
| `Dictionary.IndexOf` | qpac/strategies.py:75 | the index found holds the byte, and no earlier position does |
| `Dictionary.EncodeStep` | qpac/strategies.py:73-82 | a repeated byte is emitted as an index naming it, with the dictionary unchanged; a new byte is emitted as `0x80 \| b` and appended, with a clear on reaching 256 entries; the dictionary stays below 256 entries |
| `Dictionary.DictEncodeFrom` | qpac/strategies.py:70-83 | the encoder emits exactly one byte per input byte |
| `Dictionary.DictCompress` | qpac/strategies.py:70-83 | the encoder loop with its mutable output and dictionary produces exactly `DictEncode(data)` |
| `Dictionary.EncoderDictDistinct` | qpac/strategies.py:72-82 | the encoder's dictionary never holds a value twice and stays below capacity |
| `Dictionary.DictDecodeFrom` | qpac/strategies.py:85-102 | a successful decode emits one byte per input byte; a failure is an invalid index that is below 0x80 and not below the dictionary length |
| `Dictionary.DictDecompress` | qpac/strategies.py:85-102 | the decoder loop, which returns early on a bad index, yields exactly `DictDecode(data)` |
| `Dictionary.DictDecodeFailsIff` | qpac/strategies.py:88-101 | decoding fails exactly when some byte with the high bit clear is not below the length of the dictionary replayed up to it |
| `Dictionary.LowDictionaryBound` | qpac/strategies.py:75-76 | a dictionary of distinct bytes below 0x80 has at most 0x80 entries, so its indices never carry the literal flag |
| `Dictionary.DictRoundTripFrom` | qpac/strategies.py:70-102 | encoder and decoder stay in lock-step and restore every block of bytes below 0x80 |
| `Dictionary.DictRoundTripLosesHighBytes` | qpac/strategies.py:79-90 | a block with a byte of 0x80 or more never comes back unchanged |
| `Dictionary.DictRoundTrip` | qpac/strategies.py:70-102 | the round trip restores the block exactly when all its bytes are below 0x80 |
| `Dictionary.DictHighByteExample` | qpac/strategies.py:79-90 | a lone byte b of 0x80 or more is emitted as itself and decoded as b - 0x80 |
| `Dictionary.DictStripsFrom` | qpac/strategies.py:70-102 | from a dictionary and its flag-cleared copy, a block comes back with every high bit cleared while the two hold at most 0x80 distinct values |
| `Dictionary.DictStripsHighBits` | qpac/strategies.py:70-102 | a block with at most 0x80 distinct values decodes to the block with every byte's high bit cleared |
| `Dictionary.IndexFlagCollision` | qpac/strategies.py:73-94 | the block 0, 1, .., 0x80, 0x80 is encoded as the literals 0x80 .. 0xFF, 0x80 and then the index 0x80 of the repeat; the decoder reads both 0x80 bytes as literal 0s, giving 0, 1, .., 0x7F, 0, 0 |
| `Hybrid.HybridCompress` | qpac/strategies.py:107-115 | the payload is one of the two pipeline outputs and no longer than either; a tie goes to RLE-first; the tag is always HYBRID |
| `Hybrid.HybridDecompress` | qpac/strategies.py:117-147 | the RLE-first reversal wins whenever its dictionary decode succeeds, otherwise the DICT-first reversal; failure only if both fail, carrying both errors |
| `Hybrid.RleFirstLength` | qpac/strategies.py:109 | the RLE-first payload is exactly as long as the plain RLE payload |
| `Hybrid.HybridRoundTripRleFirst` | qpac/strategies.py:109-137 | an RLE-first payload decodes to the block when all values and run counts of its RLE stage are below 0x80 |
| `Hybrid.DictFirstRejectedByFirstAttempt` | qpac/strategies.py:133-139 | for a non-empty block of low bytes, the RLE-first reversal of a DICT-first payload always fails |
| `Hybrid.DictEncodeHead` | qpac/strategies.py:73-82 | the dictionary stage of a non-empty block of low bytes starts with the literal for its first byte, followed by a different byte |
| `Hybrid.LiteralThenOneRejected` | qpac/strategies.py:88-99 | a payload starting with a literal and then the byte 1 fails with an invalid index 1 for a dictionary of size 1 |
| `Hybrid.HybridRoundTripDictFirst` | qpac/strategies.py:111-144 | a DICT-first payload of a block of low bytes decodes to the block through the fallback |
| `Hybrid.RunDictFirstLonger` | qpac/strategies.py:111 | a run of two or more equal bytes below 0x80 gives a DICT-first payload of more than two bytes |
| `Hybrid.HybridTruncatesLongRun` | qpac/strategies.py:107-137 | a run of n bytes v, with v below 0x80 and n from 0x80 to 0xFF, has RLE payload [v, n]; the hybrid payload is [v \| 0x80, n]; it decodes without error to n - 0x80 bytes v |
| `Selector.SelectChoice` | qpac/core.py:33-72 | sizes are the block and payload lengths, compressed size at most original; only RAW, RLE or HYBRID win, each only when strictly shorter than every earlier candidate; HYBRID always carries the DICT-first payload |
| `Selector.SelectIgnoresEntropy` | qpac/core.py:48-52 | the entropy gate does not change the result |
| `Selector.SelectEmpty` | qpac/core.py:33-45 | an empty block is stored RAW with both sizes 0 |
| `Selector.CompressBlock` | qpac/core.py:24-72 | hybrid is on by default; the step-by-step selection returns the entropy-free `Select`, with sizes consistent, never larger than the block, and the tag RAW, RLE or HYBRID |
| `Selector.DecompressBlock` | qpac/core.py:74-92 | RAW returns the payload; RLE and DELTA never fail; an unknown tag fails with UnknownStrategy; only DICT, HYBRID and unknown tags can fail |
| `Selector.RoundTripWithoutHybrid` | qpac/core.py:24-92 | with hybrid off, decompressing a compressed block gives back the block, for every block |
| `Selector.RoundTripLowBytes` | qpac/core.py:24-92 | with hybrid on or off, every block of bytes below 0x80 round-trips |
| `Selector.LongRunStoredAsRle` | qpac/core.py:41-65 | the runs that the hybrid codec shortens are stored as RLE, with hybrid enabled, and round-trip |
| `Selector.HybridSilentCorruption` | qpac/core.py:61-65 | the block [1, 129, 1, 1, 1, 1, 1] selects HYBRID and decodes without error to seven 1 bytes |
| `Selector.TestBlocksRoundTrip` | tests/test_roundtrip.py:15-32 | the 64-byte sample and [1]*20+[2]*20+[3]*24 round-trip with hybrid enabled |
| `HexFormat.HexPair` | qpac/utils.py:3 | each byte becomes exactly two characters, both uppercase hex digits |
| `HexFormat.HexPairParses` | qpac/utils.py:3 | the two digits read back as the byte: zero-padded, high nibble first |
| `HexFormat.HexdumpLength` | qpac/utils.py:3 | empty input gives ""; n >= 1 bytes give 2n + len(sep)(n - 1) characters |
| `HexFormat.HexdumpAt` | qpac/utils.py:3 | byte k sits at offset k(2 + len(sep)) in input order, followed by the separator unless it is the last |
| `HexFormat.HexdumpExample` | qpac/utils.py:2-3 | with the default separator, [0x0A, 0xFF] renders as "0A FF" |

## Left out

- The entropy estimator (qpac/entropy.py) is not part of this model. It uses floating-point `log2` and an optional GPU path. `CompressBlock` takes the entropy as a `real` parameter, and the result is proved not to depend on it.
- The runtime type check of `compress_block` (qpac/core.py:30-31). The typed signature makes it vacuous.
- The demo under `__main__` in qpac/core.py, packaging (setup.py) and the re-exports of qpac/__init__.py. They are printing and packaging only.
- The random-input test (tests/test_roundtrip.py:8-13). It depends on the operating system's random source. `RoundTripWithoutHybrid` and `RoundTripLowBytes` cover every input. With hybrid enabled, `HybridSilentCorruption` shows an input that does not round-trip.
- The unused `prefer` parameter of `hybrid_decompress` and the text of the exception messages.
- numpy mechanics of the delta codec. `np.diff` with `prepend` on unsigned bytes is integer subtraction mod 256 over the block with its first byte prepended.
- Hybrid.HybridDecompress: the exact set of payloads and blocks for which the hybrid round trip succeeds is not characterized. `HybridRoundTripRleFirst`, `HybridRoundTripDictFirst` and `RoundTripLowBytes` give sufficient conditions. `HybridTruncatesLongRun` and `HybridSilentCorruption` show inputs that fail.
- `dictionary.index(b)` is the function `IndexOf` rather than a search loop, because the source calls a library method there.
