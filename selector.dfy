/** Strategy selector (`compress_block` / `decompress_block`): every codec is
    run over the block and the shortest payload is kept, RAW being the
    starting point and a later candidate winning only when strictly shorter.
    The entropy estimate gates only the delta candidate; it is a parameter
    here, since estimating it is not part of this model. */
module Selector {
  import opened Blocks
  import opened Rle
  import opened Delta
  import opened Dictionary
  import opened Hybrid

  /** The record `compress_block` returns. */
  datatype CompressedBlock = CompressedBlock(strategy: int, originalSize: nat, compressedSize: nat, data: seq<byte>)

  /** Delta coding is tried only below this many bits per symbol. */
  const EntropyGate: real := 4.0

  /** A payload with the tag of the strategy that produced it. */
  datatype Candidate = Candidate(data: seq<byte>, tag: int)

  /** Keep the current best unless the candidate is strictly shorter. */
  function Consider(best: Candidate, c: Candidate): Candidate
  {
    if |c.data| < |best.data| then c else best
  }

  /** The chain of candidates of `compress_block`; `lowEntropy` stands for
      the outcome of the entropy gate. */
  function Select(block: seq<byte>, tryHybrid: bool, lowEntropy: bool): CompressedBlock
  {
    var raw := Candidate(block, Raw);
    var c1 := Consider(raw, Candidate(RleEncode(block), RleTag));
    var c2 := if lowEntropy then Consider(c1, Candidate(DeltaCompress(block), DeltaTag)) else c1;
    var c3 := Consider(c2, Candidate(DictEncode(block), DictTag));
    var c4 := if tryHybrid then Consider(c3, Candidate(HybridCompress(block).0, HybridTag)) else c3;
    CompressedBlock(c4.tag, |block|, |c4.data|, c4.data)
  }

  /** What the selector picks, stated without the chain: RAW unless RLE or
      hybrid is strictly shorter, hybrid only when strictly shorter than
      both RAW and RLE, and then with the `dict_first` payload. Delta and
      dictionary payloads are as long as the block, so they never win. */
  lemma SelectChoice(block: seq<byte>, tryHybrid: bool, lowEntropy: bool)
    ensures var cb := Select(block, tryHybrid, lowEntropy);
      && cb.originalSize == |block|
      && cb.compressedSize == |cb.data| <= |block|
      && (cb.strategy == Raw || cb.strategy == RleTag || cb.strategy == HybridTag)
      && (cb.strategy == Raw ==>
            cb.data == block && |RleEncode(block)| >= |block|
            && (tryHybrid ==> |HybridCompress(block).0| >= |block|))
      && (cb.strategy == RleTag ==>
            cb.data == RleEncode(block) && |RleEncode(block)| < |block|
            && (tryHybrid ==> |HybridCompress(block).0| >= |RleEncode(block)|))
      && (cb.strategy == HybridTag ==>
            tryHybrid && cb.data == DictFirst(block)
            && |DictFirst(block)| < |RleEncode(block)| && |DictFirst(block)| < |block|)
  {
    RleFirstLength(block);
    RleFirstLength(RleEncode(block));
  }

  /** The entropy gate cannot change the result. */
  lemma SelectIgnoresEntropy(block: seq<byte>, tryHybrid: bool)
    ensures Select(block, tryHybrid, true) == Select(block, tryHybrid, false)
  {
    RleFirstLength(block);
  }

  /** An empty block is stored raw, with both sizes 0. */
  lemma SelectEmpty(tryHybrid: bool, lowEntropy: bool)
    ensures Select([], tryHybrid, lowEntropy) == CompressedBlock(Raw, 0, 0, [])
  {
    SelectChoice([], tryHybrid, lowEntropy);
  }

  /** `compress_block`: the best payload and its tag are updated step by
      step as the candidates are tried in order. The estimated entropy of
      the block is an input; hybrid is tried unless switched off. */
  method CompressBlock(block: seq<byte>, entropy: real, tryHybrid: bool := true) returns (cb: CompressedBlock)
    ensures cb == Select(block, tryHybrid, false)
    ensures cb.originalSize == |block| && cb.compressedSize == |cb.data| <= |block|
    ensures cb.strategy == Raw || cb.strategy == RleTag || cb.strategy == HybridTag
    ensures cb.strategy == HybridTag ==> cb.data == DictFirst(block)
  {
    var origSize := |block|;
    var bestData := block;
    var bestStrategy := Raw;

    var rleOut := RleCompress(block);
    if |rleOut| < |bestData| {
      bestData := rleOut;
      bestStrategy := RleTag;
    }

    if entropy < EntropyGate {
      var deltaOut := DeltaCompress(block);
      if |deltaOut| < |bestData| {
        bestData := deltaOut;
        bestStrategy := DeltaTag;
      }
    }

    var dictOut := DictCompress(block);
    if |dictOut| < |bestData| {
      bestData := dictOut;
      bestStrategy := DictTag;
    }

    if tryHybrid {
      var (hybridOut, _) := HybridCompress(block);
      if |hybridOut| < |bestData| {
        bestData := hybridOut;
        bestStrategy := HybridTag;
      }
    }

    cb := CompressedBlock(bestStrategy, origSize, |bestData|, bestData);
    assert cb == Select(block, tryHybrid, entropy < EntropyGate);
    SelectIgnoresEntropy(block, tryHybrid);
    SelectChoice(block, tryHybrid, false);
  }

  /** `decompress_block`: dispatch on the tag. Only the dictionary-based
      decoders and an unknown tag can fail. */
  function DecompressBlock(cb: CompressedBlock): (r: Result<seq<byte>>)
    ensures cb.strategy == Raw ==> r == Ok(cb.data)
    ensures cb.strategy == RleTag ==> r.Ok? && |r.value| == CountSum(cb.data)
    ensures cb.strategy == DeltaTag ==> r.Ok? && |r.value| == |cb.data|
    ensures !(Raw <= cb.strategy <= HybridTag) ==> r == Err(UnknownStrategy(cb.strategy))
    ensures r.Err? ==> cb.strategy == DictTag || cb.strategy == HybridTag || !(Raw <= cb.strategy <= HybridTag)
  {
    RleDecodeLength(cb.data);
    if cb.strategy == Raw then Ok(cb.data)
    else if cb.strategy == RleTag then Ok(RleDecode(cb.data))
    else if cb.strategy == DeltaTag then Ok(DeltaDecode(cb.data))
    else if cb.strategy == DictTag then DictDecode(cb.data)
    else if cb.strategy == HybridTag then HybridDecompress(cb.data)
    else Err(UnknownStrategy(cb.strategy))
  }

  /** Without the hybrid candidate every block round-trips, although the
      delta and dictionary codecs are lossy: neither of them is ever
      selected. */
  lemma RoundTripWithoutHybrid(block: seq<byte>, lowEntropy: bool)
    ensures DecompressBlock(Select(block, false, lowEntropy)) == Ok(block)
  {
    SelectChoice(block, false, lowEntropy);
    RleRoundTrip(block);
  }

  /** With the hybrid candidate, every block of bytes below 0x80
      round-trips: a hybrid payload is always the `dict_first` output, and
      for such blocks the decoder's first attempt on it fails. */
  lemma RoundTripLowBytes(block: seq<byte>, tryHybrid: bool, lowEntropy: bool)
    requires AllBelow128(block)
    ensures DecompressBlock(Select(block, tryHybrid, lowEntropy)) == Ok(block)
  {
    SelectChoice(block, tryHybrid, lowEntropy);
    RleRoundTrip(block);
    HybridRoundTripDictFirst(block);
  }

  /** The runs `HybridTruncatesLongRun` shortens are never stored as
      HYBRID: plain RLE gives the same two bytes and wins the tie, so the
      block round-trips. */
  lemma LongRunStoredAsRle(v: byte, n: nat, lowEntropy: bool)
    requires v < 0x80 && 0x80 <= n <= MaxRun
    ensures Select(Repeat(v, n), true, lowEntropy).strategy == RleTag
    ensures DecompressBlock(Select(Repeat(v, n), true, lowEntropy)) == Ok(Repeat(v, n))
  {
    HybridTruncatesLongRun(v, n);
    RunDictFirstLonger(v, n);
    SelectChoice(Repeat(v, n), true, lowEntropy);
    RleRoundTrip(Repeat(v, n));
  }

  /** The block of the silent-corruption example below, and the payload
      the hybrid codec makes of it. */
  const CorruptedBlock: seq<byte> := [1, 129, 1, 1, 1, 1, 1]
  const CorruptedPayload: seq<byte> := [129, 2, 0, 5]

  /** A block with a high byte on which the hybrid candidate wins and the
      decoder silently returns different bytes: the literal 0x81 stands for
      both 0x01 and 0x81, the first attempt fails, and the fallback strips
      the high bit. */
  lemma HybridSilentCorruption(lowEntropy: bool)
    ensures var cb := Select(CorruptedBlock, true, lowEntropy);
      && cb.strategy == HybridTag
      && cb.data == CorruptedPayload
      && DecompressBlock(cb) == Ok(Repeat(1, 7))
  {
    CorruptionRleStage();
    CorruptionDictFirst();
    CorruptionDecodings();
    SelectChoice(CorruptedBlock, true, lowEntropy);
  }

  lemma CorruptionDictFirst()
    ensures DictFirst(CorruptedBlock) == CorruptedPayload
  {
    assert CorruptedBlock == [1, 129] + Repeat(1, 5);
    PairThenRunEncoding(1, 129, 5);
    assert SetHigh(1) == 129 && SetHigh(129) == 129;
    PairThenZerosRle(129, 5);
  }

  /** Two equal bytes and then a run of zeros: two RLE pairs. */
  lemma PairThenZerosRle(p: byte, n: nat)
    requires p != 0 && 1 <= n <= MaxRun
    ensures RleEncode([p, p] + Repeat(0, n)) == [p, 2, 0, n]
  {
    var e := [p, p] + Repeat(0, n);
    assert e[2..] == Repeat(0, n);
    LeadRunUnique(e, 2);
    RleSingleRun(0, n);
    assert RleEncode(e) == [p, 2] + RleEncode(e[2..]);
  }

  lemma CorruptionRleStage()
    ensures RleEncode(CorruptedBlock) == [1, 1, 129, 1, 1, 5]
  {
    var x: seq<byte> := CorruptedBlock;
    var y := x[1..];
    assert y[1..] == Repeat(1, 5);
    LeadRunUnique(x, 1);
    LeadRunUnique(y, 1);
    RleSingleRun(1, 5);
    assert RleEncode(y) == [129, 1] + RleEncode(y[1..]);
    assert RleEncode(x) == [1, 1] + RleEncode(y);
  }

  lemma CorruptionDictStage()
    ensures DictEncode(CorruptedBlock) == [129, 129] + Repeat(0, 5)
  {
    assert CorruptedBlock == [1, 129] + Repeat(1, 5);
    PairThenRunEncoding(1, 129, 5);
    assert SetHigh(1) == 129 && SetHigh(129) == 129;
  }

  /** Two new bytes and then a run of the first: two literals, then a run
      of index 0. */
  lemma PairThenRunEncoding(a: byte, b: byte, n: nat)
    requires a != b
    ensures DictEncode([a, b] + Repeat(a, n)) == [SetHigh(a), SetHigh(b)] + Repeat(0, n)
  {
    var x := [a, b] + Repeat(a, n);
    var y := x[1..];
    assert DictEncodeFrom([a, b], y[1..]) == Repeat(0, n) by {
      assert y[1..] == Repeat(a, n);
      DictKnownRun([a, b], a, n);
      assert IndexOf([a, b], a) == 0;
    }
    assert DictEncodeFrom([a], y) == [SetHigh(b)] + Repeat(0, n) by {
      assert y[0] == b && b !in [a];
      assert Insert([a], b) == [a, b];
    }
    assert DictEncode(x) == [SetHigh(a)] + DictEncodeFrom([a], y) by {
      assert Insert([], a) == [a];
    }
  }

  lemma CorruptionDecodings()
    ensures HybridDecompress(CorruptedPayload) == Ok(Repeat(1, 7))
  {
    assert DictDecode(CorruptedPayload).Err?;
    assert RleDecode(CorruptedPayload) == [129, 129] + Repeat(0, 5);
    CorruptionFallback();
  }

  lemma CorruptionFallback()
    ensures DictDecode([129, 129] + Repeat(0, 5)) == Ok(Repeat(1, 7))
  {
    assert SetHigh(1) == 129;
    LiteralPairThenZerosDecode(1, 5);
  }

  /** The literal for `a` twice, then a run of index 0: the decoder's
      dictionary holds `a` twice, and index 0 names `a`. */
  lemma LiteralPairThenZerosDecode(a: byte, n: nat)
    requires a < 0x80
    ensures DictDecode([SetHigh(a), SetHigh(a)] + Repeat(0, n)) == Ok(Repeat(a, n + 2))
  {
    var e: seq<byte> := [SetHigh(a), SetHigh(a)] + Repeat(0, n);
    var tail: seq<byte> := [a] + Repeat(a, n);
    assert LowBits(SetHigh(a)) == a;
    assert DictDecodeFrom([a], e[1..]) == Ok(tail) by {
      assert e[1..][1..] == Repeat(0, n);
      assert Insert([a], a) == [a, a];
      IndexZeroRun([a, a], n);
    }
    assert DictDecode(e) == Ok([a] + tail) by {
      assert Insert([], a) == [a];
    }
    assert [a] + tail == Repeat(a, n + 2);
  }

  /** A run of index 0 decodes to a run of the first dictionary entry. */
  lemma {:induction false} IndexZeroRun(d: seq<byte>, n: nat)
    requires |d| > 0
    ensures DictDecodeFrom(d, Repeat(0, n)) == Ok(Repeat(d[0], n))
  {
    if n > 0 {
      IndexZeroRun(d, n - 1);
      assert Repeat(0, n)[1..] == Repeat(0, n - 1);
      assert [d[0]] + Repeat(d[0], n - 1) == Repeat(d[0], n);
    }
  }

  /** The 64-byte sample block of the test suite: three copies of one row
      of 16 bytes, then a descending row. */
  function SampleBlock(): seq<byte>
  {
    var row := [1, 1, 1, 1, 2, 2, 3, 3, 3, 3, 3, 3, 4, 5, 6, 7];
    var tail := [9, 9, 9, 9, 9, 9, 8, 8, 8, 7, 6, 5, 4, 3, 2, 1];
    row + row + row + tail
  }

  lemma SampleBlockLow()
    ensures AllBelow128(SampleBlock())
  {
    var row: seq<byte> := [1, 1, 1, 1, 2, 2, 3, 3, 3, 3, 3, 3, 4, 5, 6, 7];
    var tail: seq<byte> := [9, 9, 9, 9, 9, 9, 8, 8, 8, 7, 6, 5, 4, 3, 2, 1];
    forall i | 0 <= i < 16 ensures row[i] < 0x80 && tail[i] < 0x80 {
      if i < 8 {} else {}
    }
    assert SampleBlock() == row + row + row + tail;
  }

  /** `[1]*20 + [2]*20 + [3]*24` from the test suite. */
  function ThreeRunsBlock(): seq<byte>
  {
    Repeat(1, 20) + Repeat(2, 20) + Repeat(3, 24)
  }

  lemma ThreeRunsBlockLow()
    ensures AllBelow128(ThreeRunsBlock())
  {
  }

  /** Both fixed test blocks round-trip with hybrid enabled. */
  lemma TestBlocksRoundTrip(block: seq<byte>, lowEntropy: bool)
    requires block == SampleBlock() || block == ThreeRunsBlock()
    ensures DecompressBlock(Select(block, true, lowEntropy)) == Ok(block)
  {
    SampleBlockLow();
    ThreeRunsBlockLow();
    RoundTripLowBytes(block, true, lowEntropy);
  }
}
