/** Hybrid codec (`hybrid_compress` / `hybrid_decompress`): both orders of
    RLE and dictionary coding are tried and the shorter output is kept, but
    the order that won is not recorded; the decoder guesses it by trying the
    RLE-first reversal and falling back to the other order only on failure. */
module Hybrid {
  import opened Blocks
  import opened Rle
  import opened Dictionary

  /** `rle_first`: RLE, then dictionary coding. */
  function RleFirst(x: seq<byte>): seq<byte>
  {
    DictEncode(RleEncode(x))
  }

  /** `dict_first`: dictionary coding, then RLE. */
  function DictFirst(x: seq<byte>): seq<byte>
  {
    RleEncode(DictEncode(x))
  }

  /** `hybrid_compress`: the payload is the shorter pipeline output, a tie
      going to `rle_first`, and the tag is always HYBRID. */
  function HybridCompress(x: seq<byte>): (r: (seq<byte>, int))
    ensures r.1 == HybridTag
    ensures r.0 == RleFirst(x) || r.0 == DictFirst(x)
    ensures |r.0| <= |RleFirst(x)| && |r.0| <= |DictFirst(x)|
    ensures |RleFirst(x)| <= |DictFirst(x)| ==> r.0 == RleFirst(x)
  {
    var rleFirst := DictEncode(RleEncode(x));
    var dictFirst := RleEncode(DictEncode(x));
    if |rleFirst| <= |dictFirst| then (rleFirst, HybridTag) else (dictFirst, HybridTag)
  }

  /** `hybrid_decompress`: undo `rle_first` if the dictionary decoding
      succeeds; otherwise undo `dict_first`; if that fails too, report both
      failures. */
  function HybridDecompress(data: seq<byte>): (r: Result<seq<byte>>)
    ensures DictDecode(data).Ok? ==> r == Ok(RleDecode(DictDecode(data).value))
    ensures DictDecode(data).Err? && DictDecode(RleDecode(data)).Ok? ==> r == DictDecode(RleDecode(data))
    ensures r.Err? <==> DictDecode(data).Err? && DictDecode(RleDecode(data)).Err?
    ensures r.Err? ==> r.error == HybridDecodeFailure(DictDecode(data).error, DictDecode(RleDecode(data)).error)
  {
    match DictDecode(data)
    case Ok(step1) => Ok(RleDecode(step1))
    case Err(first) =>
      match DictDecode(RleDecode(data))
      case Ok(step2) => Ok(step2)
      case Err(second) => Err(HybridDecodeFailure(first, second))
  }

  /** `rle_first` is exactly as long as plain RLE, because dictionary
      coding emits one byte per input byte. */
  lemma RleFirstLength(x: seq<byte>)
    ensures |RleFirst(x)| == |RleEncode(x)|
    ensures |DictEncode(x)| == |x|
  {
  }

  /** An `rle_first` payload decodes to the block whenever every value and
      every run count of its RLE stage is below 0x80. */
  lemma HybridRoundTripRleFirst(x: seq<byte>)
    requires AllBelow128(RleEncode(x))
    ensures HybridDecompress(RleFirst(x)) == Ok(x)
  {
    DictRoundTrip(RleEncode(x));
    RleRoundTrip(x);
  }

  /** For a non-empty block of low bytes, the RLE-first reversal of a
      `dict_first` payload always fails: the payload starts with the literal
      for `x[0]` and the run count 1, which is an index past the end of the
      one-entry dictionary. */
  lemma DictFirstRejectedByFirstAttempt(x: seq<byte>)
    requires |x| > 0 && AllBelow128(x)
    ensures DictDecode(DictFirst(x)).Err?
  {
    var dx := DictEncode(x);
    DictEncodeHead(x);
    LeadRunUnique(dx, 1);
    assert DictFirst(x) == [x[0] + 0x80, 1] + RleEncode(dx[1..]);
    LiteralThenOneRejected(x[0], RleEncode(dx[1..]));
  }

  /** The dictionary stage emits the literal for the first byte, and a
      different byte next. */
  lemma DictEncodeHead(x: seq<byte>)
    requires |x| > 0 && AllBelow128(x)
    ensures |DictEncode(x)| == |x|
    ensures DictEncode(x)[0] == x[0] + 0x80
    ensures |x| > 1 ==> DictEncode(x)[1] != DictEncode(x)[0]
  {
    var s := EncodeStep([], x[0]);
    assert DictEncode(x) == [s.code] + DictEncodeFrom(s.dict, x[1..]);
    if |x| > 1 {
      var t := DictEncodeFrom(s.dict, x[1..]);
      assert s.dict == [x[0]];
      assert t == [EncodeStep(s.dict, x[1]).code] + DictEncodeFrom(EncodeStep(s.dict, x[1]).dict, x[2..]);
    }
  }

  /** A payload that starts with a literal and then the byte 1 is refused:
      1 is an index past the end of the one-entry dictionary. */
  lemma LiteralThenOneRejected(v: byte, rest: seq<byte>)
    requires v < 0x80
    ensures DictDecode([v + 0x80, 1] + rest) == Err(InvalidDictionaryIndex(1, 1))
  {
    var p := [v + 0x80, 1] + rest;
    assert p[1..] == [1] + rest;
    assert LowBits(p[0]) == v && Insert([], v) == [v];
    assert DictDecode(p) == Prefixed([v], DictDecodeFrom([v], p[1..]));
  }

  /** Every block of low bytes survives a `dict_first` round trip: the first
      attempt fails, and the fallback undoes RLE and then dictionary
      coding. */
  lemma HybridRoundTripDictFirst(x: seq<byte>)
    requires AllBelow128(x)
    ensures HybridDecompress(DictFirst(x)) == Ok(x)
  {
    RleRoundTrip(DictEncode(x));
    DictRoundTrip(x);
    if |x| > 0 {
      DictFirstRejectedByFirstAttempt(x);
    }
  }

  /** The hybrid codec loses data on its own, even on low bytes: for a
      single run of a byte below 0x80 whose count `n` has the high bit set,
      `rle_first` is `[v | 0x80, n]` and wins, and the decoder reads the run
      count `n` back as the literal `n & 0x7F`, silently shortening the
      run. */
  lemma HybridTruncatesLongRun(v: byte, n: nat)
    requires v < 0x80 && 0x80 <= n <= MaxRun
    ensures RleEncode(Repeat(v, n)) == [v, n]
    ensures HybridCompress(Repeat(v, n)).0 == [v + 0x80, n]
    ensures HybridDecompress([v + 0x80, n]) == Ok(Repeat(v, n - 0x80))
  {
    RleSingleRun(v, n);
    RunPairFirst(v, n);
    RunDictFirstLonger(v, n);
    var p: seq<byte> := [v + 0x80, n];
    assert p[1..] == [n] && [n][1..] == [];
    assert LowBits(p[0]) == v && Insert([], v) == [v];
    assert Insert([v], n - 0x80) == [v, n - 0x80];
    assert DictDecode(p) == Prefixed([v], DictDecodeFrom([v], [n]));
    assert DictDecodeFrom([v], [n]) == Prefixed([n - 0x80], DictDecodeFrom([v, n - 0x80], []));
    assert [v] + ([n - 0x80] + []) == [v, n - 0x80];
    assert DictDecode(p) == Ok([v, n - 0x80]);
    var q: seq<byte> := [v, n - 0x80];
    assert q[2..] == [];
    assert RleDecode(q) == Repeat(v, n - 0x80) + RleDecode([]);
    assert Repeat(v, n - 0x80) + [] == Repeat(v, n - 0x80);
  }

  /** `rle_first` of the run: both pair bytes are new literals. */
  lemma RunPairFirst(v: byte, n: nat)
    requires v < 0x80 && 0x80 <= n <= MaxRun
    ensures DictEncode([v, n]) == [v + 0x80, n]
  {
    var r: seq<byte> := [v, n];
    assert r[1..] == [n] && r[1..][1..] == [];
    assert Insert([], v) == [v];
    assert DictEncodeFrom([v], [n]) == [n] + DictEncodeFrom([v, n], []);
  }

  /** `dict_first` of the run is longer than two bytes: the dictionary
      stage yields a literal and then index 0, two different bytes, so RLE
      emits the pair (literal, 1) and at least one more pair. */
  lemma RunDictFirstLonger(v: byte, n: nat)
    requires v < 0x80 && 2 <= n
    ensures |DictFirst(Repeat(v, n))| > 2
  {
    var x := Repeat(v, n);
    var dx := DictEncode(x);
    var s := EncodeStep([], v);
    assert s.dict == [v];
    assert dx == [s.code] + DictEncodeFrom([v], x[1..]);
    assert dx[1] == EncodeStep([v], v).code == 0;
    LeadRunUnique(dx, 1);
    assert RleEncode(dx) == [dx[0], 1] + RleEncode(dx[1..]);
    RleEmpty(dx[1..]);
  }
}
