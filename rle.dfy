/** Run-length codec (`rle_compress` / `rle_decompress`): a block becomes
    (value, count) byte pairs, a run longer than 255 bytes is split. */
module Rle {
  import opened Blocks

  /** Longest run count field. */
  const MaxRun: nat := 255

  /** Length of the leading run of `x`, capped at 255: the value of `count`
      when the inner loop of the encoder stops (see `LeadRunIsMaximal`). */
  function LeadRun(x: seq<byte>): (c: nat)
    requires |x| > 0
    ensures 1 <= c <= MaxRun && c <= |x|
  {
    RunFrom(x, 1)
  }

  function RunFrom(x: seq<byte>, c: nat): (r: nat)
    requires 1 <= c <= MaxRun && c <= |x|
    ensures c <= r <= MaxRun && r <= |x|
    decreases |x| - c
  {
    if c < |x| && x[c] == x[0] && c < MaxRun then RunFrom(x, c + 1) else c
  }

  lemma {:induction false} RunFromIsMaximal(x: seq<byte>, c: nat)
    requires 1 <= c <= MaxRun && c <= |x|
    requires forall j :: 0 <= j < c ==> x[j] == x[0]
    ensures forall j :: 0 <= j < RunFrom(x, c) ==> x[j] == x[0]
    ensures RunFrom(x, c) < |x| && RunFrom(x, c) < MaxRun ==> x[RunFrom(x, c)] != x[0]
    decreases |x| - c
  {
    if c < |x| && x[c] == x[0] && c < MaxRun {
      RunFromIsMaximal(x, c + 1);
    }
  }

  /** The leading run is a run of equal bytes that stops only at the end of
      the block, at the cap, or at a different byte. */
  lemma LeadRunIsMaximal(x: seq<byte>)
    requires |x| > 0
    ensures forall j :: 0 <= j < LeadRun(x) ==> x[j] == x[0]
    ensures LeadRun(x) < |x| && LeadRun(x) < MaxRun ==> x[LeadRun(x)] != x[0]
  {
    RunFromIsMaximal(x, 1);
  }

  /** A count that satisfies the loop's exit condition is the leading run. */
  lemma LeadRunUnique(x: seq<byte>, c: nat)
    requires |x| > 0 && 1 <= c <= MaxRun && c <= |x|
    requires forall j :: 0 <= j < c ==> x[j] == x[0]
    requires c == |x| || c == MaxRun || x[c] != x[0]
    ensures c == LeadRun(x)
  {
    var r := LeadRun(x);
    LeadRunIsMaximal(x);
  }

  /** Encoding of `rle_compress`, one run at a time. */
  function RleEncode(x: seq<byte>): (r: seq<byte>)
    decreases |x|
  {
    if |x| == 0 then []
    else
      var c := LeadRun(x);
      [x[0], c] + RleEncode(x[c..])
  }

  /** Decoding of `rle_decompress`: every complete pair is replayed, a
      trailing unpaired byte is dropped. */
  function RleDecode(e: seq<byte>): (r: seq<byte>)
    decreases |e|
  {
    if |e| < 2 then [] else Repeat(e[0], e[1]) + RleDecode(e[2..])
  }

  /** The sum of the count bytes of the complete pairs of `e`. */
  function CountSum(e: seq<byte>): nat
    decreases |e|
  {
    if |e| < 2 then 0 else e[1] + CountSum(e[2..])
  }

  /** The inner loop of `rle_compress`: counts the run that starts at `i`,
      up to 255 bytes. */
  method RunLength(data: seq<byte>, i: nat) returns (count: byte)
    requires i < |data|
    ensures count == LeadRun(data[i..])
  {
    ghost var rest := data[i..];
    var n := |data|;
    var val := data[i];
    count := 1;
    while i + count < n && data[i + count] == val && count < 255
      invariant 1 <= count <= MaxRun && i + count <= n
      invariant RunFrom(rest, count) == LeadRun(rest)
      decreases n - count
    {
      count := count + 1;
    }
  }

  /** `rle_compress`: the outer loop walks the runs, `RunLength` measures
      one. */
  method RleCompress(data: seq<byte>) returns (out: seq<byte>)
    ensures out == RleEncode(data)
  {
    out := [];
    var n := |data|;
    var i := 0;
    while i < n
      invariant 0 <= i <= n
      invariant out + RleEncode(data[i..]) == RleEncode(data)
      decreases n - i
    {
      var val := data[i];
      var count := RunLength(data, i);
      ghost var start, before := i, out;
      out := out + [val, count];
      i := i + count;
      assert out + RleEncode(data[i..]) == RleEncode(data) by {
        assert data[start..][count..] == data[i..];
        assert out + RleEncode(data[i..]) == before + ([val, count] + RleEncode(data[i..]));
      }
    }
  }

  /** `rle_decompress`: pairs are read while two bytes remain. */
  method RleDecompress(data: seq<byte>) returns (out: seq<byte>)
    ensures out == RleDecode(data)
  {
    out := [];
    var n := |data|;
    var i := 0;
    while i + 1 < n
      invariant 0 <= i <= n
      invariant out + RleDecode(data[i..]) == RleDecode(data)
      decreases n - i
    {
      var val := data[i];
      var count := data[i + 1];
      assert data[i..][2..] == data[i + 2..];
      out := out + Repeat(val, count);
      i := i + 2;
    }
  }

  /** Decoding undoes encoding for every block. */
  lemma {:induction false} RleRoundTrip(x: seq<byte>)
    ensures RleDecode(RleEncode(x)) == x
    decreases |x|
  {
    if |x| > 0 {
      var c := LeadRun(x);
      var t := x[c..];
      assert RleDecode(RleEncode(x)) == Repeat(x[0], c) + RleDecode(RleEncode(t)) by {
        var e := RleEncode(x);
        assert e[2..] == RleEncode(t);
      }
      RleRoundTrip(t);
      LeadRunIsMaximal(x);
      RunThenRest(x, c);
    }
  }

  /** A block whose first `c` bytes equal its first byte is that run
      followed by the rest. */
  lemma RunThenRest(x: seq<byte>, c: nat)
    requires 0 < c <= |x|
    requires forall j :: 0 <= j < c ==> x[j] == x[0]
    ensures Repeat(x[0], c) + x[c..] == x
  {
    assert Repeat(x[0], c) == x[..c];
    assert x[..c] + x[c..] == x;
  }

  /** Empty maps to empty in both directions, and only empty maps to empty
      under encoding. */
  lemma RleEmpty(x: seq<byte>)
    ensures RleEncode(x) == [] <==> x == []
    ensures RleDecode([]) == []
  {
  }

  /** Shape of the encoder's output: (value, count) pairs with each count
      in 1..255 and the counts adding up to the block length, so the output
      has even length of at most twice the input. */
  lemma RleEncodeShape(x: seq<byte>)
    ensures |RleEncode(x)| % 2 == 0
    ensures |RleEncode(x)| <= 2 * |x|
    ensures forall k :: 0 <= k < |RleEncode(x)| / 2 ==> 1 <= RleEncode(x)[2 * k + 1] <= MaxRun
    ensures CountSum(RleEncode(x)) == |x|
  {
    RleEncodeSizes(x);
    RleCountsInRange(x);
  }

  lemma {:induction false} RleEncodeSizes(x: seq<byte>)
    ensures |RleEncode(x)| % 2 == 0
    ensures |RleEncode(x)| <= 2 * |x|
    ensures CountSum(RleEncode(x)) == |x|
    decreases |x|
  {
    if |x| > 0 {
      var c := LeadRun(x);
      var e := RleEncode(x);
      RleEncodeSizes(x[c..]);
      assert e[2..] == RleEncode(x[c..]);
    }
  }

  lemma {:induction false} RleCountsInRange(x: seq<byte>)
    ensures forall k :: 0 <= k < |RleEncode(x)| / 2 ==> 1 <= RleEncode(x)[2 * k + 1] <= MaxRun
    decreases |x|
  {
    if |x| > 0 {
      var c := LeadRun(x);
      var e := RleEncode(x);
      var t := RleEncode(x[c..]);
      RleCountsInRange(x[c..]);
      assert e == [x[0], c] + t;
      forall k | 0 <= k < |e| / 2
        ensures 1 <= e[2 * k + 1] <= MaxRun
      {
        if k > 0 {
          assert e[2 * k + 1] == t[2 * (k - 1) + 1];
        }
      }
    }
  }

  /** The decoder outputs exactly as many bytes as the count bytes add up to. */
  lemma {:induction false} RleDecodeLength(e: seq<byte>)
    ensures |RleDecode(e)| == CountSum(e)
    decreases |e|
  {
    if |e| >= 2 {
      RleDecodeLength(e[2..]);
    }
  }

  /** A trailing unpaired byte is ignored by the decoder. */
  lemma {:induction false} RleDecodeIgnoresTrailingByte(e: seq<byte>, b: byte)
    requires |e| % 2 == 0
    ensures RleDecode(e + [b]) == RleDecode(e)
    decreases |e|
  {
    if |e| >= 2 {
      assert (e + [b])[2..] == e[2..] + [b];
      RleDecodeIgnoresTrailingByte(e[2..], b);
    }
  }

  /** A run of at most 255 equal bytes becomes one pair. */
  lemma RleSingleRun(v: byte, n: nat)
    requires 1 <= n <= MaxRun
    ensures RleEncode(Repeat(v, n)) == [v, n]
  {
    var x := Repeat(v, n);
    LeadRunUnique(x, n);
    assert x[n..] == [];
    assert RleEncode(x) == [v, n] + RleEncode([]);
  }

  /** A run of 300 equal bytes becomes two pairs, 255 and 45. */
  lemma RleLongRun(v: byte)
    ensures RleEncode(Repeat(v, 300)) == [v, 255, v, 45]
  {
    var x := Repeat(v, 300);
    LeadRunUnique(x, 255);
    var y := x[255..];
    assert RleEncode(x) == [v, 255] + RleEncode(y);
    LeadRunUnique(y, 45);
    assert y[45..] == [];
    assert RleEncode(y) == [v, 45] + RleEncode([]);
  }
}
