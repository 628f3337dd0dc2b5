/** Delta codec (`delta_compress` / `delta_decompress`), modelled as written:
    the encoder diffs against a copy of the first byte prepended to the
    block, so its first slot is always 0, and the decoder takes that slot as
    the first output byte. */
module Delta {
  import opened Blocks

  /** `np.diff(arr, prepend=arr[0])` on unsigned bytes: each slot is the
      difference to the slot before it in `[x[0]] + x`, modulo 256. */
  function DeltaCompress(x: seq<byte>): (r: seq<byte>)
    ensures |r| == |x|
    ensures |x| > 0 ==> r[0] == 0
    ensures forall i :: 0 < i < |x| ==> r[i] == (x[i] as int - x[i - 1]) % 256
  {
    if |x| == 0 then []
    else
      var p := [x[0]] + x;
      seq(|x|, i requires 0 <= i < |x| => (p[i + 1] as int - p[i]) % 256)
  }

  /** Sum of the first `k` entries of `e`. */
  function PrefixSum(e: seq<byte>, k: nat): int
    requires k <= |e|
  {
    if k == 0 then 0 else PrefixSum(e, k - 1) + e[k - 1]
  }

  /** What the decoder's accumulation computes: output byte `i` is the sum
      of the first `i + 1` encoded bytes, modulo 256. */
  function DeltaDecode(e: seq<byte>): (r: seq<byte>)
    ensures |r| == |e|
    ensures |e| > 0 ==> r[0] == e[0]
  {
    assert |e| > 0 ==> PrefixSum(e, 1) == e[0];
    seq(|e|, i requires 0 <= i < |e| => PrefixSum(e, i + 1) % 256)
  }

  /** `delta_decompress`: the output array is filled left to right, each
      slot from the previous one. */
  method DeltaDecompress(data: seq<byte>) returns (r: seq<byte>)
    ensures r == DeltaDecode(data)
  {
    if |data| == 0 {
      return [];
    }
    var out := new byte[|data|];
    out[0] := data[0];
    for i := 1 to |data|
      invariant forall j :: 0 <= j < i ==> out[j] == PrefixSum(data, j + 1) % 256
    {
      ModAddLeft(PrefixSum(data, i), data[i]);
      out[i] := (out[i - 1] as int + data[i]) % 256;
    }
    r := out[..];
  }

  /** `(a % 256 + b) % 256 == (a + b) % 256` */
  lemma ModAddLeft(a: int, b: int)
    ensures (a % 256 + b) % 256 == (a + b) % 256
  {
    var q := a / 256;
    assert a == 256 * q + a % 256;
    assert a + b == (a % 256 + b) + 256 * q;
    ModShift(a % 256 + b, q);
  }

  lemma ModShift(a: int, q: int)
    ensures (a + 256 * q) % 256 == a % 256
  {
  }

  /** After a round trip, byte `i` comes back as `x[i] - x[0]` modulo 256:
      the first byte of the block is lost. */
  lemma {:induction false} DeltaRoundTripAt(x: seq<byte>, i: nat)
    requires i < |x|
    ensures DeltaDecode(DeltaCompress(x))[i] == (x[i] as int - x[0]) % 256
  {
    var e := DeltaCompress(x);
    PrefixSumTelescopes(x, e, i);
    assert DeltaDecode(e)[i] == PrefixSum(e, i + 1) % 256;
  }

  lemma {:induction false} PrefixSumTelescopes(x: seq<byte>, e: seq<byte>, i: nat)
    requires i < |x| == |e| && e[0] == 0
    requires forall k :: 0 < k < |x| ==> e[k] == (x[k] as int - x[k - 1]) % 256
    ensures PrefixSum(e, i + 1) % 256 == (x[i] as int - x[0]) % 256
    decreases i
  {
    if i == 0 {
      assert PrefixSum(e, 1) == e[0];
    } else {
      PrefixSumTelescopes(x, e, i - 1);
      ModTelescope(PrefixSum(e, i), x[i], x[i - 1], x[0]);
    }
  }

  /** One telescoping step modulo 256. */
  lemma ModTelescope(s: int, a: int, b: int, c: int)
    requires s % 256 == (b - c) % 256
    ensures (s + (a - b) % 256) % 256 == (a - c) % 256
  {
    calc {
      (s + (a - b) % 256) % 256;
      { ModAddLeft(s, (a - b) % 256); }
      (s % 256 + (a - b) % 256) % 256;
      { ModAddLeft(b - c, (a - b) % 256); }
      (b - c + (a - b) % 256) % 256;
      { ModAddLeft(a - b, b - c); }
      (a - c) % 256;
    }
  }

  /** The round trip restores the block exactly when it is empty or starts
      with a zero byte. */
  lemma DeltaRoundTrip(x: seq<byte>)
    ensures DeltaDecode(DeltaCompress(x)) == x <==> |x| == 0 || x[0] == 0
  {
    var y := DeltaDecode(DeltaCompress(x));
    if |x| > 0 {
      DeltaRoundTripAt(x, 0);
      if x[0] == 0 {
        forall i | 0 <= i < |x| ensures y[i] == x[i] {
          DeltaRoundTripAt(x, i);
        }
      }
    }
  }
}
