/** Adaptive single-byte dictionary codec (`dict_compress` /
    `dict_decompress`). A byte already in the insertion-ordered dictionary is
    replaced by its index; a new byte is emitted as the literal `0x80 | b`
    and appended. The dictionary is cleared when it reaches `MaxDictSize`
    entries. The decoder replays the same rule but keeps only the low seven
    bits of a literal, so bytes of 0x80 and above do not come back. */
module Dictionary {
  import opened Blocks

  const MaxDictSize: nat := 256

  predicate Distinct(d: seq<byte>) {
    forall i, j :: 0 <= i < j < |d| ==> d[i] != d[j]
  }

  /** `dictionary.index(b)`: the first position holding `b`. */
  function IndexOf(d: seq<byte>, b: byte): (k: nat)
    requires b in d
    ensures k < |d| && d[k] == b
    ensures forall j :: 0 <= j < k ==> d[j] != b
  {
    if d[0] == b then 0 else 1 + IndexOf(d[1..], b)
  }

  /** Append `b`, then clear the dictionary if it has reached capacity;
      both directions update their dictionary this way. */
  function Insert(d: seq<byte>, b: byte): (r: seq<byte>)
  {
    if |d| + 1 >= MaxDictSize then [] else d + [b]
  }

  /** The dictionary after one step, and the byte emitted for it. */
  datatype Step = Step(dict: seq<byte>, code: byte)

  /** One iteration of the encoder loop. */
  function EncodeStep(d: seq<byte>, b: byte): (s: Step)
    requires |d| < MaxDictSize
    ensures |s.dict| < MaxDictSize
    ensures b in d ==> s.dict == d && s.code < |d| && d[s.code] == b
    ensures b !in d ==> s.code == SetHigh(b) && s.dict == Insert(d, b)
  {
    if b in d then Step(d, IndexOf(d, b)) else Step(Insert(d, b), SetHigh(b))
  }

  /** Encoding of the rest of a block, starting from dictionary `d`. */
  function DictEncodeFrom(d: seq<byte>, x: seq<byte>): (r: seq<byte>)
    requires |d| < MaxDictSize
    ensures |r| == |x|
    decreases |x|
  {
    if |x| == 0 then []
    else
      var s := EncodeStep(d, x[0]);
      [s.code] + DictEncodeFrom(s.dict, x[1..])
  }

  /** `dict_compress`: encoding starts from the empty dictionary. */
  function DictEncode(x: seq<byte>): seq<byte>
  {
    DictEncodeFrom([], x)
  }

  /** The encoder's dictionary after a block has been encoded from `d`. */
  function EncoderDict(d: seq<byte>, x: seq<byte>): (r: seq<byte>)
    requires |d| < MaxDictSize
    decreases |x|
  {
    if |x| == 0 then d else EncoderDict(EncodeStep(d, x[0]).dict, x[1..])
  }

  /** Prefix a successful decoding with `o`; a failure passes through. */
  function Prefixed(o: seq<byte>, r: Result<seq<byte>>): Result<seq<byte>>
  {
    match r
    case Ok(v) => Ok(o + v)
    case Err(e) => Err(e)
  }

  /** Decoding of the rest of a payload, starting from dictionary `d`. */
  function DictDecodeFrom(d: seq<byte>, e: seq<byte>): (r: Result<seq<byte>>)
    ensures r.Ok? ==> |r.value| == |e|
    ensures r.Err? ==> r.error.InvalidDictionaryIndex? && r.error.size <= r.error.index < 0x80
    decreases |e|
  {
    if |e| == 0 then Ok([])
    else if HighBit(e[0]) then
      var literal := LowBits(e[0]);
      Prefixed([literal], DictDecodeFrom(Insert(d, literal), e[1..]))
    else if e[0] >= |d| then Err(InvalidDictionaryIndex(e[0], |d|))
    else Prefixed([d[e[0]]], DictDecodeFrom(d, e[1..]))
  }

  /** `dict_decompress`: decoding starts from the empty dictionary. */
  function DictDecode(e: seq<byte>): Result<seq<byte>>
  {
    DictDecodeFrom([], e)
  }

  /** The decoder's dictionary after replaying `e` from `d`: literals are
      inserted, indices leave it unchanged. */
  function DecoderDict(d: seq<byte>, e: seq<byte>): seq<byte>
    decreases |e|
  {
    if |e| == 0 then d
    else DecoderDict(if HighBit(e[0]) then Insert(d, LowBits(e[0])) else d, e[1..])
  }

  /** Position `i` of `e` holds an index that is out of range for the
      dictionary the decoder has built from the bytes before it. */
  predicate BadIndexAt(d: seq<byte>, e: seq<byte>, i: nat)
    requires i < |e|
  {
    !HighBit(e[i]) && e[i] >= |DecoderDict(d, e[..i])|
  }

  /** `dict_compress` as the source writes it: one pass over the block that
      appends to the output and updates the dictionary. */
  method DictCompress(data: seq<byte>) returns (out: seq<byte>)
    ensures out == DictEncode(data)
  {
    out := [];
    var dictionary: seq<byte> := [];
    for i := 0 to |data|
      invariant |dictionary| < MaxDictSize
      invariant out + DictEncodeFrom(dictionary, data[i..]) == DictEncode(data)
    {
      var b := data[i];
      assert data[i..][1..] == data[i + 1..];
      ghost var before := out;
      ghost var s := EncodeStep(dictionary, b);
      if b in dictionary {
        var idx := IndexOf(dictionary, b);
        out := out + [idx];
      } else {
        out := out + [SetHigh(b)];
        dictionary := dictionary + [b];
        if |dictionary| >= MaxDictSize {
          dictionary := [];
        }
      }
      assert out + DictEncodeFrom(s.dict, data[i + 1..]) == before + ([s.code] + DictEncodeFrom(s.dict, data[i + 1..]));
    }
  }

  /** `dict_decompress` as the source writes it; the exception for an index
      past the end of the dictionary becomes an `Err` result. */
  method DictDecompress(data: seq<byte>) returns (r: Result<seq<byte>>)
    ensures r == DictDecode(data)
  {
    var out: seq<byte> := [];
    var dictionary: seq<byte> := [];
    assert data[0..] == data;
    PrefixedEmpty(DictDecode(data));
    for i := 0 to |data|
      invariant DictDecode(data) == Prefixed(out, DictDecodeFrom(dictionary, data[i..]))
    {
      var b := data[i];
      assert data[i..][1..] == data[i + 1..];
      ghost var before := out;
      if HighBit(b) {
        var literal := LowBits(b);
        out := out + [literal];
        dictionary := dictionary + [literal];
        if |dictionary| >= MaxDictSize {
          dictionary := [];
        }
        PrefixedAssoc(before, [literal], DictDecodeFrom(dictionary, data[i + 1..]));
      } else {
        var idx := b;
        if idx >= |dictionary| {
          assert DictDecodeFrom(dictionary, data[i..]) == Err(InvalidDictionaryIndex(idx, |dictionary|));
          return Err(InvalidDictionaryIndex(idx, |dictionary|));
        }
        var val := dictionary[idx];
        out := out + [val];
        PrefixedAssoc(before, [val], DictDecodeFrom(dictionary, data[i + 1..]));
      }
    }
    assert data[|data|..] == [];
    assert out + [] == out;
    r := Ok(out);
  }

  lemma PrefixedEmpty(r: Result<seq<byte>>)
    ensures Prefixed([], r) == r
  {
    if r.Ok? {
      assert [] + r.value == r.value;
    }
  }

  lemma PrefixedAssoc(a: seq<byte>, b: seq<byte>, r: Result<seq<byte>>)
    ensures Prefixed(a, Prefixed(b, r)) == Prefixed(a + b, r)
  {
    if r.Ok? {
      assert a + (b + r.value) == (a + b) + r.value;
    }
  }

  /** The encoder's dictionary never holds a value twice and stays below
      capacity, whatever block is encoded. */
  lemma {:induction false} EncoderDictDistinct(d: seq<byte>, x: seq<byte>)
    requires |d| < MaxDictSize && Distinct(d)
    ensures Distinct(EncoderDict(d, x)) && |EncoderDict(d, x)| < MaxDictSize
    decreases |x|
  {
    if |x| > 0 {
      EncodeStepDistinct(d, x[0]);
      EncoderDictDistinct(EncodeStep(d, x[0]).dict, x[1..]);
    }
  }

  /** A run of a byte the dictionary already holds is encoded as a run of
      its index, and leaves the dictionary unchanged. */
  lemma {:induction false} DictKnownRun(d: seq<byte>, v: byte, n: nat)
    requires |d| < MaxDictSize && v in d
    ensures DictEncodeFrom(d, Repeat(v, n)) == Repeat(IndexOf(d, v), n)
  {
    if n > 0 {
      DictKnownRun(d, v, n - 1);
      assert Repeat(v, n)[1..] == Repeat(v, n - 1);
      assert [IndexOf(d, v) as byte] + Repeat(IndexOf(d, v), n - 1) == Repeat(IndexOf(d, v), n);
    }
  }

  /** The set of values held by `d`. */
  function Values(d: seq<byte>): set<int>
  {
    set v: int | v in d
  }

  lemma {:induction false} DistinctValuesCount(d: seq<byte>)
    requires Distinct(d)
    ensures |Values(d)| == |d|
    decreases |d|
  {
    if |d| > 0 {
      var t := d[1..];
      assert Distinct(t);
      DistinctValuesCount(t);
      assert Values(d) == {d[0]} + Values(t);
      assert d[0] !in Values(t);
    } else {
      assert Values(d) == {};
    }
  }

  /** The integers `0 .. n - 1`. */
  function Range(n: nat): (r: set<int>)
    ensures |r| == n
    ensures forall v :: v in r <==> 0 <= v < n
  {
    if n == 0 then {} else Range(n - 1) + {n - 1}
  }

  /** A dictionary of distinct values below 0x80 has at most 0x80 entries. */
  lemma LowDictionaryBound(d: seq<byte>)
    requires Distinct(d) && AllBelow128(d)
    ensures |d| <= 0x80
  {
    DistinctValuesCount(d);
    var range := Range(0x80);
    assert Values(d) <= range;
    assert range == Values(d) + (range - Values(d));
  }

  /** Encoding from a dictionary of distinct low bytes and decoding from the
      same dictionary gives back every block of low bytes: each index the
      encoder emits is below 0x80 and names the byte it replaced. */
  lemma {:induction false} DictRoundTripFrom(d: seq<byte>, x: seq<byte>)
    requires |d| < MaxDictSize && Distinct(d) && AllBelow128(d)
    requires AllBelow128(x)
    ensures DictDecodeFrom(d, DictEncodeFrom(d, x)) == Ok(x)
    decreases |x|
  {
    if |x| > 0 {
      var b := x[0];
      var s := EncodeStep(d, b);
      var e := DictEncodeFrom(d, x);
      assert e == [s.code] + DictEncodeFrom(s.dict, x[1..]);
      assert e[1..] == DictEncodeFrom(s.dict, x[1..]);
      if b in d {
        LowDictionaryBound(d);
        DictRoundTripFrom(d, x[1..]);
      } else {
        assert LowBits(s.code) == b;
        assert Distinct(d + [b]);
        DictRoundTripFrom(s.dict, x[1..]);
      }
      assert [b] + x[1..] == x;
    }
  }

  /** A block holding a byte of 0x80 or above does not survive the round
      trip: the first such byte is new to the dictionary, is emitted as
      itself, and is decoded with its high bit cleared. */
  lemma {:induction false} DictRoundTripLosesHighBytes(d: seq<byte>, x: seq<byte>)
    requires |d| < MaxDictSize && Distinct(d) && AllBelow128(d)
    requires !AllBelow128(x)
    ensures DictDecodeFrom(d, DictEncodeFrom(d, x)) != Ok(x)
    decreases |x|
  {
    var b := x[0];
    var s := EncodeStep(d, b);
    var e := DictEncodeFrom(d, x);
    assert e == [s.code] + DictEncodeFrom(s.dict, x[1..]);
    assert e[1..] == DictEncodeFrom(s.dict, x[1..]);
    if b >= 0x80 {
      assert b !in d;
      assert LowBits(e[0]) != b;
    } else if b in d {
      LowDictionaryBound(d);
      DictRoundTripLosesHighBytes(d, x[1..]);
    } else {
      assert Distinct(d + [b]);
      DictRoundTripLosesHighBytes(s.dict, x[1..]);
    }
  }

  /** The dictionary codec round-trips a block exactly when every byte of
      it is below 0x80. */
  lemma DictRoundTrip(x: seq<byte>)
    ensures DictDecode(DictEncode(x)) == Ok(x) <==> AllBelow128(x)
  {
    if AllBelow128(x) {
      DictRoundTripFrom([], x);
    } else {
      DictRoundTripLosesHighBytes([], x);
    }
  }

  /** A single high byte comes back with its high bit stripped. */
  lemma DictHighByteExample(b: byte)
    requires b >= 0x80
    ensures DictEncode([b]) == [b]
    ensures DictDecode(DictEncode([b])) == Ok([b - 0x80])
  {
    assert [b][1..] == [];
    assert Insert([], b) == [b];
    assert DictEncode([b]) == [b] + DictEncodeFrom([b], []);
    assert Insert([], b - 0x80) == [b - 0x80];
    assert [b - 0x80] + [] == [b - 0x80];
    assert DictDecode([b]) == Prefixed([b - 0x80], DictDecodeFrom([b - 0x80], []));
  }

  /** Decoding fails exactly when some byte with the high bit clear is not
      below the length of the dictionary replayed so far. */
  lemma {:induction false} DictDecodeFailsIff(d: seq<byte>, e: seq<byte>)
    ensures DictDecodeFrom(d, e).Err? <==> exists i :: 0 <= i < |e| && BadIndexAt(d, e, i)
    decreases |e|
  {
    if |e| > 0 {
      var d' := if HighBit(e[0]) then Insert(d, LowBits(e[0])) else d;
      var t := e[1..];
      DictDecodeFailsIff(d', t);
      assert e[..0] == [];
      assert DictDecodeFrom(d, e).Err? == (BadIndexAt(d, e, 0) || DictDecodeFrom(d', t).Err?);
      forall i | 0 < i < |e|
        ensures BadIndexAt(d, e, i) == BadIndexAt(d', t, i - 1)
      {
        assert e[..i][1..] == t[..i - 1];
        assert e[..i][0] == e[0];
      }
      if exists j :: 0 <= j < |t| && BadIndexAt(d', t, j) {
        var j :| 0 <= j < |t| && BadIndexAt(d', t, j);
        assert BadIndexAt(d, e, j + 1);
      }
      if exists i :: 0 <= i < |e| && BadIndexAt(d, e, i) {
        var i :| 0 <= i < |e| && BadIndexAt(d, e, i);
        if i > 0 {
          assert BadIndexAt(d', t, i - 1);
        }
      }
    }
  }

  /** Every byte of `x` with its literal flag cleared. */
  function StripHighBits(x: seq<byte>): (r: seq<byte>)
    ensures |r| == |x|
    ensures forall i :: 0 <= i < |x| ==> r[i] == LowBits(x[i])
  {
    seq(|x|, i requires 0 <= i < |x| => LowBits(x[i]))
  }

  lemma SubsetSize(a: set<int>, b: set<int>)
    requires a <= b
    ensures |a| <= |b|
  {
    assert b == a + (b - a);
  }

  /** The counting facts one step of `DictStripsFrom` needs: the
      dictionary fits below the flag, and the bound still holds for the
      rest of the block, with or without the new byte appended. */
  lemma StripStepBounds(d: seq<byte>, x: seq<byte>)
    requires |x| > 0 && Distinct(d)
    requires |Values(d) + Values(x)| <= 0x80
    ensures |d| <= 0x80
    ensures |Values(d) + Values(x[1..])| <= 0x80
    ensures x[0] !in d ==> |Values(d + [x[0]]) + Values(x[1..])| <= 0x80
  {
    var t := x[1..];
    assert Values(t) <= Values(x);
    SubsetSize(Values(d), Values(d) + Values(x));
    DistinctValuesCount(d);
    SubsetSize(Values(d) + Values(t), Values(d) + Values(x));
    if x[0] !in d {
      assert Values(d + [x[0]]) == Values(d) + {x[0] as int};
      SubsetSize(Values(d + [x[0]]) + Values(t), Values(d) + Values(x));
    }
  }

  /** One step of `DictStripsFrom`: the first byte comes back with its
      flag cleared, and the decoder's dictionary is the encoder's one with
      its flags cleared again. */
  lemma StripStep(d: seq<byte>, x: seq<byte>)
    requires |x| > 0 && |d| <= 0x80
    ensures var s := EncodeStep(d, x[0]);
      DictDecodeFrom(StripHighBits(d), DictEncodeFrom(d, x))
      == Prefixed([LowBits(x[0])], DictDecodeFrom(StripHighBits(s.dict), DictEncodeFrom(s.dict, x[1..])))
  {
    var b := x[0];
    var s := EncodeStep(d, b);
    var sd := StripHighBits(d);
    var e := DictEncodeFrom(d, x);
    assert e[0] == s.code;
    assert e[1..] == DictEncodeFrom(s.dict, x[1..]);
    if b in d {
      assert !HighBit(s.code) && s.code < |sd| && sd[s.code] == LowBits(b);
    } else {
      assert HighBit(s.code) && LowBits(s.code) == LowBits(b);
      StripAppend(d, b);
      assert Insert(sd, LowBits(b)) == sd + [LowBits(b)];
    }
  }

  lemma StripAppend(d: seq<byte>, b: byte)
    ensures StripHighBits(d + [b]) == StripHighBits(d) + [LowBits(b)]
  {
    var l := StripHighBits(d + [b]);
    var r := StripHighBits(d) + [LowBits(b)];
    assert |l| == |r|;
    forall i | 0 <= i < |l| ensures l[i] == r[i] {
      if i < |d| {
        assert (d + [b])[i] == d[i];
      }
    }
  }

  /** Encoding from a dictionary `d` and decoding from `d` with its flags
      cleared (the dictionary the decoder builds from the same literals)
      gives back the block with every high bit stripped, as long as the
      two together hold at most 0x80 distinct values: every index then
      stays below the literal flag. */
  lemma {:induction false} DictStripsFrom(d: seq<byte>, x: seq<byte>)
    requires |d| < MaxDictSize && Distinct(d)
    requires |Values(d) + Values(x)| <= 0x80
    ensures DictDecodeFrom(StripHighBits(d), DictEncodeFrom(d, x)) == Ok(StripHighBits(x))
    decreases |x|
  {
    if |x| > 0 {
      var b := x[0];
      var t := x[1..];
      var s := EncodeStep(d, b);
      StripStepBounds(d, x);
      StripStep(d, x);
      EncodeStepDistinct(d, b);
      DictStripsFrom(s.dict, t);
      StripCons(x);
    }
  }

  lemma EncodeStepDistinct(d: seq<byte>, b: byte)
    requires |d| < MaxDictSize && Distinct(d)
    ensures Distinct(EncodeStep(d, b).dict)
  {
    if b !in d && |d| + 1 < MaxDictSize {
      assert Distinct(d + [b]);
    }
  }

  lemma StripCons(x: seq<byte>)
    requires |x| > 0
    ensures StripHighBits(x) == [LowBits(x[0])] + StripHighBits(x[1..])
  {
    assert [LowBits(x[0])] + StripHighBits(x[1..]) == StripHighBits(x);
  }

  /** A block with at most 0x80 distinct values comes back with the high
      bit of every byte cleared: bytes below 0x80 survive, a byte of 0x80
      or more comes back as that byte minus 0x80. */
  lemma DictStripsHighBits(x: seq<byte>)
    requires |Values(x)| <= 0x80
    ensures DictDecode(DictEncode(x)) == Ok(StripHighBits(x))
  {
    assert Values([]) + Values(x) == Values(x);
    assert StripHighBits([]) == [];
    DictStripsFrom([], x);
  }

  /** `0, 1, .., n - 1` */
  function Ascending(n: nat): (r: seq<byte>)
    requires n <= 256
    ensures |r| == n && forall i :: 0 <= i < n ==> r[i] == i
  {
    seq(n, i requires 0 <= i < n => i as byte)
  }

  /** The block of `IndexFlagCollision`: the bytes 0 .. 0x80, then 0x80
      again. */
  function CollisionBlock(): seq<byte>
  {
    Ascending(0x81) + [0x80]
  }

  lemma AscendingSnoc(k: nat)
    requires k < 256
    ensures Ascending(k) + [k as byte] == Ascending(k + 1)
  {
  }

  /** The literals for the bytes `k .. 0x80`. */
  function LiteralsFrom(k: nat): (r: seq<byte>)
    requires k <= 0x81
    ensures |r| == 0x81 - k
    ensures forall i :: 0 <= i < |r| ==> r[i] == SetHigh(k + i)
    decreases 0x81 - k
  {
    if k == 0x81 then [] else [SetHigh(k)] + LiteralsFrom(k + 1)
  }

  /** What the encoder emits for `CollisionBlock`: the literals for
      0 .. 0x80, then 0x80 again. */
  function CollisionPayload(): (r: seq<byte>)
    ensures |r| == 0x82 && r[0x80] == 0x80 && r[0x81] == 0x80
    ensures forall i :: 0 <= i < |r| ==> HighBit(r[i])
  {
    LiteralsFrom(0) + [0x80]
  }

  /** Encoding the rest of `CollisionBlock` from position `k`: every byte
      up to 0x80 is new, and the final 0x80 is found at index 0x80. */
  lemma {:induction false} CollisionEncodeFrom(k: nat)
    requires k <= 0x81
    ensures DictEncodeFrom(Ascending(k), CollisionBlock()[k..]) == LiteralsFrom(k) + [0x80]
    decreases 0x81 - k
  {
    var x := CollisionBlock()[k..];
    var d := Ascending(k);
    if k == 0x81 {
      assert x == [0x80];
      assert d[0x80] == 0x80;
      var j := IndexOf(d, 0x80);
      assert [0x80][1..] == [];
      assert DictEncodeFrom(d, x) == [j] + DictEncodeFrom(d, []);
    } else {
      assert x[0] == k;
      assert k !in d by {
        forall i | 0 <= i < k ensures d[i] != k {}
      }
      AscendingSnoc(k);
      assert x[1..] == CollisionBlock()[k + 1..];
      CollisionEncodeFrom(k + 1);
      assert [SetHigh(k)] + (LiteralsFrom(k + 1) + [0x80]) == LiteralsFrom(k) + [0x80];
    }
  }

  /** A payload of literals only decodes to its bytes with the flags
      cleared, whatever the dictionary. */
  lemma {:induction false} LiteralsDecode(d: seq<byte>, e: seq<byte>)
    requires forall i :: 0 <= i < |e| ==> HighBit(e[i])
    ensures DictDecodeFrom(d, e) == Ok(StripHighBits(e))
    decreases |e|
  {
    if |e| > 0 {
      LiteralsDecode(Insert(d, LowBits(e[0])), e[1..]);
      StripCons(e);
    }
  }

  lemma CollisionPayloadStripped()
    ensures StripHighBits(CollisionPayload()) == Ascending(0x80) + [0, 0]
  {
    var p := CollisionPayload();
    var q := Ascending(0x80) + [0, 0];
    forall i | 0 <= i < 0x82
      ensures LowBits(p[i]) == q[i]
    {
      if i < 0x80 {
        assert p[i] == LiteralsFrom(0)[i] == SetHigh(i);
      }
    }
  }

  /** Once the dictionary holds more than 0x80 entries, an index the
      encoder emits can carry the literal flag. The block 0, 1, .., 0x80,
      0x80 is encoded as the literals 0x80 .. 0xFF, 0x80 for its first 0x81
      bytes and the index 0x80 for the repeat, so the last two bytes of
      the payload are both 0x80. The decoder reads both as literals for 0,
      so the block comes back as 0, 1, .., 0x7F, 0, 0. */
  lemma IndexFlagCollision()
    ensures DictEncode(CollisionBlock()) == LiteralsFrom(0) + [0x80]
    ensures DictEncode(CollisionBlock())[0x80] == DictEncode(CollisionBlock())[0x81] == 0x80
    ensures DictDecode(DictEncode(CollisionBlock())) == Ok(Ascending(0x80) + [0, 0])
  {
    assert CollisionBlock()[0..] == CollisionBlock();
    assert Ascending(0) == [];
    CollisionEncodeFrom(0);
    LiteralsDecode([], CollisionPayload());
    CollisionPayloadStripped();
  }
}
