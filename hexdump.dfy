/** `hexdump`: a block rendered as uppercase two-digit hex numbers joined by
    a separator. */
module HexFormat {
  import opened Blocks

  const HexDigits: string := "0123456789ABCDEF"

  /** `f"{x:02X}"`: two uppercase hex digits, the high nibble first. */
  function HexPair(x: byte): (r: string)
    ensures |r| == 2 && r[0] in HexDigits && r[1] in HexDigits
  {
    [HexDigits[x / 16], HexDigits[x % 16]]
  }

  /** Value of one hex digit. */
  function DigitValue(c: char): nat
  {
    if '0' <= c <= '9' then c as int - '0' as int
    else if 'A' <= c <= 'F' then c as int - 'A' as int + 10
    else 0
  }

  /** Reads two hex digits back. */
  function ParsePair(s: string): nat
    requires |s| == 2
  {
    DigitValue(s[0]) * 16 + DigitValue(s[1])
  }

  /** `sep.join(parts)` */
  function Join(parts: seq<string>, sep: string): string
    decreases |parts|
  {
    if |parts| == 0 then ""
    else if |parts| == 1 then parts[0]
    else parts[0] + sep + Join(parts[1..], sep)
  }

  /** `hexdump(b, sep=" ")` */
  function Hexdump(b: seq<byte>, sep: string := " "): string
  {
    Join(Pairs(b), sep)
  }

  /** The two digits of a byte name that byte, so the rendering is
      zero-padded and loses nothing. */
  lemma HexPairParses(x: byte)
    ensures ParsePair(HexPair(x)) == x
  {
    var hi, lo := x / 16, x % 16;
    assert DigitValue(HexDigits[hi]) == hi by {
      if hi < 10 {} else {}
    }
    assert DigitValue(HexDigits[lo]) == lo by {
      if lo < 10 {} else {}
    }
  }

  /** The rendered pairs, one per byte. */
  function Pairs(b: seq<byte>): (parts: seq<string>)
    ensures |parts| == |b|
    ensures forall i :: 0 <= i < |b| ==> parts[i] == HexPair(b[i]) && |parts[i]| == 2
  {
    seq(|b|, i requires 0 <= i < |b| => HexPair(b[i]))
  }

  lemma {:induction false} JoinLength(parts: seq<string>, sep: string)
    requires forall i :: 0 <= i < |parts| ==> |parts[i]| == 2
    ensures |parts| > 0 ==> |Join(parts, sep)| + |sep| == (2 + |sep|) * |parts|
    decreases |parts|
  {
    if |parts| >= 2 {
      JoinLength(parts[1..], sep);
    }
  }

  lemma {:induction false} JoinAt(parts: seq<string>, sep: string, k: nat, o: nat)
    requires forall i :: 0 <= i < |parts| ==> |parts[i]| == 2
    requires k < |parts| && o == k * (2 + |sep|)
    ensures o + 2 <= |Join(parts, sep)| && Join(parts, sep)[o .. o + 2] == parts[k]
    ensures k + 1 < |parts| ==>
      o + 2 + |sep| <= |Join(parts, sep)| && Join(parts, sep)[o + 2 .. o + 2 + |sep|] == sep
    decreases k
  {
    var w := 2 + |sep|;
    if |parts| >= 2 {
      var head := parts[0] + sep;
      var rest := Join(parts[1..], sep);
      assert Join(parts, sep) == head + rest;
      if k > 0 {
        MulStep(k, w);
        JoinAt(parts[1..], sep, k - 1, o - w);
        SliceOfSuffix(head, rest, o, o + 2);
        if k + 1 < |parts| {
          SliceOfSuffix(head, rest, o + 2, o + 2 + |sep|);
        }
      } else {
        assert (head + rest)[0 .. 2] == head[0 .. 2];
        assert (head + rest)[2 .. 2 + |sep|] == head[2 .. w];
      }
    }
  }

  /** Empty input gives the empty string; otherwise each byte takes two
      characters and a separator stands between neighbours only. */
  lemma HexdumpLength(b: seq<byte>, sep: string)
    ensures |b| == 0 ==> Hexdump(b, sep) == ""
    ensures |b| > 0 ==> |Hexdump(b, sep)| == 2 * |b| + |sep| * (|b| - 1)
  {
    JoinLength(Pairs(b), sep);
    if |b| > 0 {
      MulStep(|b|, |sep|);
    }
  }

  /** Byte `k` appears, in input order, as its two hex digits at offset
      `o = k * (2 + |sep|)`, and the separator follows every byte but the
      last. */
  lemma HexdumpAt(b: seq<byte>, sep: string, k: nat, o: nat)
    requires k < |b| && o == k * (2 + |sep|)
    ensures o + 2 <= |Hexdump(b, sep)|
    ensures Hexdump(b, sep)[o .. o + 2] == HexPair(b[k])
    ensures k + 1 < |b| ==>
      o + 2 + |sep| <= |Hexdump(b, sep)| && Hexdump(b, sep)[o + 2 .. o + 2 + |sep|] == sep
  {
    JoinAt(Pairs(b), sep, k, o);
  }

  lemma SliceOfSuffix(p: string, q: string, i: nat, j: nat)
    requires |p| <= i <= j <= |p| + |q|
    ensures (p + q)[i .. j] == q[i - |p| .. j - |p|]
  {
  }

  lemma MulStep(k: nat, w: nat)
    requires k > 0
    ensures (k - 1) * w == k * w - w
  {
  }

  /** The default separator is a single space. */
  lemma HexdumpExample()
    ensures Hexdump([0x0A, 0xFF]) == "0A FF"
  {
    var parts := Pairs([0x0A, 0xFF]);
    assert parts == ["0A", "FF"];
    assert parts[1..] == ["FF"];
  }
}
